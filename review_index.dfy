/**
 * `fetch_restaurant_data`: parse a line-oriented review corpus
 * (`<Restaurant>. <review>` per line) into an insertion-ordered dictionary
 * from restaurant name to reviews, then collect the reviews of every name
 * that contains the requested fragment, ignoring case.
 *
 * The corpus file is given as its sequence of lines.
 */
module ReviewIndex {
  import opened Wrappers
  import opened Text

  /** Separates the restaurant name from the review text on a corpus line. */
  const Delimiter: string := ". "

  /** The single review returned when no restaurant name matches. */
  const NoReviews: string := "No reviews found for this restaurant."

  /** One data line of the corpus. */
  datatype Record = Record(name: string, review: string)

  /**
   * A Python dict from restaurant name to its reviews: `keys` lists the names
   * in insertion order, `reviews` maps each name to its list.
   */
  datatype Index = Index(keys: seq<string>, reviews: map<string, seq<string>>)

  const EmptyIndex := Index([], map[])

  /**
   * The record one corpus line contributes, if any: the stripped line must be
   * non-empty and contain the delimiter; the name is the stripped text before
   * its first occurrence and the review the stripped text after it.
   */
  function ParseLine(line: string): (r: Option<Record>)
    ensures r.Some? <==> Strip(line) != [] && Contains(Strip(line), Delimiter)
  {
    var t := Strip(line);
    if t == [] then None
    else
      match SplitOnce(t, Delimiter)
      case None => None
      case Some((head, tail)) => Some(Record(Strip(head), Strip(tail)))
  }

  /**
   * Splitting happens at the FIRST delimiter: whenever the stripped line is
   * `head + ". " + tail` and `head` holds no delimiter, the record is the
   * stripped `head` and the stripped `tail`, whatever `tail` contains.
   */
  lemma ParseLineAt(line: string, head: string, tail: string)
    requires Strip(line) == head + Delimiter + tail
    requires !Contains(head, Delimiter)
    ensures ParseLine(line) == Some(Record(Strip(head), Strip(tail)))
  {
    var t := Strip(line);
    assert OccursAt(t, Delimiter, |head|);
    NoDelimiterBefore(t, head, tail);
    var sp := SplitOnce(t, Delimiter);
    var h := sp.value.0;
    assert OccursAt(t, Delimiter, |h|);
    assert |h| == |head|;
    assert h == t[..|head|] == head;
    assert sp.value.1 == t[|head| + 2..] == tail;
  }

  /** In `head + ". " + tail`, no delimiter starts inside a `head` that holds none. */
  lemma NoDelimiterBefore(t: string, head: string, tail: string)
    requires t == head + Delimiter + tail
    requires !Contains(head, Delimiter)
    ensures forall k: nat :: k < |head| ==> !OccursAt(t, Delimiter, k)
  {
    assert t[|head|] == '.';
    forall k: nat | k < |head| && OccursAt(t, Delimiter, k)
      ensures false
    {
      if k + 2 <= |head| {
        assert head[k..k + 2] == t[k..k + 2];
        assert OccursAt(head, Delimiter, k);
      }
    }
  }

  /** The records of the corpus, in line order. */
  function Records(lines: seq<string>): seq<Record> {
    if lines == [] then []
    else
      var prev := Records(lines[..|lines| - 1]);
      match ParseLine(lines[|lines| - 1])
      case None => prev
      case Some(rec) => prev + [rec]
  }

  /** The dictionary after appending one record's review under its name. */
  function Insert(idx: Index, rec: Record): (r: Index)
    ensures KeysIndexed(idx) ==> KeysIndexed(r)
  {
    if rec.name in idx.reviews then
      Index(idx.keys, idx.reviews[rec.name := idx.reviews[rec.name] + [rec.review]])
    else
      Index(idx.keys + [rec.name], idx.reviews[rec.name := [rec.review]])
  }

  /** The dictionary built from records taken in order. */
  function Build(recs: seq<Record>): (r: Index)
    ensures KeysIndexed(r)
  {
    if recs == [] then EmptyIndex else Insert(Build(recs[..|recs| - 1]), recs[|recs| - 1])
  }

  /** The dictionary `fetch_restaurant_data` builds from the corpus. */
  function IndexOf(lines: seq<string>): (r: Index)
    ensures KeysIndexed(r)
  {
    Build(Records(lines))
  }

  /** The restaurant names of the records, in order. */
  function Names(recs: seq<Record>): seq<string> {
    seq(|recs|, i requires 0 <= i < |recs| => recs[i].name)
  }

  /** The reviews of the records named `name`, in order. */
  function ReviewsFor(recs: seq<Record>, name: string): seq<string> {
    if recs == [] then []
    else
      var last := recs[|recs| - 1];
      ReviewsFor(recs[..|recs| - 1], name) + (if last.name == name then [last.review] else [])
  }

  /** Every review text of the records, in order. */
  function AllRecordReviews(recs: seq<Record>): seq<string> {
    seq(|recs|, i requires 0 <= i < |recs| => recs[i].review)
  }

  /** The dict invariants: distinct keys, the keys are the domain, and no list is empty. */
  ghost predicate WellFormed(idx: Index) {
    && (forall i, j :: 0 <= i < j < |idx.keys| ==> idx.keys[i] != idx.keys[j])
    && (forall n :: n in idx.reviews <==> n in idx.keys)
    && (forall n :: n in idx.reviews ==> idx.reviews[n] != [])
  }

  predicate KeysIndexed(idx: Index) {
    forall k :: k in idx.keys ==> k in idx.reviews
  }

  /** Every key occurs among `names` before the first occurrence of any later key. */
  ghost predicate InFirstAppearanceOrder(keys: seq<string>, names: seq<string>) {
    forall i, j :: 0 <= i < j < |keys| ==> FirstAppearsBefore(names, keys[i], keys[j])
  }

  /** `a` occurs in `names` before the first occurrence of `b`. */
  ghost predicate FirstAppearsBefore(names: seq<string>, a: string, b: string) {
    exists p :: 0 <= p < |names| && names[p] == a && b !in names[..p]
  }

  lemma NamesSnoc(recs: seq<Record>)
    requires recs != []
    ensures Names(recs) == Names(recs[..|recs| - 1]) + [recs[|recs| - 1].name]
  {
  }

  lemma RecordsSnoc(lines: seq<string>, i: nat)
    requires i < |lines|
    ensures Records(lines[..i + 1]) ==
      match ParseLine(lines[i])
      case None => Records(lines[..i])
      case Some(rec) => Records(lines[..i]) + [rec]
  {
    assert lines[..i + 1][..i] == lines[..i];
  }

  /** The two steps of the update in `fetch_restaurant_data` (create an empty list if needed, then append) are `Insert`. */
  lemma InsertStep(keys: seq<string>, reviews: map<string, seq<string>>, rec: Record)
    ensures var (keys', reviews') :=
        if rec.name !in reviews then (keys + [rec.name], reviews[rec.name := []]) else (keys, reviews);
      Index(keys', reviews'[rec.name := reviews'[rec.name] + [rec.review]]) == Insert(Index(keys, reviews), rec)
  {
    if rec.name !in reviews {
      var m := reviews[rec.name := []];
      assert m[rec.name] + [rec.review] == [rec.review];
      assert m[rec.name := [rec.review]] == reviews[rec.name := [rec.review]];
    }
  }

  lemma BuildSnoc(recs: seq<Record>, rec: Record)
    ensures Build(recs + [rec]) == Insert(Build(recs), rec)
  {
    assert (recs + [rec])[..|recs|] == recs;
  }

  /**
   * The dictionary is well formed, and its keys are exactly the names that
   * occur in the records.
   */
  lemma {:induction false} BuildWellFormed(recs: seq<Record>)
    ensures WellFormed(Build(recs))
    ensures forall n :: n in Build(recs).reviews <==> n in Names(recs)
  {
    if recs != [] {
      var prefix := recs[..|recs| - 1];
      BuildWellFormed(prefix);
      NamesSnoc(recs);
    }
  }

  /** Each name's list holds exactly the reviews of that name's records, in record order. */
  lemma {:induction false} BuildReviews(recs: seq<Record>)
    ensures forall n :: n in Build(recs).reviews ==> Build(recs).reviews[n] == ReviewsFor(recs, n)
  {
    if recs != [] {
      var prefix := recs[..|recs| - 1];
      BuildReviews(prefix);
      BuildWellFormed(prefix);
      forall n | n in Build(recs).reviews
        ensures Build(recs).reviews[n] == ReviewsFor(recs, n)
      {
        if n != recs[|recs| - 1].name {
          assert n in Build(prefix).reviews;
        } else if n !in Build(prefix).reviews {
          assert n !in Names(prefix);
          ReviewsForAbsent(prefix, n);
        }
      }
    }
  }

  lemma {:induction false} ReviewsForAbsent(recs: seq<Record>, name: string)
    requires name !in Names(recs)
    ensures ReviewsFor(recs, name) == []
  {
    if recs != [] {
      NamesSnoc(recs);
      ReviewsForAbsent(recs[..|recs| - 1], name);
    }
  }

  /** Keys are listed in order of their first appearance among the records. */
  lemma {:induction false} BuildKeyOrder(recs: seq<Record>)
    ensures InFirstAppearanceOrder(Build(recs).keys, Names(recs))
  {
    if recs != [] {
      var prefix := recs[..|recs| - 1];
      var rec := recs[|recs| - 1];
      BuildKeyOrder(prefix);
      BuildWellFormed(prefix);
      NamesSnoc(recs);
      var old_keys, keys := Build(prefix).keys, Build(recs).keys;
      var names, old_names := Names(recs), Names(prefix);
      forall i, j | 0 <= i < j < |keys|
        ensures FirstAppearsBefore(names, keys[i], keys[j])
      {
        assert old_keys <= keys;
        if j < |old_keys| {
          assert keys[i] == old_keys[i] && keys[j] == old_keys[j];
          assert FirstAppearsBefore(old_names, old_keys[i], old_keys[j]);
          var p :| 0 <= p < |old_names| && old_names[p] == old_keys[i] && old_keys[j] !in old_names[..p];
          assert names[..p] == old_names[..p];
        } else {
          assert keys[j] == rec.name && rec.name !in old_names;
          assert keys[i] in Build(prefix).reviews;
          var p :| 0 <= p < |old_names| && old_names[p] == keys[i];
          assert names[..p] == old_names[..p];
          assert names[..p] <= old_names;
        }
      }
    }
  }

  /**
   * Parsing and indexing the corpus: fills the dictionary line by line,
   * creating a key on a name's first record and appending every review.
   */
  method BuildIndex(lines: seq<string>) returns (idx: Index)
    ensures idx == IndexOf(lines)
    ensures WellFormed(idx)
  {
    var keys: seq<string> := [];
    var reviews: map<string, seq<string>> := map[];
    for i := 0 to |lines|
      invariant Index(keys, reviews) == Build(Records(lines[..i]))
    {
      RecordsSnoc(lines, i);
      var line := Strip(lines[i]);
      if line == [] {
        continue;
      }
      match SplitOnce(line, Delimiter)
      case None =>
      case Some((head, tail)) =>
        var name := Strip(head);
        var review := Strip(tail);
        assert ParseLine(lines[i]) == Some(Record(name, review));
        BuildSnoc(Records(lines[..i]), Record(name, review));
        InsertStep(keys, reviews, Record(name, review));
        if name !in reviews {
          keys := keys + [name];
          reviews := reviews[name := []];
        }
        reviews := reviews[name := reviews[name] + [review]];
    }
    assert lines[..|lines|] == lines;
    idx := Index(keys, reviews);
    BuildWellFormed(Records(lines));
  }

  // ---------------------------------------------------------------------
  // Lookup
  // ---------------------------------------------------------------------

  /** The test of `fetch_restaurant_data`: the lower-cased fragment is a substring of the lower-cased key. */
  predicate Matches(key: string, fragment: string): (b: bool)
    ensures fragment == [] ==> b
    ensures b ==> |fragment| <= |key|
    ensures Lower(key) == Lower(fragment) ==> b
  {
    Contains(Lower(key), Lower(fragment))
  }

  /** The reviews of the keys that match `fragment`, in key order, then review order. */
  function Gather(keys: seq<string>, reviews: map<string, seq<string>>, fragment: string): seq<string>
    requires forall k :: k in keys ==> k in reviews
  {
    if keys == [] then []
    else
      var last := keys[|keys| - 1];
      Gather(keys[..|keys| - 1], reviews, fragment) + (if Matches(last, fragment) then reviews[last] else [])
  }

  /** Every review of every key, in key order, then review order. */
  function AllReviews(keys: seq<string>, reviews: map<string, seq<string>>): seq<string>
    requires forall k :: k in keys ==> k in reviews
  {
    if keys == [] then [] else AllReviews(keys[..|keys| - 1], reviews) + reviews[keys[|keys| - 1]]
  }

  /**
   * What `fetch_restaurant_data` returns: a one-entry dict keyed by the
   * fragment as given, holding the gathered reviews, or the single
   * "no reviews" sentinel when nothing was gathered.
   */
  function Lookup(idx: Index, fragment: string): map<string, seq<string>>
    requires KeysIndexed(idx)
  {
    var found := Gather(idx.keys, idx.reviews, fragment);
    map[fragment := if found == [] then [NoReviews] else found]
  }

  lemma {:induction false} GatherAppend(ks1: seq<string>, ks2: seq<string>, m: map<string, seq<string>>, f: string)
    requires forall k :: k in ks1 + ks2 ==> k in m
    ensures Gather(ks1 + ks2, m, f) == Gather(ks1, m, f) + Gather(ks2, m, f)
  {
    if ks2 != [] {
      var init := ks2[..|ks2| - 1];
      assert (ks1 + ks2)[..|ks1 + ks2| - 1] == ks1 + init;
      assert (ks1 + ks2)[|ks1 + ks2| - 1] == ks2[|ks2| - 1];
      GatherAppend(ks1, init, m, f);
    } else {
      assert ks1 + ks2 == ks1;
    }
  }

  /** Nothing is gathered exactly when no key matches (every key having at least one review). */
  lemma {:induction false} GatherEmpty(ks: seq<string>, m: map<string, seq<string>>, f: string)
    requires forall k :: k in ks ==> k in m && m[k] != []
    ensures Gather(ks, m, f) == [] <==> forall k :: k in ks ==> !Matches(k, f)
  {
    if ks != [] {
      GatherEmpty(ks[..|ks| - 1], m, f);
      assert forall k :: k in ks ==> k in ks[..|ks| - 1] || k == ks[|ks| - 1];
    }
  }

  /** A review is gathered exactly when some matching key lists it. */
  lemma {:induction false} GatherMembers(ks: seq<string>, m: map<string, seq<string>>, f: string, r: string)
    requires forall k :: k in ks ==> k in m
    ensures r in Gather(ks, m, f) <==> exists k :: k in ks && Matches(k, f) && r in m[k]
  {
    if ks != [] {
      var init, last := ks[..|ks| - 1], ks[|ks| - 1];
      GatherMembers(init, m, f, r);
      assert forall k :: k in ks <==> k in init || k == last;
    }
  }

  /** The empty fragment is a substring of every key, so it gathers every review. */
  lemma {:induction false} GatherEmptyFragment(ks: seq<string>, m: map<string, seq<string>>)
    requires forall k :: k in ks ==> k in m
    ensures Gather(ks, m, "") == AllReviews(ks, m)
  {
    if ks != [] {
      GatherEmptyFragment(ks[..|ks| - 1], m);
      assert Contains(Lower(ks[|ks| - 1]), []);
      assert Lower("") == "";
    }
  }

  /**
   * The result is keyed by the fragment as given and is never empty: it is
   * the sentinel alone when no key matches, and otherwise what was gathered.
   */
  lemma LookupSentinel(idx: Index, fragment: string)
    requires WellFormed(idx)
    ensures Lookup(idx, fragment).Keys == {fragment}
    ensures Lookup(idx, fragment)[fragment] != []
    ensures (forall k :: k in idx.keys ==> !Matches(k, fragment)) ==>
      Lookup(idx, fragment)[fragment] == [NoReviews]
    ensures (exists k :: k in idx.keys && Matches(k, fragment)) ==>
      Lookup(idx, fragment)[fragment] == Gather(idx.keys, idx.reviews, fragment)
  {
    GatherEmpty(idx.keys, idx.reviews, fragment);
  }

  lemma {:induction false} GatherNoMatch(ks: seq<string>, m: map<string, seq<string>>, f: string)
    requires forall k :: k in ks ==> k in m
    requires forall i :: 0 <= i < |ks| ==> !Matches(ks[i], f)
    ensures Gather(ks, m, f) == []
  {
    if ks != [] {
      GatherNoMatch(ks[..|ks| - 1], m, f);
    }
  }

  lemma GatherOnly(ks: seq<string>, m: map<string, seq<string>>, f: string, i: nat)
    requires forall k :: k in ks ==> k in m
    requires i < |ks| && Matches(ks[i], f)
    requires forall j :: 0 <= j < |ks| && j != i ==> !Matches(ks[j], f)
    ensures Gather(ks, m, f) == m[ks[i]]
  {
    var before, after := ks[..i], ks[i + 1..];
    assert ks == (before + [ks[i]]) + after;
    GatherAppend(before + [ks[i]], after, m, f);
    GatherAppend(before, [ks[i]], m, f);
    GatherNoMatch(before, m, f);
    GatherNoMatch(after, m, f);
    assert Gather([ks[i]], m, f) == m[ks[i]] by {
      assert [ks[i]][..0] == [];
    }
  }

  /** A fragment that only one key matches yields exactly that key's reviews, in order. */
  lemma LookupUniqueMatch(idx: Index, fragment: string, i: nat)
    requires WellFormed(idx)
    requires i < |idx.keys| && Matches(idx.keys[i], fragment)
    requires forall j :: 0 <= j < |idx.keys| && j != i ==> !Matches(idx.keys[j], fragment)
    ensures Lookup(idx, fragment)[fragment] == idx.reviews[idx.keys[i]]
  {
    GatherOnly(idx.keys, idx.reviews, fragment, i);
  }

  /**
   * A fragment that exactly two keys match merges their reviews: the earlier
   * key's reviews, then the later key's.
   */
  lemma LookupTwoMatches(idx: Index, fragment: string, i: nat, j: nat)
    requires WellFormed(idx)
    requires i < j < |idx.keys| && Matches(idx.keys[i], fragment) && Matches(idx.keys[j], fragment)
    requires forall k :: 0 <= k < |idx.keys| && k != i && k != j ==> !Matches(idx.keys[k], fragment)
    ensures Lookup(idx, fragment)[fragment] == idx.reviews[idx.keys[i]] + idx.reviews[idx.keys[j]]
  {
    var ks, m := idx.keys, idx.reviews;
    var upTo, after := ks[..j + 1], ks[j + 1..];
    assert ks == upTo + after;
    GatherAppend(upTo, after, m, fragment);
    GatherNoMatch(after, m, fragment);
    assert upTo == ks[..j] + [ks[j]];
    GatherAppend(ks[..j], [ks[j]], m, fragment);
    GatherOnly([ks[j]], m, fragment, 0);
    GatherOnly(ks[..j], m, fragment, i);
  }

  /** Matching ignores case: fragments that lower-case alike give the same reviews. */
  lemma {:induction false} GatherIgnoresCase(ks: seq<string>, m: map<string, seq<string>>, f1: string, f2: string)
    requires forall k :: k in ks ==> k in m
    requires Lower(f1) == Lower(f2)
    ensures Gather(ks, m, f1) == Gather(ks, m, f2)
  {
    if ks != [] {
      GatherIgnoresCase(ks[..|ks| - 1], m, f1, f2);
    }
  }

  method LookupReviews(idx: Index, restaurantName: string) returns (r: map<string, seq<string>>)
    requires KeysIndexed(idx)
    ensures r == Lookup(idx, restaurantName)
    ensures r.Keys == {restaurantName} && r[restaurantName] != []
  {
    var reviews: seq<string> := [];
    for i := 0 to |idx.keys|
      invariant reviews == Gather(idx.keys[..i], idx.reviews, restaurantName)
    {
      assert idx.keys[..i + 1][..i] == idx.keys[..i];
      var key := idx.keys[i];
      if Contains(Lower(key), Lower(restaurantName)) {
        reviews := reviews + idx.reviews[key];
      }
    }
    assert idx.keys[..|idx.keys|] == idx.keys;
    r := if reviews != [] then map[restaurantName := reviews] else map[restaurantName := [NoReviews]];
  }

  /** `fetch_restaurant_data(restaurant_name)` over the corpus `lines`. */
  method FetchRestaurantData(lines: seq<string>, restaurantName: string) returns (r: map<string, seq<string>>)
    ensures r == Lookup(IndexOf(lines), restaurantName)
    ensures r.Keys == {restaurantName} && r[restaurantName] != []
  {
    var idx := BuildIndex(lines);
    r := LookupReviews(idx, restaurantName);
  }

  // ---------------------------------------------------------------------
  // Lookup over a corpus: the dictionary of a corpus is `Build(Records(lines))`
  // ---------------------------------------------------------------------

  /**
   * A fragment that matches exactly one restaurant name of the records yields
   * that restaurant's reviews in record order.
   */
  lemma FetchUniqueMatch(recs: seq<Record>, fragment: string, name: string)
    requires name in Names(recs) && Matches(name, fragment)
    requires forall n :: n in Names(recs) && n != name ==> !Matches(n, fragment)
    ensures Lookup(Build(recs), fragment)[fragment] == ReviewsFor(recs, name)
  {
    var idx := Build(recs);
    BuildWellFormed(recs);
    BuildReviews(recs);
    var i :| 0 <= i < |idx.keys| && idx.keys[i] == name;
    forall j | 0 <= j < |idx.keys| && j != i
      ensures !Matches(idx.keys[j], fragment)
    {
      assert idx.keys[j] in idx.reviews;
    }
    LookupUniqueMatch(idx, fragment, i);
  }

  /** When no restaurant name of the records matches, the result is the sentinel alone. */
  lemma FetchNoMatch(recs: seq<Record>, fragment: string)
    requires forall n :: n in Names(recs) ==> !Matches(n, fragment)
    ensures Lookup(Build(recs), fragment)[fragment] == [NoReviews]
  {
    var idx := Build(recs);
    BuildWellFormed(recs);
    assert forall k :: k in idx.keys ==> k in idx.reviews;
    LookupSentinel(idx, fragment);
  }

  /** A corpus without a single valid line answers every fragment with the sentinel. */
  lemma FetchEmptyCorpus(lines: seq<string>, fragment: string)
    requires forall i :: 0 <= i < |lines| ==> ParseLine(lines[i]).None?
    ensures Lookup(IndexOf(lines), fragment) == map[fragment := [NoReviews]]
  {
    RecordsNone(lines);
    FetchNoMatch(Records(lines), fragment);
  }

  lemma {:induction false} RecordsNone(lines: seq<string>)
    requires forall i :: 0 <= i < |lines| ==> ParseLine(lines[i]).None?
    ensures Records(lines) == []
  {
    if lines != [] {
      RecordsNone(lines[..|lines| - 1]);
    }
  }

  /**
   * The empty fragment returns every review of the dictionary in key order,
   * then review order, and these are exactly the records' reviews, none lost
   * and none repeated.
   */
  lemma FetchEverything(recs: seq<Record>)
    requires recs != []
    ensures Lookup(Build(recs), "")[""] == AllReviews(Build(recs).keys, Build(recs).reviews)
    ensures multiset(Lookup(Build(recs), "")[""]) == multiset(AllRecordReviews(recs))
  {
    var idx := Build(recs);
    BuildWellFormed(recs);
    var first := recs[0].name;
    assert Names(recs)[0] == first;
    assert first in idx.keys;
    assert Contains(Lower(first), []);
    assert Lower("") == "";
    assert Matches(first, "");
    LookupSentinel(idx, "");
    assert Lookup(idx, "")[""] == Gather(idx.keys, idx.reviews, "");
    GatherEmptyFragment(idx.keys, idx.reviews);
    AllReviewsCover(recs);
  }

  lemma {:induction false} AllReviewsCover(recs: seq<Record>)
    ensures WellFormed(Build(recs))
    ensures multiset(AllReviews(Build(recs).keys, Build(recs).reviews)) == multiset(AllRecordReviews(recs))
  {
    BuildWellFormed(recs);
    if recs != [] {
      var prefix, rec := recs[..|recs| - 1], recs[|recs| - 1];
      AllReviewsCover(prefix);
      var b := Build(prefix);
      assert AllRecordReviews(recs) == AllRecordReviews(prefix) + [rec.review];
      if rec.name in b.reviews {
        AllReviewsAppend(b.keys, b.reviews, rec.name, rec.review);
      } else {
        AllReviewsOutside(b.keys, b.reviews, rec.name, [rec.review]);
        assert (b.keys + [rec.name])[..|b.keys|] == b.keys;
      }
    }
  }

  lemma {:induction false} AllReviewsOutside(ks: seq<string>, m: map<string, seq<string>>, k: string, v: seq<string>)
    requires forall x :: x in ks ==> x in m
    requires k !in ks
    ensures AllReviews(ks, m[k := v]) == AllReviews(ks, m)
  {
    if ks != [] {
      AllReviewsOutside(ks[..|ks| - 1], m, k, v);
    }
  }

  lemma {:induction false} AllReviewsAppend(ks: seq<string>, m: map<string, seq<string>>, k: string, r: string)
    requires forall x :: x in ks ==> x in m
    requires forall i, j :: 0 <= i < j < |ks| ==> ks[i] != ks[j]
    requires k in ks
    ensures multiset(AllReviews(ks, m[k := m[k] + [r]])) == multiset(AllReviews(ks, m)) + multiset{r}
  {
    var init, last := ks[..|ks| - 1], ks[|ks| - 1];
    if last == k {
      AllReviewsOutside(init, m, k, m[k] + [r]);
    } else {
      AllReviewsAppend(init, m, k, r);
    }
  }
}
