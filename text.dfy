/**
 * The Python string built-ins the review helpers rely on: `str.strip()`,
 * `str.lower()`, the substring test `needle in hay`, and `str.split(sep, 1)`.
 */
module Text {
  import opened Wrappers

  /** The characters for which Python's `str.isspace()` holds, and so the ones `str.strip()` removes. */
  predicate IsSpace(c: char) {
    var n := c as int;
    n == 0x20 || 0x09 <= n <= 0x0D || 0x1C <= n <= 0x1F || n == 0x85 || n == 0xA0 ||
    n == 0x1680 || 0x2000 <= n <= 0x200A || n == 0x2028 || n == 0x2029 ||
    n == 0x202F || n == 0x205F || n == 0x3000
  }

  predicate AllSpace(s: string) {
    forall k :: 0 <= k < |s| ==> IsSpace(s[k])
  }

  /** The number of whitespace characters at the front of `s`. */
  function LeadingSpace(s: string): (i: nat)
    ensures i <= |s|
    ensures forall k :: 0 <= k < i ==> IsSpace(s[k])
    ensures i < |s| ==> !IsSpace(s[i])
  {
    if |s| == 0 || !IsSpace(s[0]) then 0 else 1 + LeadingSpace(s[1..])
  }

  /** Where the run of whitespace at the end of `s` begins. */
  function TrailingStart(s: string): (j: nat)
    ensures j <= |s|
    ensures forall k :: j <= k < |s| ==> IsSpace(s[k])
    ensures j > 0 ==> !IsSpace(s[j - 1])
  {
    if |s| == 0 || !IsSpace(s[|s| - 1]) then |s| else TrailingStart(s[..|s| - 1])
  }

  /**
   * Python's `s.strip()`: `s` without its leading and trailing whitespace.
   * The result is the slice of `s` that starts after the leading whitespace,
   * only whitespace follows it, and it neither starts nor ends with whitespace.
   */
  function Strip(s: string): (r: string)
    ensures r == [] <==> AllSpace(s)
    ensures r != [] ==> !IsSpace(r[0]) && !IsSpace(r[|r| - 1])
    ensures LeadingSpace(s) + |r| <= |s|
    ensures r == s[LeadingSpace(s)..LeadingSpace(s) + |r|]
    ensures AllSpace(s[LeadingSpace(s) + |r|..])
  {
    var i, j := LeadingSpace(s), TrailingStart(s);
    if i < j then s[i..j] else []
  }

  function LowerChar(c: char): char {
    if 'A' <= c <= 'Z' then (c as int + 32) as char else c
  }

  /** Python's `s.lower()`, restricted to the ASCII letters. */
  function Lower(s: string): (r: string)
    ensures |r| == |s|
    ensures forall k :: 0 <= k < |s| && 'A' <= s[k] <= 'Z' ==> r[k] as int == s[k] as int + 32 && 'a' <= r[k] <= 'z'
    ensures forall k :: 0 <= k < |s| && !('A' <= s[k] <= 'Z') ==> r[k] == s[k]
  {
    seq(|s|, k requires 0 <= k < |s| => LowerChar(s[k]))
  }

  /** `needle` occurs in `hay` starting at position `k`. */
  predicate OccursAt(hay: string, needle: string, k: nat) {
    k + |needle| <= |hay| && hay[k..k + |needle|] == needle
  }

  /** Python's `needle in hay` on strings. */
  predicate Contains(hay: string, needle: string): (b: bool)
    ensures b ==> |needle| <= |hay|
    ensures needle == [] ==> b
    ensures needle == hay ==> b
  {
    assert needle == [] || needle == hay ==> OccursAt(hay, needle, 0);
    exists k: nat | k <= |hay| :: OccursAt(hay, needle, k)
  }

  /** The position of the first occurrence of `needle` in `hay`, as `str.find` computes it. */
  function FindFirst(hay: string, needle: string): (r: Option<nat>)
    ensures r.Some? ==> OccursAt(hay, needle, r.value)
    ensures r.Some? ==> forall k: nat :: k < r.value ==> !OccursAt(hay, needle, k)
    ensures r.None? <==> !Contains(hay, needle)
    decreases |hay|
  {
    if |hay| < |needle| then None
    else if hay[..|needle|] == needle then Some(0)
    else
      match FindFirst(hay[1..], needle)
      case None =>
        assert forall k: nat :: 1 <= k ==> OccursAt(hay, needle, k) == OccursAt(hay[1..], needle, k - 1);
        None
      case Some(k) =>
        assert forall j: nat :: 1 <= j ==> OccursAt(hay, needle, j) == OccursAt(hay[1..], needle, j - 1);
        Some(k + 1)
  }

  /**
   * Python's `s.split(sep, 1)` when it yields two parts: the text before the
   * first occurrence of `sep` and the text after it. `None` stands for the
   * one-part result that makes a two-name unpacking raise `ValueError`.
   * Python refuses an empty separator (`ValueError: empty separator`), so
   * `sep` must be non-empty.
   */
  function SplitOnce(s: string, sep: string): (r: Option<(string, string)>)
    requires sep != []
    ensures r.None? <==> !Contains(s, sep)
    ensures r.Some? ==> s == r.value.0 + sep + r.value.1
    ensures r.Some? ==> forall k: nat :: k < |r.value.0| ==> !OccursAt(s, sep, k)
  {
    match FindFirst(s, sep)
    case None => None
    case Some(k) =>
      assert s == s[..k] + sep + s[k + |sep|..];
      Some((s[..k], s[k + |sep|..]))
  }
}
