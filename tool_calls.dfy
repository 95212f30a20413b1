/**
 * `extract_function_arguments`: find, in a chat transcript, the arguments of
 * the first tool call to `fetch_restaurant_data`.
 */
module ToolCalls {
  import opened Wrappers

  /** The tool whose call carries the resolved restaurant name. */
  const FetchTool: string := "fetch_restaurant_data"

  /** One tool call: the called function's name and its raw argument text. */
  datatype ToolCall = ToolCall(name: string, arguments: string)

  /** A chat message; `toolCalls` is `None` when the message has no `"tool_calls"` key. */
  datatype Message = Message(toolCalls: Option<seq<ToolCall>>)

  datatype ChatResult = ChatResult(chatHistory: seq<Message>)

  function CallsOf(message: Message): seq<ToolCall> {
    message.toolCalls.GetOr([])
  }

  /** Every tool call of the transcript: message order, then call order within a message. */
  function AllCalls(history: seq<Message>): seq<ToolCall> {
    if history == [] then [] else AllCalls(history[..|history| - 1]) + CallsOf(history[|history| - 1])
  }

  /** Call `k` is a call to the fetch tool and no earlier call is. */
  ghost predicate IsFirstFetch(calls: seq<ToolCall>, k: nat) {
    && k < |calls|
    && calls[k].name == FetchTool
    && forall j :: 0 <= j < k ==> calls[j].name != FetchTool
  }

  lemma {:induction false} AllCallsPrefix(history: seq<Message>, i: nat)
    requires i <= |history|
    ensures AllCalls(history[..i]) <= AllCalls(history)
  {
    if i < |history| {
      var init := history[..|history| - 1];
      assert history[..i] == init[..i];
      AllCallsPrefix(init, i);
    } else {
      assert history[..i] == history;
    }
  }

  /**
   * `extract_function_arguments(chat_result)`: the raw arguments of the
   * first call to `fetch_restaurant_data`, scanning messages in order and
   * the calls of each message in order; `None` when there is no transcript
   * or no such call.
   */
  method ExtractFunctionArguments(chatResult: Option<ChatResult>) returns (r: Option<string>)
    ensures chatResult.None? ==> r.None?
    ensures chatResult.Some? ==>
      var calls := AllCalls(chatResult.value.chatHistory);
      && (r.None? <==> forall k :: 0 <= k < |calls| ==> calls[k].name != FetchTool)
      && (r.Some? ==> exists k: nat :: IsFirstFetch(calls, k) && calls[k].arguments == r.value)
  {
    if chatResult.None? || chatResult.value.chatHistory == [] {
      return None;
    }
    var history := chatResult.value.chatHistory;
    for i := 0 to |history|
      invariant forall k :: 0 <= k < |AllCalls(history[..i])| ==> AllCalls(history[..i])[k].name != FetchTool
    {
      assert history[..i + 1][..i] == history[..i];
      var message := history[i];
      if message.toolCalls.Some? {
        var toolCalls := message.toolCalls.value;
        for j := 0 to |toolCalls|
          invariant forall k :: 0 <= k < j ==> toolCalls[k].name != FetchTool
        {
          if toolCalls[j].name == FetchTool {
            ghost var before := AllCalls(history[..i]);
            AllCallsPrefix(history, i + 1);
            assert AllCalls(history[..i + 1]) == before + toolCalls;
            ghost var k := |before| + j;
            assert AllCalls(history)[k] == toolCalls[j];
            assert forall m :: 0 <= m < k ==> AllCalls(history)[m] == (before + toolCalls)[m];
            assert IsFirstFetch(AllCalls(history), k);
            return Some(toolCalls[j].arguments);
          }
        }
      }
    }
    assert history[..|history|] == history;
    return None;
  }

  /** The search's specification determines its answer: there is one first call. */
  lemma FirstFetchUnique(calls: seq<ToolCall>, k1: nat, k2: nat)
    requires IsFirstFetch(calls, k1) && IsFirstFetch(calls, k2)
    ensures k1 == k2
  {
  }
}
