/**
 * The tool-usage callbacks of src/remip_example/agent.py: after each tool call
 * the agent appends a record (agent, tool, truncated arguments, success) to the
 * session state's "tools_used" list; before each run the list is reset.
 *
 * `str(v)` of an argument value is foreign code: each argument arrives already
 * rendered. A mapping response is a map from keys to Python values, of which
 * only the truthiness matters.
 */
module Agent {
  import opened Wrappers
  import opened OrderedMaps

  /** The Python values a tool response can hold, as far as `bool(...)` sees them. */
  datatype PyValue = PyNone | PyBool(b: bool) | PyInt(i: int) | PyStr(s: string) | PyOther(truthy: bool)

  /** `bool(v)`. */
  predicate Truthy(v: PyValue) {
    match v
    case PyNone => false
    case PyBool(b) => b
    case PyInt(i) => i != 0
    case PyStr(s) => s != ""
    case PyOther(t) => t
  }

  /**
   * The `tool_response` argument: `None`, a `Mapping`, or another object (a
   * `CallToolResult`) whose `isError` attribute may be missing.
   */
  datatype ToolResponse =
    | NoResponse
    | MappingResponse(entries: map<string, PyValue>)
    | ObjectResponse(isError: Option<PyValue>)

  /** `mapping.get(key)`: `None` for a missing key. */
  function GetOrNone(m: map<string, PyValue>, key: string): PyValue {
    if key in m then m[key] else PyNone
  }

  /** One entry of "tools_used". */
  datatype ToolRecord = ToolRecord(agent: string, tool: string, args: OMap<string, string>, success: bool)

  const MaxArgLength := 128

  /** Line 39: a rendered argument longer than 128 characters keeps its first 128 and gains "...". */
  function Truncate(value: string): string {
    if |value| > MaxArgLength then value[..MaxArgLength] + "..." else value
  }

  /** The arguments with every value truncated, keys and order unchanged. */
  function TruncatedArgs(args: OMap<string, string>): OMap<string, string> {
    seq(|args|, i requires 0 <= i < |args| => (args[i].0, Truncate(args[i].1)))
  }

  /** Lines 41-52: the success flag, by the first rule that applies. */
  function SuccessFlag(response: ToolResponse): bool {
    match response
    case NoResponse => true
    case MappingResponse(m) =>
      if "isError" in m then !Truthy(m["isError"])
      else !(Truthy(GetOrNone(m, "error")) || Truthy(GetOrNone(m, "error_message")))
    case ObjectResponse(isError) => !(isError.Some? && Truthy(isError.value))
  }

  /** Lines 36-39: the loop filling `truncated_args`. */
  method TruncateArgs(args: OMap<string, string>) returns (truncated: OMap<string, string>)
    requires Valid(args)
    ensures Keys(truncated) == Keys(args)
    ensures forall i :: 0 <= i < |args| ==> truncated[i].1 == Truncate(args[i].1)
    ensures truncated == TruncatedArgs(args)
  {
    truncated := [];
    for i := 0 to |args|
      invariant truncated == TruncatedArgs(args[..i])
    {
      var (k, v) := args[i];
      var value := v;
      var t := if |value| > MaxArgLength then value[..MaxArgLength] + "..." else value;
      truncated := Put(truncated, k, t);
      assert truncated == TruncatedArgs(args[..i + 1]);
    }
    assert args[..|args|] == args;
  }

  /** Lines 41-52, computing `success` step by step. */
  method ComputeSuccess(response: ToolResponse) returns (success: bool)
    ensures response.NoResponse? ==> success
    ensures response.MappingResponse? && "isError" in response.entries ==>
      success == !Truthy(response.entries["isError"])
    ensures response.MappingResponse? && "isError" !in response.entries ==>
      (success <==> !Truthy(GetOrNone(response.entries, "error")) && !Truthy(GetOrNone(response.entries, "error_message")))
    ensures response.ObjectResponse? ==>
      (success <==> response.isError.None? || !Truthy(response.isError.value))
    ensures success == SuccessFlag(response)
  {
    success := true;
    if response.NoResponse? {
      success := true;
    } else if response.MappingResponse? {
      var m := response.entries;
      if "isError" in m {
        success := !Truthy(m["isError"]);
      } else if Truthy(GetOrNone(m, "error")) || Truthy(GetOrNone(m, "error_message")) {
        success := false;
      } else {
        success := true;
      }
    } else {
      var isError := if response.isError.Some? then response.isError.value else PyBool(false);
      success := !Truthy(isError);
    }
  }

  /**
   * The callback state's "tools_used" entry; `None` while the key is absent.
   * Other state keys are not modelled.
   */
  class ToolState {
    var toolsUsed: Option<seq<ToolRecord>>

    constructor (toolsUsed: Option<seq<ToolRecord>>)
      ensures this.toolsUsed == toolsUsed
    {
      this.toolsUsed := toolsUsed;
    }

    /** The records so far, none while the key is absent. */
    function Records(): seq<ToolRecord>
      reads this
    {
      if toolsUsed.Some? then toolsUsed.value else []
    }

    /** `clear_tool_calling_track`: "tools_used" becomes the empty list. */
    method ClearToolCallingTrack()
      modifies this
      ensures toolsUsed == Some([])
      ensures Records() == []
    {
      toolsUsed := Some([]);
    }

    /**
     * `track_tool_calling`: creates "tools_used" when absent, then appends
     * exactly one record, leaving the earlier ones as they were.
     */
    method TrackToolCalling(toolName: string, args: OMap<string, string>, agentName: string, response: ToolResponse)
      requires Valid(args)
      modifies this
      ensures toolsUsed.Some?
      ensures Records() == old(Records()) + [ToolRecord(agentName, toolName, TruncatedArgs(args), SuccessFlag(response))]
    {
      if toolsUsed.None? {
        toolsUsed := Some([]);
      }
      var truncatedArgs := TruncateArgs(args);
      var success := ComputeSuccess(response);
      toolsUsed := Some(toolsUsed.value + [ToolRecord(agentName, toolName, truncatedArgs, success)]);
    }
  }

  // ---------------------------------------------------------------------------
  // Properties
  // ---------------------------------------------------------------------------

  /**
   * A value over 128 characters becomes its first 128 characters plus "...",
   * 131 in all; a shorter one is kept.
   */
  lemma TruncateFacts(value: string)
    ensures |value| > 128 ==>
      |Truncate(value)| == 131 && Truncate(value)[..128] == value[..128] && Truncate(value)[128..] == "..."
    ensures |value| <= 128 ==> Truncate(value) == value
    ensures |Truncate(value)| <= 131
  {
  }

  /** Truncation changes a value exactly when it is too long and does not already end as a truncated one. */
  lemma TruncateKeepsIff(value: string)
    ensures Truncate(value) == value <==> |value| <= 128 || (|value| == 131 && value[128..] == "...")
  {
    if |value| > 128 && Truncate(value) == value {
      assert |value| == 131;
      assert value[128..] == Truncate(value)[128..];
    }
    if |value| == 131 && value[128..] == "..." {
      assert value == value[..128] + value[128..];
    }
  }

  /** Truncating twice is truncating once. */
  lemma TruncateIdempotent(value: string)
    ensures Truncate(Truncate(value)) == Truncate(value)
  {
    if |value| > 128 {
      var r := Truncate(value);
      assert r[..128] == value[..128];
      TruncateKeepsIff(r);
    }
  }

  /** tests/test_agent.py:85-102: a 200-character value gives 131 characters ending in "...". */
  lemma TruncatesLongArgs(value: string)
    requires |value| == 200
    ensures |Truncate(value)| == 128 + 3 && Truncate(value)[|Truncate(value)| - 3..] == "..."
  {
  }

  /** A present "isError" decides alone, whatever "error" and "error_message" hold. */
  lemma IsErrorTakesPrecedence(m: map<string, PyValue>, error: PyValue, errorMessage: PyValue)
    requires "isError" in m
    ensures SuccessFlag(MappingResponse(m["error" := error]["error_message" := errorMessage])) == !Truthy(m["isError"])
  {
    var m' := m["error" := error]["error_message" := errorMessage];
    assert "isError" in m' && m'["isError"] == m["isError"];
  }
}
