/**
 * The parts of the agent framework's `Event` that the core reads: an optional
 * author, optional content (a role and a list of parts), the streaming
 * `partial` flag and the invocation id.
 *
 * Renderings produced by foreign code (`json.dumps`, `str(...)` of SDK objects)
 * are not computed here; each call or response carries the strings those calls
 * would produce, and a `json.dumps` that raises `TypeError` is `None`.
 */
module AdkEvents {
  import opened Wrappers

  /**
   * A tool call: its name, `json.dumps(args, indent=2)`, and `str(call)`.
   */
  datatype FunctionCall = FunctionCall(name: string, argsJson: string, repr: string)

  /**
   * A tool response: its name; `json.dumps(response)` or `None` when that raises
   * `TypeError`; the re-dumped JSON text nested in a `CallToolResult` under
   * "result", or `None` when there is none or it does not parse; `str(response)`;
   * and `str(function_response)`.
   */
  datatype FunctionResponse = FunctionResponse(
    name: string,
    json: Option<string>,
    nestedJson: Option<string>,
    responseStr: string,
    repr: string)

  /** A content part; `thought` is the truthiness of `part.thought`. */
  datatype Part = Part(
    text: Option<string>,
    thought: bool,
    functionCall: Option<FunctionCall>,
    functionResponse: Option<FunctionResponse>)

  /** `types.Content`; a missing `parts` list is the empty sequence. */
  datatype Content = Content(role: Option<string>, parts: seq<Part>)

  /**
   * An ADK event. `invocationId` stands for whichever of the attributes
   * `invocationId` / `invocation_id` the code reads first.
   */
  datatype Event = Event(
    author: Option<string>,
    content: Option<Content>,
    partial: bool,
    invocationId: Option<string>)

  /** `if part.text`: the part has a non-empty text. */
  predicate HasText(p: Part) {
    p.text.Some? && p.text.value != ""
  }

  /** `x or default` for an optional string. */
  function OrDefault(x: Option<string>, default: string): (r: string)
    ensures x.Some? && x.value != "" ==> r == x.value
    ensures (x.None? || x.value == "") ==> r == default
  {
    if x.Some? && x.value != "" then x.value else default
  }

  /** `event.content.role`, or `None` without content. */
  function Role(e: Event): Option<string> {
    if e.content.Some? then e.content.value.role else None
  }
}
