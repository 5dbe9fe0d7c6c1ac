/**
 * Event formatting of src/remip_example/app.py: `process_event` turns one
 * agent event into an author, a response markdown and a thoughts markdown;
 * `group_events` merges consecutive events of the same author for display.
 */
module App {
  import opened Wrappers
  import opened PyStrings
  import opened AdkEvents

  /** `str += None`: a thought part without text makes `process_event` raise. */
  datatype TypeError = ConcatNone

  /** `(author, response_markdown, thoughts_markdown)`. */
  datatype Processed = Processed(author: Option<string>, response: Option<string>, thoughts: Option<string>)

  /** Where one part's markdown goes. */
  datatype Contribution = ToThoughts(s: string) | ToResponse(s: string) | NoOutput

  /** Lines 162-169: the collapsible block shown for a tool call. */
  function ToolCallMarkup(call: FunctionCall): string {
    "<details><summary>Tool Call: " + call.name + "</summary>\n\n```json\n" + call.argsJson + "\n```\n\n</details>"
  }

  /**
   * Lines 171-205: the language tag and body of a tool response: its JSON
   * rendering; failing that, the nested JSON of a `CallToolResult`; failing
   * that, `str(response)` shown as Python.
   */
  function ResponseBody(r: FunctionResponse): (string, string) {
    if r.json.Some? then ("json", r.json.value)
    else if r.nestedJson.Some? && r.nestedJson.value != "" then ("json", r.nestedJson.value)
    else ("python", r.responseStr)
  }

  /** Lines 207-210: the collapsible block shown for a tool response. */
  function ToolResponseMarkup(r: FunctionResponse): string {
    var (lang, body) := ResponseBody(r);
    "<details><summary>Tool Response: " + r.name + "</summary>\n\n```" + lang + "\n" + body + "\n```\n\n</details>"
  }

  /** Lines 158-212 for one part: thought, then tool call, then tool response, then text. */
  function Classify(p: Part): Result<Contribution, TypeError> {
    if p.thought then
      if p.text.None? then Failure(ConcatNone) else Success(ToThoughts(p.text.value))
    else if p.functionCall.Some? then Success(ToResponse(ToolCallMarkup(p.functionCall.value)))
    else if p.functionResponse.Some? then Success(ToResponse(ToolResponseMarkup(p.functionResponse.value)))
    else if HasText(p) then Success(ToResponse(p.text.value))
    else Success(NoOutput)
  }

  /** The loop of lines 158-212: both markdown strings after `parts`. */
  function Accumulate(parts: seq<Part>): Result<(string, string), TypeError> {
    if parts == [] then Success(("", ""))
    else
      match Accumulate(parts[..|parts| - 1])
      case Failure(err) => Failure(err)
      case Success(acc) =>
        match Classify(parts[|parts| - 1])
        case Failure(err) => Failure(err)
        case Success(ToThoughts(s)) => Success((acc.0, acc.1 + s))
        case Success(ToResponse(s)) => Success((acc.0 + s, acc.1))
        case Success(NoOutput) => Success(acc)
  }

  /** `x or None` for a string. */
  function NoneIfEmpty(s: string): Option<string> {
    if s == "" then None else Some(s)
  }

  /** `process_event`. */
  function ProcessEvent(e: Event): Result<Processed, TypeError> {
    if e.content.None? then Success(Processed(e.author, None, None))
    else
      match Accumulate(e.content.value.parts)
      case Failure(err) => Failure(err)
      case Success(acc) => Success(Processed(e.author, NoneIfEmpty(acc.0), NoneIfEmpty(acc.1)))
  }

  /** `process_event`, as the loop the source runs. */
  method ProcessEventLoop(e: Event) returns (r: Result<Processed, TypeError>)
    ensures r == ProcessEvent(e)
  {
    var author := e.author;
    if e.content.None? {
      return Success(Processed(author, None, None));
    }
    var parts := e.content.value.parts;
    var responseMarkdown := "";
    var thoughtsMarkdown := "";
    for i := 0 to |parts|
      invariant Accumulate(parts[..i]) == Success((responseMarkdown, thoughtsMarkdown))
    {
      var part := parts[i];
      assert parts[..i + 1][..i] == parts[..i];
      if part.thought {
        if part.text.None? {
          AccumulateFails(parts, i);
          return Failure(ConcatNone);
        }
        thoughtsMarkdown := thoughtsMarkdown + part.text.value;
      } else if part.functionCall.Some? {
        responseMarkdown := responseMarkdown + ToolCallMarkup(part.functionCall.value);
      } else if part.functionResponse.Some? {
        var fr := part.functionResponse.value;
        var lang: string;
        var toolResponse: string;
        if fr.json.Some? {
          toolResponse, lang := fr.json.value, "json";
        } else if fr.nestedJson.Some? && fr.nestedJson.value != "" {
          toolResponse, lang := fr.nestedJson.value, "json";
        } else {
          toolResponse, lang := fr.responseStr, "python";
        }
        responseMarkdown := responseMarkdown + ("<details><summary>Tool Response: " + fr.name + "</summary>\n\n```"
          + lang + "\n" + toolResponse + "\n```\n\n</details>");
      } else if part.text.Some? && part.text.value != "" {
        responseMarkdown := responseMarkdown + part.text.value;
      }
    }
    assert parts[..|parts|] == parts;
    r := Success(Processed(author, NoneIfEmpty(responseMarkdown), NoneIfEmpty(thoughtsMarkdown)));
  }

  /** Once a part raises, so does the rest of the loop. */
  lemma {:induction false} AccumulateFails(parts: seq<Part>, i: nat)
    requires i < |parts| && Classify(parts[i]).Failure?
    ensures Accumulate(parts) == Failure(ConcatNone)
    decreases |parts|
  {
    var init := parts[..|parts| - 1];
    if i < |parts| - 1 {
      AccumulateFails(init, i);
    } else if Accumulate(init).Failure? {
      assert Accumulate(init).error == ConcatNone;
    }
  }

  // ---------------------------------------------------------------------------
  // group_events
  // ---------------------------------------------------------------------------

  /** A display group: `(author, response, thoughts)`. */
  datatype Triple = Triple(author: string, response: string, thoughts: string)

  /** The grouping loop's state: the finished groups and the current one. */
  datatype Grouping = Grouping(grouped: seq<Triple>, current: Triple)

  /** Lines 223-229: the first event opens the first group, authored "unknown" when it has no author. */
  function Start(p: Processed): Grouping {
    Grouping([], Triple(OrDefault(p.author, "unknown"), OrDefault(p.response, ""), OrDefault(p.thoughts, "")))
  }

  /**
   * Lines 231-247: an event without author is skipped; one by the current
   * author extends the current group; any other closes it and opens a new one.
   */
  function Next(st: Grouping, p: Processed): Grouping {
    if p.author.None? || p.author.value == "" then st
    else if p.author.value == st.current.author then
      var response := st.current.response + OrDefault(p.response, "");
      var thoughts := st.current.thoughts + (if OrDefault(p.thoughts, "") != "" then p.thoughts.value + "\n\n" else "");
      st.(current := Triple(st.current.author, response, thoughts))
    else
      Grouping(st.grouped + [st.current], Triple(p.author.value, OrDefault(p.response, ""), OrDefault(p.thoughts, "")))
  }

  /** The loop over `events[1:]`, from the state the first event opened. */
  function GroupFrom(ps: seq<Processed>): Grouping
    requires ps != []
  {
    if |ps| == 1 then Start(ps[0]) else Next(GroupFrom(ps[..|ps| - 1]), ps[|ps| - 1])
  }

  /** The groups of already processed events. */
  function GroupProcessed(ps: seq<Processed>): seq<Triple> {
    if ps == [] then [] else GroupFrom(ps).grouped + [GroupFrom(ps).current]
  }

  /** `process_event` over every event, in order, or the first error. */
  function ProcessAll(events: seq<Event>): Result<seq<Processed>, TypeError> {
    if events == [] then Success([])
    else
      match ProcessAll(events[..|events| - 1])
      case Failure(err) => Failure(err)
      case Success(ps) =>
        match ProcessEvent(events[|events| - 1])
        case Failure(err) => Failure(err)
        case Success(p) => Success(ps + [p])
  }

  /** `group_events`. */
  function GroupEvents(events: seq<Event>): Result<seq<Triple>, TypeError> {
    match ProcessAll(events)
    case Failure(err) => Failure(err)
    case Success(ps) => Success(GroupProcessed(ps))
  }

  /** `group_events`, as the loop the source runs. */
  method GroupEventsLoop(events: seq<Event>) returns (r: Result<seq<Triple>, TypeError>)
    ensures r == GroupEvents(events)
  {
    if events == [] {
      return Success([]);
    }
    var grouped: seq<Triple> := [];
    var first := ProcessEventLoop(events[0]);
    if first.Failure? {
      ProcessAllFails(events, 0);
      return Failure(ConcatNone);
    }
    var p := first.value;
    assert events[..0] == [] && [] + [p] == [p];
    ProcessAllSnoc(events, 0, []);
    var author := if p.author.Some? && p.author.value != "" then p.author.value else "unknown";
    var currentAuthor, currentResponse, currentThoughts := author, OrDefault(p.response, ""), OrDefault(p.thoughts, "");
    ghost var ps := [p];
    for i := 1 to |events|
      invariant ProcessAll(events[..i]) == Success(ps) && |ps| == i
      invariant GroupFrom(ps) == Grouping(grouped, Triple(currentAuthor, currentResponse, currentThoughts))
    {
      var q := ProcessEventLoop(events[i]);
      if q.Failure? {
        ProcessAllFails(events, i);
        return Failure(ConcatNone);
      }
      var e := q.value;
      ghost var before := Grouping(grouped, Triple(currentAuthor, currentResponse, currentThoughts));
      ProcessAllSnoc(events, i, ps);
      assert GroupFrom(ps + [e]) == Next(before, e) by {
        assert (ps + [e])[..i] == ps;
      }
      ps := ps + [e];
      if e.author.None? || e.author.value == "" {
        continue;
      }
      if e.author.value == currentAuthor {
        if e.response.Some? && e.response.value != "" {
          currentResponse := currentResponse + e.response.value;
        }
        if e.thoughts.Some? && e.thoughts.value != "" {
          currentThoughts := currentThoughts + e.thoughts.value + "\n\n";
        }
      } else {
        grouped := grouped + [Triple(currentAuthor, currentResponse, currentThoughts)];
        currentAuthor, currentResponse, currentThoughts := e.author.value, OrDefault(e.response, ""), OrDefault(e.thoughts, "");
      }
      assert Grouping(grouped, Triple(currentAuthor, currentResponse, currentThoughts)) == Next(before, e);
    }
    assert events[..|events|] == events;
    grouped := grouped + [Triple(currentAuthor, currentResponse, currentThoughts)];
    r := Success(grouped);
  }

  /** One more successfully processed event extends the processed prefix. */
  lemma ProcessAllSnoc(events: seq<Event>, i: nat, ps: seq<Processed>)
    requires i < |events| && ProcessAll(events[..i]) == Success(ps) && ProcessEvent(events[i]).Success?
    ensures ProcessAll(events[..i + 1]) == Success(ps + [ProcessEvent(events[i]).value])
  {
    assert events[..i + 1][..i] == events[..i];
  }

  /** Once an event raises, so does the whole pass. */
  lemma {:induction false} ProcessAllFails(events: seq<Event>, i: nat)
    requires i < |events| && ProcessEvent(events[i]).Failure?
    ensures ProcessAll(events) == Failure(ConcatNone)
    decreases |events|
  {
    var init := events[..|events| - 1];
    if i < |events| - 1 {
      ProcessAllFails(init, i);
    } else if ProcessAll(init).Failure? {
      assert ProcessAll(init).error == ConcatNone;
    } else {
      assert ProcessEvent(events[i]).error == ConcatNone;
    }
  }
}
