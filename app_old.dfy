/**
 * The earlier user interface, src/remip_example/app_old.py: its
 * `process_event`, which hides the `ask` and `exit_loop` tool traffic, and the
 * loop of `drain_outbox_and_render` that moves the worker's queued messages
 * into the chat log. Rendering with Streamlit is not modelled.
 */
module AppOld {
  import opened Wrappers
  import opened PyStrings
  import opened AdkEvents
  import App

  /** Tools whose calls and responses the chat does not show. */
  predicate Hidden(name: string) {
    name == "ask" || name == "exit_loop"
  }

  /** Lines 193-197: the block shown for a visible tool call, around `str(tool_call)`. */
  function CallMarkup(call: FunctionCall): string {
    "\n\n<details>\n<summary>Call " + call.name + "</summary><code>\n\n" + call.repr + "\n\n</code></details>\n\n"
  }

  /** Lines 198-202: the block shown for a visible tool response, around `str(tool_response)`. */
  function ResponseMarkup(r: FunctionResponse): string {
    "\n\n<details>\n<summary>Response " + r.name + "</summary><code>\n\n" + r.repr + "\n\n</code></details>\n\n"
  }

  /** Lines 189-202: one part's markdown: its text, then the visible tool blocks. */
  function PartMarkdown(p: Part): string {
    OrDefault(p.text, "")
    + (if p.functionCall.Some? && !Hidden(p.functionCall.value.name) then CallMarkup(p.functionCall.value) else "")
    + (if p.functionResponse.Some? && !Hidden(p.functionResponse.value.name) then ResponseMarkup(p.functionResponse.value) else "")
  }

  /** The markdown of every thought part, in order. */
  function ThoughtsOf(parts: seq<Part>): string {
    if parts == [] then ""
    else
      var p := parts[|parts| - 1];
      ThoughtsOf(parts[..|parts| - 1]) + (if p.thought then PartMarkdown(p) else "")
  }

  /** The markdown of every other part, in order. */
  function ResponseOf(parts: seq<Part>): string {
    if parts == [] then ""
    else
      var p := parts[|parts| - 1];
      ResponseOf(parts[..|parts| - 1]) + (if p.thought then "" else PartMarkdown(p))
  }

  /** `process_event` (lines 180-208). Without content even the author is `None`. */
  function ProcessEvent(e: Event): App.Processed {
    if e.content.None? then App.Processed(None, None, None)
    else
      var parts := e.content.value.parts;
      App.Processed(e.author, App.NoneIfEmpty(ResponseOf(parts)), App.NoneIfEmpty(ThoughtsOf(parts)))
  }

  /** Lines 189-202, building one part's markdown. */
  method RenderPart(part: Part) returns (markdown: string)
    ensures markdown == PartMarkdown(part)
  {
    markdown := if part.text.Some? && part.text.value != "" then part.text.value else "";
    var toolCall := part.functionCall;
    var toolResponse := part.functionResponse;
    var callBlock, responseBlock := "", "";
    if toolCall.Some? && !(toolCall.value.name == "ask" || toolCall.value.name == "exit_loop") {
      callBlock := CallMarkup(toolCall.value);
    }
    if toolResponse.Some? && !(toolResponse.value.name == "ask" || toolResponse.value.name == "exit_loop") {
      responseBlock := ResponseMarkup(toolResponse.value);
    }
    markdown := markdown + callBlock + responseBlock;
  }

  /** `process_event`, as the loop the source runs. */
  method ProcessEventLoop(e: Event) returns (r: App.Processed)
    ensures r == ProcessEvent(e)
  {
    var response := "";
    var thoughts := "";
    if e.content.None? {
      return App.Processed(None, None, None);
    }
    var parts := e.content.value.parts;
    for i := 0 to |parts|
      invariant response == ResponseOf(parts[..i]) && thoughts == ThoughtsOf(parts[..i])
    {
      var part := parts[i];
      assert ResponseOf(parts[..i + 1]) == response + (if part.thought then "" else PartMarkdown(part))
          && ThoughtsOf(parts[..i + 1]) == thoughts + (if part.thought then PartMarkdown(part) else "") by {
        assert parts[..i + 1][..i] == parts[..i];
      }
      var markdown := RenderPart(part);
      if part.thought {
        assert response + "" == response;
        thoughts := thoughts + markdown;
      } else if markdown != "" {
        assert thoughts + "" == thoughts;
        response := response + markdown;
      } else {
        assert thoughts + "" == thoughts && response + markdown == response;
      }
    }
    assert parts[..|parts|] == parts;
    r := App.Processed(e.author, App.NoneIfEmpty(response), App.NoneIfEmpty(thoughts));
  }

  // ---------------------------------------------------------------------------
  // Draining the worker's queue
  // ---------------------------------------------------------------------------

  /**
   * A queued message: whether `msg.get("done")` is truthy, and its "author"
   * and "markdown" entries (`None` when missing).
   */
  datatype Message = Message(done: bool, author: Option<string>, markdown: Option<string>)

  /** A `chat_log` entry. */
  datatype ChatItem = ChatItem(author: string, markdown: string)

  /** Lines 267-270: the entry a message that is not a completion signal becomes. */
  function ItemOf(m: Message): ChatItem {
    ChatItem(OrDefault(m.author, "assistant"), OrDefault(m.markdown, ""))
  }

  /** The chat entries the messages `ms`, drained in order, append. */
  function Logged(ms: seq<Message>): seq<ChatItem> {
    if ms == [] then []
    else
      var m := ms[|ms| - 1];
      Logged(ms[..|ms| - 1]) + (if m.done then [] else [ItemOf(m)])
  }

  /** Whether any of the messages signals completion. */
  predicate AnyDone(ms: seq<Message>) {
    exists i :: 0 <= i < |ms| && ms[i].done
  }

  /** `sess.out_queue`: a first-in first-out queue. */
  class Outbox {
    var items: seq<Message>

    constructor (items: seq<Message>)
      ensures this.items == items
    {
      this.items := items;
    }
  }

  /** The session-state entries the drain updates. */
  class ChatState {
    var chatLog: seq<ChatItem>
    var streamDone: bool

    constructor (chatLog: seq<ChatItem>, streamDone: bool)
      ensures this.chatLog == chatLog && this.streamDone == streamDone
    {
      this.chatLog := chatLog;
      this.streamDone := streamDone;
    }
  }

  /**
   * Lines 256-273 and 280: empties the queue in order; every message that is
   * not a completion signal is appended to the chat log, a completion signal
   * sets `stream_done`; the result says whether anything was appended.
   */
  method DrainOutbox(outbox: Outbox, state: ChatState) returns (changed: bool)
    modifies outbox, state
    ensures outbox.items == []
    ensures state.chatLog == old(state.chatLog) + Logged(old(outbox.items))
    ensures state.streamDone == (old(state.streamDone) || AnyDone(old(outbox.items)))
    ensures changed <==> Logged(old(outbox.items)) != []
  {
    ghost var pending := outbox.items;
    ghost var log0 := state.chatLog;
    ghost var done0 := state.streamDone;
    ghost var k := 0;
    changed := false;
    while outbox.items != []
      invariant 0 <= k <= |pending| && outbox.items == pending[k..]
      invariant state.chatLog == log0 + Logged(pending[..k])
      invariant state.streamDone == (done0 || AnyDone(pending[..k]))
      invariant changed <==> Logged(pending[..k]) != []
      decreases |outbox.items|
    {
      var msg := outbox.items[0];
      outbox.items := outbox.items[1..];
      assert msg == pending[k];
      assert pending[..k + 1][..k] == pending[..k] && pending[..k + 1][k] == msg;
      AnyDoneSnoc(pending[..k], msg);
      if msg.done {
        state.streamDone := true;
      } else {
        state.chatLog := state.chatLog + [ChatItem(OrDefault(msg.author, "assistant"), OrDefault(msg.markdown, ""))];
        changed := true;
      }
      k := k + 1;
    }
    assert pending[..k] == pending;
  }

  lemma AnyDoneSnoc(ms: seq<Message>, m: Message)
    ensures AnyDone(ms + [m]) <==> AnyDone(ms) || m.done
  {
    if AnyDone(ms) {
      var i :| 0 <= i < |ms| && ms[i].done;
      assert (ms + [m])[i] == ms[i];
    }
    if AnyDone(ms + [m]) && !m.done {
      var i :| 0 <= i < |ms| + 1 && (ms + [m])[i].done;
      assert ms[i] == (ms + [m])[i];
    }
    assert (ms + [m])[|ms|] == m;
  }
}
