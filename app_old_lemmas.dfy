/**
 * Properties of the older `process_event` and of the outbox drain
 * (src/remip_example/app_old.py).
 */
module AppOldLemmas {
  import opened Wrappers
  import opened AdkEvents
  import App
  import opened AppOld

  /** A part with no text whose tool traffic, if any, is `ask` or `exit_loop`. */
  predicate Silent(p: Part) {
    && (p.text.None? || p.text.value == "")
    && (p.functionCall.Some? ==> Hidden(p.functionCall.value.name))
    && (p.functionResponse.Some? ==> Hidden(p.functionResponse.value.name))
  }

  /** Hidden tool traffic adds nothing to a part's markdown: only the text is left. */
  lemma HiddenToolsShowOnlyText(p: Part)
    requires p.functionCall.Some? ==> Hidden(p.functionCall.value.name)
    requires p.functionResponse.Some? ==> Hidden(p.functionResponse.value.name)
    ensures PartMarkdown(p) == OrDefault(p.text, "")
  {
    var t := OrDefault(p.text, "");
    assert t + "" + "" == t;
  }

  /** Visible tool traffic always shows: the markdown starts with the text and is longer. */
  lemma VisibleToolShows(p: Part)
    requires p.functionCall.Some? && !Hidden(p.functionCall.value.name)
    ensures |PartMarkdown(p)| > |OrDefault(p.text, "")|
    ensures PartMarkdown(p)[..|OrDefault(p.text, "")|] == OrDefault(p.text, "")
  {
  }

  /** Silent parts contribute nothing to either markdown. */
  lemma {:induction false} SilentPartsShowNothing(parts: seq<Part>)
    requires forall i :: 0 <= i < |parts| ==> Silent(parts[i])
    ensures ResponseOf(parts) == "" && ThoughtsOf(parts) == ""
    decreases |parts|
  {
    if parts != [] {
      var init := parts[..|parts| - 1];
      assert forall i :: 0 <= i < |init| ==> init[i] == parts[i];
      SilentPartsShowNothing(init);
      HiddenToolsShowOnlyText(parts[|parts| - 1]);
    }
  }

  /** Thought parts never reach the response. */
  lemma {:induction false} ThoughtPartsStayOut(parts: seq<Part>)
    requires forall i :: 0 <= i < |parts| ==> parts[i].thought
    ensures ResponseOf(parts) == ""
    decreases |parts|
  {
    if parts != [] {
      var init := parts[..|parts| - 1];
      assert forall i :: 0 <= i < |init| ==> init[i] == parts[i];
      ThoughtPartsStayOut(init);
    }
  }

  /**
   * The response markdown of consecutive parts is built part by part: over
   * `a + b` it is that over `a` followed by that over `b`.
   */
  lemma {:induction false} ResponseAppend(a: seq<Part>, b: seq<Part>)
    ensures ResponseOf(a + b) == ResponseOf(a) + ResponseOf(b)
    decreases |b|
  {
    if b == [] {
      assert a + b == a;
    } else {
      var init, x := b[..|b| - 1], b[|b| - 1];
      assert b == init + [x] && a + b == (a + init) + [x];
      ResponseAppend(a, init);
      ResponseLast(a + init, x);
      ResponseLast(init, x);
    }
  }

  /** One part more adds that part's response markdown. */
  lemma ResponseLast(parts: seq<Part>, p: Part)
    ensures ResponseOf(parts + [p]) == ResponseOf(parts) + ResponseOf([p])
  {
    assert (parts + [p])[..|parts|] == parts;
    assert [p][..0] == [];
  }

  /** The same for the thoughts markdown. */
  lemma {:induction false} ThoughtsAppend(a: seq<Part>, b: seq<Part>)
    ensures ThoughtsOf(a + b) == ThoughtsOf(a) + ThoughtsOf(b)
    decreases |b|
  {
    if b == [] {
      assert a + b == a;
    } else {
      var init := b[..|b| - 1];
      ThoughtsAppend(a, init);
      assert (a + b)[..|a + b| - 1] == a + init && (a + b)[|a + b| - 1] == b[|b| - 1];
    }
  }

  /**
   * An event made only of `ask` / `exit_loop` traffic shows nothing, and an
   * event of thought parts shows no response.
   */
  lemma ProcessEventFacts(e: Event)
    ensures e.content.None? ==> ProcessEvent(e) == App.Processed(None, None, None)
    ensures e.content.Some? ==> ProcessEvent(e).author == e.author
    ensures e.content.Some? && (forall i :: 0 <= i < |e.content.value.parts| ==> Silent(e.content.value.parts[i])) ==>
      ProcessEvent(e) == App.Processed(e.author, None, None)
    ensures e.content.Some? && (forall i :: 0 <= i < |e.content.value.parts| ==> e.content.value.parts[i].thought) ==>
      ProcessEvent(e).response.None?
  {
    if e.content.Some? {
      var parts := e.content.value.parts;
      if forall i :: 0 <= i < |parts| ==> Silent(parts[i]) {
        SilentPartsShowNothing(parts);
      }
      if forall i :: 0 <= i < |parts| ==> parts[i].thought {
        ThoughtPartsStayOut(parts);
      }
    }
  }

  /** Without content the older `process_event` drops the author, where app.py keeps it. */
  lemma NoContentDropsAuthor(e: Event)
    requires e.content.None? && e.author.Some?
    ensures ProcessEvent(e).author.None?
    ensures App.ProcessEvent(e) == Success(App.Processed(e.author, None, None))
  {
  }

  /** Draining in two batches logs what draining everything at once logs, in queue order. */
  lemma {:induction false} LoggedAppend(a: seq<Message>, b: seq<Message>)
    ensures Logged(a + b) == Logged(a) + Logged(b)
    decreases |b|
  {
    if b == [] {
      assert a + b == a;
    } else {
      var init := b[..|b| - 1];
      LoggedAppend(a, init);
      assert (a + b)[..|a + b| - 1] == a + init;
    }
  }

  /**
   * The drain logs one entry per message that is not a completion signal, so
   * it reports a change exactly when such a message was queued; every entry
   * has an author.
   */
  lemma {:induction false} LoggedFacts(ms: seq<Message>)
    ensures |Logged(ms)| <= |ms|
    ensures Logged(ms) == [] <==> forall i :: 0 <= i < |ms| ==> ms[i].done
    ensures forall item :: item in Logged(ms) ==> item.author != ""
    decreases |ms|
  {
    if ms != [] {
      var init := ms[..|ms| - 1];
      LoggedFacts(init);
      assert forall i :: 0 <= i < |init| ==> init[i] == ms[i];
      if !ms[|ms| - 1].done {
        assert Logged(ms) != [];
      } else if Logged(init) != [] {
        var i :| 0 <= i < |init| && !init[i].done;
        assert !ms[i].done;
      }
    }
  }

  /** A completion signal alone sets `stream_done` and logs nothing. */
  lemma DoneOnlyExample(author: Option<string>)
    ensures Logged([Message(true, author, None)]) == []
    ensures AnyDone([Message(true, author, None)])
  {
    assert [Message(true, author, None)][..0] == [];
    assert [Message(true, author, None)][0].done;
  }

  /** A message without author or markdown is logged as an empty assistant entry. */
  lemma DefaultsExample()
    ensures Logged([Message(false, None, None)]) == [ChatItem("assistant", "")]
  {
    assert [Message(false, None, None)][..0] == [];
  }
}
