/**
 * What `events_to_messages` (src/remip_example/chat_history.py) promises,
 * proved about the fold `ChatHistory.Run`, under either key policy unless
 * stated otherwise.
 */
module ChatHistoryLemmas {
  import opened Wrappers
  import opened PyStrings
  import opened OrderedMaps
  import opened AdkEvents
  import opened ChatHistory

  // ---------------------------------------------------------------------------
  // event_text
  // ---------------------------------------------------------------------------

  /** Reference reading of `event_text`'s join: each part's text in turn, "" for a part without one. */
  function PartsText(parts: seq<Part>): string {
    if parts == [] then ""
    else (if HasText(parts[0]) then parts[0].text.value else "") + PartsText(parts[1..])
  }

  lemma {:induction false} PartsTextSnoc(parts: seq<Part>, p: Part)
    ensures PartsText(parts + [p]) == PartsText(parts) + (if HasText(p) then p.text.value else "")
  {
    if parts == [] {
      assert [p][1..] == [];
    } else {
      assert (parts + [p])[1..] == parts[1..] + [p];
      PartsTextSnoc(parts[1..], p);
    }
  }

  lemma {:induction false} JoinPartTexts(parts: seq<Part>)
    ensures Join(PartTexts(parts)) == PartsText(parts)
  {
    if parts != [] {
      var init, p := parts[..|parts| - 1], parts[|parts| - 1];
      assert parts == init + [p];
      JoinPartTexts(init);
      PartsTextSnoc(init, p);
      if HasText(p) {
        JoinAppend(PartTexts(init), [p.text.value]);
      }
    }
  }

  lemma {:induction false} PartsTextEmptyIff(parts: seq<Part>)
    ensures PartsText(parts) == "" <==> forall i :: 0 <= i < |parts| ==> !HasText(parts[i])
  {
    if parts != [] {
      PartsTextEmptyIff(parts[1..]);
      assert forall i :: 1 <= i < |parts| ==> parts[i] == parts[1..][i - 1];
    }
  }

  /** `event_text` is "" without content, and otherwise the parts' non-empty texts in order. */
  lemma EventTextSpec(e: Event)
    ensures e.content.None? ==> EventText(e) == ""
    ensures e.content.Some? ==> EventText(e) == PartsText(e.content.value.parts)
    ensures EventText(e) == "" <==>
      (e.content.None? || forall i :: 0 <= i < |e.content.value.parts| ==> !HasText(e.content.value.parts[i]))
  {
    if e.content.Some? {
      JoinPartTexts(e.content.value.parts);
      PartsTextEmptyIff(e.content.value.parts);
    }
  }

  // ---------------------------------------------------------------------------
  // Events with empty text are skipped
  // ---------------------------------------------------------------------------

  /** The events whose text is not empty, in order. */
  function NonEmptyEvents(events: seq<Event>): seq<Event> {
    if events == [] then []
    else (if EventText(events[0]) != "" then [events[0]] else []) + NonEmptyEvents(events[1..])
  }

  /** Dropping the events with empty text does not change the fold. */
  lemma {:induction false} RunSkipsEmpty(events: seq<Event>, s: Scan, policy: NoneKeyPolicy)
    ensures Run(events, s, policy) == Run(NonEmptyEvents(events), s, policy)
    decreases |events|
  {
    if events != [] {
      var e, rest := events[0], events[1..];
      if EventText(e) == "" {
        assert NonEmptyEvents(events) == NonEmptyEvents(rest);
        RunSkipsEmpty(rest, s, policy);
      } else {
        var ne := [e] + NonEmptyEvents(rest);
        assert NonEmptyEvents(events) == ne;
        assert ne[0] == e && ne[1..] == NonEmptyEvents(rest);
        match Step(s, e, policy)
        case Failure(_) =>
        case Success(s') =>
          RunSkipsEmpty(rest, s', policy);
      }
    }
  }

  // ---------------------------------------------------------------------------
  // One step of the loop
  // ---------------------------------------------------------------------------

  /** The number of `partials` entries whose text is not empty. */
  function NonEmptyCount(m: OMap<Key, string>): nat {
    if m == [] then 0
    else NonEmptyCount(m[..|m| - 1]) + (if m[|m| - 1].1 != "" then 1 else 0)
  }

  lemma {:induction false} NonEmptyCountConcat(a: OMap<Key, string>, b: OMap<Key, string>)
    ensures NonEmptyCount(a + b) == NonEmptyCount(a) + NonEmptyCount(b)
    decreases |b|
  {
    if b == [] {
      assert a + b == a;
    } else {
      assert (a + b)[..|a + b| - 1] == a + b[..|b| - 1];
      NonEmptyCountConcat(a, b[..|b| - 1]);
    }
  }

  lemma NonEmptyCountAt(m: OMap<Key, string>, i: nat, x: (Key, string))
    requires i < |m|
    ensures NonEmptyCount(m) == NonEmptyCount(m[..i]) + NonEmptyCount([m[i]]) + NonEmptyCount(m[i + 1..])
    ensures NonEmptyCount(m[i := x]) == NonEmptyCount(m[..i]) + NonEmptyCount([x]) + NonEmptyCount(m[i + 1..])
    ensures NonEmptyCount(m[..i] + m[i + 1..]) == NonEmptyCount(m[..i]) + NonEmptyCount(m[i + 1..])
  {
    assert m == m[..i] + [m[i]] + m[i + 1..];
    assert m[i := x] == m[..i] + [x] + m[i + 1..];
    NonEmptyCountConcat(m[..i] + [m[i]], m[i + 1..]);
    NonEmptyCountConcat(m[..i], [m[i]]);
    NonEmptyCountConcat(m[..i] + [x], m[i + 1..]);
    NonEmptyCountConcat(m[..i], [x]);
    NonEmptyCountConcat(m[..i], m[i + 1..]);
    assert [m[i]][..0] == [] && [x][..0] == [];
  }

  /** Storing `v` adds a non-empty entry only when `v` is not empty. */
  lemma NonEmptyCountPut(m: OMap<Key, string>, k: Key, v: string)
    ensures NonEmptyCount(Put(m, k, v)) <= NonEmptyCount(m) + (if v == "" then 0 else 1)
  {
    if Contains(m, k) {
      NonEmptyCountAt(m, IndexOf(m, k), (k, v));
    } else {
      NonEmptyCountConcat(m, [(k, v)]);
      assert [(k, v)][..0] == [];
    }
  }

  lemma NonEmptyCountRemove(m: OMap<Key, string>, k: Key)
    requires Valid(m)
    ensures NonEmptyCount(Remove(m, k)) <= NonEmptyCount(m)
  {
    if Contains(m, k) {
      var i := IndexOf(m, k);
      assert Remove(m, k) == m[..i] + m[i + 1..];
      NonEmptyCountAt(m, i, m[i]);
    }
  }

  /**
   * A message as the loop emits it: non-empty text, and either a user message
   * or a stripped assistant message.
   */
  predicate WellFormed(m: Message) {
    m.text != "" && (m.role == User || (m.role == Assistant && Strip(m.text) == m.text))
  }

  /** The `partials` entries and messages one event can add. */
  function Weight(s: Scan): nat {
    |s.history| + NonEmptyCount(s.partials)
  }

  lemma ChooseKeyCount(s: Scan, e: Event, policy: NoneKeyPolicy)
    requires Valid(s.partials)
    ensures NonEmptyCount(ChooseKey(s, e, policy).partials) <= NonEmptyCount(s.partials)
  {
    if e.invocationId.None? {
      NonEmptyCountPut(s.partials, NoneKey(s.noneKeyCounter), "");
    } else {
      NonEmptyCountPut(s.partials, InvocationKey(e.invocationId.value), "");
    }
  }

  /**
   * One event appends at most one well-formed message, keeps the earlier
   * history, emits its own text unstripped when it is a user event, and
   * leaves everything unchanged when its text is empty.
   */
  lemma StepFacts(s: Scan, e: Event, policy: NoneKeyPolicy)
    requires Valid(s.partials) && Step(s, e, policy).Success?
    ensures var s' := Step(s, e, policy).value; var n := |s.history|;
      && n <= |s'.history| <= n + 1 && s'.history[..n] == s.history
      && (EventText(e) == "" ==> s' == s)
      && (|s'.history| == n + 1 ==>
            WellFormed(s'.history[n]) && (s'.history[n].role == User <==> Role(e) == Some("user")))
      && (EventText(e) != "" && Role(e) == Some("user") ==>
            s'.history == s.history + [Message(User, EventText(e))])
      && Weight(s') <= Weight(s) + (if EventText(e) == "" then 0 else 1)
  {
    var text := EventText(e);
    var s' := Step(s, e, policy).value;
    var n := |s.history|;
    if text != "" && Role(e) != Some("user") {
      var k := ChooseKey(s, e, policy);
      ChooseKeyCount(s, e, policy);
      AccumulateFacts(s.history, k, text, e.partial);
    } else if text != "" {
      assert s'.history == s.history + [Message(User, text)];
      assert s'.history[..n] == s.history;
    }
  }

  /** What `Accumulate` adds: at most one stripped assistant message, and no more weight than one. */
  lemma AccumulateFacts(history: seq<Message>, k: Keyed, text: string, partial: bool)
    requires Valid(k.partials) && text != "" && Accumulate(history, k, text, partial).Success?
    ensures var r := Accumulate(history, k, text, partial).value; var n := |history|;
      && (r.history == history
          || (|r.history| == n + 1 && r.history[..n] == history
              && WellFormed(r.history[n]) && r.history[n].role == Assistant))
      && |r.history| + NonEmptyCount(r.partials) <= n + NonEmptyCount(k.partials) + 1
  {
    var r := Accumulate(history, k, text, partial).value;
    if partial {
      NonEmptyCountPut(k.partials, k.key, Get(k.partials, k.key) + text);
    } else {
      var accumulated := if Contains(k.partials, k.key) then Get(k.partials, k.key) else "";
      NonEmptyCountRemove(k.partials, k.key);
      StripIdempotent(accumulated + text);
      if r.history != history {
        assert r.history == history + [Message(Assistant, Strip(accumulated + text))];
        assert r.history[..|history|] == history;
      }
    }
  }

  // ---------------------------------------------------------------------------
  // The whole loop
  // ---------------------------------------------------------------------------

  predicate AllWellFormed(ms: seq<Message>) {
    forall i :: 0 <= i < |ms| ==> WellFormed(ms[i])
  }

  /** The texts of the user messages, in order. */
  function UserTexts(ms: seq<Message>): seq<string> {
    if ms == [] then []
    else UserTexts(ms[..|ms| - 1]) + (if ms[|ms| - 1].role == User then [ms[|ms| - 1].text] else [])
  }

  /** The text of `e` if it is a user event with non-empty text. */
  function UserEventText(e: Event): seq<string> {
    if EventText(e) != "" && Role(e) == Some("user") then [EventText(e)] else []
  }

  /** The texts of the user-role events whose text is not empty, in order. */
  function UserEventTexts(events: seq<Event>): seq<string> {
    if events == [] then []
    else UserEventTexts(events[..|events| - 1]) + UserEventText(events[|events| - 1])
  }

  lemma {:induction false} UserTextsConcat(a: seq<Message>, b: seq<Message>)
    ensures UserTexts(a + b) == UserTexts(a) + UserTexts(b)
    decreases |b|
  {
    if b == [] {
      assert a + b == a;
    } else {
      assert (a + b)[..|a + b| - 1] == a + b[..|b| - 1];
      UserTextsConcat(a, b[..|b| - 1]);
    }
  }

  /** Running over `a + b` is running over `a`, then over `b`. */
  lemma {:induction false} RunAppend(a: seq<Event>, b: seq<Event>, s: Scan, policy: NoneKeyPolicy)
    ensures Run(a + b, s, policy) ==
      match Run(a, s, policy)
      case Failure(err) => Failure(err)
      case Success(s') => Run(b, s', policy)
    decreases |a|
  {
    if a == [] {
      assert a + b == b;
    } else {
      assert (a + b)[0] == a[0] && (a + b)[1..] == a[1..] + b;
      match Step(s, a[0], policy)
      case Failure(_) =>
      case Success(s1) =>
        RunAppend(a[1..], b, s1, policy);
    }
  }

  /** The run of a non-empty stream is the run of all but its last event, then one step. */
  lemma RunSnoc(events: seq<Event>, s: Scan, policy: NoneKeyPolicy)
    requires events != []
    ensures Run(events, s, policy) ==
      match Run(events[..|events| - 1], s, policy)
      case Failure(err) => Failure(err)
      case Success(s') => Step(s', events[|events| - 1], policy)
  {
    var init, e := events[..|events| - 1], events[|events| - 1];
    assert events == init + [e];
    RunAppend(init, [e], s, policy);
    match Run(init, s, policy)
    case Failure(_) =>
    case Success(s') =>
      assert Run([e], s', policy) == Step(s', e, policy) by {
        assert [e][1..] == [];
        match Step(s', e, policy)
        case Failure(_) =>
        case Success(_) =>
      }
  }

  /** Over a run the history only grows. */
  lemma {:induction false} RunKeepsHistory(events: seq<Event>, s: Scan, policy: NoneKeyPolicy)
    requires Valid(s.partials) && Run(events, s, policy).Success?
    ensures var s' := Run(events, s, policy).value;
      |s.history| <= |s'.history| && s'.history[..|s.history|] == s.history
    decreases |events|
  {
    if events != [] {
      var s1 := Step(s, events[0], policy).value;
      var s' := Run(events, s, policy).value;
      assert Run(events, s, policy) == Run(events[1..], s1, policy);
      StepFacts(s, events[0], policy);
      StepValid(s, events[0], policy);
      RunKeepsHistory(events[1..], s1, policy);
      assert s'.history[..|s.history|] == s'.history[..|s1.history|][..|s.history|];
    }
  }

  /** Every message the loop appends is well-formed. */
  lemma {:induction false} RunWellFormed(events: seq<Event>, s: Scan, policy: NoneKeyPolicy)
    requires Valid(s.partials) && Run(events, s, policy).Success? && AllWellFormed(s.history)
    ensures AllWellFormed(Run(events, s, policy).value.history)
    decreases |events|
  {
    if events != [] {
      var s1 := Step(s, events[0], policy).value;
      assert Run(events, s, policy) == Run(events[1..], s1, policy);
      StepWellFormed(s, events[0], policy);
      StepValid(s, events[0], policy);
      RunWellFormed(events[1..], s1, policy);
    }
  }

  lemma StepWellFormed(s: Scan, e: Event, policy: NoneKeyPolicy)
    requires Valid(s.partials) && Step(s, e, policy).Success? && AllWellFormed(s.history)
    ensures AllWellFormed(Step(s, e, policy).value.history)
  {
    var s1 := Step(s, e, policy).value;
    StepFacts(s, e, policy);
    assert forall i :: 0 <= i < |s.history| ==> s1.history[i] == s.history[i];
  }

  lemma StepUserTexts(s: Scan, e: Event, policy: NoneKeyPolicy, s1: Scan)
    requires Valid(s.partials) && Step(s, e, policy) == Success(s1)
    ensures UserTexts(s1.history) == UserTexts(s.history) + UserEventText(e)
  {
    StepFacts(s, e, policy);
    var n := |s.history|;
    if |s1.history| == n + 1 {
      var m := s1.history[n];
      assert s1.history == s.history + [m];
      UserTextsConcat(s.history, [m]);
      assert [m][..0] == [];
    } else {
      assert s1.history == s.history;
    }
  }

  /** The user messages of the history are the user events' texts, in order. */
  lemma {:induction false} RunUserTexts(events: seq<Event>, policy: NoneKeyPolicy)
    requires Run(events, Init, policy).Success?
    ensures UserTexts(Run(events, Init, policy).value.history) == UserEventTexts(events)
    decreases |events|
  {
    if events != [] {
      var init, last := events[..|events| - 1], events[|events| - 1];
      RunSnoc(events, Init, policy);
      RunUserTexts(init, policy);
      RunValid(init, Init, policy);
      var s0 := Run(init, Init, policy).value;
      StepUserTexts(s0, last, policy, Step(s0, last, policy).value);
    }
  }

  /** History plus live non-empty `partials` grow by at most one per event with non-empty text. */
  lemma {:induction false} RunWeight(events: seq<Event>, s: Scan, policy: NoneKeyPolicy)
    requires Valid(s.partials) && Run(events, s, policy).Success?
    ensures Weight(Run(events, s, policy).value) <= Weight(s) + |NonEmptyEvents(events)|
    decreases |events|
  {
    if events != [] {
      var s1 := Step(s, events[0], policy).value;
      assert Run(events, s, policy) == Run(events[1..], s1, policy);
      StepFacts(s, events[0], policy);
      StepValid(s, events[0], policy);
      RunWeight(events[1..], s1, policy);
    }
  }

  /** The flushed leftovers are well-formed assistant messages, one at most per non-empty entry. */
  lemma {:induction false} FlushFacts(partials: OMap<Key, string>)
    ensures AllWellFormed(Flush(partials)) && UserTexts(Flush(partials)) == []
    ensures |Flush(partials)| <= NonEmptyCount(partials)
  {
    if partials != [] {
      var init := partials[..|partials| - 1];
      var text := Strip(partials[|partials| - 1].1);
      FlushFacts(init);
      assert Strip("") == "";
      StripIdempotent(partials[|partials| - 1].1);
      if text != "" {
        var m := Message(Assistant, text);
        UserTextsConcat(Flush(init), [m]);
        assert [m][..0] == [];
      }
    }
  }

  /**
   * `events_to_messages`: every message is well-formed, the user messages are
   * the user events' texts in order, and there is at most one message per
   * event with non-empty text.
   */
  lemma MessagesFacts(events: seq<Event>, policy: NoneKeyPolicy)
    requires Messages(events, policy).Success?
    ensures var ms := Messages(events, policy).value;
      && AllWellFormed(ms)
      && UserTexts(ms) == UserEventTexts(events)
      && |ms| <= |NonEmptyEvents(events)|
  {
    var s' := Run(events, Init, policy).value;
    RunWellFormed(events, Init, policy);
    RunUserTexts(events, policy);
    RunWeight(events, Init, policy);
    FlushFacts(s'.partials);
    UserTextsConcat(s'.history, Flush(s'.partials));
  }

  /** A user event's message comes right after those of the events before it. */
  lemma UserEmittedInPlace(before: seq<Event>, e: Event, after: seq<Event>, policy: NoneKeyPolicy)
    requires EventText(e) != "" && Role(e) == Some("user")
    requires Messages(before + [e] + after, policy).Success?
    ensures Run(before, Init, policy).Success?
    ensures var n := |Run(before, Init, policy).value.history|;
      var ms := Messages(before + [e] + after, policy).value;
      && n < |ms| && ms[..n] == Run(before, Init, policy).value.history
      && ms[n] == Message(User, EventText(e))
  {
    var all := before + [e] + after;
    RunAppend(before + [e], after, Init, policy);
    var s2 := UserPrefix(before, e, policy);
    var s1 := Run(before, Init, policy).value;
    var n := |s1.history|;
    assert Run(all, Init, policy) == Run(after, s2, policy);
    RunKeepsHistory(after, s2, policy);
    var s' := Run(after, s2, policy).value;
    assert s'.history[..n + 1] == s2.history;
    assert Messages(all, policy) == Success(s'.history + Flush(s'.partials));
    var ms := s'.history + Flush(s'.partials);
    assert ms[n] == s'.history[n] == s2.history[n] == Message(User, EventText(e));
    assert ms[..n] == s'.history[..n] == s2.history[..n] == s1.history;
  }

  /** The state after `before + [e]` for a user event `e` that the run reaches. */
  lemma UserPrefix(before: seq<Event>, e: Event, policy: NoneKeyPolicy) returns (s2: Scan)
    requires EventText(e) != "" && Role(e) == Some("user")
    requires Run(before + [e], Init, policy).Success?
    ensures Run(before, Init, policy).Success?
    ensures Run(before + [e], Init, policy) == Success(s2)
    ensures s2.history == Run(before, Init, policy).value.history + [Message(User, EventText(e))]
    ensures Valid(s2.partials)
  {
    assert (before + [e])[..|before|] == before;
    RunSnoc(before + [e], Init, policy);
    var s1 := Run(before, Init, policy).value;
    s2 := Step(s1, e, policy).value;
    RunValid(before, Init, policy);
    StepFacts(s1, e, policy);
    StepValid(s1, e, policy);
  }


  // ---------------------------------------------------------------------------
  // Partial chunks: accumulation, merge and flush
  // ---------------------------------------------------------------------------

  /** A streamed chunk: a non-user partial event that carries an invocation id. */
  predicate Streaming(e: Event) {
    Role(e) != Some("user") && e.partial && e.invocationId.Some?
  }

  /** The text accumulated so far under `k`, "" when it has no entry. */
  function Acc(m: OMap<Key, string>, k: Key): string {
    if Contains(m, k) then Get(m, k) else ""
  }

  /** The keys of the events with non-empty text and an invocation id, in order. */
  function ChunkKeys(events: seq<Event>): seq<Key> {
    if events == [] then []
    else
      var e := events[|events| - 1];
      ChunkKeys(events[..|events| - 1])
      + (if EventText(e) != "" && e.invocationId.Some? then [InvocationKey(e.invocationId.value)] else [])
  }

  /** `ks` without repetitions, each key where it first appears. */
  function FirstSeen(ks: seq<Key>): seq<Key> {
    if ks == [] then []
    else
      var seen := FirstSeen(ks[..|ks| - 1]);
      if ks[|ks| - 1] in seen then seen else seen + [ks[|ks| - 1]]
  }

  /** The concatenated texts of the events carrying invocation id `id`. */
  function Accumulated(events: seq<Event>, id: string): string {
    if events == [] then ""
    else
      var e := events[|events| - 1];
      Accumulated(events[..|events| - 1], id) + (if e.invocationId == Some(id) then EventText(e) else "")
  }

  /** The text accumulated under `k` over `events`; none keys never receive any. */
  function KeyText(events: seq<Event>, k: Key): string {
    if k.InvocationKey? then Accumulated(events, k.id) else ""
  }

  /** A streamed chunk appends its text to its invocation's entry, creating it at the end if needed. */
  lemma StreamingStep(s: Scan, e: Event, policy: NoneKeyPolicy)
    requires Valid(s.partials) && Streaming(e) && s.lastNoneKey.None?
    ensures Step(s, e, policy).Success?
    ensures var s' := Step(s, e, policy).value; var k := InvocationKey(e.invocationId.value);
      && s'.history == s.history && s'.lastNoneKey.None? && s'.noneKeyCounter == s.noneKeyCounter
      && Keys(s'.partials) == (if EventText(e) == "" || k in Keys(s.partials) then Keys(s.partials) else Keys(s.partials) + [k])
      && Acc(s'.partials, k) == Acc(s.partials, k) + EventText(e)
      && (forall k' :: k' != k ==> Acc(s'.partials, k') == Acc(s.partials, k'))
  {
    var text := EventText(e);
    var k := InvocationKey(e.invocationId.value);
    var m := s.partials;
    ContainsIffInKeys(m, k);
    if text == "" {
      assert Acc(m, k) + text == Acc(m, k);
    } else {
      var m1 := if Contains(m, k) then m else Put(m, k, "");
      assert ChooseKey(s, e, policy) == Keyed(k, m1, s.noneKeyCounter, None);
      assert Contains(m1, k) by { PutFacts(m, k, ""); }
      assert Step(s, e, policy) == Success(Scan(s.history, Put(m1, k, Get(m1, k) + text), s.noneKeyCounter, None));
      AppendChunk(m, k, text);
    }
  }

  /** Appending to the entry for `k`, created empty at the end when missing, as `partials[key] += text` does. */
  lemma AppendChunk(m: OMap<Key, string>, k: Key, text: string)
    requires Valid(m)
    ensures var m1 := if Contains(m, k) then m else Put(m, k, "");
      && Contains(m1, k)
      && var m2 := Put(m1, k, Get(m1, k) + text);
      && Keys(m2) == (if k in Keys(m) then Keys(m) else Keys(m) + [k])
      && Acc(m2, k) == Acc(m, k) + text
      && (forall k' :: k' != k ==> Acc(m2, k') == Acc(m, k'))
  {
    ContainsIffInKeys(m, k);
    var m1 := if Contains(m, k) then m else Put(m, k, "");
    PutFacts(m, k, "");
    assert Contains(m1, k) && Acc(m1, k) == Acc(m, k);
    var m2 := Put(m1, k, Get(m1, k) + text);
    PutFacts(m1, k, Get(m1, k) + text);
    forall k' | k' != k
      ensures Acc(m2, k') == Acc(m, k')
    {
    }
  }

  /**
   * From a state with no live entries, a stream of partial chunks with
   * invocation ids never fails, emits nothing yet, and leaves one entry per
   * invocation, in first-seen order, holding that invocation's concatenated
   * texts.
   */
  lemma {:induction false} StreamingRun(events: seq<Event>, s: Scan, policy: NoneKeyPolicy)
    requires forall i :: 0 <= i < |events| ==> Streaming(events[i])
    requires s.partials == [] && s.lastNoneKey.None?
    ensures Run(events, s, policy).Success?
    ensures var s' := Run(events, s, policy).value;
      && s'.history == s.history && s'.lastNoneKey.None? && s'.noneKeyCounter == s.noneKeyCounter
      && Keys(s'.partials) == FirstSeen(ChunkKeys(events))
      && forall k :: Acc(s'.partials, k) == KeyText(events, k)
    decreases |events|
  {
    if events != [] {
      var init, e := events[..|events| - 1], events[|events| - 1];
      assert forall i :: 0 <= i < |init| ==> init[i] == events[i];
      RunSnoc(events, s, policy);
      StreamingRun(init, s, policy);
      RunValid(init, s, policy);
      var s0 := Run(init, s, policy).value;
      StreamingStep(s0, e, policy);
      StreamingExtend(events, s0, Step(s0, e, policy).value, policy);
    } else {
      forall k' ensures Acc(s.partials, k') == KeyText(events, k') {
        assert !Contains(s.partials, k');
      }
    }
  }

  /** The invariant of `StreamingRun` carried over one more chunk. */
  lemma StreamingExtend(events: seq<Event>, s0: Scan, s': Scan, policy: NoneKeyPolicy)
    requires events != [] && Valid(s0.partials)
    requires Streaming(events[|events| - 1]) && s0.lastNoneKey.None?
    requires Keys(s0.partials) == FirstSeen(ChunkKeys(events[..|events| - 1]))
    requires forall k :: Acc(s0.partials, k) == KeyText(events[..|events| - 1], k)
    requires Step(s0, events[|events| - 1], policy) == Success(s')
    ensures Keys(s'.partials) == FirstSeen(ChunkKeys(events))
    ensures forall k :: Acc(s'.partials, k) == KeyText(events, k)
  {
    var e := events[|events| - 1];
    StreamingStep(s0, e, policy);
    ChunkKeysExtend(events, Keys(s0.partials), Keys(s'.partials));
    AccumulatedExtend(events, s0.partials, s'.partials);
  }

  lemma ChunkKeysExtend(events: seq<Event>, ks0: seq<Key>, ks1: seq<Key>)
    requires events != [] && events[|events| - 1].invocationId.Some?
    requires ks0 == FirstSeen(ChunkKeys(events[..|events| - 1]))
    requires var e := events[|events| - 1]; var k := InvocationKey(e.invocationId.value);
      ks1 == (if EventText(e) == "" || k in ks0 then ks0 else ks0 + [k])
    ensures ks1 == FirstSeen(ChunkKeys(events))
  {
    var init, e := events[..|events| - 1], events[|events| - 1];
    var k := InvocationKey(e.invocationId.value);
    if EventText(e) != "" {
      assert ChunkKeys(events) == ChunkKeys(init) + [k];
      FirstSeenSnoc(ChunkKeys(init), k);
    } else {
      assert ChunkKeys(events) == ChunkKeys(init) + [];
      assert ChunkKeys(init) + [] == ChunkKeys(init);
    }
  }

  lemma FirstSeenSnoc(ks: seq<Key>, k: Key)
    ensures FirstSeen(ks + [k]) == if k in FirstSeen(ks) then FirstSeen(ks) else FirstSeen(ks) + [k]
  {
    assert (ks + [k])[..|ks|] == ks;
  }

  lemma AccumulatedExtend(events: seq<Event>, m0: OMap<Key, string>, m1: OMap<Key, string>)
    requires events != [] && events[|events| - 1].invocationId.Some?
    requires forall k :: Acc(m0, k) == KeyText(events[..|events| - 1], k)
    requires var e := events[|events| - 1]; var k := InvocationKey(e.invocationId.value);
      && Acc(m1, k) == Acc(m0, k) + EventText(e)
      && (forall k' :: k' != k ==> Acc(m1, k') == Acc(m0, k'))
    ensures forall k :: Acc(m1, k) == KeyText(events, k)
  {
    var init, e := events[..|events| - 1], events[|events| - 1];
    var k := InvocationKey(e.invocationId.value);
    forall k'
      ensures Acc(m1, k') == KeyText(events, k')
    {
      if k'.InvocationKey? {
        assert Accumulated(events, k'.id) == Accumulated(init, k'.id) + (if e.invocationId == Some(k'.id) then EventText(e) else "");
        if k' != k {
          assert Accumulated(init, k'.id) + "" == Accumulated(init, k'.id);
        }
      }
    }
  }

  /** The messages flushed for the keys `ks`, in that order. */
  function FlushOrder(ks: seq<Key>, events: seq<Event>): seq<Message> {
    if ks == [] then []
    else
      var text := Strip(KeyText(events, ks[|ks| - 1]));
      var flushed := FlushOrder(ks[..|ks| - 1], events);
      if text != "" then flushed + [Message(Assistant, text)] else flushed
  }

  lemma EntriesHoldKeyText(m: OMap<Key, string>, events: seq<Event>)
    requires Valid(m) && forall k :: Acc(m, k) == KeyText(events, k)
    ensures forall i :: 0 <= i < |m| ==> m[i].1 == KeyText(events, m[i].0)
  {
    forall i | 0 <= i < |m|
      ensures m[i].1 == KeyText(events, m[i].0)
    {
      IndexOfUnique(m, m[i].0, i);
      assert Acc(m, m[i].0) == m[i].1;
    }
  }

  lemma {:induction false} FlushInKeyOrder(m: OMap<Key, string>, events: seq<Event>)
    requires forall i :: 0 <= i < |m| ==> m[i].1 == KeyText(events, m[i].0)
    ensures Flush(m) == FlushOrder(Keys(m), events)
  {
    if m != [] {
      var init := m[..|m| - 1];
      KeysSnoc(m);
      FlushInKeyOrder(init, events);
      assert (Keys(init) + [m[|m| - 1].0])[..|Keys(init)|] == Keys(init);
    }
  }

  /**
   * Partial chunks with no final chunk are flushed after the loop, one
   * stripped message per invocation, in first-seen order.
   */
  lemma StreamingMessages(events: seq<Event>, policy: NoneKeyPolicy)
    requires forall i :: 0 <= i < |events| ==> Streaming(events[i])
    ensures Messages(events, policy) == Success(FlushOrder(FirstSeen(ChunkKeys(events)), events))
  {
    StreamingRun(events, Init, policy);
    RunValid(events, Init, policy);
    var s := Run(events, Init, policy).value;
    var ks := FirstSeen(ChunkKeys(events));
    assert Keys(s.partials) == ks;
    EntriesHoldKeyText(s.partials, events);
    FlushInKeyOrder(s.partials, events);
    assert Messages(events, policy) == Success(s.history + Flush(s.partials));
    assert s.history + Flush(s.partials) == FlushOrder(ks, events);
  }

  lemma {:induction false} ChunkKeysOf(events: seq<Event>, id: string)
    requires forall i :: 0 <= i < |events| ==> events[i].invocationId == Some(id)
    ensures forall i :: 0 <= i < |ChunkKeys(events)| ==> ChunkKeys(events)[i] == InvocationKey(id)
  {
    if events != [] {
      ChunkKeysOf(events[..|events| - 1], id);
    }
  }

  lemma {:induction false} FirstSeenOfOne(ks: seq<Key>, k: Key)
    requires forall i :: 0 <= i < |ks| ==> ks[i] == k
    ensures FirstSeen(ks) == if ks == [] then [] else [k]
  {
    if ks != [] {
      FirstSeenOfOne(ks[..|ks| - 1], k);
    }
  }

  /** A final chunk pops its invocation's only entry and emits the stripped text. */
  lemma FinalStep(s0: Scan, final: Event, acc: string, policy: NoneKeyPolicy)
    requires Role(final) != Some("user") && !final.partial && final.invocationId.Some? && EventText(final) != ""
    requires var k := InvocationKey(final.invocationId.value);
      (s0.partials == [] && acc == "") || s0.partials == [(k, acc)]
    requires s0.lastNoneKey.None?
    ensures var c := Strip(acc + EventText(final));
      Step(s0, final, policy)
        == Success(s0.(history := if c != "" then s0.history + [Message(Assistant, c)] else s0.history, partials := []))
  {
    var k := InvocationKey(final.invocationId.value);
    var text := EventText(final);
    var m1 := [(k, acc)];
    assert ChooseKey(s0, final, policy) == Keyed(k, m1, s0.noneKeyCounter, None) by {
      if s0.partials == [] {
        assert !Contains(s0.partials, k);
        assert Put(s0.partials, k, "") == m1;
      } else {
        assert s0.partials[0].0 == k;
      }
    }
    IndexOfUnique(m1, k, 0);
    RemoveFacts(m1, k);
    assert Remove(m1, k) == [];
    assert Get(m1, k) == acc;
  }

  /** Chunks of a single invocation leave at most its own entry, holding their texts. */
  lemma ChunksOfOne(chunks: seq<Event>, id: string, s: Scan, policy: NoneKeyPolicy)
    requires forall i :: 0 <= i < |chunks| ==> Streaming(chunks[i]) && chunks[i].invocationId == Some(id)
    requires s.partials == [] && s.lastNoneKey.None?
    ensures Run(chunks, s, policy).Success?
    ensures var s0 := Run(chunks, s, policy).value; var acc := Accumulated(chunks, id);
      && s0 == s.(partials := s0.partials)
      && ((s0.partials == [] && acc == "") || s0.partials == [(InvocationKey(id), acc)])
  {
    var k := InvocationKey(id);
    StreamingRun(chunks, s, policy);
    var m := Run(chunks, s, policy).value.partials;
    assert Acc(m, k) == Accumulated(chunks, id);
    assert Keys(m) == [] || Keys(m) == [k] by {
      ChunkKeysOf(chunks, id);
      FirstSeenOfOne(ChunkKeys(chunks), k);
    }
    OneKeyMap(m, k);
  }

  /** A map whose only key is `k` is empty or holds the one entry for `k`. */
  lemma OneKeyMap(m: OMap<Key, string>, k: Key)
    requires Keys(m) == [] || Keys(m) == [k]
    ensures m == [] || m == [(k, Acc(m, k))]
  {
    if m != [] {
      assert |m| == 1 && m[0].0 == Keys(m)[0] == k;
      IndexOfUnique(m, k, 0);
    }
  }

  /**
   * Partial chunks of one invocation followed by its final chunk give a single
   * assistant message: the stripped concatenation of all their texts, emitted
   * only when it is not empty; nothing is left to flush.
   */
  lemma MergeWithFinal(chunks: seq<Event>, final: Event, s: Scan, policy: NoneKeyPolicy)
    requires forall i :: 0 <= i < |chunks| ==> Streaming(chunks[i]) && chunks[i].invocationId == final.invocationId
    requires Role(final) != Some("user") && !final.partial && final.invocationId.Some? && EventText(final) != ""
    requires s.partials == [] && s.lastNoneKey.None?
    ensures var c := Strip(Accumulated(chunks, final.invocationId.value) + EventText(final));
      Run(chunks + [final], s, policy)
        == Success(s.(history := if c != "" then s.history + [Message(Assistant, c)] else s.history))
  {
    var acc := Accumulated(chunks, final.invocationId.value);
    ChunksOfOne(chunks, final.invocationId.value, s, policy);
    var s0 := Run(chunks, s, policy).value;
    FinalStep(s0, final, acc, policy);
    RunAppend(chunks, [final], s, policy);
    assert Run([final], s0, policy) == Step(s0, final, policy);
  }

  // ---------------------------------------------------------------------------
  // A final chunk amid other invocations' chunks
  // ---------------------------------------------------------------------------

  /** `ks` with every occurrence of `k` dropped. */
  function Without(ks: seq<Key>, k: Key): seq<Key> {
    if ks == [] then []
    else Without(ks[..|ks| - 1], k) + (if ks[|ks| - 1] == k then [] else [ks[|ks| - 1]])
  }

  lemma {:induction false} WithoutConcat(a: seq<Key>, b: seq<Key>, k: Key)
    ensures Without(a + b, k) == Without(a, k) + Without(b, k)
    decreases |b|
  {
    if b == [] {
      assert a + b == a;
    } else {
      WithoutConcat(a, b[..|b| - 1], k);
      assert (a + b)[..|a + b| - 1] == a + b[..|b| - 1];
    }
  }

  lemma {:induction false} WithoutAbsent(ks: seq<Key>, k: Key)
    requires k !in ks
    ensures Without(ks, k) == ks
    decreases |ks|
  {
    if ks != [] {
      WithoutAbsent(ks[..|ks| - 1], k);
    }
  }

  /** Dropping the only occurrence of `k`. */
  lemma WithoutOnce(before: seq<Key>, k: Key, after: seq<Key>)
    requires k !in before && k !in after
    ensures Without(before + [k] + after, k) == before + after
  {
    assert Without(before + [k], k) == before by {
      assert (before + [k])[..|before|] == before;
      WithoutAbsent(before, k);
    }
    assert Without(after, k) == after by {
      WithoutAbsent(after, k);
    }
    WithoutConcat(before + [k], after, k);
  }

  /** The keys of a valid map around the entry at `i`, which hold no other copy of its key. */
  lemma KeysAround(m: OMap<Key, string>, i: nat)
    requires Valid(m) && i < |m|
    ensures Keys(m) == Keys(m)[..i] + [m[i].0] + Keys(m)[i + 1..]
    ensures Keys(m[..i] + m[i + 1..]) == Keys(m)[..i] + Keys(m)[i + 1..]
    ensures m[i].0 !in Keys(m)[..i] && m[i].0 !in Keys(m)[i + 1..]
  {
    var ks := Keys(m);
    assert ks == ks[..i] + [m[i].0] + ks[i + 1..];
    forall j | 0 <= j < i
      ensures ks[..i][j] != m[i].0
    {
      assert m[j].0 != m[i].0;
    }
    forall j | i < j < |m|
      ensures ks[j] != m[i].0
    {
      assert m[j].0 != m[i].0;
    }
  }

  /** Popping `k` leaves the other keys in their order. */
  lemma KeysRemove(m: OMap<Key, string>, k: Key)
    requires Valid(m)
    ensures Keys(Remove(m, k)) == Without(Keys(m), k)
  {
    ContainsIffInKeys(m, k);
    if !Contains(m, k) {
      WithoutAbsent(Keys(m), k);
    } else {
      var i := IndexOf(m, k);
      KeysAround(m, i);
      WithoutOnce(Keys(m)[..i], k, Keys(m)[i + 1..]);
    }
  }

  /**
   * A final chunk with an invocation id pops that invocation's entry, whatever
   * else is pending, and emits the stripped accumulated text plus its own.
   */
  lemma FinalAmidStep(s: Scan, final: Event, policy: NoneKeyPolicy)
    requires Valid(s.partials)
    requires Role(final) != Some("user") && !final.partial && final.invocationId.Some? && EventText(final) != ""
    ensures var k := InvocationKey(final.invocationId.value);
      var c := Strip(Acc(s.partials, k) + EventText(final));
      Step(s, final, policy)
        == Success(Scan(s.history + (if c != "" then [Message(Assistant, c)] else []),
                        Remove(s.partials, k), s.noneKeyCounter, None))
  {
    var k := InvocationKey(final.invocationId.value);
    var m := s.partials;
    if !Contains(m, k) {
      PutFacts(m, k, "");
      RemoveAfterAppend(m, k, "");
      RemoveFacts(m, k);
    }
    assert s.history + [] == s.history;
  }

  /**
   * Partial chunks of any invocations, then the final chunk of one of them:
   * the final chunk emits the stripped concatenation of its invocation's
   * chunk texts and its own, when that is not empty, and pops its entry; the
   * other invocations' entries stay, in first-seen order, with their texts.
   */
  lemma MergeWithFinalAmid(chunks: seq<Event>, final: Event, s: Scan, policy: NoneKeyPolicy)
    requires forall i :: 0 <= i < |chunks| ==> Streaming(chunks[i])
    requires Role(final) != Some("user") && !final.partial && final.invocationId.Some? && EventText(final) != ""
    requires s.partials == [] && s.lastNoneKey.None?
    ensures Run(chunks + [final], s, policy).Success?
    ensures var k := InvocationKey(final.invocationId.value);
      var c := Strip(KeyText(chunks, k) + EventText(final));
      var s' := Run(chunks + [final], s, policy).value;
      && s'.history == s.history + (if c != "" then [Message(Assistant, c)] else [])
      && Valid(s'.partials) && !Contains(s'.partials, k)
      && Keys(s'.partials) == Without(FirstSeen(ChunkKeys(chunks)), k)
      && (forall k' :: k' != k ==> Acc(s'.partials, k') == KeyText(chunks, k'))
  {
    var k := InvocationKey(final.invocationId.value);
    StreamingRun(chunks, s, policy);
    RunValid(chunks, s, policy);
    var s0 := Run(chunks, s, policy).value;
    FinalAmidStep(s0, final, policy);
    RunAppend(chunks, [final], s, policy);
    assert Run([final], s0, policy) == Step(s0, final, policy);
    KeysRemove(s0.partials, k);
    RemoveFacts(s0.partials, k);
  }

  /**
   * `events_to_messages` on partial chunks and one final chunk: the final
   * chunk's merged message, then the other invocations' leftovers flushed in
   * first-seen order.
   */
  lemma MergeAmidMessages(chunks: seq<Event>, final: Event, policy: NoneKeyPolicy)
    requires forall i :: 0 <= i < |chunks| ==> Streaming(chunks[i])
    requires Role(final) != Some("user") && !final.partial && final.invocationId.Some? && EventText(final) != ""
    ensures var k := InvocationKey(final.invocationId.value);
      var c := Strip(KeyText(chunks, k) + EventText(final));
      Messages(chunks + [final], policy)
        == Success((if c != "" then [Message(Assistant, c)] else [])
                   + FlushOrder(Without(FirstSeen(ChunkKeys(chunks)), k), chunks))
  {
    var k := InvocationKey(final.invocationId.value);
    var c := Strip(KeyText(chunks, k) + EventText(final));
    MergeWithFinalAmid(chunks, final, Init, policy);
    var s' := Run(chunks + [final], Init, policy).value;
    var m := s'.partials;
    forall i | 0 <= i < |m|
      ensures m[i].1 == KeyText(chunks, m[i].0)
    {
      assert m[i].0 != k;
      IndexOfUnique(m, m[i].0, i);
      assert Acc(m, m[i].0) == m[i].1;
    }
    FlushInKeyOrder(m, chunks);
    MessagesOfRun(chunks + [final], s', policy);
    assert s'.history == (if c != "" then [Message(Assistant, c)] else []);
  }

  /** Two streamed chunks of two different invocations keep their texts apart. */
  lemma TwoInvocations(p1: Event, p2: Event, x: string, y: string)
    requires p1.invocationId == Some(x) && p2.invocationId == Some(y) && x != y
    requires EventText(p1) != "" && EventText(p2) != ""
    ensures FirstSeen(ChunkKeys([p1, p2])) == [InvocationKey(x), InvocationKey(y)]
    ensures KeyText([p1, p2], InvocationKey(x)) == EventText(p1)
    ensures KeyText([p1, p2], InvocationKey(y)) == EventText(p2)
  {
    var kx, ky := InvocationKey(x), InvocationKey(y);
    assert [p1, p2][..1] == [p1] && [p1][..0] == [];
    ChunkKeysPair(p1, p2);
    assert [kx, ky][..1] == [kx] && [kx][..0] == [];
    assert FirstSeen([kx]) == [] + [kx] == [kx];
    assert Accumulated([p1], x) == "" + EventText(p1) == EventText(p1);
    assert Accumulated([p1, p2], x) == Accumulated([p1], x) + "";
    assert Accumulated([p1], y) == "" + "";
    assert Accumulated([p1, p2], y) == Accumulated([p1], y) + EventText(p2);
  }

  /**
   * A chunk of invocation `x`, a chunk of invocation `y`, then the final
   * chunk of `x`: the texts of `x` are emitted at once, stripped, and the
   * text of `y` is flushed after the loop.
   */
  lemma Interleaved(p1: Event, p2: Event, f: Event, x: string, y: string, policy: NoneKeyPolicy)
    requires Streaming(p1) && Streaming(p2) && p1.invocationId == Some(x) && p2.invocationId == Some(y) && x != y
    requires EventText(p1) != "" && EventText(p2) != ""
    requires Role(f) != Some("user") && !f.partial && f.invocationId == Some(x) && EventText(f) != ""
    ensures var c := Strip(EventText(p1) + EventText(f)); var b := Strip(EventText(p2));
      Messages([p1, p2, f], policy)
        == Success((if c != "" then [Message(Assistant, c)] else []) + (if b != "" then [Message(Assistant, b)] else []))
  {
    var kx, ky := InvocationKey(x), InvocationKey(y);
    TwoInvocations(p1, p2, x, y);
    MergeAmidMessages([p1, p2], f, policy);
    assert [p1, p2] + [f] == [p1, p2, f];
    OtherFlushed([p1, p2], kx, ky);
  }

  /** With `kx` popped, only `ky`'s text is flushed. */
  lemma OtherFlushed(chunks: seq<Event>, kx: Key, ky: Key)
    requires kx != ky
    ensures var b := Strip(KeyText(chunks, ky));
      FlushOrder(Without([kx, ky], kx), chunks) == if b != "" then [Message(Assistant, b)] else []
  {
    assert Without([kx, ky], kx) == [ky] by {
      assert [kx, ky][..1] == [kx] && [kx][..0] == [];
      assert Without([kx], kx) == Without([], kx) + [] == [];
      assert Without([kx, ky], kx) == Without([kx], kx) + [ky];
    }
    assert [ky][..0] == [];
    var b := Strip(KeyText(chunks, ky));
    assert FlushOrder([ky], chunks) == if b != "" then [] + [Message(Assistant, b)] else [];
  }

  /** The same with the events `_make_event` of tests/test_chat_history.py builds. */
  lemma InterleavedExample(a: string, b: string, c: string, x: string, y: string)
    requires a != "" && b != "" && c != "" && x != y
    ensures EventsToMessages([TextEvent("model", a, true, Some(x)), TextEvent("model", b, true, Some(y)),
                              TextEvent("model", c, false, Some(x))])
         == Success((if Strip(a + c) != "" then [Message(Assistant, Strip(a + c))] else [])
                    + (if Strip(b) != "" then [Message(Assistant, Strip(b))] else []))
  {
    assert "model"[0] != "user"[0];
    TextEventText("model", a, true, Some(x));
    TextEventText("model", b, true, Some(y));
    TextEventText("model", c, false, Some(x));
    Interleaved(TextEvent("model", a, true, Some(x)), TextEvent("model", b, true, Some(y)),
                TextEvent("model", c, false, Some(x)), x, y, AsWritten);
  }

  // ---------------------------------------------------------------------------
  // Id-less chunks (lines 52-57 of chat_history.py)
  // ---------------------------------------------------------------------------

  /** A non-user partial chunk without an invocation id and with text. */
  predicate IdlessChunk(e: Event) {
    Role(e) != Some("user") && e.partial && e.invocationId.None? && EventText(e) != ""
  }

  /** The concatenated texts of `events`. */
  function ChunkText(events: seq<Event>): string {
    if events == [] then "" else ChunkText(events[..|events| - 1]) + EventText(events[|events| - 1])
  }

  /** With no live none key, an id-less event opens a fresh `__none__:<n>` entry at the end and makes it active. */
  lemma FreshNoneKey(s: Scan, e: Event, policy: NoneKeyPolicy)
    requires e.invocationId.None? && Valid(s.partials) && !Contains(s.partials, NoneKey(s.noneKeyCounter))
    requires s.lastNoneKey.None? || (policy.Corrected? && !Contains(s.partials, s.lastNoneKey.value))
    ensures var k := NoneKey(s.noneKeyCounter);
      ChooseKey(s, e, policy) == Keyed(k, s.partials + [(k, "")], s.noneKeyCounter + 1, Some(k))
  {
  }

  /** A live none key is reused. */
  lemma LiveNoneKey(s: Scan, e: Event, policy: NoneKeyPolicy)
    requires e.invocationId.None? && s.lastNoneKey.Some? && Contains(s.partials, s.lastNoneKey.value)
    ensures ChooseKey(s, e, policy) == Keyed(s.lastNoneKey.value, s.partials, s.noneKeyCounter, s.lastNoneKey)
  {
  }

  /** The entry appended last: reading it, appending to it and popping it. */
  lemma LastEntry(m: OMap<Key, string>, k: Key, t: string, u: string)
    requires Valid(m) && !Contains(m, k)
    ensures Contains(m + [(k, t)], k) && Get(m + [(k, t)], k) == t
    ensures Put(m + [(k, t)], k, t + u) == m + [(k, t + u)]
    ensures Remove(m + [(k, t)], k) == m
  {
    IndexOfUnique(m + [(k, t)], k, |m|);
    assert Put(m, k, t) == m + [(k, t)];
    RemoveAfterAppend(m, k, t);
  }

  /**
   * With no live none key, a run of id-less chunks fills one fresh
   * `__none__:<n>` entry, appended after the existing ones, with their
   * concatenated texts; that key becomes the active one. The corrected
   * selection always does this; the code as written does it when no stale key
   * is remembered.
   */
  lemma {:induction false} IdlessChunks(chunks: seq<Event>, s: Scan, policy: NoneKeyPolicy)
    requires chunks != [] && forall i :: 0 <= i < |chunks| ==> IdlessChunk(chunks[i])
    requires Valid(s.partials) && !Contains(s.partials, NoneKey(s.noneKeyCounter))
    requires s.lastNoneKey.None? || (policy.Corrected? && !Contains(s.partials, s.lastNoneKey.value))
    ensures var k := NoneKey(s.noneKeyCounter);
      Run(chunks, s, policy)
        == Success(Scan(s.history, s.partials + [(k, ChunkText(chunks))], s.noneKeyCounter + 1, Some(k)))
    decreases |chunks|
  {
    var k := NoneKey(s.noneKeyCounter);
    var m := s.partials;
    var e := chunks[|chunks| - 1];
    RunSnoc(chunks, s, policy);
    if |chunks| == 1 {
      assert chunks[..0] == [];
      assert Run([], s, policy) == Success(s);
      FreshNoneKey(s, e, policy);
      LastEntry(m, k, "", EventText(e));
      assert ChunkText(chunks) == "" + EventText(e);
    } else {
      var init := chunks[..|chunks| - 1];
      IdlessChunks(init, s, policy);
      var s1 := Scan(s.history, m + [(k, ChunkText(init))], s.noneKeyCounter + 1, Some(k));
      LastEntry(m, k, ChunkText(init), EventText(e));
      LiveNoneKey(s1, e, policy);
    }
  }

  /** An id-less final chunk whose key's entry, holding `t`, was appended last pops it and emits `strip(t + text)`. */
  lemma IdlessFinalStep(s: Scan, m: OMap<Key, string>, k: Key, t: string, n: nat, final: Event, policy: NoneKeyPolicy)
    requires Role(final) != Some("user") && !final.partial && final.invocationId.None? && EventText(final) != ""
    requires Valid(m) && !Contains(m, k)
    requires ChooseKey(s, final, policy) == Keyed(k, m + [(k, t)], n, Some(k))
    ensures var c := Strip(t + EventText(final));
      Step(s, final, policy)
        == Success(Scan(s.history + (if c != "" then [Message(Assistant, c)] else []), m, n, Some(k)))
  {
    var kd := ChooseKey(s, final, policy);
    LastEntry(m, k, t, "");
    assert Step(s, final, policy) == Accumulate(s.history, kd, EventText(final), false);
    assert Contains(kd.partials, kd.key) && Get(kd.partials, kd.key) == t;
    assert Remove(kd.partials, kd.key) == m;
    var c := Strip(t + EventText(final));
    assert Accumulate(s.history, kd, EventText(final), false)
        == Success(Scan(if c != "" then s.history + [Message(Assistant, c)] else s.history, m, n, Some(k)));
    assert s.history + [] == s.history;
  }

  /**
   * Id-less chunks, then an id-less final chunk: the final chunk pops the
   * fresh entry and emits the stripped concatenation of all their texts,
   * when that is not empty; the other entries are as before.
   */
  lemma IdlessMerge(chunks: seq<Event>, final: Event, s: Scan, policy: NoneKeyPolicy)
    requires forall i :: 0 <= i < |chunks| ==> IdlessChunk(chunks[i])
    requires Role(final) != Some("user") && !final.partial && final.invocationId.None? && EventText(final) != ""
    requires Valid(s.partials) && !Contains(s.partials, NoneKey(s.noneKeyCounter))
    requires s.lastNoneKey.None? || (policy.Corrected? && !Contains(s.partials, s.lastNoneKey.value))
    ensures var k := NoneKey(s.noneKeyCounter);
      var c := Strip(ChunkText(chunks) + EventText(final));
      Run(chunks + [final], s, policy)
        == Success(Scan(s.history + (if c != "" then [Message(Assistant, c)] else []), s.partials,
                        s.noneKeyCounter + 1, Some(k)))
  {
    var k := NoneKey(s.noneKeyCounter);
    var m := s.partials;
    var t := ChunkText(chunks);
    RunSnoc(chunks + [final], s, policy);
    assert (chunks + [final])[..|chunks|] == chunks;
    if chunks == [] {
      assert Run(chunks, s, policy) == Success(s);
      FreshNoneKey(s, final, policy);
      IdlessFinalStep(s, m, k, "", s.noneKeyCounter + 1, final, policy);
      assert t + EventText(final) == "" + EventText(final);
    } else {
      IdlessChunks(chunks, s, policy);
      var s1 := Scan(s.history, m + [(k, t)], s.noneKeyCounter + 1, Some(k));
      LastEntry(m, k, t, "");
      LiveNoneKey(s1, final, policy);
      IdlessFinalStep(s1, m, k, t, s.noneKeyCounter + 1, final, policy);
    }
  }

  /** `IdlessMerge` with the resulting state named by the caller. */
  lemma IdlessRunTo(chunks: seq<Event>, final: Event, s: Scan, policy: NoneKeyPolicy, s': Scan)
    requires forall i :: 0 <= i < |chunks| ==> IdlessChunk(chunks[i])
    requires Role(final) != Some("user") && !final.partial && final.invocationId.None? && EventText(final) != ""
    requires Valid(s.partials) && !Contains(s.partials, NoneKey(s.noneKeyCounter))
    requires s.lastNoneKey.None? || (policy.Corrected? && !Contains(s.partials, s.lastNoneKey.value))
    requires var c := Strip(ChunkText(chunks) + EventText(final));
      s' == Scan(s.history + (if c != "" then [Message(Assistant, c)] else []), s.partials,
                 s.noneKeyCounter + 1, Some(NoneKey(s.noneKeyCounter)))
    ensures Run(chunks + [final], s, policy) == Success(s')
  {
    IdlessMerge(chunks, final, s, policy);
  }

  /** `events_to_messages` on id-less chunks and an id-less final chunk: one merged message. */
  lemma {:induction false} IdlessMessages(chunks: seq<Event>, final: Event, policy: NoneKeyPolicy)
    requires forall i :: 0 <= i < |chunks| ==> IdlessChunk(chunks[i])
    requires Role(final) != Some("user") && !final.partial && final.invocationId.None? && EventText(final) != ""
    ensures var c := Strip(ChunkText(chunks) + EventText(final));
      Messages(chunks + [final], policy) == Success(if c != "" then [Message(Assistant, c)] else [])
  {
    var c := Strip(ChunkText(chunks) + EventText(final));
    var h := if c != "" then [Message(Assistant, c)] else [];
    assert [] + h == h;
    IdlessRunTo(chunks, final, Init, policy, Scan(h, [], 1, Some(NoneKey(0))));
    NothingLeft(chunks + [final], policy, h, 1, Some(NoneKey(0)));
  }

  /** A run that leaves no partials: the messages are the history. */
  lemma NothingLeft(events: seq<Event>, policy: NoneKeyPolicy, h: seq<Message>, n: nat, key: Option<Key>)
    requires Run(events, Init, policy) == Success(Scan(h, [], n, key))
    ensures Messages(events, policy) == Success(h)
  {
    assert h + Flush([]) == h;
  }

  /** `events_to_messages` on id-less chunks alone: their stripped text, flushed after the loop. */
  lemma {:induction false} IdlessFlushed(chunks: seq<Event>, policy: NoneKeyPolicy)
    requires chunks != [] && forall i :: 0 <= i < |chunks| ==> IdlessChunk(chunks[i])
    ensures var c := Strip(ChunkText(chunks));
      Messages(chunks, policy) == Success(if c != "" then [Message(Assistant, c)] else [])
  {
    var t := ChunkText(chunks);
    var m := [(NoneKey(0), t)];
    var s' := Scan([], m, 1, Some(NoneKey(0)));
    IdlessChunks(chunks, Init, policy);
    assert Init.partials + [(NoneKey(0), t)] == m;
    assert Run(chunks, Init, policy) == Success(s');
    MessagesOfRun(chunks, s', policy);
    assert m[..0] == [];
    assert Flush(m) == if Strip(t) != "" then [] + [Message(Assistant, Strip(t))] else [];
    assert Flush(m) == if Strip(t) != "" then [Message(Assistant, Strip(t))] else [];
    assert s'.history + Flush(s'.partials) == Flush(m);
  }

  // ---------------------------------------------------------------------------
  // The stale none key (lines 52-57 and 65 of chat_history.py)
  // ---------------------------------------------------------------------------

  /** With the corrected selection, the chosen key always has an entry. */
  lemma CorrectedKeyPresent(s: Scan, e: Event)
    requires Valid(s.partials)
    ensures var k := ChooseKey(s, e, Corrected); Contains(k.partials, k.key)
  {
    var k := ChooseKey(s, e, Corrected);
    if e.invocationId.None? {
      PutFacts(s.partials, NoneKey(s.noneKeyCounter), "");
    } else {
      PutFacts(s.partials, InvocationKey(e.invocationId.value), "");
    }
  }

  /** With the corrected selection the loop never raises `KeyError`. */
  lemma {:induction false} CorrectedNeverFails(events: seq<Event>, s: Scan)
    requires Valid(s.partials)
    ensures Run(events, s, Corrected).Success?
    decreases |events|
  {
    if events != [] {
      var e := events[0];
      if EventText(e) != "" && Role(e) != Some("user") {
        CorrectedKeyPresent(s, e);
      }
      var s1 := Step(s, e, Corrected).value;
      StepValid(s, e, Corrected);
      CorrectedNeverFails(events[1..], s1);
    }
  }

  /** The event `_make_event` of tests/test_chat_history.py builds: one text part, `author` equal to the role. */
  function TextEvent(role: string, text: string, partial: bool, id: Option<string>): Event {
    Event(Some(role), Some(Content(Some(role), [Part(Some(text), false, None, None)])), partial, id)
  }

  lemma TextEventText(role: string, text: string, partial: bool, id: Option<string>)
    ensures EventText(TextEvent(role, text, partial, id)) == text
  {
    var p := Part(Some(text), false, None, None);
    assert [p][..0] == [];
    assert PartTexts([p]) == if text != "" then [text] else [];
    if text != "" {
      assert [text][..0] == [];
      assert Join([text]) == Join([]) + text;
    }
  }

  /** A final id-less reply from the start pops `__none__:0` and emits its text. */
  lemma StaleFirstStep(policy: NoneKeyPolicy)
    ensures Step(Init, TextEvent("model", "a", false, None), policy)
      == Success(Scan([Message(Assistant, "a")], [], 1, Some(NoneKey(0))))
  {
    var a := TextEvent("model", "a", false, None);
    var k0 := NoneKey(0);
    var m := [(k0, "")];
    TextEventText("model", "a", false, None);
    assert Role(a) != Some("user") by {
      assert "model"[0] != "user"[0];
    }
    assert Put([], k0, "") == m by {
      assert !Contains<Key, string>([], k0);
    }
    assert ChooseKey(Init, a, policy) == Keyed(k0, m, 1, Some(k0));
    IndexOfUnique(m, k0, 0);
    RemoveFacts(m, k0);
    assert Remove(m, k0) == [];
    ExampleStrings();
    assert Get(m, k0) == "";
    assert [] + [Message(Assistant, "a")] == [Message(Assistant, "a")];
    assert Accumulate([], Keyed(k0, m, 1, Some(k0)), "a", false)
      == Success(Scan([Message(Assistant, "a")], [], 1, Some(k0)));
  }

  /** The next id-less partial chunk fails as written and starts `__none__:1` when corrected. */
  lemma StaleSecondStep()
    ensures var s1 := Scan([Message(Assistant, "a")], [], 1, Some(NoneKey(0)));
      var b := TextEvent("model", "b", true, None);
      && Step(s1, b, AsWritten) == Failure(KeyError(NoneKey(0)))
      && Step(s1, b, Corrected) == Success(Scan([Message(Assistant, "a")], [(NoneKey(1), "b")], 2, Some(NoneKey(1))))
  {
    var s1 := Scan([Message(Assistant, "a")], [], 1, Some(NoneKey(0)));
    var b := TextEvent("model", "b", true, None);
    var k0, k1 := NoneKey(0), NoneKey(1);
    var m := [(k1, "")];
    TextEventText("model", "b", true, None);
    assert Role(b) != Some("user") by {
      assert "model"[0] != "user"[0];
    }
    assert Put([], k1, "") == m by {
      assert !Contains<Key, string>([], k1);
    }
    assert !Contains<Key, string>([], k0);
    assert ChooseKey(s1, b, AsWritten) == Keyed(k0, m, 2, Some(k0));
    assert ChooseKey(s1, b, Corrected) == Keyed(k1, m, 2, Some(k1));
    assert !Contains(m, k0);
    assert Accumulate(s1.history, Keyed(k0, m, 2, Some(k0)), "b", true) == Failure(KeyError(k0));
    IndexOfUnique(m, k1, 0);
    assert Put(m, k1, "" + "b") == [(k1, "b")];
    assert Accumulate(s1.history, Keyed(k1, m, 2, Some(k1)), "b", true)
      == Success(Scan(s1.history, [(k1, "b")], 2, Some(k1)));
  }

  /**
   * A final id-less reply pops the active none key; the next id-less partial
   * chunk inserts `__none__:1` but appends to the popped `__none__:0`, and
   * `partials[key]` raises `KeyError`. The corrected selection returns both
   * texts.
   */
  lemma StaleNoneKeyFails()
    ensures var events := [TextEvent("model", "a", false, None), TextEvent("model", "b", true, None)];
      && EventsToMessages(events) == Failure(KeyError(NoneKey(0)))
      && EventsToMessagesCorrected(events) == Success([Message(Assistant, "a"), Message(Assistant, "b")])
  {
    StaleAsWritten();
    StaleCorrected();
  }

  /** Two successful steps make a run of two events. */
  lemma RunPair(x: Event, y: Event, s0: Scan, s1: Scan, s2: Scan, policy: NoneKeyPolicy)
    requires Step(s0, x, policy) == Success(s1) && Step(s1, y, policy) == Success(s2)
    ensures Run([x, y], s0, policy) == Success(s2)
  {
    assert Run([y], s1, policy) == Success(s2) by {
      assert [y][1..] == [];
      assert Run([], s2, policy) == Success(s2);
    }
    assert [x, y][0] == x && [x, y][1..] == [y];
  }

  lemma StaleAsWritten()
    ensures EventsToMessages([TextEvent("model", "a", false, None), TextEvent("model", "b", true, None)])
      == Failure(KeyError(NoneKey(0)))
  {
    var a, b := TextEvent("model", "a", false, None), TextEvent("model", "b", true, None);
    StaleFirstStep(AsWritten);
    StaleSecondStep();
    assert [a, b][1..] == [b];
  }

  lemma StaleCorrected()
    ensures EventsToMessagesCorrected([TextEvent("model", "a", false, None), TextEvent("model", "b", true, None)])
      == Success([Message(Assistant, "a"), Message(Assistant, "b")])
  {
    var a, b := TextEvent("model", "a", false, None), TextEvent("model", "b", true, None);
    var s1 := Scan([Message(Assistant, "a")], [], 1, Some(NoneKey(0)));
    var s2 := Scan([Message(Assistant, "a")], [(NoneKey(1), "b")], 2, Some(NoneKey(1)));
    StaleFirstStep(Corrected);
    StaleSecondStep();
    RunPair(a, b, Init, s1, s2, Corrected);
    assert Flush(s2.partials) == [Message(Assistant, "b")] by {
      assert s2.partials[..0] == [];
      ExampleStrings();
    }
    MessagesOfRun([a, b], s2, Corrected);
    assert s2.history + Flush(s2.partials) == [Message(Assistant, "a"), Message(Assistant, "b")];
  }

  // ---------------------------------------------------------------------------
  // The examples of tests/test_chat_history.py
  // ---------------------------------------------------------------------------

  lemma AccumulatedPair(x: Event, y: Event, id: string)
    requires x.invocationId == Some(id) && y.invocationId == Some(id)
    ensures Accumulated([x, y], id) == EventText(x) + EventText(y)
  {
    assert [x, y][..1] == [x] && [x][..0] == [];
    assert Accumulated([x], id) == "" + EventText(x);
    assert "" + EventText(x) == EventText(x);
  }

  lemma ChunkKeysPair(x: Event, y: Event)
    requires EventText(x) != "" && x.invocationId.Some? && EventText(y) != "" && y.invocationId.Some?
    ensures ChunkKeys([x, y]) == [InvocationKey(x.invocationId.value), InvocationKey(y.invocationId.value)]
  {
    var kx, ky := InvocationKey(x.invocationId.value), InvocationKey(y.invocationId.value);
    assert [x, y][..1] == [x] && [x][..0] == [];
    assert ChunkKeys([x]) == [] + [kx] == [kx];
    assert ChunkKeys([x, y]) == [kx] + [ky];
  }

  /** Three runs in a row make one run. */
  lemma RunThree(a: seq<Event>, b: seq<Event>, c: seq<Event>, s0: Scan, s1: Scan, s2: Scan, s3: Scan, policy: NoneKeyPolicy)
    requires Run(a, s0, policy) == Success(s1) && Run(b, s1, policy) == Success(s2) && Run(c, s2, policy) == Success(s3)
    ensures Run(a + b + c, s0, policy) == Success(s3)
  {
    RunAppend(a, b, s0, policy);
    RunAppend(a + b, c, s0, policy);
  }

  lemma MessagesOfRun(events: seq<Event>, s: Scan, policy: NoneKeyPolicy)
    requires Run(events, Init, policy) == Success(s)
    ensures Messages(events, policy) == Success(s.history + Flush(s.partials))
  {
  }

  lemma FiveEvents(u: Event, p1: Event, p2: Event, f1: Event, f2: Event)
    ensures [u] + ([p1, p2] + [f1]) + ([] + [f2]) == [u, p1, p2, f1, f2]
  {
  }

  /** A user event from the start is kept as it is. */
  lemma UserFirst(t: string, policy: NoneKeyPolicy)
    requires t != ""
    ensures Run([TextEvent("user", t, false, None)], Init, policy) == Success(Init.(history := [Message(User, t)]))
  {
    var u := TextEvent("user", t, false, None);
    TextEventText("user", t, false, None);
    assert [] + [Message(User, t)] == [Message(User, t)];
    assert Step(Init, u, policy) == Success(Init.(history := [Message(User, t)]));
    assert [u][1..] == [];
  }

  /**
   * The shape of the first example of tests/test_chat_history.py: a user
   * message, two chunks and a final chunk of one invocation, then a reply of
   * another invocation with no chunks.
   */
  lemma MergesPartialsAndIncludesHistoryFor(t: string, a: string, b: string, c: string, d: string, id1: string, id2: string)
    requires t != "" && c != "" && d != ""
    requires Strip(a + b + c) != "" && Strip(d) != ""
    ensures EventsToMessages([
        TextEvent("user", t, false, None),
        TextEvent("model", a, true, Some(id1)),
        TextEvent("model", b, true, Some(id1)),
        TextEvent("model", c, false, Some(id1)),
        TextEvent("model", d, false, Some(id2))])
      == Success([Message(User, t), Message(Assistant, Strip(a + b + c)), Message(Assistant, Strip(d))])
  {
    var u := TextEvent("user", t, false, None);
    var p1 := TextEvent("model", a, true, Some(id1));
    var p2 := TextEvent("model", b, true, Some(id1));
    var f1 := TextEvent("model", c, false, Some(id1));
    var f2 := TextEvent("model", d, false, Some(id2));
    var h1 := [Message(User, t)];
    var h2 := h1 + [Message(Assistant, Strip(a + b + c))];
    var h3 := h2 + [Message(Assistant, Strip(d))];
    assert Run([u, p1, p2, f1, f2], Init, AsWritten) == Success(Init.(history := h3)) by {
      UserFirst(t, AsWritten);
      ChunksThenFinal(a, b, c, id1, h1);
      FinalAlone(d, id2, h2);
      RunThree([u], [p1, p2] + [f1], [] + [f2], Init, Init.(history := h1), Init.(history := h2), Init.(history := h3), AsWritten);
      FiveEvents(u, p1, p2, f1, f2);
    }
    MessagesOfRun([u, p1, p2, f1, f2], Init.(history := h3), AsWritten);
    assert h3 + Flush([]) == [Message(User, t), Message(Assistant, Strip(a + b + c)), Message(Assistant, Strip(d))];
  }

  lemma ChunksThenFinal(a: string, b: string, c: string, id: string, h: seq<Message>)
    requires c != "" && Strip(a + b + c) != ""
    ensures Run([TextEvent("model", a, true, Some(id)), TextEvent("model", b, true, Some(id))] + [TextEvent("model", c, false, Some(id))],
                Init.(history := h), AsWritten)
      == Success(Init.(history := h + [Message(Assistant, Strip(a + b + c))]))
  {
    var p1 := TextEvent("model", a, true, Some(id));
    var p2 := TextEvent("model", b, true, Some(id));
    assert "model"[0] != "user"[0];
    TextEventText("model", a, true, Some(id));
    TextEventText("model", b, true, Some(id));
    TextEventText("model", c, false, Some(id));
    AccumulatedPair(p1, p2, id);
    MergeWithFinal([p1, p2], TextEvent("model", c, false, Some(id)), Init.(history := h), AsWritten);
  }

  lemma FinalAlone(d: string, id: string, h: seq<Message>)
    requires d != "" && Strip(d) != ""
    ensures Run([] + [TextEvent("model", d, false, Some(id))], Init.(history := h), AsWritten)
      == Success(Init.(history := h + [Message(Assistant, Strip(d))]))
  {
    assert "model"[0] != "user"[0];
    TextEventText("model", d, false, Some(id));
    MergeWithFinal([], TextEvent("model", d, false, Some(id)), Init.(history := h), AsWritten);
    assert "" + d == d;
  }

  /** The shape of the second example: two chunks of one invocation and no final chunk. */
  lemma HandlesPartialWithoutFinalFor(a: string, b: string, id: string)
    requires a != "" && b != ""
    ensures EventsToMessages([TextEvent("model", a, true, Some(id)), TextEvent("model", b, true, Some(id))])
      == if Strip(a + b) != "" then Success([Message(Assistant, Strip(a + b))]) else Success([])
  {
    var p1 := TextEvent("model", a, true, Some(id));
    var p2 := TextEvent("model", b, true, Some(id));
    var events := [p1, p2];
    var k := InvocationKey(id);
    TextEventText("model", a, true, Some(id));
    TextEventText("model", b, true, Some(id));
    assert Messages(events, AsWritten) == Success(FlushOrder(FirstSeen(ChunkKeys(events)), events)) by {
      assert "model"[0] != "user"[0];
      StreamingMessages(events, AsWritten);
    }
    assert FirstSeen(ChunkKeys(events)) == [k] by {
      ChunkKeysPair(p1, p2);
      assert [k, k][..1] == [k] && [k][..0] == [];
      assert FirstSeen([k]) == [] + [k] == [k];
    }
    AccumulatedPair(p1, p2, id);
    assert KeyText(events, k) == a + b;
    assert [k][..0] == [];
    assert FlushOrder([k], events) == if Strip(a + b) != "" then [] + [Message(Assistant, Strip(a + b))] else [];
    assert [] + [Message(Assistant, Strip(a + b))] == [Message(Assistant, Strip(a + b))];
  }

  /** A string that neither starts nor ends with whitespace is its own `strip()`. */
  lemma StripKeeps(s: string)
    requires s != [] && !IsSpace(s[0]) && !IsSpace(s[|s| - 1])
    ensures Strip(s) == s
  {
  }

  /** The string facts the examples need. */
  lemma ExampleStrings()
    ensures "" + "a" == "a"
    ensures Strip("a") == "a" && Strip("b") == "b"
    ensures "Partial " + "chunk" + "!" == "Partial chunk!"
    ensures "Streaming " + "output" == "Streaming output"
    ensures Strip("Partial chunk!") == "Partial chunk!"
    ensures Strip("Second reply") == "Second reply"
    ensures Strip("Streaming output") == "Streaming output"
  {
    assert !IsSpace('a') && !IsSpace('b') && !IsSpace('P') && !IsSpace('!') && !IsSpace('S') && !IsSpace('y') && !IsSpace('t');
    StripKeeps("a");
    StripKeeps("b");
    StripKeeps("Partial chunk!");
    StripKeeps("Second reply");
    StripKeeps("Streaming output");
  }

  /** The user message stays; the three chunks of `inv-1` merge; `inv-2` is a reply of its own. */
  lemma MergesPartialsAndIncludesHistory()
    ensures EventsToMessages([
        TextEvent("user", "Hello there", false, None),
        TextEvent("model", "Partial ", true, Some("inv-1")),
        TextEvent("model", "chunk", true, Some("inv-1")),
        TextEvent("model", "!", false, Some("inv-1")),
        TextEvent("model", "Second reply", false, Some("inv-2"))])
      == Success([
        Message(User, "Hello there"),
        Message(Assistant, "Partial chunk!"),
        Message(Assistant, "Second reply")])
  {
    ExampleStrings();
    MergesPartialsAndIncludesHistoryFor("Hello there", "Partial ", "chunk", "!", "Second reply", "inv-1", "inv-2");
  }

  /** Two chunks of `inv-1` with no final chunk are flushed as one message. */
  lemma HandlesPartialWithoutFinal()
    ensures EventsToMessages([
        TextEvent("model", "Streaming ", true, Some("inv-1")),
        TextEvent("model", "output", true, Some("inv-1"))])
      == Success([Message(Assistant, "Streaming output")])
  {
    ExampleStrings();
    HandlesPartialWithoutFinalFor("Streaming ", "output", "inv-1");
  }
}
