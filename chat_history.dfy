/**
 * Rebuilding chat history from a stream of agent events
 * (src/remip_example/chat_history.py).
 */
module ChatHistory {
  import opened Wrappers
  import opened PyStrings
  import opened OrderedMaps
  import opened AdkEvents

  // ---------------------------------------------------------------------------
  // event_text
  // ---------------------------------------------------------------------------

  /** The non-empty texts of `parts`, in order. */
  function PartTexts(parts: seq<Part>): seq<string> {
    if parts == [] then []
    else
      var rest := PartTexts(parts[..|parts| - 1]);
      var p := parts[|parts| - 1];
      if HasText(p) then rest + [p.text.value] else rest
  }

  /** `event_text`: the joined non-empty part texts; "" without content. */
  function EventText(e: Event): string {
    if e.content.None? then "" else Join(PartTexts(e.content.value.parts))
  }

  // ---------------------------------------------------------------------------
  // events_to_messages
  // ---------------------------------------------------------------------------

  /**
   * A key of the `partials` dictionary: the synthetic `__none__:<n>` keys of
   * id-less events, or an invocation id.
   */
  datatype Key = NoneKey(n: nat) | InvocationKey(id: string)

  /** The two roles a history message can carry, "user" and "assistant". */
  datatype Speaker = User | Assistant

  /** A `(role, text)` history message. */
  datatype Message = Message(role: Speaker, text: string)

  /** The `KeyError` raised by `partials[key]` on a missing key. */
  datatype KeyError = KeyError(key: Key)

  /**
   * The loop's local state: `history`, `partials` (each entry's "role" is always
   * "assistant", so only its text is kept), `none_key_counter`, `last_none_key`.
   */
  datatype Scan = Scan(
    history: seq<Message>,
    partials: OMap<Key, string>,
    noneKeyCounter: nat,
    lastNoneKey: Option<Key>)

  const Init := Scan([], [], 0, None)

  /**
   * How an id-less event picks its key once the active none key is gone:
   * `AsWritten` keeps the stale key (lines 52-57 of chat_history.py), `Corrected`
   * uses the entry it has just added.
   */
  datatype NoneKeyPolicy = AsWritten | Corrected

  /** The key chosen for a non-user event and the state after choosing it. */
  datatype Keyed = Keyed(
    key: Key,
    partials: OMap<Key, string>,
    noneKeyCounter: nat,
    lastNoneKey: Option<Key>)

  /**
   * Key selection. An id-less event reuses the active none key; when there is
   * none, or it has already been popped, a fresh `__none__:<n>` entry is added,
   * but the stale key is still the one returned.
   */
  function ChooseKey(s: Scan, e: Event, policy: NoneKeyPolicy): Keyed
  {
    if e.invocationId.None? then
      var insert := s.lastNoneKey.None? || !Contains(s.partials, s.lastNoneKey.value);
      var partials := if insert then Put(s.partials, NoneKey(s.noneKeyCounter), "") else s.partials;
      var counter := if insert then s.noneKeyCounter + 1 else s.noneKeyCounter;
      var key :=
        if policy.Corrected? && insert then NoneKey(s.noneKeyCounter)
        else if s.lastNoneKey.Some? then s.lastNoneKey.value
        else NoneKey(s.noneKeyCounter);
      Keyed(key, partials, counter, Some(key))
    else
      var key := InvocationKey(e.invocationId.value);
      Keyed(key, if Contains(s.partials, key) then s.partials else Put(s.partials, key, ""),
            s.noneKeyCounter, None)
  }

  /**
   * Lines 64-71: a partial chunk is appended to its key's text (a missing key
   * raises `KeyError`); a final chunk pops the key and emits the stripped
   * accumulated text plus its own, when that is not empty.
   */
  function Accumulate(history: seq<Message>, k: Keyed, text: string, partial: bool): Result<Scan, KeyError>
  {
    if partial then
      if !Contains(k.partials, k.key) then Failure(KeyError(k.key))
      else Success(Scan(history, Put(k.partials, k.key, Get(k.partials, k.key) + text),
                        k.noneKeyCounter, k.lastNoneKey))
    else
      var accumulated := if Contains(k.partials, k.key) then Get(k.partials, k.key) else "";
      var combined := Strip(accumulated + text);
      var history' := if combined != "" then history + [Message(Assistant, combined)] else history;
      Success(Scan(history', Remove(k.partials, k.key), k.noneKeyCounter, k.lastNoneKey))
  }

  /** One iteration of the `for event in events` loop. */
  function Step(s: Scan, e: Event, policy: NoneKeyPolicy): Result<Scan, KeyError>
  {
    var text := EventText(e);
    if text == "" then Success(s)
    else if Role(e) == Some("user") then
      Success(s.(history := s.history + [Message(User, text)], lastNoneKey := None))
    else
      Accumulate(s.history, ChooseKey(s, e, policy), text, e.partial)
  }

  /** The whole loop, from state `s`, or the first `KeyError`. */
  function Run(events: seq<Event>, s: Scan, policy: NoneKeyPolicy): Result<Scan, KeyError>
    decreases |events|
  {
    if events == [] then Success(s)
    else
      match Step(s, events[0], policy)
      case Failure(err) => Failure(err)
      case Success(s') => Run(events[1..], s', policy)
  }

  /** The messages flushed for leftover partials, in insertion order. */
  function Flush(partials: OMap<Key, string>): seq<Message> {
    if partials == [] then []
    else
      var text := Strip(partials[|partials| - 1].1);
      var flushed := Flush(partials[..|partials| - 1]);
      if text != "" then flushed + [Message(Assistant, text)] else flushed
  }

  /** `events_to_messages` under either key policy. */
  function Messages(events: seq<Event>, policy: NoneKeyPolicy): Result<seq<Message>, KeyError> {
    match Run(events, Init, policy)
    case Failure(err) => Failure(err)
    case Success(s) => Success(s.history + Flush(s.partials))
  }

  /** `events_to_messages` as written. */
  function EventsToMessages(events: seq<Event>): Result<seq<Message>, KeyError> {
    Messages(events, AsWritten)
  }

  /** `events_to_messages` with the none-key selection corrected. */
  function EventsToMessagesCorrected(events: seq<Event>): Result<seq<Message>, KeyError> {
    Messages(events, Corrected)
  }

  /** The closing `for data in partials.values()` loop. */
  method FlushPartials(partials: OMap<Key, string>) returns (flushed: seq<Message>)
    ensures flushed == Flush(partials)
  {
    flushed := [];
    var j := 0;
    while j < |partials|
      invariant 0 <= j <= |partials|
      invariant flushed == Flush(partials[..j])
    {
      assert partials[..j + 1][..j] == partials[..j];
      var text := Strip(partials[j].1);
      if text != "" {
        flushed := flushed + [Message(Assistant, text)];
      }
      j := j + 1;
    }
    assert partials[..j] == partials;
  }

  /** Every step keeps the keys of `partials` distinct. */
  lemma StepValid(s: Scan, e: Event, policy: NoneKeyPolicy)
    requires Valid(s.partials) && Step(s, e, policy).Success?
    ensures Valid(Step(s, e, policy).value.partials)
  {
    if EventText(e) != "" && Role(e) != Some("user") {
      var k := ChooseKey(s, e, policy);
      assert Valid(k.partials);
    }
  }

  /** So does every run. */
  lemma {:induction false} RunValid(events: seq<Event>, s: Scan, policy: NoneKeyPolicy)
    requires Valid(s.partials) && Run(events, s, policy).Success?
    ensures Valid(Run(events, s, policy).value.partials)
    decreases |events|
  {
    if events != [] {
      StepValid(s, events[0], policy);
      RunValid(events[1..], Step(s, events[0], policy).value, policy);
    }
  }

  lemma RunStep(events: seq<Event>, i: nat, s: Scan, s': Scan, policy: NoneKeyPolicy)
    requires i < |events| && Valid(s.partials) && Step(s, events[i], policy) == Success(s')
    ensures Valid(s'.partials) && Run(events[i..], s, policy) == Run(events[i + 1..], s', policy)
  {
    StepValid(s, events[i], policy);
    assert events[i..][1..] == events[i + 1..];
  }

  lemma RunFail(events: seq<Event>, i: nat, s: Scan, err: KeyError, policy: NoneKeyPolicy)
    requires i < |events| && Step(s, events[i], policy) == Failure(err)
    ensures Run(events[i..], s, policy) == Failure(err)
  {
  }

  /** Lines 47-62 of chat_history.py: picks the `partials` key of a non-user event. */
  method SelectKey(partials: OMap<Key, string>, noneKeyCounter: nat, lastNoneKey: Option<Key>, event: Event)
    returns (key: Key, partials': OMap<Key, string>, noneKeyCounter': nat, lastNoneKey': Option<Key>)
    requires Valid(partials)
    ensures Keyed(key, partials', noneKeyCounter', lastNoneKey')
         == ChooseKey(Scan([], partials, noneKeyCounter, lastNoneKey), event, AsWritten)
  {
    partials', noneKeyCounter' := partials, noneKeyCounter;
    if event.invocationId.None? {
      if lastNoneKey.None? || !Contains(partials, lastNoneKey.value) {
        partials' := Put(partials, NoneKey(noneKeyCounter), "");
        noneKeyCounter' := noneKeyCounter + 1;
      }
      key := if lastNoneKey.Some? then lastNoneKey.value else NoneKey(noneKeyCounter' - 1);
      lastNoneKey' := Some(key);
    } else {
      key := InvocationKey(event.invocationId.value);
      lastNoneKey' := None;
      if !Contains(partials, key) {
        partials' := Put(partials, key, "");
      }
    }
  }

  /** `events_to_messages`, as the loop the source runs. */
  method EventsToMessagesLoop(events: seq<Event>) returns (r: Result<seq<Message>, KeyError>)
    ensures r == EventsToMessages(events)
  {
    var history: seq<Message> := [];
    var partials: OMap<Key, string> := [];
    var noneKeyCounter: nat := 0;
    var lastNoneKey: Option<Key> := None;
    var i := 0;
    ghost var outcome := Run(events, Init, AsWritten);
    while i < |events|
      invariant 0 <= i <= |events| && Valid(partials)
      invariant outcome == Run(events[i..], Scan(history, partials, noneKeyCounter, lastNoneKey), AsWritten)
    {
      var event := events[i];
      ghost var s0 := Scan(history, partials, noneKeyCounter, lastNoneKey);
      var text := EventText(event);
      if text == "" {
        RunStep(events, i, s0, s0, AsWritten);
        i := i + 1;
        continue;
      }
      if Role(event) == Some("user") {
        history := history + [Message(User, text)];
        lastNoneKey := None;
        RunStep(events, i, s0, Scan(history, partials, noneKeyCounter, lastNoneKey), AsWritten);
        i := i + 1;
        continue;
      }
      var key: Key;
      key, partials, noneKeyCounter, lastNoneKey := SelectKey(partials, noneKeyCounter, lastNoneKey, event);
      ghost var k := ChooseKey(s0, event, AsWritten);
      assert k == Keyed(key, partials, noneKeyCounter, lastNoneKey);
      assert Step(s0, event, AsWritten) == Accumulate(history, k, text, event.partial);
      if event.partial {
        if !Contains(partials, key) {
          RunFail(events, i, s0, KeyError(key), AsWritten);
          return Failure(KeyError(key));
        }
        partials := Put(partials, key, Get(partials, key) + text);
        RunStep(events, i, s0, Scan(history, partials, noneKeyCounter, lastNoneKey), AsWritten);
        i := i + 1;
        continue;
      }
      var accumulated := if Contains(partials, key) then Get(partials, key) else "";
      partials := Remove(partials, key);
      var combined := Strip(accumulated + text);
      if combined != "" {
        history := history + [Message(Assistant, combined)];
      }
      assert partials == Remove(k.partials, k.key);
      RunStep(events, i, s0, Scan(history, partials, noneKeyCounter, lastNoneKey), AsWritten);
      i := i + 1;
    }
    var flushed := FlushPartials(partials);
    r := Success(history + flushed);
  }
}
