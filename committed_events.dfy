/**
 * `build_committed_events_from_partials` (src/remip_example/chat_history.py):
 * partial events are grouped by invocation id, or by runs of id-less events,
 * and each group becomes one merged, stripped, final event.
 *
 * The source's groups are dictionaries shared between the `grouped` list, the
 * `indexed` dictionary and `current_none_group`; here `grouped` is a sequence
 * and the other two hold positions in it.
 */
module CommittedEvents {
  import opened Wrappers
  import opened PyStrings
  import opened AdkEvents
  import opened ChatHistory

  /** A group dictionary: `invocation_id`, `events`, `author`. */
  datatype Group = Group(invocationId: Option<string>, events: seq<Event>, author: string)

  /** The grouping loop's state: `grouped`, `indexed` and `current_none_group`, as positions. */
  datatype Grouping = Grouping(grouped: seq<Group>, indexed: map<string, nat>, current: Option<nat>)

  const NoGroups := Grouping([], map[], None)

  /** The invocation id of an event when it is truthy: "" counts as no id. */
  function GroupId(e: Event): (id: Option<string>)
    ensures id.Some? <==> e.invocationId.Some? && e.invocationId.value != ""
    ensures id.Some? ==> id == e.invocationId
  {
    if e.invocationId.Some? && e.invocationId.value != "" then e.invocationId else None
  }

  /** A fresh group for `e`, before `e` is appended to it. */
  function NewGroup(id: Option<string>, e: Event): Group {
    Group(id, [], OrDefault(e.author, "assistant"))
  }

  /** `group["events"].append(event)` for the group at position `i`. */
  function AppendAt(gs: seq<Group>, i: nat, e: Event): (r: seq<Group>)
    requires i < |gs|
    ensures |r| == |gs| && r[i].events == gs[i].events + [e]
    ensures r[i].invocationId == gs[i].invocationId && r[i].author == gs[i].author
    ensures forall j :: 0 <= j < |gs| && j != i ==> r[j] == gs[j]
  {
    gs[i := gs[i].(events := gs[i].events + [e])]
  }

  /**
   * One iteration of the grouping loop (lines 91-115). A position held in
   * `indexed` or `current` is always inside `grouped` (see `Indexed`); the
   * bounds tests only make the function total.
   */
  function AddEvent(st: Grouping, e: Event): Grouping {
    match GroupId(e)
    case Some(id) =>
      if id in st.indexed && st.indexed[id] < |st.grouped| then
        Grouping(AppendAt(st.grouped, st.indexed[id], e), st.indexed, None)
      else
        var gs := st.grouped + [NewGroup(Some(id), e)];
        Grouping(AppendAt(gs, |st.grouped|, e), st.indexed[id := |st.grouped|], None)
    case None =>
      if st.current.Some? && st.current.value < |st.grouped| then
        Grouping(AppendAt(st.grouped, st.current.value, e), st.indexed, st.current)
      else
        var gs := st.grouped + [NewGroup(None, e)];
        Grouping(AppendAt(gs, |st.grouped|, e), st.indexed, Some(|st.grouped|))
  }

  /** The grouping loop over all of `events`. */
  function GroupAll(events: seq<Event>): Grouping {
    if events == [] then NoGroups
    else AddEvent(GroupAll(events[..|events| - 1]), events[|events| - 1])
  }

  /** The texts the generator of lines 121-125 yields: every non-empty part text, event by event. */
  function GroupPartTexts(events: seq<Event>): seq<string> {
    if events == [] then []
    else
      var e := events[|events| - 1];
      GroupPartTexts(events[..|events| - 1]) + (if e.content.None? then [] else PartTexts(e.content.value.parts))
  }

  /** `merged_text`. */
  function MergedText(g: Group): string {
    Strip(Join(GroupPartTexts(g.events)))
  }

  /** Lines 120-142 for one group: nothing for an empty merged text, otherwise the committed event. */
  function Commit(g: Group): Option<Event> {
    var merged := MergedText(g);
    if merged == "" then None
    else
      var content := Content(Some("model"), [Part(Some(merged), false, None, None)]);
      var id := if g.invocationId.Some? && g.invocationId.value != "" then g.invocationId else None;
      Some(Event(Some(OrDefault(Some(g.author), "assistant")), Some(content), false, id))
  }

  /** The commit loop over `grouped`. */
  function CommitAll(gs: seq<Group>): seq<Event> {
    if gs == [] then []
    else
      var c := Commit(gs[|gs| - 1]);
      CommitAll(gs[..|gs| - 1]) + (if c.Some? then [c.value] else [])
  }

  /** `build_committed_events_from_partials`. */
  function BuildCommitted(partials: seq<Event>): seq<Event> {
    CommitAll(GroupAll(partials).grouped)
  }

  /** Every position held by `indexed` or `current_none_group` is inside `grouped`. */
  predicate InRange(st: Grouping) {
    && (forall id :: id in st.indexed ==> st.indexed[id] < |st.grouped|)
    && (st.current.Some? ==> st.current.value < |st.grouped|)
  }

  /** `build_committed_events_from_partials`, as the two loops the source runs. */
  method BuildCommittedEventsFromPartials(partials: seq<Event>) returns (committed: seq<Event>)
    ensures committed == BuildCommitted(partials)
  {
    var grouped: seq<Group> := [];
    var indexed: map<string, nat> := map[];
    var currentNoneGroup: Option<nat> := None;
    for i := 0 to |partials|
      invariant InRange(Grouping(grouped, indexed, currentNoneGroup))
      invariant Grouping(grouped, indexed, currentNoneGroup) == GroupAll(partials[..i])
    {
      var event := partials[i];
      ghost var before := Grouping(grouped, indexed, currentNoneGroup);
      assert GroupAll(partials[..i + 1]) == AddEvent(before, event) by {
        assert partials[..i + 1][..i] == partials[..i];
      }
      var invocationId := GroupId(event);
      var g: nat;
      if invocationId.Some? {
        if invocationId.value !in indexed {
          grouped := grouped + [NewGroup(invocationId, event)];
          indexed := indexed[invocationId.value := |grouped| - 1];
        }
        g := indexed[invocationId.value];
        currentNoneGroup := None;
      } else {
        if currentNoneGroup.None? {
          grouped := grouped + [NewGroup(None, event)];
          currentNoneGroup := Some(|grouped| - 1);
        }
        g := currentNoneGroup.value;
      }
      grouped := AppendAt(grouped, g, event);
      assert Grouping(grouped, indexed, currentNoneGroup) == AddEvent(before, event);
    }
    assert partials[..|partials|] == partials;

    committed := [];
    for j := 0 to |grouped|
      invariant committed == CommitAll(grouped[..j])
    {
      var group := grouped[j];
      assert CommitAll(grouped[..j + 1]) ==
             CommitAll(grouped[..j]) + (if Commit(group).Some? then [Commit(group).value] else []) by {
        assert grouped[..j + 1][..j] == grouped[..j];
      }
      var mergedText := MergedText(group);
      if mergedText == "" {
        continue;
      }
      var content := Content(Some("model"), [Part(Some(mergedText), false, None, None)]);
      var invocationId: Option<string> := None;
      if group.invocationId.Some? && group.invocationId.value != "" {
        invocationId := group.invocationId;
      }
      var event := Event(Some(OrDefault(Some(group.author), "assistant")), Some(content), false, invocationId);
      assert Commit(group) == Some(event);
      committed := committed + [event];
    }
    assert grouped[..|grouped|] == grouped;
  }
}
