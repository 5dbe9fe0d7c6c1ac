/**
 * What `build_committed_events_from_partials` (src/remip_example/chat_history.py)
 * promises, proved about `CommittedEvents.GroupAll` and `CommittedEvents.CommitAll`.
 */
module CommittedEventsLemmas {
  import opened Wrappers
  import opened PyStrings
  import opened AdkEvents
  import opened ChatHistory
  import opened ChatHistoryLemmas
  import opened CommittedEvents

  // ---------------------------------------------------------------------------
  // Reference descriptions of the grouping, in terms of the input alone
  // ---------------------------------------------------------------------------

  /** The invocation ids of `events`, each at its first appearance. */
  function IdsInOrder(events: seq<Event>): seq<string> {
    if events == [] then []
    else
      var ids := IdsInOrder(events[..|events| - 1]);
      var id := GroupId(events[|events| - 1]);
      if id.Some? && id.value !in ids then ids + [id.value] else ids
  }

  /** The events carrying invocation id `id`, in order. */
  function WithId(events: seq<Event>, id: string): seq<Event> {
    if events == [] then []
    else
      var e := events[|events| - 1];
      WithId(events[..|events| - 1], id) + (if GroupId(e) == Some(id) then [e] else [])
  }

  /** The maximal runs of consecutive id-less events, in order. */
  function IdLessRuns(events: seq<Event>): seq<seq<Event>> {
    if events == [] then []
    else
      var init := events[..|events| - 1];
      ExtendRuns(IdLessRuns(init), init != [] && GroupId(init[|init| - 1]).None?, events[|events| - 1])
  }

  /**
   * The runs once `e` follows: unchanged for an id-bearing event; otherwise `e`
   * extends the last run when that run is still `open`, or starts a new one.
   */
  function ExtendRuns(runs: seq<seq<Event>>, open: bool, e: Event): seq<seq<Event>> {
    if GroupId(e).Some? then runs
    else if open && runs != [] then runs[..|runs| - 1] + [runs[|runs| - 1] + [e]]
    else runs + [[e]]
  }

  /** The ids of the id-bearing groups, in order. */
  function GroupIds(gs: seq<Group>): seq<Option<string>> {
    if gs == [] then []
    else
      var g := gs[|gs| - 1];
      GroupIds(gs[..|gs| - 1]) + (if g.invocationId.Some? then [g.invocationId] else [])
  }

  /** The events of the id-less groups, in order. */
  function IdLessGroups(gs: seq<Group>): seq<seq<Event>> {
    if gs == [] then []
    else
      var g := gs[|gs| - 1];
      IdLessGroups(gs[..|gs| - 1]) + (if g.invocationId.None? then [g.events] else [])
  }

  /** The texts of `events`, as `event_text` reads them, concatenated. */
  function EventsText(events: seq<Event>): string {
    if events == [] then "" else EventsText(events[..|events| - 1]) + EventText(events[|events| - 1])
  }

  predicate Distinct<T(==)>(xs: seq<T>) {
    forall i, j :: 0 <= i < j < |xs| ==> xs[i] != xs[j]
  }

  function Wrap(ids: seq<string>): seq<Option<string>> {
    if ids == [] then [] else Wrap(ids[..|ids| - 1]) + [Some(ids[|ids| - 1])]
  }

  // ---------------------------------------------------------------------------
  // The shape of the grouping state
  // ---------------------------------------------------------------------------

  /**
   * `indexed` maps each id to the one group carrying it, every id-bearing group
   * is indexed under its id, ids are non-empty, and the current id-less group,
   * if any, is the last group.
   */
  predicate Indexed(st: Grouping) {
    && (forall id :: id in st.indexed ==>
          id != "" && st.indexed[id] < |st.grouped| && st.grouped[st.indexed[id]].invocationId == Some(id))
    && (forall j :: 0 <= j < |st.grouped| && st.grouped[j].invocationId.Some? ==>
          st.grouped[j].invocationId.value in st.indexed && st.indexed[st.grouped[j].invocationId.value] == j)
    && (st.current.Some? ==>
          st.current.value == |st.grouped| - 1 && st.grouped[st.current.value].invocationId.None?)
  }

  lemma AddEventIndexed(st: Grouping, e: Event)
    requires Indexed(st)
    ensures Indexed(AddEvent(st, e))
    ensures AddEvent(st, e).current.Some? <==> GroupId(e).None?
  {
    var st' := AddEvent(st, e);
    if GroupId(e).Some? && GroupId(e).value !in st.indexed {
      var id := GroupId(e).value;
      assert st'.grouped[|st.grouped|].invocationId == Some(id);
      forall j | 0 <= j < |st'.grouped| && st'.grouped[j].invocationId.Some?
        ensures st'.grouped[j].invocationId.value in st'.indexed
        ensures st'.indexed[st'.grouped[j].invocationId.value] == j
      {
        if j < |st.grouped| {
          assert st'.grouped[j] == st.grouped[j];
        }
      }
    }
  }

  lemma {:induction false} GroupAllIndexed(events: seq<Event>)
    ensures Indexed(GroupAll(events))
    ensures GroupAll(events).current.Some? <==> events != [] && GroupId(events[|events| - 1]).None?
  {
    if events != [] {
      GroupAllIndexed(events[..|events| - 1]);
      AddEventIndexed(GroupAll(events[..|events| - 1]), events[|events| - 1]);
    }
  }

  // ---------------------------------------------------------------------------
  // One group per invocation id, in first-appearance order
  // ---------------------------------------------------------------------------

  /** Groups whose ids agree position by position list the same ids. */
  lemma {:induction false} GroupIdsSame(a: seq<Group>, b: seq<Group>)
    requires |a| == |b| && forall j :: 0 <= j < |a| ==> a[j].invocationId == b[j].invocationId
    ensures GroupIds(a) == GroupIds(b)
  {
    if a != [] {
      GroupIdsSame(a[..|a| - 1], b[..|b| - 1]);
    }
  }

  /** The ids a step adds to `indexed`, and the ids it adds to the groups. */
  function NextIds(ids: seq<string>, e: Event): seq<string> {
    if GroupId(e).Some? && GroupId(e).value !in ids then ids + [GroupId(e).value] else ids
  }

  lemma AddEventIds(st: Grouping, e: Event, ids: seq<string>)
    requires Indexed(st) && GroupIds(st.grouped) == Wrap(ids)
    requires forall id :: id in st.indexed <==> id in ids
    ensures GroupIds(AddEvent(st, e).grouped) == Wrap(NextIds(ids, e))
  {
    var st' := AddEvent(st, e);
    if GroupId(e).Some? && GroupId(e).value !in st.indexed {
      var gs := st.grouped + [NewGroup(GroupId(e), e)];
      GroupIdsSame(st'.grouped, gs);
      assert gs[..|gs| - 1] == st.grouped;
    } else if GroupId(e).Some? || st.current.Some? {
      GroupIdsSame(st'.grouped, st.grouped);
    } else {
      var gs := st.grouped + [NewGroup(None, e)];
      GroupIdsSame(st'.grouped, gs);
      assert gs[..|gs| - 1] == st.grouped;
    }
  }

  lemma AddEventKeys(st: Grouping, e: Event, ids: seq<string>)
    requires forall id :: id in st.indexed <==> id in ids
    ensures forall id :: id in AddEvent(st, e).indexed <==> id in NextIds(ids, e)
  {
  }

  /**
   * Lines 93-102: the id-bearing groups are one per invocation id, in the order
   * the ids first appear, and `indexed` holds exactly those ids.
   */
  lemma {:induction false} GroupsFollowIds(events: seq<Event>)
    ensures GroupIds(GroupAll(events).grouped) == Wrap(IdsInOrder(events))
    ensures forall id :: id in GroupAll(events).indexed <==> id in IdsInOrder(events)
  {
    if events != [] {
      var init := events[..|events| - 1];
      GroupsFollowIds(init);
      GroupAllIndexed(init);
      AddEventIds(GroupAll(init), events[|events| - 1], IdsInOrder(init));
      AddEventKeys(GroupAll(init), events[|events| - 1], IdsInOrder(init));
    }
  }

  lemma {:induction false} IdsInOrderDistinct(events: seq<Event>)
    ensures Distinct(IdsInOrder(events))
    ensures forall id :: id in IdsInOrder(events) <==> exists i :: 0 <= i < |events| && GroupId(events[i]) == Some(id)
  {
    if events != [] {
      var init := events[..|events| - 1];
      IdsInOrderDistinct(init);
      forall id ensures id in IdsInOrder(events) <==> exists i :: 0 <= i < |events| && GroupId(events[i]) == Some(id) {
        if id in IdsInOrder(init) {
          var i :| 0 <= i < |init| && GroupId(init[i]) == Some(id);
          assert events[i] == init[i];
        }
        if exists i :: 0 <= i < |events| && GroupId(events[i]) == Some(id) {
          var i :| 0 <= i < |events| && GroupId(events[i]) == Some(id);
          if i < |init| {
            assert init[i] == events[i];
          }
        }
      }
    }
  }

  // ---------------------------------------------------------------------------
  // Each id's group holds exactly the events with that id
  // ---------------------------------------------------------------------------

  ghost predicate HoldsWithId(st: Grouping, events: seq<Event>)
    requires Indexed(st)
  {
    && (forall id :: id in st.indexed ==> st.grouped[st.indexed[id]].events == WithId(events, id))
    && (forall id :: id !in st.indexed ==> WithId(events, id) == [])
  }

  lemma AddEventWithId(st: Grouping, events: seq<Event>, e: Event)
    requires Indexed(st) && HoldsWithId(st, events)
    ensures Indexed(AddEvent(st, e)) && HoldsWithId(AddEvent(st, e), events + [e])
  {
    AddEventIndexed(st, e);
    var st' := AddEvent(st, e);
    assert (events + [e])[..|events|] == events;
    forall id | id in st'.indexed
      ensures st'.grouped[st'.indexed[id]].events == WithId(events + [e], id)
    {
      if GroupId(e) != Some(id) {
        assert id in st.indexed;
        assert st'.indexed[id] == st.indexed[id];
        assert st'.grouped[st.indexed[id]] == st.grouped[st.indexed[id]];
      }
    }
  }

  /** Lines 93-103 and 115: the group of each invocation id holds that id's events, in order. */
  lemma {:induction false} GroupHoldsItsEvents(events: seq<Event>)
    ensures Indexed(GroupAll(events)) && HoldsWithId(GroupAll(events), events)
  {
    if events != [] {
      var init := events[..|events| - 1];
      GroupHoldsItsEvents(init);
      AddEventWithId(GroupAll(init), init, events[|events| - 1]);
      assert init + [events[|events| - 1]] == events;
    } else {
      GroupAllIndexed(events);
    }
  }

  // ---------------------------------------------------------------------------
  // Id-less groups are the maximal runs of id-less events
  // ---------------------------------------------------------------------------

  /** Groups that agree on ids, and on the events of id-less groups, list the same id-less groups. */
  lemma {:induction false} IdLessGroupsSame(a: seq<Group>, b: seq<Group>)
    requires |a| == |b|
    requires forall j :: 0 <= j < |a| ==> a[j].invocationId == b[j].invocationId
    requires forall j :: 0 <= j < |a| && a[j].invocationId.None? ==> a[j].events == b[j].events
    ensures IdLessGroups(a) == IdLessGroups(b)
  {
    if a != [] {
      IdLessGroupsSame(a[..|a| - 1], b[..|b| - 1]);
    }
  }

  lemma AddEventIdLess(st: Grouping, e: Event)
    requires Indexed(st)
    ensures IdLessGroups(AddEvent(st, e).grouped) == ExtendRuns(IdLessGroups(st.grouped), st.current.Some?, e)
  {
    var st' := AddEvent(st, e);
    if GroupId(e).Some? {
      if GroupId(e).value in st.indexed {
        IdLessGroupsSame(st'.grouped, st.grouped);
      } else {
        IdLessGroupsSame(st'.grouped[..|st.grouped|], st.grouped);
      }
    } else if st.current.Some? {
      var n := |st.grouped| - 1;
      IdLessGroupsSame(st'.grouped[..n], st.grouped[..n]);
      assert IdLessGroups(st.grouped) == IdLessGroups(st.grouped[..n]) + [st.grouped[n].events];
      assert IdLessGroups(st'.grouped) == IdLessGroups(st'.grouped[..n]) + [st.grouped[n].events + [e]];
    } else {
      var n := |st.grouped|;
      IdLessGroupsSame(st'.grouped[..n], st.grouped);
      assert st'.grouped[n] == Group(None, [e], OrDefault(e.author, "assistant"));
      assert IdLessGroups(st'.grouped) == IdLessGroups(st'.grouped[..n]) + [[e]];
    }
  }

  /**
   * Lines 104-113: consecutive id-less events share one group, an id-bearing
   * event ends the run, and the id-less groups are exactly those runs.
   */
  lemma {:induction false} IdLessGroupsAreRuns(events: seq<Event>)
    ensures IdLessGroups(GroupAll(events).grouped) == IdLessRuns(events)
  {
    if events != [] {
      var init := events[..|events| - 1];
      IdLessGroupsAreRuns(init);
      GroupAllIndexed(init);
      AddEventIdLess(GroupAll(init), events[|events| - 1]);
    }
  }

  // ---------------------------------------------------------------------------
  // Authors
  // ---------------------------------------------------------------------------

  predicate AuthoredByFirst(gs: seq<Group>) {
    forall j :: 0 <= j < |gs| ==>
      gs[j].events != [] && gs[j].author == OrDefault(gs[j].events[0].author, "assistant")
  }

  /** Lines 96-100 and 107-111: every group is non-empty and named after its first event's author, or "assistant". */
  lemma {:induction false} GroupAuthors(events: seq<Event>)
    ensures AuthoredByFirst(GroupAll(events).grouped)
  {
    if events != [] {
      GroupAuthors(events[..|events| - 1]);
    }
  }

  // ---------------------------------------------------------------------------
  // Committed events
  // ---------------------------------------------------------------------------

  lemma {:induction false} GroupPartTextsJoin(events: seq<Event>)
    ensures Join(GroupPartTexts(events)) == EventsText(events)
  {
    if events != [] {
      var init, e := events[..|events| - 1], events[|events| - 1];
      GroupPartTextsJoin(init);
      var tail := if e.content.None? then [] else PartTexts(e.content.value.parts);
      JoinAppend(GroupPartTexts(init), tail);
    }
  }

  /** The merged text is the stripped concatenation of the group's event texts. */
  lemma MergedTextIsEventsText(g: Group)
    ensures MergedText(g) == Strip(EventsText(g.events))
  {
    GroupPartTextsJoin(g.events);
  }

  /**
   * Lines 126-142: a group with an empty merged text is dropped; otherwise its
   * event has role "model", is final, carries the merged text, which is
   * non-empty and already stripped, the group's author, and the group's id
   * when that id is truthy.
   */
  lemma CommitFacts(g: Group)
    ensures Commit(g).None? <==> Strip(EventsText(g.events)) == ""
    ensures Commit(g).Some? ==>
      var c := Commit(g).value;
      && Role(c) == Some("model") && !c.partial
      && EventText(c) == Strip(EventsText(g.events)) && EventText(c) != ""
      && Strip(EventText(c)) == EventText(c)
      && c.author == Some(OrDefault(Some(g.author), "assistant"))
      && (c.invocationId.Some? <==> g.invocationId.Some? && g.invocationId.value != "")
      && (c.invocationId.Some? ==> c.invocationId == g.invocationId)
  {
    MergedTextIsEventsText(g);
    var merged := MergedText(g);
    if merged != "" {
      TextEventText("model", merged, false, None);
      StripIdempotent(EventsText(g.events));
    }
  }

  /** Each committed event comes from a group. */
  lemma {:induction false} CommitAllFrom(gs: seq<Group>)
    ensures forall c :: c in CommitAll(gs) ==> exists j :: 0 <= j < |gs| && Commit(gs[j]) == Some(c)
  {
    if gs != [] {
      var init := gs[..|gs| - 1];
      CommitAllFrom(init);
      forall c | c in CommitAll(gs)
        ensures exists j :: 0 <= j < |gs| && Commit(gs[j]) == Some(c)
      {
        if c in CommitAll(init) {
          var j :| 0 <= j < |init| && Commit(init[j]) == Some(c);
          assert gs[j] == init[j];
        } else {
          assert Commit(gs[|gs| - 1]) == Some(c);
        }
      }
    }
  }

  /** Each group with a non-empty merged text yields a committed event. */
  lemma {:induction false} CommitAllHas(gs: seq<Group>)
    ensures forall j :: 0 <= j < |gs| && Commit(gs[j]).Some? ==> Commit(gs[j]).value in CommitAll(gs)
  {
    if gs != [] {
      var init := gs[..|gs| - 1];
      CommitAllHas(init);
      forall j | 0 <= j < |init| && Commit(gs[j]).Some?
        ensures Commit(gs[j]).value in CommitAll(gs)
      {
        assert gs[j] == init[j];
      }
    }
  }

  /** No more committed events than groups. */
  lemma {:induction false} CommitAllLength(gs: seq<Group>)
    ensures |CommitAll(gs)| <= |gs|
  {
    if gs != [] {
      CommitAllLength(gs[..|gs| - 1]);
    }
  }

  lemma DistinctSnoc<T>(xs: seq<T>, x: T)
    ensures Distinct(xs + [x]) <==> Distinct(xs) && x !in xs
  {
    assert forall i :: 0 <= i < |xs| ==> (xs + [x])[i] == xs[i];
    assert (xs + [x])[|xs|] == x;
  }

  /** The ids the committed events carry, in order. */
  function CommittedIds(cs: seq<Event>): seq<Option<string>> {
    if cs == [] then []
    else
      var c := cs[|cs| - 1];
      CommittedIds(cs[..|cs| - 1]) + (if c.invocationId.Some? then [c.invocationId] else [])
  }

  lemma CommittedIdsSnoc(cs: seq<Event>, c: Event)
    ensures CommittedIds(cs + [c]) == CommittedIds(cs) + (if c.invocationId.Some? then [c.invocationId] else [])
  {
    assert (cs + [c])[..|cs|] == cs;
  }

  /** A committed event carries its group's id, if any. */
  lemma {:induction false} CommittedIdsFrom(gs: seq<Group>)
    ensures forall x :: x in CommittedIds(CommitAll(gs)) ==> x in GroupIds(gs)
  {
    if gs != [] {
      var init, g := gs[..|gs| - 1], gs[|gs| - 1];
      CommittedIdsFrom(init);
      var extra := if g.invocationId.Some? then [g.invocationId] else [];
      assert GroupIds(gs) == GroupIds(init) + extra;
      if Commit(g).Some? {
        var c := Commit(g).value;
        assert CommitAll(gs) == CommitAll(init) + [c];
        CommittedIdsSnoc(CommitAll(init), c);
        assert c.invocationId.Some? ==> c.invocationId == g.invocationId;
      } else {
        assert CommitAll(gs) == CommitAll(init);
      }
    }
  }

  /** No two committed events share an id when no two groups do. */
  lemma {:induction false} CommittedIdsDistinct(gs: seq<Group>)
    requires Distinct(GroupIds(gs))
    ensures Distinct(CommittedIds(CommitAll(gs)))
  {
    if gs != [] {
      var init, g := gs[..|gs| - 1], gs[|gs| - 1];
      if g.invocationId.Some? {
        assert GroupIds(gs) == GroupIds(init) + [g.invocationId];
        DistinctSnoc(GroupIds(init), g.invocationId);
      } else {
        assert GroupIds(gs) == GroupIds(init);
      }
      CommittedIdsDistinct(init);
      CommittedIdsFrom(init);
      if Commit(g).Some? {
        var c := Commit(g).value;
        assert CommitAll(gs) == CommitAll(init) + [c];
        CommittedIdsSnoc(CommitAll(init), c);
        if c.invocationId.Some? {
          assert c.invocationId == g.invocationId;
          assert c.invocationId !in CommittedIds(CommitAll(init));
          DistinctSnoc(CommittedIds(CommitAll(init)), c.invocationId);
        }
      } else {
        assert CommitAll(gs) == CommitAll(init);
      }
    }
  }

  /**
   * Lines 91-142 end to end: every committed event is a final "model" event
   * with stripped, non-empty text; an id a committed event carries is one of
   * the input's ids, and no two committed events share one; there are at most
   * as many committed events as ids plus runs of id-less events.
   */
  lemma BuildCommittedFacts(partials: seq<Event>)
    ensures forall c :: c in BuildCommitted(partials) ==>
      && Role(c) == Some("model") && !c.partial && c.author.Some?
      && EventText(c) != "" && Strip(EventText(c)) == EventText(c)
    ensures forall x :: x in CommittedIds(BuildCommitted(partials)) ==> x.Some? && x.value in IdsInOrder(partials)
    ensures Distinct(CommittedIds(BuildCommitted(partials)))
    ensures |BuildCommitted(partials)| <= |IdsInOrder(partials)| + |IdLessRuns(partials)|
  {
    var gs := GroupAll(partials).grouped;
    CommitAllFrom(gs);
    CommitAllLength(gs);
    forall c | c in BuildCommitted(partials)
      ensures Role(c) == Some("model") && !c.partial && c.author.Some?
      ensures EventText(c) != "" && Strip(EventText(c)) == EventText(c)
    {
      var j :| 0 <= j < |gs| && Commit(gs[j]) == Some(c);
      CommitFacts(gs[j]);
    }
    GroupAllIndexed(partials);
    GroupsFollowIds(partials);
    IdsInOrderDistinct(partials);
    WrapFacts(IdsInOrder(partials));
    CommittedIdsDistinct(gs);
    CommittedIdsFrom(gs);
    IdLessGroupsAreRuns(partials);
    GroupCount(gs);
  }

  lemma {:induction false} WrapFacts(ids: seq<string>)
    ensures |Wrap(ids)| == |ids|
    ensures forall i :: 0 <= i < |ids| ==> Wrap(ids)[i] == Some(ids[i])
    ensures Distinct(ids) ==> Distinct(Wrap(ids))
    ensures forall x :: x in Wrap(ids) ==> x.Some? && x.value in ids
  {
    if ids != [] {
      WrapFacts(ids[..|ids| - 1]);
    }
  }

  /** Every group is either id-bearing or id-less. */
  lemma {:induction false} GroupCount(gs: seq<Group>)
    ensures |gs| == |GroupIds(gs)| + |IdLessGroups(gs)|
  {
    if gs != [] {
      GroupCount(gs[..|gs| - 1]);
    }
  }

  /**
   * Lines 91-142 for one invocation id: if its events have text, exactly one
   * committed event carries the id, with their stripped concatenated text and
   * the first one's author; otherwise none does.
   */
  lemma CommittedForId(partials: seq<Event>, id: string)
    requires id in IdsInOrder(partials)
    ensures var evs := WithId(partials, id);
      && evs != []
      && (Strip(EventsText(evs)) == "" ==> forall c :: c in BuildCommitted(partials) ==> c.invocationId != Some(id))
      && (Strip(EventsText(evs)) != "" ==>
            exists c :: (c in BuildCommitted(partials)
              && c.invocationId == Some(id) && EventText(c) == Strip(EventsText(evs))
              && c.author == Some(OrDefault(evs[0].author, "assistant"))))
  {
    var gs := GroupAll(partials).grouped;
    var j := GroupOfId(partials, id);
    CommitFacts(gs[j]);
    CommitAllHas(gs);
    CommitAllFrom(gs);
    forall c | c in BuildCommitted(partials) && c.invocationId == Some(id)
      ensures Strip(EventsText(WithId(partials, id))) != ""
    {
      var k :| 0 <= k < |gs| && Commit(gs[k]) == Some(c);
      assert gs[k].invocationId == Some(id);
    }
  }

  /** The one group of an id that occurs in the input. */
  lemma GroupOfId(partials: seq<Event>, id: string) returns (j: nat)
    requires id in IdsInOrder(partials)
    ensures var gs := GroupAll(partials).grouped;
      && j < |gs| && gs[j].invocationId == Some(id) && id != ""
      && gs[j].events == WithId(partials, id) && gs[j].events != []
      && gs[j].author == OrDefault(gs[j].events[0].author, "assistant")
      && forall k :: 0 <= k < |gs| && gs[k].invocationId == Some(id) ==> k == j
  {
    var st := GroupAll(partials);
    GroupHoldsItsEvents(partials);
    GroupsFollowIds(partials);
    GroupAuthors(partials);
    j := st.indexed[id];
  }

  // ---------------------------------------------------------------------------
  // tests/test_chat_history.py:64-81
  // ---------------------------------------------------------------------------

  /** The committed event for a group with id `id` and merged text `text`, authored "model". */
  function CommittedModelEvent(id: string, text: string): Event {
    Event(Some("model"), Some(Content(Some("model"), [Part(Some(text), false, None, None)])), false, Some(id))
  }

  lemma TwoEventsText(e1: Event, e2: Event)
    ensures EventsText([e1, e2]) == EventText(e1) + EventText(e2)
  {
    assert [e1, e2][..1] == [e1];
    OneEventText(e1);
  }

  lemma OneEventText(e: Event)
    ensures EventsText([e]) == EventText(e)
  {
    assert [e][..0] == [];
    assert EventsText([e]) == "" + EventText(e);
  }

  /** Grouping two chunks of invocation `x` followed by one of invocation `y`. */
  lemma GroupThree(e1: Event, e2: Event, e3: Event, x: string, y: string)
    requires x != "" && y != "" && x != y
    requires GroupId(e1) == Some(x) && GroupId(e2) == Some(x) && GroupId(e3) == Some(y)
    requires e1.author == Some("model") && e3.author == Some("model")
    ensures GroupAll([e1, e2, e3]).grouped ==
      [Group(Some(x), [e1, e2], "model"), Group(Some(y), [e3], "model")]
  {
    var s1 := Grouping([Group(Some(x), [e1], "model")], map[x := 0], None);
    var s2 := Grouping([Group(Some(x), [e1, e2], "model")], map[x := 0], None);
    assert [e1, e2, e3][..2] == [e1, e2];
    assert [e1, e2][..1] == [e1];
    assert [e1][..0] == [];
    assert OrDefault(Some("model"), "assistant") == "model";
    assert [] + [e1] == [e1] && [e1] + [e2] == [e1, e2] && [] + [e3] == [e3];
    assert GroupAll([e1]) == AddEvent(NoGroups, e1);
    assert AppendAt([NewGroup(Some(x), e1)], 0, e1) == [Group(Some(x), [e1], "model")];
    assert AddEvent(NoGroups, e1) == s1;
    assert GroupAll([e1, e2]) == AddEvent(s1, e2);
    assert AppendAt(s1.grouped, 0, e2) == s2.grouped;
    assert AddEvent(s1, e2) == s2;
    var gs := s2.grouped + [NewGroup(Some(y), e3)];
    assert AppendAt(gs, 1, e3) == [Group(Some(x), [e1, e2], "model"), Group(Some(y), [e3], "model")];
  }

  /**
   * Two partial chunks of invocation `x` and one of invocation `y` give two
   * committed events: `x`'s with the stripped joined chunk texts, then `y`'s.
   */
  lemma MergesByInvocationFor(a: string, b: string, c: string, x: string, y: string)
    requires x != "" && y != "" && x != y
    requires Strip(a + b) != "" && Strip(c) != ""
    ensures BuildCommitted([TextEvent("model", a, true, Some(x)), TextEvent("model", b, true, Some(x)),
                            TextEvent("model", c, true, Some(y))])
         == [CommittedModelEvent(x, Strip(a + b)), CommittedModelEvent(y, Strip(c))]
  {
    var e1, e2, e3 := TextEvent("model", a, true, Some(x)), TextEvent("model", b, true, Some(x)),
                      TextEvent("model", c, true, Some(y));
    GroupThree(e1, e2, e3, x, y);
    var g1, g2 := Group(Some(x), [e1, e2], "model"), Group(Some(y), [e3], "model");
    TextEventText("model", a, true, Some(x));
    TextEventText("model", b, true, Some(x));
    TextEventText("model", c, true, Some(y));
    MergedTextIsEventsText(g1);
    MergedTextIsEventsText(g2);
    TwoEventsText(e1, e2);
    OneEventText(e3);
    assert Commit(g1) == Some(CommittedModelEvent(x, Strip(a + b)));
    assert Commit(g2) == Some(CommittedModelEvent(y, Strip(c)));
    assert [g1, g2][..1] == [g1];
    assert [g1][..0] == [];
    assert CommitAll([g1]) == [] + [CommittedModelEvent(x, Strip(a + b))];
    assert CommitAll([g1, g2]) == CommitAll([g1]) + [CommittedModelEvent(y, Strip(c))];
  }

  /** The test's partials: "First " and "piece" under "foo", "Another" under "bar". */
  lemma MergesByInvocation()
    ensures var committed := BuildCommitted([TextEvent("model", "First ", true, Some("foo")),
                                             TextEvent("model", "piece", true, Some("foo")),
                                             TextEvent("model", "Another", true, Some("bar"))]);
      && |committed| == 2
      && committed[0].invocationId == Some("foo") && EventText(committed[0]) == "First piece"
      && committed[1].invocationId == Some("bar") && EventText(committed[1]) == "Another"
  {
    assert "First " + "piece" == "First piece";
    assert !IsSpace('F') && !IsSpace('e') && !IsSpace('A') && !IsSpace('r');
    StripKeeps("First piece");
    StripKeeps("Another");
    MergesByInvocationFor("First ", "piece", "Another", "foo", "bar");
    TextEventText("model", "First piece", false, Some("foo"));
    TextEventText("model", "Another", false, Some("bar"));
  }
}
