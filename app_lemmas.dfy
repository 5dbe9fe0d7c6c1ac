/**
 * Properties of `process_event` and `group_events` (src/remip_example/app.py),
 * each stated against a definition that does not follow the source's loop.
 */
module AppLemmas {
  import opened Wrappers
  import opened PyStrings
  import opened AdkEvents
  import opened App

  // ---------------------------------------------------------------------------
  // process_event, part by part
  // ---------------------------------------------------------------------------

  /** What one part adds to the response markdown. */
  function ResponseOf(p: Part): string {
    if p.thought then ""
    else if p.functionCall.Some? then ToolCallMarkup(p.functionCall.value)
    else if p.functionResponse.Some? then ToolResponseMarkup(p.functionResponse.value)
    else OrDefault(p.text, "")
  }

  /** What one part adds to the thoughts markdown. */
  function ThoughtOf(p: Part): string {
    if p.thought then OrDefault(p.text, "") else ""
  }

  /** A thought part without text: `thoughts_markdown += None` raises. */
  predicate Raises(p: Part) {
    p.thought && p.text.None?
  }

  function ResponsesOf(parts: seq<Part>): seq<string> {
    if parts == [] then [] else ResponsesOf(parts[..|parts| - 1]) + [ResponseOf(parts[|parts| - 1])]
  }

  function ThoughtsOf(parts: seq<Part>): seq<string> {
    if parts == [] then [] else ThoughtsOf(parts[..|parts| - 1]) + [ThoughtOf(parts[|parts| - 1])]
  }

  lemma JoinSnoc(xs: seq<string>, x: string)
    ensures Join(xs + [x]) == Join(xs) + x
  {
    assert (xs + [x])[..|xs|] == xs;
  }

  /** A part that does not raise adds its response and thought contributions. */
  lemma ClassifyAgrees(acc: (string, string), p: Part)
    requires !Raises(p)
    ensures Classify(p).Success?
    ensures match Classify(p)
      case Success(ToThoughts(s)) => (acc.0, acc.1 + s) == (acc.0 + ResponseOf(p), acc.1 + ThoughtOf(p))
      case Success(ToResponse(s)) => (acc.0 + s, acc.1) == (acc.0 + ResponseOf(p), acc.1 + ThoughtOf(p))
      case Success(NoOutput) => acc == (acc.0 + ResponseOf(p), acc.1 + ThoughtOf(p))
      case Failure(_) => false
  {
    assert acc.0 + "" == acc.0 && acc.1 + "" == acc.1;
  }

  /**
   * The loop over the parts raises exactly when some thought part has no text;
   * otherwise the response is every part's response contribution in order, and
   * the thoughts every thought part's text in order.
   */
  lemma {:induction false} AccumulateIsPerPart(parts: seq<Part>)
    ensures Accumulate(parts).Failure? <==> exists i :: 0 <= i < |parts| && Raises(parts[i])
    ensures Accumulate(parts).Success? ==>
      Accumulate(parts).value == (Join(ResponsesOf(parts)), Join(ThoughtsOf(parts)))
    decreases |parts|
  {
    if parts != [] {
      var init, p := parts[..|parts| - 1], parts[|parts| - 1];
      AccumulateIsPerPart(init);
      if exists i :: 0 <= i < |init| && Raises(init[i]) {
        var i :| 0 <= i < |init| && Raises(init[i]);
        assert Raises(parts[i]);
      } else if Raises(p) {
        assert Raises(parts[|parts| - 1]);
      } else {
        forall i | 0 <= i < |parts|
          ensures !Raises(parts[i])
        {
          if i < |init| {
            assert parts[i] == init[i];
          }
        }
        var acc := Accumulate(init).value;
        ClassifyAgrees(acc, p);
        JoinSnoc(ResponsesOf(init), ResponseOf(p));
        JoinSnoc(ThoughtsOf(init), ThoughtOf(p));
      }
    }
  }

  /**
   * `process_event`: the author is passed through; without content both
   * markdowns are `None`; with content it raises exactly when a thought part
   * has no text, and otherwise each markdown is the joined contributions, or
   * `None` when that is empty.
   */
  lemma ProcessEventFacts(e: Event)
    ensures e.content.None? ==> ProcessEvent(e) == Success(Processed(e.author, None, None))
    ensures ProcessEvent(e).Failure? <==>
      e.content.Some? && exists i :: 0 <= i < |e.content.value.parts| && Raises(e.content.value.parts[i])
    ensures ProcessEvent(e).Success? ==> ProcessEvent(e).value.author == e.author
    ensures ProcessEvent(e).Success? && e.content.Some? ==>
      var parts := e.content.value.parts;
      && ProcessEvent(e).value.response == NoneIfEmpty(Join(ResponsesOf(parts)))
      && ProcessEvent(e).value.thoughts == NoneIfEmpty(Join(ThoughtsOf(parts)))
  {
    if e.content.Some? {
      AccumulateIsPerPart(e.content.value.parts);
    }
  }

  /** A thought part contributes to the thoughts only, never to the response. */
  lemma ThoughtStaysOutOfResponse(p: Part)
    requires p.thought && p.text.Some?
    ensures Classify(p) == Success(ToThoughts(p.text.value))
    ensures ResponseOf(p) == "" && ThoughtOf(p) == p.text.value
  {
  }

  /** A tool-response block is JSON whenever the response or its nested result renders as JSON. */
  lemma ResponseLanguage(r: FunctionResponse)
    ensures ResponseBody(r).0 == "python" <==> r.json.None? && (r.nestedJson.None? || r.nestedJson.value == "")
    ensures ResponseBody(r).0 == "python" ==> ResponseBody(r).1 == r.responseStr
    ensures r.json.Some? ==> ResponseBody(r).1 == r.json.value
  {
  }

  function EventOf(author: string, parts: seq<Part>): Event {
    Event(Some(author), Some(Content(None, parts)), false, None)
  }

  /** tests/test_app.py:26-36: a plain text part is the response; no thoughts. */
  lemma TextEventExample()
    ensures ProcessEvent(EventOf("user", [Part(Some("Hello"), false, None, None)]))
         == Success(Processed(Some("user"), Some("Hello"), None))
  {
    var e := EventOf("user", [Part(Some("Hello"), false, None, None)]);
    var parts := e.content.value.parts;
    assert parts[..0] == [] && "" + "Hello" == "Hello";
    assert Accumulate(parts) == Success(("Hello", ""));
  }

  /** tests/test_app.py:84-96: a thought part fills the thoughts and leaves the response `None`. */
  lemma ThoughtEventExample()
    ensures ProcessEvent(EventOf("remip_agent", [Part(Some("Thinking..."), true, None, None)]))
         == Success(Processed(Some("remip_agent"), None, Some("Thinking...")))
  {
    var e := EventOf("remip_agent", [Part(Some("Thinking..."), true, None, None)]);
    var parts := e.content.value.parts;
    assert parts[..0] == [] && "" + "Thinking..." == "Thinking...";
    assert Accumulate(parts) == Success(("", "Thinking..."));
  }

  /** tests/test_app.py:39-54: a tool call becomes one collapsible JSON block naming the tool. */
  lemma ToolCallEventExample(call: FunctionCall)
    ensures ProcessEvent(EventOf("remip_agent", [Part(None, false, Some(call), None)]))
         == Success(Processed(Some("remip_agent"), Some(ToolCallMarkup(call)), None))
    ensures ToolCallMarkup(call)[..29] == "<details><summary>Tool Call: "
  {
    var e := EventOf("remip_agent", [Part(None, false, Some(call), None)]);
    var parts := e.content.value.parts;
    assert parts[..0] == [] && "" + ToolCallMarkup(call) == ToolCallMarkup(call);
    assert Accumulate(parts) == Success((ToolCallMarkup(call), ""));
  }

  // ---------------------------------------------------------------------------
  // group_events
  // ---------------------------------------------------------------------------

  /** `process_event` succeeds on every event exactly when the whole pass does, and then gives one result per event. */
  lemma {:induction false} ProcessAllFacts(events: seq<Event>)
    ensures ProcessAll(events).Success? <==> forall i :: 0 <= i < |events| ==> ProcessEvent(events[i]).Success?
    ensures ProcessAll(events).Success? ==>
      var ps := ProcessAll(events).value;
      |ps| == |events| && forall i :: 0 <= i < |events| ==> ps[i] == ProcessEvent(events[i]).value
    decreases |events|
  {
    if events != [] {
      var init := events[..|events| - 1];
      ProcessAllFacts(init);
      if !ProcessAll(init).Success? {
        var i :| 0 <= i < |init| && !ProcessEvent(init[i]).Success?;
        assert events[i] == init[i];
      } else if ProcessEvent(events[|events| - 1]).Success? {
        forall i | 0 <= i < |init|
          ensures ProcessEvent(events[i]).Success?
        {
          assert events[i] == init[i];
        }
      }
    }
  }

  /** The events whose author counts: the first (as "unknown" if it has none) and every later one with an author. */
  function KeptAuthors(ps: seq<Processed>): seq<string>
    requires ps != []
  {
    if |ps| == 1 then [OrDefault(ps[0].author, "unknown")]
    else
      var p := ps[|ps| - 1];
      KeptAuthors(ps[..|ps| - 1]) + (if OrDefault(p.author, "") != "" then [p.author.value] else [])
  }

  /** The responses of the same events, `None` read as "". */
  function KeptResponses(ps: seq<Processed>): seq<string>
    requires ps != []
  {
    if |ps| == 1 then [OrDefault(ps[0].response, "")]
    else
      var p := ps[|ps| - 1];
      KeptResponses(ps[..|ps| - 1]) + (if OrDefault(p.author, "") != "" then [OrDefault(p.response, "")] else [])
  }

  /** `xs` with every element equal to its predecessor dropped. */
  function Collapse(xs: seq<string>): seq<string> {
    if xs == [] then []
    else if |xs| >= 2 && xs[|xs| - 2] == xs[|xs| - 1] then Collapse(xs[..|xs| - 1])
    else Collapse(xs[..|xs| - 1]) + [xs[|xs| - 1]]
  }

  function Authors(gs: seq<Triple>): seq<string> {
    if gs == [] then [] else Authors(gs[..|gs| - 1]) + [gs[|gs| - 1].author]
  }

  function Responses(gs: seq<Triple>): seq<string> {
    if gs == [] then [] else Responses(gs[..|gs| - 1]) + [gs[|gs| - 1].response]
  }

  /**
   * Collapsing keeps the first and last element, never grows the sequence,
   * leaves no two equal neighbours and adds no element.
   */
  lemma {:induction false} CollapseFacts(xs: seq<string>)
    ensures |Collapse(xs)| <= |xs|
    ensures xs != [] ==> Collapse(xs) != [] && Collapse(xs)[0] == xs[0]
    ensures xs != [] ==> Collapse(xs)[|Collapse(xs)| - 1] == xs[|xs| - 1]
    ensures forall i :: 0 < i < |Collapse(xs)| ==> Collapse(xs)[i - 1] != Collapse(xs)[i]
    ensures forall y :: y in Collapse(xs) ==> y in xs
    decreases |xs|
  {
    if xs != [] {
      var init := xs[..|xs| - 1];
      CollapseFacts(init);
      forall y | y in Collapse(xs)
        ensures y in xs
      {
        if y in Collapse(init) {
          assert y in init;
        }
      }
    }
  }

  lemma AuthorsSnoc(gs: seq<Triple>, g: Triple)
    ensures Authors(gs + [g]) == Authors(gs) + [g.author]
    ensures Responses(gs + [g]) == Responses(gs) + [g.response]
  {
    assert (gs + [g])[..|gs|] == gs;
  }

  /** Dropping a repeat of the last element leaves the collapse as it was. */
  lemma CollapseSnoc(k: seq<string>, a: string)
    requires k != []
    ensures a == k[|k| - 1] ==> Collapse(k + [a]) == Collapse(k)
    ensures a != k[|k| - 1] ==> Collapse(k + [a]) == Collapse(k) + [a]
  {
    var ka := k + [a];
    assert ka[..|ka| - 1] == k && ka[|ka| - 2] == k[|k| - 1] && ka[|ka| - 1] == a;
  }

  /** One step of the grouping loop keeps the authors the collapse of the kept ones. */
  lemma AuthorsStep(st: Grouping, k: seq<string>, p: Processed)
    requires k != [] && k[|k| - 1] == st.current.author
    requires Authors(st.grouped) + [st.current.author] == Collapse(k)
    ensures var st', k' := Next(st, p), k + (if OrDefault(p.author, "") != "" then [p.author.value] else []);
      Authors(st'.grouped) + [st'.current.author] == Collapse(k')
  {
    if OrDefault(p.author, "") == "" {
      assert k + [] == k;
    } else {
      CollapseSnoc(k, p.author.value);
      if p.author.value != st.current.author {
        AuthorsSnoc(st.grouped, st.current);
      }
    }
  }

  /** The finished groups' authors and the open group's author are the kept authors, collapsed. */
  lemma {:induction false} GroupFromAuthors(ps: seq<Processed>)
    requires ps != []
    ensures Authors(GroupFrom(ps).grouped) + [GroupFrom(ps).current.author] == Collapse(KeptAuthors(ps))
    decreases |ps|
  {
    if |ps| == 1 {
      assert KeptAuthors(ps) == [] + [OrDefault(ps[0].author, "unknown")];
    } else {
      var init, p := ps[..|ps| - 1], ps[|ps| - 1];
      var st, k := GroupFrom(init), KeptAuthors(init);
      GroupFromAuthors(init);
      CollapseFacts(k);
      AuthorsStep(st, k, p);
    }
  }

  /** One step of the grouping loop keeps the joined responses those of the kept events. */
  lemma ResponsesStep(st: Grouping, rs: seq<string>, p: Processed)
    requires Join(Responses(st.grouped)) + st.current.response == Join(rs)
    ensures var st', rs' := Next(st, p), rs + (if OrDefault(p.author, "") != "" then [OrDefault(p.response, "")] else []);
      Join(Responses(st'.grouped)) + st'.current.response == Join(rs')
  {
    if OrDefault(p.author, "") == "" {
      assert rs + [] == rs;
    } else {
      JoinSnoc(rs, OrDefault(p.response, ""));
      if p.author.value != st.current.author {
        AuthorsSnoc(st.grouped, st.current);
        JoinSnoc(Responses(st.grouped), st.current.response);
      }
    }
  }

  /** Joined, the finished groups' responses and the open group's response are the kept responses joined. */
  lemma {:induction false} GroupFromResponses(ps: seq<Processed>)
    requires ps != []
    ensures Join(Responses(GroupFrom(ps).grouped)) + GroupFrom(ps).current.response == Join(KeptResponses(ps))
    decreases |ps|
  {
    if |ps| == 1 {
      assert KeptResponses(ps) == [] + [OrDefault(ps[0].response, "")];
    } else {
      GroupFromResponses(ps[..|ps| - 1]);
      ResponsesStep(GroupFrom(ps[..|ps| - 1]), KeptResponses(ps[..|ps| - 1]), ps[|ps| - 1]);
    }
  }

  // ---------------------------------------------------------------------------
  // group_events, group by group
  // ---------------------------------------------------------------------------

  /** The thoughts a later event of the same author adds: its text and a blank line, or nothing. */
  function Suffixed(t: string): string {
    if t != "" then t + "\n\n" else ""
  }

  /** The `(author, response, thoughts)` of the events that count, `None` read as "". */
  function Kept(ps: seq<Processed>): (ks: seq<Triple>)
    requires ps != []
    ensures ks != []
  {
    if |ps| == 1 then
      [Triple(OrDefault(ps[0].author, "unknown"), OrDefault(ps[0].response, ""), OrDefault(ps[0].thoughts, ""))]
    else
      var p := ps[|ps| - 1];
      Kept(ps[..|ps| - 1])
      + (if OrDefault(p.author, "") != "" then [Triple(p.author.value, OrDefault(p.response, ""), OrDefault(p.thoughts, ""))] else [])
  }

  /** Folds a later triple of the same author into its group. */
  function Absorb(g: Triple, k: Triple): Triple {
    Triple(g.author, g.response + k.response, g.thoughts + Suffixed(k.thoughts))
  }

  /**
   * Runs of equal authors merged into one triple each: the first triple's
   * thoughts as they are, every later triple's thoughts with a blank line.
   */
  function MergeRuns(ks: seq<Triple>): (gs: seq<Triple>)
    ensures |gs| <= |ks|
    ensures ks != [] ==> gs != [] && gs[|gs| - 1].author == ks[|ks| - 1].author && gs[0].author == ks[0].author
  {
    if |ks| <= 1 then ks
    else
      var gs := MergeRuns(ks[..|ks| - 1]);
      var k := ks[|ks| - 1];
      if gs[|gs| - 1].author == k.author then gs[..|gs| - 1] + [Absorb(gs[|gs| - 1], k)]
      else gs + [k]
  }

  /** The thoughts of later triples, each with its blank line. */
  function SuffixedThoughts(ks: seq<Triple>): seq<string> {
    if ks == [] then [] else SuffixedThoughts(ks[..|ks| - 1]) + [Suffixed(ks[|ks| - 1].thoughts)]
  }

  /**
   * A run of one author merges into one group: the author, every response
   * concatenated, and the first thoughts followed by each later event's
   * thoughts and a blank line.
   */
  /** Every triple of `ks` has author `a`. */
  predicate AllBy(ks: seq<Triple>, a: string) {
    forall i :: 0 <= i < |ks| ==> ks[i].author == a
  }

  lemma {:induction false} MergeRunsOneAuthor(ks: seq<Triple>)
    requires ks != [] && AllBy(ks, ks[0].author)
    ensures MergeRuns(ks)
      == [Triple(ks[0].author, Join(Responses(ks)), ks[0].thoughts + Join(SuffixedThoughts(ks[1..])))]
    decreases |ks|
  {
    if |ks| == 1 {
      assert ks == [ks[0]];
      OneTriple(ks[0]);
    } else {
      var init, k := ks[..|ks| - 1], ks[|ks| - 1];
      assert AllBy(init, init[0].author) && k.author == init[0].author by {
        assert init[0] == ks[0];
      }
      MergeRunsOneAuthor(init);
      AbsorbLast(init, k);
      assert ks == init + [k];
    }
  }

  /** The base of `MergeRunsOneAuthor`: a single triple is its own group. */
  lemma OneTriple(k: Triple)
    ensures MergeRuns([k]) == [Triple(k.author, Join(Responses([k])), k.thoughts + Join(SuffixedThoughts([k][1..])))]
  {
    assert Join(Responses([k])) == k.response by {
      assert [k][..0] == [];
      assert Responses([k]) == [] + [k.response] == [k.response];
      assert [k.response][..0] == [];
      assert Join([k.response]) == "" + k.response;
    }
    assert Join(SuffixedThoughts([k][1..])) == "" by {
      assert [k][1..] == [];
    }
    assert k.thoughts + "" == k.thoughts;
  }

  /** The step of `MergeRunsOneAuthor`: one more triple of the same author. */
  lemma {:induction false} AbsorbLast(init: seq<Triple>, k: Triple)
    requires init != [] && k.author == init[0].author
    requires MergeRuns(init)
      == [Triple(init[0].author, Join(Responses(init)), init[0].thoughts + Join(SuffixedThoughts(init[1..])))]
    ensures var ks := init + [k];
      MergeRuns(ks)
      == [Triple(ks[0].author, Join(Responses(ks)), ks[0].thoughts + Join(SuffixedThoughts(ks[1..])))]
  {
    var ks := init + [k];
    var g := MergeRuns(init)[0];
    assert MergeRuns(ks) == [Absorb(g, k)] by {
      MergeRunsSnoc(init, k);
    }
    assert Join(Responses(ks)) == Join(Responses(init)) + k.response by {
      AuthorsSnoc(init, k);
      JoinSnoc(Responses(init), k.response);
    }
    assert Join(SuffixedThoughts(ks[1..])) == Join(SuffixedThoughts(init[1..])) + Suffixed(k.thoughts) by {
      var ks1 := init[1..] + [k];
      assert ks[1..] == ks1 && ks1[..|ks1| - 1] == init[1..];
      JoinSnoc(SuffixedThoughts(init[1..]), Suffixed(k.thoughts));
    }
    assert ks[0] == init[0];
    assert g == Triple(init[0].author, Join(Responses(init)), init[0].thoughts + Join(SuffixedThoughts(init[1..])));
    var t := Join(SuffixedThoughts(init[1..]));
    assert (init[0].thoughts + t) + Suffixed(k.thoughts) == init[0].thoughts + (t + Suffixed(k.thoughts));
  }

  /** One triple more: it joins the last group when the author is the same, or opens a group. */
  lemma MergeRunsSnoc(ks: seq<Triple>, k: Triple)
    requires ks != []
    ensures var gs := MergeRuns(ks);
      MergeRuns(ks + [k])
        == if gs[|gs| - 1].author == k.author then gs[..|gs| - 1] + [Absorb(gs[|gs| - 1], k)] else gs + [k]
  {
    assert (ks + [k])[..|ks|] == ks;
  }

  /** Where the author changes, the merge splits: each side merges on its own. */
  lemma {:induction false} MergeRunsAppend(a: seq<Triple>, b: seq<Triple>)
    requires a != [] && b != [] && a[|a| - 1].author != b[0].author
    ensures MergeRuns(a + b) == MergeRuns(a) + MergeRuns(b)
    decreases |b|
  {
    var k := b[|b| - 1];
    if |b| == 1 {
      assert b == [k];
      MergeRunsSnoc(a, k);
    } else {
      var init := b[..|b| - 1];
      assert b == init + [k] && a + b == (a + init) + [k];
      MergeRunsAppend(a, init);
      MergeRunsSnoc(a + init, k);
      MergeRunsSnoc(init, k);
      SplitLast(MergeRuns(a), MergeRuns(init), k);
    }
  }

  /** The last group of `ga + gb` is that of `gb`, so absorbing into it or appending after it leaves `ga` alone. */
  lemma SplitLast(ga: seq<Triple>, gb: seq<Triple>, k: Triple)
    requires gb != []
    ensures var g := ga + gb; var n := |g|;
      && g[n - 1] == gb[|gb| - 1]
      && g[..n - 1] + [Absorb(g[n - 1], k)] == ga + (gb[..|gb| - 1] + [Absorb(gb[|gb| - 1], k)])
      && g + [k] == ga + (gb + [k])
  {
    var g := ga + gb;
    assert g[..|g| - 1] == ga + gb[..|gb| - 1];
  }

  /** The kept triples carry the kept authors and responses. */
  lemma {:induction false} KeptParts(ps: seq<Processed>)
    requires ps != []
    ensures Authors(Kept(ps)) == KeptAuthors(ps) && Responses(Kept(ps)) == KeptResponses(ps)
    decreases |ps|
  {
    var ks := Kept(ps);
    if |ps| == 1 {
      assert ks[..0] == [];
      assert Authors(ks) == [] + [ks[0].author];
      assert Responses(ks) == [] + [ks[0].response];
    } else {
      var init, p := ps[..|ps| - 1], ps[|ps| - 1];
      KeptParts(init);
      if OrDefault(p.author, "") != "" {
        var k := Triple(p.author.value, OrDefault(p.response, ""), OrDefault(p.thoughts, ""));
        assert ks == Kept(init) + [k];
        AuthorsSnoc(Kept(init), k);
      } else {
        assert ks == Kept(init) + [] == Kept(init);
        assert KeptAuthors(ps) == KeptAuthors(init) + [];
        assert KeptResponses(ps) == KeptResponses(init) + [];
      }
    }
  }

  /** One step of the grouping loop is one step of the merge. */
  lemma RunsStep(st: Grouping, ks: seq<Triple>, p: Processed)
    requires ks != [] && st.grouped + [st.current] == MergeRuns(ks)
    ensures var st' := Next(st, p);
      var ks' := ks + (if OrDefault(p.author, "") != "" then [Triple(p.author.value, OrDefault(p.response, ""), OrDefault(p.thoughts, ""))] else []);
      st'.grouped + [st'.current] == MergeRuns(ks')
  {
    if OrDefault(p.author, "") == "" {
      assert ks + [] == ks;
    } else {
      var k := Triple(p.author.value, OrDefault(p.response, ""), OrDefault(p.thoughts, ""));
      var ks' := ks + [k];
      assert ks'[..|ks'| - 1] == ks;
      var gs := st.grouped + [st.current];
      assert gs[|gs| - 1] == st.current && gs[..|gs| - 1] == st.grouped;
    }
  }

  /** The finished groups and the open group are the kept triples with runs of one author merged. */
  lemma {:induction false} GroupFromRuns(ps: seq<Processed>)
    requires ps != []
    ensures GroupFrom(ps).grouped + [GroupFrom(ps).current] == MergeRuns(Kept(ps))
    decreases |ps|
  {
    if |ps| > 1 {
      var init := ps[..|ps| - 1];
      GroupFromRuns(init);
      RunsStep(GroupFrom(init), Kept(init), ps[|ps| - 1]);
    }
  }

  /**
   * Two events of one author with thoughts `t1` and `t2`: one group whose
   * thoughts are `t1` followed by `t2` and a blank line; the first event's
   * thoughts get no blank line.
   */
  lemma ThoughtsSeparatorExample(a: string, t1: string, t2: string)
    requires a != "" && t2 != ""
    ensures GroupProcessed([Processed(Some(a), None, Some(t1)), Processed(Some(a), None, Some(t2))])
      == [Triple(a, "", t1 + t2 + "\n\n")]
  {
    var ps := [Processed(Some(a), None, Some(t1)), Processed(Some(a), None, Some(t2))];
    var k1, k2 := Triple(a, "", t1), Triple(a, "", t2);
    assert Kept(ps) == [k1] + [k2] by {
      assert ps[..1] == [ps[0]];
    }
    assert MergeRuns([k1] + [k2]) == [Absorb(k1, k2)] by {
      MergeRunsSnoc([k1], k2);
    }
    assert Absorb(k1, k2) == Triple(a, "", t1 + t2 + "\n\n") by {
      assert "" + "" == "";
      assert t1 + (t2 + "\n\n") == t1 + t2 + "\n\n";
    }
    GroupProcessedFacts(ps);
  }

  /** The kept authors: at most one per event, none empty, the first one the first event's. */
  lemma {:induction false} KeptAuthorsFacts(ps: seq<Processed>)
    requires ps != []
    ensures 1 <= |KeptAuthors(ps)| <= |ps|
    ensures KeptAuthors(ps)[0] == OrDefault(ps[0].author, "unknown")
    ensures forall a :: a in KeptAuthors(ps) ==> a != ""
    decreases |ps|
  {
    if |ps| > 1 {
      KeptAuthorsFacts(ps[..|ps| - 1]);
    }
  }

  lemma {:induction false} AuthorsIndex(gs: seq<Triple>)
    ensures |Authors(gs)| == |gs|
    ensures forall i :: 0 <= i < |gs| ==> Authors(gs)[i] == gs[i].author
    decreases |gs|
  {
    if gs != [] {
      AuthorsIndex(gs[..|gs| - 1]);
    }
  }

  /** Groups whose authors are a collapse of non-empty names. */
  lemma CollapsedAuthors(gs: seq<Triple>, k: seq<string>)
    requires k != [] && Authors(gs) == Collapse(k)
    requires forall a :: a in k ==> a != ""
    ensures 1 <= |gs| <= |k| && gs[0].author == k[0]
    ensures forall i :: 0 < i < |gs| ==> gs[i - 1].author != gs[i].author
    ensures forall i :: 0 <= i < |gs| ==> gs[i].author != ""
  {
    AuthorsIndex(gs);
    CollapseFacts(k);
    forall i | 0 <= i < |gs|
      ensures gs[i].author != ""
    {
      assert Collapse(k)[i] in Collapse(k);
    }
  }

  /**
   * `group_events` on processed events: one group per run of equal kept
   * authors, in order, so neighbouring groups have different authors, every
   * author is non-empty, the first is the first event's author (or "unknown"),
   * there are no more groups than events, and no response text is lost or
   * reordered; group by group, they are the kept triples with each run of one
   * author merged.
   */
  lemma GroupProcessedFacts(ps: seq<Processed>)
    requires ps != []
    ensures var gs := GroupProcessed(ps);
      && 1 <= |gs| <= |ps|
      && Authors(gs) == Collapse(KeptAuthors(ps))
      && gs[0].author == OrDefault(ps[0].author, "unknown")
      && (forall i :: 0 < i < |gs| ==> gs[i - 1].author != gs[i].author)
      && (forall i :: 0 <= i < |gs| ==> gs[i].author != "")
      && Join(Responses(gs)) == Join(KeptResponses(ps))
      && gs == MergeRuns(Kept(ps))
  {
    var st := GroupFrom(ps);
    GroupFromRuns(ps);
    GroupFromAuthors(ps);
    GroupFromResponses(ps);
    AuthorsSnoc(st.grouped, st.current);
    JoinSnoc(Responses(st.grouped), st.current.response);
    KeptAuthorsFacts(ps);
    CollapsedAuthors(GroupProcessed(ps), KeptAuthors(ps));
  }

  /**
   * `group_events`: it raises exactly when `process_event` raises on some
   * event; otherwise its groups are the processed events' kept triples with
   * each run of one author merged.
   */
  lemma GroupEventsFacts(events: seq<Event>)
    ensures GroupEvents(events).Failure? <==> exists i :: 0 <= i < |events| && ProcessEvent(events[i]).Failure?
    ensures GroupEvents(events).Success? ==>
      var gs := GroupEvents(events).value;
      && (gs == [] <==> events == [])
      && |gs| <= |events|
      && (forall i :: 0 < i < |gs| ==> gs[i - 1].author != gs[i].author)
      && (forall i :: 0 <= i < |gs| ==> gs[i].author != "")
      && (events != [] ==> gs[0].author == OrDefault(ProcessEvent(events[0]).value.author, "unknown"))
      && (events != [] ==>
            var ps := ProcessAll(events).value;
            gs == MergeRuns(Kept(ps)) && Authors(gs) == Collapse(KeptAuthors(ps)))
  {
    ProcessAllFacts(events);
    if ProcessAll(events).Success? && events != [] {
      GroupProcessedFacts(ProcessAll(events).value);
    }
  }
}
