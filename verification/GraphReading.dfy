/**
 * What the file of a run must say, and what reading the text of one more event does: an event whose name stands for
 * itself adds what it must, and an event that cannot be read spoils the file for good.
 */
module GraphReading {
  import opened Wrappers
  import opened CStrings
  import opened DotReader
  import opened CallGraph

  // ----- what the file must say

  /** One edge per node event other than the first event, from the call in progress, or from the unknown caller. */
  function SpecEdges(events: seq<Event>): seq<Edge> {
    if events == [] then []
    else
      var e, p := Last(events), Front(events);
      SpecEdges(p) + (if e.IsNode() && p != [] then [(Top(Run(p).stack), e.name)] else [])
  }

  function SpecGreys(events: seq<Event>): seq<string> {
    if events == [] then []
    else SpecGreys(Front(events)) + (if Last(events).Syscall? then [Last(events).name] else [])
  }

  /** Every node named, and the sources of the edges. */
  function SpecLabels(events: seq<Event>): set<string> {
    (set e | e in events && e.IsNode() :: e.name) + (set x | x in SpecEdges(events) :: x.0)
  }

  /** Whether the last event that was not silent breaks the chain: a return or a syscall. */
  predicate Breaks(events: seq<Event>) {
    events != [] && (if Last(events).Silent? then Breaks(Front(events)) else !Last(events).Call?)
  }

  function Extend(stmts: seq<Stmt>, name: string): seq<Stmt> {
    if stmts != [] && Last(stmts).Chain? then Front(stmts) + [Chain(Last(stmts).nodes + [name])]
    else stmts + [Chain([name])]
  }

  /** The statements up to the last event's node: it ends the chain, or a fresh one from the call in progress. */
  function WithNode(events: seq<Event>): seq<Stmt>
    requires events != [] && Last(events).IsNode()
    decreases |events|, 0
  {
    var p, name := Front(events), Last(events).name;
    if Breaks(p) then Statements(p) + [Chain([Top(Run(p).stack), name])]
    else Extend(Statements(p), name)
  }

  /** The statements the file must hold: chains of calls, broken after each return and syscall; a mark per syscall. */
  function Statements(events: seq<Event>): seq<Stmt>
    decreases |events|, 1
  {
    if events == [] then []
    else if !Last(events).IsNode() then Statements(Front(events))
    else WithNode(events) + (if Last(events).Syscall? then [Grey(Last(events).name)] else [])
  }

  lemma {:induction false} RetIsBreaks(events: seq<Event>)
    ensures Run(events).ret == Breaks(events)
    ensures Breaks(events) ==> !AllSilent(events)
  {
    if events != [] {
      RetIsBreaks(Front(events));
      SilentSnoc(events);
    }
  }

  predicate AllSilent(events: seq<Event>) {
    forall e :: e in events ==> e.Silent?
  }

  ghost predicate NamesQuoteFree(events: seq<Event>) {
    forall e :: e in events && e.IsNode() ==> QuoteFree(e.name)
  }

  /** An event that can be read: its name leaves the closing quote alone, and an arrow it starts with has a source. */
  predicate Readable(before: seq<Event>, e: Event) {
    e.IsNode() ==> !Escaped(e.name) && (before == [] || !AllSilent(before))
  }

  /** A run whose file can be read. */
  ghost predicate Sound(events: seq<Event>) {
    forall k :: 0 <= k < |events| ==> Readable(events[..k], events[k])
  }

  /** A run whose file can be read, and in which no name joins lines: the file says what it must. */
  ghost predicate Clean(events: seq<Event>) {
    Sound(events) && forall e :: e in events && e.IsNode() ==> !JoinsLines(e.name)
  }

  ghost predicate ReadsBack(file: string, events: seq<Event>) {
    ReadFile(file) == Some(Statements(events)) && SameMeaning(Statements(events), events)
  }

  /** Statements that mean what they must: the edges, the marks, and no names but those. */
  ghost predicate SameMeaning(stmts: seq<Stmt>, events: seq<Event>) {
    && Edges(stmts) == SpecEdges(events)
    && Greys(stmts) == SpecGreys(events)
    && Labels(stmts) == SpecLabels(events)
  }

  // ----- reading a run back

  function Body(events: seq<Event>): string {
    if events == [] then ""
    else Body(Front(events)) + Written(Run(Front(events)), Last(events), |events| > 1)
  }

  lemma {:induction false} OutIsBody(events: seq<Event>)
    ensures Run(events).out == HEADER + Body(events)
  {
    if events != [] {
      var p := Front(events);
      OutIsBody(p);
      StepOut(Run(p), Last(events), |events| > 1);
      Assoc(HEADER, Body(p), Written(Run(p), Last(events), |events| > 1));
    }
  }

  lemma StepOut(w: Writer, e: Event, first: bool)
    ensures Step(w, e, first).out == w.out + Written(w, e, first)
  {
  }

  lemma Middle(head: string, body: string, tail: string)
    ensures var file := head + body + tail;
            && |file| == |head| + |body| + |tail| && head <= file
            && file[|head|..|file| - |tail|] == body && file[|file| - |tail|..] == tail
  {
  }

  lemma ReadWhole(events: seq<Event>)
    ensures var r := Read(START, Body(events));
            ReadFile(Run(events).out + FOOTER) == if r.mode.Between? && !r.arrow then Some(r.stmts) else None
  {
    OutIsBody(events);
    Middle(HEADER, Body(events), FOOTER);
  }

  /**
   * The run invariant: what has been written so far means what it must, and unless a fresh chain is asked for
   * the last node written is the top of the stack.
   */
  ghost predicate Tracks(events: seq<Event>, r: Reader) {
    && r.mode.Between?
    && !r.arrow
    && r.stmts == Statements(events)
    && SameMeaning(r.stmts, events)
    && var w := Run(events);
    && (w.ret ==> !AllSilent(events))
    && (!w.ret && AllSilent(events) ==> r.stmts == [])
    && (!w.ret && !AllSilent(events) ==> CanExtend(r) && LastNode(r) == Top(w.stack))
  }

  /** After the lead-in of a node that is not the first event: an arrow pending after the call in progress. */
  ghost predicate Led(r: Reader, r': Reader, top: string, broken: bool) {
    && r'.mode.Between? && r'.arrow
    && CanExtend(r'.(arrow := false)) && LastNode(r') == top
    && r'.stmts == (if broken then r.stmts + [Chain([top])] else r.stmts)
    && Edges(r'.stmts) == Edges(r.stmts)
    && Greys(r'.stmts) == Greys(r.stmts)
    && Labels(r'.stmts) == Labels(r.stmts) + {top}
  }

  lemma LastNodeIsLabel(r: Reader)
    requires CanExtend(r)
    ensures LastNode(r) in Labels(r.stmts)
  {
  }

  lemma TopIsReadable(events: seq<Event>)
    requires NamesQuoteFree(events) && Sound(events)
    ensures var t := Top(Run(events).stack); QuoteFree(t) && !Escaped(t) && (Clean(events) ==> Whole(t))
  {
    UnknownIsWhole();
    if Run(events).stack != [] {
      var k := TopIsName(events);
      assert events[k] in events && Readable(events[..k], events[k]);
    }
  }

  lemma UnknownIsWhole()
    ensures QuoteFree(UNKNOWN) && Whole(UNKNOWN) && Meaning(UNKNOWN) == UNKNOWN
  {
    assert forall k :: 0 <= k < |UNKNOWN| ==> UNKNOWN[k] != '\n';
    MeaningIsWhole(UNKNOWN);
  }

  lemma TopQuoteFree(events: seq<Event>)
    requires NamesQuoteFree(events)
    ensures QuoteFree(Top(Run(events).stack))
  {
    UnknownIsWhole();
    if Run(events).stack != [] {
      var k := TopIsName(events);
      assert events[k] in events;
    }
  }

  /** The event whose name is on top of the stack. */
  lemma TopIsName(events: seq<Event>) returns (k: nat)
    requires Run(events).stack != []
    ensures k < |events| && events[k].Call? && Top(Run(events).stack) == events[k].name
  {
    StackNames(events);
    k := Frames(events)[0];
  }

  lemma ReadLead(events: seq<Event>, r: Reader)
    requires NamesQuoteFree(events) && Clean(events) && Tracks(events, r) && !AllSilent(events)
    ensures Led(r, Read(r, Lead(Run(events), true)), Top(Run(events).stack), Run(events).ret)
  {
    var w := Run(events);
    var top := Top(w.stack);
    if w.ret {
      TopIsReadable(events);
      ReadFreshChain(r, top);
      assert Lead(w, true) == "\n" + NodeText(top) + " " + " -> ";
    } else {
      assert Lead(w, true) == " -> ";
      ReadOpenChain(r, top);
    }
  }

  lemma ReadOpenChain(r: Reader, top: string)
    requires r.mode.Between? && CanExtend(r) && LastNode(r) == top
    ensures Led(r, Read(r, " -> "), top, false)
  {
    ReadArrow(r);
    LastNodeIsLabel(r);
    assert Labels(r.stmts) == Labels(r.stmts) + {top};
  }

  lemma ReadFreshChain(r: Reader, top: string)
    requires r.mode.Between? && !r.arrow && QuoteFree(top) && Whole(top)
    ensures Led(r, Read(r, "\n" + NodeText(top) + " " + " -> "), top, true)
  {
    ReadSpace(r);
    ReadAppend(r, "\n", NodeText(top));
    ReadNodeIffWhole(r, top);
    AddNodeMeaning(r, top);
    var a := AddNode(r, top);
    ReadAppend(r, "\n" + NodeText(top), " ");
    ReadSpace(a);
    ReadAppend(r, "\n" + NodeText(top) + " ", " -> ");
    ReadArrow(a);
  }

  lemma LabelsSnoc(events: seq<Event>)
    requires events != []
    ensures var e, p := Last(events), Front(events);
            SpecLabels(events) == SpecLabels(p)
              + (if !e.IsNode() then {} else if p == [] then {e.name} else {Top(Run(p).stack), e.name})
  {
    var e, p := Last(events), Front(events);
    assert events == p + [e];
    assert forall x :: x in events <==> x in p || x == e;
    var edges := SpecEdges(events);
    if e.IsNode() && p != [] {
      assert edges == SpecEdges(p) + [(Top(Run(p).stack), e.name)];
      assert forall x :: x in edges <==> x in SpecEdges(p) || x == (Top(Run(p).stack), e.name);
      SourcesSnoc(SpecEdges(p), (Top(Run(p).stack), e.name));
    } else {
      assert edges == SpecEdges(p);
    }
    NamesSnoc(p, e);
  }

  lemma SourcesSnoc(edges: seq<Edge>, x: Edge)
    ensures (set y | y in edges + [x] :: y.0) == (set y | y in edges :: y.0) + {x.0}
  {
    assert x in edges + [x];
    assert forall y :: y in edges ==> y in edges + [x];
  }

  lemma NamesSnoc(p: seq<Event>, e: Event)
    ensures (set x | x in p + [e] && x.IsNode() :: x.name)
            == (set x | x in p && x.IsNode() :: x.name) + (if e.IsNode() then {e.name} else {})
  {
    assert e in p + [e];
    assert forall x :: x in p ==> x in p + [e];
  }

  lemma SilentSnoc(events: seq<Event>)
    requires events != []
    ensures AllSilent(events) <==> AllSilent(Front(events)) && Last(events).Silent?
  {
    assert events == Front(events) + [Last(events)];
    assert Last(events) in events;
  }

  /** A node added after its lead-in adds the one edge from the top; added first of all, it adds none. */
  lemma AddLedNode(r: Reader, r1: Reader, top: string, broken: bool, name: string)
    requires Led(r, r1, top, broken)
    ensures var r' := AddNode(r1, name);
            && CanExtend(r') && LastNode(r') == name
            && Edges(r'.stmts) == Edges(r.stmts) + [(top, name)]
            && Greys(r'.stmts) == Greys(r.stmts)
            && Labels(r'.stmts) == Labels(r.stmts) + {top, name}
  {
    AddNodeMeaning(r1, name);
    AddBoth(Labels(r.stmts), top, name);
  }

  lemma AddBoth(s: set<string>, a: string, b: string)
    ensures s + {a} + {b} == s + {a, b}
  {
  }

  lemma AddedStatements(r: Reader, r1: Reader, top: string, broken: bool, name: string)
    requires Led(r, r1, top, broken)
    ensures AddNode(r1, name).stmts == if broken then r.stmts + [Chain([top, name])] else Extend(r.stmts, name)
  {
    if broken {
      assert r1.stmts[..|r1.stmts| - 1] == r.stmts;
      assert [top] + [name] == [top, name];
    }
  }

  lemma AddFirstNode(name: string)
    ensures var r' := AddNode(START, name);
            && CanExtend(r') && LastNode(r') == name
            && Edges(r'.stmts) == [] && Greys(r'.stmts) == [] && Labels(r'.stmts) == {name}
  {
    AddNodeMeaning(START, name);
  }

  ghost predicate Named(events: seq<Event>, r: Reader) {
    && events != [] && Last(events).IsNode()
    && CanExtend(r) && r.mode.Between? && LastNode(r) == Last(events).name
    && r.stmts == WithNode(events)
    && Edges(r.stmts) == SpecEdges(events)
    && Greys(r.stmts) == SpecGreys(Front(events))
    && Labels(r.stmts) == SpecLabels(events)
  }

  lemma ReadNodeText(events: seq<Event>, r: Reader)
    requires events != [] && Last(events).IsNode()
    requires NamesQuoteFree(events) && Clean(events) && Tracks(Front(events), r)
    requires |events| > 1
    ensures Named(events, Read(r, Lead(Run(Front(events)), true) + NodeText(Last(events).name)))
  {
    var e, p := Last(events), Front(events);
    PrefixFacts(events);
    LabelsSnoc(events);
    var head, top := Lead(Run(p), true), Top(Run(p).stack);
    ReadLead(p, r);
    ReadAppend(r, head, NodeText(e.name));
    ReadNodeIffWhole(Read(r, head), e.name);
    RetIsBreaks(p);
    AddLedNode(r, Read(r, head), top, Breaks(p), e.name);
    AddedStatements(r, Read(r, head), top, Breaks(p), e.name);
  }

  lemma ReadFirstNodeText(events: seq<Event>)
    requires |events| == 1 && Last(events).IsNode()
    requires NamesQuoteFree(events) && Clean(events)
    ensures Named(events, Read(START, NodeText(Last(events).name)))
  {
    PrefixFacts(events);
    LabelsSnoc(events);
    ReadNodeIffWhole(START, Last(events).name);
    AddFirstNode(Last(events).name);
  }

  /** What soundness, cleanliness and quote-freedom of a run say about its last event and about the run before it. */
  lemma PrefixFacts(events: seq<Event>)
    requires events != [] && NamesQuoteFree(events)
    ensures NamesQuoteFree(Front(events))
    ensures Last(events).IsNode() ==> QuoteFree(Last(events).name)
    ensures Sound(events) <==> Sound(Front(events)) && Readable(Front(events), Last(events))
    ensures Clean(events) <==>
              Clean(Front(events)) && Readable(Front(events), Last(events))
              && (Last(events).IsNode() ==> !JoinsLines(Last(events).name))
  {
    var p := Front(events);
    assert events == p + [Last(events)];
    assert Last(events) in events;
    assert forall e :: e in events <==> e in p || e == Last(events);
    SoundSnoc(p, Last(events));
  }

  lemma SoundSnoc(p: seq<Event>, e: Event)
    ensures Sound(p + [e]) <==> Sound(p) && Readable(p, e)
  {
    var events := p + [e];
    assert events[..|p|] == p && events[|p|] == e;
    forall k | 0 <= k < |p|
      ensures Readable(events[..k], events[k]) <==> Readable(p[..k], p[k])
    {
      assert events[..k] == p[..k];
    }
    if Sound(events) {
      assert Readable(events[..|p|], events[|p|]);
      forall k | 0 <= k < |p|
        ensures Readable(p[..k], p[k])
      {
        assert Readable(events[..k], events[k]);
      }
    }
  }

  lemma ReadGreyText(r: Reader, name: string)
    requires r.mode.Between? && !r.arrow && QuoteFree(name) && Whole(name)
    ensures var r' := Read(r, "\n" + NodeText(name) + GREY);
            && r'.mode.Between? && !r'.arrow
            && r'.stmts == r.stmts + [Grey(name)]
            && Edges(r'.stmts) == Edges(r.stmts)
            && Greys(r'.stmts) == Greys(r.stmts) + [name]
            && Labels(r'.stmts) == Labels(r.stmts) + {name}
  {
    ReadSpace(r);
    ReadAppend(r, "\n", NodeText(name));
    ReadNodeIffWhole(r, name);
    var a := AddNode(r, name);
    ReadAppend(r, "\n" + NodeText(name), GREY);
    ReadBracket(a, ATTR);
    CloseAttrMeaning(r, name);
    assert CloseAttr(a.(mode := Attr(ATTR)), ATTR) == CloseAttr(a, ATTR);
  }

  /** Up to its own name, a node event is read as intended. */
  lemma ReadUpToName(events: seq<Event>, r: Reader)
    requires events != [] && Last(events).IsNode()
    requires NamesQuoteFree(events) && Clean(events) && Tracks(Front(events), r) && (|events| == 1 ==> r == START)
    ensures Named(events, Read(r, UpToName(events)))
  {
    if |events| == 1 {
      UpToFirstName(events);
      ReadFirstNodeText(events);
    } else {
      ReadNodeText(events, r);
    }
  }

  lemma UpToFirstName(events: seq<Event>)
    requires |events| == 1 && Last(events).IsNode()
    ensures UpToName(events) == NodeText(Last(events).name)
  {
    assert Front(events) == [];
    assert Lead(Run([]), false) == "";
  }

  function UpToName(events: seq<Event>): string
    requires events != [] && Last(events).IsNode()
  {
    Lead(Run(Front(events)), |events| > 1) + NodeText(Last(events).name)
  }

  function AfterName(e: Event): string
    requires e.IsNode()
  {
    if e.Call? then "" else "\n" + NodeText(e.name) + GREY
  }

  lemma WrittenSplit(events: seq<Event>)
    requires events != [] && Last(events).IsNode()
    ensures Written(Run(Front(events)), Last(events), |events| > 1) == UpToName(events) + AfterName(Last(events))
  {
    var e := Last(events);
    var head := Lead(Run(Front(events)), |events| > 1);
    assert e.Syscall? ==> head + NodeText(e.name) + "\n" + NodeText(e.name) + GREY
                          == head + NodeText(e.name) + ("\n" + NodeText(e.name) + GREY);
  }

  /** A named node event, followed by its attribute when it is a syscall, keeps the run invariant. */
  lemma NamedTracks(events: seq<Event>, r: Reader)
    requires NamesQuoteFree(events) && Clean(events) && Named(events, r)
    ensures Tracks(events, Read(r, AfterName(Last(events))))
  {
    var e := Last(events);
    PrefixFacts(events);
    SilentSnoc(events);
    if e.Syscall? {
      ReadGreyText(r, e.name);
      assert e.name in SpecLabels(events) by { LabelsSnoc(events); }
      assert SpecLabels(events) + {e.name} == SpecLabels(events);
    }
  }

  /** One event keeps the run invariant, provided the file can take it. */
  lemma TracksStep(events: seq<Event>, r: Reader)
    requires events != [] && NamesQuoteFree(events) && Clean(events) && Tracks(Front(events), r)
    requires |events| == 1 ==> r == START
    ensures Tracks(events, Read(r, Written(Run(Front(events)), Last(events), |events| > 1)))
  {
    var e := Last(events);
    if e.IsNode() {
      WrittenSplit(events);
      ReadUpToName(events, r);
      ReadAppend(r, UpToName(events), AfterName(e));
      NamedTracks(events, Read(r, UpToName(events)));
    } else {
      SilentSnoc(events);
      LabelsSnoc(events);
    }
  }

  /** An event the file cannot take spoils the reading for good. */
  lemma SpoiledBy(events: seq<Event>, r: Reader)
    requires events != [] && NamesQuoteFree(events) && Clean(Front(events)) && !Sound(events)
    requires Tracks(Front(events), r)
    ensures Spoiled(Read(r, Written(Run(Front(events)), Last(events), |events| > 1)))
  {
    PrefixFacts(events);
    WrittenSplit(events);
    ReadAppend(r, UpToName(events), AfterName(Last(events)));
    SpoiledByName(events, r);
    SpoiledForever(Read(r, UpToName(events)), AfterName(Last(events)));
  }

  lemma SpoiledByName(events: seq<Event>, r: Reader)
    requires events != [] && Last(events).IsNode() && QuoteFree(Last(events).name)
    requires NamesQuoteFree(Front(events)) && Clean(Front(events)) && !Readable(Front(events), Last(events))
    requires Tracks(Front(events), r)
    ensures Spoiled(Read(r, UpToName(events)))
  {
    var e, p := Last(events), Front(events);
    var head := Lead(Run(p), |events| > 1);
    ReadAppend(r, head, NodeText(e.name));
    if p != [] && AllSilent(p) {
      assert !Run(p).ret && head == " -> ";
      ReadArrow(r);
      assert Spoiled(Read(r, head));
      SpoiledForever(Read(r, head), NodeText(e.name));
    } else {
      assert Read(r, head).mode.Between? by {
        if p == [] {
          assert head == "";
        } else {
          ReadLead(p, r);
        }
      }
      ReadNode(Read(r, head), e.name);
    }
  }
}
