/**
 * What the file of any run says, whatever its names: a name is read as what it stands for between quotes. From this,
 * exactly when the file says what it must.
 */
module GraphFile {
  import opened Wrappers
  import opened CStrings
  import opened DotReader
  import opened CallGraph
  import opened GraphReading

  // ----- a run and what it is read as

  function AsRead(e: Event): Event {
    match e
    case Call(name) => Call(Meaning(name))
    case Syscall(name) => Syscall(Meaning(name))
    case _ => e
  }

  /** The run with every name replaced by what it stands for. */
  function RunAsRead(events: seq<Event>): (r: seq<Event>)
    ensures |r| == |events|
    ensures forall k :: 0 <= k < |r| ==> r[k] == AsRead(events[k])
  {
    if events == [] then [] else RunAsRead(Front(events)) + [AsRead(Last(events))]
  }

  function Meanings(stack: seq<string>): (r: seq<string>)
    ensures |r| == |stack|
    ensures forall k :: 0 <= k < |r| ==> r[k] == Meaning(stack[k])
  {
    if stack == [] then [] else [Meaning(stack[0])] + Meanings(stack[1..])
  }

  lemma TopAsRead(stack: seq<string>)
    ensures Top(Meanings(stack)) == Meaning(Top(stack))
  {
    UnknownIsWhole();
  }

  lemma StackStepAsRead(stack: seq<string>, e: Event)
    ensures StackAfter(Meanings(stack), AsRead(e)) == Meanings(StackAfter(stack, e))
  {
    if e.Call? {
      assert ([e.name] + stack)[1..] == stack;
    }
  }

  lemma FrontAsRead(events: seq<Event>)
    requires events != []
    ensures Front(RunAsRead(events)) == RunAsRead(Front(events)) && Last(RunAsRead(events)) == AsRead(Last(events))
  {
  }

  lemma StepParts(w: Writer, e: Event, first: bool)
    ensures Step(w, e, first).stack == StackAfter(w.stack, e)
    ensures Step(w, e, first).ret == if e.Silent? then w.ret else !e.Call?
  {
  }

  lemma RunParts(events: seq<Event>)
    requires events != []
    ensures Run(events).stack == StackAfter(Run(Front(events)).stack, Last(events))
    ensures Run(events).ret == if Last(events).Silent? then Run(Front(events)).ret else !Last(events).Call?
  {
    StepParts(Run(Front(events)), Last(events), |events| > 1);
  }

  lemma {:induction false} MachineAsRead(events: seq<Event>)
    ensures Run(RunAsRead(events)).stack == Meanings(Run(events).stack)
    ensures Run(RunAsRead(events)).ret == Run(events).ret
  {
    if events != [] {
      FrontAsRead(events);
      MachineAsRead(Front(events));
      StackStepAsRead(Run(Front(events)).stack, Last(events));
      RunParts(events);
      RunParts(RunAsRead(events));
    }
  }

  lemma SilentAsRead(events: seq<Event>)
    ensures AllSilent(RunAsRead(events)) <==> AllSilent(events)
  {
    var r := RunAsRead(events);
    assert forall k :: 0 <= k < |r| ==> r[k].Silent? == events[k].Silent?;
    if AllSilent(events) {
      assert forall k :: 0 <= k < |r| ==> events[k] in events;
    }
    if AllSilent(r) {
      assert forall k :: 0 <= k < |r| ==> r[k] in r;
    }
  }

  /** What a run is read as holds whole names only, and is sound if the run is. */
  lemma {:induction false} CleanAsRead(events: seq<Event>)
    requires NamesQuoteFree(events) && Sound(events)
    ensures NamesQuoteFree(RunAsRead(events)) && Clean(RunAsRead(events))
  {
    if events != [] {
      var p, e := Front(events), Last(events);
      PrefixFacts(events);
      CleanAsRead(p);
      SilentAsRead(p);
      if e.IsNode() {
        MeaningQuoteFree(e.name);
        MeaningWhole(e.name);
      }
      assert RunAsRead(events) == RunAsRead(p) + [AsRead(e)];
      PrefixFactsBack(RunAsRead(p), AsRead(e));
    }
  }

  lemma PrefixFactsBack(p: seq<Event>, e: Event)
    requires NamesQuoteFree(p) && Clean(p) && Readable(p, e)
    requires e.IsNode() ==> QuoteFree(e.name) && Whole(e.name)
    ensures NamesQuoteFree(p + [e]) && Clean(p + [e])
  {
    SoundSnoc(p, e);
    assert forall x :: x in p + [e] ==> x in p || x == e;
  }

  // ----- reading the text of a run is reading the text of what it is read as

  lemma NodeReadsAs(r: Reader, name: string)
    requires r.mode.Between? && QuoteFree(name) && !Escaped(name)
    ensures Read(r, NodeText(name)) == Read(r, NodeText(Meaning(name)))
  {
    ReadNode(r, name);
    MeaningQuoteFree(name);
    MeaningIsStable(name);
    ReadNode(r, Meaning(name));
  }

  /** Texts that are read alike stay so when a text is put in front of both. */
  lemma ReadPrefixed(r: Reader, head: string, a: string, b: string)
    requires Read(Read(r, head), a) == Read(Read(r, head), b)
    ensures Read(r, head + a) == Read(r, head + b)
  {
    ReadAppend(r, head, a);
    ReadAppend(r, head, b);
  }

  lemma ReadSuffixed(r: Reader, a: string, b: string, tail: string)
    requires Read(r, a) == Read(r, b)
    ensures Read(r, a + tail) == Read(r, b + tail)
  {
    ReadAppend(r, a, tail);
    ReadAppend(r, b, tail);
  }

  lemma LeadReadsAs(events: seq<Event>, r: Reader, first: bool)
    requires NamesQuoteFree(events) && Sound(events) && r.mode.Between?
    ensures Read(r, Lead(Run(events), first)) == Read(r, Lead(Run(RunAsRead(events)), first))
  {
    MachineAsRead(events);
    TopAsRead(Run(events).stack);
    if Run(events).ret {
      TopIsReadable(events);
      FreshChainReadsAs(r, Top(Run(events).stack), if first then " -> " else "");
    }
  }

  lemma FreshChainReadsAs(r: Reader, top: string, arrow: string)
    requires r.mode.Between? && QuoteFree(top) && !Escaped(top)
    ensures Read(r, "\n" + NodeText(top) + " " + arrow) == Read(r, "\n" + NodeText(Meaning(top)) + " " + arrow)
  {
    ReadSpace(r);
    NodeReadsAs(r, top);
    ReadPrefixed(r, "\n", NodeText(top), NodeText(Meaning(top)));
    ReadSuffixed(r, "\n" + NodeText(top), "\n" + NodeText(Meaning(top)), " ");
    ReadSuffixed(r, "\n" + NodeText(top) + " ", "\n" + NodeText(Meaning(top)) + " ", arrow);
  }

  function NodePart(e: Event): string
    requires e.IsNode()
  {
    NodeText(e.name) + AfterName(e)
  }

  lemma WrittenParts(w: Writer, e: Event, first: bool)
    requires e.IsNode()
    ensures Written(w, e, first) == Lead(w, first) + NodePart(e)
  {
    var head, node := Lead(w, first), NodeText(e.name);
    assert e.Syscall? ==> head + node + "\n" + node + GREY == head + (node + ("\n" + node + GREY));
  }

  /** Whatever the event, its text is read alike after the run and after what the run is read as. */
  lemma WrittenReadsAs(p: seq<Event>, e: Event, r: Reader, first: bool)
    requires NamesQuoteFree(p) && Sound(p) && r.mode.Between?
    ensures Read(r, Written(Run(p), e, first)) == Read(r, Written(Run(RunAsRead(p)), e, first))
  {
    if e.IsNode() {
      var w, w' := Run(p), Run(RunAsRead(p));
      LeadReadsAs(p, r, first);
      WrittenParts(w, e, first);
      WrittenParts(w', e, first);
      ReadSuffixed(r, Lead(w, first), Lead(w', first), NodePart(e));
    }
  }

  lemma NodePartReadsAs(e: Event, r: Reader)
    requires e.IsNode() && QuoteFree(e.name) && !Escaped(e.name) && r.mode.Between?
    ensures Read(r, NodePart(e)) == Read(r, NodePart(AsRead(e)))
  {
    var n, m := NodeText(e.name), NodeText(Meaning(e.name));
    NodeReadsAs(r, e.name);
    ReadSuffixed(r, n, m, AfterName(e));
    if e.Syscall? {
      ReadNode(r, e.name);
      var a := Read(r, n);
      NodeReadsAs(a, e.name);
      ReadSpace(a);
      ReadPrefixed(a, "\n", n, m);
      ReadSuffixed(a, "\n" + n, "\n" + m, GREY);
      ReadPrefixed(r, m, AfterName(e), AfterName(AsRead(e)));
    }
  }

  /** An event that can be read is read as the event its name stands for. */
  lemma EventReadsAs(w: Writer, e: Event, r: Reader, first: bool)
    requires e.IsNode() ==> QuoteFree(e.name) && !Escaped(e.name) && Read(r, Lead(w, first)).mode.Between?
    ensures Read(r, Written(w, e, first)) == Read(r, Written(w, AsRead(e), first))
  {
    if e.IsNode() {
      WrittenParts(w, e, first);
      WrittenParts(w, AsRead(e), first);
      NodePartReadsAs(e, Read(r, Lead(w, first)));
      ReadPrefixed(r, Lead(w, first), NodePart(e), NodePart(AsRead(e)));
    }
  }

  /** A lead-in that can be read leaves the reader ready for a name. */
  lemma LeadIsRead(p: seq<Event>, e: Event, r: Reader)
    requires NamesQuoteFree(p) && Clean(p) && Tracks(p, r) && Readable(p, e) && e.IsNode()
    ensures Read(r, Lead(Run(p), p != [])).mode.Between?
  {
    if p == [] {
      assert Lead(Run(p), false) == "";
    } else {
      ReadLead(p, r);
    }
  }

  lemma SoundStep(events: seq<Event>, r: Reader)
    requires events != [] && NamesQuoteFree(events) && Sound(events) && Tracks(RunAsRead(Front(events)), r)
    requires |events| == 1 ==> r == START
    ensures Tracks(RunAsRead(events), Read(r, Written(Run(Front(events)), Last(events), |events| > 1)))
  {
    var p, e := Front(events), Last(events);
    PrefixFacts(events);
    FrontAsRead(events);
    CleanAsRead(p);
    CleanAsRead(events);
    SilentAsRead(p);
    WrittenReadsAs(p, e, r, |events| > 1);
    if e.IsNode() {
      LeadIsRead(RunAsRead(p), e, r);
    }
    EventReadsAs(Run(RunAsRead(p)), e, r, |events| > 1);
    TracksStep(RunAsRead(events), r);
  }

  lemma UnsoundStep(events: seq<Event>, r: Reader)
    requires events != [] && NamesQuoteFree(events) && Sound(Front(events)) && !Sound(events)
    requires Tracks(RunAsRead(Front(events)), r)
    ensures Spoiled(Read(r, Written(Run(Front(events)), Last(events), |events| > 1)))
  {
    var p, e := Front(events), Last(events);
    var mixed := RunAsRead(p) + [e];
    PrefixFacts(events);
    CleanAsRead(p);
    SilentAsRead(p);
    WrittenReadsAs(p, e, r, |events| > 1);
    assert Front(mixed) == RunAsRead(p);
    assert forall x :: x in mixed ==> x in RunAsRead(p) || x == e;
    SoundSnoc(RunAsRead(p), e);
    SpoiledBy(mixed, r);
  }

  lemma {:induction false} ReadRun(events: seq<Event>)
    requires NamesQuoteFree(events)
    ensures var r := Read(START, Body(events)); if Sound(events) then Tracks(RunAsRead(events), r) else Spoiled(r)
  {
    if events != [] {
      var e, p := Last(events), Front(events);
      PrefixFacts(events);
      ReadRun(p);
      var r, t := Read(START, Body(p)), Written(Run(p), e, |events| > 1);
      ReadAppend(START, Body(p), t);
      if !Sound(p) {
        SpoiledForever(r, t);
      } else if Sound(events) {
        SoundStep(events, r);
      } else {
        UnsoundStep(events, r);
      }
    }
  }

  // ----- joined lines are lost

  function NodesSize(nodes: seq<string>): nat {
    if nodes == [] then 0 else NodesSize(nodes[..|nodes| - 1]) + |nodes[|nodes| - 1]|
  }

  function StmtSize(s: Stmt): nat {
    match s
    case Chain(nodes) => NodesSize(nodes)
    case Grey(name) => |name|
  }

  /** How many characters the names in the statements have. */
  function Size(stmts: seq<Stmt>): nat {
    if stmts == [] then 0 else Size(Front(stmts)) + StmtSize(Last(stmts))
  }

  lemma SizeSnoc(stmts: seq<Stmt>, s: Stmt)
    ensures Size(stmts + [s]) == Size(stmts) + StmtSize(s)
  {
    assert Front(stmts + [s]) == stmts;
  }

  lemma NodesSizeSnoc(nodes: seq<string>, name: string)
    ensures NodesSize(nodes + [name]) == NodesSize(nodes) + |name|
  {
    assert (nodes + [name])[..|nodes|] == nodes;
  }

  lemma SizeExtend(stmts: seq<Stmt>, name: string)
    ensures Size(Extend(stmts, name)) == Size(stmts) + |name|
  {
    if stmts != [] && Last(stmts).Chain? {
      NodesSizeSnoc(Last(stmts).nodes, name);
      SizeSnoc(Front(stmts), Chain(Last(stmts).nodes + [name]));
    } else {
      NodesSizeSnoc([], name);
      assert [] + [name] == [name];
      SizeSnoc(stmts, Chain([name]));
    }
  }

  /** How many characters one event adds. */
  function Added(p: seq<Event>, e: Event): nat {
    if !e.IsNode() then 0
    else (if Breaks(p) then |Top(Run(p).stack)| else 0) + |e.name| + (if e.Syscall? then |e.name| else 0)
  }

  lemma FreshChainSize(stmts: seq<Stmt>, top: string, name: string)
    ensures Size(stmts + [Chain([top, name])]) == Size(stmts) + |top| + |name|
  {
    SizeSnoc(stmts, Chain([top, name]));
    NodesSizeSnoc([], top);
    NodesSizeSnoc([top], name);
    assert [] + [top] == [top] && [top] + [name] == [top, name];
  }

  lemma WithNodeSize(events: seq<Event>)
    requires events != [] && Last(events).IsNode()
    ensures var p := Front(events);
            Size(WithNode(events))
            == Size(Statements(p)) + (if Breaks(p) then |Top(Run(p).stack)| else 0) + |Last(events).name|
  {
    var p := Front(events);
    SizeExtend(Statements(p), Last(events).name);
    FreshChainSize(Statements(p), Top(Run(p).stack), Last(events).name);
  }

  lemma StatementsSize(events: seq<Event>)
    requires events != []
    ensures Size(Statements(events)) == Size(Statements(Front(events))) + Added(Front(events), Last(events))
  {
    if Last(events).IsNode() {
      WithNodeSize(events);
      SizeSnoc(WithNode(events), Grey(Last(events).name));
      assert WithNode(events) + [] == WithNode(events);
    }
  }

  lemma NameAsRead(name: string)
    ensures |Meaning(name)| <= |name| && (JoinsLines(name) ==> |Meaning(name)| < |name|)
  {
    MeaningIsWhole(name);
  }

  lemma LeadAsRead(p: seq<Event>)
    ensures Breaks(RunAsRead(p)) == Breaks(p)
    ensures |Top(Run(RunAsRead(p)).stack)| <= |Top(Run(p).stack)|
  {
    RetIsBreaks(p);
    RetIsBreaks(RunAsRead(p));
    MachineAsRead(p);
    TopAsRead(Run(p).stack);
    NameAsRead(Top(Run(p).stack));
  }

  ghost predicate JoinsIn(e: Event) { e.IsNode() && JoinsLines(e.name) }

  lemma AddedAsRead(p: seq<Event>, e: Event)
    ensures Added(RunAsRead(p), AsRead(e)) <= Added(p, e)
    ensures JoinsIn(e) ==> Added(RunAsRead(p), AsRead(e)) < Added(p, e)
  {
    LeadAsRead(p);
    if e.IsNode() {
      NameAsRead(e.name);
    }
  }

  ghost predicate SomeNameJoins(events: seq<Event>) {
    exists e :: e in events && JoinsIn(e)
  }

  lemma SomeNameJoinsSnoc(events: seq<Event>)
    requires events != []
    ensures SomeNameJoins(events) ==> SomeNameJoins(Front(events)) || JoinsIn(Last(events))
  {
    assert events == Front(events) + [Last(events)];
  }

  /** Once a name joins lines, the file holds fewer characters than it must, whatever comes after. */
  lemma {:induction false} SizeAsRead(events: seq<Event>)
    ensures Size(Statements(RunAsRead(events))) <= Size(Statements(events))
    ensures SomeNameJoins(events) ==> Size(Statements(RunAsRead(events))) < Size(Statements(events))
  {
    if events != [] {
      SizeAsRead(Front(events));
      FrontAsRead(events);
      StatementsSize(events);
      StatementsSize(RunAsRead(events));
      AddedAsRead(Front(events), Last(events));
      SomeNameJoinsSnoc(events);
    }
  }

  /** Names that neither join lines nor end in a pending backslash are read as they are. */
  lemma CleanIsReadAsIs(events: seq<Event>)
    requires Clean(events)
    ensures RunAsRead(events) == events
  {
    forall k | 0 <= k < |events|
      ensures AsRead(events[k]) == events[k]
    {
      assert events[k] in events && Readable(events[..k], events[k]);
      if events[k].IsNode() {
        MeaningIsWhole(events[k].name);
      }
    }
  }

  // ----- main results

  /** Whatever its names, the file says what they stand for if and only if the run is sound. */
  lemma FileReadsIffSound(events: seq<Event>)
    requires NamesQuoteFree(events)
    ensures ReadFile(Run(events).out + FOOTER) == Some(Statements(RunAsRead(events))) <==> Sound(events)
  {
    ReadWhole(events);
    ReadRun(events);
    if !Sound(events) {
      QuoteFreeAsRead(events);
      StatementsQuoteFree(RunAsRead(events));
    }
  }

  lemma SameMeaningOfClean(events: seq<Event>)
    requires NamesQuoteFree(events) && Clean(events)
    ensures SameMeaning(Statements(events), events)
  {
    ReadRun(events);
    CleanIsReadAsIs(events);
  }

  /**
   * Main result. Read back from its text, the file of a run holds exactly the statements it must, which mean one edge
   * per call or syscall other than the first event, each from the call in progress at that moment, in order, and a
   * mark per syscall, if and only if the run is sound and no name joins lines.
   */
  lemma FileReadsBackIffClean(events: seq<Event>)
    requires NamesQuoteFree(events)
    ensures ReadsBack(Run(events).out + FOOTER, events) <==> Clean(events)
    ensures ReadFile(Run(events).out + FOOTER) == Some(Statements(events)) <==> Clean(events)
  {
    if Clean(events) {
      FileReadsIffSound(events);
      CleanIsReadAsIs(events);
      SameMeaningOfClean(events);
    } else if Sound(events) {
      FileReadsIffSound(events);
      SizeAsRead(events);
    } else {
      UnsoundIsNotRead(events);
    }
  }

  lemma UnsoundIsNotRead(events: seq<Event>)
    requires NamesQuoteFree(events) && !Sound(events)
    ensures ReadFile(Run(events).out + FOOTER) != Some(Statements(events))
  {
    ReadWhole(events);
    ReadRun(events);
    StatementsQuoteFree(events);
  }

  lemma QuoteFreeAsRead(events: seq<Event>)
    requires NamesQuoteFree(events)
    ensures NamesQuoteFree(RunAsRead(events))
  {
    var r := RunAsRead(events);
    forall k | 0 <= k < |r| && r[k].IsNode()
      ensures QuoteFree(r[k].name)
    {
      assert events[k] in events;
      MeaningQuoteFree(events[k].name);
    }
  }

  lemma ExtendLabels(stmts: seq<Stmt>, name: string)
    ensures Labels(Extend(stmts, name)) == Labels(stmts) + {name}
  {
    AddNodeLabels(Reader(stmts, true, Between), name);
    assert AddNode(Reader(stmts, true, Between), name).stmts == Extend(stmts, name);
  }

  lemma AppendLabels(stmts: seq<Stmt>, s: Stmt)
    ensures Labels(stmts + [s]) == Labels(stmts) + StmtLabels(s)
  {
    assert (stmts + [s])[..|stmts|] == stmts;
  }

  lemma {:induction false} StatementsQuoteFree(events: seq<Event>)
    requires NamesQuoteFree(events)
    ensures !HasQuote(Statements(events))
  {
    if events != [] {
      var p, e := Front(events), Last(events);
      PrefixFacts(events);
      StatementsQuoteFree(p);
      if e.IsNode() {
        var top := Top(Run(p).stack);
        TopQuoteFree(p);
        ExtendLabels(Statements(p), e.name);
        AppendLabels(Statements(p), Chain([top, e.name]));
        AppendLabels(WithNode(events), Grey(e.name));
        assert WithNode(events) + [] == WithNode(events);
        assert Labels(Statements(events)) <= Labels(Statements(p)) + {top, e.name};
      }
    }
  }

  // ----- a run written out

  /** The text of the file, from its first character to its last, for a run with an event of every kind. */
  lemma TextOfRun(a: string, b: string, c: string)
    ensures Run([Call(a), Return, Call(b), Syscall(c), Call(a)]).out + FOOTER ==
            "digraph ftrace {\n" + "bgcolor=azure;\n"
            + " node [shape=box, color=lightblue2, style=filled];\n" + " edge [arrowsize=1, color=red];\n"
            + "\"" + a + "\""
            + "\n\"" + "U n K" + "\"  -> \"" + b + "\""
            + " -> \"" + c + "\"\n\"" + c + "\" [color=grey]"
            + "\n\"" + b + "\"  -> \"" + a + "\""
            + "}\n"
  {
    var w0 := Writer([], false, HEADER);
    var w1, w2 := Step(w0, Call(a), false), Step(Step(w0, Call(a), false), Return, true);
    var w3, w4 := Step(w2, Call(b), true), Step(Step(w2, Call(b), true), Syscall(c), true);
    FirstCallText(w0, a);
    ReturnText(w1, a);
    FreshCallText(w2, b);
    SyscallText(w3, c);
    FreshCallText(w4, a);
    RunOfFive(Call(a), Return, Call(b), Syscall(c), Call(a));
  }

  lemma RunOfFive(a: Event, b: Event, c: Event, d: Event, e: Event)
    ensures Run([a, b, c, d, e]) ==
            Step(Step(Step(Step(Step(Writer([], false, HEADER), a, false), b, true), c, true), d, true), e, true)
  {
    assert [] + [a] == [a] && [a] + [b] == [a, b] && [a, b] + [c] == [a, b, c];
    assert [a, b, c] + [d] == [a, b, c, d] && [a, b, c, d] + [e] == [a, b, c, d, e];
    RunStep([], a);
    RunStep([a], b);
    RunStep([a, b], c);
    RunStep([a, b, c], d);
    RunStep([a, b, c, d], e);
  }

  lemma RunStep(p: seq<Event>, e: Event)
    ensures Run(p + [e]) == Step(Run(p), e, p != [])
  {
    assert Front(p + [e]) == p;
  }

  lemma ReturnText(w: Writer, name: string)
    requires w.stack == [name]
    ensures Step(w, Return, true) == Writer([], true, w.out)
  {
    assert [name][1..] == [] && w.out + "" == w.out;
  }

  lemma FirstCallText(w: Writer, name: string)
    requires !w.ret
    ensures Step(w, Call(name), false) == Writer([name] + w.stack, false, w.out + "\"" + name + "\"")
  {
    Assoc(w.out, "\"", name);
    Assoc(w.out, "\"" + name, "\"");
    assert "" + NodeText(name) == NodeText(name);
  }

  lemma FreshCallText(w: Writer, name: string)
    requires w.ret
    ensures Step(w, Call(name), true)
            == Writer([name] + w.stack, false, w.out + "\n\"" + Top(w.stack) + "\"  -> \"" + name + "\"")
  {
    var top := Top(w.stack);
    assert Written(w, Call(name), true) == "\n\"" + top + "\"  -> \"" + name + "\"";
    assert w.out + ("\n\"" + top + "\"  -> \"" + name + "\"") == w.out + "\n\"" + top + "\"  -> \"" + name + "\"";
  }

  lemma SyscallText(w: Writer, name: string)
    requires !w.ret
    ensures Step(w, Syscall(name), true)
            == Writer(w.stack, true, w.out + " -> \"" + name + "\"\n\"" + name + "\" [color=grey]")
  {
    assert Written(w, Syscall(name), true) == " -> \"" + name + "\"\n\"" + name + "\" [color=grey]";
    assert w.out + (" -> \"" + name + "\"\n\"" + name + "\" [color=grey]")
           == w.out + " -> \"" + name + "\"\n\"" + name + "\" [color=grey]";
  }

  // ----- inputs for which the file does not say what it must

  /** A backslash at the end of a name takes the closing quote into the name, and the file cannot be read. */
  lemma ClosingQuoteTaken()
    ensures var run := [Call("a\\")];
            !Sound(run) && !ReadsBack(Run(run).out + FOOTER, run)
  {
    assert "a\\"[..1] == "a" && Escaped("a\\");
    OneCall("a\\");
    FileReadsBackIffClean([Call("a\\")]);
  }

  const TWO_LINES := "a\\\nb"

  lemma TwoLinesJoin()
    ensures Meaning(TWO_LINES) == "ab" && !Escaped(TWO_LINES) && JoinsLines(TWO_LINES) && QuoteFree(TWO_LINES)
  {
    var name := TWO_LINES;
    assert name[..3] == "a\\\n" && name[..3][..2] == "a\\" && name[..3][..2][..1] == "a";
    assert Meaning("a") == "a" && Escaped("a\\") && !Escaped(name[..3]);
    assert Meaning(name[..3]) == "a";
    assert name[2] == '\n' && Escaped(name[..2]);
  }

  lemma OneCall(name: string)
    ensures var run := [Call(name)];
            && RunAsRead(run) == [Call(Meaning(name))] && Statements(run) == [Chain([name])]
            && (Sound(run) <==> !Escaped(name)) && (Clean(run) <==> Whole(name))
            && (QuoteFree(name) ==> NamesQuoteFree(run))
  {
    var run := [Call(name)];
    OneCallStatements(run, name);
    assert Readable([], run[0]) <==> !Escaped(name);
    SoundSnoc([], run[0]);
    assert [] + [run[0]] == run;
    assert run[0] in run;
  }

  lemma OneCallStatements(run: seq<Event>, name: string)
    requires run == [Call(name)]
    ensures Statements(run) == [Chain([name])]
  {
    assert Front(run) == [] && Last(run) == Call(name);
    assert Statements(run) == WithNode(run) + [];
    assert WithNode(run) == Extend([], name);
  }

  /** A backslash before a newline inside a name joins the two lines, and another name is read. */
  lemma NewlineLost()
    ensures var run := [Call(TWO_LINES)];
            && Sound(run) && !ReadsBack(Run(run).out + FOOTER, run)
            && ReadFile(Run(run).out + FOOTER) == Some([Chain(["ab"])])
  {
    TwoLinesJoin();
    OneCall(TWO_LINES);
    OneCall("ab");
    FileReadsBackIffClean([Call(TWO_LINES)]);
    FileReadsIffSound([Call(TWO_LINES)]);
  }
}
