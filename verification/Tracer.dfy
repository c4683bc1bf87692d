/**
 * One traced instruction after another: which words matter, the text each has printed, and the event of the call graph
 * that the text becomes.
 */
module Tracer {
  import opened Wrappers
  import opened Words
  import opened CStrings
  import opened Sdm
  import opened CallDecoder
  import opened DecoderProofs
  import opened DotReader
  import opened CallGraph
  import opened GraphReading
  import opened GraphFile
  import opened GraphWriter
  import opened LineSpec
  import opened LinkedList
  import opened SymbolTable
  import opened LibCache
  import opened Resolver

  // ----- classification

  const FAILURE := -1

  /** `instruction_is_ret` */
  function InstructionIsRet(word: Word): int {
    var t := word % TWO8;
    if t == 0xCA || t == 0xCB || t == 0xC2 || t == 0xC3 || t == 0xCF then t
    else if word % TWO16 == 0xC3F3 then t
    else FAILURE
  }

  /** `instruction_is_call`: a first filter, on the first byte alone. */
  function InstructionIsCall(word: Word): int {
    var t := word % TWO8;
    if t == 0xE8 || t == 0xFF || t == 0x9A || t == 0x41 then t else FAILURE
  }

  // ----- what the words are, by their bytes

  /** 0F 05 */
  predicate IsSyscall(word: Word) { ByteAt(word, 0) == 0x0F && ByteAt(word, 1) == 0x05 }

  /** The near and far returns, the return from an interrupt, and the near return behind a prefix F3. */
  predicate IsReturn(word: Word) {
    || ByteAt(word, 0) in {0xC2, 0xC3, 0xCA, 0xCB, 0xCF}
    || (ByteAt(word, 0) == 0xF3 && ByteAt(word, 1) == 0xC3)
  }

  predicate IsCall(word: Word) { IsRelativeCall(word) || IsIndirectCall(word) }

  /** The words for which `print_instruction` does anything: E8, FF, 9A and 41 pass whatever follows. */
  predicate Matches(word: Word) {
    IsSyscall(word) || IsReturn(word) || ByteAt(word, 0) in {0xE8, 0xFF, 0x9A, 0x41}
  }

  /** The masks and comparisons of the classification, on bytes. */
  lemma Classification(word: Word)
    ensures word % TWO16 == 0x050F <==> IsSyscall(word)
    ensures InstructionIsRet(word) != FAILURE <==> IsReturn(word)
    ensures InstructionIsCall(word) != FAILURE <==> ByteAt(word, 0) in {0xE8, 0xFF, 0x9A, 0x41}
  {
    LowBytes(word);
    LowWord(word);
  }

  /** The three kinds of word that print something exclude each other, and all of them match. */
  lemma KindsAreDisjoint(word: Word)
    ensures !(IsSyscall(word) && IsReturn(word)) && !(IsSyscall(word) && IsCall(word))
    ensures !(IsReturn(word) && IsCall(word))
    ensures IsCall(word) ==> Matches(word) && InstructionIsCall(word) != FAILURE
    ensures IsSyscall(word) ==> InstructionIsCall(word) == FAILURE
    ensures IsReturn(word) ==> InstructionIsCall(word) == FAILURE
  {
    Classification(word);
  }

  // ----- texts

  /**
   * What the printers left out of the model contribute: the operand text of a call, the value returned, and the
   * description of a syscall, if its number is known.
   */
  datatype Outputs = Outputs(call: string, rax: string, syscall: Option<string>)

  predicate Printable(o: Outputs) {
    NUL !in o.call && NUL !in o.rax && (o.syscall.Some? ==> NUL !in o.syscall.value)
  }

  function SyscallText(o: Outputs): string {
    if o.syscall.Some? then "@" + o.syscall.value + "\n" else "@"
  }

  function ReturnText(o: Outputs): string { ">>> return (0x" + o.rax + ")\n" }

  function CallText(o: Outputs, resolved: string): string { "call " + o.call + resolved }

  /** What the event of a printed text must be. */
  ghost predicate EventFits(word: Word, o: Outputs, e: Event) {
    if IsSyscall(word) then (if o.syscall.Some? then e.Syscall? else e.Call?)
    else if IsReturn(word) then e.Return?
    else if IsCall(word) then e.Call?
    else e.Silent?
  }

  lemma HeadOf(text: string, c: char)
    requires |text| >= 2 && text[0] == c && c != '"'
    ensures var e := EventOf(text);
            if c == '>' then e.Return? else if c == '@' then e.Syscall? else e.Call?
  {
    assert Requote(text[..|text| - 1])[0] == c;
  }

  /** A text cut at a NUL keeps what comes before it. */
  lemma {:induction false} CutKeepsHead(head: string, tail: string)
    requires NUL !in head
    ensures Text(head + tail) == head + Text(tail)
  {
    if head == "" {
      assert head + tail == tail;
    } else {
      assert forall c :: c in head[1..] ==> c in head;
      assert (head + tail)[1..] == head[1..] + tail;
      CutKeepsHead(head[1..], tail);
      assert head[0] in head;
    }
  }

  lemma WholeText(t: string)
    requires NUL !in t
    ensures Text(t) == t
  {
    assert t[..|t|] == t;
    StrLenUnique(t, |t|);
  }

  lemma SyscallEvent(o: Outputs)
    requires Printable(o)
    ensures var e := EventOf(Text(SyscallText(o))); if o.syscall.Some? then e.Syscall? else e == Call("")
  {
    var t := SyscallText(o);
    if o.syscall.Some? {
      assert NUL !in "@" && NUL !in "\n";
      WholeText(t);
      HeadOf(t, '@');
    } else {
      WholeText("@");
      assert "@"[..0] == "";
    }
  }

  lemma ReturnEvent(o: Outputs)
    ensures EventOf(Text(ReturnText(o))) == Return
  {
    var head := ">>> return (0x";
    CutKeepsHead(head, o.rax + ")\n");
    assert head + (o.rax + ")\n") == ReturnText(o);
    var t := Text(ReturnText(o));
    assert t[0] == t[..|head|][0];
    HeadOf(t, '>');
  }

  lemma CallEvent(o: Outputs, resolved: string)
    ensures EventOf(Text(CallText(o, resolved))).Call?
  {
    var head := "call ";
    CutKeepsHead(head, o.call + resolved);
    assert head + (o.call + resolved) == CallText(o, resolved);
    var t := Text(CallText(o, resolved));
    assert t[0] == t[..|head|][0];
    HeadOf(t, 'c');
  }

  // ----- runs over words

  /** One instruction that was traced: its word, what the printers contribute, and the text resolution adds. */
  datatype Traced = Traced(word: Word, outputs: Outputs, resolved: string)

  /** The text printed for an instruction. */
  function PrintedFor(i: Traced): string {
    if IsSyscall(i.word) then SyscallText(i.outputs)
    else if IsReturn(i.word) then ReturnText(i.outputs)
    else if IsCall(i.word) then CallText(i.outputs, i.resolved)
    else ""
  }

  function EventsOf(run: seq<Traced>): seq<Event> {
    if run == [] then []
    else
      var e := EventsOf(Front(run));
      if Matches(Last(run).word) then e + [EventOf(Text(PrintedFor(Last(run))))] else e
  }

  /** The name a call goes by. */
  function CallName(i: Traced): string
    requires IsCall(i.word)
  {
    CallEvent(i.outputs, i.resolved);
    EventOf(Text(CallText(i.outputs, i.resolved))).name
  }

  /** The stack the instructions themselves call for: a call pushes, a return pops, nothing else touches it. */
  function CallStack(run: seq<Traced>): seq<string> {
    if run == [] then []
    else
      var i, s := Last(run), CallStack(Front(run));
      if IsCall(i.word) then [CallName(i)] + s
      else if IsReturn(i.word) then (if s == [] then [] else s[1..])
      else s
  }

  ghost predicate AllPrintable(run: seq<Traced>) {
    forall i :: i in run ==> Printable(i.outputs)
  }

  /** The kind of event, by the kind of word alone; an unknown syscall passes for a call with an empty name. */
  lemma EventByWord(i: Traced)
    requires Printable(i.outputs)
    ensures EventFits(i.word, i.outputs, EventOf(Text(PrintedFor(i))))
    ensures IsSyscall(i.word) && i.outputs.syscall.None? ==> EventOf(Text(PrintedFor(i))) == Call("")
  {
    KindsAreDisjoint(i.word);
    if IsSyscall(i.word) {
      SyscallEvent(i.outputs);
    } else if IsReturn(i.word) {
      ReturnEvent(i.outputs);
    } else if IsCall(i.word) {
      CallEvent(i.outputs, i.resolved);
    } else {
      assert Text("") == "";
    }
  }

  /** What one instruction does to the stack of the call graph. */
  function Moved(s: seq<string>, i: Traced): seq<string> {
    if Matches(i.word) then StackAfter(s, EventOf(Text(PrintedFor(i)))) else s
  }

  /**
   * One instruction moves the stack as its kind demands if and only if it is not a syscall with an unknown number.
   */
  lemma MovesAsWordIff(s: seq<string>, i: Traced)
    requires Printable(i.outputs)
    ensures Moved(s, i) == (if IsCall(i.word) then [CallName(i)] + s
                            else if IsReturn(i.word) then (if s == [] then [] else s[1..])
                            else s)
            <==> !(IsSyscall(i.word) && i.outputs.syscall.None?)
  {
    KindsAreDisjoint(i.word);
    EventByWord(i);
    assert |[""] + s| != |s|;
  }

  predicate KnownSyscall(i: Traced) { IsSyscall(i.word) ==> i.outputs.syscall.Some? }

  ghost predicate StackAgrees(run: seq<Traced>) {
    CallGraph.Run(EventsOf(run)).stack == CallStack(run)
  }

  /** The stacks agree after every prefix of the run. */
  ghost predicate StacksAgree(run: seq<Traced>) {
    forall k :: 0 <= k <= |run| ==> StackAgrees(run[..k])
  }

  /** Over one more instruction: where the stacks agreed before, they agree after if and only if no unknown syscall. */
  lemma StackStepIff(run: seq<Traced>)
    requires run != [] && Printable(Last(run).outputs) && StackAgrees(Front(run))
    ensures StackAgrees(run) <==> KnownSyscall(Last(run))
  {
    var p, i := Front(run), Last(run);
    MovesAsWordIff(CallStack(p), i);
    KindsAreDisjoint(i.word);
    if Matches(i.word) {
      EventsSnoc(EventsOf(p), EventOf(Text(PrintedFor(i))));
    }
  }

  lemma AgreeSnoc(run: seq<Traced>)
    requires run != []
    ensures StacksAgree(run) <==> StacksAgree(Front(run)) && StackAgrees(run)
  {
    var p := Front(run);
    forall k | 0 <= k <= |p|
      ensures StackAgrees(run[..k]) <==> StackAgrees(p[..k])
    {
      assert run[..k] == p[..k];
    }
    assert run[..|run|] == run;
    if StacksAgree(p) && StackAgrees(run) {
      forall k | 0 <= k <= |run|
        ensures StackAgrees(run[..k])
      {
        if k < |run| {
          assert StackAgrees(p[..k]);
        }
      }
    }
  }

  /**
   * From instructions to the stack: all along a run it holds what calls and returns demand, if and only if every
   * syscall of the run is known.
   */
  lemma {:induction false} StackOfRunIff(run: seq<Traced>)
    requires AllPrintable(run)
    ensures StacksAgree(run) <==> forall i :: i in run ==> KnownSyscall(i)
  {
    if run != [] {
      var p, i := Front(run), Last(run);
      assert run == p + [i];
      assert i in run && forall x :: x in p ==> x in run;
      StackOfRunIff(p);
      AgreeSnoc(run);
      if StacksAgree(p) {
        assert p[..|p|] == p;
        StackStepIff(run);
      }
    }
  }

  /** A call and the return after it leave the stack of the call graph as it was, whatever was traced before. */
  lemma CallThenReturn(run: seq<Traced>, c: Traced, r: Traced)
    requires IsCall(c.word)
    requires r.word % 0x100 in {0xC2, 0xC3, 0xCA, 0xCB, 0xCF} || r.word % 0x1_0000 == 0xC3F3
    ensures CallGraph.Run(EventsOf(run + [c, r])).stack == CallGraph.Run(EventsOf(run)).stack
  {
    LowBytes(r.word);
    LowWord(r.word);
    CallIs(c);
    ReturnIs(r);
    assert run + [c, r] == run + [c] + [r];
    OneMore(run, c);
    OneMore(run + [c], r);
  }

  lemma CallIs(c: Traced)
    requires IsCall(c.word)
    ensures Matches(c.word) && EventOf(Text(PrintedFor(c))).Call?
  {
    KindsAreDisjoint(c.word);
    CallEvent(c.outputs, c.resolved);
  }

  lemma ReturnIs(r: Traced)
    requires IsReturn(r.word)
    ensures Matches(r.word) && EventOf(Text(PrintedFor(r))) == Return
  {
    KindsAreDisjoint(r.word);
    ReturnEvent(r.outputs);
  }

  /** One more instruction that matches is one more event. */
  lemma OneMore(run: seq<Traced>, i: Traced)
    requires Matches(i.word)
    ensures CallGraph.Run(EventsOf(run + [i])).stack
            == StackAfter(CallGraph.Run(EventsOf(run)).stack, EventOf(Text(PrintedFor(i))))
  {
    assert Front(run + [i]) == run && Last(run + [i]) == i;
    EventsSnoc(EventsOf(run), EventOf(Text(PrintedFor(i))));
  }

  // ----- the names of the nodes

  /** The node of a call is named by the operand and the name it resolved to, the newline at the end gone. */
  lemma CallNode(i: Traced, name: string)
    requires IsCall(i.word) && i.resolved == name + "\n" && NUL !in i.outputs.call && NUL !in name
    ensures EventOf(Text(PrintedFor(i))) == Call("call " + Requote(i.outputs.call + name))
  {
    KindsAreDisjoint(i.word);
    var t := "call " + (i.outputs.call + name);
    assert PrintedFor(i) == t + "\n";
    NamedEvent(t);
    RequoteHead("call ", i.outputs.call + name);
    assert Requote(t)[0] == 'c';
  }

  /** The node of a syscall is named by its description behind an at-sign. */
  lemma SyscallNode(i: Traced, name: string)
    requires IsSyscall(i.word) && i.outputs.syscall == Some(name) && NUL !in name
    ensures EventOf(Text(PrintedFor(i))) == Syscall("@" + Requote(name))
  {
    NamedEvent("@" + name);
    RequoteHead("@", name);
    assert Requote("@" + name)[0] == '@';
  }

  /** A printed text that a newline ends loses it, and its quotes. */
  lemma NamedEvent(t: string)
    requires NUL !in t
    ensures EventOf(Text(t + "\n")) == EventNamed(Requote(t))
  {
    assert NUL !in "\n";
    WholeText(t + "\n");
    assert (t + "\n")[..|t|] == t;
  }

  lemma RequoteHead(head: string, tail: string)
    requires '"' !in head
    ensures Requote(head + tail) == head + Requote(tail)
  {
    assert forall k :: 0 <= k < |head| ==> head[k] in head;
  }

  // ----- inputs that go wrong

  /** `syscall` with a number that is not known pushes an empty name, which no return will take back. */
  lemma UnknownSyscallPushed(i: Traced)
    requires i.word % 0x1_0000 == 0x050F && i.outputs.syscall.None?
    ensures CallGraph.Run(EventsOf([i])).stack == [""] && CallStack([i]) == []
  {
    Classification(i.word);
    KindsAreDisjoint(i.word);
    LoneAt(i.outputs);
    OneEvent(i);
    OneCall("");
    EventsSnoc([], Call(""));
    assert [] + [Call("")] == [Call("")];
    assert Front([i]) == [];
  }

  lemma LoneAt(o: Outputs)
    requires o.syscall.None?
    ensures EventOf(Text(SyscallText(o))) == Call("")
  {
    WholeText("@");
    assert "@"[..0] == "";
  }

  lemma OneEvent(i: Traced)
    requires Matches(i.word)
    ensures EventsOf([i]) == [EventOf(Text(PrintedFor(i)))]
  {
    assert Front([i]) == [] && Last([i]) == i;
    assert EventsOf([i]) == EventsOf([]) + [EventOf(Text(PrintedFor(i)))];
  }

  /** `push r15` passes the filter and prints nothing; the call after it is written behind an arrow without a source. */
  lemma ArrowWithoutSource(push: Traced, call: Traced)
    requires push.word % TWO16 == 0x5741 && call.word % TWO8 == 0xE8
    ensures var run := EventsOf([push, call]);
            !Sound(run) && !ReadsBack(CallGraph.Run(run).out + FOOTER, run)
  {
    Opcodes(push.word);
    LowWord(push.word);
    KindsAreDisjoint(push.word);
    assert EventOf(Text(PrintedFor(push))) == Silent by { assert Text("") == ""; }
    Opcodes(call.word);
    KindsAreDisjoint(call.word);
    CallEvent(call.outputs, call.resolved);
    var e := EventOf(Text(PrintedFor(call)));
    TwoEvents(push, call);
    SilentThenNode(e);
  }

  lemma TwoEvents(a: Traced, b: Traced)
    requires Matches(a.word) && Matches(b.word)
    ensures EventsOf([a, b]) == [EventOf(Text(PrintedFor(a))), EventOf(Text(PrintedFor(b)))]
  {
    assert Front([a, b]) == [a] && Last([a, b]) == b && Front([a]) == [] && Last([a]) == a;
    assert EventsOf([a]) == EventsOf([]) + [EventOf(Text(PrintedFor(a)))];
    assert EventsOf([a, b]) == EventsOf([a]) + [EventOf(Text(PrintedFor(b)))];
  }

  lemma SilentThenNode(e: Event)
    requires e.IsNode() && QuoteFree(e.name)
    ensures var run := [Silent, e]; !Sound(run) && !ReadsBack(CallGraph.Run(run).out + FOOTER, run)
  {
    var run := [Silent, e];
    assert run[..1] == [Silent] && AllSilent(run[..1]);
    assert !Readable(run[..1], run[1]);
    assert NamesQuoteFree(run);
    FileReadsBackIffClean(run);
  }

  lemma RunSnoc(events: seq<Event>, e: Event)
    ensures CallGraph.Run(events + [e]) == Step(CallGraph.Run(events), e, events != [])
  {
    assert Front(events + [e]) == events;
  }

  lemma EventsSnoc(events: seq<Event>, e: Event)
    ensures CallGraph.Run(events + [e]).stack == StackAfter(CallGraph.Run(events).stack, e)
  {
    RunSnoc(events, e);
    StepParts(CallGraph.Run(events), e, events != []);
  }

  lemma EventsQuoteFree(events: seq<Event>, text: string)
    ensures NamesQuoteFree(events) ==> NamesQuoteFree(events + [EventOf(text)])
  {
    var e := EventOf(text);
    assert forall x :: x in events + [e] ==> x in events || x == e;
  }

  // ----- the tracer

  class Tracer {
    const decoder: Decoder
    const resolver: SymbolResolver
    const writer: DotWriter
    var first: bool
    ghost var run: seq<Traced>

    ghost predicate Valid()
      reads this, writer, writer.list, writer.list.nodes
    {
      && decoder.Valid() && writer.Valid()
      && NamesQuoteFree(EventsOf(run))
      && first == (EventsOf(run) != [])
      && writer.State() == StateBefore(EventsOf(run))
    }

    constructor (decoder: Decoder, resolver: SymbolResolver)
      requires decoder.Valid()
      ensures Valid() && this.decoder == decoder && this.resolver == resolver && fresh(writer) && fresh(writer.list)
      ensures run == []
    {
      this.decoder := decoder;
      this.resolver := resolver;
      writer := new DotWriter();
      first := false;
      run := [];
    }

    /** `getinstruction`: what one matched instruction prints. */
    method GetInstruction(word: Word, regs: Regs, memory: Memory, o: Outputs,
        symbols: Option<Table>, maps: Option<int>)
      returns (printed: string, ghost resolved: string)
      requires decoder.Valid() && resolver.Valid() && memory(0) == UNREADABLE
      requires symbols.Some? ==> HasEnd(symbols.value.symbols)
      modifies decoder, resolver.reader, resolver.reader.repr, resolver.libs
      ensures decoder.Valid() && resolver.Valid() && fresh(resolver.reader.repr - old(resolver.reader.repr))
      ensures printed == PrintedFor(Traced(word, o, resolved))
      ensures IsCall(word) ==>
                Resolution(resolved, Site(Target(word, regs, memory), symbols, true), memory, maps,
                           resolver.hex, resolver.loader, old(resolver.reader.states))
    {
      KindsAreDisjoint(word);
      Classification(word);
      printed, resolved := "", "";
      if word % TWO16 == 0x050F {
        printed := "@";
        if o.syscall.Some? {
          printed := printed + o.syscall.value + "\n";
        }
      } else if InstructionIsRet(word) != FAILURE {
        printed := ">>> return (0x" + o.rax + ")\n";
      } else if InstructionIsCall(word) != FAILURE {
        var addr, isACall := decoder.PrintCall(word, regs, memory, 0);
        var text := resolver.ResolveSymbol(addr, symbols, isACall, memory, maps);
        resolved := text;
        printed := if isACall > 0 then "call " + o.call + text else text;
      }
    }

    /** Printing disturbs nothing of the call graph. */
    method Respond(word: Word, regs: Regs, memory: Memory, o: Outputs,
        symbols: Option<Table>, maps: Option<int>)
      returns (printed: string, ghost resolved: string)
      requires Valid() && resolver.Valid() && memory(0) == UNREADABLE
      requires symbols.Some? ==> HasEnd(symbols.value.symbols)
      modifies decoder, resolver.reader, resolver.reader.repr, resolver.libs
      ensures Valid() && resolver.Valid() && fresh(resolver.reader.repr - old(resolver.reader.repr))
      ensures printed == PrintedFor(Traced(word, o, resolved))
      ensures IsCall(word) ==>
                Resolution(resolved, Site(Target(word, regs, memory), symbols, true), memory, maps,
                           resolver.hex, resolver.loader, old(resolver.reader.states))
    {
      printed, resolved := GetInstruction(word, regs, memory, o, symbols, maps);
    }

    /** A word that matches: what it prints is recorded. */
    method Handle(word: Word, regs: Regs, memory: Memory, o: Outputs,
        symbols: Option<Table>, maps: Option<int>)
      returns (printed: string, ghost resolved: string)
      requires Valid() && resolver.Valid() && memory(0) == UNREADABLE && Matches(word)
      requires symbols.Some? ==> HasEnd(symbols.value.symbols)
      modifies this, writer, writer.list, decoder, resolver.reader, resolver.reader.repr, resolver.libs
      ensures Valid() && resolver.Valid() && fresh(resolver.reader.repr - old(resolver.reader.repr))
      ensures run == old(run) + [Traced(word, o, resolved)] && printed == PrintedFor(Traced(word, o, resolved))
      ensures IsCall(word) ==>
                Resolution(resolved, Site(Target(word, regs, memory), symbols, true), memory, maps,
                           resolver.hex, resolver.loader, old(resolver.reader.states))
    {
      printed, resolved := Respond(word, regs, memory, o, symbols, maps);
      Note(printed, Traced(word, o, resolved));
    }

    /**
     * `print_instruction`: a word that matches is printed and becomes one event of the call graph; any other word
     * leaves everything as it is. The file is opened, and its header written, at the first word that matches.
     */
    method PrintInstruction(word: Word, regs: Regs, memory: Memory, o: Outputs,
        symbols: Option<Table>, maps: Option<int>)
      returns (printed: string, ghost resolved: string)
      requires Valid() && resolver.Valid() && memory(0) == UNREADABLE
      requires symbols.Some? ==> HasEnd(symbols.value.symbols)
      modifies this, writer, writer.list, decoder, resolver.reader, resolver.reader.repr, resolver.libs
      ensures Valid() && resolver.Valid() && fresh(resolver.reader.repr - old(resolver.reader.repr))
      ensures run == old(run) + [Traced(word, o, resolved)] && printed == PrintedFor(Traced(word, o, resolved))
      ensures IsCall(word) ==>
                Resolution(resolved, Site(Target(word, regs, memory), symbols, true), memory, maps,
                           resolver.hex, resolver.loader, old(resolver.reader.states))
    {
      Classification(word);
      if !(word % TWO16 == 0x050F || InstructionIsRet(word) != FAILURE || InstructionIsCall(word) != FAILURE) {
        printed, resolved := "", "";
        Unmatched(Traced(word, o, resolved));
        return;
      }
      printed, resolved := Handle(word, regs, memory, o, symbols, maps);
    }

    /** A word that does not match leaves no trace. */
    ghost method Unmatched(i: Traced)
      requires Valid() && !Matches(i.word)
      modifies this`run
      ensures Valid() && run == old(run) + [i] && PrintedFor(i) == ""
    {
      KindsAreDisjoint(i.word);
      run := AddTraced(run, i);
    }

    /** A word that matches is recorded. */
    method Note(printed: string, ghost i: Traced)
      requires Valid() && resolver.Valid() && Matches(i.word) && printed == PrintedFor(i)
      modifies this`run, this`first, writer, writer.list
      ensures Valid() && resolver.Valid() && run == old(run) + [i]
    {
      Record(printed);
      Remember(i);
    }

    method Remember(ghost i: Traced)
      requires decoder.Valid() && writer.Valid() && resolver.Valid() && Matches(i.word) && NamesQuoteFree(EventsOf(run))
      requires writer.State() == CallGraph.Run(EventsOf(run) + [EventOf(Text(PrintedFor(i)))])
      modifies this`run, this`first
      ensures Valid() && resolver.Valid() && run == old(run) + [i]
    {
      run := AddTraced(run, i);
      first := true;
    }

    /** The printed text becomes an event. */
    method Record(printed: string)
      requires writer.Valid() && writer.State() == StateBefore(EventsOf(run)) && first == (EventsOf(run) != [])
      requires resolver.Valid()
      modifies writer, writer.list
      ensures writer.Valid() && writer.State() == CallGraph.Run(EventsOf(run) + [EventOf(Text(printed))])
      ensures resolver.Valid()
    {
      Open();
      RunSnoc(EventsOf(run), EventOf(Text(printed)));
      Write(printed);
    }

    /** The header goes in front of the first event. */
    method Open()
      requires writer.Valid() && writer.State() == StateBefore(EventsOf(run)) && first == (EventsOf(run) != [])
      modifies writer
      ensures writer.Valid() && writer.State() == CallGraph.Run(EventsOf(run))
    {
      if !first {
        assert "" + HEADER == HEADER;
        writer.Print(HEADER);
      }
    }

    method Write(printed: string)
      requires writer.Valid()
      modifies writer, writer.list
      ensures writer.Valid() && writer.State() == Step(old(writer.State()), EventOf(Text(printed)), first)
    {
      var buffer := Buffer(printed);
      if buffer[0] != NUL {
        var len := StrLenOf(buffer);
        writer.FormatDotfile(buffer, first, len);
      }
    }

    /**
     * The end of the run closes the graph: what the file then says is what the run was, exactly when it was clean.
     * Without a matched word there is no file, and the brace goes to descriptor 0.
     */
    method Finish() returns (file: Option<string>)
      requires Valid()
      modifies writer
      ensures file.None? <==> EventsOf(run) == []
      ensures file.Some? ==>
                && file.value == CallGraph.Run(EventsOf(run)).out + FOOTER
                && (ReadsBack(file.value, EventsOf(run)) <==> Clean(EventsOf(run)))
    {
      if !first {
        return None;
      }
      writer.Print(FOOTER);
      file := Some(writer.out);
      FileReadsBackIffClean(EventsOf(run));
    }
  }

  /** The state of the writer before the next event: nothing has been written before the first. */
  ghost function StateBefore(events: seq<Event>): CallGraph.Writer {
    if events == [] then CallGraph.Writer([], false, "") else CallGraph.Run(events)
  }

  ghost function AddTraced(run: seq<Traced>, i: Traced): (r: seq<Traced>)
    ensures r == run + [i]
    ensures EventsOf(r) == if Matches(i.word) then EventsOf(run) + [EventOf(Text(PrintedFor(i)))] else EventsOf(run)
    ensures NamesQuoteFree(EventsOf(run)) ==> NamesQuoteFree(EventsOf(r))
  {
    EventsQuoteFree(EventsOf(run), Text(PrintedFor(i)));
    assert Front(run + [i]) == run;
    run + [i]
  }

  /** The buffer that standard output fills while one instruction is handled. */
  method Buffer(printed: string) returns (b: array<char>)
    ensures fresh(b) && b.Length == |printed| + 1 && NUL in b[..]
    ensures b[..StrLen(b[..])] == Text(printed) && (b[0] == NUL <==> Text(printed) == "")
  {
    b := new char[|printed| + 1](i => if 0 <= i < |printed| then printed[i] else NUL);
    assert b[|printed|] in b[..];
    assert b[..] == printed + [NUL];
    var n := StrLen(printed);
    assert b[..n] == printed[..n] == b[..][..n];
    StrLenUnique(b[..], n);
  }

  /** Where a call goes, as the decoder has it. */
  function Target(word: Word, regs: Regs, memory: Memory): Word
    requires IsCall(word)
  {
    if IsRelativeCall(word) then RelativeTarget(word, regs) else Resolve(Decoded(word, regs), memory)
  }
}
