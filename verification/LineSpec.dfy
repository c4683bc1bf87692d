/**
 * Reading lines from several descriptors, as a machine on values: per descriptor, the text kept so far and the answers
 * that `read` has still to give. The theorems relate the lines it returns to the bytes it was given.
 */
module LineSpec {
  import opened Wrappers
  import opened CStrings

  const BUF_SIZE: nat := 42
  const NL: char := '\n'

  /** One answer of `read`: an error, or bytes; no bytes means end of file. */
  datatype Answer = Failed | Data(bytes: string)

  predicate Fits(a: Answer) { a.Data? ==> |a.bytes| <= BUF_SIZE }

  /** The kept text, empty when there is none, and the answers to come, followed by ends of file for ever. */
  datatype FdState = FdState(pending: string, answers: seq<Answer>)

  const FRESH := FdState("", [])

  predicate EndsLine(s: string) { s != "" && s[|s| - 1] == NL }

  /** A short chunk that does not end its line gets a newline; an end of file becomes a lone newline. */
  function Closed(c: string): string {
    if |c| >= BUF_SIZE || EndsLine(c) then c else c + [NL]
  }

  /** What reaches the kept text from one chunk: up to its first NUL. */
  function Delivered(c: string): string { Text(Closed(c)) }

  function Find(s: string, c: char): (n: nat)
    ensures n <= |s|
    ensures c !in s[..n]
    ensures n < |s| ==> s[n] == c
    ensures n < |s| <==> c in s
  {
    if s == "" || s[0] == c then 0
    else
      var n := 1 + Find(s[1..], c);
      assert s[..n] == [s[0]] + s[1..][..n - 1] && s == [s[0]] + s[1..];
      n
  }

  function NextAnswer(answers: seq<Answer>): Answer {
    if answers == [] then Data("") else answers[0]
  }

  function Rest(answers: seq<Answer>): seq<Answer> {
    if answers == [] then [] else answers[1..]
  }

  /** One pass of the read loop: whether to go on, and the state after it. */
  function Pass(st: FdState): (bool, FdState) {
    match NextAnswer(st.answers)
    case Failed => (false, FdState(st.pending, Rest(st.answers)))
    case Data(c) => (c != "" || st.pending != "", FdState(st.pending + Delivered(c), Rest(st.answers)))
  }

  /** One call of `get_next_line`: the line, if any, and the state after it. */
  function Next(st: FdState): (Option<string>, FdState)
    decreases |st.answers|, if NL in st.pending then 0 else 1
  {
    if NL in st.pending then
      var n := Find(st.pending, NL);
      (Some(st.pending[..n]), FdState(st.pending[n + 1..], st.answers))
    else
      var (more, st1) := Pass(st);
      if more then
        DeliveredEof();
        Next(st1)
      else (None, st1)
  }

  lemma DeliveredEof()
    ensures Delivered("") == [NL]
  {
    StrLenUnique([NL], 1);
  }

  /** A returned line uses up an answer, or text that was already kept. */
  lemma {:induction false} NextShrinks(st: FdState)
    requires Next(st).0.Some?
    ensures var st' := Next(st).1;
            |st'.answers| < |st.answers| || (st'.answers == st.answers && |st'.pending| < |st.pending|)
    decreases |st.answers|, if NL in st.pending then 0 else 1
  {
    DeliveredEof();
    if NL !in st.pending {
      var c := NextAnswer(st.answers).bytes;
      var st1 := FdState(st.pending + Delivered(c), Rest(st.answers));
      NextShrinks(st1);
      if st.answers == [] {
        assert Find(st1.pending, NL) == |st.pending|;
      }
    }
  }

  /** The lines returned before the first NULL. */
  function Lines(st: FdState): seq<string>
    decreases |st.answers|, |st.pending|
  {
    var (line, st') := Next(st);
    match line
    case None => []
    case Some(l) =>
      NextShrinks(st);
      [l] + Lines(st')
  }

  // ----- the reference: cutting delivered text at its newlines

  function CompleteLines(text: string): seq<string> {
    if NL in text then
      var n := Find(text, NL);
      [text[..n]] + CompleteLines(text[n + 1..])
    else []
  }

  predicate Partial(s: string) { s != "" && !EndsLine(s) }

  /**
   * All text the answers bring before an error or an end of file at the start of a line; partial says whether a line
   * is begun. An end of file in the middle of a line only closes that line.
   */
  function Delivery(answers: seq<Answer>, partial: bool): string {
    if answers == [] then (if partial then [NL] else "")
    else
      match answers[0]
      case Failed => ""
      case Data(c) =>
        if c == "" then (if partial then [NL] + Delivery(answers[1..], false) else "")
        else
          var e := Delivered(c);
          e + Delivery(answers[1..], if e == "" then partial else !EndsLine(e))
  }

  /** All text the descriptor has still to return. */
  function Pool(st: FdState): string {
    st.pending + Delivery(st.answers, Partial(st.pending))
  }

  lemma {:induction false} FindUnique(s: string, n: nat)
    requires n < |s| && s[n] == NL && NL !in s[..n]
    ensures Find(s, NL) == n
  {
    if n > 0 {
      assert s[0] in s[..n] && s[..n][1..] == s[1..][..n - 1];
      FindUnique(s[1..], n - 1);
    }
  }

  lemma PartialAppend(a: string, b: string)
    ensures Partial(a + b) == if b == "" then Partial(a) else !EndsLine(b)
  {
    if b == "" {
      assert a + b == a;
    } else {
      assert (a + b)[|a + b| - 1] == b[|b| - 1];
    }
  }

  lemma DeliveryStep(answers: seq<Answer>, partial: bool)
    requires NextAnswer(answers).Data? && (NextAnswer(answers).bytes != "" || partial)
    ensures var e := Delivered(NextAnswer(answers).bytes);
            Delivery(answers, partial) == e + Delivery(Rest(answers), if e == "" then partial else !EndsLine(e))
  {
    DeliveredEof();
    if answers == [] {
      assert Delivery([], false) == "";
    }
  }

  /** Taking one answer moves its text from the stream to the kept text and loses nothing. */
  lemma PoolRead(st: FdState)
    requires NL !in st.pending && NextAnswer(st.answers).Data?
    requires !(NextAnswer(st.answers).bytes == "" && st.pending == "")
    ensures Pool(st) == Pool(FdState(st.pending + Delivered(NextAnswer(st.answers).bytes), Rest(st.answers)))
  {
    var e := Delivered(NextAnswer(st.answers).bytes);
    PartialAppend(st.pending, e);
    assert Partial(st.pending) <==> st.pending != "";
    DeliveryStep(st.answers, Partial(st.pending));
    Assoc(st.pending, e, Delivery(Rest(st.answers), Partial(st.pending + e)));
  }

  lemma PoolLine(st: FdState)
    requires NL in st.pending
    ensures var n := Find(st.pending, NL);
            Pool(st) == st.pending[..n] + [NL] + Pool(FdState(st.pending[n + 1..], st.answers))
  {
    var n := Find(st.pending, NL);
    var p, q := st.pending, st.pending[n + 1..];
    assert p == p[..n] + [NL] + q;
    PartialAppend(p[..n] + [NL], q);
    assert Partial(p) == Partial(q);
    Assoc(p[..n] + [NL], q, Delivery(st.answers, Partial(q)));
  }

  /** Nothing complete is left when a call returns NULL: at an error, or at an end of file with no line begun. */
  lemma PoolEnd(st: FdState)
    requires NL !in st.pending
    requires NextAnswer(st.answers) == Failed || (NextAnswer(st.answers) == Data("") && st.pending == "")
    ensures NL !in Pool(st)
  {
    assert Delivery(st.answers, Partial(st.pending)) == "";
  }

  /** Conservation: a call that returns a line takes exactly that line and its newline from what is left to return. */
  lemma {:induction false} NextConserves(st: FdState)
    ensures var (line, st') := Next(st);
            if line.Some? then NL !in line.value && Pool(st) == line.value + [NL] + Pool(st') else NL !in Pool(st)
    decreases |st.answers|, if NL in st.pending then 0 else 1
  {
    if NL in st.pending {
      PoolLine(st);
    } else if NextAnswer(st.answers).Failed? || (NextAnswer(st.answers).bytes == "" && st.pending == "") {
      PoolEnd(st);
    } else {
      DeliveredEof();
      PoolRead(st);
      NextConserves(FdState(st.pending + Delivered(NextAnswer(st.answers).bytes), Rest(st.answers)));
    }
  }

  lemma CutFirst(l: string, rest: string)
    requires NL !in l
    ensures CompleteLines(l + [NL] + rest) == [l] + CompleteLines(rest)
  {
    var t := l + [NL] + rest;
    assert t[|l|] == NL && t[..|l|] == l && t[|l| + 1..] == rest;
    FindUnique(t, |l|);
  }

  /** Main result: whatever the answers and the text kept, the lines before the first NULL are the split of it all. */
  lemma {:induction false} LinesAreSplit(st: FdState)
    ensures Lines(st) == CompleteLines(Pool(st))
    decreases |st.answers|, |st.pending|
  {
    NextConserves(st);
    var (line, st') := Next(st);
    if line.Some? {
      NextShrinks(st);
      LinesAreSplit(st');
      CutFirst(line.value, Pool(st'));
    }
  }

  /** Of what ends a call without a line, an end of file at the start of a line comes before any error. */
  predicate EofFirst(answers: seq<Answer>, pending: string) {
    if answers == [] then true
    else
      match answers[0]
      case Failed => false
      case Data(c) => (c == "" && pending == "") || EofFirst(answers[1..], pending + Delivered(c))
  }

  /**
   * A call that ends without a line leaves a newline behind, and the next call answers with an empty line, if and only
   * if it was an end of file that ended it. After an error the text kept is what had been read.
   */
  lemma {:induction false} EmptyLineAfterNullIff(st: FdState)
    requires Next(st).0.None?
    ensures Next(st).1.pending == [NL] && Next(Next(st).1).0 == Some("") <==> EofFirst(st.answers, st.pending)
    ensures !EofFirst(st.answers, st.pending) ==> NL !in Next(st).1.pending
    decreases |st.answers|, if NL in st.pending then 0 else 1
  {
    DeliveredEof();
    if NextAnswer(st.answers).Data? {
      var c := NextAnswer(st.answers).bytes;
      if c != "" || st.pending != "" {
        EmptyLineAfterNullIff(FdState(st.pending + Delivered(c), Rest(st.answers)));
      } else {
        assert Find([NL], NL) == 0;
      }
    }
  }

  /** A descriptor at its end: one NULL, then an empty line nobody wrote, then NULL again. */
  lemma EmptyFileGivesLine()
    ensures Next(FRESH) == (None, FdState([NL], []))
    ensures Next(Next(FRESH).1) == (Some(""), FRESH)
  {
    DeliveredEof();
    assert "" + [NL] == [NL];
    assert Find([NL], NL) == 0;
  }

  // ----- a regular file

  /** The answers a regular file gives: full buffers, then what is left. */
  function Chunks(content: string): seq<Answer> {
    if content == "" then []
    else if |content| <= BUF_SIZE then [Data(content)]
    else [Data(content[..BUF_SIZE])] + Chunks(content[BUF_SIZE..])
  }

  lemma ClosedIsDelivered(c: string)
    requires NUL !in c
    ensures Delivered(c) == Closed(c)
  {
    var b := Closed(c);
    assert NUL !in b;
    assert b[..|b|] == b;
    StrLenUnique(b, |b|);
  }

  function Closing(content: string, partial: bool): string {
    if (if content == "" then partial else !EndsLine(content)) then [NL] else ""
  }

  lemma LastChunk(content: string, partial: bool)
    requires NUL !in content && 0 < |content| <= BUF_SIZE
    ensures Delivery([Data(content)], partial) == content + Closing(content, partial)
  {
    ClosedIsDelivered(content);
    var e := Delivered(content);
    assert Delivery([], !EndsLine(e)) == if EndsLine(e) then "" else [NL];
    assert [Data(content)][1..] == [];
  }

  lemma {:induction false} ChunksDeliver(content: string, partial: bool)
    requires NUL !in content
    ensures Delivery(Chunks(content), partial) == content + Closing(content, partial)
    decreases |content|
  {
    if 0 < |content| <= BUF_SIZE {
      LastChunk(content, partial);
    } else if content != "" {
      var head, tail := content[..BUF_SIZE], content[BUF_SIZE..];
      assert content == head + tail;
      assert forall c :: c in head || c in tail ==> c in content;
      ClosedIsDelivered(head);
      OneChunk(head, Chunks(tail), partial);
      ChunksDeliver(tail, !EndsLine(head));
      assert Closing(content, partial) == Closing(tail, !EndsLine(head));
      Assoc(head, tail, Closing(content, partial));
    }
  }

  lemma OneChunk(c: string, rest: seq<Answer>, partial: bool)
    requires c != "" && Delivered(c) == Closed(c)
    ensures Delivery([Data(c)] + rest, partial) == Closed(c) + Delivery(rest, !EndsLine(Closed(c)))
  {
    assert ([Data(c)] + rest)[1..] == rest;
  }

  function WithFinalNewline(content: string): string {
    if Partial(content) then content + [NL] else content
  }

  lemma FilePool(content: string)
    requires NUL !in content
    ensures Pool(FdState("", Chunks(content))) == WithFinalNewline(content)
  {
    ChunksDeliver(content, false);
    assert content + "" == content;
  }

  /** A regular file comes back line by line, its last line closed if it was not. */
  lemma FileLines(content: string)
    requires NUL !in content
    ensures Lines(FdState("", Chunks(content))) == CompleteLines(WithFinalNewline(content))
  {
    LinesAreSplit(FdState("", Chunks(content)));
    FilePool(content);
  }

  // ----- any schedule of reads

  /** A schedule of reads: no error, no end of file, no more bytes than were asked for, no NUL. */
  ghost predicate IsSchedule(chunks: seq<string>) {
    forall c :: c in chunks ==> 0 < |c| <= 42 && '\0' !in c
  }

  function Answers(chunks: seq<string>): seq<Answer> {
    if chunks == [] then [] else [Data(chunks[0])] + Answers(chunks[1..])
  }

  /** The chunks one after the other, where each of fewer than 42 bytes that ends no line gains a newline. */
  function Gained(chunks: seq<string>): string {
    if chunks == [] then ""
    else
      var c := chunks[0];
      c + (if |c| < 42 && c != "" && c[|c| - 1] != '\n' then "\n" else "") + Gained(chunks[1..])
  }

  /** The text with a newline at its end, unless it is empty or has one. */
  function Ended(text: string): string {
    if text != "" && text[|text| - 1] != '\n' then text + "\n" else text
  }

  /** Whatever sizes the reads come in, the lines are the split of the chunks with the newlines gained. */
  lemma ScheduleLines(chunks: seq<string>)
    requires IsSchedule(chunks)
    ensures Lines(FdState("", Answers(chunks))) == CompleteLines(Ended(Gained(chunks)))
  {
    LinesAreSplit(FdState("", Answers(chunks)));
    SchedulePool(chunks);
  }

  lemma SchedulePool(chunks: seq<string>)
    requires IsSchedule(chunks)
    ensures Pool(FdState("", Answers(chunks))) == Ended(Gained(chunks))
  {
    ScheduleDelivers(chunks, false);
    EndedIs(Gained(chunks));
    var d := Delivery(Answers(chunks), false);
    assert "" + d == d;
  }

  lemma EndedIs(text: string)
    ensures text + Closing(text, false) == Ended(text)
  {
    assert text + "" == text;
  }

  lemma {:induction false} ScheduleDelivers(chunks: seq<string>, partial: bool)
    requires IsSchedule(chunks)
    ensures Delivery(Answers(chunks), partial) == Gained(chunks) + Closing(Gained(chunks), partial)
  {
    if chunks != [] {
      var c, rest := chunks[0], chunks[1..];
      var e := Closed(c);
      assert c in chunks && forall x :: x in rest ==> x in chunks;
      ScheduleDelivers(rest, !EndsLine(e));
      ClosedIsDelivered(c);
      OneChunk(c, Answers(rest), partial);
      GainedStep(chunks);
      ClosingAppend(e, Gained(rest), partial);
      Assoc(e, Gained(rest), Closing(Gained(rest), !EndsLine(e)));
    }
  }

  lemma GainedStep(chunks: seq<string>)
    requires IsSchedule(chunks) && chunks != []
    ensures Gained(chunks) == Closed(chunks[0]) + Gained(chunks[1..])
  {
    assert chunks[0] in chunks;
    assert chunks[0] + "" == chunks[0];
  }

  lemma ClosingAppend(e: string, rest: string, partial: bool)
    requires e != ""
    ensures Closing(e + rest, partial) == Closing(rest, !EndsLine(e))
  {
    if rest == "" {
      assert e + rest == e;
    }
  }

  // ----- the split of a text

  function Joined(lines: seq<string>): string {
    if lines == [] then "" else lines[0] + "\n" + Joined(lines[1..])
  }

  /** The split has no newline in a line, and with one after each line gives back the text up to its last newline. */
  lemma SplitIs(text: string) returns (rest: string)
    ensures text == Joined(CompleteLines(text)) + rest && '\n' !in rest
    ensures forall l :: l in CompleteLines(text) ==> '\n' !in l
  {
    rest := SplitRejoins(text);
    SplitClean(text);
  }

  lemma SplitHead(text: string)
    requires NL in text
    ensures CompleteLines(text) == [text[..Find(text, NL)]] + CompleteLines(text[Find(text, NL) + 1..])
  {
  }

  lemma AroundNewline(text: string, n: nat)
    requires n < |text| && text[n] == NL
    ensures text == text[..n] + [NL] + text[n + 1..]
  {
  }

  lemma {:induction false} SplitRejoins(text: string) returns (rest: string)
    ensures text == Joined(CompleteLines(text)) + rest && NL !in rest
  {
    rest := text;
    if NL in text {
      var n := Find(text, NL);
      rest := SplitRejoins(text[n + 1..]);
      SplitHead(text);
      AroundNewline(text, n);
      JoinedCons(text[..n], CompleteLines(text[n + 1..]), rest);
    } else {
      assert "" + text == text;
    }
  }

  lemma {:induction false} SplitClean(text: string)
    ensures forall l :: l in CompleteLines(text) ==> NL !in l
  {
    if NL in text {
      SplitHead(text);
      SplitClean(text[Find(text, NL) + 1..]);
    }
  }

  lemma JoinedCons(l: string, lines: seq<string>, rest: string)
    ensures Joined([l] + lines) + rest == l + [NL] + (Joined(lines) + rest)
  {
    assert ([l] + lines)[1..] == lines;
    Assoc(l + [NL], Joined(lines), rest);
  }

  // ----- several descriptors

  function StateOf(m: map<int, FdState>, fd: int): FdState {
    if fd in m then m[fd] else FRESH
  }

  function Call(m: map<int, FdState>, fd: int): (Option<string>, map<int, FdState>) {
    var (line, st) := Next(StateOf(m, fd));
    (line, m[fd := st])
  }

  /** What a sequence of calls returns, each result with its descriptor. */
  function Replies(m: map<int, FdState>, fds: seq<int>): seq<(int, Option<string>)>
    decreases |fds|
  {
    if fds == [] then []
    else
      var (line, m') := Call(m, fds[0]);
      [(fds[0], line)] + Replies(m', fds[1..])
  }

  function Only(replies: seq<(int, Option<string>)>, fd: int): seq<Option<string>> {
    if replies == [] then []
    else (if replies[0].0 == fd then [replies[0].1] else []) + Only(replies[1..], fd)
  }

  function CountOf(fds: seq<int>, fd: int): nat {
    if fds == [] then 0 else (if fds[0] == fd then 1 else 0) + CountOf(fds[1..], fd)
  }

  /** The results of n calls on one descriptor alone. */
  function Alone(st: FdState, n: nat): seq<Option<string>>
    decreases n
  {
    if n == 0 then []
    else
      var (line, st') := Next(st);
      [line] + Alone(st', n - 1)
  }

  lemma OnlyStep(m: map<int, FdState>, fds: seq<int>, fd: int)
    requires fds != []
    ensures var (line, m') := Call(m, fds[0]);
            Only(Replies(m, fds), fd) == (if fds[0] == fd then [line] else []) + Only(Replies(m', fds[1..]), fd)
  {
    var (line, m') := Call(m, fds[0]);
    assert Replies(m, fds)[1..] == Replies(m', fds[1..]);
  }

  lemma CallMovesOne(m: map<int, FdState>, fd: int, g: int)
    ensures StateOf(Call(m, fd).1, g) == if g == fd then Next(StateOf(m, fd)).1 else StateOf(m, g)
  {
  }

  /** Isolation: however calls on other descriptors are mixed in, one descriptor gets the lines it would get alone. */
  lemma {:induction false} DescriptorsAreIsolated(m: map<int, FdState>, fds: seq<int>, fd: int)
    ensures Only(Replies(m, fds), fd) == Alone(StateOf(m, fd), CountOf(fds, fd))
    decreases |fds|
  {
    if fds != [] {
      OnlyStep(m, fds, fd);
      CallMovesOne(m, fds[0], fd);
      DescriptorsAreIsolated(Call(m, fds[0]).1, fds[1..], fd);
    }
  }
}
