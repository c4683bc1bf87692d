/**
 * The line reader in memory: a ring of nodes, one per descriptor, each holding the text kept from earlier reads.
 * A kept string is written once, when it is built, and never again; nodes therefore hold it as a value.
 */
module LineReader {
  import opened Wrappers
  import opened CStrings
  import opened LineSpec

  class FdNode {
    var str: Option<string>
    const fd: int
    var next: FdNode

    constructor (fd: int)
      ensures this.fd == fd && str == None && next == this
    {
      str := None;
      this.fd := fd;
      next := this;
    }
  }

  /** The text behind a `char *`, nothing when it is null. */
  function Kept(str: Option<string>): string {
    if str.None? then "" else str.value
  }

  /** `s[i]`, the terminating NUL included. */
  function CharAt(s: string, i: nat): char {
    if i < |s| then s[i] else NUL
  }

  // ----- the ring

  function After(ring: seq<FdNode>, i: nat): FdNode
    requires i < |ring|
  {
    if i + 1 < |ring| then ring[i + 1] else ring[0]
  }

  ghost function Fds(ring: seq<FdNode>): set<int> {
    set n | n in ring :: n.fd
  }

  /** One cycle through distinct nodes with distinct descriptors. */
  ghost predicate Ring(ring: seq<FdNode>)
    reads ring
  {
    && (forall i :: 0 <= i < |ring| ==> ring[i].next == After(ring, i))
    && (forall i, j :: 0 <= i < j < |ring| ==> ring[i].fd != ring[j].fd)
  }

  /** Turning the ring so that it starts at another node leaves it one cycle. */
  lemma Turn(ring: seq<FdNode>, k: nat)
    requires Ring(ring) && k < |ring|
    ensures Ring(ring[k..] + ring[..k])
  {
    var t := ring[k..] + ring[..k];
    forall i | 0 <= i < |t|
      ensures t[i].next == After(t, i)
    {
      var o := if i < |ring| - k then i + k else i + k - |ring|;
      assert t[i] == ring[o] && ring[o].next == After(ring, o);
    }
  }

  lemma SameNodes(ring: seq<FdNode>, k: nat)
    requires k < |ring|
    ensures var t := ring[k..] + ring[..k];
            && (forall n :: n in t <==> n in ring)
            && Fds(t) == Fds(ring) && t[0] == ring[k] && |t| == |ring|
  {
    var t := ring[k..] + ring[..k];
    assert ring == ring[..k] + ring[k..];
    assert forall n :: n in t <==> n in ring;
  }

  lemma FirstOnce(ring: seq<FdNode>)
    requires Ring(ring)
    ensures forall i :: 0 < i < |ring| ==> ring[i] != ring[0]
  {
    assert forall i :: 0 < i < |ring| ==> ring[0].fd != ring[i].fd;
  }

  // ----- strings

  method IsBackslashN(str: Option<string>) returns (b: bool)
    requires NUL !in Kept(str)
    ensures b <==> NL in Kept(str)
  {
    if str == None {
      return false;
    }
    var s, i := str.value, 0;
    while CharAt(s, i) != NUL
      invariant i <= |s| && NL !in s[..i]
      decreases |s| - i
    {
      if s[i] == NL {
        return true;
      }
      i := i + 1;
    }
    b := false;
  }

  /** A new string: the old one followed by the text of the buffer, which is cut at BUF_SIZE. */
  method AddStrTo(dest: Option<string>, src: array<char>) returns (res: string)
    requires NUL !in Kept(dest) && src.Length > BUF_SIZE
    modifies src
    ensures res == Kept(dest) + Text(old(src[..])[BUF_SIZE := NUL])
  {
    src[BUF_SIZE] := NUL;
    assert src[BUF_SIZE] in src[..];
    res := Concat(dest, src);
  }

  method Concat(dest: Option<string>, src: array<char>) returns (res: string)
    requires NUL !in Kept(dest) && NUL in src[..]
    ensures res == Kept(dest) + Text(src[..])
  {
    ghost var kept := Kept(dest);
    var i := 0;
    while dest.Some? && CharAt(dest.value, i) != NUL
      invariant i <= |kept|
      decreases |kept| - i
    {
      i := i + 1;
    }
    var m := StrLenOf(src);
    var tmp := new char[i + m + 1];
    i := 0;
    while dest.Some? && CharAt(dest.value, i) != NUL
      invariant i <= |kept| && tmp[..i] == kept[..i]
      decreases |kept| - i
    {
      tmp[i] := dest.value[i];
      i := i + 1;
    }
    i := CopyText(tmp, i, src);
    tmp[i] := NUL;
    res := tmp[..i];
  }

  /** The copying loop of `add_str_to`: the text of src up to its NUL, into dest from a position on. */
  method CopyText(dest: array<char>, at: nat, src: array<char>) returns (end: nat)
    requires NUL in src[..] && dest != src && at + StrLen(src[..]) < dest.Length
    modifies dest
    ensures end == at + StrLen(src[..]) && dest[..end] == old(dest[..at]) + Text(src[..])
  {
    ghost var n := StrLen(src[..]);
    NoNulBefore(src[..]);
    var j := 0;
    end := at;
    while src[j] != NUL
      invariant j <= n && end == at + j
      invariant dest[..end] == old(dest[..at]) + src[..j]
      decreases n - j
    {
      dest[end] := src[j];
      j, end := j + 1, end + 1;
    }
  }

  /** The first line as a new string, and what follows its newline as another. */
  method ReturnIt(str: string) returns (rest: string, line: string)
    requires NUL !in str && NL in str
    ensures str == line + [NL] + rest && NL !in line
  {
    ghost var n := Find(str, NL);
    assert forall k :: 0 <= k < n ==> str[k] in str[..n];
    var i := 0;
    while CharAt(str, i) != NL
      invariant i <= n
      decreases n - i
    {
      i := i + 1;
    }
    var j := 0;
    while CharAt(str, i) != NUL && CharAt(str, i + j) != NUL
      invariant i + j <= |str|
      decreases |str| - j
    {
      j := j + 1;
    }
    line := LineOf(str, i);
    rest := RestOf(str, i, j);
  }

  method LineOf(str: string, n: nat) returns (line: string)
    requires NUL !in str && n == Find(str, NL) < |str|
    ensures line == str[..n]
  {
    assert forall k :: 0 <= k < n ==> str[k] in str[..n];
    var a := new char[n + 1];
    a[n] := NUL;
    var i := 0;
    while CharAt(str, i) != NL && CharAt(str, i) != NUL
      invariant i <= n && a[..i] == str[..i]
      decreases n - i
    {
      a[i] := str[i];
      i := i + 1;
    }
    line := a[..i];
  }

  method RestOf(str: string, n: nat, j: nat) returns (rest: string)
    requires NUL !in str && n + j == |str| && n < |str|
    ensures rest == str[n + 1..]
  {
    var b := new char[j + 1];
    b[j] := NUL;
    var i, k := n + 1, 0;
    while CharAt(str, i) != NUL
      invariant n < i <= |str| && k == i - (n + 1) && b[..k] == str[n + 1..i]
      decreases |str| - i
    {
      b[k] := str[i];
      i, k := i + 1, k + 1;
    }
    b[k] := NUL;
    rest := b[..k];
  }

  // ----- the reader

  function AnswersOf(answers: map<int, seq<Answer>>, fd: int): seq<Answer> {
    if fd in answers then answers[fd] else []
  }

  /** No answer is longer than the buffer. */
  ghost predicate AllFit(answers: map<int, seq<Answer>>) {
    forall fd, a | fd in answers && a in answers[fd] :: Fits(a)
  }

  /** The states count on exactly the answers that are to come. */
  ghost predicate Supply(states: map<int, FdState>, answers: map<int, seq<Answer>>) {
    forall fd :: StateOf(states, fd).answers == AnswersOf(answers, fd)
  }

  /** The same, except that an answer of fd has been taken and not yet counted. */
  ghost predicate SupplyBut(states: map<int, FdState>, answers: map<int, seq<Answer>>, fd: int) {
    forall g :: g != fd ==> StateOf(states, g).answers == AnswersOf(answers, g)
  }

  lemma SupplyTaken(states: map<int, FdState>, answers: map<int, seq<Answer>>, fd: int)
    requires Supply(states, answers) && AllFit(answers)
    ensures var after := answers[fd := Rest(AnswersOf(answers, fd))];
            SupplyBut(states, after, fd) && AllFit(after) && AnswersOf(after, fd) == Rest(StateOf(states, fd).answers)
    ensures Fits(NextAnswer(AnswersOf(answers, fd)))
  {
    var after := answers[fd := Rest(AnswersOf(answers, fd))];
    forall g, a | g in after && a in after[g]
      ensures Fits(a)
    {
      assert g in answers ==> a in answers[g];
    }
    if AnswersOf(answers, fd) != [] {
      assert answers[fd][0] in answers[fd];
    }
  }

  lemma SupplyCounted(states: map<int, FdState>, answers: map<int, seq<Answer>>, fd: int, str: string)
    requires SupplyBut(states, answers, fd)
    ensures Supply(states[fd := FdState(str, AnswersOf(answers, fd))], answers)
  {
  }

  class Reader {
    var pile: FdNode?
    // What the operating system will answer on each descriptor.
    var answers: map<int, seq<Answer>>
    ghost var ring: seq<FdNode>
    // Every node of the ring, for the frames of callers.
    ghost var repr: set<FdNode>
    // The state of every descriptor, as the specification sees it.
    ghost var states: map<int, FdState>

    ghost predicate Shape()
      reads this`pile, this`ring, ring
    {
      && (ring == [] <==> pile == null)
      && (ring != [] ==> pile == ring[0])
      && Ring(ring)
    }

    /** Every node keeps the text its descriptor has pending; a descriptor without a node has none. */
    ghost predicate Synced()
      reads this`states, this`ring, ring
    {
      && (forall n :: n in ring ==> Kept(n.str) == StateOf(states, n.fd).pending && NUL !in Kept(n.str))
      && (forall fd :: fd !in Fds(ring) ==> StateOf(states, fd).pending == "")
    }

    ghost predicate Consistent()
      reads this`pile, this`ring, this`states, this`answers, ring
    {
      Shape() && Synced() && AllFit(answers) && Supply(states, answers)
    }

    ghost predicate Valid()
      reads this, repr
    {
      (forall n :: n in ring ==> n in repr) && Consistent()
    }

    constructor (answers: map<int, seq<Answer>>)
      requires AllFit(answers)
      ensures Valid() && this.answers == answers && ring == []
      ensures forall fd :: StateOf(states, fd) == FdState("", AnswersOf(answers, fd))
    {
      pile := null;
      ring := [];
      repr := {};
      this.answers := answers;
      states := map fd | fd in answers :: FdState("", answers[fd]);
    }

    /** The node of a descriptor, found by walking round the ring, or a new one put in at its end. */
    method FindFdOrCreateIt(fd: int) returns (node: FdNode, ghost k: nat)
      requires Shape()
      modifies this`ring, ring
      ensures Ring(ring) && k < |ring| && ring[k] == node && node.fd == fd
      ensures old(ring) <= ring
      ensures forall n :: n in old(ring) ==> n.str == old(n.str)
      ensures ring == old(ring) || (ring == old(ring) + [node] && fresh(node) && node.str == None && k == |old(ring)|)
      ensures ring != old(ring) ==> fd !in Fds(old(ring))
    {
      if pile != null {
        k := 0;
        node := pile;
        if node.fd == fd {
          return;
        }
        node := node.next;
        k := 1;
        while node != pile
          invariant 1 <= k <= |ring|
          invariant node == After(ring, k - 1)
          invariant forall i :: 0 <= i < k ==> ring[i].fd != fd
          decreases |ring| - k
        {
          if node.fd == fd {
            return;
          }
          node := node.next;
          k := k + 1;
        }
        FirstOnce(ring);
        node := Insert(fd);
        k := |ring| - 1;
      } else {
        node := new FdNode(fd);
        ring := [node];
        k := 0;
      }
    }

    /** A new node between the last node of the ring and the first. */
    method Insert(fd: int) returns (node: FdNode)
      requires Shape() && ring != [] && forall i :: 0 <= i < |ring| ==> ring[i].fd != fd
      modifies this`ring, ring
      ensures Ring(ring) && ring == old(ring) + [node]
      ensures fresh(node) && node.str == None && node.fd == fd
      ensures forall n :: n in old(ring) ==> n.str == old(n.str)
    {
      node := new FdNode(fd);
      node.next := pile;
      var tmp := pile;
      ghost var i := 0;
      while tmp.next != pile
        invariant i < |ring| && tmp == ring[i]
        decreases |ring| - i
      {
        tmp := tmp.next;
        i := i + 1;
      }
      FirstOnce(ring);
      tmp.next := node;
      ring := ring + [node];
    }

    /** `read`: the next answer on the descriptor, its bytes at the front of the buffer. */
    method Read(fd: int, buf: array<char>) returns (s: int)
      requires buf.Length > BUF_SIZE && Fits(NextAnswer(AnswersOf(answers, fd)))
      modifies this`answers, buf
      ensures answers == old(answers)[fd := Rest(AnswersOf(old(answers), fd))]
      ensures match NextAnswer(AnswersOf(old(answers), fd))
              case Failed => s < 0
              case Data(c) => s == |c| <= BUF_SIZE && buf[..s] == c
    {
      var a := NextAnswer(AnswersOf(answers, fd));
      answers := answers[fd := Rest(AnswersOf(answers, fd))];
      if a.Failed? {
        return -1;
      }
      s := |a.bytes|;
      forall i | 0 <= i < s {
        buf[i] := a.bytes[i];
      }
    }

    /** The buffer as `get_next_line` patches it after a read of s bytes. */
    method Patch(buf: array<char>, s: nat)
      requires s <= BUF_SIZE && buf.Length == BUF_SIZE + 2
      modifies buf
      ensures Text(buf[..][BUF_SIZE := NUL]) == Delivered(old(buf[..s]))
    {
      ghost var c := buf[..s];
      if s < BUF_SIZE {
        buf[s] := NUL;
      }
      if s < BUF_SIZE && ((s > 0 && buf[s - 1] != NL) || s == 0) {
        buf[s] := NL;
      }
      if s < BUF_SIZE && ((s > 0 && buf[s - 1] != NL) || s == 0) {
        buf[s + 1] := NUL;
      }
      var p := Closed(c);
      ghost var b := buf[..][BUF_SIZE := NUL];
      assert b[..|p|] == p && b[|p|] == NUL;
      Cut(b, |p|);
    }

    /** The search leaves every descriptor's text where it was. */
    method Locate(fd: int) returns (node: FdNode, ghost k: nat)
      requires Shape() && Synced()
      modifies this`ring, ring
      ensures Ring(ring) && Synced() && k < |ring| && ring[k] == node && node.fd == fd
      ensures node in old(ring) || fresh(node)
      ensures forall n :: n in ring ==> n in old(ring) || fresh(n)
    {
      node, k := FindFdOrCreateIt(fd);
      assert Fds(old(ring)) <= Fds(ring);
    }

    /** The ring turned to start at the node of the descriptor. */
    method Select(fd: int)
      requires Consistent()
      modifies this`pile, this`ring, ring
      ensures Consistent() && ring != [] && ring[0].fd == fd
      ensures (pile in old(ring) || fresh(pile))
      ensures forall n :: n in ring ==> n in old(ring) || fresh(n)
    {
      ghost var k;
      pile, k := Locate(fd);
      ghost var was := ring;
      Turn(was, k);
      SameNodes(was, k);
      ring := was[k..] + was[..k];
    }

    /** The same, with the frame kept up to date. */
    method Prepare(fd: int)
      requires Valid()
      modifies this`pile, this`ring, this`repr, repr
      ensures Valid() && ring != [] && ring[0].fd == fd && fresh(repr - old(repr))
    {
      Select(fd);
      repr := repr + set n | n in ring;
    }

    /** `read` and the patches after it. */
    method Fetch(fd: int, buf: array<char>) returns (s: int)
      requires buf.Length == BUF_SIZE + 2 && Fits(NextAnswer(AnswersOf(answers, fd)))
      modifies this`answers, buf
      ensures answers == old(answers)[fd := Rest(AnswersOf(old(answers), fd))]
      ensures match NextAnswer(AnswersOf(old(answers), fd))
              case Failed => s < 0
              case Data(c) => s == |c| && Text(buf[..][BUF_SIZE := NUL]) == Delivered(c)
    {
      s := Read(fd, buf);
      if s >= 0 {
        Patch(buf, s);
      }
    }

    /** The first node gets a new string, and the state of its descriptor catches up with it and with its answers. */
    method Store(str: string)
      requires Shape() && Synced() && ring != [] && NUL !in str
      modifies this`states, pile`str
      ensures Shape() && Synced() && pile.str == Some(str)
      ensures states == old(states)[pile.fd := FdState(str, AnswersOf(answers, pile.fd))]
    {
      HeadIsAlone(ring);
      pile.str := Some(str);
      states := states[pile.fd := FdState(str, AnswersOf(answers, pile.fd))];
    }

    /** An answer is taken, and not yet counted. */
    method Take(buf: array<char>) returns (s: int)
      requires Consistent() && ring != [] && buf.Length == BUF_SIZE + 2
      modifies this`answers, buf
      ensures Shape() && Synced() && AllFit(answers) && SupplyBut(states, answers, pile.fd)
      ensures AnswersOf(answers, pile.fd) == Rest(StateOf(states, pile.fd).answers)
      ensures match NextAnswer(StateOf(states, pile.fd).answers)
              case Failed => s < 0
              case Data(c) => s == |c| && Text(buf[..][BUF_SIZE := NUL]) == Delivered(c)
    {
      SupplyTaken(states, answers, pile.fd);
      s := Fetch(pile.fd, buf);
    }

    /** An error is counted: the text kept stays. */
    ghost method Count(st: FdState)
      requires Shape() && Synced() && ring != [] && st.pending == StateOf(states, pile.fd).pending
      modifies this`states
      ensures Shape() && Synced() && states == old(states)[pile.fd := st]
    {
      states := states[pile.fd := st];
    }

    /** One pass of the read loop: an answer is taken, and its text joins what is kept. */
    method ReadMore(buf: array<char>) returns (stop: bool)
      requires Consistent() && ring != [] && buf.Length == BUF_SIZE + 2
      requires NL !in StateOf(states, pile.fd).pending
      modifies this`answers, this`states, pile`str, buf
      ensures Consistent()
      ensures var (more, st) := Pass(StateOf(old(states), pile.fd));
              states == old(states)[pile.fd := st] && stop == !more
    {
      ghost var st, was, fd := StateOf(states, pile.fd), states, pile.fd;
      var s := Take(buf);
      SupplyCounted(was, answers, fd, Pass(st).1.pending);
      if s < 0 {
        Count(Pass(st).1);
        return true;
      }
      stop := Absorb(buf, NextAnswer(st.answers).bytes);
      stop := s == 0 && stop;
    }

    /** The text of an answer joins what is kept, and the answer is counted. */
    method Absorb(buf: array<char>, ghost c: string) returns (start: bool)
      requires Shape() && Synced() && ring != [] && buf.Length == BUF_SIZE + 2
      requires Text(buf[..][BUF_SIZE := NUL]) == Delivered(c) && NL !in StateOf(states, pile.fd).pending
      modifies this`states, pile`str, buf
      ensures Shape() && Synced()
      ensures var p := StateOf(old(states), pile.fd).pending;
              && states == old(states)[pile.fd := FdState(p + Delivered(c), AnswersOf(answers, pile.fd))]
              && (c == "" ==> (start <==> p == ""))
    {
      assert ring[0] in ring;
      EofAtLineStart(StateOf(states, pile.fd).pending, c);
      var str := AddStrTo(pile.str, buf);
      start := CharAt(str, 0) == NL;
      Store(str);
    }

    /** The read loop, on the first node: it ends with a line in the kept text, or with no line to return. */
    method Fill(buf: array<char>) returns (found: bool)
      requires Consistent() && ring != [] && buf.Length == BUF_SIZE + 2
      modifies this`answers, this`states, pile`str, buf
      ensures Consistent()
      ensures found ==> OnTheWay(old(states), states, pile.fd) && NL in StateOf(states, pile.fd).pending
      ensures !found ==> Call(old(states), pile.fd) == (None, states)
    {
      ghost var was, fd := states, pile.fd;
      found := IsBackslashN(pile.str);
      while !found
        invariant Consistent()
        invariant found <==> NL in StateOf(states, fd).pending
        invariant OnTheWay(was, states, fd)
        decreases |StateOf(states, fd).answers|, if found then 0 else 1
      {
        OneMorePass(was, states, fd);
        var stop := ReadMore(buf);
        if stop {
          return false;
        }
        found := IsBackslashN(pile.str);
      }
    }

    /**
     * One line of one descriptor. The ring is turned to start at its node; its state moves as the specification says
     * and no other descriptor's does.
     */
    method GetNextLine(fd: int) returns (line: Option<string>)
      requires Valid()
      modifies this, repr
      ensures Valid() && ring != [] && ring[0].fd == fd && fresh(repr - old(repr))
      ensures Call(old(states), fd) == (line, states)
    {
      Prepare(fd);
      line := NextLine();
    }

    /** The next line of the first node's descriptor. */
    method NextLine() returns (line: Option<string>)
      requires Consistent() && ring != []
      modifies this`answers, this`states, pile`str
      ensures Consistent() && Call(old(states), pile.fd) == (line, states)
    {
      var buf := new char[BUF_SIZE + 2];
      var found := Fill(buf);
      if !found {
        return None;
      }
      LastPass(old(states), states, pile.fd);
      var l := TakeLine();
      line := Some(l);
    }

    /** The first line leaves the kept text of the first node. */
    method TakeLine() returns (line: string)
      requires Consistent() && ring != [] && NL in StateOf(states, pile.fd).pending
      modifies this`states, pile`str
      ensures Consistent() && Call(old(states), pile.fd) == (Some(line), states)
    {
      ghost var st := StateOf(states, pile.fd);
      assert ring[0] in ring;
      var rest;
      rest, line := ReturnIt(pile.str.value);
      FirstLine(st, line, rest);
      SupplyCounted(states, answers, pile.fd, rest);
      Store(rest);
    }
  }

  /** Calls on several descriptors in turn: each is answered as it would be with no other call in between. */
  method ReadInTurn(r: Reader, fds: seq<int>) returns (replies: seq<(int, Option<string>)>)
    requires r.Valid()
    modifies r, r.repr
    ensures r.Valid() && fresh(r.repr - old(r.repr))
    ensures replies == Replies(old(r.states), fds)
    ensures forall fd :: Only(replies, fd) == Alone(StateOf(old(r.states), fd), CountOf(fds, fd))
  {
    replies := ReadAll(r, fds);
    AllIsolated(old(r.states), fds);
  }

  method ReadAll(r: Reader, fds: seq<int>) returns (replies: seq<(int, Option<string>)>)
    requires r.Valid()
    modifies r, r.repr
    ensures r.Valid() && fresh(r.repr - old(r.repr))
    ensures replies == Replies(old(r.states), fds)
    decreases |fds|
  {
    replies := [];
    if fds != [] {
      var line := r.GetNextLine(fds[0]);
      var rest := ReadAll(r, fds[1..]);
      replies := [(fds[0], line)] + rest;
    }
  }

  lemma AllIsolated(m: map<int, FdState>, fds: seq<int>)
    ensures forall fd :: Only(Replies(m, fds), fd) == Alone(StateOf(m, fd), CountOf(fds, fd))
  {
    forall fd
      ensures Only(Replies(m, fds), fd) == Alone(StateOf(m, fd), CountOf(fds, fd))
    {
      DescriptorsAreIsolated(m, fds, fd);
    }
  }

  lemma HeadIsAlone(ring: seq<FdNode>)
    requires Ring(ring) && ring != []
    ensures forall n :: n in ring && n != ring[0] ==> n.fd != ring[0].fd
  {
    forall n | n in ring && n != ring[0]
      ensures n.fd != ring[0].fd
    {
      var i :| 0 <= i < |ring| && ring[i] == n;
      assert ring[0].fd != ring[i].fd;
    }
  }

  lemma EofAtLineStart(pending: string, c: string)
    requires NL !in pending
    ensures c == "" ==> (CharAt(pending + Delivered(c), 0) == NL <==> pending == "")
  {
    DeliveredEof();
  }

  lemma Overwrite(m: map<int, FdState>, fd: int, a: FdState, b: FdState)
    ensures m[fd := a][fd := b] == m[fd := b]
  {
  }

  /** Between the calls of one `get_next_line`: only this descriptor has moved, and its next line is still the same. */
  ghost predicate OnTheWay(was: map<int, FdState>, now: map<int, FdState>, fd: int) {
    && Next(StateOf(now, fd)) == Next(StateOf(was, fd))
    && (now == was || now == was[fd := StateOf(now, fd)])
  }

  lemma OneMorePass(was: map<int, FdState>, now: map<int, FdState>, fd: int)
    requires OnTheWay(was, now, fd) && NL !in StateOf(now, fd).pending
    ensures var (more, st) := Pass(StateOf(now, fd));
            && (more ==> OnTheWay(was, now[fd := st], fd))
            && (!more ==> Call(was, fd) == (None, now[fd := st]))
            && (more ==> |st.answers| < |StateOf(now, fd).answers|
                         || (st.answers == StateOf(now, fd).answers && NL in st.pending))
  {
    DeliveredEof();
    Overwrite(was, fd, StateOf(now, fd), Pass(StateOf(now, fd)).1);
  }

  lemma FirstLine(st: FdState, line: string, rest: string)
    requires st.pending == line + [NL] + rest && NL !in line
    ensures NL in st.pending && Next(st) == (Some(line), FdState(rest, st.answers))
  {
    var p := st.pending;
    assert p[|line|] == NL && p[..|line|] == line && p[|line| + 1..] == rest;
    FindUnique(p, |line|);
  }

  lemma LastPass(was: map<int, FdState>, now: map<int, FdState>, fd: int)
    requires OnTheWay(was, now, fd)
    ensures Call(now, fd) == Call(was, fd)
  {
    Overwrite(was, fd, StateOf(now, fd), Next(StateOf(now, fd)).1);
  }

  lemma Cut(b: seq<char>, n: nat)
    requires n < |b| && b[n] == NUL
    ensures Text(b) == Text(b[..n])
  {
    var m := StrLen(b[..n]);
    assert b[..n][..m] == b[..m];
    StrLenUnique(b, m);
  }
}
