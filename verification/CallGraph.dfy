/**
 * The call graph as a state machine over events: what one matched instruction does to the shadow stack, to the flag
 * that asks for a fresh chain, and to the text of the file; and what the stack holds after every run.
 */
module CallGraph {
  import opened DotReader

  /** What the text printed for one matched instruction amounts to. */
  datatype Event = Call(name: string) | Syscall(name: string) | Return | Silent {
    predicate IsNode() { Call? || Syscall? }
  }

  function Requote(s: string): (t: string)
    ensures |t| == |s|
    ensures forall i :: 0 <= i < |s| ==> t[i] == if s[i] == '"' then '\'' else s[i]
    ensures QuoteFree(t)
  {
    if s == "" then ""
    else [if s[0] == '"' then '\'' else s[0]] + Requote(s[1..])
  }

  /** The printed text loses its last character and its quotes; its first character then tells what it is. */
  function EventOf(text: string): Event {
    if text == "" then Silent
    else EventNamed(Requote(text[..|text| - 1]))
  }

  function EventNamed(name: string): Event {
    if name != "" && name[0] == '>' then Return
    else if name != "" && name[0] == '@' then Syscall(name)
    else Call(name)
  }

  const UNKNOWN := "U n K"

  function Top(stack: seq<string>): string {
    if stack == [] then UNKNOWN else stack[0]
  }

  datatype Writer = Writer(stack: seq<string>, ret: bool, out: string)

  /** The lead-in of a node: a fresh chain when one is asked for, and an arrow unless this is the first event. */
  function Lead(w: Writer, first: bool): string {
    (if w.ret then "\n" + NodeText(Top(w.stack)) + " " else "") + (if first then " -> " else "")
  }

  function Written(w: Writer, e: Event, first: bool): string {
    match e
    case Silent => ""
    case Return => ""
    case Call(name) => Lead(w, first) + NodeText(name)
    case Syscall(name) => Lead(w, first) + NodeText(name) + "\n" + NodeText(name) + GREY
  }

  /** A call goes on the stack; a return takes the innermost call off, if there is one. */
  function StackAfter(stack: seq<string>, e: Event): seq<string> {
    match e
    case Call(name) => [name] + stack
    case Return => if stack == [] then [] else stack[1..]
    case _ => stack
  }

  /** `format_dotfile` on one event; `first` is its flag, false for the first matched instruction only. */
  function Step(w: Writer, e: Event, first: bool): Writer {
    var out := w.out + Written(w, e, first);
    match e
    case Silent => w
    case Return => Writer(StackAfter(w.stack, e), true, out)
    case Call(name) => Writer(StackAfter(w.stack, e), false, out)
    case Syscall(name) => Writer(w.stack, true, out)
  }

  function Front<T>(s: seq<T>): seq<T>
    requires s != []
  {
    s[..|s| - 1]
  }

  function Last<T>(s: seq<T>): T
    requires s != []
  {
    s[|s| - 1]
  }

  /** The state after a run, starting from a file that holds its header. */
  function Run(events: seq<Event>): Writer {
    if events == [] then Writer([], false, HEADER)
    else Step(Run(Front(events)), Last(events), |events| > 1)
  }

  // ----- the shadow stack

  function Balance(events: seq<Event>): int {
    if events == [] then 0
    else Balance(Front(events)) + Delta(Last(events))
  }

  /** The lowest balance over all prefixes, the empty one included. */
  function Lowest(events: seq<Event>): int {
    if events == [] then 0
    else if Balance(events) < Lowest(Front(events)) then Balance(events) else Lowest(Front(events))
  }

  /** Event i is a call that no later return closes: calls outnumber returns from i on, however far one looks. */
  ghost predicate Open(events: seq<Event>, i: nat) {
    && i < |events|
    && events[i].Call?
    && forall j :: i < j <= |events| ==> Balance(events[i..j]) >= 1
  }

  /** The positions of the calls on the stack, innermost first. */
  ghost function Frames(events: seq<Event>): seq<nat> {
    if events == [] then []
    else
      var f := Frames(Front(events));
      match Last(events)
      case Call(_) => [|events| - 1] + f
      case Return => if f == [] then [] else f[1..]
      case _ => f
  }

  function Delta(e: Event): int {
    match e case Call(_) => 1 case Return => -1 case _ => 0
  }

  lemma SliceFront(events: seq<Event>, i: nat, j: nat)
    requires i <= j < |events|
    ensures events[i..j] == Front(events)[i..j]
  {
  }

  /** One more event: the balance from i moves by its delta, and i stays open while that balance stays positive. */
  lemma Snoc(events: seq<Event>, i: nat)
    requires events != [] && i < |events| - 1
    ensures Balance(events[i..]) == Balance(Front(events)[i..]) + Delta(Last(events))
    ensures Open(events, i) <==> Open(Front(events), i) && Balance(events[i..]) >= 1
  {
    var p := Front(events);
    assert Front(events[i..]) == p[i..];
    forall j | i < j <= |p|
      ensures Balance(events[i..j]) == Balance(p[i..j])
    {
      SliceFront(events, i, j);
    }
    assert events[i..|events|] == events[i..];
  }

  lemma SnocLast(events: seq<Event>)
    requires events != []
    ensures Balance(events[|events| - 1..]) == Delta(Last(events))
    ensures Open(events, |events| - 1) <==> Last(events).Call?
  {
    var n := |events| - 1;
    assert events[n..] == [Last(events)] && Front([Last(events)]) == [];
    assert forall j :: n < j <= |events| ==> events[n..j] == [Last(events)];
  }

  /** The k-th frame is an open call with k open calls above it. */
  ghost predicate OpenFrames(events: seq<Event>, f: seq<nat>) {
    forall k :: 0 <= k < |f| ==> Open(events, f[k]) && Balance(events[f[k]..]) == k + 1
  }

  ghost predicate Descending(f: seq<nat>) {
    forall k, m :: 0 <= k < m < |f| ==> f[m] < f[k]
  }

  ghost predicate FramesAreOpenCalls(events: seq<Event>, f: seq<nat>) {
    && OpenFrames(events, f)
    && Descending(f)
    && (forall i: nat | Open(events, i) :: i in f)
  }

  /** The frames are the open calls, all of them, latest first; the k-th has k open calls above it. */
  lemma {:induction false} FramesCorrect(events: seq<Event>)
    ensures FramesAreOpenCalls(events, Frames(events))
  {
    if events != [] {
      FramesCorrect(Front(events));
      FramesStep(events, Frames(Front(events)), Frames(events));
    }
  }

  lemma FramesStep(events: seq<Event>, f: seq<nat>, g: seq<nat>)
    requires events != [] && FramesAreOpenCalls(Front(events), f) && PushPop(Last(events), |events| - 1, f, g)
    ensures FramesAreOpenCalls(events, g)
  {
    FramesStayOpen(events, f, g);
    forall i: nat | Open(events, i)
      ensures i in g
    {
      FrameFound(events, f, g, i);
    }
    assert forall k :: 0 <= k < |f| ==> Open(Front(events), f[k]);
    StaysDescending(Last(events), |events| - 1, f, g);
  }

  lemma StaysDescending(e: Event, n: nat, f: seq<nat>, g: seq<nat>)
    requires Descending(f) && PushPop(e, n, f, g) && forall k :: 0 <= k < |f| ==> f[k] < n
    ensures Descending(g)
  {
  }

  lemma FramesStayOpen(events: seq<Event>, f: seq<nat>, g: seq<nat>)
    requires events != [] && OpenFrames(Front(events), f) && PushPop(Last(events), |events| - 1, f, g)
    ensures OpenFrames(events, g)
  {
    forall k | 0 <= k < |g|
      ensures Open(events, g[k]) && Balance(events[g[k]..]) == k + 1
    {
      FrameKept(events, f, g, k);
    }
  }

  ghost predicate PushPop(e: Event, n: nat, f: seq<nat>, g: seq<nat>) {
    g == match e
         case Call(_) => [n] + f
         case Return => if f == [] then [] else f[1..]
         case _ => f
  }

  lemma FrameKept(events: seq<Event>, f: seq<nat>, g: seq<nat>, k: nat)
    requires events != [] && OpenFrames(Front(events), f) && PushPop(Last(events), |events| - 1, f, g)
    requires k < |g|
    ensures Open(events, g[k]) && Balance(events[g[k]..]) == k + 1
  {
    if Last(events).Call? && k == 0 {
      SnocLast(events);
    } else {
      var m := k - Delta(Last(events));
      assert g[k] == f[m] && Open(Front(events), f[m]);
      Snoc(events, g[k]);
    }
  }

  lemma FrameFound(events: seq<Event>, f: seq<nat>, g: seq<nat>, i: nat)
    requires events != [] && FramesAreOpenCalls(Front(events), f) && PushPop(Last(events), |events| - 1, f, g)
    requires Open(events, i)
    ensures i in g
  {
    if i < |events| - 1 {
      Snoc(events, i);
      var k :| 0 <= k < |f| && f[k] == i;
      assert g[k + Delta(Last(events))] == i;
    } else {
      SnocLast(events);
      assert g[0] == i;
    }
  }

  /** s lists the names of the calls at the positions f. */
  ghost predicate NamesAt(events: seq<Event>, f: seq<nat>, s: seq<string>) {
    && |s| == |f|
    && forall k :: 0 <= k < |s| ==> f[k] < |events| && events[f[k]].Call? && s[k] == events[f[k]].name
  }

  lemma {:induction false} StackNames(events: seq<Event>)
    ensures NamesAt(events, Frames(events), Run(events).stack)
  {
    if events != [] {
      StackNames(Front(events));
    }
  }

  /** Over any run, the stack holds the names of the calls not closed by a later return, innermost first. */
  lemma StackIsOpenCalls(events: seq<Event>)
    ensures NamesAt(events, Frames(events), Run(events).stack)
    ensures FramesAreOpenCalls(events, Frames(events))
  {
    FramesCorrect(events);
    StackNames(events);
  }

  /** i is the latest of the open calls. */
  ghost predicate Innermost(events: seq<Event>, i: nat) {
    Open(events, i) && forall j: nat | Open(events, j) :: j <= i
  }

  /** The source of an edge: the latest call still open, the unknown caller only when no call is. */
  lemma TopIsInnermost(events: seq<Event>)
    ensures var top := Top(Run(events).stack);
            && (forall i: nat | Innermost(events, i) :: top == events[i].name)
            && ((exists i: nat :: Innermost(events, i)) <==> (exists i: nat :: Open(events, i)))
            && ((forall i: nat :: !Open(events, i)) ==> top == UNKNOWN)
  {
    StackIsOpenCalls(events);
    var f := Frames(events);
    if f != [] {
      assert Open(events, f[0]);
      forall j: nat | Open(events, j)
        ensures j <= f[0]
      {
        var k :| 0 <= k < |f| && f[k] == j;
      }
      assert Innermost(events, f[0]);
    }
  }

  /** Returns on an empty stack cost nothing: the depth is the balance above its lowest point so far. */
  lemma {:induction false} StackDepth(events: seq<Event>)
    ensures |Run(events).stack| == Balance(events) - Lowest(events)
    ensures Lowest(events) <= 0 && Lowest(events) <= Balance(events)
  {
    if events != [] {
      StackDepth(Front(events));
    }
  }
}
