/** The writer of the call graph: its list of calls, its flag and the text of its file. */
module GraphWriter {
  import opened Wrappers
  import opened CStrings
  import opened DotReader
  import opened CallGraph
  import opened LinkedList

  /** Every quote of the C string in the buffer becomes an apostrophe; nothing else changes. */
  method DeleteQuote(s: array<char>)
    requires NUL in s[..]
    modifies s
    ensures Text(s[..]) == Requote(old(Text(s[..])))
    ensures s[|old(Text(s[..]))|..] == old(s[|Text(s[..])|..])
  {
    ghost var n := StrLen(s[..]);
    ghost var was := s[..];
    NoNulBefore(was);
    var i := 0;
    while s[i] != NUL
      invariant 0 <= i <= n < s.Length
      invariant forall k :: 0 <= k < i ==> s[k] == if was[k] == '"' then '\'' else was[k]
      invariant forall k :: i <= k < s.Length ==> s[k] == was[k]
      decreases n - i
    {
      if s[i] == '"' {
        s[i] := '\'';
      }
      i := i + 1;
    }
    assert s[..][..n] == Requote(was[..n]);
    StrLenUnique(s[..], n);
  }

  /** The character a C string starts with: its NUL when it is empty. */
  function First(name: string): char {
    if name == "" then NUL else name[0]
  }

  lemma WrittenFromLead(w: CallGraph.Writer, name: string, first: bool)
    ensures var o := w.out + Lead(w, first) + NodeText(name);
            && w.out + Written(w, Call(name), first) == o
            && w.out + Written(w, Syscall(name), first) == o + "\n" + NodeText(name) + GREY
  {
    var lead, node := Lead(w, first), NodeText(name);
    assert w.out + (lead + node) == w.out + lead + node;
    assert w.out + (lead + node + "\n" + node + GREY) == w.out + lead + node + "\n" + node + GREY;
  }

  class DotWriter {
    const list: List<string>
    var ret: bool
    var out: string

    ghost predicate Valid()
      reads this, list, list.nodes
    {
      list.Valid()
    }

    ghost function State(): CallGraph.Writer
      reads this, list
    {
      CallGraph.Writer(list.Contents(), ret, out)
    }

    constructor ()
      ensures Valid() && fresh(this) && fresh(list)
      ensures State() == CallGraph.Writer([], false, "")
    {
      list := new List<string>();
      ret := false;
      out := "";
    }

    method Print(text: string)
      requires Valid()
      modifies this`out
      ensures Valid() && State() == old(State()).(out := old(out) + text)
    {
      out := out + text;
    }

    /** One text of length len, NUL-terminated in the buffer, becomes one event of the call graph. */
    method FormatDotfile(buffer: array<char>, first: bool, len: nat)
      requires Valid()
      requires 0 < len < buffer.Length && StrLen(buffer[..]) == len
      modifies this, list, buffer
      ensures Valid()
      ensures State() == Step(old(State()), EventOf(old(buffer[..len])), first)
    {
      ghost var text := buffer[..len];
      buffer[len - 1] := NUL;
      StrLenUnique(buffer[..], len - 1);
      assert Text(buffer[..]) == text[..len - 1];
      DeleteQuote(buffer);
      var name := ReadText(buffer);
      assert name == Requote(text[..len - 1]) && buffer[0] == First(name);
      Emit(buffer[0], name, first);
    }

    /** The rest of `format_dotfile`: kind is the first character of the buffer, which decides the branch. */
    method Emit(kind: char, name: string, first: bool)
      requires Valid() && kind == First(name)
      modifies this, list
      ensures Valid() && State() == Step(old(State()), EventNamed(name), first)
    {
      if kind != '>' {
        ghost var w := State();
        StartNode(first);
        if kind != '@' {
          list.Push(name);
        } else {
          ret := true;
        }
        out := out + NodeText(name);
        if kind == '@' {
          out := out + "\n" + NodeText(name) + GREY;
        }
        WrittenFromLead(w, name, first);
      } else {
        list.Pop();
        ret := true;
      }
    }

    /** The lead-in of a node: the call in progress when a chain must be started, then the arrow. */
    method StartNode(first: bool)
      requires Valid()
      modifies this
      ensures Valid() && State() == old(State()).(ret := false, out := old(out) + Lead(old(State()), first))
    {
      ghost var w := State();
      if ret {
        var func := list.First();
        var top := if func.Some? then func.value else UNKNOWN;
        out := out + "\n" + NodeText(top) + " ";
        ret := false;
      }
      if first {
        out := out + " -> ";
      }
      LeadParts(w.out, NodeText(Top(w.stack)));
    }
  }

  lemma LeadParts(o: string, node: string)
    ensures o + "\n" + node + " " == o + ("\n" + node + " ")
    ensures o + "\n" + node + " " + " -> " == o + ("\n" + node + " " + " -> ")
    ensures o + "" == o && "" + " -> " == " -> " && "\n" + node + " " + "" == "\n" + node + " "
  {
  }

  /** What `%s` prints, and `strdup` copies: the C string in the buffer. */
  method ReadText(s: array<char>) returns (t: string)
    requires NUL in s[..]
    ensures t == Text(s[..])
  {
    var n := StrLenOf(s);
    t := s[..n];
  }
}
