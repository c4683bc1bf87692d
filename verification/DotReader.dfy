/**
 * A reader for the part of the DOT language that the call graph uses: quoted node names, `->` chains and
 * `[color=grey]` attribute lists. It is the independent reference against which the written file is judged.
 * Inside a quoted string a backslash escapes the character after it: an escaped quote stands for a quote, an escaped
 * newline joins two lines and stands for nothing, and any other pair, two backslashes included, stands for itself.
 */
module DotReader {
  import opened Wrappers

  datatype Stmt = Chain(nodes: seq<string>) | Grey(name: string)

  datatype Mode =
    | Between
    | Quoted(acc: string)
    | Escape(acc: string)
    | Dash
    | Attr(acc: string)
    | Broken

  datatype Reader = Reader(stmts: seq<Stmt>, arrow: bool, mode: Mode)

  const START := Reader([], false, Between)

  // What the file starts with, and what closes it.
  const HEADER :=
    "digraph ftrace {\n" + "bgcolor=azure;\n" +
    " node [shape=box, color=lightblue2, style=filled];\n" + " edge [arrowsize=1, color=red];\n"
  const FOOTER := "}\n"

  /** Whether an arrow may follow: the last statement is a chain and no arrow is pending. */
  predicate CanExtend(r: Reader) {
    !r.arrow && r.stmts != [] && r.stmts[|r.stmts| - 1].Chain? && r.stmts[|r.stmts| - 1].nodes != []
  }

  /** The name at the end of the last statement. */
  function LastNode(r: Reader): string
    requires CanExtend(r.(arrow := false))
  {
    var nodes := r.stmts[|r.stmts| - 1].nodes;
    nodes[|nodes| - 1]
  }

  function AddNode(r: Reader, name: string): Reader {
    if r.arrow && r.stmts != [] && r.stmts[|r.stmts| - 1].Chain? then
      var k := |r.stmts| - 1;
      Reader(r.stmts[..k] + [Chain(r.stmts[k].nodes + [name])], false, Between)
    else
      Reader(r.stmts + [Chain([name])], false, Between)
  }

  function CloseAttr(r: Reader, acc: string): Reader {
    if acc == ATTR && CanExtend(r) && |r.stmts[|r.stmts| - 1].nodes| == 1 then
      var k := |r.stmts| - 1;
      Reader(r.stmts[..k] + [Grey(r.stmts[k].nodes[0])], false, Between)
    else
      r.(mode := Broken)
  }

  function ReadChar(r: Reader, c: char): Reader {
    match r.mode
    case Between =>
      if c == ' ' || c == '\n' then r
      else if c == '"' then r.(mode := Quoted(""))
      else if c == '-' then r.(mode := Dash)
      else if c == '[' then r.(mode := Attr(""))
      else r.(mode := Broken)
    case Quoted(acc) =>
      if c == '"' then AddNode(r, acc)
      else if c == '\\' then r.(mode := Escape(acc))
      else r.(mode := Quoted(acc + [c]))
    case Escape(acc) =>
      if c == '"' then r.(mode := Quoted(acc + [c]))
      else if c == '\n' then r.(mode := Quoted(acc))
      else r.(mode := Quoted(acc + ['\\', c]))
    case Dash =>
      if c == '>' && CanExtend(r) then r.(arrow := true, mode := Between) else r.(mode := Broken)
    case Attr(acc) =>
      if c == ']' then CloseAttr(r, acc) else r.(mode := Attr(acc + [c]))
    case Broken => r
  }

  function Read(r: Reader, s: string): Reader {
    if s == "" then r else ReadChar(Read(r, s[..|s| - 1]), s[|s| - 1])
  }

  /** The statements of a whole file, or nothing when the file is not of the expected form. */
  function ReadFile(file: string): Option<seq<Stmt>> {
    if |file| >= |HEADER| + |FOOTER| && HEADER <= file && file[|file| - |FOOTER|..] == FOOTER then
      var r := Read(START, file[|HEADER|..|file| - |FOOTER|]);
      if r.mode.Between? && !r.arrow then Some(r.stmts) else None
    else
      None
  }

  // ----- what a list of statements means

  type Edge = (string, string)

  function ChainEdges(nodes: seq<string>): seq<Edge> {
    if |nodes| < 2 then []
    else ChainEdges(nodes[..|nodes| - 1]) + [(nodes[|nodes| - 2], nodes[|nodes| - 1])]
  }

  function StmtEdges(s: Stmt): seq<Edge> {
    match s
    case Chain(nodes) => ChainEdges(nodes)
    case Grey(_) => []
  }

  function Edges(stmts: seq<Stmt>): seq<Edge> {
    if stmts == [] then []
    else Edges(stmts[..|stmts| - 1]) + StmtEdges(stmts[|stmts| - 1])
  }

  function Greys(stmts: seq<Stmt>): seq<string> {
    if stmts == [] then []
    else Greys(stmts[..|stmts| - 1])
         + (match stmts[|stmts| - 1] case Grey(l) => [l] case Chain(_) => [])
  }

  function StmtLabels(s: Stmt): set<string> {
    match s
    case Chain(nodes) => set n | n in nodes
    case Grey(l) => {l}
  }

  function Labels(stmts: seq<Stmt>): set<string> {
    if stmts == [] then {}
    else Labels(stmts[..|stmts| - 1]) + StmtLabels(stmts[|stmts| - 1])
  }

  predicate QuoteFree(l: string) { '"' !in l }

  // ----- what a text between quotes stands for

  /** A backslash is pending after l, and escapes what comes next: l ends in an odd number of backslashes. */
  predicate Escaped(l: string) {
    l != "" && l[|l| - 1] == '\\' && !Escaped(l[..|l| - 1])
  }

  /** Somewhere in l a backslash escapes a newline, which joins two lines. */
  ghost predicate JoinsLines(l: string) {
    exists k :: 0 <= k < |l| && l[k] == '\n' && Escaped(l[..k])
  }

  /** What the quote-free text l stands for between quotes, a pending backslash left out. */
  function Meaning(l: string): string {
    if l == "" then ""
    else
      var p, c := l[..|l| - 1], l[|l| - 1];
      if Escaped(l) then Meaning(p)
      else if !Escaped(p) then Meaning(p) + [c]
      else if c == '\n' then Meaning(p)
      else Meaning(p) + ['\\', c]
  }

  /** A text that stands for itself, and leaves the quote after it alone. */
  ghost predicate Whole(l: string) { !Escaped(l) && !JoinsLines(l) }

  lemma JoinsLinesStep(l: string)
    requires l != ""
    ensures var p := l[..|l| - 1];
            JoinsLines(l) <==> JoinsLines(p) || (l[|l| - 1] == '\n' && Escaped(p))
  {
    var p := l[..|l| - 1];
    assert forall k :: 0 <= k < |l| ==> l[..k] == p[..k];
    assert p[..|p|] == p;
    if JoinsLines(p) {
      var k :| 0 <= k < |p| && p[k] == '\n' && Escaped(p[..k]);
      assert l[k] == '\n' && Escaped(l[..k]);
    }
    if l[|l| - 1] == '\n' && Escaped(p) {
      assert Escaped(l[..|l| - 1]);
    }
  }

  /** A text is longer than what it stands for exactly if it joins lines; otherwise it stands for itself. */
  lemma {:induction false} MeaningIsWhole(l: string)
    ensures var m := if Escaped(l) then Meaning(l) + ['\\'] else Meaning(l);
            if JoinsLines(l) then |m| < |l| else m == l
  {
    if l != "" {
      var p, c := l[..|l| - 1], l[|l| - 1];
      MeaningIsWhole(p);
      JoinsLinesStep(l);
      assert l == p + [c];
    }
  }

  /** What a text stands for stands for itself. */
  lemma {:induction false} MeaningIsStable(l: string)
    ensures !Escaped(Meaning(l)) && Meaning(Meaning(l)) == Meaning(l)
  {
    if l != "" {
      var p, c := l[..|l| - 1], l[|l| - 1];
      var m := Meaning(p);
      MeaningIsStable(p);
      if !Escaped(l) {
        if !Escaped(p) {
          assert (m + [c])[..|m|] == m;
        } else if c != '\n' {
          assert (m + ['\\', c])[..|m| + 1] == m + ['\\'] && (m + ['\\'])[..|m|] == m;
        }
      }
    }
  }

  lemma MeaningWhole(l: string)
    ensures Whole(Meaning(l))
  {
    MeaningIsStable(l);
    MeaningIsWhole(Meaning(l));
  }

  lemma {:induction false} MeaningQuoteFree(l: string)
    requires QuoteFree(l)
    ensures QuoteFree(Meaning(l))
  {
    if l != "" {
      var p := l[..|l| - 1];
      assert forall x :: x in p ==> x in l;
      assert l[|l| - 1] in l;
      MeaningQuoteFree(p);
    }
  }

  // ----- reading text piece by piece

  lemma {:induction false} ReadAppend(r: Reader, a: string, b: string)
    ensures Read(r, a + b) == Read(Read(r, a), b)
  {
    if b == "" {
      assert a + b == a;
    } else {
      var k := |b| - 1;
      assert (a + b)[..|a + b| - 1] == a + b[..k];
      ReadAppend(r, a, b[..k]);
    }
  }

  lemma ReadOne(r: Reader, c: char)
    ensures Read(r, [c]) == ReadChar(r, c)
  {
    assert Read(r, [c][..0]) == r;
  }

  /** The state inside quotes once the quote-free text l has been read. */
  lemma {:induction false} ReadInQuotes(r: Reader, l: string)
    requires r.mode == Quoted("") && QuoteFree(l)
    ensures Read(r, l) == r.(mode := if Escaped(l) then Escape(Meaning(l)) else Quoted(Meaning(l)))
  {
    if l != "" {
      var p := l[..|l| - 1];
      assert forall x :: x in p ==> x in l;
      assert l[|l| - 1] in l;
      ReadInQuotes(r, p);
    }
  }

  function NodeText(name: string): string { "\"" + name + "\"" }

  /** A quoted text adds the name it stands for, unless a backslash at its end escapes the closing quote. */
  lemma ReadNode(r: Reader, l: string)
    requires r.mode.Between? && QuoteFree(l)
    ensures Read(r, NodeText(l)) ==
            if Escaped(l) then r.(mode := Quoted(Meaning(l) + ['"'])) else AddNode(r, Meaning(l))
  {
    var q := r.(mode := Quoted(""));
    ReadOne(r, '"');
    ReadAppend(r, "\"", l);
    ReadInQuotes(q, l);
    ReadAppend(r, "\"" + l, "\"");
    ReadOne(Read(r, "\"" + l), '"');
  }

  /** A name is read back as it is if and only if it is whole. */
  lemma ReadNodeIffWhole(r: Reader, l: string)
    requires r.mode.Between? && QuoteFree(l)
    ensures Read(r, NodeText(l)) == AddNode(r, l) <==> Whole(l)
  {
    ReadNode(r, l);
    MeaningIsWhole(l);
    if !Escaped(l) && Meaning(l) != l {
      AddNodeInjective(r, Meaning(l), l);
    }
  }

  lemma AddNodeInjective(r: Reader, a: string, b: string)
    requires a != b
    ensures AddNode(r, a) != AddNode(r, b)
  {
    var x, y := AddNode(r, a).stmts, AddNode(r, b).stmts;
    var k := |x| - 1;
    assert x[k].nodes[|x[k].nodes| - 1] == a && y[k].nodes[|x[k].nodes| - 1] == b;
  }

  lemma ReadArrow(r: Reader)
    requires r.mode.Between?
    ensures Read(r, " -> ") == if CanExtend(r) then r.(arrow := true) else r.(mode := Broken)
  {
    var s := " -> ";
    assert s[..3] == " ->" && s[..3][..2] == " -" && s[..3][..2][..1] == " ";
    ReadOne(r, ' ');
    assert Read(r, " -") == r.(mode := Dash);
    assert Read(r, " ->") == ReadChar(r.(mode := Dash), '>');
  }

  lemma ReadSpace(r: Reader)
    requires r.mode.Between?
    ensures Read(r, " ") == r && Read(r, "\n") == r
  {
    ReadOne(r, ' ');
    ReadOne(r, '\n');
  }

  const ATTR := "color=grey"
  const GREY := " [" + ATTR + "]"

  lemma {:induction false} ReadAttrText(r: Reader, s: string)
    requires r.mode == Attr("") && ']' !in s
    ensures Read(r, s) == r.(mode := Attr(s))
  {
    if s != "" {
      var p := s[..|s| - 1];
      assert forall c :: c in p ==> c in s;
      ReadAttrText(r, p);
      assert s == p + [s[|s| - 1]];
    }
  }

  lemma ReadBracket(r: Reader, s: string)
    requires r.mode.Between? && ']' !in s
    ensures Read(r, " [" + s + "]") == CloseAttr(r.(mode := Attr(s)), s)
  {
    var a := r.(mode := Attr(""));
    ReadSpace(r);
    ReadOne(r, '[');
    ReadAppend(r, " ", "[");
    assert " " + "[" == " [";
    ReadAppend(r, " [", s);
    ReadAttrText(a, s);
    ReadAppend(r, " [" + s, "]");
    ReadOne(r.(mode := Attr(s)), ']');
  }

  // ----- damage is permanent

  ghost predicate HasQuote(stmts: seq<Stmt>) {
    exists l :: l in Labels(stmts) && !QuoteFree(l)
  }

  /** The reader has given up, or some name it has read or is reading holds a quote. */
  ghost predicate Spoiled(r: Reader) {
    || r.mode.Broken?
    || (r.mode.Quoted? && !QuoteFree(r.mode.acc))
    || (r.mode.Escape? && !QuoteFree(r.mode.acc))
    || HasQuote(r.stmts)
  }

  lemma SpoiledStep(r: Reader, c: char)
    requires Spoiled(r)
    ensures Spoiled(ReadChar(r, c))
  {
    var r' := ReadChar(r, c);
    if HasQuote(r.stmts) {
      var l :| l in Labels(r.stmts) && !QuoteFree(l);
      LabelsKept(r, c);
      assert l in Labels(r'.stmts);
    } else if r.mode.Quoted? && c == '"' {
      AddNodeLabels(r, r.mode.acc);
      assert r.mode.acc in Labels(r'.stmts);
    }
  }

  lemma AddNodeLabels(r: Reader, l: string)
    ensures Labels(AddNode(r, l).stmts) == Labels(r.stmts) + {l}
  {
    var r' := AddNode(r, l);
    var k := |r'.stmts| - 1;
    assert r'.stmts[..k] == r.stmts[..k];
    if k == |r.stmts| {
      assert r.stmts[..k] == r.stmts;
    } else {
      assert r'.stmts[k].nodes == r.stmts[k].nodes + [l];
    }
  }

  lemma CloseAttrLabels(r: Reader, acc: string)
    ensures Labels(CloseAttr(r, acc).stmts) == Labels(r.stmts)
  {
    var r' := CloseAttr(r, acc);
    if !r'.mode.Broken? {
      var k := |r.stmts| - 1;
      assert r'.stmts[..k] == r.stmts[..k];
    }
  }

  lemma LabelsKept(r: Reader, c: char)
    ensures Labels(r.stmts) <= Labels(ReadChar(r, c).stmts)
  {
    if r.mode.Quoted? && c == '"' {
      AddNodeLabels(r, r.mode.acc);
    } else if r.mode.Attr? && c == ']' {
      CloseAttrLabels(r, r.mode.acc);
    }
  }

  lemma {:induction false} SpoiledForever(r: Reader, s: string)
    requires Spoiled(r)
    ensures Spoiled(Read(r, s))
  {
    if s != "" {
      SpoiledForever(r, s[..|s| - 1]);
      SpoiledStep(Read(r, s[..|s| - 1]), s[|s| - 1]);
    }
  }

  // ----- what the three ways to add a node do to the meaning

  lemma AddNodeMeaning(r: Reader, l: string)
    requires r.arrow ==> CanExtend(r.(arrow := false))
    ensures var r' := AddNode(r, l);
            && CanExtend(r') && LastNode(r') == l
            && Greys(r'.stmts) == Greys(r.stmts)
            && Labels(r'.stmts) == Labels(r.stmts) + {l}
    ensures !r.arrow ==> Edges(AddNode(r, l).stmts) == Edges(r.stmts)
    ensures r.arrow ==> Edges(AddNode(r, l).stmts) == Edges(r.stmts) + [(LastNode(r), l)]
  {
    AddNodeLabels(r, l);
    var r' := AddNode(r, l);
    var k := |r'.stmts| - 1;
    if r.arrow {
      assert r'.stmts[..k] == r.stmts[..k];
      var nodes := r.stmts[k].nodes;
      assert (nodes + [l])[..|nodes|] == nodes;
    } else {
      assert r'.stmts[..k] == r.stmts;
    }
  }

  lemma CloseAttrMeaning(r: Reader, l: string)
    requires !r.arrow
    ensures var r' := CloseAttr(AddNode(r, l), ATTR);
            && r'.mode.Between? && !r'.arrow
            && r'.stmts == r.stmts + [Grey(l)]
            && Edges(r'.stmts) == Edges(r.stmts)
            && Greys(r'.stmts) == Greys(r.stmts) + [l]
            && Labels(r'.stmts) == Labels(r.stmts) + {l}
  {
    var m := AddNode(r, l);
    AddNodeLabels(r, l);
    CloseAttrLabels(m, ATTR);
    var r' := CloseAttr(m, ATTR);
    assert r'.stmts == r.stmts + [Grey(l)];
    assert r'.stmts[..|r'.stmts| - 1] == r.stmts;
  }
}
