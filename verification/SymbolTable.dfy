/** Symbol tables: filled from an ELF file into an array that an all-zero entry ends, sorted in place, and searched. */
module SymbolTable {
  import opened Wrappers
  import opened Words
  import opened SymbolOrder

  datatype Symbol = Symbol(value: nat, kind: int, name: Option<nat>)

  const ZERO := Symbol(0, 0, None)

  /** What every loop over a table tests: an entry, as opposed to the all-zero end. */
  predicate IsEntry(s: Symbol) {
    s.value != 0 || s.kind != 0 || s.name.Some?
  }

  // ----- sorting

  /** The name of an entry can be compared: it lies in the table, and skipping from it stops. */
  ghost predicate Comparable(tab: seq<char>, s: Symbol) {
    s.name.Some? && s.name.value <= |tab| && Stops(tab, s.name.value)
  }

  function KeyOf(tab: seq<char>, mode: int, s: Symbol): string
    requires Comparable(tab, s)
  {
    Key(tab, mode, s.name.value)
  }

  ghost predicate Leq(tab: seq<char>, mode: int, s: Symbol, t: Symbol) {
    Comparable(tab, s) && Comparable(tab, t) && Before(KeyOf(tab, mode, s), KeyOf(tab, mode, t))
  }

  lemma LeqTransitive(tab: seq<char>, mode: int, s: Symbol, t: Symbol, u: Symbol)
    requires Leq(tab, mode, s, t) && Leq(tab, mode, t, u)
    ensures Leq(tab, mode, s, u)
  {
    KeysArePreordered(tab, mode, s.name.value, t.name.value, u.name.value);
  }

  lemma LeqTotal(tab: seq<char>, mode: int, s: Symbol, t: Symbol)
    requires Comparable(tab, s) && Comparable(tab, t)
    ensures Leq(tab, mode, s, t) || Leq(tab, mode, t, s)
    ensures Leq(tab, mode, s, s)
  {
    KeysArePreordered(tab, mode, s.name.value, t.name.value, t.name.value);
    KeysArePreordered(tab, mode, s.name.value, s.name.value, s.name.value);
  }

  /** n entries, then the end: the shape every table must have for its loops to stop inside it. */
  ghost predicate EndsAt(list: seq<Symbol>, n: nat) {
    n < |list| && !IsEntry(list[n]) && forall k :: 0 <= k < n ==> IsEntry(list[k])
  }

  ghost predicate HasEnd(list: seq<Symbol>) {
    exists n: nat :: EndsAt(list, n)
  }

  ghost predicate AllComparable(tab: seq<char>, list: seq<Symbol>) {
    forall s :: s in list ==> Comparable(tab, s)
  }

  ghost predicate Sorted(tab: seq<char>, mode: int, list: seq<Symbol>) {
    forall k, m :: 0 <= k < m < |list| ==> Leq(tab, mode, list[k], list[m])
  }

  function Swapped(s: seq<Symbol>, i: nat, j: nat): seq<Symbol>
    requires i < |s| && j < |s|
  {
    s[i := s[j]][j := s[i]]
  }

  method Swap(a: array<Symbol>, i: nat, j: nat)
    requires i < a.Length && j < a.Length
    modifies a
    ensures a[..] == Swapped(old(a[..]), i, j)
  {
    var c := a[i];
    a[i] := a[j];
    a[j] := c;
  }

  lemma SwapPermutes(s: seq<Symbol>, i: nat, j: nat)
    requires i < |s| && j < |s|
    ensures multiset(Swapped(s, i, j)) == multiset(s)
  {
  }

  /** Swapping inside a stretch permutes that stretch and leaves the rest alone. */
  lemma SwapInside(s: seq<Symbol>, i: nat, j: nat, lo: nat, hi: nat)
    requires lo <= i < hi && lo <= j < hi <= |s|
    ensures var t := Swapped(s, i, j);
            multiset(t[lo..hi]) == multiset(s[lo..hi]) && t[..lo] == s[..lo] && t[hi..] == s[hi..]
  {
    SwapPermutes(s[lo..hi], i - lo, j - lo);
    assert Swapped(s, i, j)[lo..hi] == Swapped(s[lo..hi], i - lo, j - lo);
  }

  /** Whether entry i must trade places with entry j. */
  method Compare(tab: seq<char>, sort: int, s: Symbol, t: Symbol) returns (greater: bool)
    requires Comparable(tab, s) && Comparable(tab, t)
    ensures greater ==> Leq(tab, sort, t, s)
    ensures !greater ==> Leq(tab, sort, s, t)
  {
    if sort == 24 {
      greater := StrCmp(NameAt(tab, s.name.value), NameAt(tab, t.name.value)) > 0;
      StrCmpIsBefore(NameAt(tab, s.name.value), NameAt(tab, t.name.value));
    } else {
      var r := YoloCmp(tab, s.name.value, t.name.value);
      greater := r > 0;
    }
    LeqTotal(tab, sort, s, t);
  }

  /** Between two steps of the inner loop, on values: the stretch from i to n is permuted, its least so far at i. */
  ghost predicate Selecting(tab: seq<char>, sort: int, was: seq<Symbol>, now: seq<Symbol>, i: nat, j: nat, n: nat) {
    && i < n <= |was| == |now| && i <= j <= n
    && now[..i] == was[..i] && now[n..] == was[n..]
    && multiset(now[i..n]) == multiset(was[i..n])
    && forall m :: i < m < j ==> Leq(tab, sort, now[i], now[m])
  }

  lemma SelectSame(tab: seq<char>, sort: int, was: seq<Symbol>, now: seq<Symbol>, i: nat, j: nat, n: nat)
    requires Selecting(tab, sort, was, now, i, j, n) && j < n && Leq(tab, sort, now[i], now[j])
    ensures Selecting(tab, sort, was, now, i, j + 1, n)
  {
  }

  lemma SelectSwap(tab: seq<char>, sort: int, was: seq<Symbol>, now: seq<Symbol>, i: nat, j: nat, n: nat)
    requires Selecting(tab, sort, was, now, i, j, n) && j < n && Leq(tab, sort, now[j], now[i])
    ensures Selecting(tab, sort, was, Swapped(now, i, j), i, j + 1, n)
  {
    var t := Swapped(now, i, j);
    SwapInside(now, i, j, i, n);
    forall m | i < m < j + 1
      ensures Leq(tab, sort, t[i], t[m])
    {
      if m < j {
        LeqTransitive(tab, sort, now[j], now[i], now[m]);
      }
    }
  }

  /** Permuting a stretch leaves what holds of all its symbols. */
  lemma StillComparable(tab: seq<char>, was: seq<Symbol>, now: seq<Symbol>)
    requires multiset(was) == multiset(now) && AllComparable(tab, was)
    ensures AllComparable(tab, now)
  {
    forall s | s in now
      ensures Comparable(tab, s)
    {
      assert s in multiset(now);
    }
  }

  /** A stretch of comparable symbols that all count as entries. */
  ghost predicate Ready(tab: seq<char>, list: seq<Symbol>, n: nat) {
    EndsAt(list, n) && AllComparable(tab, list[..n])
  }

  lemma StillReady(tab: seq<char>, sort: int, was: seq<Symbol>, now: seq<Symbol>, i: nat, j: nat, n: nat)
    requires Ready(tab, was, n) && Selecting(tab, sort, was, now, i, j, n)
    ensures Ready(tab, now, n) && multiset(now[..n]) == multiset(was[..n])
  {
    assert was[..n] == was[..i] + was[i..n] && now[..n] == now[..i] + now[i..n];
    StillComparable(tab, was[..n], now[..n]);
    assert now[n] == now[n..][0] && was[n] == was[n..][0];
    forall k | 0 <= k < n
      ensures IsEntry(now[k])
    {
      assert now[..n][k] in now[..n];
    }
  }

  /** The inner loop: the least entry from i on ends up at i. */
  method SelectLeast(list: array<Symbol>, tab: seq<char>, sort: int, ghost n: nat, i: nat)
    requires i < n && Ready(tab, list[..], n)
    modifies list
    ensures Ready(tab, list[..], n) && Selecting(tab, sort, old(list[..]), list[..], i, n, n)
  {
    ghost var was := list[..];
    var j := i;
    while IsEntry(list[j])
      invariant i <= j <= n
      invariant Selecting(tab, sort, was, list[..], i, j, n)
      invariant Ready(tab, list[..], n)
      decreases n - j
    {
      ghost var now := list[..];
      assert list[i] in list[..n] && list[j] in list[..n];
      var greater := Compare(tab, sort, list[i], list[j]);
      if greater {
        SelectSwap(tab, sort, was, now, i, j, n);
        Swap(list, i, j);
      } else {
        SelectSame(tab, sort, was, now, i, j, n);
      }
      j := j + 1;
      StillReady(tab, sort, was, list[..], i, j, n);
    }
  }

  /** The state between two steps of the outer loop, on values: the first i entries are final. */
  ghost predicate Sorting(tab: seq<char>, sort: int, was: seq<Symbol>, now: seq<Symbol>, i: nat, n: nat) {
    && i <= n <= |was| == |now|
    && now[n..] == was[n..] && multiset(now[..n]) == multiset(was[..n])
    && forall k, m :: 0 <= k < i && k < m < n ==> Leq(tab, sort, now[k], now[m])
  }

  /** Every symbol of a permuted stretch was in the stretch before. */
  lemma Origin(was: seq<Symbol>, now: seq<Symbol>, i: nat, n: nat, m: nat) returns (o: nat)
    requires i <= m < n <= |was| == |now| && multiset(now[i..n]) == multiset(was[i..n])
    ensures i <= o < n && was[o] == now[m]
  {
    assert now[m] == now[i..n][m - i];
    assert now[m] in multiset(now[i..n]);
    assert now[m] in was[i..n];
    var d :| 0 <= d < n - i && was[i..n][d] == now[m];
    o := i + d;
  }

  lemma SamePrefix(was: seq<Symbol>, now: seq<Symbol>, i: nat, k: nat)
    requires k < i <= |was| == |now| && now[..i] == was[..i]
    ensures now[k] == was[k]
  {
    assert now[..i][k] == was[..i][k];
  }

  lemma SortStep(tab: seq<char>, sort: int, was: seq<Symbol>, now: seq<Symbol>, next: seq<Symbol>, i: nat, n: nat)
    requires Ready(tab, now, n) && Sorting(tab, sort, was, now, i, n) && Selecting(tab, sort, now, next, i, n, n)
    ensures Sorting(tab, sort, was, next, i + 1, n)
  {
    assert multiset(next[..n]) == multiset(now[..n]) by {
      StillReady(tab, sort, now, next, i, n, n);
    }
    forall k, m | 0 <= k < i + 1 && k < m < n
      ensures Leq(tab, sort, next[k], next[m])
    {
      if k < i {
        SamePrefix(now, next, i, k);
        if m < i {
          SamePrefix(now, next, i, m);
        } else {
          var o := Origin(now, next, i, n, m);
          assert Leq(tab, sort, now[k], now[o]);
        }
      }
    }
  }

  /** The exchange sort of `sort_sym`: the entries before the end in order, the end and all after it in place. */
  method SortSym(list: array<Symbol>, tab: seq<char>, sort: int, ghost n: nat)
    requires Ready(tab, list[..], n)
    modifies list
    ensures multiset(list[..n]) == multiset(old(list[..n]))
    ensures list[n..] == old(list[n..]) && EndsAt(list[..], n)
    ensures Sorted(tab, sort, list[..n])
  {
    ghost var was := list[..];
    var i := 0;
    while IsEntry(list[i])
      invariant i <= n && Ready(tab, list[..], n)
      invariant Sorting(tab, sort, was, list[..], i, n)
      decreases n - i
    {
      ghost var now := list[..];
      SelectLeast(list, tab, sort, n, i);
      SortStep(tab, sort, was, now, list[..], i, n);
      i := i + 1;
    }
    assert list[..][..n] == list[..n] && was[..n] == old(list[..n]);
  }

  // ----- filling a table from a file

  const STT_NOTYPE: nat := 0
  const STT_SECTION: nat := 3
  const STT_FILE: nat := 4
  const SHN_UNDEF: nat := 0
  const SHN_ABS: nat := 0xfff1
  const SHN_COMMON: nat := 0xfff2
  const STB_LOCAL: nat := 0
  const STB_WEAK: nat := 2

  datatype ElfSym = ElfSym(info: Byte, shndx: nat, value: Word, name: nat)
  datatype Section = Section(kind: nat, flags: nat)

  /**
   * The parts of a mapped file that are read: its length and where its section headers start, what memory holds in the
   * place of each header, its symbols, if it has any, and its bytes from the string table on.
   */
  datatype Elf = Elf(len: nat, shoff: nat, headers: nat -> Section, syms: Option<seq<ElfSym>>, tab: seq<char>)

  const SHDR_SIZE: nat := 64

  function SectionOf(elf: Elf, sym: ElfSym): Section { elf.headers(sym.shndx) }

  /** The header of the symbol's section starts past the end of the file. */
  predicate PastEnd(elf: Elf, sym: ElfSym) { elf.shoff + SHDR_SIZE * sym.shndx > elf.len }

  datatype KindRow = KindRow(letter: char, kind: nat, flags: nat)

  // SHT_NULL is 0, SHT_PROGBITS 1 and SHT_NOBITS 8; SHF_WRITE is 1, SHF_ALLOC 2 and SHF_EXECINSTR 4.
  const KINDS: seq<KindRow> := [
    KindRow('B', 8, 3), KindRow('R', 1, 2), KindRow('D', 1, 3),
    KindRow('U', 0, 0), KindRow('T', 1, 6), KindRow('R', 1, 0)
  ]

  /** The letter of a symbol's section, -1 when its header starts past the end of the file. */
  method GetType(elf: Elf, sym: ElfSym) returns (letter: int)
    ensures letter == LetterOf(elf, sym)
  {
    if sym.shndx == SHN_UNDEF {
      return 'U' as int;
    }
    if sym.shndx == SHN_COMMON {
      return 'C' as int;
    }
    if sym.shndx == SHN_ABS {
      return 'A' as int;
    }
    var i := 0;
    while i < |KINDS|
      invariant i <= |KINDS|
      invariant i > 0 ==> !PastEnd(elf, sym)
      invariant forall k :: 0 <= k < i ==> !RowMatches(KINDS[k], SectionOf(elf, sym))
    {
      if PastEnd(elf, sym) {
        return -1;
      }
      var section := SectionOf(elf, sym);
      if section.kind == KINDS[i].kind && section.flags == KINDS[i].flags {
        return KINDS[i].letter as int;
      }
      i := i + 1;
    }
    letter := '?' as int;
    assert forall k :: 0 <= k < 6 ==> !RowMatches(KINDS[k], SectionOf(elf, sym));
    assert !RowMatches(KINDS[0], SectionOf(elf, sym)) && !RowMatches(KINDS[1], SectionOf(elf, sym));
    assert !RowMatches(KINDS[2], SectionOf(elf, sym)) && !RowMatches(KINDS[3], SectionOf(elf, sym));
    assert !RowMatches(KINDS[4], SectionOf(elf, sym)) && !RowMatches(KINDS[5], SectionOf(elf, sym));
  }

  predicate RowMatches(row: KindRow, s: Section) {
    s.kind == row.kind && s.flags == row.flags
  }

  /** Zero-filled data that can be written, constants, data, code: by type and flags of the section. */
  function SectionLetter(s: Section): char {
    match (s.kind, s.flags)
    case (8, 3) => 'B'
    case (1, 0) => 'R'
    case (1, 2) => 'R'
    case (1, 3) => 'D'
    case (1, 6) => 'T'
    case (0, 0) => 'U'
    case _ => '?'
  }

  function LetterOf(elf: Elf, sym: ElfSym): int {
    if sym.shndx == SHN_UNDEF then 'U' as int
    else if sym.shndx == SHN_COMMON then 'C' as int
    else if sym.shndx == SHN_ABS then 'A' as int
    else if PastEnd(elf, sym) then -1
    else SectionLetter(SectionOf(elf, sym)) as int
  }

  /** The entry of a symbol: value modulo 2^32; `w` for a weak one, a small letter for a local one; its name. */
  function FillSymbol(elf: Elf, sym: ElfSym): Symbol {
    var letter := LetterOf(elf, sym);
    var bind := sym.info / 16;
    var kind := if bind == STB_WEAK then 'w' as int
                else if bind == STB_LOCAL && 'A' as int <= letter <= 'Z' as int then letter + 0x20
                else letter;
    Symbol(sym.value % TWO32, kind, Some(sym.name))
  }

  /** `fill_symbol`, on one slot of the table. */
  method FillSlot(elf: Elf, sym: ElfSym, list: array<Symbol>, i: nat)
    requires i < list.Length
    modifies list
    ensures list[..] == old(list[..])[i := FillSymbol(elf, sym)]
  {
    var letter := GetType(elf, sym);
    list[i] := list[i].(value := sym.value % TWO32);
    list[i] := list[i].(kind := letter);
    if sym.info / 16 == STB_LOCAL && 'A' as int <= list[i].kind <= 'Z' as int {
      list[i] := list[i].(kind := list[i].kind + 0x20);
    }
    if sym.info / 16 == STB_WEAK {
      list[i] := list[i].(kind := 'w' as int);
    }
    list[i] := list[i].(name := Some(sym.name));
  }

  /** The entry of a symbol of a code section: its value's low 32 bits, a letter by its binding, and its name. */
  lemma CodeEntry(elf: Elf, sym: ElfSym)
    requires 0 < sym.shndx < 0xfff1 && elf.shoff + 64 * sym.shndx <= elf.len && SectionOf(elf, sym) == Section(1, 6)
    requires sym.info < 0x30
    ensures var letter := if sym.info < 0x10 then 't' else if sym.info < 0x20 then 'T' else 'w';
            FillSymbol(elf, sym) == Symbol(sym.value % 0x1_0000_0000, letter as int, Some(sym.name))
  {
  }

  /** The letters of symbols that lie in no section, small for local ones. */
  lemma SectionlessEntry(elf: Elf, sym: ElfSym)
    requires sym.info < 0x20
    ensures var kind := FillSymbol(elf, sym).kind;
            && (sym.shndx == 0 ==> kind == (if sym.info < 0x10 then 'u' else 'U') as int)
            && (sym.shndx == 0xfff1 ==> kind == (if sym.info < 0x10 then 'a' else 'A') as int)
            && (sym.shndx == 0xfff2 ==> kind == (if sym.info < 0x10 then 'c' else 'C') as int)
  {
  }

  predicate IsKept(sym: ElfSym) {
    sym.info != STT_FILE && sym.info != STT_SECTION && sym.info != STT_NOTYPE
  }

  /** The table a symbol section is turned into: one entry per kept symbol, in order. */
  function Filled(elf: Elf, syms: seq<ElfSym>): (r: seq<Symbol>)
    ensures |r| <= |syms|
    ensures forall s :: s in r ==> IsEntry(s)
  {
    if syms == [] then []
    else
      var n := |syms| - 1;
      Filled(elf, syms[..n]) + (if IsKept(syms[n]) then [FillSymbol(elf, syms[n])] else [])
  }

  predicate NamesInFile(elf: Elf, syms: seq<ElfSym>) {
    forall s :: s in syms && IsKept(s) ==> s.name <= |elf.tab|
  }

  /** `get_sym`: no table without a symbol section, nor when the name of a kept symbol lies past the end of the file. */
  method GetSym(elf: Elf) returns (list: array?<Symbol>)
    ensures list == null <==> elf.syms.None? || !NamesInFile(elf, elf.syms.value)
    ensures list != null ==>
              var f := Filled(elf, elf.syms.value);
              && fresh(list) && list.Length == |elf.syms.value|
              && list[..|f|] == f
              && (forall k :: |f| <= k < list.Length ==> list[k] == ZERO)
              && (HasEnd(list[..]) <==> exists y :: y in elf.syms.value && !IsKept(y))
  {
    if elf.syms.None? {
      return null;
    }
    var syms := elf.syms.value;
    var a := new Symbol[|syms|](_ => ZERO);
    var tmp, i := 0, 0;
    while tmp < |syms|
      invariant tmp <= |syms| && i == |Filled(elf, syms[..tmp])| <= tmp
      invariant NamesInFile(elf, syms[..tmp])
      invariant a[..i] == Filled(elf, syms[..tmp])
      invariant forall k :: i <= k < a.Length ==> a[k] == ZERO
    {
      FilledStep(elf, syms, tmp);
      if IsKept(syms[tmp]) {
        if syms[tmp].name > |elf.tab| {
          return null;
        }
        FillSlot(elf, syms[tmp], a, i);
        i := i + 1;
      }
      tmp := tmp + 1;
    }
    assert syms[..tmp] == syms;
    list := a;
    EndIff(elf, syms, list[..]);
  }

  lemma FilledStep(elf: Elf, syms: seq<ElfSym>, n: nat)
    requires n < |syms|
    ensures Filled(elf, syms[..n + 1])
            == Filled(elf, syms[..n]) + if IsKept(syms[n]) then [FillSymbol(elf, syms[n])] else []
    ensures NamesInFile(elf, syms[..n + 1]) <==>
              NamesInFile(elf, syms[..n]) && (IsKept(syms[n]) ==> syms[n].name <= |elf.tab|)
    ensures NamesInFile(elf, syms) ==> NamesInFile(elf, syms[..n + 1])
  {
    assert syms[..n + 1][..n] == syms[..n];
    assert syms[..n + 1] == syms[..n] + [syms[n]];
  }

  /** Every kept symbol is an entry of the table, and every entry comes from a kept symbol. */
  lemma {:induction false} FilledFromKept(elf: Elf, syms: seq<ElfSym>, s: Symbol)
    ensures s in Filled(elf, syms) <==> exists y :: y in syms && y.info !in {0, 3, 4} && FillSymbol(elf, y) == s
  {
    if syms != [] {
      var n := |syms| - 1;
      FilledFromKept(elf, syms[..n], s);
      assert forall y :: y in syms <==> y in syms[..n] || y == syms[n];
    }
  }

  /** There is room for the end mark exactly when some symbol is left out, as the null symbol in front always is. */
  lemma {:induction false} RoomForEndIff(elf: Elf, syms: seq<ElfSym>)
    ensures |Filled(elf, syms)| < |syms| <==> exists y :: y in syms && !IsKept(y)
  {
    if syms != [] {
      var n := |syms| - 1;
      RoomForEndIff(elf, syms[..n]);
      assert forall y :: y in syms <==> y in syms[..n] || y == syms[n];
    }
  }

  /** The end lies inside the array exactly when some symbol is left out. */
  lemma EndIff(elf: Elf, syms: seq<ElfSym>, list: seq<Symbol>)
    requires |list| == |syms|
    requires var f := Filled(elf, syms);
             list[..|f|] == f && forall k :: |f| <= k < |list| ==> list[k] == ZERO
    ensures HasEnd(list) <==> exists y :: y in syms && !IsKept(y)
  {
    RoomForEndIff(elf, syms);
    var f := Filled(elf, syms);
    assert forall k :: 0 <= k < |f| ==> list[k] == f[k] && f[k] in f;
    if |f| < |list| {
      assert EndsAt(list, |f|);
    }
  }

  /** A file whose one symbol is a global function, without the null symbol in front: its table has no end. */
  lemma NoEndWithoutNull(elf: Elf, list: seq<Symbol>)
    requires elf.syms == Some([ElfSym(0x12, 1, 0x1000, 0)]) && list == Filled(elf, elf.syms.value)
    ensures |list| == 1 && !HasEnd(list)
  {
    var syms := elf.syms.value;
    assert syms[..0] == [];
    EndIff(elf, syms, list);
  }

  // ----- a table ready for use, and what a search of it finds

  ghost predicate NamesStop(elf: Elf, syms: seq<ElfSym>) {
    forall y :: y in syms && IsKept(y) && y.name <= |elf.tab| ==> Stops(elf.tab, y.name)
  }

  /** The table of a file: its kept symbols in order, and an end behind them. */
  ghost predicate TableFor(elf: Elf, list: seq<Symbol>) {
    && elf.syms.Some? && NamesInFile(elf, elf.syms.value)
    && var f := Filled(elf, elf.syms.value);
    && EndsAt(list, |f|)
    && multiset(list[..|f|]) == multiset(f)
    && Sorted(elf.tab, 0, list[..|f|])
  }

  /** What a file must be like for the loops to stay inside their arrays. */
  ghost predicate Loadable(elf: Elf) {
    elf.syms.Some? ==> NamesStop(elf, elf.syms.value) && exists y :: y in elf.syms.value && !IsKept(y)
  }

  /** `print_sym`: the kept symbols, sorted, and the end mark inside the allocation. */
  method PrintSym(elf: Elf) returns (list: array?<Symbol>)
    requires Loadable(elf)
    ensures list == null <==> elf.syms.None? || !NamesInFile(elf, elf.syms.value)
    ensures list != null ==> TableFor(elf, list[..])
  {
    list := GetSym(elf);
    if list == null {
      return;
    }
    ghost var syms := elf.syms.value;
    ghost var f := Filled(elf, syms);
    RoomForEndIff(elf, syms);
    forall s | s in f
      ensures Comparable(elf.tab, s)
    {
      FilledFromKept(elf, syms, s);
    }
    assert forall k :: 0 <= k < |f| ==> list[k] == list[..|f|][k] && f[k] in f;
    SortSym(list, elf.tab, 0, |f|);
  }

  /** `resolve_symbol_lib`: the name of the first symbol with the address as its value. */
  method ResolveSymbolLib(addr: Word, symbols: Option<seq<Symbol>>) returns (found: Option<nat>)
    requires symbols.Some? ==> HasEnd(symbols.value)
    ensures found == if symbols.None? || addr == 0 then None else FirstName(symbols.value, addr)
  {
    if symbols.None? || addr == 0 {
      return None;
    }
    var list := symbols.value;
    ghost var n: nat :| EndsAt(list, n);
    var i := 0;
    while list[i].name.Some?
      invariant i <= n
      invariant FirstName(list, addr) == FirstName(list[i..], addr)
      decreases n - i
    {
      if list[i].value == addr {
        return list[i].name;
      }
      assert list[i..][1..] == list[i + 1..];
      i := i + 1;
    }
    found := None;
  }

  function FirstName(list: seq<Symbol>, addr: Word): Option<nat> {
    if list == [] || list[0].name.None? then None
    else if list[0].value == addr then list[0].name
    else FirstName(list[1..], addr)
  }

  /** Where the search of a table stops: at the first entry with the value, or at the end. */
  lemma {:induction false} SearchStops(list: seq<Symbol>, n: nat, addr: Word) returns (i: nat)
    requires n <= |list| && (n < |list| ==> list[n].name.None?)
    requires forall k :: 0 <= k < n ==> list[k].name.Some?
    ensures i <= n && forall k :: 0 <= k < i ==> list[k].value != addr
    ensures i < n ==> list[i].value == addr && FirstName(list, addr) == list[i].name
    ensures i == n ==> FirstName(list, addr) == None
  {
    if n == 0 || list[0].value == addr {
      i := 0;
    } else {
      var j := SearchStops(list[1..], n - 1, addr);
      i := j + 1;
    }
  }

  /** A symbol that is none of untyped, section and file, both its binding and type being read, with the value. */
  predicate HasValue(y: ElfSym, addr: Word) { y.info !in {0, 3, 4} && y.value % 0x1_0000_0000 == addr }

  /** The name of y comes no later than that of z, by the text after the skipping, in one case. */
  ghost predicate NoLater(elf: Elf, y: ElfSym, z: ElfSym) {
    && y.name <= |elf.tab| && Stops(elf.tab, y.name)
    && z.name <= |elf.tab| && Stops(elf.tab, z.name)
    && Before(Key(elf.tab, 0, y.name), Key(elf.tab, 0, z.name))
  }

  /** A kept symbol with the value, whose name comes no later than that of any kept symbol with the value. */
  ghost predicate LeastWith(elf: Elf, syms: seq<ElfSym>, addr: Word, y: ElfSym) {
    && y in syms && HasValue(y, addr)
    && forall z :: z in syms && HasValue(z, addr) ==> NoLater(elf, y, z)
  }

  /**
   * Filling, sorting and searching together: if some kept symbol has the value, modulo 2^32, the name found is that of
   * one least in the order among all that have it; otherwise none is found.
   */
  lemma LookupFindsLeast(elf: Elf, list: seq<Symbol>, addr: Word)
    requires TableFor(elf, list) && NamesStop(elf, elf.syms.value)
    ensures FirstName(list, addr).None? <==> forall z :: z in elf.syms.value ==> !HasValue(z, addr)
    ensures FirstName(list, addr).Some? ==>
              exists y :: LeastWith(elf, elf.syms.value, addr, y) && FirstName(list, addr) == Some(y.name)
  {
    var syms := elf.syms.value;
    var n := |Filled(elf, syms)|;
    forall k | 0 <= k < n
      ensures list[k].name.Some?
    {
      var y := Behind(elf, list, k);
    }
    var i := SearchStops(list, n, addr);
    forall z | z in syms && HasValue(z, addr)
      ensures i < n && Leq(elf.tab, 0, list[i], FillSymbol(elf, z))
    {
      NotBefore(elf, list, addr, i, z);
    }
    if i < n {
      var y := Behind(elf, list, i);
      forall z | z in syms && HasValue(z, addr)
        ensures NoLater(elf, y, z)
      {
        assert Leq(elf.tab, 0, FillSymbol(elf, y), FillSymbol(elf, z));
      }
      assert LeastWith(elf, syms, addr, y);
    }
  }

  /** A kept symbol with the value has its entry at or after the place where the search stops, so it is no less. */
  lemma NotBefore(elf: Elf, list: seq<Symbol>, addr: Word, i: nat, z: ElfSym)
    requires elf.syms.Some? && NamesInFile(elf, elf.syms.value) && NamesStop(elf, elf.syms.value)
    requires var n := |Filled(elf, elf.syms.value)|;
             && n <= |list| && Sorted(elf.tab, 0, list[..n])
             && multiset(list[..n]) == multiset(Filled(elf, elf.syms.value))
             && i <= n && forall k :: 0 <= k < i ==> list[k].value != addr
    requires z in elf.syms.value && HasValue(z, addr)
    ensures i < |Filled(elf, elf.syms.value)| && Leq(elf.tab, 0, list[i], FillSymbol(elf, z))
  {
    var n := |Filled(elf, elf.syms.value)|;
    var k := Ahead(elf, list, z);
    if i < k {
      assert Leq(elf.tab, 0, list[..n][i], list[..n][k]);
    } else {
      LeqTotal(elf.tab, 0, list[k], list[k]);
    }
  }

  /** The kept symbol an entry was filled from. */
  lemma Behind(elf: Elf, list: seq<Symbol>, k: nat) returns (y: ElfSym)
    requires elf.syms.Some?
    requires var n := |Filled(elf, elf.syms.value)|;
             k < n <= |list| && multiset(list[..n]) == multiset(Filled(elf, elf.syms.value))
    ensures y in elf.syms.value && IsKept(y) && FillSymbol(elf, y) == list[k]
  {
    var f := Filled(elf, elf.syms.value);
    assert list[..|f|][k] in multiset(list[..|f|]);
    FilledFromKept(elf, elf.syms.value, list[k]);
    y :| y in elf.syms.value && IsKept(y) && FillSymbol(elf, y) == list[k];
  }

  /** The entry a kept symbol was filled into. */
  lemma Ahead(elf: Elf, list: seq<Symbol>, y: ElfSym) returns (k: nat)
    requires elf.syms.Some? && y in elf.syms.value && IsKept(y)
    requires var n := |Filled(elf, elf.syms.value)|;
             n <= |list| && multiset(list[..n]) == multiset(Filled(elf, elf.syms.value))
    ensures k < |Filled(elf, elf.syms.value)| && list[k] == FillSymbol(elf, y)
  {
    var f := Filled(elf, elf.syms.value);
    FilledFromKept(elf, elf.syms.value, FillSymbol(elf, y));
    assert FillSymbol(elf, y) in multiset(f);
    assert FillSymbol(elf, y) in list[..|f|];
    k :| 0 <= k < |f| && list[..|f|][k] == FillSymbol(elf, y);
  }

  // ----- a file with two names for one address

  const ALIASES := "\0beta\0_Alpha\0"

  /** The names of one address, `beta` and `_Alpha`, the null symbol in front. */
  const ALIASED: seq<ElfSym> := [
    ElfSym(0, 0, 0, 0), ElfSym(0x12, 1, 0x1_0003_0000, 1), ElfSym(0x12, 1, 0x1_0003_0000, 6)
  ]

  /** Looked up by its value modulo 2^32, the address is called `_Alpha`. */
  lemma AliasFound(elf: Elf, list: seq<Symbol>)
    requires elf.tab == ALIASES && elf.syms == Some(ALIASED) && TableFor(elf, list)
    ensures FirstName(list, 0x3_0000) == Some(6)
  {
    AliasesStop(elf);
    AliasedKinds();
    LookupFindsLeast(elf, list, 0x3_0000);
    forall y | LeastWith(elf, ALIASED, 0x3_0000, y)
      ensures y.name == 6
    {
      LeastAlias(elf, y);
    }
  }

  lemma AliasesStop(elf: Elf)
    requires elf.tab == ALIASES
    ensures NamesStop(elf, ALIASED)
  {
    AliasesOrdered();
    AliasedKinds();
  }

  lemma LeastAlias(elf: Elf, y: ElfSym)
    requires elf.tab == ALIASES && LeastWith(elf, ALIASED, 0x3_0000, y)
    ensures y.name == 6
  {
    AliasesOrdered();
    AliasedKinds();
    assert NoLater(elf, y, ALIASED[2]);
  }

  lemma AliasedKinds()
    ensures forall y :: y in ALIASED <==> y == ALIASED[0] || y == ALIASED[1] || y == ALIASED[2]
    ensures !HasValue(ALIASED[0], 0x3_0000) && !IsKept(ALIASED[0])
    ensures HasValue(ALIASED[1], 0x3_0000) && ALIASED[1].name == 1
    ensures HasValue(ALIASED[2], 0x3_0000) && ALIASED[2].name == 6
  {
  }

  lemma AliasesOrdered()
    ensures Stops(ALIASES, 1) && Stops(ALIASES, 6)
    ensures !Before(Key(ALIASES, 0, 1), Key(ALIASES, 0, 6))
  {
    NamesOrdered(ALIASES);
  }

  lemma NamesOrdered(tab: seq<char>)
    requires |tab| > 7 && tab[1] == 'b' && tab[6] == '_' && tab[7] == 'A'
    ensures Stops(tab, 1) && Stops(tab, 6)
    ensures !Before(Key(tab, 0, 1), Key(tab, 0, 6))
  {
    KeyStarts(tab, 1, 1);
    KeyStarts(tab, 6, 7);
    DiffersAtOnce(Key(tab, 0, 1), Key(tab, 0, 6));
  }

  lemma DiffersAtOnce(a: string, b: string)
    requires a != "" && b != "" && a[0] > b[0]
    ensures !Before(a, b)
  {
    forall k: nat | DifferFirst(a, b, k)
      ensures k == 0
    {
      SameStart(a, b, k);
    }
  }
}
