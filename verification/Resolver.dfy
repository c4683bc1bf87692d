/**
 * From an address to the name of a function: first among the symbols of the traced program, then, through the memory
 * map, among those of the library that covers the address.
 */
module Resolver {
  import opened Wrappers
  import opened Words
  import opened CStrings
  import opened LineSpec
  import opened LineReader
  import opened LinkedList
  import opened SymbolTable
  import opened LibCache

  // ----- the header of the image an address lies in

  const UNREADABLE: Word := 0xFFFF_FFFF_FFFF_FFFF

  /** The word starts with the bytes 7F, 'E', 'L' and 'F'. */
  predicate HasMagic(w: Word) { w % 0x1_0000_0000 == 0x464C_457F }

  /** `strncmp` of the word's first four bytes with the magic. */
  predicate StartsElf(w: Word) {
    ByteAt(w, 0) == 0x7F && ByteAt(w, 1) == 'E' as int && ByteAt(w, 2) == 'L' as int && ByteAt(w, 3) == 'F' as int
  }

  lemma MagicBytes(w: Word)
    ensures StartsElf(w) <==> HasMagic(w)
  {
    LowDword(w);
  }

  predicate StopsScan(memory: Memory, a: Word) {
    memory(a) == UNREADABLE || HasMagic(memory(a))
  }

  /** The scan stops at s when it comes down from addr. */
  ghost predicate FirstStop(memory: Memory, addr: Word, s: Word) {
    s <= addr && StopsScan(memory, s) && forall a: Word :: s < a <= addr ==> !StopsScan(memory, a)
  }

  /**
   * `find_header`: the greatest address at or below the start that holds the ELF magic, unless a word that is
   * unreadable or all ones comes first. Something stops the scan as soon as address 0 cannot be read.
   */
  method FindHeader(memory: Memory, start: Word) returns (header: Word)
    requires exists a: Word :: a <= start && StopsScan(memory, a)
    ensures HeaderAt(memory, start, header)
    ensures header != 0 ==> header <= start && memory(header) % 0x1_0000_0000 == 0x464C_457F
    ensures header != 0 ==>
              forall a: Word :: header < a <= start ==>
                memory(a) != 0xFFFF_FFFF_FFFF_FFFF && memory(a) % 0x1_0000_0000 != 0x464C_457F
  {
    ghost var low: Word :| low <= start && StopsScan(memory, low);
    var addr := start;
    while true
      invariant low <= addr <= start
      invariant forall a: Word :: addr < a <= start ==> !StopsScan(memory, a)
      decreases addr
    {
      var read := memory(addr);
      if read == UNREADABLE {
        assert FirstStop(memory, start, addr);
        return 0;
      }
      MagicBytes(read);
      if StartsElf(read) {
        assert FirstStop(memory, start, addr);
        NothingAbove(memory, start, addr);
        return addr;
      }
      addr := Wrap(addr as int - 1);
    }
  }

  lemma NothingAbove(memory: Memory, start: Word, s: Word)
    requires FirstStop(memory, start, s)
    ensures forall a: Word :: s < a <= start ==>
              memory(a) != 0xFFFF_FFFF_FFFF_FFFF && memory(a) % 0x1_0000_0000 != 0x464C_457F
  {
    forall a: Word | s < a <= start
      ensures memory(a) != 0xFFFF_FFFF_FFFF_FFFF && memory(a) % 0x1_0000_0000 != 0x464C_457F
    {
      assert !StopsScan(memory, a);
    }
  }

  lemma FirstStopUnique(memory: Memory, addr: Word, s: Word, t: Word)
    requires FirstStop(memory, addr, s) && FirstStop(memory, addr, t)
    ensures s == t
  {
    assert StopsScan(memory, s) && StopsScan(memory, t);
  }

  // ----- what the lines of the memory map say, with every table loaded afresh

  /** `strtol` to base 16, as an address. */
  type Hex = string -> Word

  datatype Query = Query(addr: Word, base: Word, hex: Hex, loader: Loader)

  function Parsed(q: Query, s: string): Word { q.hex(s) }

  function End(q: Query, line: string): Word {
    var tmp := StrChr(line, '-');
    if tmp.Some? then Parsed(q, tmp.value[1..]) else 0
  }

  /** The line's range holds the address, or starts at the header found. */
  predicate Covers(q: Query, line: string) {
    var begin := Parsed(q, line);
    (begin < q.addr && q.addr < End(q, line)) || begin == q.base
  }

  /** `strchr`: the text from the first c on. */
  function StrChr(line: string, c: char): (r: Option<string>)
    ensures r.Some? ==> r.value != ""
  {
    var n := Find(line, c);
    if n < |line| then Some(line[n..]) else None
  }

  /** The path on the line, from its first slash on. */
  function LibOf(line: string): Option<string> { StrChr(line, '/') }

  function Printed(tab: seq<char>, name: Option<nat>): string {
    if name.None? then "(null)" else if name.value <= |tab| then Text(tab[name.value..]) else ""
  }

  function NameIn(table: Option<Table>, offset: Word): Option<string> {
    if table.None? || offset == 0 then None
    else
      var name := FirstName(table.value.symbols, offset);
      if name.None? then None else Some(Printed(table.value.tab, name))
  }

  function Answered(table: Option<Table>, offset: Word, lib: string): Option<string> {
    var name := NameIn(table, offset);
    if name.None? then None else Some(" " + name.value + " (" + lib + ")")
  }

  /** What one line of the map has printed, if it settles the search. */
  function Hit(q: Query, line: string): Option<string> {
    var lib := LibOf(line);
    if Covers(q, line) && lib.Some? then
      Answered(Load(q.loader, lib.value), Wrap(q.addr as int - Parsed(q, line) as int), lib.value)
    else None
  }

  lemma HitIs(q: Query, line: string, covers: bool, lib: Option<string>, offset: Word)
    requires covers == Covers(q, line) && lib == LibOf(line) && offset == Wrap(q.addr as int - Parsed(q, line) as int)
    ensures Hit(q, line) == if covers && lib.Some? then Answered(Load(q.loader, lib.value), offset, lib.value) else None
  {
  }

  /** The first line that settles the search. */
  function Search(q: Query, lines: seq<string>): string {
    if lines == [] then ""
    else if Hit(q, lines[0]).Some? then Hit(q, lines[0]).value
    else Search(q, lines[1..])
  }

  /** The same, taking lines from a descriptor only as long as they are needed. */
  function Scan(q: Query, st: FdState): (string, FdState)
    decreases |st.answers|, |st.pending|
  {
    var (line, st') := Next(st);
    if line.None? then ("", st')
    else
      NextShrinks(st);
      if Hit(q, line.value).Some? then (Hit(q, line.value).value, st')
      else Scan(q, st')
  }

  /** Reading on demand finds what a search of the whole map would find. */
  lemma {:induction false} ScanIsSearch(q: Query, st: FdState)
    ensures Scan(q, st).0 == Search(q, CompleteLines(Pool(st)))
    decreases |st.answers|, |st.pending|
  {
    LinesAreSplit(st);
    var (line, st') := Next(st);
    if line.Some? {
      NextShrinks(st);
      ScanIsSearch(q, st');
      LinesAreSplit(st');
      assert Lines(st)[1..] == Lines(st');
    }
  }

  // ----- what a name found is among the symbols of its file

  /** A name found in the table of a file is that of a symbol least among the file's kept symbols at the offset. */
  ghost predicate NamesLeast(elf: Elf, offset: Word, y: ElfSym, name: string) {
    && elf.syms.Some? && LeastWith(elf, elf.syms.value, offset, y)
    && y.name <= |elf.tab| && name == Text(elf.tab[y.name..])
  }

  lemma NameInIsLeast(elf: Elf, table: Table, offset: Word)
    requires Loadable(elf) && TableOfFile(elf, table)
    ensures NameIn(Some(table), offset).Some? <==>
              offset != 0 && exists z :: z in elf.syms.value && HasValue(z, offset)
    ensures NameIn(Some(table), offset).Some? ==>
              exists y :: NamesLeast(elf, offset, y, NameIn(Some(table), offset).value)
  {
    LookupFindsLeast(elf, table.symbols, offset);
    if NameIn(Some(table), offset).Some? {
      var y :| LeastWith(elf, elf.syms.value, offset, y) && FirstName(table.symbols, offset) == Some(y.name);
      assert NamesLeast(elf, offset, y, NameIn(Some(table), offset).value);
    }
  }

  /** The first place of a character in a line, the line's length if it has none. */
  ghost predicate FirstAt(line: string, c: char, n: nat) {
    n <= |line| && c !in line[..n] && (n < |line| ==> line[n] == c)
  }

  /**
   * The library on a line is consulted: the line has a slash, and the number it starts with is that of the header
   * found, or is below the address while the number after the first dash is above it.
   */
  ghost predicate Consulted(q: Query, line: string, dash: nat, slash: nat) {
    && FirstAt(line, '-', dash) && FirstAt(line, '/', slash) && slash < |line|
    && (q.hex(line) == q.base
        || (dash < |line| && q.hex(line) < q.addr && q.addr < q.hex(line[dash + 1..])))
  }

  lemma StrChrAt(line: string, c: char, n: nat)
    requires FirstAt(line, c, n)
    ensures StrChr(line, c) == if n < |line| then Some(line[n..]) else None
  {
    NoneBefore(line, c, n);
    NoneBefore(line, c, Find(line, c));
  }

  lemma NoneBefore(line: string, c: char, n: nat)
    requires FirstAt(line, c, n)
    ensures forall i :: 0 <= i < n ==> line[i] != c
  {
    forall i | 0 <= i < n
      ensures line[i] != c
    {
      assert line[i] in line[..n];
    }
  }

  lemma ConsultedIff(q: Query, line: string, dash: nat, slash: nat)
    requires FirstAt(line, '-', dash) && FirstAt(line, '/', slash)
    ensures Covers(q, line) && LibOf(line).Some? <==> Consulted(q, line, dash, slash)
    ensures slash < |line| ==> LibOf(line) == Some(line[slash..])
  {
    StrChrAt(line, '-', dash);
    StrChrAt(line, '/', slash);
    if dash < |line| {
      assert line[dash..][1..] == line[dash + 1..];
    }
  }

  /** The symbol y of a library is least among the library's symbols at the offset, and is printed with its path. */
  ghost predicate PrintsLeast(elf: Elf, offset: Word, y: ElfSym, lib: string, text: string) {
    exists name :: NamesLeast(elf, offset, y, name) && text == " " + name + " (" + lib + ")"
  }

  /** How far the address lies behind the number a line starts with. */
  function OffsetOn(q: Query, line: string): Word { (q.addr - q.hex(line)) % 0x1_0000_0000_0000_0000 }

  /** A line whose library is not consulted settles nothing. */
  lemma NotConsulted(q: Query, line: string, dash: nat, slash: nat)
    requires FirstAt(line, '-', dash) && FirstAt(line, '/', slash) && !Consulted(q, line, dash, slash)
    ensures Hit(q, line).None?
  {
    ConsultedIff(q, line, dash, slash);
  }

  /**
   * A line with a library loaded from its file: it settles the search if and only if its library is consulted and
   * keeps a symbol whose value, modulo 2^32, is the offset, and the name printed is then least in the order among all
   * that have it.
   */
  lemma HitIsLeast(q: Query, line: string, elf: Elf, dash: nat, slash: nat)
    requires FirstAt(line, '-', dash) && FirstAt(line, '/', slash) && slash < |line|
    requires Load(q.loader, line[slash..]).Some?
    requires Loadable(elf) && TableOfFile(elf, Load(q.loader, line[slash..]).value)
    ensures Hit(q, line).Some? <==>
              && Consulted(q, line, dash, slash) && OffsetOn(q, line) != 0
              && exists z :: z in elf.syms.value && HasValue(z, OffsetOn(q, line))
    ensures Hit(q, line).Some? ==>
              exists y :: PrintsLeast(elf, OffsetOn(q, line), y, line[slash..], Hit(q, line).value)
  {
    ConsultedIff(q, line, dash, slash);
    var lib := line[slash..];
    var table, offset := Load(q.loader, lib).value, OffsetOn(q, line);
    HitIs(q, line, Covers(q, line), LibOf(line), offset);
    AnsweredIsLeast(elf, table, offset, lib);
  }

  lemma AnsweredIsLeast(elf: Elf, table: Table, offset: Word, lib: string)
    requires Loadable(elf) && TableOfFile(elf, table)
    ensures var answer := Answered(Some(table), offset, lib);
            && (answer.Some? <==> offset != 0 && exists z :: z in elf.syms.value && HasValue(z, offset))
            && (answer.Some? ==> exists y :: PrintsLeast(elf, offset, y, lib, answer.value))
  {
    NameInIsLeast(elf, table, offset);
    var name := NameIn(Some(table), offset);
    if name.Some? {
      var y :| NamesLeast(elf, offset, y, name.value);
      assert PrintsLeast(elf, offset, y, lib, " " + name.value + " (" + lib + ")");
    }
  }

  /** What a search prints is what the first line that settles it prints, and nothing if none does. */
  lemma {:induction false} SearchFinds(q: Query, lines: seq<string>) returns (k: nat)
    ensures k <= |lines| && forall j :: 0 <= j < k ==> Hit(q, lines[j]).None?
    ensures k < |lines| ==> Hit(q, lines[k]).Some? && Search(q, lines) == Hit(q, lines[k]).value
    ensures k == |lines| ==> Search(q, lines) == ""
  {
    if lines == [] || Hit(q, lines[0]).Some? {
      k := 0;
    } else {
      var j := SearchFinds(q, lines[1..]);
      k := j + 1;
    }
  }

  /** Line k is the first that settles the search, and prints the symbol y of the library whose path is at slash. */
  ghost predicate FirstLeast(q: Query, lines: seq<string>, files: Files, k: nat, slash: nat, y: ElfSym) {
    && k < |lines| && (forall j :: 0 <= j < k ==> Hit(q, lines[j]).None?)
    && slash < |lines[k]| && (exists dash :: Consulted(q, lines[k], dash, slash))
    && FileAt(files, lines[k][slash..]).Some?
    && PrintsLeast(FileAt(files, lines[k][slash..]).value, OffsetOn(q, lines[k]), y, lines[k][slash..],
                   Search(q, lines))
  }

  /** From files to the text printed: of the symbols that fit in the first library that has any, the least is named. */
  lemma NamePrintedIsLeast(q: Query, lines: seq<string>, files: Files)
    requires LoadsFrom(q.loader, files)
    ensures Search(q, lines) == "" <==> forall line :: line in lines ==> Hit(q, line).None?
    ensures Search(q, lines) != "" ==> exists k, slash, y :: FirstLeast(q, lines, files, k, slash, y)
  {
    var k := SearchFinds(q, lines);
    if k < |lines| {
      var line := lines[k];
      var dash, slash := Find(line, '-'), Find(line, '/');
      ConsultedIff(q, line, dash, slash);
      var elf := FileAt(files, line[slash..]).value;
      HitIsLeast(q, line, elf, dash, slash);
      var y :| PrintsLeast(elf, OffsetOn(q, line), y, line[slash..], Hit(q, line).value);
      assert Consulted(q, line, dash, slash);
      assert FirstLeast(q, lines, files, k, slash, y);
      assert line in lines;
    }
  }

  // ----- the resolver

  class SymbolResolver {
    const hex: Hex
    const loader: Loader
    const reader: Reader
    const libs: List<Entry>

    ghost predicate Valid()
      reads this, reader, reader.repr, libs, libs.nodes
    {
      && reader.Valid() && libs.Valid()
      && Faithful(libs.Contents(), loader) && Loads(loader)
    }

    constructor (hex: Hex, loader: Loader, reader: Reader)
      requires reader.Valid() && Loads(loader)
      ensures Valid() && fresh(libs)
      ensures this.hex == hex && this.loader == loader && this.reader == reader
    {
      this.hex := hex;
      this.loader := loader;
      this.reader := reader;
      libs := new List();
    }

    /** The table of a library: from the list, or loaded and then kept if the load succeeds. */
    method TableOf(lib: string) returns (table: Option<Table>)
      requires libs.Valid() && Faithful(libs.Contents(), loader)
      modifies libs
      ensures libs.Valid() && Faithful(libs.Contents(), loader)
      ensures table == Load(loader, lib)
      ensures forall e :: e in old(libs.Contents()) ==> e in libs.Contents()
    {
      table := GetSymbolsByLib(libs, lib);
      CacheIsTransparent(libs.Contents(), loader, lib);
      if table.None? {
        table := Load(loader, lib);
        if table.Some? {
          libs.Push(Entry(lib, table.value));
        }
      }
    }

    /** One line of the map. */
    method Examine(q: Query, line: string) returns (hit: Option<string>)
      requires libs.Valid() && Faithful(libs.Contents(), loader) && Loads(loader) && q.loader == loader
      modifies libs
      ensures libs.Valid() && Faithful(libs.Contents(), loader)
      ensures hit == Hit(q, line)
    {
      var begin := Parsed(q, line);
      var tmp := StrChr(line, '-');
      var end := if tmp.Some? then Parsed(q, tmp.value[1..]) else 0;
      var lib := StrChr(line, '/');
      var offset := Wrap(q.addr as int - begin as int);
      var covers := (begin < q.addr && q.addr < end) || begin == q.base;
      HitIs(q, line, covers, lib, offset);
      hit := None;
      if covers && lib.Some? {
        hit := Consult(lib.value, offset);
      }
    }

    /** The symbols of one library. */
    method Consult(lib: string, offset: Word) returns (hit: Option<string>)
      requires libs.Valid() && Faithful(libs.Contents(), loader) && Loads(loader)
      modifies libs
      ensures libs.Valid() && Faithful(libs.Contents(), loader)
      ensures hit == Answered(Load(loader, lib), offset, lib)
    {
      hit := None;
      var table := TableOf(lib);
      var symbols := if table.None? then None else Some(table.value.symbols);
      var name := ResolveSymbolLib(offset, symbols);
      if name.Some? {
        hit := Some(" " + Printed(table.value.tab, name) + " (" + lib + ")");
      }
    }

    /**
     * `get_lib`: what is printed is what a search of the map prints when every library is loaded afresh, and only the
     * one descriptor is read from.
     */
    method GetLib(fd: int, addr: Word, base: Word) returns (text: string)
      requires Valid()
      modifies reader, reader.repr, libs
      ensures Valid()
      ensures (text, StateOf(reader.states, fd)) ==
              Scan(Query(addr, base, hex, loader), StateOf(old(reader.states), fd))
      ensures Others(old(reader.states), reader.states, fd)
      ensures fresh(reader.repr - old(reader.repr))
    {
      ghost var q, was := Query(addr, base, hex, loader), reader.states;
      text := "";
      ghost var st := StateOf(was, fd);
      var str := NextOf(fd, was);
      while str.Some?
        invariant Valid()
        invariant (str, StateOf(reader.states, fd)) == Next(st) && Others(was, reader.states, fd)
        invariant Scan(q, st) == Scan(q, StateOf(was, fd))
        invariant fresh(reader.repr - old(reader.repr))
        decreases |st.answers|, |st.pending|
      {
        NextShrinks(st);
        var hit := Examine(Query(addr, base, hex, loader), str.value);
        if hit.Some? {
          text := hit.value;
          return;
        }
        st := StateOf(reader.states, fd);
        str := NextOf(fd, was);
      }
    }

    /** `resolve_symbol`: nothing to print, the names in the program itself, or the name the memory map leads to. */
    method ResolveSymbol(addr: Word, symbols: Option<Table>, isACall: nat, memory: Memory, maps: Option<int>)
      returns (text: string)
      requires Valid() && memory(0) == UNREADABLE
      requires symbols.Some? ==> HasEnd(symbols.value.symbols)
      modifies reader, reader.repr, libs
      ensures Valid() && fresh(reader.repr - old(reader.repr))
      ensures Resolution(text, Site(addr, symbols, isACall > 0), memory, maps, hex, loader, old(reader.states))
      ensures forall g :: maps != Some(g) ==> StateOf(reader.states, g) == StateOf(old(reader.states), g)
    {
      text := "";
      if symbols.None? || addr == 0 || isACall == 0 {
        return;
      }
      text := OwnNames(addr, symbols.value);
      if text == "" {
        assert StopsScan(memory, 0);
        var base := FindHeader(memory, addr);
        var found := "";
        if maps.Some? {
          found := GetLib(maps.value, addr, base);
          ScanIsSearch(Query(addr, base, hex, loader), StateOf(old(reader.states), maps.value));
        }
        text := " ....." + found + "\n";
      }
    }

    method NextOf(fd: int, ghost was: map<int, FdState>) returns (str: Option<string>)
      requires Valid() && Others(was, reader.states, fd)
      modifies reader, reader.repr
      ensures Valid() && Others(was, reader.states, fd)
      ensures (str, StateOf(reader.states, fd)) == Next(StateOf(old(reader.states), fd))
      ensures fresh(reader.repr - old(reader.repr))
    {
      str := reader.GetNextLine(fd);
    }
  }

  /** No other descriptor has moved. */
  ghost predicate Others(was: map<int, FdState>, now: map<int, FdState>, fd: int) {
    forall g :: g != fd ==> StateOf(now, g) == StateOf(was, g)
  }

  // ----- the text printed for one call

  function NameLine(tab: seq<char>, name: Option<nat>): string {
    " ..... " + Printed(tab, name) + "\n"
  }

  /** The names of all symbols of the program at the address, a line each. */
  function Own(list: seq<Symbol>, tab: seq<char>, addr: Word): string {
    if list == [] || !IsEntry(list[0]) then ""
    else if list[0].value == addr then NameLine(tab, list[0].name) + Own(list[1..], tab, addr)
    else Own(list[1..], tab, addr)
  }

  /** The lines for the entries at the positions ks, in order. */
  function NameLines(list: seq<Symbol>, tab: seq<char>, ks: seq<nat>): string
    requires forall a :: 0 <= a < |ks| ==> ks[a] < |list|
  {
    if ks == [] then "" else NameLine(tab, list[ks[0]].name) + NameLines(list, tab, ks[1..])
  }

  /** ks lists, in order, exactly the entries from i to the end at n that have the address. */
  ghost predicate Positions(list: seq<Symbol>, i: nat, n: nat, addr: Word, ks: seq<nat>) {
    && n <= |list|
    && (forall a :: 0 <= a < |ks| ==> i <= ks[a] < n && list[ks[a]].value == addr)
    && (forall k :: i <= k < n && list[k].value == addr ==> k in ks)
    && (forall a, b :: 0 <= a < b < |ks| ==> ks[a] < ks[b])
  }

  lemma PositionsSkip(list: seq<Symbol>, i: nat, n: nat, addr: Word, rest: seq<nat>)
    requires i < n && Positions(list, i + 1, n, addr, rest) && list[i].value != addr
    ensures Positions(list, i, n, addr, rest)
  {
  }

  lemma PositionsCons(list: seq<Symbol>, i: nat, n: nat, addr: Word, rest: seq<nat>)
    requires i < n && Positions(list, i + 1, n, addr, rest) && list[i].value == addr
    ensures Positions(list, i, n, addr, [i] + rest)
  {
    var ks := [i] + rest;
    forall k | i <= k < n && list[k].value == addr
      ensures k in ks
    {
      assert k == i || k in rest;
    }
    forall a, b | 0 <= a < b < |ks|
      ensures ks[a] < ks[b]
    {
      assert ks[b] == rest[b - 1];
      assert a > 0 ==> ks[a] == rest[a - 1];
    }
  }

  lemma {:induction false} OwnFrom(list: seq<Symbol>, i: nat, n: nat, tab: seq<char>, addr: Word)
    returns (ks: seq<nat>)
    requires i <= n && EndsAt(list, n)
    ensures Positions(list, i, n, addr, ks) && Own(list[i..], tab, addr) == NameLines(list, tab, ks)
    decreases n - i
  {
    ks := [];
    if i < n {
      var rest := OwnFrom(list, i + 1, n, tab, addr);
      OwnStep(list, i, tab, addr, "");
      if list[i].value == addr {
        PositionsCons(list, i, n, addr, rest);
        NameLinesStep(list, tab, i, rest);
        ks := [i] + rest;
      } else {
        PositionsSkip(list, i, n, addr, rest);
        ks := rest;
      }
    }
  }

  lemma NameLinesStep(list: seq<Symbol>, tab: seq<char>, i: nat, rest: seq<nat>)
    requires i < |list| && forall a :: 0 <= a < |rest| ==> rest[a] < |list|
    ensures NameLines(list, tab, [i] + rest) == NameLine(tab, list[i].name) + NameLines(list, tab, rest)
  {
    assert ([i] + rest)[1..] == rest;
  }

  /** The program's own names: one line for each entry before the end at the address, in order, and nothing else. */
  lemma OwnLists(list: seq<Symbol>, n: nat, tab: seq<char>, addr: Word) returns (ks: seq<nat>)
    requires EndsAt(list, n)
    ensures Positions(list, 0, n, addr, ks) && Own(list, tab, addr) == NameLines(list, tab, ks)
    ensures Own(list, tab, addr) != "" <==> exists k :: 0 <= k < n && list[k].value == addr
  {
    ks := OwnFrom(list, 0, n, tab, addr);
    assert list[0..] == list;
    if k :| 0 <= k < n && list[k].value == addr {
      assert k in ks;
    }
  }

  lemma OwnStep(list: seq<Symbol>, i: nat, tab: seq<char>, addr: Word, text: string)
    requires i < |list| && IsEntry(list[i])
    ensures text + Own(list[i..], tab, addr) ==
            (if list[i].value == addr then text + NameLine(tab, list[i].name) else text) + Own(list[i + 1..], tab, addr)
  {
    assert list[i..][1..] == list[i + 1..];
    if list[i].value == addr {
      Assoc(text, NameLine(tab, list[i].name), Own(list[i + 1..], tab, addr));
    }
  }

  /** A table with one entry at the address and nothing else prints one line, with the text its name points at. */
  lemma OneOwnName(name: string, rest: seq<char>, before: seq<char>, kind: int, addr: Word)
    requires NUL !in name
    ensures var s := Symbol(addr, kind, Some(|before|));
            Own([s, ZERO], before + name + [NUL] + rest, addr) == " ..... " + name + "\n"
  {
    var s := Symbol(addr, kind, Some(|before|));
    var tab := before + name + [NUL] + rest;
    assert tab[|before|..] == name + [NUL] + rest;
    assert (name + [NUL] + rest)[..|name|] == name;
    StrLenUnique(name + [NUL] + rest, |name|);
    assert [s, ZERO][1..] == [ZERO];
    assert Own([ZERO], tab, addr) == "";
    var line := NameLine(tab, s.name);
    assert line + "" == line;
  }

  /** An entry without a name prints what `%s` makes of a null pointer. */
  lemma OwnNameless(kind: int, tab: seq<char>, addr: Word)
    requires addr != 0
    ensures Own([Symbol(addr, kind, None), ZERO], tab, addr) == " ..... (null)\n"
  {
    var s := Symbol(addr, kind, None);
    assert [s, ZERO][1..] == [ZERO];
    assert Own([ZERO], tab, addr) == "";
    assert NameLine(tab, None) + "" == " ..... (null)\n";
  }

  method OwnNames(addr: Word, table: Table) returns (text: string)
    requires HasEnd(table.symbols)
    ensures text == Own(table.symbols, table.tab, addr)
  {
    var list := table.symbols;
    ghost var n: nat :| EndsAt(list, n);
    text := "";
    var i := 0;
    while IsEntry(list[i])
      invariant i <= n
      invariant Own(list, table.tab, addr) == text + Own(list[i..], table.tab, addr)
      decreases n - i
    {
      OwnStep(list, i, table.tab, addr, text);
      if list[i].value == addr {
        text := text + (" ..... " + Printed(table.tab, list[i].name) + "\n");
      }
      i := i + 1;
    }
  }

  /** A call to resolve: its address, the symbols of the program if any, and whether it was counted as a call. */
  datatype Site = Site(addr: Word, symbols: Option<Table>, counted: bool)

  /** What may be printed for a call: its own names, else what the map says with the header found in memory. */
  ghost predicate Resolution(text: string, s: Site, memory: Memory, maps: Option<int>, hex: Hex, loader: Loader,
                             states: map<int, FdState>)
  {
    if s.symbols.None? || s.addr == 0 || !s.counted then text == ""
    else
      var own := Own(s.symbols.value.symbols, s.symbols.value.tab, s.addr);
      if own != "" then text == own
      else exists base: Word :: HeaderAt(memory, s.addr, base)
             && text == " ....." + FromMap(s.addr, base, maps, hex, loader, states) + "\n"
  }

  ghost predicate HeaderAt(memory: Memory, start: Word, header: Word) {
    exists s: Word :: FirstStop(memory, start, s) && header == if memory(s) == UNREADABLE then 0 else s
  }

  /** The first line of the map that settles the search, of all lines the descriptor has to give. */
  function FromMap(addr: Word, base: Word, maps: Option<int>, hex: Hex, loader: Loader, states: map<int, FdState>)
    : string
  {
    if maps.None? then ""
    else Search(Query(addr, base, hex, loader), CompleteLines(Pool(StateOf(states, maps.value))))
  }
}
