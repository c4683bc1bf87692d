/** The libraries whose symbols have been loaded, so that each is loaded once. */
module LibCache {
  import opened Wrappers
  import opened LinkedList
  import opened SymbolTable

  /** A loaded table: its symbols, and the string table their names point into. */
  datatype Table = Table(symbols: seq<Symbol>, tab: seq<char>)

  /** The table of an ELF file: sorted, with its names pointing into the file. */
  ghost predicate TableOfFile(elf: Elf, table: Table) {
    TableFor(elf, table.symbols) && table.tab == elf.tab
  }

  /** `get_symbols_lib`, once the file is mapped. */
  method GetSymbolsLib(elf: Elf) returns (table: Option<Table>)
    requires Loadable(elf)
    ensures table.None? <==> elf.syms.None? || !NamesInFile(elf, elf.syms.value)
    ensures table.Some? ==> TableOfFile(elf, table.value)
  {
    var list := PrintSym(elf);
    table := if list == null then None else Some(Table(list[..], elf.tab));
  }

  datatype Entry = Entry(lib: string, table: Table)

  type Loader = string -> Option<Table>

  /** `get_symbols_lib`, as a deterministic function of the path. */
  function Load(loader: Loader, lib: string): Option<Table> { loader(lib) }

  /** What a load answers for a library it can read: a table whose loops stop inside it. */
  ghost predicate Loads(loader: Loader) {
    forall lib :: Load(loader, lib).Some? ==> HasEnd(Load(loader, lib).value.symbols)
  }

  /** The mapped ELF file behind a path, if it can be opened and is one. */
  type Files = string -> Option<Elf>

  function FileAt(files: Files, lib: string): Option<Elf> { files(lib) }

  /** A loader that answers from files: a sorted table of the file's kept symbols. */
  ghost predicate LoadsFrom(loader: Loader, files: Files) {
    forall lib | Load(loader, lib).Some? ::
      var elf := FileAt(files, lib);
      elf.Some? && Loadable(elf.value) && TableOfFile(elf.value, Load(loader, lib).value)
  }

  lemma FilesHaveEnds(loader: Loader, files: Files)
    requires LoadsFrom(loader, files)
    ensures Loads(loader)
  {
  }

  /** The first table kept for a library. */
  function Lookup(entries: seq<Entry>, lib: string): Option<Table> {
    if entries == [] then None
    else if entries[0].lib == lib then Some(entries[0].table)
    else Lookup(entries[1..], lib)
  }

  /** Every entry is what a fresh load would give, and no library has two. */
  ghost predicate Faithful(entries: seq<Entry>, loader: Loader) {
    && (forall e :: e in entries ==> Load(loader, e.lib) == Some(e.table))
    && (forall i, j :: 0 <= i < j < |entries| ==> entries[i].lib != entries[j].lib)
  }

  lemma {:induction false} LookupFinds(entries: seq<Entry>, lib: string)
    ensures Lookup(entries, lib).Some? <==> exists e :: e in entries && e.lib == lib
    ensures Lookup(entries, lib).Some? ==> Entry(lib, Lookup(entries, lib).value) in entries
  {
    if entries != [] {
      LookupFinds(entries[1..], lib);
      assert forall e :: e in entries <==> e == entries[0] || e in entries[1..];
    }
  }

  /** A table kept is the table a fresh load would give; a library without one can be added when its load succeeds. */
  lemma CacheIsTransparent(entries: seq<Entry>, loader: Loader, lib: string)
    requires Faithful(entries, loader)
    ensures Lookup(entries, lib).Some? ==> Lookup(entries, lib) == Load(loader, lib)
    ensures Lookup(entries, lib).None? && Load(loader, lib).Some? ==>
              Faithful([Entry(lib, Load(loader, lib).value)] + entries, loader)
  {
    LookupFinds(entries, lib);
    if Lookup(entries, lib).None? && Load(loader, lib).Some? {
      var after := [Entry(lib, Load(loader, lib).value)] + entries;
      assert forall e :: e in after <==> e == after[0] || e in entries;
      assert forall i :: 0 <= i < |entries| ==> entries[i] in entries;
    }
  }

  /** `get_symbols_by_lib` */
  method GetSymbolsByLib(list: List<Entry>, lib: string) returns (table: Option<Table>)
    requires list.Valid()
    ensures table == Lookup(list.Contents(), lib)
  {
    ghost var i := 0;
    ghost var all := list.Contents();
    var node := list.head;
    while node != null
      invariant i <= |all| && node == At(list.nodes, i)
      invariant Lookup(all, lib) == Lookup(all[i..], lib)
      decreases |all| - i
    {
      if node.value.lib == lib {
        return Some(node.value.table);
      }
      assert all[i..][1..] == all[i + 1..];
      node := node.next;
      i := i + 1;
    }
    table := None;
  }
}
