/**
The linker database: tables of sections, symbols and relocations, filled from object files, cleared when a
file is imported again, and completed by a pass that resolves relocations by symbol name. Tables are maps
from id to record.
*/
module LinkerDb {
  type Id = nat

  datatype Section = Section(implementation: Id)
  datatype Symbol = Symbol(section: Id, name: string)
  /** symbol and symbolSection are 0 while the relocation is not resolved. */
  datatype Relocation = Relocation(section: Id, symbol: Id, name: string, symbolSection: Id)

  datatype Tables = Tables(sections: map<Id, Section>, symbols: map<Id, Symbol>, relocations: map<Id, Relocation>)

  /**
  A relocation is of a live section, or of one that was not kept and has the id 0. It leads to a live section, and to a
  live symbol of that section, or to neither.
  */
  predicate RelocationOk(t: Tables, r: Relocation) {
    && r.name != "" && (r.section == 0 || r.section in t.sections)
    && (r.symbolSection != 0 ==> r.symbolSection in t.sections)
    && (r.symbol != 0 ==> r.symbol in t.symbols && t.symbols[r.symbol].section == r.symbolSection)
  }

  /**
  Every symbol lies in a live section, every resolved relocation leads to a live section and symbol. Ids are not 0.
  */
  predicate Integrity(t: Tables) {
    && (forall x | x in t.symbols :: t.symbols[x].section in t.sections)
    && (forall x | x in t.relocations :: RelocationOk(t, t.relocations[x]))
    && 0 !in t.sections && 0 !in t.symbols && 0 !in t.relocations
  }

  // ---- Clearing ----

  /** No symbols of a section. */
  function SymbolsWithout(symbols: map<Id, Symbol>, s: Id): (m: map<Id, Symbol>) {
    map x | x in symbols && symbols[x].section != s :: symbols[x]
  }

  function Unresolved(r: Relocation, s: Id): (r': Relocation) {
    if r.symbolSection == s then r.(symbol := 0, symbolSection := 0) else r
  }

  /** No relocations in a section, and none that lead to it. */
  function RelocationsWithout(relocations: map<Id, Relocation>, s: Id): (m: map<Id, Relocation>) {
    map x | x in relocations && relocations[x].section != s :: Unresolved(relocations[x], s)
  }

  function WithoutSection(t: Tables, s: Id): (t': Tables) {
    Tables(t.sections - {s}, SymbolsWithout(t.symbols, s), RelocationsWithout(t.relocations, s))
  }

  /** Clearing a section and deleting it keeps the database whole. */
  lemma WithoutSectionKeeps(t: Tables, s: Id)
    requires Integrity(t) && s != 0
    ensures Integrity(WithoutSection(t, s))
  {
  }

  /** The tables without any trace of the sections of a set. */
  function Gone(t: Tables, ss: set<Id>): (t': Tables) {
    Tables(t.sections - ss,
           map x | x in t.symbols && t.symbols[x].section !in ss :: t.symbols[x],
           map x | x in t.relocations && t.relocations[x].section !in ss ::
             var r := t.relocations[x];
             if r.symbolSection in ss then r.(symbol := 0, symbolSection := 0) else r)
  }

  /** The tables without the sections of the latest import under a name. */
  function Cleared(t: Tables, files: map<string, Id>, name: string): (t': Tables) {
    if name in files then Gone(t, SectionsOf(t, files[name])) else t
  }

  lemma GoneOneMore(t: Tables, ss: set<Id>, s: Id)
    requires 0 !in ss && s != 0
    ensures WithoutSection(Gone(t, ss), s) == Gone(t, ss + {s})
  {
  }

  // ---- Object files ----

  const SHN_LOPROC: nat := 0xFF00

  /** kept: text, data, rodata or bss of non-zero size; group: a section group. */
  datatype ObjSection = ObjSection(kept: bool, group: bool)
  /** ordinary: of a type up to STT_SECTION, and not the module marker. */
  datatype ObjSymbol = ObjSymbol(shndx: nat, name: string, ordinary: bool)
  /** known: of a relocation type the linker handles. */
  datatype ObjRelocation = ObjRelocation(section: nat, symbol: nat, name: string, known: bool)
  datatype ObjFile = ObjFile(sections: seq<ObjSection>, symbols: seq<ObjSymbol>, relocations: seq<ObjRelocation>)

  /** Relocations refer to symbols of the file. */
  predicate WellFormed(o: ObjFile) {
    forall i | 0 <= i < |o.relocations| :: o.relocations[i].symbol < |o.symbols|
  }

  predicate IsKept(o: ObjFile, i: nat) {
    i < |o.sections| && o.sections[i].kept
  }

  /** A symbol that the import looks at is named and in a kept section, or in a section group. */
  predicate SymbolFine(o: ObjFile, y: ObjSymbol) {
    y.ordinary && y.shndx != 0 && y.shndx < SHN_LOPROC ==>
      if IsKept(o, y.shndx) then y.name != "" else y.shndx < |o.sections| && o.sections[y.shndx].group
  }

  /** The files whose import succeeds. */
  predicate Importable(o: ObjFile) {
    && (forall j: nat | j < |o.symbols| :: SymbolFine(o, o.symbols[j]))
    && (forall j: nat | j < |o.relocations| :: o.relocations[j].name != "" && o.relocations[j].known)
  }

  /** hashmap_get: 0 when there is no entry. */
  function Look(m: map<nat, Id>, i: nat): (id: Id) {
    if i in m then m[i] else 0
  }

  /** What the id maps of an import say about the tables. */
  predicate SectionIdsOk(t: Tables, sectionIds: map<nat, Id>) {
    forall i | i in sectionIds :: sectionIds[i] in t.sections
  }

  // ---- The database ----

  /** Ids are at most the last of their sequence. */
  predicate Bounded(t: Tables, lastSection: Id, lastSymbol: Id, lastRelocation: Id) {
    && (forall x | x in t.sections :: x <= lastSection)
    && (forall x | x in t.symbols :: x <= lastSymbol)
    && (forall x | x in t.relocations :: x <= lastRelocation)
  }

  predicate FilesOk(files: map<string, Id>, last: Id) {
    && (forall f | f in files :: files[f] <= last)
    && (forall f, g | f in files && g in files && files[f] == files[g] :: f == g)
  }

  /** Every section belongs to the latest import of some file. */
  predicate Owned(t: Tables, files: map<string, Id>) {
    forall x | x in t.sections :: t.sections[x].implementation in files.Values
  }

  lemma NewFile(t: Tables, files: map<string, Id>, last: Id, name: string)
    requires FilesOk(files, last) && Owned(t, files)
    requires name in files ==> forall x | x in t.sections :: t.sections[x].implementation != files[name]
    ensures FilesOk(files[name := last + 1], last + 1) && Owned(t, files[name := last + 1])
    ensures forall x | x in t.sections :: t.sections[x].implementation != last + 1
  {
    var files' := files[name := last + 1];
    forall x | x in t.sections
      ensures t.sections[x].implementation in files'.Values && t.sections[x].implementation != last + 1
    {
      var f :| f in files && files[f] == t.sections[x].implementation;
      assert files'[f] == files[f];
    }
  }

  class Database {
    var files: map<string, Id>     // implementations
    var t: Tables
    var lastFile: Id
    var lastSection: Id
    var lastSymbol: Id
    var lastRelocation: Id

    predicate Valid()
      reads this
    {
      Integrity(t) && Bounded(t, lastSection, lastSymbol, lastRelocation) && FilesOk(files, lastFile) && Owned(t, files)
    }

    constructor ()
      ensures Valid() && t == Tables(map[], map[], map[]) && files == map[]
    {
      files, t := map[], Tables(map[], map[], map[]);
      lastFile, lastSection, lastSymbol, lastRelocation := 0, 0, 0, 0;
    }

    /** linkerdb_clear_symbol_references. */
    method ClearSymbols(s: Id)
      modifies this`t
      ensures t == old(t).(symbols := SymbolsWithout(old(t).symbols, s))
    {
      var ids := set x | x in t.symbols && t.symbols[x].section == s;
      while ids != {}
        invariant t == old(t).(symbols := t.symbols) && t.symbols.Keys <= old(t).symbols.Keys
        invariant forall x | x in old(t).symbols :: (x in t.symbols <==> old(t).symbols[x].section != s || x in ids)
        invariant forall x | x in t.symbols :: t.symbols[x] == old(t).symbols[x]
        decreases ids
      {
        var x :| x in ids;
        t := t.(symbols := t.symbols - {x});
        ids := ids - {x};
      }
      assert t.symbols == SymbolsWithout(old(t).symbols, s);
    }

    /** linkerdb_clear_relocation_references_at_section. */
    method ClearRelocations(s: Id)
      requires s != 0
      modifies this`t
      ensures t == old(t).(relocations := RelocationsWithout(old(t).relocations, s))
    {
      var ids := set x | x in t.relocations && t.relocations[x].section == s;
      while ids != {}
        invariant t == old(t).(relocations := t.relocations) && t.relocations.Keys <= old(t).relocations.Keys
        invariant forall x | x in old(t).relocations ::
                    (x in t.relocations <==> old(t).relocations[x].section != s || x in ids)
        invariant forall x | x in t.relocations :: t.relocations[x] == old(t).relocations[x]
        decreases ids
      {
        var x :| x in ids;
        t := t.(relocations := t.relocations - {x});
        ids := ids - {x};
      }
      ids := set x | x in t.relocations && t.relocations[x].symbolSection == s;
      while ids != {}
        invariant t == old(t).(relocations := t.relocations) && ids <= t.relocations.Keys
        invariant forall x :: x in t.relocations <==> x in old(t).relocations && old(t).relocations[x].section != s
        invariant forall x | x in t.relocations ::
                    t.relocations[x] == if x in ids then old(t).relocations[x] else Unresolved(old(t).relocations[x], s)
        decreases ids
      {
        var x :| x in ids;
        t := t.(relocations := t.relocations[x := t.relocations[x].(symbol := 0, symbolSection := 0)]);
        ids := ids - {x};
      }
      assert t.relocations == RelocationsWithout(old(t).relocations, s);
    }

    /** linkerdb_clear_implementation_references: every trace of the sections of one import goes. */
    method ClearImplementation(i: Id)
      requires Valid()
      modifies this`t
      ensures Valid() && t == Gone(old(t), SectionsOf(old(t), i))
    {
      var ids := SectionsOf(t, i);
      ghost var all, done: set<Id> := ids, {};
      GoneNone(t);
      hide SymbolsWithout;
      hide RelocationsWithout;
      hide Gone;
      hide Owned;
      hide Bounded;
      while ids != {}
        invariant done + ids == all && 0 !in all
        invariant Valid() && t == Gone(old(t), done)
        decreases ids
      {
        ghost var t1 := t;
        var s :| s in ids;
        ClearSymbols(s);
        ClearRelocations(s);
        t := t.(sections := t.sections - {s});
        assert t == WithoutSection(t1, s);
        hide Integrity;
        WithoutSectionKeeps(t1, s);
        GoneOneMore(old(t), done, s);
        WithoutSectionSmaller(t1, s, lastSection, lastSymbol, lastRelocation, files);
        ids, done := ids - {s}, done + {s};
      }
      assert done == all;
    }

    /** linkerdb_create_clean_implementation: a file imported before is cleared; it gets a new id either way. */
    method CreateImplementation(name: string) returns (i: Id)
      requires Valid()
      modifies this`t, this`files, this`lastFile
      ensures Valid() && i == lastFile == old(lastFile) + 1 && files == old(files)[name := i]
      ensures t == Cleared(old(t), old(files), name)
      ensures forall x | x in t.sections :: t.sections[x].implementation != i
    {
      hide Owned;
      hide Bounded;
      hide Integrity;
      hide Gone;
      hide FilesOk;
      hide SectionsOf;
      if name in files {
        ClearImplementation(files[name]);
        GoneSections(old(t), files[name]);
      }
      NewFile(t, files, lastFile, name);
      lastFile := lastFile + 1;
      i := lastFile;
      files := files[name := i];
    }

    /** The section loop of linkerdb_parse_object_file: each kept section gets the next id. */
    method ImportSections(o: ObjFile, i: Id) returns (sectionIds: map<nat, Id>)
      requires Valid() && i in files.Values
      modifies this`t, this`lastSection
      ensures Valid() && SectionsIn(o, |o.sections|, i, old(t), t, sectionIds)
    {
      hide Integrity;
      hide FilesOk;
      hide SectionsIn;
      hide SymbolsIn;
      hide Owned;
      hide Bounded;
      hide Extended;
      sectionIds := map[];
      NothingIn(o, i, sectionIds, t);
      for j := 0 to |o.sections|
        invariant Valid() && i in files.Values && SectionsIn(o, j, i, old(t), t, sectionIds)
      {
        if o.sections[j].kept {
          AddSection(t, lastSection, lastSymbol, lastRelocation, files, i);
          SectionIn(o, j, i, old(t), t, sectionIds, lastSection + 1);
          lastSection := lastSection + 1;
          sectionIds := sectionIds[j := lastSection];
          t := t.(sections := t.sections[lastSection := Section(i)]);
        } else {
          SectionSkipped(o, j, i, old(t), t, sectionIds);
        }
      }
    }

    /** The symbol loop: a symbol in a kept section gets the next id. */
    method ImportSymbols(o: ObjFile, sectionIds: map<nat, Id>) returns (ok: bool, symbolIds: map<nat, Id>)
      requires Valid() && SectionIdsOk(t, sectionIds) && forall k: nat :: k in sectionIds <==> IsKept(o, k)
      modifies this`t, this`lastSymbol
      ensures Valid() && Extended(old(t), t) && t == old(t).(symbols := t.symbols)
      ensures ok <==> forall j: nat | j < |o.symbols| :: SymbolFine(o, o.symbols[j])
      ensures ok ==> SymbolsIn(o, |o.symbols|, sectionIds, old(t), t, symbolIds)
    {
      hide Integrity;
      hide FilesOk;
      hide SectionsIn;
      hide SymbolsIn;
      hide Bounded;
      hide Owned;
      hide Extended;
      hide SectionIdsOk;
      symbolIds := map[];
      NothingIn(o, 0, sectionIds, t);
      for j := 0 to |o.symbols|
        invariant Valid() && SectionIdsOk(t, sectionIds) && Extended(old(t), t) && t == old(t).(symbols := t.symbols)
        invariant SymbolsIn(o, j, sectionIds, old(t), t, symbolIds)
        invariant forall k: nat | k < j :: SymbolFine(o, o.symbols[k])
      {
        SectionIdIsKept(t, o, sectionIds, o.symbols[j].shndx);
        var y := o.symbols[j];
        if !Placed(y, sectionIds) {
          SymbolSkipped(o, j, sectionIds, old(t), t, symbolIds);
        }
        if y.ordinary && y.shndx != 0 && y.shndx < SHN_LOPROC {
          var s := Look(sectionIds, y.shndx);
          if s == 0 {
            if !(y.shndx < |o.sections| && o.sections[y.shndx].group) {
              return false, symbolIds;
            }
          } else if y.name == "" {
            return false, symbolIds;
          } else {
            SymbolStep(o, j, sectionIds, symbolIds, old(t), t, lastSection, lastSymbol, lastRelocation, files);
            lastSymbol := lastSymbol + 1;
            symbolIds := symbolIds[j := lastSymbol];
            t := t.(symbols := t.symbols[lastSymbol := Symbol(s, y.name)]);
          }
        }
      }
      return true, symbolIds;
    }

    /**
    The relocation loop: each relocation gets a record under the next id, and one against a symbol of the file is
    resolved at once.
    */
    method ImportRelocations(o: ObjFile, sectionIds: map<nat, Id>, symbolIds: map<nat, Id>, ghost t0: Tables)
      returns (ok: bool)
      requires Valid() && WellFormed(o) && SectionIdsOk(t, sectionIds)
      requires SymbolsIn(o, |o.symbols|, sectionIds, t0, t, symbolIds)
      modifies this`t, this`lastRelocation
      ensures Valid() && Extended(old(t), t) && t == old(t).(relocations := t.relocations)
      ensures ok <==> forall j: nat | j < |o.relocations| :: o.relocations[j].name != "" && o.relocations[j].known
      ensures NewAfter(old(t), t, old(lastRelocation))
      ensures ok ==> RelocationsIn(o, |o.relocations|, sectionIds, symbolIds, old(t), t, old(lastRelocation) + 1)
    {
      hide Integrity;
      hide FilesOk;
      hide RelocationsIn;
      hide SymbolsIn;
      hide Records;
      hide RelocationOk;
      hide Bounded;
      hide Owned;
      hide Extended;
      hide NewAfter;
      hide WellFormed;
      NoRelocationsIn(o, sectionIds, symbolIds, t, lastRelocation + 1);
      for j := 0 to |o.relocations|
        invariant Valid() && Extended(old(t), t) && lastRelocation == old(lastRelocation) + j
        invariant t == old(t).(relocations := t.relocations)
        invariant forall k: nat | k < j :: o.relocations[k].name != "" && o.relocations[k].known
        invariant RelocationsIn(o, j, sectionIds, symbolIds, old(t), t, old(lastRelocation) + 1)
      {
        var q := o.relocations[j];
        RelocationsAfter(o, j, sectionIds, symbolIds, old(t), t, old(lastRelocation) + 1);
        if q.name == "" || !q.known {
          return false;
        }
        assert q.symbol < |o.symbols| by { SymbolThere(o, j); }
        var shndx := o.symbols[q.symbol].shndx;
        var r := if shndx == 0 then Relocation(Look(sectionIds, q.section), 0, q.name, 0)
                 else Relocation(Look(sectionIds, q.section), Look(symbolIds, q.symbol), q.name,
                                 Look(sectionIds, shndx));
        RecordOk(o, sectionIds, symbolIds, t0, old(t), t, q, r);
        RelocationStep(o, j, sectionIds, symbolIds, old(t), t, lastSection, lastSymbol, lastRelocation, files, r);
        lastRelocation := lastRelocation + 1;
        t := t.(relocations := t.relocations[lastRelocation := r]);
      }
      RelocationsAfter(o, |o.relocations|, sectionIds, symbolIds, old(t), t, old(lastRelocation) + 1);
      return true;
    }

    /**
    linkerdb_parse_object_file: imports a file, again if need be. Whatever stops it, the database stays whole; the
    sections of an earlier import of the file are gone, and all that belongs to a section of them, and what belongs to
    other sections stays. If nothing stops it, which depends on the file alone, its sections, symbols and relocations
    are in the tables.
    */
    method Import(name: string, o: ObjFile) returns (ok: bool)
      requires Valid() && WellFormed(o)
      modifies this
      ensures Valid() && name in files && files == old(files)[name := files[name]]
      ensures Extended(Cleared(old(t), old(files), name), t)
      ensures ok <==> Importable(o)
      ensures ok ==> AsImported(t, files[name], o, old(lastRelocation) + 1)
      ensures NewAfter(Cleared(old(t), old(files), name), t, old(lastRelocation))
    {
      hide Integrity;
      hide Gone;
      hide Bounded;
      hide Owned;
      hide FilesOk;
      var i := CreateImplementation(name);
      ghost var t0 := t;
      assert files[name] == i;
      var sectionIds := ImportSections(o, i);
      SectionsInOk(o, |o.sections|, i, t0, t, sectionIds);
      ghost var t1 := t;
      var symbolIds;
      ok, symbolIds := ImportSymbols(o, sectionIds);
      ExtendedTwice(t0, t1, t);
      if !ok {
        return;
      }
      ghost var t2 := t;
      ok := ImportRelocations(o, sectionIds, symbolIds, t1);
      ExtendedTwice(t0, t2, t);
      if ok {
        Imported(o, i, t0, t1, t2, t, sectionIds, symbolIds, old(lastRelocation) + 1);
      }
    }

    /**
    linkerdb_fix_reloc_symbol_section_ids: a relocation that is not resolved, and whose name just one symbol
    has, is resolved to that symbol; every other relocation stays as it is.
    */
    method Fix()
      requires Valid()
      modifies this`t
      ensures Valid() && t == old(t).(relocations := t.relocations) && t.relocations.Keys == old(t).relocations.Keys
      ensures files == old(files)
      ensures forall x | x in t.relocations :: Outcome(old(t), old(t).relocations[x], t.relocations[x])
      ensures forall x, y | x in t.relocations && t.relocations[x].symbolSection == 0 ::
                !Sole(t, t.relocations[x].name, y)
    {
      hide Integrity;
      hide FilesOk;
      hide Outcome;
      var ids := set x | x in t.relocations && t.relocations[x].symbolSection == 0;
      Resolved(t);
      while ids != {}
        invariant Valid() && t == old(t).(relocations := t.relocations) && t.relocations.Keys == old(t).relocations.Keys
        invariant ids <= t.relocations.Keys
                  && forall x | x in ids ::
                      t.relocations[x] == old(t).relocations[x] && t.relocations[x].symbolSection == 0
        invariant forall x | x in t.relocations && x !in ids :: Outcome(old(t), old(t).relocations[x], t.relocations[x])
        decreases ids
      {
        var x :| x in ids;
        ids := ids - {x};
        var r := t.relocations[x];
        var named := set y | y in t.symbols && t.symbols[y].name == r.name;
        if |named| == 1 {
          var y :| y in named;
          FixKeeps(t, x, y);
          OneNamed(t, r, named, y);
          t := t.(relocations := t.relocations[x := r.(symbol := y, symbolSection := t.symbols[y].section)]);
        } else {
          NotOneNamed(t, r, named);
        }
      }
      forall x, y | x in t.relocations && t.relocations[x].symbolSection == 0
        ensures !Sole(t, t.relocations[x].name, y)
      {
        StillOpen(old(t), t, x, y);
      }
    }
  }

  /** The only symbol of a name. */
  predicate Sole(t: Tables, name: string, y: Id) {
    y in t.symbols && t.symbols[y].name == name && forall z | z in t.symbols && t.symbols[z].name == name :: z == y
  }

  /** What the pass makes of a relocation. */
  ghost predicate Outcome(t: Tables, r: Relocation, r': Relocation) {
    if r.symbolSection == 0 && exists y :: Sole(t, r.name, y) then
      && Sole(t, r.name, r'.symbol) && r'.symbolSection != 0
      && r' == r.(symbol := r'.symbol, symbolSection := t.symbols[r'.symbol].section)
    else r' == r
  }

  lemma Resolved(t: Tables)
    ensures forall x | x in t.relocations && t.relocations[x].symbolSection != 0 ::
              Outcome(t, t.relocations[x], t.relocations[x])
  {
  }

  /** Only the symbols matter to the pass. */
  lemma OneNamed(t: Tables, r: Relocation, named: set<Id>, y: Id)
    requires named == (set x | x in t.symbols && t.symbols[x].name == r.name) && |named| == 1 && y in named
    requires r.symbolSection == 0 && t.symbols[y].section != 0
    ensures forall q :: Outcome(t.(relocations := q), r, r.(symbol := y, symbolSection := t.symbols[y].section))
  {
    assert Sole(t, r.name, y) by {
      forall x | x in t.symbols && t.symbols[x].name == r.name ensures x == y {
        assert x in named && |named - {y}| == 0;
      }
    }
    forall q ensures Outcome(t.(relocations := q), r, r.(symbol := y, symbolSection := t.symbols[y].section)) {
      assert Sole(t.(relocations := q), r.name, y);
    }
  }

  lemma NotOneNamed(t: Tables, r: Relocation, named: set<Id>)
    requires named == (set x | x in t.symbols && t.symbols[x].name == r.name) && |named| != 1
    ensures forall q :: Outcome(t.(relocations := q), r, r)
  {
    forall q, y: Id ensures !Sole(t.(relocations := q), r.name, y) {
      if Sole(t.(relocations := q), r.name, y) {
        SoleNamed(t.(relocations := q), r.name, named, y);
      }
    }
  }

  lemma SoleNamed(t: Tables, name: string, named: set<Id>, y: Id)
    requires named == (set x | x in t.symbols && t.symbols[x].name == name) && Sole(t, name, y)
    ensures |named| == 1
  {
    assert named == {y};
  }

  lemma FixKeeps(t: Tables, x: Id, y: Id)
    requires Integrity(t) && x in t.relocations && y in t.symbols
    ensures t.symbols[y].section != 0
    ensures var r := t.relocations[x].(symbol := y, symbolSection := t.symbols[y].section);
            Integrity(t.(relocations := t.relocations[x := r]))
  {
  }

  /** What the pass leaves unresolved has no symbol of its name, or several. */
  lemma StillOpen(t: Tables, t': Tables, x: Id, y: Id)
    requires x in t.relocations && x in t'.relocations && Outcome(t, t.relocations[x], t'.relocations[x])
    requires t' == t.(relocations := t'.relocations) && t'.relocations[x].symbolSection == 0
    ensures !Sole(t', t'.relocations[x].name, y)
  {
    if Sole(t', t'.relocations[x].name, y) {
      assert Sole(t, t.relocations[x].name, y);
    }
  }

  lemma ExtendedTwice(t: Tables, t1: Tables, t2: Tables)
    requires Extended(t, t1) && Extended(t1, t2)
    ensures Extended(t, t2)
  {
  }

  lemma SectionsInOk(o: ObjFile, j: nat, i: Id, t0: Tables, t: Tables, sectionIds: map<nat, Id>)
    requires j <= |o.sections| && SectionsIn(o, j, i, t0, t, sectionIds)
    ensures Extended(t0, t) && SectionIdsOk(t, sectionIds) && t.relocations == t0.relocations
    ensures j == |o.sections| ==> forall k: nat :: k in sectionIds <==> IsKept(o, k)
  {
  }

  /** A symbol that the import takes. */
  predicate Placed(y: ObjSymbol, sectionIds: map<nat, Id>) {
    y.ordinary && y.shndx != 0 && y.shndx < SHN_LOPROC && Look(sectionIds, y.shndx) != 0
  }

  /** Relocations that were not there have ids after this one. */
  predicate NewAfter(t: Tables, t': Tables, last: Id) {
    forall x | x in t'.relocations && x !in t.relocations :: x > last
  }

  lemma SectionIdIsKept(t: Tables, o: ObjFile, sectionIds: map<nat, Id>, i: nat)
    requires Integrity(t) && SectionIdsOk(t, sectionIds) && forall k: nat :: k in sectionIds <==> IsKept(o, k)
    ensures Look(sectionIds, i) != 0 <==> IsKept(o, i)
  {
  }

  /** Where the loops of an import start. */
  lemma NothingIn(o: ObjFile, i: Id, sectionIds: map<nat, Id>, t: Tables)
    ensures SectionsIn(o, 0, i, t, t, map[]) && SymbolsIn(o, 0, sectionIds, t, t, map[]) && Extended(t, t)
  {
  }

  /** The first j symbols, as far as they are taken, are in the tables, under ids of their own that were not in use. */
  ghost predicate SymbolsIn(o: ObjFile, j: nat, sectionIds: map<nat, Id>, t0: Tables, t: Tables,
                            symbolIds: map<nat, Id>)
    requires j <= |o.symbols|
  {
    && t == t0.(symbols := t.symbols) && Extended(t0, t)
    && (forall k: nat :: k in symbolIds <==> k < j && Placed(o.symbols[k], sectionIds))
    && (forall k | k in symbolIds :: symbolIds[k] != 0 && symbolIds[k] !in t0.symbols)
    && (forall k | k in symbolIds :: SymbolAt(o.symbols[k], sectionIds, t, symbolIds[k]))
    && OneToOne(symbolIds) && NewOnes(t0.symbols.Keys, t.symbols.Keys, symbolIds)
  }

  /** A symbol has its record under this id. */
  predicate SymbolAt(y: ObjSymbol, sectionIds: map<nat, Id>, t: Tables, id: Id) {
    id in t.symbols && t.symbols[id] == Symbol(Look(sectionIds, y.shndx), y.name)
  }

  predicate OneToOne(ids: map<nat, Id>) {
    forall k, l | k in ids && l in ids && ids[k] == ids[l] :: k == l
  }

  /** What was added is under these ids. */
  predicate NewOnes(before: set<Id>, after: set<Id>, ids: map<nat, Id>) {
    forall x | x in after && x !in before :: x in ids.Values
  }

  lemma OneToOneNext(ids: map<nat, Id>, j: nat, id: Id)
    requires OneToOne(ids) && id !in ids.Values && j !in ids
    ensures OneToOne(ids[j := id])
  {
  }

  lemma NewOnesNext(before: set<Id>, after: set<Id>, ids: map<nat, Id>, j: nat, id: Id)
    requires NewOnes(before, after, ids) && j !in ids
    ensures NewOnes(before, after + {id}, ids[j := id])
  {
    var ids' := ids[j := id];
    assert ids'[j] == id;
    forall x | x in after && x !in before ensures x in ids'.Values {
      var k :| k in ids && ids[k] == x;
      assert ids'[k] == x;
    }
  }

  lemma ExtendedBySymbol(t0: Tables, t: Tables, id: Id, y: Symbol)
    requires Extended(t0, t) && id !in t.symbols
    ensures id !in t0.symbols && Extended(t0, t.(symbols := t.symbols[id := y]))
  {
  }

  lemma SymbolIn(o: ObjFile, j: nat, sectionIds: map<nat, Id>, t0: Tables, t: Tables, symbolIds: map<nat, Id>, id: Id)
    requires j < |o.symbols| && Placed(o.symbols[j], sectionIds) && id != 0 && id !in t.symbols
    requires SymbolsIn(o, j, sectionIds, t0, t, symbolIds)
    ensures var y := o.symbols[j];
            SymbolsIn(o, j + 1, sectionIds, t0,
                      t.(symbols := t.symbols[id := Symbol(Look(sectionIds, y.shndx), y.name)]), symbolIds[j := id])
  {
    hide Placed;
    hide Look;
    hide Extended;
    hide OneToOne;
    hide NewOnes;
    var y, ids' := o.symbols[j], symbolIds[j := id];
    var t' := t.(symbols := t.symbols[id := Symbol(Look(sectionIds, y.shndx), y.name)]);
    ExtendedBySymbol(t0, t, id, Symbol(Look(sectionIds, y.shndx), y.name));
    assert id !in symbolIds.Values;
    OneToOneNext(symbolIds, j, id);
    NewOnesNext(t0.symbols.Keys, t.symbols.Keys, symbolIds, j, id);
    assert t'.symbols.Keys == t.symbols.Keys + {id};
  }

  lemma SymbolSkipped(o: ObjFile, j: nat, sectionIds: map<nat, Id>, t0: Tables, t: Tables, symbolIds: map<nat, Id>)
    requires j < |o.symbols| && SymbolsIn(o, j, sectionIds, t0, t, symbolIds) && !Placed(o.symbols[j], sectionIds)
    ensures SymbolsIn(o, j + 1, sectionIds, t0, t, symbolIds)
  {
  }

  /**
  The record of a relocation of the file: in the relocation's section, under its name, and with a symbol exactly when
  the import took the symbol, which it then leads to; it names a section exactly when that was kept.
  */
  predicate Records(o: ObjFile, sectionIds: map<nat, Id>, symbolIds: map<nat, Id>, q: ObjRelocation, r: Relocation)
    requires q.symbol < |o.symbols|
  {
    var y := o.symbols[q.symbol];
    && r.section == Look(sectionIds, q.section) && r.name == q.name
    && (r.symbol != 0 <==> Placed(y, sectionIds))
    && (r.symbol != 0 ==> q.symbol in symbolIds && r.symbol == symbolIds[q.symbol])
    && (r.symbolSection != 0 <==> y.shndx != 0 && Look(sectionIds, y.shndx) != 0)
    && (r.symbolSection != 0 ==> r.symbolSection == sectionIds[y.shndx])
  }

  predicate RecordAt(o: ObjFile, k: nat, sectionIds: map<nat, Id>, symbolIds: map<nat, Id>, t: Tables, first: Id)
    requires k < |o.relocations| && WellFormed(o)
  {
    first + k in t.relocations && Records(o, sectionIds, symbolIds, o.relocations[k], t.relocations[first + k])
  }

  /** The first j relocations have records under the ids from first on, and no other was added. */
  ghost predicate RelocationsIn(o: ObjFile, j: nat, sectionIds: map<nat, Id>, symbolIds: map<nat, Id>, t0: Tables,
                                t: Tables, first: Id)
    requires j <= |o.relocations| && WellFormed(o)
  {
    && t == t0.(relocations := t.relocations) && Extended(t0, t)
    && (forall x | x in t.relocations && x !in t0.relocations :: first <= x < first + j)
    && (forall k: nat | k < j :: RecordAt(o, k, sectionIds, symbolIds, t, first))
  }

  lemma RelocationIn(o: ObjFile, j: nat, sectionIds: map<nat, Id>, symbolIds: map<nat, Id>, t0: Tables, t: Tables,
                     first: Id, r: Relocation)
    requires WellFormed(o) && j < |o.relocations| && RelocationsIn(o, j, sectionIds, symbolIds, t0, t, first)
    requires Records(o, sectionIds, symbolIds, o.relocations[j], r) && first + j !in t.relocations
    ensures RelocationsIn(o, j + 1, sectionIds, symbolIds, t0,
                          t.(relocations := t.relocations[first + j := r]), first)
  {
    hide Records;
    var t' := t.(relocations := t.relocations[first + j := r]);
    forall k: nat | k < j + 1 ensures RecordAt(o, k, sectionIds, symbolIds, t', first) {
      assert k < j ==> RecordAt(o, k, sectionIds, symbolIds, t, first);
    }
  }

  lemma SymbolThere(o: ObjFile, j: nat)
    requires WellFormed(o) && j < |o.relocations|
    ensures o.relocations[j].symbol < |o.symbols|
  {
  }

  lemma NoRelocationsIn(o: ObjFile, sectionIds: map<nat, Id>, symbolIds: map<nat, Id>, t: Tables, first: Id)
    requires WellFormed(o)
    ensures RelocationsIn(o, 0, sectionIds, symbolIds, t, t, first) && Extended(t, t)
  {
  }

  lemma RelocationsAfter(o: ObjFile, j: nat, sectionIds: map<nat, Id>, symbolIds: map<nat, Id>, t0: Tables, t: Tables,
                         first: Id)
    requires first > 0 && j <= |o.relocations| && WellFormed(o)
    requires RelocationsIn(o, j, sectionIds, symbolIds, t0, t, first)
    ensures NewAfter(t0, t, first - 1)
  {
  }

  /** The record that the relocation loop makes says what it should, and may be put into the tables. */
  lemma RecordOk(o: ObjFile, sectionIds: map<nat, Id>, symbolIds: map<nat, Id>, t0: Tables, t1: Tables, t: Tables,
                 q: ObjRelocation, r: Relocation)
    requires Integrity(t) && SectionIdsOk(t, sectionIds) && SymbolsIn(o, |o.symbols|, sectionIds, t0, t1, symbolIds)
    requires t == t1.(relocations := t.relocations) && q.symbol < |o.symbols| && q.name != ""
    requires var shndx := o.symbols[q.symbol].shndx;
             r == if shndx == 0 then Relocation(Look(sectionIds, q.section), 0, q.name, 0)
                  else Relocation(Look(sectionIds, q.section), Look(symbolIds, q.symbol), q.name,
                                  Look(sectionIds, shndx))
    ensures Records(o, sectionIds, symbolIds, q, r) && RelocationOk(t, r)
  {
  }

  /** The kept ones of the first j sections are in the tables, under ids of their own that were not in use. */
  ghost predicate SectionsIn(o: ObjFile, j: nat, i: Id, t0: Tables, t: Tables, sectionIds: map<nat, Id>)
    requires j <= |o.sections|
  {
    && t == t0.(sections := t.sections) && Extended(t0, t) && SectionIdsOk(t, sectionIds)
    && (forall k: nat :: k in sectionIds <==> k < j && o.sections[k].kept)
    && (forall k | k in sectionIds :: sectionIds[k] !in t0.sections)
    && OneToOne(sectionIds) && (forall x | x in t.sections && x !in t0.sections :: t.sections[x] == Section(i))
  }

  lemma SectionIn(o: ObjFile, j: nat, i: Id, t0: Tables, t: Tables, sectionIds: map<nat, Id>, id: Id)
    requires j < |o.sections| && o.sections[j].kept && SectionsIn(o, j, i, t0, t, sectionIds) && id !in t.sections
    ensures SectionsIn(o, j + 1, i, t0, t.(sections := t.sections[id := Section(i)]), sectionIds[j := id])
  {
  }

  lemma SectionSkipped(o: ObjFile, j: nat, i: Id, t0: Tables, t: Tables, sectionIds: map<nat, Id>)
    requires j < |o.sections| && !o.sections[j].kept && SectionsIn(o, j, i, t0, t, sectionIds)
    ensures SectionsIn(o, j + 1, i, t0, t, sectionIds)
  {
  }

  /** All that was in the tables is there still. */
  predicate Extended(t: Tables, t': Tables) {
    && (forall x | x in t.sections :: x in t'.sections && t'.sections[x] == t.sections[x])
    && (forall x | x in t.symbols :: x in t'.symbols && t'.symbols[x] == t.symbols[x])
    && (forall x | x in t.relocations :: x in t'.relocations && t'.relocations[x] == t.relocations[x])
  }

  lemma AddSection(t: Tables, lastSection: Id, lastSymbol: Id, lastRelocation: Id, files: map<string, Id>, i: Id)
    requires Integrity(t) && Bounded(t, lastSection, lastSymbol, lastRelocation) && Owned(t, files) && i in files.Values
    ensures lastSection + 1 !in t.sections
    ensures var t' := t.(sections := t.sections[lastSection + 1 := Section(i)]);
            Integrity(t') && Bounded(t', lastSection + 1, lastSymbol, lastRelocation) && Owned(t', files)
  {
  }

  lemma AddSymbol(t: Tables, id: Id, y: Symbol)
    requires Integrity(t) && id != 0 && id !in t.symbols && y.section in t.sections
    ensures Integrity(t.(symbols := t.symbols[id := y]))
  {
  }

  lemma PutRelocation(t: Tables, lastSection: Id, lastSymbol: Id, lastRelocation: Id, files: map<string, Id>,
                      r: Relocation)
    requires Integrity(t) && Bounded(t, lastSection, lastSymbol, lastRelocation) && Owned(t, files)
             && RelocationOk(t, r)
    ensures lastRelocation + 1 !in t.relocations
    ensures var t' := t.(relocations := t.relocations[lastRelocation + 1 := r]);
            && Integrity(t') && Bounded(t', lastSection, lastSymbol, lastRelocation + 1) && Owned(t', files)
            && Extended(t, t')
  {
  }

  lemma SymbolStep(o: ObjFile, j: nat, sectionIds: map<nat, Id>, symbolIds: map<nat, Id>, t0: Tables, t: Tables,
                   lastSection: Id, lastSymbol: Id, lastRelocation: Id, files: map<string, Id>)
    requires Integrity(t) && Bounded(t, lastSection, lastSymbol, lastRelocation) && Owned(t, files)
    requires j < |o.symbols| && Placed(o.symbols[j], sectionIds) && Extended(t0, t) && SectionIdsOk(t, sectionIds)
    requires SymbolsIn(o, j, sectionIds, t0, t, symbolIds)
    ensures var y := o.symbols[j];
            var t' := t.(symbols := t.symbols[lastSymbol + 1 := Symbol(Look(sectionIds, y.shndx), y.name)]);
            && Integrity(t') && Bounded(t', lastSection, lastSymbol + 1, lastRelocation) && Owned(t', files)
            && Extended(t0, t') && SectionIdsOk(t', sectionIds)
            && SymbolsIn(o, j + 1, sectionIds, t0, t', symbolIds[j := lastSymbol + 1])
  {
    var y := o.symbols[j];
    assert lastSymbol + 1 !in t.symbols;
    AddSymbol(t, lastSymbol + 1, Symbol(Look(sectionIds, y.shndx), y.name));
    hide Integrity;
    SymbolIn(o, j, sectionIds, t0, t, symbolIds, lastSymbol + 1);
    hide SymbolsIn;
  }

  lemma RelocationStep(o: ObjFile, j: nat, sectionIds: map<nat, Id>, symbolIds: map<nat, Id>, t1: Tables, t: Tables,
                       lastSection: Id, lastSymbol: Id, lastRelocation: Id, files: map<string, Id>, r: Relocation)
    requires Integrity(t) && Bounded(t, lastSection, lastSymbol, lastRelocation) && Owned(t, files)
             && RelocationOk(t, r)
    requires WellFormed(o) && j < |o.relocations| && lastRelocation >= j && Extended(t1, t)
    requires RelocationsIn(o, j, sectionIds, symbolIds, t1, t, lastRelocation + 1 - j)
    requires Records(o, sectionIds, symbolIds, o.relocations[j], r)
    ensures var t' := t.(relocations := t.relocations[lastRelocation + 1 := r]);
            && Integrity(t') && Bounded(t', lastSection, lastSymbol, lastRelocation + 1) && Owned(t', files)
            && Extended(t1, t') && RelocationsIn(o, j + 1, sectionIds, symbolIds, t1, t', lastRelocation + 1 - j)
  {
    PutRelocation(t, lastSection, lastSymbol, lastRelocation, files, r);
    hide Integrity;
    hide Bounded;
    hide Owned;
    hide RelocationOk;
    hide Records;
    ExtendedTwice(t1, t, t.(relocations := t.relocations[lastRelocation + 1 := r]));
    hide Extended;
    RelocationIn(o, j, sectionIds, symbolIds, t1, t, lastRelocation + 1 - j, r);
    hide RelocationsIn;
  }

  function SectionsOf(t: Tables, i: Id): (ss: set<Id>) {
    set x | x in t.sections && t.sections[x].implementation == i
  }

  lemma GoneNone(t: Tables)
    ensures Gone(t, {}) == t
  {
  }

  lemma GoneSections(t: Tables, i: Id)
    ensures var t' := Gone(t, SectionsOf(t, i));
            forall x | x in t'.sections ::
                t'.sections[x].implementation != i && x in t.sections && t'.sections[x] == t.sections[x]
  {
  }

  lemma WithoutSectionSmaller(t: Tables, s: Id, lastSection: Id, lastSymbol: Id, lastRelocation: Id,
                              files: map<string, Id>)
    requires Bounded(t, lastSection, lastSymbol, lastRelocation) && Owned(t, files)
    ensures Bounded(WithoutSection(t, s), lastSection, lastSymbol, lastRelocation) && Owned(WithoutSection(t, s), files)
  {
  }

  // ---- What an import leaves ----

  /**
  The sections, symbols and relocations of a file are in the tables: kept sections under ids of their own as sections
  of the import, symbols in them under ids of their own, relocations from an id on. What the relocations lead to is
  left open, for it changes when other files come and go.
  */
  ghost predicate FileIn(t: Tables, i: Id, o: ObjFile, sectionIds: map<nat, Id>, symbolIds: map<nat, Id>, first: Id) {
    && (forall k: nat :: k in sectionIds <==> k < |o.sections| && o.sections[k].kept)
    && (forall k | k in sectionIds :: SectionAt(t, i, sectionIds[k])) && OneToOne(sectionIds)
    && (forall k: nat :: k in symbolIds <==> k < |o.symbols| && Placed(o.symbols[k], sectionIds))
    && (forall k | k in symbolIds :: SymbolAt(o.symbols[k], sectionIds, t, symbolIds[k])) && OneToOne(symbolIds)
    && (forall k: nat | k < |o.relocations| :: RelocationAt(o, k, sectionIds, t, first))
  }

  predicate SectionAt(t: Tables, i: Id, id: Id) {
    id in t.sections && t.sections[id] == Section(i)
  }

  predicate RelocationAt(o: ObjFile, k: nat, sectionIds: map<nat, Id>, t: Tables, first: Id)
    requires k < |o.relocations|
  {
    && first + k in t.relocations && t.relocations[first + k].name == o.relocations[k].name
    && t.relocations[first + k].section == Look(sectionIds, o.relocations[k].section)
  }

  ghost predicate HasFile(t: Tables, i: Id, o: ObjFile) {
    exists sectionIds, symbolIds, first: Id :: FileIn(t, i, o, sectionIds, symbolIds, first)
  }

  /** Every relocation of the file has a record that is resolved exactly when the file defines its symbol. */
  ghost predicate AllRecorded(t: Tables, o: ObjFile, sectionIds: map<nat, Id>, symbolIds: map<nat, Id>, first: Id) {
    WellFormed(o) && forall k: nat | k < |o.relocations| :: RecordAt(o, k, sectionIds, symbolIds, t, first)
  }

  /** The file is in the tables, with relocations resolved as far as the file itself can. */
  ghost predicate AsImported(t: Tables, i: Id, o: ObjFile, first: Id) {
    exists sectionIds, symbolIds ::
      FileIn(t, i, o, sectionIds, symbolIds, first) && AllRecorded(t, o, sectionIds, symbolIds, first)
  }

  lemma RecordIsThere(o: ObjFile, k: nat, sectionIds: map<nat, Id>, symbolIds: map<nat, Id>, t: Tables, first: Id)
    requires k < |o.relocations| && WellFormed(o) && RecordAt(o, k, sectionIds, symbolIds, t, first)
    ensures RelocationAt(o, k, sectionIds, t, first)
  {
  }

  lemma Imported(o: ObjFile, i: Id, t0: Tables, t1: Tables, t2: Tables, t: Tables, sectionIds: map<nat, Id>,
                 symbolIds: map<nat, Id>, first: Id)
    requires WellFormed(o) && SectionsIn(o, |o.sections|, i, t0, t1, sectionIds)
    requires SymbolsIn(o, |o.symbols|, sectionIds, t1, t2, symbolIds)
    requires RelocationsIn(o, |o.relocations|, sectionIds, symbolIds, t2, t, first)
    ensures AsImported(t, i, o, first)
  {
    hide Records;
    hide Placed;
    hide OneToOne;
    hide NewOnes;
    hide Extended;
    assert AllRecorded(t, o, sectionIds, symbolIds, first);
    hide AllRecorded;
    forall k | k in symbolIds ensures SymbolAt(o.symbols[k], sectionIds, t, symbolIds[k]) {
      assert SymbolAt(o.symbols[k], sectionIds, t2, symbolIds[k]);
    }
    forall k: nat | k < |o.relocations| ensures RelocationAt(o, k, sectionIds, t, first) {
      RecordIsThere(o, k, sectionIds, symbolIds, t, first);
    }
    assert FileIn(t, i, o, sectionIds, symbolIds, first);
  }

  // ---- Sequences of imports and passes ----

  datatype Work = ImportFile(name: string, o: ObjFile) | FixPass

  /** The file last imported under each name. */
  function Latest(ops: seq<Work>): (m: map<string, ObjFile>) {
    if ops == [] then map[] else
    var m := Latest(ops[..|ops| - 1]);
    match ops[|ops| - 1]
    case ImportFile(name, o) => m[name := o]
    case FixPass => m
  }

  /** All these files are in the tables, as the latest imports of their names. */
  ghost predicate AllIn(t: Tables, files: map<string, Id>, m: map<string, ObjFile>) {
    forall name | name in m :: name in files && HasFile(t, files[name], m[name])
  }

  /** A file stays when the sections of another import go and new records come. */
  lemma OtherStays(t: Tables, t': Tables, i: Id, i': Id, o: ObjFile, sectionIds: map<nat, Id>, symbolIds: map<nat, Id>,
                   first: Id)
    requires FileIn(t, i, o, sectionIds, symbolIds, first) && i != i' && 0 !in t.sections
    requires Extended(Gone(t, SectionsOf(t, i')), t')
    ensures FileIn(t', i, o, sectionIds, symbolIds, first)
  {
    hide Placed;
    var t1 := Gone(t, SectionsOf(t, i'));
    forall k | k in symbolIds
      ensures symbolIds[k] in t1.symbols && t1.symbols[symbolIds[k]] == t.symbols[symbolIds[k]]
    {
      assert t.symbols[symbolIds[k]].section == Look(sectionIds, o.symbols[k].shndx);
    }
    forall k: nat | k < |o.relocations| ensures RelocationAt(o, k, sectionIds, t', first) {
      assert RelocationAt(o, k, sectionIds, t, first);
      assert first + k in t1.relocations;
    }
  }

  lemma FileStays(t: Tables, t': Tables, i: Id, o: ObjFile, sectionIds: map<nat, Id>, symbolIds: map<nat, Id>,
                  first: Id)
    requires FileIn(t, i, o, sectionIds, symbolIds, first)
    requires || Extended(t, t')
             || (t' == t.(relocations := t'.relocations) && t'.relocations.Keys == t.relocations.Keys
                 && forall x | x in t.relocations :: Outcome(t, t.relocations[x], t'.relocations[x]))
    ensures FileIn(t', i, o, sectionIds, symbolIds, first)
  {
    hide Placed;
    forall k: nat | k < |o.relocations| ensures RelocationAt(o, k, sectionIds, t', first) {
      assert RelocationAt(o, k, sectionIds, t, first);
    }
  }

  /** A pass keeps all files. */
  lemma AllInFixed(t: Tables, t': Tables, files: map<string, Id>, m: map<string, ObjFile>)
    requires AllIn(t, files, m) && t' == t.(relocations := t'.relocations) && t'.relocations.Keys == t.relocations.Keys
    requires forall x | x in t.relocations :: Outcome(t, t.relocations[x], t'.relocations[x])
    ensures AllIn(t', files, m)
  {
    hide FileIn;
    hide Outcome;
    forall name | name in m ensures HasFile(t', files[name], m[name]) {
      var sectionIds, symbolIds, first: Id :| FileIn(t, files[name], m[name], sectionIds, symbolIds, first);
      FileStays(t, t', files[name], m[name], sectionIds, symbolIds, first);
    }
  }

  /** An import keeps the files of other names. */
  lemma AllInImported(t: Tables, t': Tables, files: map<string, Id>, last: Id, m: map<string, ObjFile>, name: string,
                      i: Id, o: ObjFile, from: Id)
    requires AllIn(t, files, m) && FilesOk(files, last) && 0 !in t.sections && Extended(Cleared(t, files, name), t')
    ensures AllIn(t', files[name := i], m - {name})
    ensures AsImported(t', i, o, from) ==> AllIn(t', files[name := i], m[name := o])
  {
    hide FileIn;
    hide Gone;
    hide Extended;
    hide AllRecorded;
    forall other | other in m && other != name ensures HasFile(t', files[other], m[other]) {
      var sectionIds, symbolIds, first: Id :| FileIn(t, files[other], m[other], sectionIds, symbolIds, first);
      if name in files {
        OtherStays(t, t', files[other], files[name], m[other], sectionIds, symbolIds, first);
      } else {
        FileStays(t, t', files[other], m[other], sectionIds, symbolIds, first);
      }
    }
  }

  /**
  Any sequence of imports, re-imports and passes. It stops at the first import of a file that cannot be imported. The
  database is whole after each step, and the latest import of every name is in the tables with all its sections, symbols
  and relocations, but for the one that failed.
  */
  method Run(db: Database, ops: seq<Work>) returns (n: nat)
    requires db.Valid() && forall op | op in ops && op.ImportFile? :: WellFormed(op.o)
    modifies db
    ensures db.Valid() && n <= |ops|
    ensures forall i: nat | i < n && ops[i].ImportFile? :: Importable(ops[i].o)
    ensures n < |ops| ==> ops[n].ImportFile? && !Importable(ops[n].o)
    ensures AllIn(db.t, db.files, if n == |ops| then Latest(ops) else Latest(ops[..n]) - {ops[n].name})
  {
    hide Bounded;
    hide Owned;
    hide FilesOk;
    hide Cleared;
    hide Extended;
    hide NewAfter;
    hide HasFile;
    hide AsImported;
    hide WellFormed;
    hide Importable;
    hide Outcome;
    n := 0;
    while n < |ops|
      invariant db.Valid() && n <= |ops| && AllIn(db.t, db.files, Latest(ops[..n]))
      invariant forall i: nat | i < n && ops[i].ImportFile? :: Importable(ops[i].o)
    {
      assert ops[n] in ops && ops[..n + 1][..n] == ops[..n];
      ghost var t0, files0, last0, lastRelocation0 := db.t, db.files, db.lastFile, db.lastRelocation;
      match ops[n] {
        case ImportFile(name, o) =>
          var ok := db.Import(name, o);
          AllInImported(t0, db.t, files0, last0, Latest(ops[..n]), name, db.files[name], o, lastRelocation0 + 1);
          if !ok {
            return;
          }
        case FixPass =>
          db.Fix();
          AllInFixed(t0, db.t, db.files, Latest(ops[..n]));
      }
      n := n + 1;
    }
    assert ops[..n] == ops;
  }

  // ---- What a second import leaves of the first ----

  /**
  Clearing goes by section. Of an import that is cleared the sections and symbols go, and a relocation goes if and only
  if its section was kept: one of a section that was not kept has the section id 0.
  */
  lemma LeftBehind(t: Tables, i: Id, o: ObjFile, sectionIds: map<nat, Id>, symbolIds: map<nat, Id>, first: Id)
    requires Integrity(t) && FileIn(t, i, o, sectionIds, symbolIds, first)
    ensures var t' := Gone(t, SectionsOf(t, i));
            && (forall k | k in sectionIds :: sectionIds[k] !in t'.sections)
            && (forall k | k in symbolIds :: symbolIds[k] !in t'.symbols)
            && (forall k: nat | k < |o.relocations| ::
                  first + k in t'.relocations <==> !IsKept(o, o.relocations[k].section))
  {
    var t' := Gone(t, SectionsOf(t, i));
    forall k | k in symbolIds ensures symbolIds[k] !in t'.symbols {
      assert SymbolAt(o.symbols[k], sectionIds, t, symbolIds[k]);
    }
    forall k: nat | k < |o.relocations| ensures first + k in t'.relocations <==> !IsKept(o, o.relocations[k].section) {
      assert RelocationAt(o, k, sectionIds, t, first);
      var s := o.relocations[k].section;
      assert s in sectionIds <==> IsKept(o, s);
      assert s in sectionIds ==> SectionAt(t, i, sectionIds[s]);
    }
  }

  /**
  A file is imported, and another under its name: of the relocations of the first exactly those of sections that were
  not kept are still there, beside all that the second brings.
  */
  method Reimport(db: Database, name: string, o: ObjFile, o': ObjFile)
    requires db.Valid() && WellFormed(o) && WellFormed(o') && Importable(o) && Importable(o')
    modifies db
    ensures db.Valid() && name in db.files && HasFile(db.t, db.files[name], o')
    ensures forall k: nat | k < |o.relocations| ::
              old(db.lastRelocation) + 1 + k in db.t.relocations <==> !IsKept(o, o.relocations[k].section)
  {
    hide FilesOk;
    hide Owned;
    hide Integrity;
    hide Importable;
    hide FileIn;
    hide AllRecorded;
    hide Gone;
    ghost var first := db.lastRelocation + 1;
    var ok := db.Import(name, o);
    ghost var t1, i1, last1 := db.t, db.files[name], db.lastRelocation;
    ghost var sectionIds, symbolIds :| FileIn(t1, i1, o, sectionIds, symbolIds, first);
    LeftBehind(t1, i1, o, sectionIds, symbolIds, first);
    ok := db.Import(name, o');
    forall k: nat | k < |o.relocations|
      ensures first + k in db.t.relocations <==> !IsKept(o, o.relocations[k].section)
    {
      assert first + k in t1.relocations by { FileHas(t1, i1, o, sectionIds, symbolIds, first, k); }
    }
  }

  lemma FileHas(t: Tables, i: Id, o: ObjFile, sectionIds: map<nat, Id>, symbolIds: map<nat, Id>, first: Id, k: nat)
    requires FileIn(t, i, o, sectionIds, symbolIds, first) && k < |o.relocations|
    ensures first + k in t.relocations
  {
    assert RelocationAt(o, k, sectionIds, t, first);
  }
}
