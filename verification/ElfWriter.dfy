/** The object files the code cache is written to: section headers laid out by running offsets, then the bytes
in one sequential pass. */
module ElfWriter {
  import opened Options
  import opened ElfFormat

  // ----- what is to be written

  datatype SymbolChain = NoSymbol | CodeCacheSymbol(name: seq<byte>, start: nat, size: nat, next: SymbolChain)
  {
    function Length(): nat {
      if NoSymbol? then 0 else 1 + next.Length()
    }

    function Nth(k: nat): (sym: SymbolChain)
      requires k < Length()
      ensures sym.CodeCacheSymbol?
    {
      if k == 0 then this else next.Nth(k - 1)
    }

    function Names(): seq<byte> {
      if NoSymbol? then [] else name + next.Names()
    }

    /** Names end in their only zero; addresses and sizes are machine words. */
    predicate WellFormed() {
      CodeCacheSymbol? ==>
        CString(name) && start < Power256(8) && size < Power256(4) && next.WellFormed()
    }

    /** What a reader should find: undefined symbols have no address, the others one relative to `base`. */
    function Listed(base: nat): seq<Symbol> {
      if NoSymbol? then []
      else [Symbol(name[..if |name| > 0 then |name| - 1 else 0], 18, 0, if start != 0 then 1 else 0,
                   if start != 0 then (start - base) % Power256(8) else 0, size)] + next.Listed(base)
    }

    /** The table entries written for the chain. */
    function Rows(nameOffset: nat, base: nat): seq<seq<nat>> {
      if NoSymbol? then []
      else [[nameOffset, 18, 0, if start != 0 then 1 else 0,
             if start != 0 then (start - base) % Power256(8) else 0, size]] + next.Rows(nameOffset + |name|, base)
    }
  }

  datatype RelocationChain = NoRelocation | CodeCacheRelocation(location: nat, typ: nat, symbol: nat, next: RelocationChain)
  {
    function Length(): nat {
      if NoRelocation? then 0 else 1 + next.Length()
    }

    function Nth(k: nat): (reloc: RelocationChain)
      requires k < Length()
      ensures reloc.CodeCacheRelocation?
    {
      if k == 0 then this else next.Nth(k - 1)
    }

    predicate WellFormed() {
      CodeCacheRelocation? ==>
        location < Power256(8) && typ < Power256(4) && symbol + 1 < Power256(4) && next.WellFormed()
    }

    /** Symbol numbers in the file are one higher than in the chain: number 0 is the undefined symbol. */
    function Listed(base: nat): seq<Relocation> {
      if NoRelocation? then []
      else [Relocation((location - base) % Power256(8), symbol + 1, typ, 0)] + next.Listed(base)
    }

    function Rows(base: nat): seq<seq<nat>> {
      if NoRelocation? then []
      else [[(location - base) % Power256(8), (symbol + 1) % Power256(4) * Power256(4) + typ, 0]] + next.Rows(base)
    }
  }

  /** What the k-th symbol of the chain is listed as. */
  lemma {:induction false} ListedAt(c: SymbolChain, k: nat, base: nat)
    requires c.WellFormed() && k < c.Length()
    ensures |c.Listed(base)| == c.Length()
    ensures var sym, listed := c.Nth(k), c.Listed(base)[k];
      && sym.name == listed.name + [0] && listed.size == sym.size && listed.info == 18 && listed.other == 0
      && (if sym.start == 0 then listed.shndx == 0 && listed.value == 0
          else listed.shndx == 1 && listed.value == (sym.start - base) % 0x1_0000_0000_0000_0000)
  {
    Powers();
    ListedLength(c, base);
    if k > 0 {
      ListedAt(c.next, k - 1, base);
    }
  }

  lemma {:induction false} ListedLength(c: SymbolChain, base: nat)
    ensures |c.Listed(base)| == c.Length()
  {
    if c.CodeCacheSymbol? {
      ListedLength(c.next, base);
    }
  }

  lemma {:induction false} RelocationListedAt(c: RelocationChain, k: nat, base: nat)
    requires k < c.Length()
    ensures |c.Listed(base)| == c.Length()
    ensures var reloc, listed := c.Nth(k), c.Listed(base)[k];
      && listed.offset == (reloc.location - base) % 0x1_0000_0000_0000_0000
      && listed.symbol == reloc.symbol + 1 && listed.typ == reloc.typ && listed.addend == 0
  {
    Powers();
    if k > 0 {
      RelocationListedAt(c.next, k - 1, base);
    } else {
      RelocationListedLength(c, base);
    }
  }

  lemma {:induction false} RelocationListedLength(c: RelocationChain, base: nat)
    ensures |c.Listed(base)| == c.Length()
  {
    if c.CodeCacheRelocation? {
      RelocationListedLength(c.next, base);
    }
  }

  const UNDEF: Symbol := Symbol([], 0, 0, 0, 0, 0)
  const UNDEF_ROW: seq<nat> := [0, 0, 0, 0, 0, 0]

  lemma {:induction false} RowShapes(c: SymbolChain, nameOffset: nat, base: nat)
    requires c.WellFormed() && nameOffset + |c.Names()| < Power256(4)
    ensures |c.Rows(nameOffset, base)| == c.Length()
    ensures forall i :: 0 <= i < c.Length() ==> |c.Rows(nameOffset, base)[i]| == |SYMBOL| && Fits(SYMBOL, c.Rows(nameOffset, base)[i])
  {
    Powers();
    if c.CodeCacheSymbol? {
      RowShapes(c.next, nameOffset + |c.name|, base);
    }
  }

  lemma {:induction false} RelocationRowShapes(c: RelocationChain, base: nat)
    requires c.WellFormed()
    ensures |c.Rows(base)| == c.Length()
    ensures forall i :: 0 <= i < c.Length() ==> |c.Rows(base)[i]| == |RELA| && Fits(RELA, c.Rows(base)[i])
  {
    Powers();
    if c.CodeCacheRelocation? {
      RelocationRowShapes(c.next, base);
    }
  }

  /** Names are read back through the string table they were copied to. */
  lemma {:induction false} SymbolsRead(c: SymbolChain, before: seq<byte>, base: nat)
    requires c.WellFormed() && |before| + |c.Names()| < Power256(4)
    ensures var rows := c.Rows(|before|, base);
      && (forall i :: 0 <= i < |rows| ==> |rows[i]| == |SYMBOL|)
      && SymbolsIn(rows, before + c.Names()) == c.Listed(base)
  {
    RowShapes(c, |before|, base);
    if c.CodeCacheSymbol? {
      var strings := before + c.Names();
      assert strings == before + c.name + c.next.Names() == (before + c.name) + c.next.Names();
      ReadStringAt(before, c.name, c.next.Names());
      SymbolsRead(c.next, before + c.name, base);
      var rest := c.next.Rows(|before + c.name|, base);
      SymbolsSplit(c.Rows(|before|, base)[..1], rest, strings);
      assert c.Rows(|before|, base) == c.Rows(|before|, base)[..1] + rest;
    }
  }

  lemma SymbolsSplit(first: seq<seq<nat>>, rest: seq<seq<nat>>, strings: seq<byte>)
    requires forall i :: 0 <= i < |first| ==> |first[i]| == |SYMBOL|
    requires forall i :: 0 <= i < |rest| ==> |rest[i]| == |SYMBOL|
    ensures forall i :: 0 <= i < |first + rest| ==> |(first + rest)[i]| == |SYMBOL|
    ensures SymbolsIn(first + rest, strings) == SymbolsIn(first, strings) + SymbolsIn(rest, strings)
  {
    hide ReadString;
  }

  lemma {:induction false} RelocationsRead(c: RelocationChain, base: nat, little: bool)
    requires c.WellFormed()
    ensures Size(RELA) > 0 && (forall i :: 0 <= i < |c.Rows(base)| ==> |c.Rows(base)[i]| == |RELA|)
    ensures var rows := UnpackAll(RELA, PackAll(RELA, c.Rows(base), little), little);
      RelocationsIn(rows) == c.Listed(base)
  {
    RelocationRowShapes(c, base);
    UnpackAllPackAll(RELA, c.Rows(base), little);
    RelocationRowsRead(c, base);
  }

  lemma {:induction false} RelocationRowsRead(c: RelocationChain, base: nat)
    requires c.WellFormed()
    ensures (forall i :: 0 <= i < |c.Rows(base)| ==> |c.Rows(base)[i]| == |RELA|)
    ensures RelocationsIn(c.Rows(base)) == c.Listed(base)
  {
    RelocationRowShapes(c, base);
    Powers();
    if c.CodeCacheRelocation? {
      RelocationRowsRead(c.next, base);
      var rows, rest := c.Rows(base), c.next.Rows(base);
      assert RelocationsIn(rows) == RelocationsIn(rows[..1]) + RelocationsIn(rest);
    }
  }

  // ----- section names

  const TEXT: seq<byte> := [46, 116, 101, 120, 116, 0]                          // .text
  const RELA_TEXT: seq<byte> := [46, 114, 101, 108, 97, 46, 116, 101, 120, 116, 0]  // .rela.text
  const SYMTAB: seq<byte> := [46, 115, 121, 109, 116, 97, 98, 0]                // .symtab
  const SHSTRTAB: seq<byte> := [46, 115, 104, 115, 116, 114, 116, 97, 98, 0]    // .shstrtab
  const DYNSTR: seq<byte> := [46, 100, 121, 110, 115, 116, 114, 0]              // .dynstr

  /** A zero-terminated string as bytes. */
  function Bytes(s: string): seq<int> {
    seq(|s|, i requires 0 <= i < |s| => s[i] as int) + [0]
  }

  lemma NamesSpelled()
    ensures TEXT == Bytes(".text") && RELA_TEXT == Bytes(".rela.text") && SYMTAB == Bytes(".symtab")
    ensures SHSTRTAB == Bytes(".shstrtab") && DYNSTR == Bytes(".dynstr")
  {
  }

  function SectionNames(relocatable: bool): seq<seq<byte>> {
    if relocatable then [[0], TEXT, RELA_TEXT, SYMTAB, SHSTRTAB, DYNSTR] else [[0], TEXT, SYMTAB, SHSTRTAB, DYNSTR]
  }

  function Flatten(names: seq<seq<byte>>): seq<byte> {
    if names == [] then [] else names[0] + Flatten(names[1..])
  }

  function OffsetOf(names: seq<seq<byte>>, i: nat): nat
    requires i <= |names|
  {
    if i == 0 then 0 else |names[0]| + OffsetOf(names[1..], i - 1)
  }

  lemma {:induction false} NamesRead(before: seq<byte>, names: seq<seq<byte>>, i: nat)
    requires i < |names| && forall k :: 0 <= k < |names| ==> CString(names[k])
    ensures |names[i]| > 0 && ReadString(before + Flatten(names), |before| + OffsetOf(names, i)) == names[i][..|names[i]| - 1]
    decreases i
  {
    if i == 0 {
      ReadStringAt(before, names[0], Flatten(names[1..]));
      assert before + Flatten(names) == before + names[0] + Flatten(names[1..]);
    } else {
      NamesRead(before + names[0], names[1..], i - 1);
      assert before + Flatten(names) == before + names[0] + Flatten(names[1..]);
    }
  }

  lemma NameOffsets(relocatable: bool)
    ensures var n := SectionNames(relocatable);
      && (forall k :: 0 <= k < |n| ==> CString(n[k]))
      && OffsetOf(n, 0) == 0 && OffsetOf(n, 1) == 1 && OffsetOf(n, 2) == 7
      && (relocatable ==> OffsetOf(n, 3) == 18 && OffsetOf(n, 4) == 26 && OffsetOf(n, 5) == 36 && |Flatten(n)| == 44)
      && (!relocatable ==> OffsetOf(n, 3) == 15 && OffsetOf(n, 4) == 25 && |Flatten(n)| == 33)
  {
    var n := SectionNames(relocatable);
    if relocatable {
      assert n[1..] == [TEXT, RELA_TEXT, SYMTAB, SHSTRTAB, DYNSTR] && n[1..][1..] == [RELA_TEXT, SYMTAB, SHSTRTAB, DYNSTR];
      FlattenFour(RELA_TEXT, SYMTAB, SHSTRTAB, DYNSTR);
    } else {
      assert n[1..] == [TEXT, SYMTAB, SHSTRTAB, DYNSTR];
      FlattenFour(TEXT, SYMTAB, SHSTRTAB, DYNSTR);
    }
  }

  lemma FlattenFour(a: seq<byte>, b: seq<byte>, c: seq<byte>, d: seq<byte>)
    ensures var n := [a, b, c, d];
      && |Flatten(n)| == |a| + |b| + |c| + |d|
      && OffsetOf(n, 0) == 0 && OffsetOf(n, 1) == |a| && OffsetOf(n, 2) == |a| + |b| && OffsetOf(n, 3) == |a| + |b| + |c|
  {
    var n := [a, b, c, d];
    assert n[1..] == [b, c, d] && [b, c, d][1..] == [c, d] && [c, d][1..] == [d];
    assert Flatten([d]) == d;
    assert Flatten([c, d]) == c + d;
    assert Flatten([b, c, d]) == b + (c + d);
    assert OffsetOf([b, c, d], 0) == OffsetOf([c, d], 0) == OffsetOf([d], 0) == 0;
    assert OffsetOf([b, c, d], 1) == |b| && OffsetOf([c, d], 1) == |c|;
    assert OffsetOf([b, c, d], 2) == |b| + |c|;
  }

  // ----- the layout of the file

  function CodeAt(relocatable: bool): nat {
    if relocatable then 64 else 64 + 56
  }

  function SectionCount(relocatable: bool): nat {
    if relocatable then 6 else 5
  }

  function NamesAt(relocatable: bool, codeSize: nat): nat {
    CodeAt(relocatable) + codeSize + 64 * SectionCount(relocatable)
  }

  function SymbolsAt(relocatable: bool, codeSize: nat): nat {
    NamesAt(relocatable, codeSize) + if relocatable then 44 else 33
  }

  function StringsAt(relocatable: bool, codeSize: nat, numSymbols: nat): nat {
    SymbolsAt(relocatable, codeSize) + 24 * (numSymbols + 1)
  }

  function FileSize(relocatable: bool, codeSize: nat, numSymbols: nat, total: nat, numRelocations: nat): nat {
    StringsAt(relocatable, codeSize, numSymbols) + total + if relocatable then 24 * numRelocations else 0
  }

  const ZERO_SECTION := SectionHeader(0, 0, 0, 0, 0, 0, 0, 0, 0, 0)

  function TextSection(addr: nat, offset: nat, size: nat): SectionHeader {
    SectionHeader(1, SHT_PROGBITS, 6, addr, offset, size, 0, 0, 32, 0)
  }

  function TableSection(name: nat, typ: nat, offset: nat, size: nat, link: nat, info: nat): SectionHeader {
    SectionHeader(name, typ, 0, 0, offset, size, link, info, 8, 24)
  }

  function StringSection(name: nat, offset: nat, size: nat): SectionHeader {
    SectionHeader(name, SHT_STRTAB, 0, 0, offset, size, 0, 0, 1, 0)
  }

  /** Every section where its bytes really are. */
  function Layout(relocatable: bool, codeStart: nat, codeSize: nat, numSymbols: nat, total: nat, numRelocations: nat):
    (headers: seq<SectionHeader>)
    ensures |headers| == SectionCount(relocatable)
  {
    var namesAt, symbolsAt := NamesAt(relocatable, codeSize), SymbolsAt(relocatable, codeSize);
    var stringsAt := StringsAt(relocatable, codeSize, numSymbols);
    if relocatable then
      [ZERO_SECTION, TextSection(0, 64, codeSize), TableSection(7, SHT_RELA, stringsAt + total, 24 * numRelocations, 3, 1),
       TableSection(18, SHT_SYMTAB, symbolsAt, 24 * (numSymbols + 1), 5, 1), StringSection(26, namesAt, 44),
       StringSection(36, stringsAt, total)]
    else
      [ZERO_SECTION, TextSection(codeStart, 120, codeSize),
       TableSection(7, SHT_SYMTAB, symbolsAt, 24 * (numSymbols + 1), 4, 1), StringSection(15, namesAt, 33),
       StringSection(25, stringsAt, total)]
  }

  /** What the section headers say of their sections, field by field: the type, the flags and the alignment, the
      table a section refers to, the first symbol that is not local, and the size of a record. */
  lemma LayoutDescribes(relocatable: bool, codeStart: nat, codeSize: nat, numSymbols: nat, total: nat, numRelocations: nat)
    ensures var h := Layout(relocatable, codeStart, codeSize, numSymbols, total, numRelocations);
      var symtab := if relocatable then 3 else 2;
      && h[0] == SectionHeader(0, 0, 0, 0, 0, 0, 0, 0, 0, 0)
      && h[1].typ == 1 && h[1].flags == 6 && h[1].addr == (if relocatable then 0 else codeStart) && h[1].addralign == 32
      && h[1].link == 0 && h[1].info == 0 && h[1].entsize == 0
      && h[symtab].typ == 2 && h[symtab].link == symtab + 2 && h[symtab].info == 1 && h[symtab].entsize == 24
      && h[symtab].flags == 0 && h[symtab].addr == 0 && h[symtab].addralign == 8 && h[symtab].size == 24 * (numSymbols + 1)
      && (forall k :: symtab < k < symtab + 3 ==>
            h[k].typ == 3 && h[k].flags == 0 && h[k].addr == 0 && h[k].link == 0 && h[k].info == 0 && h[k].addralign == 1 && h[k].entsize == 0)
      && (relocatable ==>
            && h[2].typ == 4 && h[2].link == symtab && h[2].info == 1 && h[2].entsize == 24 && h[2].size == 24 * numRelocations
            && h[2].flags == 0 && h[2].addr == 0 && h[2].addralign == 8)
  {
    var h := Layout(relocatable, codeStart, codeSize, numSymbols, total, numRelocations);
    var symtab := if relocatable then 3 else 2;
    forall k | symtab < k < symtab + 3
      ensures h[k].typ == 3 && h[k].flags == 0 && h[k].addr == 0 && h[k].link == 0 && h[k].info == 0 && h[k].addralign == 1 && h[k].entsize == 0
    {
      assert k == symtab + 1 || k == symtab + 2;
    }
  }

  function RowsOf(headers: seq<SectionHeader>): (rows: seq<seq<nat>>)
    ensures |rows| == |headers| && forall i :: 0 <= i < |rows| ==> rows[i] == headers[i].Row()
  {
    seq(|headers|, i requires 0 <= i < |headers| => headers[i].Row())
  }

  function Ident(little: bool): (s: seq<byte>)
    ensures |s| == 16
  {
    MAGIC + [2, if little then 1 else 2, 1, 3, 0, 0, 0, 0, 0, 0, 0, 0]
  }

  /** The identification: magic number, 64 bits, byte order, version 1, the Linux ABI, version 0 of it, and padding. */
  lemma IdentDescribes(little: bool)
    ensures Ident(little)[..4] == [0x7f, 'E' as int, 'L' as int, 'F' as int] && Ident(little)[4] == 2
    ensures Ident(little)[5] == (if little then 1 else 2) && Ident(little)[6] == 1 && Ident(little)[7] == 3
    ensures forall k :: 8 <= k < 16 ==> Ident(little)[k] == 0
  {
  }

  function HeaderRow(relocatable: bool, machine: nat, codeStart: nat, codeSize: nat): (row: seq<nat>)
    ensures |row| == |HEADER|
  {
    if relocatable then [1, machine, 1, 0, 0, 64 + codeSize, 0, 64, 0, 0, 64, 6, 4]
    else [2, machine, 1, codeStart, 64, 120 + codeSize, 0, 64, 56, 1, 64, 5, 3]
  }

  function ProgramRow(codeStart: nat, codeSize: nat): (row: seq<nat>)
    ensures |row| == |PROGRAM|
  {
    [1, 5, 64, codeStart, codeStart, codeSize, codeSize, 0x1000]
  }

  // ----- reading it back

  /** The block is in the file at that offset. */
  ghost predicate At(file: seq<byte>, off: nat, block: seq<byte>) {
    off + |block| <= |file| && file[off..off + |block|] == block
  }

  lemma AtSplit(file: seq<byte>, off: nat, a: seq<byte>, b: seq<byte>)
    requires At(file, off, a + b)
    ensures At(file, off, a) && At(file, off + |a|, b)
  {
    var s := file[off..off + |a + b|];
    assert file[off..off + |a|] == s[..|a|] == a;
    assert file[off + |a|..off + |a| + |b|] == s[|a|..] == b;
  }

  lemma HeaderRead(file: seq<byte>, row: seq<nat>, little: bool)
    requires |row| == |HEADER| && Fits(HEADER, row) && At(file, 0, Ident(little) + Pack(HEADER, row, little))
    ensures ParseHeader(file) == Some(HeaderOf(row, little))
  {
    hide Pack, Unpack, Size, Fits;
    var rest := Pack(HEADER, row, little);
    AtSplit(file, 0, Ident(little), rest);
    UnpackPack(HEADER, row, little);
    assert file[16..16 + Size(HEADER)] == rest;
    IdentRead(file, little);
  }

  lemma IdentRead(file: seq<byte>, little: bool)
    requires At(file, 0, Ident(little))
    ensures |file| >= 16 && file[..4] == MAGIC && file[4] == 2 && file[5] == if little then 1 else 2
  {
    var s := file[0..16];
    assert file[..4] == s[..4] == MAGIC;
    assert file[4] == s[4] && file[5] == s[5];
  }

  lemma SectionRowsRead(file: seq<byte>, off: nat, headers: seq<SectionHeader>, little: bool)
    requires forall i :: 0 <= i < |headers| ==> Fits(SECTION, headers[i].Row())
    requires At(file, off, PackAll(SECTION, RowsOf(headers), little))
    ensures off + 64 * |headers| <= |file|
    ensures UnpackAll(SECTION, file[off..off + 64 * |headers|], little) == RowsOf(headers)
  {
    hide Size, Fits, PackAll, UnpackAll, RowsOf;
    RecordSizes();
    UnpackAllPackAll(SECTION, RowsOf(headers), little);
  }

  /** What a file is made from. */
  datatype Input = Input(relocatable: bool, little: bool, machine: nat, codeStart: nat, code: seq<byte>,
    symbols: SymbolChain, relocations: RelocationChain)
  {
    predicate WellFormed() {
      && machine < 0x1_0000 && codeStart < Power256(8) && symbols.WellFormed() && relocations.WellFormed()
      && FileSize(relocatable, |code|, symbols.Length(), 1 + |symbols.Names()|, relocations.Length()) < Power256(4)
    }

    /** Addresses in a relocatable file are relative to the code segment. */
    function Base(): nat {
      if relocatable then codeStart else 0
    }

    function Headers(): seq<SectionHeader> {
      Layout(relocatable, codeStart, |code|, symbols.Length(), 1 + |symbols.Names()|, relocations.Length())
    }

    function SymbolRows(): seq<seq<nat>> {
      [UNDEF_ROW] + symbols.Rows(1, Base())
    }

    /** The section bytes after the section header table. */
    function Trailer(): seq<byte>
      requires WellFormed()
    {
      RowShapes(symbols, 1, Base());
      RelocationRowShapes(relocations, codeStart);
      Flatten(SectionNames(relocatable)) +
      (PackAll(SYMBOL, SymbolRows(), little) +
       (([0] + symbols.Names()) + if relocatable then PackAll(RELA, relocations.Rows(codeStart), little) else []))
    }

    function Program(): (s: seq<byte>)
      ensures |s| == if relocatable then 0 else Size(PROGRAM)
    {
      if relocatable then [] else Pack(PROGRAM, ProgramRow(codeStart, |code|), little)
    }

    function FileHeaderBytes(): (s: seq<byte>)
      ensures |s| == 16 + Size(HEADER)
    {
      Ident(little) + Pack(HEADER, HeaderRow(relocatable, machine, codeStart, |code|), little)
    }

    function SectionTable(): (s: seq<byte>)
      ensures |s| == Size(SECTION) * SectionCount(relocatable)
    {
      PackAll(SECTION, RowsOf(Headers()), little)
    }

    /** The whole file. */
    function Image(): seq<byte>
      requires WellFormed()
    {
      FileHeaderBytes() + (Program() + (code + (SectionTable() + Trailer())))
    }
  }

  /** The names a reader should find. */
  function Stripped(names: seq<seq<byte>>): seq<seq<byte>>
    requires forall i :: 0 <= i < |names| ==> |names[i]| > 0
  {
    seq(|names|, i requires 0 <= i < |names| => names[i][..|names[i]| - 1])
  }

  /** Code, section names, symbols and relocations are all there, in order. */
  ghost predicate Recovers(c: Contents, x: Input) {
    && (forall k :: 0 <= k < |SectionNames(x.relocatable)| ==> |SectionNames(x.relocatable)[k]| > 0)
    && |c.sections| == SectionCount(x.relocatable)
    && (forall k :: 0 <= k < |c.sections| ==> c.sections[k].name == Stripped(SectionNames(x.relocatable))[k])
    && FindNamed(c.sections, TEXT[..5]) == x.code
    && Symbols(c) == [UNDEF] + x.symbols.Listed(x.Base())
    && Relocations(c) == (if x.relocatable then x.relocations.Listed(x.codeStart) else [])
    && c.typ == (if x.relocatable then 1 else 2) && c.entry == (if x.relocatable then 0 else x.codeStart)
  }

  lemma HeadersFit(x: Input)
    requires x.WellFormed()
    ensures Fits(HEADER, HeaderRow(x.relocatable, x.machine, x.codeStart, |x.code|))
    ensures forall i :: 0 <= i < |x.Headers()| ==> |x.Headers()[i].Row()| == |SECTION| && Fits(SECTION, x.Headers()[i].Row())
  {
    Powers();
    hide Power256, SymbolChain.WellFormed, RelocationChain.WellFormed, SymbolChain.Names, SymbolChain.Length, RelocationChain.Length;
  }

  lemma TableSizes(x: Input)
    requires x.WellFormed()
    ensures |Flatten(SectionNames(x.relocatable))| == if x.relocatable then 44 else 33
    ensures |x.SymbolRows()| == x.symbols.Length() + 1
    ensures forall i :: 0 <= i < |x.SymbolRows()| ==> |x.SymbolRows()[i]| == |SYMBOL| && Fits(SYMBOL, x.SymbolRows()[i])
    ensures |PackAll(SYMBOL, x.SymbolRows(), x.little)| == 24 * (x.symbols.Length() + 1)
    ensures forall i :: 0 <= i < |x.relocations.Rows(x.codeStart)| ==> |x.relocations.Rows(x.codeStart)[i]| == |RELA|
    ensures |PackAll(RELA, x.relocations.Rows(x.codeStart), x.little)| == 24 * x.relocations.Length()
  {
    hide PackAll, Size, Flatten, SectionNames, OffsetOf, CString, Power256;
    NameOffsets(x.relocatable);
    RecordSizes();
    RowShapes(x.symbols, 1, x.Base());
    UndefFits();
    RelocationRowShapes(x.relocations, x.codeStart);
    hide Fits, Flatten;
    var rows := x.SymbolRows();
    assert forall i :: 1 <= i < |rows| ==> rows[i] == x.symbols.Rows(1, x.Base())[i - 1];
  }

  lemma UndefFits()
    ensures |UNDEF_ROW| == |SYMBOL| && Fits(SYMBOL, UNDEF_ROW)
  {
    Powers();
  }

  lemma TrailerParts(x: Input, file: seq<byte>)
    requires x.WellFormed() && At(file, NamesAt(x.relocatable, |x.code|), x.Trailer())
    ensures At(file, NamesAt(x.relocatable, |x.code|), Flatten(SectionNames(x.relocatable)))
    ensures forall i :: 0 <= i < |x.SymbolRows()| ==> |x.SymbolRows()[i]| == |SYMBOL|
    ensures At(file, SymbolsAt(x.relocatable, |x.code|), PackAll(SYMBOL, x.SymbolRows(), x.little))
    ensures At(file, StringsAt(x.relocatable, |x.code|, x.symbols.Length()), [0] + x.symbols.Names())
    ensures forall i :: 0 <= i < |x.relocations.Rows(x.codeStart)| ==> |x.relocations.Rows(x.codeStart)[i]| == |RELA|
    ensures x.relocatable ==>
      At(file, StringsAt(x.relocatable, |x.code|, x.symbols.Length()) + 1 + |x.symbols.Names()|,
         PackAll(RELA, x.relocations.Rows(x.codeStart), x.little))
  {
    hide PackAll, Size, Flatten, SectionNames, OffsetOf, Fits, At, Power256, CString, Input.WellFormed, Input.Headers;
    hide SymbolChain.Names, SymbolChain.Rows, RelocationChain.Rows;
    TableSizes(x);
    var names, strings := Flatten(SectionNames(x.relocatable)), [0] + x.symbols.Names();
    var symtab, relas := PackAll(SYMBOL, x.SymbolRows(), x.little),
      if x.relocatable then PackAll(RELA, x.relocations.Rows(x.codeStart), x.little) else [];
    assert x.Trailer() == names + (symtab + (strings + relas));
    hide PackAll, Size, Flatten, SectionNames, OffsetOf, Fits, At;
    AtSplit(file, NamesAt(x.relocatable, |x.code|), names, symtab + (strings + relas));
    AtSplit(file, SymbolsAt(x.relocatable, |x.code|), symtab, strings + relas);
    AtSplit(file, StringsAt(x.relocatable, |x.code|, x.symbols.Length()), strings, relas);
  }

  lemma ImageParts(x: Input)
    requires x.WellFormed()
    ensures At(x.Image(), 0, x.FileHeaderBytes())
    ensures At(x.Image(), CodeAt(x.relocatable), x.code)
    ensures At(x.Image(), CodeAt(x.relocatable) + |x.code|, x.SectionTable())
    ensures At(x.Image(), NamesAt(x.relocatable, |x.code|), x.Trailer())
  {
    hide PackAll, Pack, Size, At, Layout, Input.Trailer, Input.SectionTable, Input.FileHeaderBytes, Input.Program;
    RecordSizes();
    var file, trailer := x.Image(), x.Trailer();
    var header, program, table := x.FileHeaderBytes(), x.Program(), x.SectionTable();
    Whole(file);
    AtSplit(file, 0, header, program + (x.code + (table + trailer)));
    AtSplit(file, 64, program, x.code + (table + trailer));
    AtSplit(file, CodeAt(x.relocatable), x.code, table + trailer);
    AtSplit(file, CodeAt(x.relocatable) + |x.code|, table, trailer);
  }

  lemma Whole(file: seq<byte>)
    ensures At(file, 0, file)
  {
  }

  /** The bytes of one section. */
  lemma BodyAt(file: seq<byte>, h: SectionHeader, block: seq<byte>)
    requires At(file, h.offset, block) && h.typ != 0 && h.size == |block|
    ensures Body(file, h) == block
  {
  }

  lemma NullBody(file: seq<byte>)
    ensures Body(file, ZERO_SECTION) == []
  {
  }

  /** What each section holds. */
  function Bodies(x: Input): (b: seq<seq<byte>>)
    requires x.WellFormed()
    ensures |b| == SectionCount(x.relocatable)
    ensures b[if x.relocatable then 4 else 3] == Flatten(SectionNames(x.relocatable))
  {
    RowShapes(x.symbols, 1, x.Base());
    RelocationRowShapes(x.relocations, x.codeStart);
    var symtab, strings := PackAll(SYMBOL, x.SymbolRows(), x.little), [0] + x.symbols.Names();
    var names := Flatten(SectionNames(x.relocatable));
    if x.relocatable then [[], x.code, PackAll(RELA, x.relocations.Rows(x.codeStart), x.little), symtab, names, strings]
    else [[], x.code, symtab, names, strings]
  }

  lemma BodiesFound(x: Input)
    requires x.WellFormed()
    ensures |x.Headers()| == |Bodies(x)|
    ensures forall i :: 0 <= i < |x.Headers()| ==> Body(x.Image(), x.Headers()[i]) == Bodies(x)[i]
  {
    hide At, PackAll, Pack, Flatten, Size, SectionNames, Power256, Fits, Input.Image, Input.Trailer, Input.SectionTable,
      Input.FileHeaderBytes, Input.SymbolRows, Body;
    var file := x.Image();
    ImageParts(x);
    TrailerParts(x, file);
    TableSizes(x);
    var h, b := x.Headers(), Bodies(x);
    NullBody(file);
    hide Input.WellFormed;
    BodyAt(file, h[1], b[1]);
    BodyAt(file, h[2], b[2]);
    BodyAt(file, h[3], b[3]);
    BodyAt(file, h[4], b[4]);
    if x.relocatable {
      BodyAt(file, h[5], b[5]);
    }
  }

  function SectionsMade(x: Input): (sections: seq<Section>)
    requires x.WellFormed()
    ensures |sections| == SectionCount(x.relocatable)
    ensures forall i :: 0 <= i < |sections| ==> sections[i].header == x.Headers()[i] && sections[i].bytes == Bodies(x)[i]
  {
    NameOffsets(x.relocatable);
    var names := SectionNames(x.relocatable);
    seq(SectionCount(x.relocatable), i requires 0 <= i < SectionCount(x.relocatable) =>
      Section(names[i][..|names[i]| - 1], x.Headers()[i], Bodies(x)[i]))
  }

  lemma NamesFound(x: Input, i: nat)
    requires x.WellFormed() && i < SectionCount(x.relocatable)
    ensures ReadString(Flatten(SectionNames(x.relocatable)), x.Headers()[i].name) ==
      SectionNames(x.relocatable)[i][..|SectionNames(x.relocatable)[i]| - 1]
  {
    var names := SectionNames(x.relocatable);
    NameOffsets(x.relocatable);
    hide Flatten, ReadString, CString, OffsetOf;
    NamesRead([], names, i);
    assert [] + Flatten(names) == Flatten(names);
  }

  /** The header announces the section header table where it is. */
  lemma HeaderFound(x: Input)
    requires x.WellFormed()
    ensures ParseHeader(x.Image()) == Some(
      FileHeader(x.little, if x.relocatable then 1 else 2, if x.relocatable then 0 else x.codeStart,
        CodeAt(x.relocatable) + |x.code|, 64, SectionCount(x.relocatable), if x.relocatable then 4 else 3))
  {
    hide At, Pack, Size, Fits, Power256, ParseHeader, Input.WellFormed, Input.Image, Input.Trailer, Input.SectionTable;
    ImageParts(x);
    HeadersFit(x);
    HeaderRead(x.Image(), HeaderRow(x.relocatable, x.machine, x.codeStart, |x.code|), x.little);
  }

  lemma TableFound(x: Input)
    requires x.WellFormed()
    ensures CodeAt(x.relocatable) + |x.code| + 64 * SectionCount(x.relocatable) <= |x.Image()|
    ensures UnpackAll(SECTION,
      x.Image()[CodeAt(x.relocatable) + |x.code|..CodeAt(x.relocatable) + |x.code| + 64 * SectionCount(x.relocatable)], x.little)
      == RowsOf(x.Headers())
  {
    hide At, Pack, PackAll, UnpackAll, Size, Fits, Power256, RowsOf, Input.WellFormed, Input.Image, Input.Trailer, Input.FileHeaderBytes;
    ImageParts(x);
    HeadersFit(x);
    SectionRowsRead(x.Image(), CodeAt(x.relocatable) + |x.code|, x.Headers(), x.little);
  }

  lemma SectionsFound(x: Input)
    requires x.WellFormed()
    ensures forall i :: 0 <= i < |x.Headers()| ==> |RowsOf(x.Headers())[i]| == |SECTION|
    ensures SectionsOf(x.Image(), RowsOf(x.Headers()), Flatten(SectionNames(x.relocatable))) == SectionsMade(x)
  {
    hide Flatten, ReadString, Body, Bodies, CString, OffsetOf, Power256, Layout, RowsOf, Input.WellFormed, Input.Image;
    BodiesFound(x);
    RowsBack(x.Headers());
    var names := Flatten(SectionNames(x.relocatable));
    forall i | 0 <= i < SectionCount(x.relocatable)
      ensures ReadString(names, x.Headers()[i].name) == SectionNames(x.relocatable)[i][..|SectionNames(x.relocatable)[i]| - 1]
    {
      NamesFound(x, i);
    }
    assert SectionsOf(x.Image(), RowsOf(x.Headers()), names) == SectionsMade(x);
  }

  lemma NamesSection(x: Input)
    requires x.WellFormed()
    ensures var k := if x.relocatable then 4 else 3;
      |RowsOf(x.Headers())[k]| == |SECTION| &&
      Body(x.Image(), SectionOf(RowsOf(x.Headers())[k])) == Flatten(SectionNames(x.relocatable))
  {
    hide Body, Bodies, Flatten, SectionNames, RowsOf, Layout, Input.WellFormed, Input.Image;
    BodiesFound(x);
    RowsBack(x.Headers());
  }

  lemma ImageParses(x: Input)
    requires x.WellFormed()
    ensures Parse(x.Image()) == Some(Contents(x.little, if x.relocatable then 1 else 2,
      if x.relocatable then 0 else x.codeStart, SectionsMade(x)))
  {
    hide UnpackAll, Flatten, Body, ParseHeader, SectionsOf, SectionsMade, SectionNames, RowsOf, SectionOf, Layout, Size;
    hide Input.WellFormed, Input.Image;
    HeaderFound(x);
    TableFound(x);
    SectionsFound(x);
    NamesSection(x);
  }

  lemma RowsBack(headers: seq<SectionHeader>)
    ensures forall i :: 0 <= i < |headers| ==> |RowsOf(headers)[i]| == |SECTION| && SectionOf(RowsOf(headers)[i]) == headers[i]
  {
  }

  lemma FindTypedAt(sections: seq<Section>, typ: nat, k: nat)
    requires k < |sections| && sections[k].header.typ == typ
    requires forall i :: 0 <= i < k ==> sections[i].header.typ != typ
    ensures FindTyped(sections, typ) == Some(sections[k])
    decreases k
  {
    if k > 0 {
      FindTypedAt(sections[1..], typ, k - 1);
    }
  }

  lemma FindTypedNone(sections: seq<Section>, typ: nat)
    requires forall i :: 0 <= i < |sections| ==> sections[i].header.typ != typ
    ensures FindTyped(sections, typ) == None
    decreases |sections|
  {
    if sections != [] {
      FindTypedNone(sections[1..], typ);
    }
  }

  lemma SymbolsRecovered(x: Input, c: Contents)
    requires x.WellFormed() && c.sections == SectionsMade(x) && c.little == x.little
    ensures Symbols(c) == [UNDEF] + x.symbols.Listed(x.Base())
  {
    hide Size, Flatten, ReadString, Fits, FindTyped, PackAll, UnpackAll, SectionsMade, Power256, OffsetOf;
    var k := if x.relocatable then 3 else 2;
    FindTypedAt(c.sections, SHT_SYMTAB, k);
    TableSizes(x);
    RecordSizes();
    UnpackAllPackAll(SYMBOL, x.SymbolRows(), x.little);
    hide SymbolsIn, Input.SymbolRows, Input.WellFormed;
    RowsRecovered(x);
  }

  lemma RowsRecovered(x: Input)
    requires x.WellFormed()
    ensures forall i :: 0 <= i < |x.SymbolRows()| ==> |x.SymbolRows()[i]| == |SYMBOL|
    ensures SymbolsIn(x.SymbolRows(), [0] + x.symbols.Names()) == [UNDEF] + x.symbols.Listed(x.Base())
  {
    var rest, strings := x.symbols.Rows(1, x.Base()), [0] + x.symbols.Names();
    SymbolsRead(x.symbols, [0], x.Base());
    ZeroString(x.symbols.Names());
    hide ReadString, Input.WellFormed, SymbolChain.Rows, SymbolChain.Listed, SymbolChain.Names;
    assert SymbolsIn([UNDEF_ROW], strings) == [UNDEF];
    hide SymbolsIn;
    SymbolsSplit([UNDEF_ROW], rest, strings);
  }

  lemma ZeroString(rest: seq<byte>)
    ensures ReadString([0] + rest, 0) == []
  {
  }

  lemma RelocationsRecovered(x: Input, c: Contents)
    requires x.WellFormed() && c.sections == SectionsMade(x) && c.little == x.little
    ensures Relocations(c) == if x.relocatable then x.relocations.Listed(x.codeStart) else []
  {
    hide Size, Flatten, Fits, FindTyped, PackAll, UnpackAll, SectionsMade, Power256, OffsetOf;
    if x.relocatable {
      FindTypedAt(c.sections, SHT_RELA, 2);
      RelocationsRead(x.relocations, x.codeStart, x.little);
    } else {
      FindTypedNone(c.sections, SHT_RELA);
    }
  }

  lemma NamesRecovered(x: Input, c: Contents)
    requires x.WellFormed() && c.sections == SectionsMade(x)
    ensures forall k :: 0 <= k < |SectionNames(x.relocatable)| ==> |SectionNames(x.relocatable)[k]| > 0
    ensures forall k :: 0 <= k < |c.sections| ==> c.sections[k].name == Stripped(SectionNames(x.relocatable))[k]
    ensures FindNamed(c.sections, TEXT[..5]) == x.code
  {
    hide Flatten, OffsetOf, CString, Power256, PackAll;
    NameOffsets(x.relocatable);
    assert c.sections[0].name == [];
    assert c.sections[1].name == TEXT[..5] && c.sections[1..][0] == c.sections[1];
  }

  /** Reading the file back by the rules of the format recovers everything that was put in. */
  lemma ImageRecovers(x: Input)
    requires x.WellFormed()
    ensures Parse(x.Image()).Some? && Recovers(Parse(x.Image()).value, x)
  {
    hide Parse, Input.Image, Input.WellFormed, Symbols, Relocations, SectionsMade, SectionNames, FindNamed;
    ImageParses(x);
    var c := Parse(x.Image()).value;
    SymbolsRecovered(x, c);
    RelocationsRecovered(x, c);
    NamesRecovered(x, c);
  }
}
