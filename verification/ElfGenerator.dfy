/** The generator itself: headers filled in by one method, bytes written by others, strictly in sequence. */
module ElfGenerator {
  import opened Options
  import opened ElfFormat
  import opened ElfWriter

  /** Offsets and sizes are computed in 32 bits. */
  function Wrap32(v: int): (w: nat)
    ensures w < 0x1_0000_0000 && (0 <= v < 0x1_0000_0000 ==> w == v)
  {
    v % 0x1_0000_0000
  }

  ghost predicate Shaped(rows: seq<seq<nat>>, widths: seq<nat>) {
    forall i :: 0 <= i < |rows| ==> |rows[i]| == |widths|
  }

  /** The entry of one symbol. */
  function SymbolRow(sym: SymbolChain, position: nat, base: nat): (row: seq<nat>)
    requires sym.CodeCacheSymbol?
    ensures |row| == |SYMBOL|
  {
    [position, 18, 0, if sym.start != 0 then 1 else 0,
     if sym.start != 0 then (sym.start - base) % 0x1_0000_0000_0000_0000 else 0, sym.size]
  }

  ghost function Entries(rows: seq<seq<nat>>, widths: seq<nat>, little: bool): seq<byte> {
    if Shaped(rows, widths) then PackAll(widths, rows, little) else []
  }

  /** The entry of the first symbol, then those of the rest of the chain. */
  lemma SymbolStep(sym: SymbolChain, position: nat, base: nat, little: bool)
    requires sym.CodeCacheSymbol? && Shaped(sym.Rows(position, base), SYMBOL)
    ensures Shaped(sym.next.Rows(position + |sym.name|, base), SYMBOL)
    ensures Entries(sym.Rows(position, base), SYMBOL, little) ==
      Pack(SYMBOL, SymbolRow(sym, position, base), little) + Entries(sym.next.Rows(position + |sym.name|, base), SYMBOL, little)
  {
    Powers();
    hide Pack, Size, Power256;
    var rows, rest := sym.Rows(position, base), sym.next.Rows(position + |sym.name|, base);
    assert rows[1..] == rest;
    assert forall i :: 0 <= i < |rest| ==> rest[i] == rows[i + 1];
  }

  lemma RelocationStep(reloc: RelocationChain, base: nat, little: bool)
    requires reloc.CodeCacheRelocation? && Shaped(reloc.Rows(base), RELA)
    ensures Shaped(reloc.next.Rows(base), RELA)
    ensures var row := [(reloc.location - base) % 0x1_0000_0000_0000_0000,
                        Wrap32(reloc.symbol + 1) * 0x1_0000_0000 + reloc.typ, 0];
      PackAll(RELA, reloc.Rows(base), little) == Pack(RELA, row, little) + PackAll(RELA, reloc.next.Rows(base), little)
  {
    Powers();
    hide Pack, Size, Power256;
    var rows, rest := reloc.Rows(base), reloc.next.Rows(base);
    assert rows[1..] == rest;
    assert forall i :: 0 <= i < |rest| ==> rest[i] == rows[i + 1];
  }

  lemma Regroup(a: seq<byte>, b: seq<byte>, c: seq<byte>)
    ensures (a + b) + c == a + (b + c)
  {
  }

  method CopyName(names: array<byte>, position: nat, name: seq<byte>)
    requires position + |name| <= names.Length
    modifies names
    ensures names[..position + |name|] == old(names[..position]) + name
  {
    forall i | 0 <= i < |name| {
      names[position + i] := name[i];
    }
  }

  /** With the entries still to come, the table is complete. */
  ghost predicate SymbolsLeft(file: seq<byte>, sym: SymbolChain, position: nat, base: nat, little: bool, whole: seq<byte>) {
    Shaped(sym.Rows(position, base), SYMBOL) && file + Entries(sym.Rows(position, base), SYMBOL, little) == whole
  }

  lemma SymbolsNext(file: seq<byte>, sym: SymbolChain, position: nat, base: nat, little: bool, whole: seq<byte>)
    requires sym.CodeCacheSymbol? && SymbolsLeft(file, sym, position, base, little, whole)
    ensures SymbolsLeft(file + Pack(SYMBOL, SymbolRow(sym, position, base), little), sym.next, position + |sym.name|, base, little, whole)
  {
    SymbolStep(sym, position, base, little);
    hide Pack, Entries, Shaped, SymbolRow, SymbolChain.Rows;
    Regroup(file, Pack(SYMBOL, SymbolRow(sym, position, base), little),
      Entries(sym.next.Rows(position + |sym.name|, base), SYMBOL, little));
  }

  lemma NoSymbolsLeft(file: seq<byte>, position: nat, base: nat, little: bool, whole: seq<byte>)
    requires SymbolsLeft(file, NoSymbol, position, base, little, whole)
    ensures file == whole
  {
    EmptyRows(position, base, little);
  }

  /** After the undefined symbol, the entries of the chain are to come. */
  lemma SymbolsToWrite(x: Input, file: seq<byte>)
    requires x.WellFormed()
    ensures forall i :: 0 <= i < |x.SymbolRows()| ==> |x.SymbolRows()[i]| == |SYMBOL|
    ensures SymbolsLeft(file + Pack(SYMBOL, UNDEF_ROW, x.little), x.symbols, 1, x.Base(), x.little,
      file + PackAll(SYMBOL, x.SymbolRows(), x.little))
  {
    hide Input.WellFormed;
    TableSizes(x);
    var rest := x.symbols.Rows(1, x.Base());
    assert Shaped([UNDEF_ROW] + rest, SYMBOL);
    UndefStep(rest, x.little);
    Regroup(file, Pack(SYMBOL, UNDEF_ROW, x.little), Entries(rest, SYMBOL, x.little));
  }

  /** With the names still to come, the string table is complete and as long as announced. */
  ghost predicate NamesLeft(written: seq<byte>, sym: SymbolChain, symbols: SymbolChain, length: nat) {
    written + sym.Names() == [0] + symbols.Names() && |written| + |sym.Names()| == length
  }

  lemma FirstNames(symbols: SymbolChain)
    ensures NamesLeft([0], symbols, symbols, 1 + |symbols.Names()|)
  {
  }

  lemma NamesNextSymbol(written: seq<byte>, sym: SymbolChain, symbols: SymbolChain, length: nat)
    requires sym.CodeCacheSymbol? && NamesLeft(written, sym, symbols, length)
    ensures NamesLeft(written + sym.name, sym.next, symbols, length) && |written| + |sym.name| <= length
  {
    Regroup(written, sym.name, sym.next.Names());
  }

  lemma NoNamesLeft(written: seq<byte>, symbols: SymbolChain, length: nat)
    requires NamesLeft(written, NoSymbol, symbols, length)
    ensures written == [0] + symbols.Names() && |written| == length
  {
    assert written + [] == written;
  }

  lemma UndefStep(rest: seq<seq<nat>>, little: bool)
    requires Shaped([UNDEF_ROW] + rest, SYMBOL)
    ensures Shaped(rest, SYMBOL)
    ensures Entries([UNDEF_ROW] + rest, SYMBOL, little) == Pack(SYMBOL, UNDEF_ROW, little) + Entries(rest, SYMBOL, little)
  {
    hide Pack, Size;
    assert ([UNDEF_ROW] + rest)[1..] == rest;
    assert forall i :: 0 <= i < |rest| ==> rest[i] == ([UNDEF_ROW] + rest)[i + 1];
  }

  lemma EmptyRows(position: nat, base: nat, little: bool)
    ensures NoSymbol.Rows(position, base) == [] && Entries([], SYMBOL, little) == []
  {
  }

  lemma EmptyRelocations(base: nat, little: bool)
    ensures NoRelocation.Rows(base) == [] && PackAll(RELA, [], little) == []
  {
  }

  /** What is left to write of a table or of the names, from entry `k` on. */
  ghost function HeadersFrom(headers: seq<SectionHeader>, k: nat, little: bool): seq<byte>
    requires k <= |headers|
  {
    PackAll(SECTION, RowsOf(headers[k..]), little)
  }

  ghost function NamesFrom(names: seq<seq<byte>>, k: nat): seq<byte>
    requires k <= |names|
  {
    Flatten(names[k..])
  }

  lemma HeadersEnds(headers: seq<SectionHeader>, little: bool)
    ensures HeadersFrom(headers, 0, little) == PackAll(SECTION, RowsOf(headers), little)
    ensures HeadersFrom(headers, |headers|, little) == []
  {
    hide Size;
    assert headers[0..] == headers;
  }

  lemma HeadersNext(headers: seq<SectionHeader>, k: nat, little: bool)
    requires k < |headers|
    ensures HeadersFrom(headers, k, little) == Pack(SECTION, headers[k].Row(), little) + HeadersFrom(headers, k + 1, little)
  {
    hide Pack, Size;
    assert RowsOf(headers[k..])[1..] == RowsOf(headers[k + 1..]);
  }

  lemma NamesEnds(names: seq<seq<byte>>)
    ensures NamesFrom(names, 0) == Flatten(names) && NamesFrom(names, |names|) == []
  {
    assert names[0..] == names;
  }

  lemma NamesNext(names: seq<seq<byte>>, k: nat)
    requires k < |names|
    ensures NamesFrom(names, k) == names[k] + NamesFrom(names, k + 1)
  {
    assert names[k..][1..] == names[k + 1..];
  }

  ghost function RelaBytes(x: Input): seq<byte> {
    if x.relocatable && Shaped(x.relocations.Rows(x.codeStart), RELA)
    then PackAll(RELA, x.relocations.Rows(x.codeStart), x.little) else []
  }

  lemma TrailerPieces(x: Input)
    requires x.WellFormed()
    ensures forall i :: 0 <= i < |x.SymbolRows()| ==> |x.SymbolRows()[i]| == |SYMBOL|
    ensures x.Trailer() == Flatten(SectionNames(x.relocatable)) +
      (PackAll(SYMBOL, x.SymbolRows(), x.little) + ([0] + x.symbols.Names())) + RelaBytes(x)
  {
    hide Pack, PackAll, Size, Flatten, SectionNames, Input.SymbolRows;
    TableSizes(x);
    var names, symtab, strings := Flatten(SectionNames(x.relocatable)), PackAll(SYMBOL, x.SymbolRows(), x.little), [0] + x.symbols.Names();
    Regroup(names, symtab + strings, RelaBytes(x));
    Regroup(symtab, strings, RelaBytes(x));
  }

  lemma ImagePieces(x: Input)
    requires x.WellFormed()
    ensures x.Image() == x.FileHeaderBytes() + x.Program() + x.code + x.SectionTable() + x.Trailer()
  {
    hide Input.SectionTable, Input.FileHeaderBytes, Input.Program, Input.Trailer, Input.WellFormed;
    var table, trailer := x.SectionTable(), x.Trailer();
    Regroup(x.FileHeaderBytes() + x.Program() + x.code, table, trailer);
    Regroup(x.FileHeaderBytes() + x.Program(), x.code, table + trailer);
    Regroup(x.FileHeaderBytes(), x.Program(), x.code + (table + trailer));
  }

  lemma SizesFit(x: Input)
    requires x.WellFormed()
    ensures |x.code| < 0x1_0000_0000
    ensures FileSize(x.relocatable, |x.code|, x.symbols.Length(), 1 + |x.symbols.Names()|, x.relocations.Length()) < 0x1_0000_0000
  {
    Powers();
  }

  class ELFGenerator {
    const relocatable: bool
    const little: bool
    const machine: nat
    const codeStart: nat
    const code: seq<byte>
    const codeSize: nat
    var header: seq<nat>                   // the fields after the identification, in file order
    var programHeader: Option<seq<nat>>
    var zeroSection: SectionHeader
    var textSection: SectionHeader
    var relaSection: Option<SectionHeader>
    var dynSymSection: SectionHeader
    var shStrTabSection: SectionHeader
    var dynStrSection: SectionHeader
    var symbols: SymbolChain
    var numSymbols: nat
    var totalELFSymbolNamesLength: nat
    var relocations: RelocationChain
    var numRelocations: nat
    var file: seq<byte>

    /** What the headers set up at construction say. */
    ghost predicate Initialised()
      reads `header, `programHeader
    {
      && codeSize == Wrap32(|code|)
      && header == HeaderRow(relocatable, machine, codeStart, codeSize)
      && programHeader == if relocatable then None else Some(ProgramRow(codeStart, codeSize))
    }

    constructor (relocatable: bool, little: bool, machine: nat, codeStart: nat, code: seq<byte>)
      ensures Initialised() && relocations == NoRelocation
      ensures this.relocatable == relocatable && this.little == little && this.machine == machine
      ensures this.codeStart == codeStart && this.code == code && codeSize == |code| % 0x1_0000_0000
      ensures relocatable ==>
        programHeader == None && header == [1, machine, 1, 0, 0, 64 + codeSize, 0, 64, 0, 0, 64, 6, 4]
      ensures !relocatable ==>
        && programHeader == Some([1, 5, 64, codeStart, codeStart, codeSize, codeSize, 0x1000])
        && header == [2, machine, 1, codeStart, 64, 120 + codeSize, 0, 64, 56, 1, 64, 5, 3]
    {
      var size := Wrap32(|code|);
      this.relocatable, this.little, this.machine, this.codeStart, this.code := relocatable, little, machine, codeStart, code;
      codeSize := size;
      if relocatable {
        programHeader := None;
        header := [1, machine, 1, 0, 0, 64 + size, 0, 64, 0, 0, 64, 6, 4];
      } else {
        programHeader := Some([1, 5, 64, codeStart, codeStart, size, size, 0x1000]);
        header := [2, machine, 1, codeStart, 64, 64 + 56 + size, 0, 64, 56, 1, 64, 5, 3];
      }
      zeroSection, textSection, dynSymSection := ZERO_SECTION, ZERO_SECTION, ZERO_SECTION;
      shStrTabSection, dynStrSection, relaSection := ZERO_SECTION, ZERO_SECTION, None;
      symbols, numSymbols, totalELFSymbolNamesLength := NoSymbol, 0, 0;
      relocations, numRelocations, file := NoRelocation, 0, [];
    }

    /** The section headers in the order they are written. */
    function Sections(): seq<SectionHeader>
      reads `zeroSection, `textSection, `relaSection, `dynSymSection, `shStrTabSection, `dynStrSection
    {
      if relaSection.Some?
      then [zeroSection, textSection, relaSection.value, dynSymSection, shStrTabSection, dynStrSection]
      else [zeroSection, textSection, dynSymSection, shStrTabSection, dynStrSection]
    }

    ghost predicate FitsIn32()
      reads `numSymbols, `totalELFSymbolNamesLength, `numRelocations
    {
      FileSize(relocatable, codeSize, numSymbols, totalELFSymbolNamesLength, numRelocations) < 0x1_0000_0000
    }

    /** No wrap-around: every section header points where the section will be. */
    method BuildExecutableSectionHeaders()
      requires !relocatable && relaSection.None? && FitsIn32()
      modifies `zeroSection, `textSection, `dynSymSection, `shStrTabSection, `dynStrSection
      ensures Sections() == Layout(relocatable, codeStart, codeSize, numSymbols, totalELFSymbolNamesLength, numRelocations)
    {
      hide Wrap32;
      var shStrTabNameLength := 1 + 10 + 6 + 8 + 8;
      var trailerStartOffset := Wrap32(64 + 56 + codeSize);
      var symbolsStartOffset := Wrap32(trailerStartOffset + 64 * 5 + shStrTabNameLength);
      var symbolNamesStartOffset := Wrap32(symbolsStartOffset + Wrap32(numSymbols + 1) * 24);
      var shNameOffset := 0;

      zeroSection := ZERO_SECTION;
      shNameOffset := shNameOffset + 1;
      textSection := TextSection(codeStart, 64 + 56, codeSize);
      shNameOffset := shNameOffset + 6;
      dynSymSection :=
        TableSection(shNameOffset, SHT_SYMTAB, symbolsStartOffset, Wrap32(symbolNamesStartOffset - symbolsStartOffset), 4, 1);
      shNameOffset := shNameOffset + 8;
      shStrTabSection := StringSection(shNameOffset, Wrap32(symbolsStartOffset - shStrTabNameLength), shStrTabNameLength);
      shNameOffset := shNameOffset + 10;
      dynStrSection := StringSection(shNameOffset, symbolNamesStartOffset, totalELFSymbolNamesLength);
    }

    method BuildRelocatableSectionHeaders()
      requires relocatable && FitsIn32()
      modifies `zeroSection, `textSection, `relaSection, `dynSymSection, `shStrTabSection, `dynStrSection
      ensures relaSection.Some?
      ensures Sections() == Layout(relocatable, codeStart, codeSize, numSymbols, totalELFSymbolNamesLength, numRelocations)
    {
      hide Wrap32;
      var shStrTabNameLength := 1 + 10 + 6 + 11 + 8 + 8;
      var trailerStartOffset := Wrap32(64 + codeSize);
      var symbolsStartOffset := Wrap32(trailerStartOffset + 64 * 6 + shStrTabNameLength);
      var symbolNamesStartOffset := Wrap32(symbolsStartOffset + Wrap32(numSymbols + 1) * 24);
      var relaStartOffset := Wrap32(symbolNamesStartOffset + totalELFSymbolNamesLength);
      var shNameOffset := 0;

      zeroSection := ZERO_SECTION;
      shNameOffset := shNameOffset + 1;
      textSection := TextSection(0, 64, codeSize);
      shNameOffset := shNameOffset + 6;
      relaSection := Some(TableSection(shNameOffset, SHT_RELA, relaStartOffset, Wrap32(numRelocations * 24), 3, 1));
      shNameOffset := shNameOffset + 11;
      dynSymSection :=
        TableSection(shNameOffset, SHT_SYMTAB, symbolsStartOffset, Wrap32(symbolNamesStartOffset - symbolsStartOffset), 5, 1);
      shNameOffset := shNameOffset + 8;
      shStrTabSection := StringSection(shNameOffset, Wrap32(symbolsStartOffset - shStrTabNameLength), shStrTabNameLength);
      shNameOffset := shNameOffset + 10;
      dynStrSection := StringSection(shNameOffset, symbolNamesStartOffset, totalELFSymbolNamesLength);
    }

    ghost function Made(): (x: Input)
      reads `symbols, `relocations
      ensures x.code == code
    {
      Input(relocatable, little, machine, codeStart, code, symbols, relocations)
    }

    /** The counts handed over agree with the chains. */
    ghost predicate Agrees()
      reads `symbols, `relocations, `numSymbols, `totalELFSymbolNamesLength, `numRelocations
    {
      && numSymbols == symbols.Length() && totalELFSymbolNamesLength == 1 + |symbols.Names()|
      && numRelocations == relocations.Length() && Made().WellFormed()
    }

    /** Symbol entries as they come; their names are collected on the way and follow. */
    method WriteELFSymbolsToFile()
      requires Agrees() && relaSection.Some? == relocatable
      modifies `file
      ensures forall i :: 0 <= i < |Made().SymbolRows()| ==> |Made().SymbolRows()[i]| == |SYMBOL|
      ensures file == old(file) + (PackAll(SYMBOL, Made().SymbolRows(), little) + ([0] + symbols.Names()))
    {
      hide SymbolsLeft, NamesLeft, Pack, PackAll, Size, Power256, Fits, CString, SymbolRow, Shaped, Entries, Flatten, SectionNames;
      hide SymbolChain.Names, SymbolChain.Rows, RelocationChain.Rows, Input.SymbolRows, Input.WellFormed, Input.Headers;
      SymbolsToWrite(Made(), file);
      ghost var whole := file + PackAll(SYMBOL, Made().SymbolRows(), little);
      ghost var base := Made().Base();
      var names := new byte[totalELFSymbolNamesLength];
      file := file + Pack(SYMBOL, UNDEF_ROW, little);
      names[0] := 0;
      var position := 1;
      var sym := symbols;
      var rangeStart := if relaSection.Some? then codeStart else 0;
      FirstNames(symbols);
      assert names[..1] == [0];
      while sym.CodeCacheSymbol?
        invariant 0 < position <= names.Length
        invariant NamesLeft(names[..position], sym, symbols, names.Length)
        invariant SymbolsLeft(file, sym, position, base, little, whole)
        decreases sym
      {
        var n := |sym.name|;
        NamesNextSymbol(names[..position], sym, symbols, names.Length);
        SymbolsNext(file, sym, position, base, little, whole);
        CopyName(names, position, sym.name);
        file := file + Pack(SYMBOL, SymbolRow(sym, position, rangeStart), little);
        position := position + n;
        sym := sym.next;
      }
      NoNamesLeft(names[..position], symbols, names.Length);
      NoSymbolsLeft(file, position, base, little, whole);
      assert names[..] == names[..position];
      Regroup(old(file), PackAll(SYMBOL, Made().SymbolRows(), little), names[..]);
      file := file + names[..];
    }

    method WriteRelaEntriesToFile()
      requires Agrees() && relaSection.Some? == relocatable
      modifies `file
      ensures file == old(file) + RelaBytes(Made())
    {
      hide Pack, PackAll, Power256, Size, Wrap32, RelocationChain.Rows;
      TableSizes(Made());
      EmptyRelocations(codeStart, little);
      if relaSection.Some? && numRelocations > 0 {
        var reloc := relocations;
        while reloc.CodeCacheRelocation?
          invariant Shaped(reloc.Rows(codeStart), RELA)
          invariant file + PackAll(RELA, reloc.Rows(codeStart), little) ==
            old(file) + PackAll(RELA, relocations.Rows(codeStart), little)
          decreases reloc
        {
          RelocationStep(reloc, codeStart, little);
          var row := [(reloc.location - codeStart) % 0x1_0000_0000_0000_0000,
                      Wrap32(reloc.symbol + 1) * 0x1_0000_0000 + reloc.typ, 0];
          file := file + Pack(RELA, row, little);
          reloc := reloc.next;
        }
      }
    }

    method WriteSectionHeaderToFile(shdr: SectionHeader, ghost headers: seq<SectionHeader>, ghost k: nat, ghost whole: seq<byte>)
      requires k < |headers| && headers[k] == shdr && file + HeadersFrom(headers, k, little) == whole
      modifies `file
      ensures file + HeadersFrom(headers, k + 1, little) == whole
    {
      HeadersNext(headers, k, little);
      hide Pack, HeadersFrom;
      Regroup(file, Pack(SECTION, shdr.Row(), little), HeadersFrom(headers, k + 1, little));
      file := file + Pack(SECTION, shdr.Row(), little);
    }

    method WriteSectionNameToFile(name: seq<byte>, ghost names: seq<seq<byte>>, ghost k: nat, ghost whole: seq<byte>)
      requires k < |names| && names[k] == name && file + NamesFrom(names, k) == whole
      modifies `file
      ensures file + NamesFrom(names, k + 1) == whole
    {
      NamesNext(names, k);
      hide NamesFrom;
      Regroup(file, name, NamesFrom(names, k + 1));
      file := file + name;
    }

    method WriteSectionHeaders()
      modifies `file
      ensures file == old(file) + PackAll(SECTION, RowsOf(Sections()), little)
    {
      hide Pack, PackAll, Size, RowsOf, HeadersFrom;
      ghost var headers, k := Sections(), if relaSection.Some? then 3 else 2;
      ghost var whole := file + HeadersFrom(headers, 0, little);
      HeadersEnds(headers, little);
      WriteSectionHeaderToFile(zeroSection, headers, 0, whole);
      WriteSectionHeaderToFile(textSection, headers, 1, whole);
      if relaSection.Some? {
        WriteSectionHeaderToFile(relaSection.value, headers, 2, whole);
      }
      WriteSectionHeaderToFile(dynSymSection, headers, k, whole);
      WriteSectionHeaderToFile(shStrTabSection, headers, k + 1, whole);
      WriteSectionHeaderToFile(dynStrSection, headers, k + 2, whole);
      assert file + [] == file;
    }

    method WriteSectionNames()
      modifies `file
      ensures file == old(file) + Flatten(SectionNames(relaSection.Some?))
    {
      hide Flatten, NamesFrom;
      ghost var names, k := SectionNames(relaSection.Some?), if relaSection.Some? then 3 else 2;
      ghost var whole := file + NamesFrom(names, 0);
      NamesEnds(names);
      WriteSectionNameToFile([0], names, 0, whole);
      WriteSectionNameToFile(TEXT, names, 1, whole);
      if relaSection.Some? {
        WriteSectionNameToFile(RELA_TEXT, names, 2, whole);
      }
      WriteSectionNameToFile(SYMTAB, names, k, whole);
      WriteSectionNameToFile(SHSTRTAB, names, k + 1, whole);
      WriteSectionNameToFile(DYNSTR, names, k + 2, whole);
      assert file + [] == file;
    }

    method WriteHeaderToFile()
      requires Initialised() && codeSize == |code| && file == []
      modifies `file
      ensures file == Made().FileHeaderBytes()
    {
      hide Pack, Size, Ident, HeaderRow, ProgramRow;
      file := file + Ident(little);
      file := file + Pack(HEADER, header, little);
    }

    method WriteProgramHeaderToFile()
      requires Initialised() && codeSize == |code|
      modifies `file
      ensures file == old(file) + Made().Program()
    {
      hide Pack, Size, ProgramRow;
      if programHeader.Some? {
        file := file + Pack(PROGRAM, programHeader.value, little);
      }
    }

    method WriteCodeSegmentToFile()
      requires codeSize == |code|
      modifies `file
      ensures file == old(file) + code
    {
      assert code[..codeSize] == code;
      file := file + code[..codeSize];
    }

    /** The part up to the section header table. */
    method WriteFront()
      requires Initialised() && codeSize == |code| && file == [] && Sections() == Made().Headers()
      modifies `file
      ensures file == Made().FileHeaderBytes() + Made().Program() + code + Made().SectionTable()
    {
      hide Pack, PackAll, Size, Input.FileHeaderBytes, Input.Program, Input.Headers, RowsOf;
      WriteHeaderToFile();
      WriteProgramHeaderToFile();
      WriteCodeSegmentToFile();
      WriteSectionHeaders();
    }

    /** The bytes of the sections. */
    method WriteTrailer()
      requires Agrees() && Made().WellFormed() && relaSection.Some? == relocatable
      modifies `file
      ensures file == old(file) + Made().Trailer()
    {
      TrailerPieces(Made());
      hide PackAll, Flatten, SectionNames, Input.SymbolRows, Input.Trailer, Input.WellFormed, RelaBytes, SymbolChain.Names;
      ghost var names := Flatten(SectionNames(relocatable));
      ghost var table := PackAll(SYMBOL, Made().SymbolRows(), little) + ([0] + symbols.Names());
      Regroup(file, names, table);
      Regroup(file, names + table, RelaBytes(Made()));
      WriteSectionNames();
      WriteELFSymbolsToFile();
      WriteRelaEntriesToFile();
    }

    /** Write everything, if the file can be opened. */
    method EmitELFFile(opens: bool) returns (ok: bool)
      requires Initialised() && Agrees() && relaSection.Some? == relocatable && codeSize == |code|
      requires Sections() == Made().Headers() && Made().WellFormed()
      modifies `file
      ensures ok == opens && file == if ok then Made().Image() else old(file)
    {
      hide *;
      if !opens {
        return false;
      }
      ImagePieces(Made());
      file := [];
      WriteFront();
      WriteTrailer();
      ok := true;
    }

    /** Take the chains and build the section headers for them. */
    method Prepare(symbols: SymbolChain, numSymbols: nat, totalELFSymbolNamesLength: nat,
        relocations: RelocationChain, numRelocations: nat)
      requires Initialised() && relaSection.None?
      requires Input(relocatable, little, machine, codeStart, code, symbols, relocations).WellFormed()
      requires numSymbols == symbols.Length() && totalELFSymbolNamesLength == 1 + |symbols.Names()|
      requires numRelocations == relocations.Length()
      modifies this
      ensures Made() == Input(relocatable, little, machine, codeStart, code, symbols, relocations)
      ensures Initialised() && Agrees() && relaSection.Some? == relocatable && codeSize == |code|
      ensures Sections() == Made().Headers()
    {
      TakeChains(symbols, numSymbols, totalELFSymbolNamesLength, relocations, numRelocations);
      SizesFit(Made());
      hide Layout, FileSize, SymbolChain.Length, SymbolChain.Names, RelocationChain.Length, HeaderRow, ProgramRow, Input.WellFormed;
      if relocatable {
        BuildRelocatableSectionHeaders();
      } else {
        BuildExecutableSectionHeaders();
      }
    }

    method TakeChains(symbols: SymbolChain, numSymbols: nat, totalELFSymbolNamesLength: nat,
        relocations: RelocationChain, numRelocations: nat)
      modifies `symbols, `numSymbols, `totalELFSymbolNamesLength, `relocations, `numRelocations
      ensures this.symbols == symbols && this.numSymbols == numSymbols
      ensures this.totalELFSymbolNamesLength == totalELFSymbolNamesLength
      ensures this.relocations == relocations && this.numRelocations == numRelocations
    {
      this.symbols, this.numSymbols, this.totalELFSymbolNamesLength := symbols, numSymbols, totalELFSymbolNamesLength;
      this.relocations, this.numRelocations := relocations, numRelocations;
    }

    /** The whole job: lay out, write, and whoever reads the file finds what went in. */
    method EmitELF(symbols: SymbolChain, numSymbols: nat, totalELFSymbolNamesLength: nat,
        relocations: RelocationChain, numRelocations: nat, opens: bool)
      returns (ok: bool)
      requires Initialised() && relaSection.None?
      requires Input(relocatable, little, machine, codeStart, code, symbols, relocations).WellFormed()
      requires numSymbols == symbols.Length() && totalELFSymbolNamesLength == 1 + |symbols.Names()|
      requires numRelocations == relocations.Length()
      modifies this
      ensures ok == opens
      ensures ok ==>
        Parse(file).Some? &&
        Recovers(Parse(file).value, Input(relocatable, little, machine, codeStart, code, symbols, relocations))
    {
      hide *;
      ImageRecovers(Input(relocatable, little, machine, codeStart, code, symbols, relocations));
      Prepare(symbols, numSymbols, totalELFSymbolNamesLength, relocations, numRelocations);
      ok := EmitELFFile(opens);
    }
  }
}
