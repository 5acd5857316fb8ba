/** Object files as the System V gABI, chapter 4, describes them: 64-bit records, and a reader for a whole file. */
module ElfFormat {
  import opened Options

  type byte = x: int | 0 <= x < 256

  // ----- numbers

  function Power256(width: nat): (p: nat)
    ensures p > 0
  {
    if width == 0 then 1 else 256 * Power256(width - 1)
  }

  /** The low `width` bytes of a value, in the byte order of the file. */
  function Enc(value: nat, width: nat, little: bool): (s: seq<byte>)
    ensures |s| == width
  {
    if width == 0 then []
    else if little then [value % 256] + Enc(value / 256, width - 1, little)
    else Enc(value / 256, width - 1, little) + [value % 256]
  }

  function Dec(s: seq<byte>, little: bool): nat {
    if s == [] then 0
    else if little then s[0] + 256 * Dec(s[1..], little)
    else s[|s| - 1] + 256 * Dec(s[..|s| - 1], little)
  }

  lemma {:induction false} DecEnc(value: nat, width: nat, little: bool)
    requires value < Power256(width)
    ensures Dec(Enc(value, width, little), little) == value
  {
    if width > 0 {
      var rest := Enc(value / 256, width - 1, little);
      DecEnc(value / 256, width - 1, little);
      if little {
        assert Enc(value, width, little)[1..] == rest;
      } else {
        assert Enc(value, width, little)[..width - 1] == rest;
      }
    }
  }

  lemma Powers()
    ensures Power256(1) == 0x100 && Power256(2) == 0x1_0000
    ensures Power256(4) == 0x1_0000_0000 && Power256(8) == 0x1_0000_0000_0000_0000
  {
    assert Power256(3) == 0x100_0000;
    assert Power256(5) == 0x100_0000_0000;
    assert Power256(6) == 0x1_0000_0000_0000;
    assert Power256(7) == 0x100_0000_0000_0000;
  }

  // ----- records: fields of given widths, one after the other

  function Size(widths: seq<nat>): nat {
    if widths == [] then 0 else widths[0] + Size(widths[1..])
  }

  function Pack(widths: seq<nat>, values: seq<nat>, little: bool): (s: seq<byte>)
    requires |widths| == |values|
    ensures |s| == Size(widths)
  {
    if widths == [] then [] else Enc(values[0], widths[0], little) + Pack(widths[1..], values[1..], little)
  }

  function Unpack(widths: seq<nat>, s: seq<byte>, little: bool): (values: seq<nat>)
    requires |s| == Size(widths)
    ensures |values| == |widths|
  {
    if widths == [] then []
    else [Dec(s[..widths[0]], little)] + Unpack(widths[1..], s[widths[0]..], little)
  }

  predicate Fits(widths: seq<nat>, values: seq<nat>) {
    |widths| == |values| && forall i :: 0 <= i < |widths| ==> values[i] < Power256(widths[i])
  }

  lemma {:induction false} UnpackPack(widths: seq<nat>, values: seq<nat>, little: bool)
    requires Fits(widths, values)
    ensures Unpack(widths, Pack(widths, values, little), little) == values
  {
    if widths != [] {
      var s := Pack(widths, values, little);
      assert s[..widths[0]] == Enc(values[0], widths[0], little);
      assert s[widths[0]..] == Pack(widths[1..], values[1..], little);
      DecEnc(values[0], widths[0], little);
      UnpackPack(widths[1..], values[1..], little);
    }
  }

  const HEADER: seq<nat> := [2, 2, 4, 8, 8, 8, 4, 2, 2, 2, 2, 2, 2]
  const PROGRAM: seq<nat> := [4, 4, 8, 8, 8, 8, 8, 8]
  const SECTION: seq<nat> := [4, 4, 8, 8, 8, 8, 4, 4, 8, 8]
  const SYMBOL: seq<nat> := [4, 1, 1, 2, 8, 8]
  const RELA: seq<nat> := [8, 8, 8]

  lemma RecordSizes()
    ensures Size(HEADER) == 48 && Size(PROGRAM) == 56 && Size(SECTION) == 64 && Size(SYMBOL) == 24 && Size(RELA) == 24
  {
  }

  // ----- tables of records

  function PackAll(widths: seq<nat>, rows: seq<seq<nat>>, little: bool): (s: seq<byte>)
    requires forall i :: 0 <= i < |rows| ==> |rows[i]| == |widths|
    ensures |s| == Size(widths) * |rows|
  {
    if rows == [] then [] else Pack(widths, rows[0], little) + PackAll(widths, rows[1..], little)
  }

  function UnpackAll(widths: seq<nat>, s: seq<byte>, little: bool): (rows: seq<seq<nat>>)
    ensures forall i :: 0 <= i < |rows| ==> |rows[i]| == |widths|
    decreases |s|
  {
    var n := Size(widths);
    if n == 0 || |s| < n then [] else [Unpack(widths, s[..n], little)] + UnpackAll(widths, s[n..], little)
  }

  lemma {:induction false} UnpackAllPackAll(widths: seq<nat>, rows: seq<seq<nat>>, little: bool)
    requires Size(widths) > 0
    requires forall i :: 0 <= i < |rows| ==> |rows[i]| == |widths| && Fits(widths, rows[i])
    ensures UnpackAll(widths, PackAll(widths, rows, little), little) == rows
    decreases |rows|
  {
    if rows != [] {
      hide Pack, Unpack, Size, Fits;
      var first, rest := Pack(widths, rows[0], little), PackAll(widths, rows[1..], little);
      UnpackPack(widths, rows[0], little);
      UnpackAllPackAll(widths, rows[1..], little);
      UnpackFirst(widths, first, rest, little);
    }
  }

  lemma UnpackFirst(widths: seq<nat>, first: seq<byte>, rest: seq<byte>, little: bool)
    requires |first| == Size(widths) > 0
    ensures UnpackAll(widths, first + rest, little) == [Unpack(widths, first, little)] + UnpackAll(widths, rest, little)
  {
    hide Size, Unpack;
    assert (first + rest)[..|first|] == first && (first + rest)[|first|..] == rest;
  }

  // ----- string tables

  /** The bytes from `at` up to the next zero. */
  function ReadString(table: seq<byte>, at: nat): seq<byte>
    decreases |table| - at
  {
    if at >= |table| || table[at] == 0 then [] else [table[at]] + ReadString(table, at + 1)
  }

  predicate CString(s: seq<byte>) {
    s != [] && s[|s| - 1] == 0 && forall i :: 0 <= i < |s| - 1 ==> s[i] != 0
  }

  /** A zero-terminated string stored at an offset is what the table holds there. */
  lemma {:induction false} ReadStringAt(before: seq<byte>, s: seq<byte>, after: seq<byte>)
    requires CString(s)
    ensures ReadString(before + s + after, |before|) == s[..|s| - 1]
    decreases |s|
  {
    var table := before + s + after;
    assert table[|before|] == s[0];
    if |s| > 1 {
      ReadStringAt(before + [s[0]], s[1..], after);
      assert before + [s[0]] + s[1..] + after == table;
      assert s[..|s| - 1] == [s[0]] + s[1..][..|s| - 2];
    }
  }

  // ----- a whole file

  const MAGIC: seq<byte> := [0x7f, 0x45, 0x4c, 0x46]
  const SHT_PROGBITS := 1
  const SHT_SYMTAB := 2
  const SHT_STRTAB := 3
  const SHT_RELA := 4

  datatype SectionHeader = SectionHeader(name: nat, typ: nat, flags: nat, addr: nat, offset: nat, size: nat,
    link: nat, info: nat, addralign: nat, entsize: nat)
  {
    function Row(): (row: seq<nat>)
    {
      [name, typ, flags, addr, offset, size, link, info, addralign, entsize]
    }
  }

  function SectionOf(row: seq<nat>): SectionHeader
    requires |row| == |SECTION|
  {
    SectionHeader(row[0], row[1], row[2], row[3], row[4], row[5], row[6], row[7], row[8], row[9])
  }

  datatype Section = Section(name: seq<byte>, header: SectionHeader, bytes: seq<byte>)

  datatype Contents = Contents(little: bool, typ: nat, entry: nat, sections: seq<Section>)

  function Body(file: seq<byte>, h: SectionHeader): seq<byte> {
    if h.typ != 0 && h.offset + h.size <= |file| then file[h.offset..h.offset + h.size] else []
  }

  datatype FileHeader = FileHeader(little: bool, typ: nat, entry: nat, shoff: nat, shentsize: nat, shnum: nat, shstrndx: nat)

  function HeaderOf(row: seq<nat>, little: bool): FileHeader
    requires |row| == |HEADER|
  {
    FileHeader(little, row[0], row[3], row[5], row[10], row[11], row[12])
  }

  /** A 64-bit file: identification, then the rest of the header in the byte order it announces. */
  function ParseHeader(file: seq<byte>): Option<FileHeader> {
    if |file| < 16 + Size(HEADER) || file[..4] != MAGIC || file[4] != 2 then None
    else Some(HeaderOf(Unpack(HEADER, file[16..16 + Size(HEADER)], file[5] == 1), file[5] == 1))
  }

  function SectionsOf(file: seq<byte>, rows: seq<seq<nat>>, names: seq<byte>): seq<Section>
    requires forall i :: 0 <= i < |rows| ==> |rows[i]| == |SECTION|
  {
    seq(|rows|, i requires 0 <= i < |rows| =>
      var h := SectionOf(rows[i]); Section(ReadString(names, h.name), h, Body(file, h)))
  }

  /** Sections are found through the section header table, and named through the section name string table. */
  function Parse(file: seq<byte>): Option<Contents> {
    var header := ParseHeader(file);
    if header.None? then None
    else
      var FileHeader(little, typ, entry, shoff, shentsize, shnum, shstrndx) := header.value;
      if shentsize != 64 || shoff + 64 * shnum > |file| then None
      else
        var rows := UnpackAll(SECTION, file[shoff..shoff + 64 * shnum], little);
        if shstrndx >= |rows| then None
        else Some(Contents(little, typ, entry, SectionsOf(file, rows, Body(file, SectionOf(rows[shstrndx])))))
  }

  function FindNamed(sections: seq<Section>, name: seq<byte>): seq<byte> {
    if sections == [] then [] else if sections[0].name == name then sections[0].bytes else FindNamed(sections[1..], name)
  }

  function FindTyped(sections: seq<Section>, typ: nat): Option<Section> {
    if sections == [] then None else if sections[0].header.typ == typ then Some(sections[0]) else FindTyped(sections[1..], typ)
  }

  datatype Symbol = Symbol(name: seq<byte>, info: nat, other: nat, shndx: nat, value: nat, size: nat)

  function SymbolsIn(rows: seq<seq<nat>>, strings: seq<byte>): seq<Symbol>
    requires forall i :: 0 <= i < |rows| ==> |rows[i]| == |SYMBOL|
  {
    seq(|rows|, i requires 0 <= i < |rows| =>
      Symbol(ReadString(strings, rows[i][0]), rows[i][1], rows[i][2], rows[i][3], rows[i][4], rows[i][5]))
  }

  /** The symbol table, with names from the string table it links to. */
  function Symbols(c: Contents): seq<Symbol> {
    var table := FindTyped(c.sections, SHT_SYMTAB);
    if table.None? || table.value.header.link >= |c.sections| then []
    else SymbolsIn(UnpackAll(SYMBOL, table.value.bytes, c.little), c.sections[table.value.header.link].bytes)
  }

  datatype Relocation = Relocation(offset: nat, symbol: nat, typ: nat, addend: nat)

  function RelocationsIn(rows: seq<seq<nat>>): seq<Relocation>
    requires forall i :: 0 <= i < |rows| ==> |rows[i]| == |RELA|
  {
    seq(|rows|, i requires 0 <= i < |rows| =>
      Relocation(rows[i][0], rows[i][1] / 0x1_0000_0000, rows[i][1] % 0x1_0000_0000, rows[i][2]))
  }

  /** The entries of the relocation section. */
  function Relocations(c: Contents): seq<Relocation> {
    var table := FindTyped(c.sections, SHT_RELA);
    if table.None? then [] else RelocationsIn(UnpackAll(RELA, table.value.bytes, c.little))
  }
}
