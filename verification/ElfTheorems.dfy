/** The reader against the format: on every ELF64 file as the System V ABI lays it out (chapter 4,
    Object Files), it reports exactly the symbol-table and debug sections, in order. */
module ElfTheorems {
  import opened Elf

  // ---------------------------------------------------------------- the format

  /** `v` written in `width` bytes, least significant first. */
  function ToLittle(v: nat, width: nat): (s: seq<Byte>)
    ensures |s| == width
  {
    if width == 0 then [] else [v % 256] + ToLittle(v / 256, width - 1)
  }

  function Capacity(width: nat): (c: nat)
    ensures c > 0
  {
    if width == 0 then 1 else 256 * Capacity(width - 1)
  }

  /** The file holds the number `v` in `width` bytes at `at`. */
  ghost predicate FieldIs(data: seq<Byte>, at: nat, width: nat, v: nat) {
    at + width <= |data| && v < Capacity(width) && data[at..at + width] == ToLittle(v, width)
  }

  /** The file holds `name`, closed by a zero byte, at `at`. */
  ghost predicate NamedAt(data: seq<Byte>, at: nat, name: seq<Byte>) {
    && at + |name| < |data|
    && data[at..at + |name|] == name
    && data[at + |name|] == 0
    && 0 !in name
  }

  /** Where a file keeps its section headers and their names. */
  datatype Layout = Layout(shoff: nat, shentsize: nat, shstrndx: nat, strOff: nat, nameOffs: seq<nat>)

  const SHDR_SIZE := 0x40

  /** The file has the given section names, laid out as `l` says.  Tables may stand anywhere and names
      may share bytes of the string table. */
  ghost predicate HasSections(data: seq<Byte>, l: Layout, names: seq<seq<Byte>>) {
    && HasFileHeader(data, l, |names|)
    && l.shentsize >= SHDR_SIZE
    && l.shstrndx < |names| == |l.nameOffs|
    && FieldIs(data, RecordAt(l.shoff, l.shentsize, l.shstrndx) + 0x18, 8, l.strOff)
    && forall i | 0 <= i < |names| :: HasSection(data, l, names, i)
  }

  ghost predicate HasFileHeader(data: seq<Byte>, l: Layout, shnum: nat) {
    && |data| >= 0x40
    && data[..4] == MAGIC && data[4] == 2 && data[5] == 1
    && FieldIs(data, 0x28, 8, l.shoff)
    && FieldIs(data, 0x3A, 2, l.shentsize)
    && FieldIs(data, 0x3C, 2, shnum)
    && FieldIs(data, 0x3E, 2, l.shstrndx)
  }

  ghost predicate HasSection(data: seq<Byte>, l: Layout, names: seq<seq<Byte>>, i: nat)
    requires i < |names| == |l.nameOffs|
  {
    && RecordAt(l.shoff, l.shentsize, i + 1) <= |data|
    && FieldIs(data, RecordAt(l.shoff, l.shentsize, i), 4, l.nameOffs[i])
    && NamedAt(data, l.strOff + l.nameOffs[i], names[i])
  }

  const SYMTAB: seq<Byte> := [0x2E, 0x73, 0x79, 0x6D, 0x74, 0x61, 0x62]
  const DEBUG: seq<Byte> := [0x2E, 0x64, 0x65, 0x62, 0x75, 0x67]

  /** A name that stripping removes, on bytes. */
  predicate IsStrippable(name: seq<Byte>) {
    name == SYMTAB || DEBUG <= name
  }

  function Strippable(names: seq<seq<Byte>>): seq<seq<Byte>> {
    if names == [] then []
    else
      Strippable(names[..|names| - 1])
      + (if IsStrippable(names[|names| - 1]) then [names[|names| - 1]] else [])
  }

  function DecodeAll(names: seq<seq<Byte>>): (t: seq<string>)
    ensures |t| == |names|
    ensures forall i | 0 <= i < |names| :: t[i] == Decode(names[i])
  {
    seq(|names|, i requires 0 <= i < |names| => Decode(names[i]))
  }

  // ---------------------------------------------------------------- numbers

  lemma {:induction false} LittleRoundTrip(v: nat, width: nat)
    requires v < Capacity(width)
    ensures FromLittle(ToLittle(v, width)) == v
  {
    if width > 0 {
      LittleRoundTrip(v / 256, width - 1);
      assert ToLittle(v, width)[1..] == ToLittle(v / 256, width - 1);
    }
  }

  lemma FieldRead(data: seq<Byte>, at: nat, width: nat, v: nat)
    requires FieldIs(data, at, width, v)
    ensures FromLittle(Slice(data, at, at + width)) == v
  {
    LittleRoundTrip(v, width);
  }

  /** A field within a record that lies within the file. */
  lemma FieldInRecord(data: seq<Byte>, start: nat, end: nat, at: nat, width: nat, v: nat)
    requires start + at + width <= end <= |data|
    requires FieldIs(data, start + at, width, v)
    ensures FromLittle(Slice(Slice(data, start, end), at, at + width)) == v
  {
    var r := Slice(data, start, end);
    assert r == data[start..end];
    SliceOfSlice(data, start, end, at, at + width);
    LittleRoundTrip(v, width);
  }

  lemma SliceOfSlice(data: seq<Byte>, start: nat, end: nat, lo: nat, hi: nat)
    requires lo <= hi && start + hi <= end <= |data|
    ensures data[start..end][lo..hi] == data[start + lo..start + hi]
  {
    forall j | 0 <= j < hi - lo ensures data[start..end][lo..hi][j] == data[start + lo..start + hi][j] {
      assert data[start..end][lo + j] == data[start + (lo + j)];
    }
  }

  // ---------------------------------------------------------------- names

  lemma NameRead(data: seq<Byte>, at: nat, name: seq<Byte>)
    requires NamedAt(data, at, name)
    ensures Terminated(data, at) && NameBytes(data, at) == name
  {
    var end := at + |name|;
    forall j | at <= j < end ensures data[j] != 0 {
      assert data[j] == data[at..end][j - at] == name[j - at];
    }
    assert data[end] == 0;
    assert IndexOfNul(data, at) == end;
  }

  /** Replacing foreign bytes while decoding neither hides nor makes up a reported name. */
  lemma DecodingKeepsNames(name: seq<Byte>)
    ensures IsLeftover(Decode(name)) <==> IsStrippable(name)
  {
    var t := Decode(name);
    AsciiPrefix(name, SYMTAB, ".symtab");
    AsciiPrefix(name, DEBUG, ".debug");
    if |name| == 7 {
      assert t[..7] == t && name[..7] == name;
    }
  }

  lemma AsciiPrefix(name: seq<Byte>, bytes: seq<Byte>, text: string)
    requires |bytes| == |text|
    requires forall i | 0 <= i < |bytes| :: bytes[i] < 128 && bytes[i] as char == text[i]
    ensures bytes <= name <==> text <= Decode(name)
  {
    if |bytes| <= |name| {
      assert forall i | 0 <= i < |bytes| :: name[i] == bytes[i] <==> Decode(name)[i] == text[i];
      if text <= Decode(name) {
        assert forall i | 0 <= i < |bytes| :: Decode(name)[i] == text[i];
      }
    }
  }

  lemma {:induction false} DecodingKeepsLeftovers(names: seq<seq<Byte>>)
    ensures Leftovers(DecodeAll(names)) == DecodeAll(Strippable(names))
  {
    if names != [] {
      var front, last := names[..|names| - 1], names[|names| - 1];
      DecodingKeepsLeftovers(front);
      DecodingKeepsNames(last);
      assert DecodeAll(names)[..|names| - 1] == DecodeAll(front);
      assert DecodeAll(Strippable(front) + [last]) == DecodeAll(Strippable(front)) + [Decode(last)];
    }
  }

  /** The strippable names are a sublist: the names at increasing positions, and those are exactly the
      positions of strippable names. */
  lemma {:induction false} StrippableIsSublist(names: seq<seq<Byte>>) returns (at: seq<nat>)
    ensures |at| == |Strippable(names)|
    ensures forall i | 0 <= i < |at| :: at[i] < |names| && Strippable(names)[i] == names[at[i]]
    ensures forall i, j | 0 <= i < j < |at| :: at[i] < at[j]
    ensures forall k: nat | k < |names| :: k in at <==> IsStrippable(names[k])
  {
    if names == [] {
      at := [];
    } else {
      var last := |names| - 1;
      at := StrippableIsSublist(names[..last]);
      if IsStrippable(names[last]) {
        at := at + [last];
      }
    }
  }

  // ---------------------------------------------------------------- exactness

  lemma HeaderRead(data: seq<Byte>, l: Layout, shnum: nat)
    requires HasFileHeader(data, l, shnum)
    ensures HasIdent(data)
    ensures TableOffset(data) == l.shoff && EntrySize(data) == l.shentsize
    ensures EntryCount(data) == shnum && StringIndex(data) == l.shstrndx
  {
    FieldRead(data, 0x28, 8, l.shoff);
    FieldRead(data, 0x3A, 2, l.shentsize);
    FieldRead(data, 0x3C, 2, shnum);
    FieldRead(data, 0x3E, 2, l.shstrndx);
  }

  lemma RecordField(data: seq<Byte>, off: nat, size: nat, count: nat, i: nat, at: nat, width: nat, v: nat)
    requires i < count && RecordAt(off, size, i + 1) <= |data| && at + width <= size
    requires FieldIs(data, RecordAt(off, size, i) + at, width, v)
    ensures FromLittle(Slice(Records(data, off, size, count)[i], at, at + width)) == v
  {
    RecordEnd(off, size, i);
    FieldInRecord(data, RecordAt(off, size, i), RecordAt(off, size, i + 1), at, width, v);
  }

  lemma RecordEnd(off: nat, size: nat, i: nat)
    ensures RecordAt(off, size, i + 1) == RecordAt(off, size, i) + size
  {
  }

  lemma StringSectionRead(data: seq<Byte>, l: Layout, names: seq<seq<Byte>>)
    requires HasSections(data, l, names)
    ensures StringOffset(Records(data, l.shoff, l.shentsize, |names|), l.shstrndx) == l.strOff
  {
    assert HasSection(data, l, names, l.shstrndx);
    RecordField(data, l.shoff, l.shentsize, |names|, l.shstrndx, 0x18, 8, l.strOff);
  }

  lemma SectionRead(data: seq<Byte>, l: Layout, names: seq<seq<Byte>>, i: nat)
    requires i < |names| == |l.nameOffs| && l.shentsize >= SHDR_SIZE && HasSection(data, l, names, i)
    ensures var at := NameOffset(Records(data, l.shoff, l.shentsize, |names|), l.strOff, i);
      Terminated(data, at) && NameBytes(data, at) == names[i]
  {
    RecordField(data, l.shoff, l.shentsize, |names|, i, 0, 4, l.nameOffs[i]);
    NameRead(data, l.strOff + l.nameOffs[i], names[i]);
  }

  /** The reader succeeds on every well-formed file and reports exactly the strippable sections, in
      order. */
  lemma ReaderIsExact(data: seq<Byte>, l: Layout, names: seq<seq<Byte>>)
    requires HasSections(data, l, names)
    ensures Reading(data) == Ok(DecodeAll(Strippable(names)))
  {
    HeaderRead(data, l, |names|);
    var sections := Records(data, l.shoff, l.shentsize, |names|);
    StringSectionRead(data, l, names);
    forall i | 0 <= i < |names|
      ensures Terminated(data, NameOffset(sections, l.strOff, i))
      ensures NameBytes(data, NameOffset(sections, l.strOff, i)) == names[i]
    {
      assert HasSection(data, l, names, i);
      SectionRead(data, l, names, i);
    }
    assert NamesTerminated(data, sections, l.strOff);
    assert NamesOf(data, sections, l.strOff) == DecodeAll(names);
    DecodingKeepsLeftovers(names);
  }

  // ---------------------------------------------------------------- a writer

  /** The names one after the other, each closed by a zero byte. */
  function StringTable(names: seq<seq<Byte>>): seq<Byte> {
    if names == [] then [] else StringTable(names[..|names| - 1]) + names[|names| - 1] + [0]
  }

  function Zeros(n: nat): (s: seq<Byte>)
    ensures |s| == n
  {
    seq(n, _ => 0)
  }

  /** A section header with the given name and file offsets. */
  function SectionHeader(nameOff: nat, off: nat): (s: seq<Byte>)
    ensures |s| == SHDR_SIZE
  {
    ToLittle(nameOff, 4) + Zeros(0x14) + ToLittle(off, 8) + Zeros(0x20)
  }

  /** One header per name; the i-th name starts where the names before it end. */
  function HeaderTable(names: seq<seq<Byte>>): (s: seq<Byte>)
    ensures |s| == |names| * SHDR_SIZE
  {
    if names == [] then []
    else
      var front := names[..|names| - 1];
      HeaderTable(front) + SectionHeader(|StringTable(front)|, SHDR_SIZE)
  }

  function FileHeader(shoff: nat, shnum: nat, shstrndx: nat): (s: seq<Byte>)
    ensures |s| == 0x40
  {
    MAGIC + [2, 1] + Zeros(0x22) + ToLittle(shoff, 8) + Zeros(0xA)
    + ToLittle(SHDR_SIZE, 2) + ToLittle(shnum, 2) + ToLittle(shstrndx, 2)
  }

  /** A file with the given section names and `k` as the index of its string table section. */
  function Write(names: seq<seq<Byte>>, k: nat): seq<Byte> {
    FileHeader(0x40 + |StringTable(names)|, |names|, k) + StringTable(names) + HeaderTable(names)
  }

  function WriteLayout(names: seq<seq<Byte>>, k: nat): Layout {
    Layout(0x40 + |StringTable(names)|, SHDR_SIZE, k, 0x40,
      seq(|names|, i requires 0 <= i < |names| => |StringTable(names[..i])|))
  }

  /** What fits the widths of the header fields. */
  ghost predicate Writable(names: seq<seq<Byte>>, k: nat) {
    && k < |names| < 0xFF00
    && |StringTable(names)| < 0x1_0000_0000
    && forall i | 0 <= i < |names| :: 0 !in names[i]
  }

  lemma {:induction false} StringTablePrefix(names: seq<seq<Byte>>, i: nat)
    requires i <= |names|
    ensures StringTable(names[..i]) <= StringTable(names)
  {
    if i < |names| {
      var front := names[..|names| - 1];
      StringTablePrefix(front, i);
      assert front[..i] == names[..i];
    } else {
      assert names[..i] == names;
    }
  }

  /** Each name stands in the string table where the names before it end. */
  lemma NameInTable(names: seq<seq<Byte>>, i: nat)
    requires i < |names| && 0 !in names[i]
    ensures NamedAt(StringTable(names), |StringTable(names[..i])|, names[i])
  {
    var upTo := names[..i + 1];
    assert upTo[..|upTo| - 1] == names[..i];
    StringTablePrefix(names, i + 1);
    var table, at := StringTable(names), |StringTable(names[..i])|;
    var part := StringTable(upTo);
    assert part == StringTable(names[..i]) + names[i] + [0];
    assert part[at..at + |names[i]|] == names[i] && part[at + |names[i]|] == 0;
    assert table[..|part|] == part;
    assert table[at..at + |names[i]|] == part[at..at + |names[i]|];
  }

  lemma {:induction false} HeaderInTable(names: seq<seq<Byte>>, i: nat)
    requires i < |names|
    ensures HeaderTable(names)[i * SHDR_SIZE..(i + 1) * SHDR_SIZE]
         == SectionHeader(|StringTable(names[..i])|, SHDR_SIZE)
  {
    var front := names[..|names| - 1];
    if i < |names| - 1 {
      HeaderInTable(front, i);
      assert front[..i] == names[..i];
      assert HeaderTable(front) <= HeaderTable(names);
      assert HeaderTable(names)[i * SHDR_SIZE..(i + 1) * SHDR_SIZE]
          == HeaderTable(front)[i * SHDR_SIZE..(i + 1) * SHDR_SIZE];
    } else {
      assert front == names[..i];
    }
  }

  lemma CapacityValues()
    ensures Capacity(2) == 0x10000 && Capacity(4) == 0x1_0000_0000 && Capacity(8) == 0x1_0000_0000_0000_0000
  {
    assert Capacity(2) == 0x10000;
    assert Capacity(4) == 0x1_0000_0000;
    assert Capacity(6) == 0x1_0000_0000_0000;
  }

  /** `part` stands in the file at `start`. */
  ghost predicate PartAt(data: seq<Byte>, start: nat, part: seq<Byte>) {
    start + |part| <= |data| && forall j | 0 <= j < |part| :: data[start + j] == part[j]
  }

  /** A field of a part of the file is a field of the file. */
  lemma FieldInPart(data: seq<Byte>, start: nat, part: seq<Byte>, at: nat, width: nat, v: nat)
    requires PartAt(data, start, part) && FieldIs(part, at, width, v)
    ensures FieldIs(data, start + at, width, v)
  {
    SubPart(data, start, part, at, at + width);
  }

  lemma SubPart(data: seq<Byte>, start: nat, part: seq<Byte>, lo: nat, hi: nat)
    requires PartAt(data, start, part) && lo <= hi <= |part|
    ensures data[start + lo..start + hi] == part[lo..hi]
  {
    forall j | 0 <= j < hi - lo ensures data[start + lo..start + hi][j] == part[lo..hi][j] {
      assert data[start + (lo + j)] == part[lo + j];
    }
  }

  lemma NestedPart(data: seq<Byte>, start: nat, part: seq<Byte>, at: nat, inner: seq<Byte>)
    requires PartAt(data, start, part) && at + |inner| <= |part| && part[at..at + |inner|] == inner
    ensures PartAt(data, start + at, inner)
  {
    forall j | 0 <= j < |inner| ensures data[start + at + j] == inner[j] {
      assert inner[j] == part[at..at + |inner|][j] == part[at + j] == data[start + (at + j)];
    }
  }

  lemma FileHeaderFields(shoff: nat, shnum: nat, shstrndx: nat)
    requires shoff < Capacity(8) && shnum < 0x10000 && shstrndx < 0x10000
    ensures var h := FileHeader(shoff, shnum, shstrndx);
      && h[..4] == MAGIC && h[4] == 2 && h[5] == 1
      && FieldIs(h, 0x28, 8, shoff)
      && FieldIs(h, 0x3A, 2, SHDR_SIZE)
      && FieldIs(h, 0x3C, 2, shnum)
      && FieldIs(h, 0x3E, 2, shstrndx)
  {
    CapacityValues();
  }

  lemma SectionHeaderFields(nameOff: nat, off: nat)
    requires nameOff < Capacity(4) && off < Capacity(8)
    ensures FieldIs(SectionHeader(nameOff, off), 0, 4, nameOff)
    ensures FieldIs(SectionHeader(nameOff, off), 0x18, 8, off)
  {
  }

  lemma NameInPart(data: seq<Byte>, start: nat, part: seq<Byte>, at: nat, name: seq<Byte>)
    requires PartAt(data, start, part) && NamedAt(part, at, name)
    ensures NamedAt(data, start + at, name)
  {
    SubPart(data, start, part, at, at + |name|);
    assert data[start + (at + |name|)] == part[at + |name|];
  }

  lemma PartsWritten(names: seq<seq<Byte>>, k: nat)
    ensures PartAt(Write(names, k), 0, FileHeader(0x40 + |StringTable(names)|, |names|, k))
    ensures PartAt(Write(names, k), 0x40, StringTable(names))
    ensures PartAt(Write(names, k), 0x40 + |StringTable(names)|, HeaderTable(names))
  {
  }

  lemma HeaderWritten(names: seq<seq<Byte>>, k: nat, i: nat)
    requires i < |names|
    ensures PartAt(Write(names, k), 0x40 + |StringTable(names)| + i * SHDR_SIZE,
              SectionHeader(|StringTable(names[..i])|, SHDR_SIZE))
  {
    PartsWritten(names, k);
    HeaderInTable(names, i);
    NestedPart(Write(names, k), 0x40 + |StringTable(names)|, HeaderTable(names), i * SHDR_SIZE,
      SectionHeader(|StringTable(names[..i])|, SHDR_SIZE));
  }

  lemma NameFieldWritten(names: seq<seq<Byte>>, k: nat, i: nat)
    requires Writable(names, k) && i < |names|
    ensures var start := 0x40 + |StringTable(names)| + i * SHDR_SIZE;
      && start + SHDR_SIZE <= |Write(names, k)|
      && FieldIs(Write(names, k), start, 4, |StringTable(names[..i])|)
  {
    var start, nameOff := 0x40 + |StringTable(names)| + i * SHDR_SIZE, |StringTable(names[..i])|;
    CapacityValues();
    StringTablePrefix(names, i);
    SectionHeaderFields(nameOff, SHDR_SIZE);
    HeaderWritten(names, k, i);
    FieldInPart(Write(names, k), start, SectionHeader(nameOff, SHDR_SIZE), 0, 4, nameOff);
  }

  lemma OffsetFieldWritten(names: seq<seq<Byte>>, k: nat, off: nat)
    requires Writable(names, k) && off == SHDR_SIZE
    ensures FieldIs(Write(names, k), 0x40 + |StringTable(names)| + k * SHDR_SIZE + 0x18, 8, off)
  {
    var start, nameOff := 0x40 + |StringTable(names)| + k * SHDR_SIZE, |StringTable(names[..k])|;
    CapacityValues();
    StringTablePrefix(names, k);
    SectionHeaderFields(nameOff, off);
    HeaderWritten(names, k, k);
    FieldInPart(Write(names, k), start, SectionHeader(nameOff, off), 0x18, 8, off);
  }

  lemma NameWritten(names: seq<seq<Byte>>, k: nat, i: nat)
    requires Writable(names, k) && i < |names|
    ensures NamedAt(Write(names, k), 0x40 + |StringTable(names[..i])|, names[i])
  {
    NameInTable(names, i);
    PartsWritten(names, k);
    NameInPart(Write(names, k), 0x40, StringTable(names), |StringTable(names[..i])|, names[i]);
  }

  lemma SectionFrom(data: seq<Byte>, l: Layout, names: seq<seq<Byte>>, i: nat, start: nat, nameOff: nat)
    requires i < |names| == |l.nameOffs| && l.nameOffs[i] == nameOff
    requires start == RecordAt(l.shoff, l.shentsize, i) && start + l.shentsize <= |data|
    requires FieldIs(data, start, 4, nameOff) && NamedAt(data, l.strOff + nameOff, names[i])
    ensures HasSection(data, l, names, i)
  {
    RecordEnd(l.shoff, l.shentsize, i);
  }

  lemma SectionWritten(names: seq<seq<Byte>>, k: nat, i: nat)
    requires Writable(names, k) && i < |names|
    ensures HasSection(Write(names, k), WriteLayout(names, k), names, i)
  {
    NameFieldWritten(names, k, i);
    NameWritten(names, k, i);
    SectionFrom(Write(names, k), WriteLayout(names, k), names, i,
      0x40 + |StringTable(names)| + i * SHDR_SIZE, |StringTable(names[..i])|);
  }

  lemma FileHeaderWritten(names: seq<seq<Byte>>, k: nat)
    requires Writable(names, k)
    ensures HasFileHeader(Write(names, k), WriteLayout(names, k), |names|)
  {
    var data, l := Write(names, k), WriteLayout(names, k);
    CapacityValues();
    var h := FileHeader(l.shoff, |names|, k);
    FileHeaderFields(l.shoff, |names|, k);
    PartsWritten(names, k);
    SubPart(data, 0, h, 0, 4);
    FieldInPart(data, 0, h, 0x28, 8, l.shoff);
    FieldInPart(data, 0, h, 0x3A, 2, SHDR_SIZE);
    FieldInPart(data, 0, h, 0x3C, 2, |names|);
    FieldInPart(data, 0, h, 0x3E, 2, k);
  }

  /** The writer makes well-formed files. */
  lemma WriterIsWellFormed(names: seq<seq<Byte>>, k: nat)
    requires Writable(names, k)
    ensures HasSections(Write(names, k), WriteLayout(names, k), names)
  {
    FileHeaderWritten(names, k);
    OffsetFieldWritten(names, k, WriteLayout(names, k).strOff);
    forall i | 0 <= i < |names| ensures HasSection(Write(names, k), WriteLayout(names, k), names, i) {
      SectionWritten(names, k, i);
    }
  }

  /** Reading what was written gives back the strippable names. */
  lemma WriteThenRead(names: seq<seq<Byte>>, k: nat)
    requires Writable(names, k)
    ensures Reading(Write(names, k)) == Ok(DecodeAll(Strippable(names)))
  {
    WriterIsWellFormed(names, k);
    ReaderIsExact(Write(names, k), WriteLayout(names, k), names);
  }
}
