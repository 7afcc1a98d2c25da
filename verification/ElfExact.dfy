/** The reader's answer on every byte string, told from the bytes alone: which files are refused and how,
    and what is reported of the others. */
module ElfExact {
  import opened Elf
  import opened ElfTheorems

  // ---------------------------------------------------------------- bytes

  /** The number kept least significant byte first in `width` bytes at `at`; bytes from `end` on, and
      bytes beyond the file, count as zero. */
  function Number(data: seq<Byte>, at: nat, width: nat, end: nat): nat
    decreases width
  {
    if width == 0 then 0
    else (if at < end && at < |data| then data[at] else 0) + 256 * Number(data, at + 1, width - 1, end)
  }

  /** Something else than a 64-bit little-endian ELF file, as far as its first six bytes go. */
  predicate Foreign(data: seq<Byte>) {
    || !([0x7F, 0x45, 0x4C, 0x46] <= data)
    || (|data| > 4 && data[4] != 2)
    || (|data| > 5 && data[5] != 1)
  }

  function Count(data: seq<Byte>): nat { Number(data, 0x3C, 2, |data|) }
  function Index(data: seq<Byte>): nat { Number(data, 0x3E, 2, |data|) }
  function Table(data: seq<Byte>): nat { Number(data, 0x28, 8, |data|) }
  function Size(data: seq<Byte>): nat { Number(data, 0x3A, 2, |data|) }

  /** Where the name of section `i` starts: the offset of the string table section plus the section's
      name offset, each from its own header. */
  function NameAt(data: seq<Byte>, i: nat): nat {
    NameFrom(data, Table(data), Size(data), Index(data), i)
  }

  function NameFrom(data: seq<Byte>, table: nat, size: nat, strings: nat, i: nat): nat {
    Number(data, table + strings * size + 0x18, 8, table + (strings + 1) * size)
    + Number(data, table + i * size, 4, table + (i + 1) * size)
  }

  /** No zero byte at or after `at`. */
  predicate Unterminated(data: seq<Byte>, at: nat) {
    forall p | at <= p < |data| :: data[p] != 0
  }

  // ---------------------------------------------------------------- numbers are read as defined

  lemma {:induction false} NumberBeyond(data: seq<Byte>, at: nat, width: nat, end: nat)
    requires at >= |data|
    ensures Number(data, at, width, end) == 0
    decreases width
  {
    if width > 0 {
      NumberBeyond(data, at + 1, width - 1, end);
    }
  }

  lemma {:induction false} SliceRead(data: seq<Byte>, at: nat, width: nat)
    ensures FromLittle(Slice(data, at, at + width)) == Number(data, at, width, |data|)
    decreases width
  {
    if at >= |data| {
      NumberBeyond(data, at, width, |data|);
    } else if width > 0 {
      SliceRead(data, at + 1, width - 1);
      var s := Slice(data, at, at + width);
      assert s[0] == data[at] && s[1..] == Slice(data, at + 1, at + 1 + (width - 1));
    }
  }

  lemma {:induction false} NumberInRecord(data: seq<Byte>, lo: nat, hi: nat, at: nat, width: nat)
    requires lo <= hi
    ensures Number(Slice(data, lo, hi), at, width, |Slice(data, lo, hi)|) == Number(data, lo + at, width, hi)
    decreases width
  {
    if width > 0 {
      NumberInRecord(data, lo, hi, at + 1, width - 1);
      assert lo + (at + 1) == lo + at + 1;
    }
  }

  lemma RecordRead(data: seq<Byte>, off: nat, size: nat, count: nat, i: nat, at: nat, width: nat)
    requires i < count
    ensures FromLittle(Slice(Records(data, off, size, count)[i], at, at + width))
         == Number(data, RecordAt(off, size, i) + at, width, RecordAt(off, size, i + 1))
  {
    RecordEnd(off, size, i);
    SliceRead(Records(data, off, size, count)[i], at, width);
    NumberInRecord(data, RecordAt(off, size, i), RecordAt(off, size, i + 1), at, width);
  }

  lemma HeaderNumbers(data: seq<Byte>)
    ensures TableOffset(data) == Table(data) && EntrySize(data) == Size(data)
    ensures EntryCount(data) == Count(data) && StringIndex(data) == Index(data)
  {
    SliceRead(data, 0x28, 8);
    SliceRead(data, 0x3A, 2);
    SliceRead(data, 0x3C, 2);
    SliceRead(data, 0x3E, 2);
  }

  lemma StringOffsetFrom(data: seq<Byte>, table: nat, size: nat, count: nat, strings: nat)
    requires strings < count
    ensures StringOffset(Records(data, table, size, count), strings)
         == Number(data, table + strings * size + 0x18, 8, table + (strings + 1) * size)
  {
    RecordRead(data, table, size, count, strings, 0x18, 8);
  }

  lemma NamePartFrom(data: seq<Byte>, table: nat, size: nat, count: nat, i: nat)
    requires i < count
    ensures FromLittle(Slice(Records(data, table, size, count)[i], 0, 4))
         == Number(data, table + i * size, 4, table + (i + 1) * size)
  {
    RecordRead(data, table, size, count, i, 0, 4);
  }

  lemma NameOffsetFrom(data: seq<Byte>, table: nat, size: nat, count: nat, strings: nat, i: nat)
    requires strings < count && i < count
    ensures var sections := Records(data, table, size, count);
      NameOffset(sections, StringOffset(sections, strings), i) == NameFrom(data, table, size, strings, i)
  {
    StringOffsetFrom(data, table, size, count, strings);
    NamePartFrom(data, table, size, count, i);
  }

  lemma NameOffsetRead(data: seq<Byte>, i: nat)
    requires StringIndex(data) < EntryCount(data) && i < EntryCount(data)
    ensures NameOffset(Headers(data), StringOffset(Headers(data), StringIndex(data)), i) == NameAt(data, i)
  {
    HeaderNumbers(data);
    NameOffsetFrom(data, TableOffset(data), EntrySize(data), EntryCount(data), StringIndex(data), i);
  }

  // ---------------------------------------------------------------- refusals

  lemma IdentRead(data: seq<Byte>)
    ensures HasIdent(data) <==> !Foreign(data) && |data| > 5
    ensures CutInIdent(data) <==> !Foreign(data) && |data| <= 5
  {
  }

  lemma TerminationRead(data: seq<Byte>)
    requires StringIndex(data) < EntryCount(data)
    ensures NamesTerminated(data, Headers(data), StringOffset(Headers(data), StringIndex(data)))
       <==> forall i: nat | i < Count(data) :: !Unterminated(data, NameAt(data, i))
  {
    HeaderNumbers(data);
    forall i: nat | i < Count(data)
      ensures Terminated(data, NameOffset(Headers(data), StringOffset(Headers(data), StringIndex(data)), i))
         <==> !Unterminated(data, NameAt(data, i))
    {
      NameOffsetRead(data, i);
    }
  }

  /** Exactly which files are refused, and how: sys.exit on a foreign one, IndexError when it ends within
      its first six bytes or its string table index is no section, ValueError when some section's name
      has no zero byte to end it. */
  lemma RefusalsExact(data: seq<Byte>)
    ensures Reading(data) == Err(NotElf64) <==> Foreign(data)
    ensures Reading(data) == Err(IndexError) <==>
      !Foreign(data) && (|data| <= 5 || Index(data) >= Count(data))
    ensures Reading(data) == Err(NoTerminator) <==>
      && !Foreign(data) && |data| > 5 && Index(data) < Count(data)
      && exists i: nat :: i < Count(data) && Unterminated(data, NameAt(data, i))
  {
    IdentRead(data);
    HeaderNumbers(data);
    if StringIndex(data) < EntryCount(data) {
      TerminationRead(data);
    }
  }

  // ---------------------------------------------------------------- answers

  lemma NameFound(data: seq<Byte>, at: nat)
    requires Terminated(data, at)
    ensures NamedAt(data, at, NameBytes(data, at))
  {
  }

  /** Every file that is not refused: each section has a name that stands at its offset and ends at the
      first zero byte, and the answer is the strippable ones among them, in order. */
  lemma AnswersExact(data: seq<Byte>) returns (names: seq<seq<Byte>>)
    requires !Foreign(data) && |data| > 5 && Index(data) < Count(data)
    requires forall i: nat | i < Count(data) :: !Unterminated(data, NameAt(data, i))
    ensures |names| == Count(data)
    ensures forall i: nat | i < Count(data) :: NamedAt(data, NameAt(data, i), names[i])
    ensures Reading(data) == Ok(DecodeAll(Strippable(names)))
  {
    IdentRead(data);
    HeaderNumbers(data);
    TerminationRead(data);
    var sections, strOff := Headers(data), StringOffset(Headers(data), StringIndex(data));
    names := RawNames(data, sections, strOff);
    forall i: nat | i < Count(data) ensures NamedAt(data, NameAt(data, i), names[i]) {
      NameOffsetRead(data, i);
      NameFound(data, NameAt(data, i));
    }
    assert NamesOf(data, sections, strOff) == DecodeAll(names);
    DecodingKeepsLeftovers(names);
  }

  function RawNames(data: seq<Byte>, sections: seq<seq<Byte>>, strOff: nat): (names: seq<seq<Byte>>)
    requires NamesTerminated(data, sections, strOff)
    ensures |names| == |sections|
    ensures forall i | 0 <= i < |sections| :: names[i] == NameBytes(data, NameOffset(sections, strOff, i))
  {
    seq(|sections|, i requires 0 <= i < |sections| => NameBytes(data, NameOffset(sections, strOff, i)))
  }
}
