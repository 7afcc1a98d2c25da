/** The section-name reader of android/package.py on arbitrary bytes. */
module Elf {

  type Byte = b: nat | b < 256

  datatype Result<T> = Ok(value: T) | Err(error: Failure)

  /** The ways reading stops: sys.exit on a foreign file, and the two exceptions Python raises. */
  datatype Failure = NotElf64 | IndexError | NoTerminator

  const MAGIC: seq<Byte> := [0x7F, 0x45, 0x4C, 0x46]

  // ---------------------------------------------------------------- Python's operations on bytes

  function Min(a: nat, b: nat): nat {
    if a < b then a else b
  }

  /** `data[lo:hi]`, cut at the end of the data. */
  function Slice(data: seq<Byte>, lo: nat, hi: nat): seq<Byte> {
    var (l, h) := (Min(lo, |data|), Min(hi, |data|));
    if l <= h then data[l..h] else []
  }

  /** `int.from_bytes(s, 'little')` */
  function FromLittle(s: seq<Byte>): nat {
    if s == [] then 0 else s[0] + 256 * FromLittle(s[1..])
  }

  /** `data.index(b'\0', at)`, or -1 where Python raises. */
  function IndexOfNul(data: seq<Byte>, at: nat): (r: int)
    ensures r == -1 || at <= r < |data|
    ensures r == -1 ==> forall i | at <= i < |data| :: data[i] != 0
    ensures r >= 0 ==> data[r] == 0 && forall i | at <= i < r :: data[i] != 0
    decreases |data| - at
  {
    if at >= |data| then -1 else if data[at] == 0 then at else IndexOfNul(data, at + 1)
  }

  /** `bytes.decode('ascii', 'replace')` */
  function Decode(s: seq<Byte>): (t: string)
    ensures |t| == |s|
    ensures forall i | 0 <= i < |s| :: t[i] == if s[i] < 128 then s[i] as char else '\U{FFFD}'
  {
    seq(|s|, i requires 0 <= i < |s| => DecodeByte(s[i]))
  }

  function DecodeByte(b: Byte): char {
    if b < 128 then b as char else '\U{FFFD}'
  }

  // ---------------------------------------------------------------- fields

  predicate HasIdent(data: seq<Byte>) {
    |data| > 5 && data[..4] == MAGIC && data[4] == 2 && data[5] == 1
  }

  function TableOffset(data: seq<Byte>): nat { FromLittle(Slice(data, 0x28, 0x30)) }
  function EntrySize(data: seq<Byte>): nat { FromLittle(Slice(data, 0x3A, 0x3C)) }
  function EntryCount(data: seq<Byte>): nat { FromLittle(Slice(data, 0x3C, 0x3E)) }
  function StringIndex(data: seq<Byte>): nat { FromLittle(Slice(data, 0x3E, 0x40)) }

  /** Where record `i` starts in a table at `off`. */
  function RecordAt(off: nat, size: nat, i: nat): nat {
    off + i * size
  }

  /** `count` records of `size` bytes from `off` on, each cut out of the file. */
  function Records(data: seq<Byte>, off: nat, size: nat, count: nat): (s: seq<seq<Byte>>)
    ensures |s| == count
    ensures forall i | 0 <= i < count :: s[i] == Slice(data, RecordAt(off, size, i), RecordAt(off, size, i + 1))
  {
    seq(count, i requires 0 <= i < count => Slice(data, RecordAt(off, size, i), RecordAt(off, size, i + 1)))
  }

  /** The section headers. */
  function Headers(data: seq<Byte>): seq<seq<Byte>> {
    Records(data, TableOffset(data), EntrySize(data), EntryCount(data))
  }

  function StringOffset(sections: seq<seq<Byte>>, index: nat): nat
    requires index < |sections|
  {
    FromLittle(Slice(sections[index], 0x18, 0x20))
  }

  function NameOffset(sections: seq<seq<Byte>>, strOff: nat, i: nat): nat
    requires i < |sections|
  {
    strOff + FromLittle(Slice(sections[i], 0, 4))
  }

  predicate Terminated(data: seq<Byte>, at: nat) {
    exists i :: at <= i < |data| && data[i] == 0
  }

  /** The bytes from `at` up to the first zero byte. */
  function NameBytes(data: seq<Byte>, at: nat): seq<Byte>
    requires Terminated(data, at)
  {
    data[at..IndexOfNul(data, at)]
  }

  // ---------------------------------------------------------------- the reader

  predicate IsLeftover(name: string) {
    name == ".symtab" || ".debug" <= name
  }

  function Leftovers(names: seq<string>): seq<string> {
    if names == [] then []
    else
      Leftovers(names[..|names| - 1])
      + (if IsLeftover(names[|names| - 1]) then [names[|names| - 1]] else [])
  }

  /** Every name of every section ends before the file does. */
  predicate NamesTerminated(data: seq<Byte>, sections: seq<seq<Byte>>, strOff: nat) {
    forall i | 0 <= i < |sections| :: Terminated(data, NameOffset(sections, strOff, i))
  }

  function NamesOf(data: seq<Byte>, sections: seq<seq<Byte>>, strOff: nat): (names: seq<string>)
    requires NamesTerminated(data, sections, strOff)
    ensures |names| == |sections|
    ensures forall i | 0 <= i < |sections| ::
      names[i] == Decode(NameBytes(data, NameOffset(sections, strOff, i)))
  {
    seq(|sections|, i requires 0 <= i < |sections| => Decode(NameBytes(data, NameOffset(sections, strOff, i))))
  }

  /** Every step of the reader succeeds. */
  predicate Readable(data: seq<Byte>) {
    && HasIdent(data)
    && StringIndex(data) < EntryCount(data)
    && NamesTerminated(data, Headers(data), StringOffset(Headers(data), StringIndex(data)))
  }

  function SectionNames(data: seq<Byte>): seq<string>
    requires Readable(data)
  {
    NamesOf(data, Headers(data), StringOffset(Headers(data), StringIndex(data)))
  }

  /** The loop over the section headers. */
  method ReadNames(data: seq<Byte>, sections: seq<seq<Byte>>, strOff: nat) returns (r: Result<seq<string>>)
    ensures r == if NamesTerminated(data, sections, strOff) then Ok(NamesOf(data, sections, strOff))
                 else Err(NoTerminator)
  {
    var names: seq<string> := [];
    for i := 0 to |sections|
      invariant |names| == i
      invariant forall j | 0 <= j < i :: Terminated(data, NameOffset(sections, strOff, j))
      invariant forall j | 0 <= j < i :: names[j] == Decode(NameBytes(data, NameOffset(sections, strOff, j)))
    {
      var nameOff := strOff + FromLittle(Slice(sections[i], 0, 4));
      assert nameOff == NameOffset(sections, strOff, i);
      var end := IndexOfNul(data, nameOff);
      if end < 0 {
        return Err(NoTerminator);
      }
      assert Terminated(data, nameOff);
      var name := Slice(data, nameOff, end);
      assert name == NameBytes(data, nameOff);
      names := names + [Decode(name)];
    }
    assert names == NamesOf(data, sections, strOff);
    return Ok(names);
  }

  /** A file cut short right after a matching beginning: indexing byte 4 or 5 fails. */
  predicate CutInIdent(data: seq<Byte>) {
    data == MAGIC || data == MAGIC + [2]
  }

  /** Why a file is not readable. */
  function FailureOf(data: seq<Byte>): Failure
    requires !Readable(data)
  {
    if CutInIdent(data) then IndexError
    else if !HasIdent(data) then NotElf64
    else if StringIndex(data) >= EntryCount(data) then IndexError
    else NoTerminator
  }

  /** What reading a file must give. */
  function Reading(data: seq<Byte>): Result<seq<string>> {
    if Readable(data) then Ok(Leftovers(SectionNames(data))) else Err(FailureOf(data))
  }

  /** unstripped_sections */
  method UnstrippedSections(data: seq<Byte>) returns (r: Result<seq<string>>)
    ensures r == Reading(data)
  {
    if Slice(data, 0, 4) != MAGIC {
      return Err(NotElf64);
    }
    assert data[..4] == MAGIC;
    if |data| <= 4 {
      assert data == MAGIC;
      return Err(IndexError);
    }
    if data[4] != 2 {
      return Err(NotElf64);
    }
    if |data| <= 5 {
      assert data == MAGIC + [2];
      return Err(IndexError);
    }
    if data[5] != 1 {
      return Err(NotElf64);
    }
    var sections := Headers(data);
    var shstrndx := StringIndex(data);
    if shstrndx >= |sections| {
      return Err(IndexError);
    }
    r := ReadNames(data, sections, StringOffset(sections, shstrndx));
    if r.Ok? {
      r := Ok(Leftovers(r.value));
    }
  }
}
