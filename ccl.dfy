/** The CCL colour-set container: a NIFL/REL0 chunked file holding a table of
    costume colour variants, each record seven little-endian 32-bit words.
    `int_to_color` unpacks one of those words, an ARGB-packed colour. */
module Ccl {
  import opened Wrappers

  type byte = x: int | 0 <= x < 0x100
  type u32 = x: int | 0 <= x < 0x1_0000_0000

  // ---------------------------------------------------------------------
  // int_to_color

  /** A colour as `(r, g, b, a)` with components in `[0, 1]`; Python's
      floats are taken as exact reals. */
  datatype Rgba = Rgba(r: real, g: real, b: real, a: real)

  predicate InUnit(x: real) {
    0.0 <= x <= 1.0
  }

  /** `int_to_color`: each channel is `(value >> shift) & 0xFF`, divided by
      255. Python's `>>` floors and `& 0xFF` keeps the low byte, which on
      any integer are Dafny's Euclidean `/` and `%` by powers of two. */
  function IntToColor(value: int): (c: Rgba)
    ensures InUnit(c.r) && InUnit(c.g) && InUnit(c.b) && InUnit(c.a)
  {
    var a := (value / 0x100_0000) % 0x100;
    var r := (value / 0x1_0000) % 0x100;
    var g := (value / 0x100) % 0x100;
    var b := value % 0x100;
    Rgba(r as real / 255.0, g as real / 255.0, b as real / 255.0, a as real / 255.0)
  }

  /** Euclidean division is unique. */
  lemma DivModUnique(q: int, m: int, rem: int)
    requires m > 0 && 0 <= rem < m
    ensures (q * m + rem) / m == q && (q * m + rem) % m == rem
  {
    var t := q * m + rem;
    var d := t / m;
    assert m * (q - d) == t % m - rem;
    MulBound(m, q - d);
  }

  lemma MulBound(m: int, k: int)
    requires m > 0
    ensures k >= 1 ==> m * k >= m
    ensures k <= -1 ==> m * k <= -m
  {
  }

  /** Which bits feed which channel: alpha is bits 24-31, red 16-23, green
      8-15 and blue 0-7, and everything above bit 31 (`hi`) is ignored. */
  lemma IntToColorBytes(hi: int, a: byte, r: byte, g: byte, b: byte)
    ensures IntToColor(hi * 0x1_0000_0000 + a * 0x100_0000 + r * 0x1_0000 + g * 0x100 + b)
            == Rgba(r as real / 255.0, g as real / 255.0, b as real / 255.0, a as real / 255.0)
  {
    var v := hi * 0x1_0000_0000 + a * 0x100_0000 + r * 0x1_0000 + g * 0x100 + b;
    var hiA := hi * 0x100 + a;
    var hiR := hiA * 0x100 + r;
    var hiG := hiR * 0x100 + g;
    assert v == hiA * 0x100_0000 + (r * 0x1_0000 + g * 0x100 + b);
    DivModUnique(hiA, 0x100_0000, r * 0x1_0000 + g * 0x100 + b);
    DivModUnique(hi, 0x100, a);
    assert v == hiR * 0x1_0000 + (g * 0x100 + b);
    DivModUnique(hiR, 0x1_0000, g * 0x100 + b);
    DivModUnique(hiA, 0x100, r);
    assert v == hiG * 0x100 + b;
    DivModUnique(hiG, 0x100, b);
    DivModUnique(hiR, 0x100, g);
  }

  /** `int_to_color(0xFF804020) == (128/255, 64/255, 32/255, 1)`. */
  lemma ExampleColor()
    ensures IntToColor(0xFF80_4020) == Rgba(128.0 / 255.0, 64.0 / 255.0, 32.0 / 255.0, 1.0)
  {
    IntToColorBytes(0, 0xFF, 0x80, 0x40, 0x20);
  }

  // ---------------------------------------------------------------------
  // Records

  /** `Pso2CclColorSet`: a colour-set id and two packed colours per layer. */
  datatype ColorSet = ColorSet(
    id: u32,
    outerwear1: u32, outerwear2: u32,
    basewear1: u32, basewear2: u32,
    innerwear1: u32, innerwear2: u32)
  {
    function OuterwearColors(): (u32, u32) {
      (outerwear1, outerwear2)
    }

    function BasewearColors(): (u32, u32) {
      (basewear1, basewear2)
    }

    function InnerwearColors(): (u32, u32) {
      (innerwear1, innerwear2)
    }
  }

  /** The little-endian 32-bit word at offset `at` (`struct` format `<I`). */
  function UnpackU32(b: seq<byte>, at: nat): u32
    requires at + 4 <= |b|
  {
    b[at] as int + 0x100 * b[at + 1] as int + 0x1_0000 * b[at + 2] as int
    + 0x100_0000 * b[at + 3] as int
  }

  /** `struct.pack("<I", x)`: the inverse of `UnpackU32`. */
  function EncodeU32(x: u32): (w: seq<byte>)
    ensures |w| == 4 && UnpackU32(w, 0) == x
  {
    var q1 := x / 0x100;
    var q2 := q1 / 0x100;
    [x % 0x100, q1 % 0x100, q2 % 0x100, q2 / 0x100]
  }

  /** The record at offset `at`, unpacked with `<IIIIIII`, the words
      assigned in field order; `struct.calcsize` gives it 28 bytes
      (`_COLOR_SIZE`). */
  function UnpackColorSet(b: seq<byte>, at: nat): ColorSet
    requires at + 28 <= |b|
  {
    ColorSet(UnpackU32(b, at), UnpackU32(b, at + 4), UnpackU32(b, at + 8),
             UnpackU32(b, at + 12), UnpackU32(b, at + 16), UnpackU32(b, at + 20),
             UnpackU32(b, at + 24))
  }

  /** A word unpacked from a slice is the word at the slice's offset. */
  lemma UnpackU32Slice(b: seq<byte>, at: nat)
    requires at + 4 <= |b|
    ensures UnpackU32(b[at..at + 4], 0) == UnpackU32(b, at)
  {
  }

  /** A record unpacked from a slice is the record at the slice's offset. */
  lemma UnpackColorSetSlice(b: seq<byte>, at: nat)
    requires at + 28 <= |b|
    ensures UnpackColorSet(b[at..at + 28], 0) == UnpackColorSet(b, at)
  {
  }

  /** A record written back as its seven words. */
  function EncodeColorSet(c: ColorSet): (w: seq<byte>)
    ensures |w| == 28
  {
    EncodeU32(c.id) + EncodeU32(c.outerwear1) + EncodeU32(c.outerwear2)
    + EncodeU32(c.basewear1) + EncodeU32(c.basewear2)
    + EncodeU32(c.innerwear1) + EncodeU32(c.innerwear2)
  }

  /** Unpacking a written record gives it back. */
  lemma ColorSetOfEncode(c: ColorSet)
    ensures UnpackColorSet(EncodeColorSet(c), 0) == c
  {
    var w := EncodeColorSet(c);
    assert w[0..4] == EncodeU32(c.id);
    assert w[4..8] == EncodeU32(c.outerwear1);
    assert w[8..12] == EncodeU32(c.outerwear2);
    assert w[12..16] == EncodeU32(c.basewear1);
    assert w[16..20] == EncodeU32(c.basewear2);
    assert w[20..24] == EncodeU32(c.innerwear1);
    assert w[24..28] == EncodeU32(c.innerwear2);
    UnpackU32Slice(w, 0);
    UnpackU32Slice(w, 4);
    UnpackU32Slice(w, 8);
    UnpackU32Slice(w, 12);
    UnpackU32Slice(w, 16);
    UnpackU32Slice(w, 20);
    UnpackU32Slice(w, 24);
  }

  /** The pair accessors of a written record give its outerwear, basewear
      and innerwear colours, each as (first, second). */
  lemma PairsOfEncode(c: ColorSet)
    ensures UnpackColorSet(EncodeColorSet(c), 0).OuterwearColors() == (c.outerwear1, c.outerwear2)
    ensures UnpackColorSet(EncodeColorSet(c), 0).BasewearColors() == (c.basewear1, c.basewear2)
    ensures UnpackColorSet(EncodeColorSet(c), 0).InnerwearColors() == (c.innerwear1, c.innerwear2)
  {
    ColorSetOfEncode(c);
  }

  // ---------------------------------------------------------------------
  // The record count

  /** Python's `int(x)` on a float: truncation toward zero. */
  function Trunc(x: real): (t: int)
    ensures x >= 0.0 ==> 0 <= t && t as real <= x < t as real + 1.0
    ensures x < 0.0 ==> t <= 0 && t as real - 1.0 < x <= t as real
  {
    if x >= 0.0 then x.Floor else -((-x).Floor)
  }

  /** The data offset from the start of REL0: the tag, four reserved bytes,
      the size field and eight more reserved bytes. */
  const DataOffset: nat := 4 + 4 + 4 + 8

  /** The record count of a REL0 size: the size must be at least the data
      offset and exceed it by a whole number of records. */
  function RecordCount(size: u32): Option<nat> {
    if size >= DataOffset && (size - DataOffset) % 28 == 0 then Some((size - DataOffset) / 28)
    else None
  }

  lemma CountOfExact(size: int, t: int)
    requires 0 <= size
    requires t as real == (size - DataOffset) as real / 28.0
    ensures t >= 0 && DataOffset + 28 * t == size
  {
    assert (size - DataOffset) as real == (28 * t) as real;
  }

  lemma ExactOfCount(size: int)
    requires size >= DataOffset && (size - DataOffset) % 28 == 0
    ensures (size - DataOffset) as real / 28.0 == ((size - DataOffset) / 28) as real
  {
    var m := (size - DataOffset) / 28;
    assert (size - DataOffset) as real == (28 * m) as real;
  }

  /** `array_count = (size - data_offset) / 28` as a float, accepted when
      `int(array_count) == array_count`: that test is the integer one of
      `RecordCount`, and the count it then reads is the same. */
  lemma FloatCountCheck(size: u32)
    ensures var arrayCount := (size - DataOffset) as real / 28.0;
            && (Trunc(arrayCount) as real == arrayCount <==> RecordCount(size).Some?)
            && (RecordCount(size).Some? ==> Trunc(arrayCount) == RecordCount(size).value)
  {
    var arrayCount := (size - DataOffset) as real / 28.0;
    if Trunc(arrayCount) as real == arrayCount {
      CountOfExact(size, Trunc(arrayCount));
    }
    if RecordCount(size).Some? {
      ExactOfCount(size);
    }
  }

  // ---------------------------------------------------------------------
  // The table

  /** `Pso2Ccl`: colour sets by id. */
  datatype Pso2Ccl = Pso2Ccl(sets: map<int, ColorSet>)
  {
    /** `__getitem__`, which is `dict.get`: `None` for an absent id. */
    function Get(key: int): Option<ColorSet> {
      if key in sets then Some(sets[key]) else None
    }
  }

  /** No record after index `i` has the id of record `i`. */
  predicate IsLastWithId(l: seq<ColorSet>, i: nat)
    requires i < |l|
  {
    forall j :: i < j < |l| ==> l[j].id != l[i].id
  }

  /** `Pso2Ccl(sets)`: the comprehension `{item.id: item for item in sets}`,
      inserting in list order. */
  function FromList(l: seq<ColorSet>): Pso2Ccl {
    if l == [] then Pso2Ccl(map[])
    else
      var last := l[|l| - 1];
      Pso2Ccl(FromList(l[..|l| - 1]).sets[last.id := last])
  }

  /** Looking an id up in a table built from a list: `None` iff no record
      has it, otherwise the last record that has it, since a later record
      with the same id replaces an earlier one. */
  lemma {:induction false} GetFromList(l: seq<ColorSet>, key: int)
    ensures FromList(l).Get(key).None? <==> forall i :: 0 <= i < |l| ==> l[i].id != key
    ensures forall i :: 0 <= i < |l| && l[i].id == key && IsLastWithId(l, i) ==>
              FromList(l).Get(key) == Some(l[i])
  {
    if l != [] {
      var init := l[..|l| - 1];
      var last := l[|l| - 1];
      GetFromList(init, key);
      assert forall i :: 0 <= i < |init| ==> init[i] == l[i];
      if last.id != key {
        assert FromList(l).Get(key) == FromList(init).Get(key);
        forall i | 0 <= i < |l| && l[i].id == key && IsLastWithId(l, i)
          ensures FromList(l).Get(key) == Some(l[i])
        {
          assert IsLastWithId(init, i);
        }
      }
    }
  }

  /** A record appended to the list replaces any earlier one with its id. */
  lemma LaterReplaces(l: seq<ColorSet>, c: ColorSet)
    ensures FromList(l + [c]).Get(c.id) == Some(c)
  {
    GetFromList(l + [c], c.id);
    assert (l + [c])[|l|] == c;
  }

  // ---------------------------------------------------------------------
  // The byte stream

  function Min(a: int, b: int): int {
    if a <= b then a else b
  }

  /** What `fp.read(n)` returns at cursor `at` on a file holding `b`: at
      most `n` bytes, fewer at the end of the file, none past it. */
  function Window(b: seq<byte>, at: nat, n: nat): (w: seq<byte>)
    ensures |w| == if at >= |b| then 0 else Min(n, |b| - at)
  {
    if b == [] then []
    else if at == 0 then (if n <= |b| then b[..n] else b)
    else Window(b[1..], at - 1, n)
  }

  /** The window is the slice at the cursor, cut short by the end of the
      file. */
  lemma {:induction false} WindowIs(b: seq<byte>, at: nat, n: nat)
    ensures Window(b, at, n) == if at >= |b| then [] else if at + n <= |b| then b[at..at + n] else b[at..]
  {
    if b != [] && at != 0 {
      WindowIs(b[1..], at - 1, n);
      if at < |b| && at + n <= |b| {
        assert b[1..][at - 1..at - 1 + n] == b[at..at + n];
      } else if at < |b| {
        assert b[1..][at - 1..] == b[at..];
      }
    }
  }

  /** The bytes from cursor `pos` on. */
  function Tail(b: seq<byte>, pos: nat): seq<byte> {
    if pos == 0 || b == [] then b else Tail(b[1..], pos - 1)
  }

  /** The tail is the slice from `pos`, or nothing past the end. */
  lemma {:induction false} TailIs(b: seq<byte>, pos: nat)
    ensures Tail(b, pos) == if pos <= |b| then b[pos..] else []
  {
    if pos != 0 && b != [] {
      TailIs(b[1..], pos - 1);
    }
  }

  /** Reading at an offset from `pos` is reading the tail at that offset. */
  lemma {:induction false} WindowTail(b: seq<byte>, pos: nat, off: nat, n: nat)
    ensures Window(b, pos + off, n) == Window(Tail(b, pos), off, n)
  {
    if pos != 0 && b != [] {
      WindowTail(b[1..], pos - 1, off, n);
    }
  }

  /** A binary file (`BinaryIO`): its contents and a cursor that may lie
      past the end, as `seek` allows. */
  class Stream {
    const data: seq<byte>
    var pos: nat

    constructor (data: seq<byte>)
      ensures this.data == data && pos == 0
    {
      this.data := data;
      pos := 0;
    }

    /** `read(n)`: the bytes under the cursor, which advances past them. */
    method Read(n: nat) returns (chunk: seq<byte>)
      modifies this
      ensures chunk == Window(data, old(pos), n)
      ensures pos == old(pos) + |chunk|
    {
      chunk := Window(data, pos, n);
      pos := pos + |chunk|;
    }

    /** `seek(offset, os.SEEK_CUR)` with a non-negative offset. */
    method Seek(offset: nat)
      modifies this
      ensures pos == old(pos) + offset
    {
      pos := pos + offset;
    }

    /** `tell()`. */
    method Tell() returns (p: nat)
      ensures p == pos
    {
      p := pos;
    }
  }

  // ---------------------------------------------------------------------
  // Decoding

  /** The chunk tags, as ASCII bytes. */
  const Nifl: seq<byte> := [0x4E, 0x49, 0x46, 0x4C]
  const Rel0: seq<byte> := [0x52, 0x45, 0x4C, 0x30]

  /** The four bytes at `at` are `tag`. */
  predicate TagAt(b: seq<byte>, at: nat, tag: seq<byte>) {
    && |tag| == 4 && at + 4 <= |b|
    && b[at] == tag[0] && b[at + 1] == tag[1] && b[at + 2] == tag[2] && b[at + 3] == tag[3]
  }

  /** A four-byte read compares equal to a tag exactly when the tag is
      there: a short read never does. */
  lemma WindowTag(b: seq<byte>, at: nat, tag: seq<byte>)
    requires |tag| == 4
    ensures Window(b, at, 4) == tag <==> TagAt(b, at, tag)
  {
    WindowIs(b, at, 4);
  }

  /** Why `read` failed. `InvalidMagic`, `MissingRel0Header` and
      `CorruptRecordCount` are its three `ValueError`s; `TruncatedInput` is
      the `struct.error` raised when a read comes back short. */
  datatype Error = InvalidMagic | TruncatedInput | MissingRel0Header | CorruptRecordCount

  /** `count` records of 28 bytes from offset `start`, in file order. */
  function Records(b: seq<byte>, start: nat, count: nat): seq<ColorSet>
    requires count == 0 || start + 28 * count <= |b|
  {
    seq(count, i requires 0 <= i < count => UnpackColorSet(b, start + 28 * i))
  }

  /** One more record is the next 28 bytes unpacked. */
  lemma RecordsSnoc(b: seq<byte>, start: nat, count: nat)
    requires start + 28 * (count + 1) <= |b|
    ensures Records(b, start, count + 1) == Records(b, start, count) + [UnpackColorSet(b, start + 28 * count)]
  {
    var u, v := Records(b, start, count + 1), Records(b, start, count);
    assert forall i :: 0 <= i < count ==> u[i] == v[i];
  }

  /** The records part of `read`: `count` records from `dataStart`, or a
      short read somewhere among them. */
  function DecodeRecords(b: seq<byte>, dataStart: nat, count: nat): Result<seq<ColorSet>, Error> {
    if count > 0 && |b| < dataStart + 28 * count then Failure(TruncatedInput)
    else Success(Records(b, dataStart, count))
  }

  /** The part of `read` from the REL0 chunk on. */
  function DecodeRel0(b: seq<byte>, rel0Start: nat): Result<Pso2Ccl, Error> {
    if !TagAt(b, rel0Start, Rel0) then Failure(MissingRel0Header)
    else if |b| < rel0Start + 12 then Failure(TruncatedInput)
    else
      var size := UnpackU32(b, rel0Start + 8);
      match RecordCount(size)
      case None => Failure(CorruptRecordCount)
      case Some(count) =>
        match DecodeRecords(b, rel0Start + DataOffset, count)
        case Failure(e) => Failure(e)
        case Success(sets) => Success(FromList(sets))
  }

  /** `Pso2Ccl.read` on a file whose bytes from the cursor on are `b`. */
  function Decode(b: seq<byte>): Result<Pso2Ccl, Error> {
    if !TagAt(b, 0, Nifl) then Failure(InvalidMagic)
    else if |b| < 8 then Failure(TruncatedInput)
    else DecodeRel0(b, 8 + UnpackU32(b, 4))
  }

  /** Once the REL0 tag and size field are read, the size decides between
      the count error and reading the records. */
  lemma DecodeRel0Steps(b: seq<byte>, p: nat, size: u32)
    requires TagAt(b, p, Rel0) && p + 12 <= |b| && UnpackU32(b, p + 8) == size
    ensures RecordCount(size).None? ==> DecodeRel0(b, p) == Failure(CorruptRecordCount)
    ensures RecordCount(size).Some? ==>
              DecodeRel0(b, p) == match DecodeRecords(b, p + DataOffset, RecordCount(size).value)
                                  case Failure(e) => Failure(e)
                                  case Success(sets) => Success(FromList(sets))
  {
  }

  /** A four-byte read is either short, at the end of the file, or the
      word at the cursor. */
  lemma WordRead(data: seq<byte>, base: nat, at: nat, chunk: seq<byte>)
    requires chunk == Window(data, base + at, 4)
    ensures |chunk| == 4 <==> at + 4 <= |Tail(data, base)|
    ensures |chunk| == 4 ==> UnpackU32(chunk, 0) == UnpackU32(Tail(data, base), at)
  {
    WindowTail(data, base, at, 4);
    WindowIs(Tail(data, base), at, 4);
    if |chunk| == 4 {
      UnpackU32Slice(Tail(data, base), at);
    }
  }

  /** A four-byte read compares equal to a tag exactly when the tag is
      there in the file from `base` on. */
  lemma TagRead(data: seq<byte>, base: nat, at: nat, tag: seq<byte>, chunk: seq<byte>)
    requires |tag| == 4 && chunk == Window(data, base + at, 4)
    ensures chunk == tag <==> TagAt(Tail(data, base), at, tag)
  {
    WindowTail(data, base, at, 4);
    WindowTag(Tail(data, base), at, tag);
  }

  /** One pass of the loop of `read`: a short read of record `i` means the
      records do not fit, and a full one holds record `i`. */
  lemma ReadStep(data: seq<byte>, base: nat, b: seq<byte>, start: nat, count: nat, i: nat,
                 rs: seq<ColorSet>, chunk: seq<byte>)
    requires b == Tail(data, base) && i < count && (i == 0 || start + 28 * i <= |b|)
    requires rs == Records(b, start, i) && chunk == Window(data, base + start + 28 * i, 28)
    ensures |chunk| != 28 ==> DecodeRecords(b, start, count) == Failure(TruncatedInput)
    ensures |chunk| == 28 ==>
              && start + 28 * (i + 1) <= |b|
              && rs + [UnpackColorSet(chunk, 0)] == Records(b, start, i + 1)
  {
    WindowTail(data, base, start + 28 * i, 28);
    WindowIs(b, start + 28 * i, 28);
    if |chunk| == 28 {
      UnpackColorSetSlice(b, start + 28 * i);
      RecordsSnoc(b, start, i);
    }
  }

  /** The loop of `read`: `count` reads of 28 bytes, each unpacked and
      appended; a short read raises. */
  method ReadColorSets(fp: Stream, count: int, ghost b: seq<byte>, ghost base: nat, ghost dataStart: nat)
      returns (r: Result<seq<ColorSet>, Error>)
    requires 0 <= count && b == Tail(fp.data, base) && fp.pos == base + dataStart
    modifies fp
    ensures r == DecodeRecords(b, dataStart, count)
  {
    var colorSets: seq<ColorSet> := [];
    var i := 0;
    while i < count
      invariant 0 <= i <= count
      invariant fp.pos == base + dataStart + 28 * i
      invariant i == 0 || dataStart + 28 * i <= |b|
      invariant colorSets == Records(b, dataStart, i)
    {
      var chunk := fp.Read(28);
      ReadStep(fp.data, base, b, dataStart, count, i, colorSets, chunk);
      if |chunk| != 28 {
        return Failure(TruncatedInput);
      }
      colorSets := colorSets + [UnpackColorSet(chunk, 0)];
      i := i + 1;
    }
    return Success(colorSets);
  }

  /** `read` from the REL0 chunk on, with the cursor at its start. */
  method ReadRel0(fp: Stream, ghost b: seq<byte>, ghost base: nat, ghost rel0: nat)
      returns (r: Result<Pso2Ccl, Error>)
    requires b == Tail(fp.data, base) && fp.pos == base + rel0
    modifies fp
    ensures r == DecodeRel0(b, rel0)
  {
    var rel0Start := fp.Tell();
    var magic := fp.Read(4);
    TagRead(fp.data, base, rel0, Rel0, magic);
    if magic != Rel0 {
      return Failure(MissingRel0Header);
    }
    fp.Seek(4);
    var chunk := fp.Read(4);
    WordRead(fp.data, base, rel0 + 8, chunk);
    if |chunk| != 4 {
      return Failure(TruncatedInput);
    }
    var size := UnpackU32(chunk, 0);
    DecodeRel0Steps(b, rel0, size);
    fp.Seek(8);
    var dataStart := fp.Tell();
    var dataOffset := dataStart - rel0Start;
    assert dataOffset == DataOffset;
    var arrayCount := (size - dataOffset) as real / 28.0;
    FloatCountCheck(size);
    if Trunc(arrayCount) as real != arrayCount {
      return Failure(CorruptRecordCount);
    }
    var count := Trunc(arrayCount);
    var colorSets := ReadColorSets(fp, count, b, base, rel0 + DataOffset);
    if colorSets.Failure? {
      return Failure(colorSets.error);
    }
    return Success(FromList(colorSets.value));
  }

  /** `Pso2Ccl.read(fp)`: the file is decoded from its cursor on. */
  method Read(fp: Stream) returns (r: Result<Pso2Ccl, Error>)
    modifies fp
    ensures r == Decode(Tail(fp.data, old(fp.pos)))
  {
    ghost var base := fp.pos;
    ghost var b := Tail(fp.data, base);
    var magic := fp.Read(4);
    TagRead(fp.data, base, 0, Nifl, magic);
    if magic != Nifl {
      return Failure(InvalidMagic);
    }
    var chunk := fp.Read(4);
    WordRead(fp.data, base, 4, chunk);
    if |chunk| != 4 {
      return Failure(TruncatedInput);
    }
    var size := UnpackU32(chunk, 0);
    DecodeAtRel0(b);
    fp.Seek(size);
    r := ReadRel0(fp, b, base, 8 + size as int);
  }

  // ---------------------------------------------------------------------
  // What decoding accepts

  /** Where the REL0 chunk starts: after the tag, the size field and the
      header it sizes. */
  function Rel0StartOf(b: seq<byte>): nat
    requires |b| >= 8
  {
    8 + UnpackU32(b, 4) as int
  }

  /** The REL0 size field. */
  function Rel0SizeOf(b: seq<byte>): u32
    requires |b| >= 8 && Rel0StartOf(b) + 12 <= |b|
  {
    UnpackU32(b, Rel0StartOf(b) + 8)
  }

  /** A readable container: both tags in place, both size fields present,
      a REL0 size of 20 plus a multiple of 28, and, when it announces any
      record, the bytes to hold them all. */
  predicate WellFormed(b: seq<byte>) {
    && |b| >= 8 && TagAt(b, 0, Nifl)
    && Rel0StartOf(b) + 12 <= |b| && TagAt(b, Rel0StartOf(b), Rel0)
    && Rel0SizeOf(b) >= DataOffset && (Rel0SizeOf(b) - DataOffset) % 28 == 0
    && (Rel0SizeOf(b) == DataOffset || Rel0StartOf(b) + Rel0SizeOf(b) <= |b|)
  }

  /** `read` succeeds exactly on well-formed containers. */
  lemma DecodeSucceedsIff(b: seq<byte>)
    ensures Decode(b).Success? <==> WellFormed(b)
  {
    if |b| >= 8 && TagAt(b, 0, Nifl) {
      var p := Rel0StartOf(b);
      if p + 12 <= |b| && TagAt(b, p, Rel0) {
        var size := Rel0SizeOf(b);
        match RecordCount(size)
        case None =>
        case Some(count) =>
      }
    }
  }

  /** `read` skips the NIFL header once its tag and size are there. */
  lemma DecodeAtRel0(b: seq<byte>)
    requires |b| >= 8 && TagAt(b, 0, Nifl)
    ensures Decode(b) == DecodeRel0(b, 8 + UnpackU32(b, 4))
  {
  }

  /** Past a REL0 header with a valid size and the bytes it announces,
      `read` returns the table of the records that follow the header. */
  lemma DecodeRel0Value(b: seq<byte>, p: nat, count: nat)
    requires TagAt(b, p, Rel0) && p + 12 <= |b|
    requires RecordCount(UnpackU32(b, p + 8)) == Some(count)
    requires count == 0 || p + DataOffset + 28 * count <= |b|
    ensures DecodeRel0(b, p) == Success(FromList(Records(b, p + DataOffset, count)))
  {
  }

  /** On a well-formed container `read` returns the table of the
      `(size - 20) / 28` records that follow the REL0 header. */
  lemma DecodeValue(b: seq<byte>)
    requires WellFormed(b)
    ensures (Rel0SizeOf(b) - DataOffset) / 28 == 0
            || Rel0StartOf(b) + DataOffset + 28 * ((Rel0SizeOf(b) - DataOffset) / 28) <= |b|
    ensures Decode(b) == Success(FromList(Records(b, Rel0StartOf(b) + DataOffset,
                                                  (Rel0SizeOf(b) - DataOffset) / 28)))
  {
    var p := Rel0StartOf(b);
    var size := Rel0SizeOf(b);
    var count := (size - DataOffset) / 28;
    assert size == DataOffset + 28 * count;
    assert count == 0 || p + DataOffset + 28 * count <= |b|;
    assert RecordCount(UnpackU32(b, p + 8)) == Some(count);
    DecodeAtRel0(b);
    DecodeRel0Value(b, p, count);
  }

  /** A word inside the left part of a concatenation. */
  lemma UnpackU32Left(u: seq<byte>, v: seq<byte>, at: nat)
    requires at + 4 <= |u|
    ensures UnpackU32(u + v, at) == UnpackU32(u, at)
  {
  }

  /** A record inside the left part of a concatenation. */
  lemma UnpackColorSetLeft(u: seq<byte>, v: seq<byte>, at: nat)
    requires at + 28 <= |u|
    ensures UnpackColorSet(u + v, at) == UnpackColorSet(u, at)
  {
  }

  /** A record inside the right part of a concatenation. */
  lemma UnpackColorSetRight(u: seq<byte>, v: seq<byte>, at: nat)
    requires at + 28 <= |v|
    ensures UnpackColorSet(u + v, |u| + at) == UnpackColorSet(v, at)
  {
  }

  /** Records inside the left part of a concatenation. */
  lemma RecordsLeft(u: seq<byte>, v: seq<byte>, start: nat, count: nat)
    requires count == 0 || start + 28 * count <= |u|
    ensures Records(u + v, start, count) == Records(u, start, count)
  {
    forall i | 0 <= i < count
      ensures UnpackColorSet(u + v, start + 28 * i) == UnpackColorSet(u, start + 28 * i)
    {
      UnpackColorSetLeft(u, v, start + 28 * i);
    }
  }

  /** Records inside the right part of a concatenation. */
  lemma RecordsRight(u: seq<byte>, v: seq<byte>, start: nat, count: nat)
    requires count == 0 || start + 28 * count <= |v|
    ensures Records(u + v, |u| + start, count) == Records(v, start, count)
  {
    forall i | 0 <= i < count
      ensures UnpackColorSet(u + v, |u| + start + 28 * i) == UnpackColorSet(v, start + 28 * i)
    {
      UnpackColorSetRight(u, v, start + 28 * i);
    }
  }

  /** Bytes after the last record are never read. */
  lemma DecodeIgnoresTrailing(b: seq<byte>, extra: seq<byte>)
    requires Decode(b).Success?
    ensures Decode(b + extra) == Decode(b)
  {
    DecodeSucceedsIff(b);
    DecodeValue(b);
    var c := b + extra;
    var p := Rel0StartOf(b);
    var count := (Rel0SizeOf(b) - DataOffset) / 28;
    UnpackU32Left(b, extra, 4);
    UnpackU32Left(b, extra, p + 8);
    DecodeAtRel0(c);
    DecodeRel0Value(c, p, count);
    RecordsLeft(b, extra, p + DataOffset, count);
  }

  // ---------------------------------------------------------------------
  // Writing a container

  /** The records written one after another. */
  function EncodeRecords(sets: seq<ColorSet>): (w: seq<byte>)
    ensures |w| == 28 * |sets|
  {
    if sets == [] then []
    else EncodeRecords(sets[..|sets| - 1]) + EncodeColorSet(sets[|sets| - 1])
  }

  /** A written record appended to `n` records is read as the next one. */
  lemma RecordsAppend(e: seq<byte>, w: seq<byte>, c: ColorSet, n: nat)
    requires |e| == 28 * n && |w| == 28 && UnpackColorSet(w, 0) == c
    ensures Records(e + w, 0, n + 1) == Records(e, 0, n) + [c]
  {
    RecordsSnoc(e + w, 0, n);
    RecordsLeft(e, w, 0, n);
    UnpackColorSetRight(e, w, 0);
  }

  /** A non-empty sequence is its init followed by its last element. */
  lemma SnocSplit(s: seq<ColorSet>)
    requires s != []
    ensures s == s[..|s| - 1] + [s[|s| - 1]]
  {
  }

  /** Reading back written records gives them in order. */
  lemma {:induction false} RecordsOfEncoding(sets: seq<ColorSet>)
    ensures Records(EncodeRecords(sets), 0, |sets|) == sets
  {
    if sets != [] {
      var n := |sets| - 1;
      RecordsOfEncoding(sets[..n]);
      ColorSetOfEncode(sets[n]);
      RecordsAppend(EncodeRecords(sets[..n]), EncodeColorSet(sets[n]), sets[n], n);
      SnocSplit(sets);
    }
  }

  /** The bytes before the records: the NIFL tag, the header size and the
      header, the REL0 tag, four reserved bytes, the REL0 size (20 plus 28
      per record) and eight more reserved bytes. */
  function EncodePreamble(header: seq<byte>, reserved1: seq<byte>, reserved2: seq<byte>, count: nat)
      : (w: seq<byte>)
    requires |header| < 0x1_0000_0000 && |reserved1| == 4 && |reserved2| == 8
    requires DataOffset + 28 * count < 0x1_0000_0000
    ensures |w| == 8 + |header| + DataOffset
  {
    Nifl + EncodeU32(|header|) + header
    + Rel0 + reserved1 + EncodeU32(DataOffset + 28 * count) + reserved2
  }

  /** A preamble for `count` records: both tags, the header size and a REL0
      size announcing exactly `count` records. */
  predicate IsPreamble(pre: seq<byte>, count: nat) {
    && |pre| >= 8 && TagAt(pre, 0, Nifl)
    && |pre| == 8 + UnpackU32(pre, 4) + DataOffset
    && TagAt(pre, 8 + UnpackU32(pre, 4), Rel0)
    && UnpackU32(pre, 8 + UnpackU32(pre, 4) + 8) == DataOffset + 28 * count
  }

  /** A written preamble is one, whatever the header and reserved bytes. */
  lemma PreambleLayout(header: seq<byte>, reserved1: seq<byte>, reserved2: seq<byte>, count: nat)
    requires |header| < 0x1_0000_0000 && |reserved1| == 4 && |reserved2| == 8
    requires DataOffset + 28 * count < 0x1_0000_0000
    ensures IsPreamble(EncodePreamble(header, reserved1, reserved2, count), count)
  {
    var pre := EncodePreamble(header, reserved1, reserved2, count);
    var p := 8 + |header|;
    assert pre[0..4] == Nifl;
    assert pre[4..8] == EncodeU32(|header|);
    UnpackU32Slice(pre, 4);
    assert pre[p..p + 4] == Rel0;
    assert pre[p + 8..p + 12] == EncodeU32(DataOffset + 28 * count);
    UnpackU32Slice(pre, p + 8);
  }

  /** A REL0 size of 20 plus 28 per record gives that many records. */
  lemma RecordCountOf(count: nat)
    requires DataOffset + 28 * count < 0x1_0000_0000
    ensures RecordCount(DataOffset + 28 * count) == Some(count)
  {
    DivModUnique(count, 28, 0);
  }

  /** A preamble followed by the records it announces is read as their
      table. */
  lemma DecodeOfParts(pre: seq<byte>, e: seq<byte>, sets: seq<ColorSet>)
    requires IsPreamble(pre, |sets|) && |e| == 28 * |sets|
    requires Records(e, 0, |sets|) == sets
    ensures Decode(pre + e) == Success(FromList(sets))
  {
    var b := pre + e;
    var p := 8 + UnpackU32(pre, 4);
    UnpackU32Left(pre, e, 4);
    DecodeAtRel0(b);
    Rel0OfParts(pre, e, sets, p);
  }

  /** The REL0 part of a preamble followed by the records it announces. */
  lemma Rel0OfParts(pre: seq<byte>, e: seq<byte>, sets: seq<ColorSet>, p: nat)
    requires IsPreamble(pre, |sets|) && |e| == 28 * |sets| && p == 8 + UnpackU32(pre, 4)
    requires Records(e, 0, |sets|) == sets
    ensures DecodeRel0(pre + e, p) == Success(FromList(sets))
  {
    var b := pre + e;
    UnpackU32Left(pre, e, p + 8);
    RecordCountOf(|sets|);
    DecodeRel0Value(b, p, |sets|);
    RecordsRight(pre, e, 0, |sets|);
  }

  /** A container holding `sets`. */
  function EncodeContainer(header: seq<byte>, reserved1: seq<byte>, reserved2: seq<byte>,
                           sets: seq<ColorSet>): seq<byte>
    requires |header| < 0x1_0000_0000 && |reserved1| == 4 && |reserved2| == 8
    requires DataOffset + 28 * |sets| < 0x1_0000_0000
  {
    EncodePreamble(header, reserved1, reserved2, |sets|) + EncodeRecords(sets)
  }

  /** Round trip: reading a written container gives the table of its
      records, whatever the header and reserved bytes hold. */
  lemma DecodeEncode(header: seq<byte>, reserved1: seq<byte>, reserved2: seq<byte>,
                     sets: seq<ColorSet>)
    requires |header| < 0x1_0000_0000 && |reserved1| == 4 && |reserved2| == 8
    requires DataOffset + 28 * |sets| < 0x1_0000_0000
    ensures Decode(EncodeContainer(header, reserved1, reserved2, sets)) == Success(FromList(sets))
  {
    PreambleLayout(header, reserved1, reserved2, |sets|);
    RecordsOfEncoding(sets);
    DecodeOfParts(EncodePreamble(header, reserved1, reserved2, |sets|), EncodeRecords(sets), sets);
  }

  /** A file starting with `XXXX` fails at once, whatever follows. */
  lemma ExampleBadMagic(rest: seq<byte>)
    ensures Decode([0x58, 0x58, 0x58, 0x58] + rest) == Failure(InvalidMagic)
  {
    assert ([0x58, 0x58, 0x58, 0x58] + rest)[0..4][0] != Nifl[0];
  }

  /** A REL0 size one byte off a whole number of records is refused. */
  lemma ExampleOffByOne()
    ensures RecordCount(DataOffset + 28 * 2) == Some(2)
    ensures RecordCount(DataOffset + 28 * 2 + 1) == None
    ensures RecordCount(DataOffset - 1) == None
  {
  }
}
