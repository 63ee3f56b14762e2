/**
  The boot image written by mkpimage.c: a header inside the image with its own checksum, an ARM branch
  to the start address and a CRC over everything before it. Words are stored low byte first.
 */
module Image {
  import opened Crc
  import opened Options

  const VALIDATION_WORD: int := 0x31305341
  const BRANCH_INST: Byte := 0xea
  const HEADER: nat := 0x40
  const HEADER_SIZE: nat := 20
  const MAX_V0IMAGE_SIZE: int := 60 * 1024 - 4
  const MAX_V1IMAGE_SIZE: int := 224 * 1024 - 4

  /** The number that bytes hold, low byte first. */
  function Le(b: seq<Byte>): nat {
    if b == [] then 0 else b[0] + 256 * Le(b[1..])
  }

  function Bytes2(v: int): (w: seq<Byte>)
    ensures |w| == 2
  {
    [v % 256, v / 256 % 256]
  }

  function Bytes4(v: int): (w: seq<Byte>)
    ensures |w| == 4
  {
    [v % 256, v / 256 % 256, v / 65536 % 256, v / 16777216 % 256]
  }

  lemma LeBytes2(v: int)
    requires 0 <= v < 0x1_0000
    ensures Le(Bytes2(v)) == v
  {
    var b := Bytes2(v);
    assert Le(b[1..]) == v / 256 by {
      assert b[1..] == [b[1]];
    }
  }

  lemma LeBytes4(v: int)
    requires 0 <= v < 0x1_0000_0000
    ensures Le(Bytes4(v)) == v
  {
    var b := Bytes4(v);
    var v1 := v / 256;
    var v2 := v1 / 256;
    var v3 := v2 / 256;
    assert v / 65536 == v2 && v / 16777216 == v3;
    assert b == [v % 256, v1 % 256, v2 % 256, v3];
    assert b[3..] == [b[3]] && Le(b[3..]) == v3;
    assert b[2..][1..] == b[3..] && Le(b[2..]) == v2;
    assert b[1..][1..] == b[2..] && Le(b[1..]) == v1;
  }

  function Sum(b: seq<Byte>): nat {
    if b == [] then 0 else Sum(b[..|b| - 1]) + b[|b| - 1]
  }

  lemma {:induction false} SumBound(b: seq<Byte>)
    ensures Sum(b) <= 255 * |b|
  {
    if b != [] {
      SumBound(b[..|b| - 1]);
    }
  }

  /** The instruction B of the ARM architecture (DDI 0406C, section A8.8.18, encoding A1) with condition "always". */
  function BranchBytes(offset: int): (w: seq<Byte>)
    ensures |w| == 4
  {
    [offset / 4 % 256, offset / 1024 % 256, offset / 262144 % 256, BRANCH_INST]
  }

  /**
    Where a branch at address `at` goes: the program counter reads as eight bytes further, and the low
    24 bits are a signed number of words. None for any other instruction.
   */
  function BranchTarget(b: seq<Byte>, at: nat): Option<int>
    requires at + 4 <= |b|
  {
    var imm24: int := b[at] as int + 256 * (b[at + 1] as int) + 65536 * (b[at + 2] as int);
    var words: int := if imm24 >= 0x80_0000 then imm24 - 0x100_0000 else imm24;
    if b[at + 3] == BRANCH_INST then Some(at + 8 + 4 * words) else None
  }

  /** The low 24 bits of a signed number, byte by byte. */
  lemma LowBytes(q: int)
    requires -0x80_0000 <= q < 0x80_0000
    ensures var offset := 4 * q;
            var low := offset / 4 % 256 + 256 * (offset / 1024 % 256) + 65536 * (offset / 262144 % 256);
            low == if q < 0 then q + 0x100_0000 else q
  {
    var q1 := q / 256;
    var q2 := q1 / 256;
    assert 4 * q / 4 == q && 4 * q / 1024 == q1 && 4 * q / 262144 == q2;
    assert q == 256 * q1 + q % 256 && q1 == 256 * q2 + q1 % 256;
    assert -128 <= q2 < 128;
  }

  /** The branch decodes to the destination it was made for, forwards and backwards up to 32 MiB. */
  lemma BranchReaches(b: seq<Byte>, at: nat, dest: int)
    requires at + 4 <= |b| && (dest - at) % 4 == 0 && -0x200_0000 <= dest - at - 8 < 0x200_0000
    requires Field(b, at, BranchBytes(dest - at - 8))
    ensures BranchTarget(b, at) == Some(dest)
  {
    var q := (dest - at - 8) / 4;
    var w := BranchBytes(dest - at - 8);
    assert b[at] == w[0] && b[at + 1] == w[1] && b[at + 2] == w[2] && b[at + 3] == w[3];
    LowBytes(q);
  }

  predicate Field(b: seq<Byte>, at: nat, w: seq<Byte>) {
    at + |w| <= |b| && forall k :: 0 <= k < |w| ==> b[at + k] == w[k]
  }

  /** Nothing outside the places from `i` to `j` is different. */
  predicate Kept(b: seq<Byte>, b': seq<Byte>, i: nat, j: nat) {
    i <= j <= |b| == |b'| && forall k :: 0 <= k < |b| && !(i <= k < j) ==> b'[k] == b[k]
  }

  lemma FieldKept(b: seq<Byte>, b': seq<Byte>, i: nat, j: nat, at: nat, w: seq<Byte>)
    requires Kept(b, b', i, j) && Field(b, at, w) && (at + |w| <= i || j <= at)
    ensures Field(b', at, w)
  {
  }

  lemma KeptBoth(b: seq<Byte>, b': seq<Byte>, b'': seq<Byte>, i: nat, j: nat, i': nat, j': nat, lo: nat, hi: nat)
    requires Kept(b, b', i, j) && Kept(b', b'', i', j')
    requires lo <= i && lo <= i' && j <= hi && j' <= hi <= |b|
    ensures Kept(b, b'', lo, hi)
  {
  }

  /** A part of a field as a slice of the buffer. */
  lemma Part(b: seq<Byte>, at: nat, w: seq<Byte>, i: nat, j: nat)
    requires Field(b, at, w) && i <= j <= |w|
    ensures b[at + i..at + j] == w[i..j]
  {
    assert forall k :: i <= k < j ==> b[at + k] == w[k];
  }

  lemma Whole(b: seq<Byte>, at: nat, w: seq<Byte>)
    requires Field(b, at, w)
    ensures b[at..at + |w|] == w
  {
    Part(b, at, w, 0, |w|);
  }

  /** Assignments to consecutive bytes. */
  method Write(buf: array<Byte>, at: nat, w: seq<Byte>)
    requires at + |w| <= buf.Length
    modifies buf
    ensures Field(buf[..], at, w) && Kept(old(buf[..]), buf[..], at, at + |w|)
  {
    forall k | 0 <= k < |w| {
      buf[at + k] := w[k];
    }
  }

  /** branch: an instruction at `at` that goes to `dest`. */
  method Branch(buf: array<Byte>, at: nat, dest: int)
    requires at + 4 <= buf.Length
    modifies buf
    ensures Field(buf[..], at, BranchBytes(dest - at - 8)) && Kept(old(buf[..]), buf[..], at, at + 4)
  {
    var offset := dest - at - 8;
    Write(buf, at, BranchBytes(offset));
  }

  /** The running sum of the bytes of the header up to its checksum field. */
  method Checksum(buf: array<Byte>, from: nat, to: nat) returns (sum: nat)
    requires from <= to <= buf.Length
    ensures sum == Sum(buf[from..to])
  {
    sum := 0;
    var p := from;
    while p < to
      invariant from <= p <= to && sum == Sum(buf[from..p])
    {
      assert buf[from..p + 1][..p - from] == buf[from..p];
      sum := sum + buf[p];
      p := p + 1;
    }
  }

  /** The last word: the inverted CRC of everything before it. */
  method AddCrc(buf: array<Byte>)
    requires buf.Length >= 4
    modifies buf
    ensures Kept(old(buf[..]), buf[..], buf.Length - 4, buf.Length) && CrcMatches(buf[..])
  {
    var size := buf.Length;
    var crc := Crc32(0xffff_ffff, buf, size - 4);
    var word := Inverted(crc);
    LeBytes4(word);
    Write(buf, size - 4, Bytes4(word));
    assert buf[..size - 4] == old(buf[..size - 4]);
    assert buf[..][..size - 4] == buf[..size - 4] && buf[..][size - 4..] == Bytes4(word);
  }

  function Inverted(crc: bv32): (word: int)
    ensures 0 <= word < 0x1_0000_0000
  {
    (crc ^ 0xffff_ffff) as int
  }

  /** The trailing word is the inverted remainder of the rest. */
  ghost predicate CrcMatches(b: seq<Byte>) {
    |b| >= 4 && Le(b[|b| - 4..]) == Inverted(Divide(0xffff_ffff, b[..|b| - 4]))
  }

  /** The end of the header and of the trampoline behind it, if there is one. */
  function HeaderEnd(startAddr: int, version: int): nat {
    if version == 0 then HEADER + 16 else if startAddr < HEADER then HEADER + HEADER_SIZE + 4 else HEADER + HEADER_SIZE
  }

  /** The image holds header, trampoline and CRC without overlap. */
  predicate Fits(size: int, startAddr: int, version: int) {
    HeaderEnd(startAddr, version) + 4 <= size
  }

  /** All that is written lies in the image; the CRC may then take the place of the trampoline. */
  predicate Inside(size: int, startAddr: int, version: int) {
    Fits(size, startAddr, version) || (version == 1 && startAddr < HEADER && HeaderEnd(startAddr, 1) == size)
  }

  /** Where a version 1 header sends the boot ROM. */
  function EntryFor(startAddr: int): int {
    if startAddr < HEADER then HEADER + HEADER_SIZE else startAddr
  }

  function HeaderStart(version: int): (w: seq<Byte>)
    requires version == 0 || version == 1
    ensures |w| == 6
  {
    Bytes4(VALIDATION_WORD) + [version, 0]
  }

  /** What the boot ROM checks and follows in a version 0 image. */
  ghost predicate ConsistentV0(b: seq<Byte>, startAddr: int) {
    && |b| >= HEADER + 16
    && b[HEADER..HEADER + 6] == HeaderStart(0)
    && 4 * Le(b[HEADER + 6..HEADER + 8]) == |b|
    && b[HEADER + 8..HEADER + 10] == [0, 0]
    && Le(b[HEADER + 10..HEADER + 12]) == Sum(b[HEADER..HEADER + 10])
    && BranchTarget(b, HEADER + 12) == Some(startAddr)
    && CrcMatches(b)
  }

  /** A version 1 header with the given entry; the entry offset is relative to the header and not negative. */
  ghost predicate HeaderV1(b: seq<Byte>, entry: int) {
    && |b| >= HEADER + HEADER_SIZE
    && b[HEADER..HEADER + 6] == HeaderStart(1)
    && Le(b[HEADER + 6..HEADER + 8]) == HEADER_SIZE
    && Le(b[HEADER + 8..HEADER + 12]) == |b|
    && HEADER + Le(b[HEADER + 12..HEADER + 16]) == entry
    && b[HEADER + 16..HEADER + 18] == [0, 0]
    && Le(b[HEADER + 18..HEADER + 20]) == Sum(b[HEADER..HEADER + 18])
    && CrcMatches(b)
  }

  /** The entry may be a trampoline. */
  ghost predicate ConsistentV1(b: seq<Byte>, startAddr: int) {
    && |b| >= HEADER + HEADER_SIZE
    && var entry := HEADER + Le(b[HEADER + 12..HEADER + 16]);
       HeaderV1(b, entry) && (entry == startAddr || (entry + 4 <= |b| && BranchTarget(b, entry) == Some(startAddr)))
  }

  ghost predicate Consistent(b: seq<Byte>, startAddr: int, version: int) {
    if version == 0 then ConsistentV0(b, startAddr) else ConsistentV1(b, startAddr)
  }

  /** Everything outside the header, its trampoline and the CRC is as it was. */
  ghost predicate Untouched(b: seq<Byte>, b': seq<Byte>, headerEnd: nat) {
    && HEADER <= headerEnd <= |b| == |b'|
    && forall k :: 0 <= k < |b| - 4 && !(HEADER <= k < headerEnd) ==> b'[k] == b[k]
  }

  function StartV0(size: int): (w: seq<Byte>)
    ensures |w| == 10
  {
    HeaderStart(0) + Bytes2(size / 4) + [0, 0]
  }

  function StartV1(size: int, offset: int): (w: seq<Byte>)
    ensures |w| == 18
  {
    HeaderStart(1) + Bytes2(HEADER_SIZE) + Bytes4(size) + Bytes4(offset) + [0, 0]
  }

  /** The fields of a version 0 header make it consistent. */
  lemma FieldsV0(b: seq<Byte>, startAddr: int)
    requires Fits(|b|, startAddr, 0) && |b| % 4 == 0 && |b| < 0x4_0000
    requires startAddr % 4 == 0 && 0 <= startAddr <= |b|
    requires Field(b, HEADER, StartV0(|b|)) && Field(b, HEADER + 12, BranchBytes(startAddr - HEADER - 12 - 8))
    requires Field(b, HEADER + 10, Bytes2(Sum(b[HEADER..HEADER + 10]))) && CrcMatches(b)
    ensures ConsistentV0(b, startAddr)
  {
    hide CrcMatches, Sum, BranchBytes, Le, Bytes2, HeaderStart;
    var w := StartV0(|b|);
    Part(b, HEADER, w, 0, 6);
    Part(b, HEADER, w, 6, 8);
    Part(b, HEADER, w, 8, 10);
    assert w[..6] == HeaderStart(0) && w[6..8] == Bytes2(|b| / 4) && w[8..10] == [0, 0];
    LeBytes2(|b| / 4);
    SumBound(b[HEADER..HEADER + 10]);
    Whole(b, HEADER + 10, Bytes2(Sum(b[HEADER..HEADER + 10])));
    LeBytes2(Sum(b[HEADER..HEADER + 10]));
    BranchReaches(b, HEADER + 12, startAddr);
  }

  /** The same for version 1. */
  lemma FieldsV1(b: seq<Byte>, entry: int)
    requires HEADER + HEADER_SIZE + 4 <= |b| < 0x1_0000_0000 && HEADER <= entry < |b|
    requires Field(b, HEADER, StartV1(|b|, entry - HEADER))
    requires Field(b, HEADER + 18, Bytes2(Sum(b[HEADER..HEADER + 18]))) && CrcMatches(b)
    ensures HeaderV1(b, entry)
  {
    hide CrcMatches, Sum, BranchBytes, Le, Bytes2, Bytes4, HeaderStart, BranchTarget;
    var w := StartV1(|b|, entry - HEADER);
    Part(b, HEADER, w, 0, 6);
    Part(b, HEADER, w, 6, 8);
    Part(b, HEADER, w, 8, 12);
    Part(b, HEADER, w, 12, 16);
    Part(b, HEADER, w, 16, 18);
    assert w[..6] == HeaderStart(1) && w[6..8] == Bytes2(HEADER_SIZE) && w[8..12] == Bytes4(|b|);
    assert w[12..16] == Bytes4(entry - HEADER) && w[16..18] == [0, 0];
    LeBytes2(HEADER_SIZE);
    LeBytes4(|b|);
    LeBytes4(entry - HEADER);
    SumBound(b[HEADER..HEADER + 18]);
    Whole(b, HEADER + 18, Bytes2(Sum(b[HEADER..HEADER + 18])));
    LeBytes2(Sum(b[HEADER..HEADER + 18]));
  }

  method AddHeaderV0(buf: array<Byte>, startAddr: int)
    requires Fits(buf.Length, startAddr, 0) && buf.Length % 4 == 0 && buf.Length < 0x4_0000
    requires startAddr % 4 == 0 && 0 <= startAddr <= buf.Length
    modifies buf
    ensures ConsistentV0(buf[..], startAddr) && Untouched(old(buf[..]), buf[..], HeaderEnd(startAddr, 0))
  {
    hide Field, Kept, CrcMatches, StartV0, BranchBytes, Bytes2, ConsistentV0, Untouched, Sum;
    ghost var b0 := buf[..];
    var start := StartV0(buf.Length);
    Write(buf, HEADER, start);
    ghost var b1 := buf[..];
    Branch(buf, HEADER + 12, startAddr);
    ghost var b2, branch := buf[..], BranchBytes(startAddr - HEADER - 12 - 8);
    FieldKept(b1, b2, HEADER + 12, HEADER + 16, HEADER, start);
    KeptBoth(b0, b1, b2, HEADER, HEADER + 10, HEADER + 12, HEADER + 16, HEADER, HEADER + 16);
    var checksum := Checksum(buf, HEADER, HEADER + 10);
    Write(buf, HEADER + 10, Bytes2(checksum));
    ghost var b3 := buf[..];
    FieldKept(b2, b3, HEADER + 10, HEADER + 12, HEADER, start);
    FieldKept(b2, b3, HEADER + 10, HEADER + 12, HEADER + 12, branch);
    KeptBoth(b0, b2, b3, HEADER, HEADER + 16, HEADER + 10, HEADER + 12, HEADER, HEADER + 16);
    AddCrc(buf);
    ghost var b4, size := buf[..], buf.Length;
    FieldKept(b3, b4, size - 4, size, HEADER, start);
    FieldKept(b3, b4, size - 4, size, HEADER + 12, branch);
    FieldKept(b3, b4, size - 4, size, HEADER + 10, Bytes2(checksum));
    SameSum(b2, b4, HEADER, start);
    FieldsV0(b4, startAddr);
    OnlyHeaderAndCrc(b0, b3, b4, HEADER + 16);
  }

  lemma SameSum(b: seq<Byte>, b': seq<Byte>, at: nat, w: seq<Byte>)
    requires Field(b, at, w) && Field(b', at, w)
    ensures Sum(b[at..at + |w|]) == Sum(b'[at..at + |w|])
  {
    Whole(b, at, w);
    Whole(b', at, w);
  }

  lemma OnlyHeaderAndCrc(b: seq<Byte>, b': seq<Byte>, b'': seq<Byte>, headerEnd: nat)
    requires HEADER <= headerEnd <= |b| && |b| >= 4
    requires Kept(b, b', HEADER, headerEnd) && Kept(b', b'', |b| - 4, |b|)
    ensures Untouched(b, b'', headerEnd)
  {
  }

  /** The entry is the start address itself, or a trampoline behind the header that goes there. */
  predicate Leads(b: seq<Byte>, entry: int, startAddr: int) {
    if startAddr >= HEADER then entry == startAddr
    else entry == HEADER + HEADER_SIZE && Field(b, entry, BranchBytes(startAddr - entry - 8))
  }

  lemma LeadsKept(b: seq<Byte>, b': seq<Byte>, i: nat, j: nat, entry: int, startAddr: int)
    requires Kept(b, b', i, j) && Leads(b, entry, startAddr)
    requires j <= HEADER + HEADER_SIZE || HeaderEnd(startAddr, 1) <= i
    ensures Leads(b', entry, startAddr)
  {
    hide Kept, Field, BranchBytes;
    if startAddr < HEADER {
      FieldKept(b, b', i, j, entry, BranchBytes(startAddr - entry - 8));
    }
  }

  lemma LeadsToStart(b: seq<Byte>, entry: int, startAddr: int)
    requires Leads(b, entry, startAddr) && 0 <= startAddr < |b| && startAddr % 4 == 0
    ensures HEADER <= entry < |b|
    ensures entry == startAddr || (entry + 4 <= |b| && BranchTarget(b, entry) == Some(startAddr))
  {
    hide BranchBytes, BranchTarget;
    if startAddr < HEADER {
      BranchReaches(b, entry, startAddr);
    }
  }

  /** The ROM loader cannot handle a negative offset: a start address before the header gets a trampoline. */
  method Trampoline(buf: array<Byte>, startAddr: int) returns (entry: int)
    requires Inside(buf.Length, startAddr, 1)
    modifies buf
    ensures Leads(buf[..], entry, startAddr) && entry == EntryFor(startAddr)
    ensures Kept(old(buf[..]), buf[..], HEADER, HeaderEnd(startAddr, 1))
  {
    entry := startAddr;
    if startAddr < HEADER {
      entry := HEADER + HEADER_SIZE;
      ghost var b0 := buf[..];
      Branch(buf, entry, startAddr);
      KeptBoth(b0, buf[..], buf[..], entry, entry + 4, entry, entry + 4, HEADER, entry + 4);
    }
  }

  method AddHeaderV1(buf: array<Byte>, startAddr: int)
    requires Inside(buf.Length, startAddr, 1) && buf.Length % 4 == 0 && buf.Length < 0x1_0000_0000
    requires startAddr % 4 == 0 && 0 <= startAddr < buf.Length
    modifies buf
    ensures HeaderV1(buf[..], EntryFor(startAddr)) && Untouched(old(buf[..]), buf[..], HeaderEnd(startAddr, 1))
    ensures ConsistentV1(buf[..], startAddr)
            <==> Fits(buf.Length, startAddr, 1) || BranchTarget(buf[..], EntryFor(startAddr)) == Some(startAddr)
  {
    hide Field, Kept, CrcMatches, StartV1, BranchBytes, Bytes2, HeaderV1, BranchTarget, ConsistentV1, Untouched, Sum,
        Leads;
    ghost var b0, size, end := buf[..], buf.Length, HeaderEnd(startAddr, 1);
    var entry := Trampoline(buf, startAddr);
    ghost var b1 := buf[..];
    var start := StartV1(buf.Length, entry - HEADER);
    Write(buf, HEADER, start);
    ghost var b2 := buf[..];
    LeadsKept(b1, b2, HEADER, HEADER + 18, entry, startAddr);
    KeptBoth(b0, b1, b2, HEADER, end, HEADER, HEADER + 18, HEADER, end);
    var checksum := Checksum(buf, HEADER, HEADER + 18);
    Write(buf, HEADER + 18, Bytes2(checksum));
    ghost var b3 := buf[..];
    FieldKept(b2, b3, HEADER + 18, HEADER + 20, HEADER, start);
    LeadsKept(b2, b3, HEADER + 18, HEADER + 20, entry, startAddr);
    KeptBoth(b0, b2, b3, HEADER, end, HEADER + 18, HEADER + 20, HEADER, end);
    AddCrc(buf);
    ghost var b4 := buf[..];
    FieldKept(b3, b4, size - 4, size, HEADER, start);
    FieldKept(b3, b4, size - 4, size, HEADER + 18, Bytes2(checksum));
    SameSum(b2, b4, HEADER, start);
    FieldsV1(b4, entry);
    OnlyHeaderAndCrc(b0, b3, b4, end);
    if Fits(size, startAddr, 1) {
      LeadsKept(b3, b4, size - 4, size, entry, startAddr);
      LeadsToStart(b4, entry, startAddr);
    }
    ConsistentByEntry(b4, entry, startAddr);
  }

  lemma ConsistentByEntry(b: seq<Byte>, entry: int, startAddr: int)
    requires HeaderV1(b, entry)
    ensures ConsistentV1(b, startAddr)
            <==> entry == startAddr || (entry + 4 <= |b| && BranchTarget(b, entry) == Some(startAddr))
  {
    hide BranchTarget;
  }

  /** add_socfpga_header. */
  method AddHeader(buf: array<Byte>, startAddr: int, version: int) returns (ok: bool)
    requires version == 0 || version == 1
    requires Inside(buf.Length, startAddr, version) && buf.Length < 0x4_0000
    requires startAddr % 4 == 0 && 0 <= startAddr < buf.Length
    modifies buf
    ensures ok <==> buf.Length % 4 == 0
    ensures ok ==>
              && Untouched(old(buf[..]), buf[..], HeaderEnd(startAddr, version))
              && (version == 1 ==> HeaderV1(buf[..], EntryFor(startAddr)))
              && (Consistent(buf[..], startAddr, version)
                  <==> Fits(buf.Length, startAddr, version)
                       || BranchTarget(buf[..], EntryFor(startAddr)) == Some(startAddr))
    ensures !ok ==> buf[..] == old(buf[..])
  {
    if buf.Length % 4 != 0 {
      return false;
    }
    if version == 0 {
      AddHeaderV0(buf, startAddr);
    } else {
      AddHeaderV1(buf, startAddr);
    }
    ok := true;
  }

  /** What main computes from the size of the input: where it goes, and the size of the image. */
  datatype Plan = Plan(addsize: nat, pad: nat, total: nat)

  function PlanFor(inputSize: nat, version: int, barebox: bool): Option<Plan>
    requires version == 0 || version == 1
  {
    var addsize := if barebox then 512 else 0;
    var minSize := if barebox then 0 else 80;
    var maxSize := (if version == 0 then MAX_V0IMAGE_SIZE else MAX_V1IMAGE_SIZE) - addsize;
    if inputSize < minSize || inputSize > maxSize then None
    else
      var pad := if inputSize % 4 == 0 then 0 else 4 - inputSize % 4;
      Some(Plan(addsize, pad, inputSize + 4 + addsize + pad))
  }

  /** The image is a whole number of words and within the limits of the boot ROM. */
  lemma PlanWithinLimits(inputSize: nat, version: int, barebox: bool)
    requires version == 0 || version == 1
    ensures var p := PlanFor(inputSize, version, barebox);
            p.Some? ==>
              && p.value.total % 4 == 0
              && p.value.total <= (if version == 0 then 60 else 224) * 1024
              && p.value.addsize % 4 == 0 && p.value.addsize + inputSize <= p.value.total - 4 && p.value.pad < 4
  {
  }

  /**
    The size checks of main leave room for header, trampoline and CRC in all cases but one: version 1
    without the barebox header needs more than 84 bytes of input, of which only 80 are asked for. From 81 bytes
    on everything is at least inside the image.
   */
  lemma PlanFitsExact(inputSize: nat, version: int, barebox: bool)
    requires version == 0 || version == 1
    requires PlanFor(inputSize, version, barebox).Some?
    ensures var p := PlanFor(inputSize, version, barebox).value;
            && (Fits(p.total, p.addsize, version) <==> version == 0 || barebox || inputSize > 84)
            && (Inside(p.total, p.addsize, version) <==> version == 0 || barebox || inputSize > 80)
  {
  }

  /** bb_header: an image that starts with a branch over 512 bytes. */
  const BB_WORDS: seq<int> := [
    0xea00007e, 0xeafffffe, 0xeafffffe, 0xeafffffe, 0xeafffffe, 0xeafffffe, 0xeafffffe, 0xeafffffe, 0x65726162,
        0x00786f62,
    0, 0, 0, 0, 0, 0, 0, 0, 0, 0xea00006b
  ]

  function BytesOf(words: seq<int>): (b: seq<Byte>)
    ensures |b| == 4 * |words|
  {
    if words == [] then [] else Bytes4(words[0]) + BytesOf(words[1..])
  }

  lemma FirstWord(words: seq<int>)
    requires words != []
    ensures BytesOf(words)[..4] == Bytes4(words[0])
  {
  }

  /** The first instruction of the barebox header goes to the image behind it. */
  lemma BareboxStarts()
    ensures |BytesOf(BB_WORDS)| == 80 && BranchTarget(BytesOf(BB_WORDS), 0) == Some(512)
  {
    hide BytesOf;
    FirstWord(BB_WORDS);
    var b := BytesOf(BB_WORDS);
    assert |BB_WORDS| == 20 && BB_WORDS[0] == 0xea00007e;
    assert b[..4] == [0x7e, 0, 0, 0xea];
    assert b[0] == b[..4][0] && b[1] == b[..4][1] && b[2] == b[..4][2] && b[3] == b[..4][3];
  }

  /** The bytes of the image outside the header: barebox header, input and padding, with nothing behind. */
  ghost function Body(input: seq<Byte>, plan: Plan, barebox: bool): seq<Byte> {
    var zeros := seq(plan.pad + 4, _ => 0);
    var front := seq(plan.addsize, _ => 0);
    var stub := BytesOf(BB_WORDS);
    if barebox && plan.addsize >= |stub| then stub + front[|stub|..] + input + zeros else front + input + zeros
  }

  /** main between reading the input and writing the output; None stands for the error exits. */
  method MakeImage(input: seq<Byte>, version: int, barebox: bool) returns (image: Option<array<Byte>>)
    requires version == 0 || version == 1
    requires !(version == 1 && !barebox && |input| == 80)
    ensures var p := PlanFor(|input|, version, barebox);
            && (image.None? <==> p.None?)
            && (image.Some? ==>
                  && fresh(image.value) && image.value.Length == p.value.total
                  && Untouched(Body(input, p.value, barebox), image.value[..], HeaderEnd(p.value.addsize, version))
                  && (version == 1 ==> HeaderV1(image.value[..], EntryFor(p.value.addsize)))
                  && (Consistent(image.value[..], p.value.addsize, version)
                      <==> version == 0 || barebox || |input| > 84
                           || BranchTarget(image.value[..], HEADER + HEADER_SIZE) == Some(0)))
  {
    hide BytesOf, Consistent, Untouched, HeaderV1, BranchTarget;
    var plan := PlanFor(|input|, version, barebox);
    if plan.None? {
      return None;
    }
    var p := plan.value;
    PlanWithinLimits(|input|, version, barebox);
    PlanFitsExact(|input|, version, barebox);
    var buf := new Byte[p.total](i => 0);
    forall i | 0 <= i < |input| {
      buf[p.addsize + i] := input[i];
    }
    if barebox {
      var stub := BytesOf(BB_WORDS);
      forall i | 0 <= i < |stub| {
        buf[i] := stub[i];
      }
    }
    assert buf[..] == Body(input, p, barebox);
    var ok := AddHeader(buf, p.addsize, version);
    image := Some(buf);
  }
}
