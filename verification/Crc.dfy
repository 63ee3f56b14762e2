/**
  The checksum of mkpimage.c: a CRC computed byte by byte with a table, proved equal to dividing the
  bits of the buffer, most significant first, by the generator polynomial 0x04c11db7.
 */
module Crc {
  type Byte = x: int | 0 <= x < 256

  const POLY: bv32 := 0x04c11db7

  /** crc_table, in rows of eight. */
  function TableRow(r: bv32): seq<bv32>
    requires r < 32
  {
    match r
    case 0 => [0x00000000, 0x04c11db7, 0x09823b6e, 0x0d4326d9, 0x130476dc, 0x17c56b6b, 0x1a864db2, 0x1e475005]
    case 1 => [0x2608edb8, 0x22c9f00f, 0x2f8ad6d6, 0x2b4bcb61, 0x350c9b64, 0x31cd86d3, 0x3c8ea00a, 0x384fbdbd]
    case 2 => [0x4c11db70, 0x48d0c6c7, 0x4593e01e, 0x4152fda9, 0x5f15adac, 0x5bd4b01b, 0x569796c2, 0x52568b75]
    case 3 => [0x6a1936c8, 0x6ed82b7f, 0x639b0da6, 0x675a1011, 0x791d4014, 0x7ddc5da3, 0x709f7b7a, 0x745e66cd]
    case 4 => [0x9823b6e0, 0x9ce2ab57, 0x91a18d8e, 0x95609039, 0x8b27c03c, 0x8fe6dd8b, 0x82a5fb52, 0x8664e6e5]
    case 5 => [0xbe2b5b58, 0xbaea46ef, 0xb7a96036, 0xb3687d81, 0xad2f2d84, 0xa9ee3033, 0xa4ad16ea, 0xa06c0b5d]
    case 6 => [0xd4326d90, 0xd0f37027, 0xddb056fe, 0xd9714b49, 0xc7361b4c, 0xc3f706fb, 0xceb42022, 0xca753d95]
    case 7 => [0xf23a8028, 0xf6fb9d9f, 0xfbb8bb46, 0xff79a6f1, 0xe13ef6f4, 0xe5ffeb43, 0xe8bccd9a, 0xec7dd02d]
    case 8 => [0x34867077, 0x30476dc0, 0x3d044b19, 0x39c556ae, 0x278206ab, 0x23431b1c, 0x2e003dc5, 0x2ac12072]
    case 9 => [0x128e9dcf, 0x164f8078, 0x1b0ca6a1, 0x1fcdbb16, 0x018aeb13, 0x054bf6a4, 0x0808d07d, 0x0cc9cdca]
    case 10 => [0x7897ab07, 0x7c56b6b0, 0x71159069, 0x75d48dde, 0x6b93dddb, 0x6f52c06c, 0x6211e6b5, 0x66d0fb02]
    case 11 => [0x5e9f46bf, 0x5a5e5b08, 0x571d7dd1, 0x53dc6066, 0x4d9b3063, 0x495a2dd4, 0x44190b0d, 0x40d816ba]
    case 12 => [0xaca5c697, 0xa864db20, 0xa527fdf9, 0xa1e6e04e, 0xbfa1b04b, 0xbb60adfc, 0xb6238b25, 0xb2e29692]
    case 13 => [0x8aad2b2f, 0x8e6c3698, 0x832f1041, 0x87ee0df6, 0x99a95df3, 0x9d684044, 0x902b669d, 0x94ea7b2a]
    case 14 => [0xe0b41de7, 0xe4750050, 0xe9362689, 0xedf73b3e, 0xf3b06b3b, 0xf771768c, 0xfa325055, 0xfef34de2]
    case 15 => [0xc6bcf05f, 0xc27dede8, 0xcf3ecb31, 0xcbffd686, 0xd5b88683, 0xd1799b34, 0xdc3abded, 0xd8fba05a]
    case 16 => [0x690ce0ee, 0x6dcdfd59, 0x608edb80, 0x644fc637, 0x7a089632, 0x7ec98b85, 0x738aad5c, 0x774bb0eb]
    case 17 => [0x4f040d56, 0x4bc510e1, 0x46863638, 0x42472b8f, 0x5c007b8a, 0x58c1663d, 0x558240e4, 0x51435d53]
    case 18 => [0x251d3b9e, 0x21dc2629, 0x2c9f00f0, 0x285e1d47, 0x36194d42, 0x32d850f5, 0x3f9b762c, 0x3b5a6b9b]
    case 19 => [0x0315d626, 0x07d4cb91, 0x0a97ed48, 0x0e56f0ff, 0x1011a0fa, 0x14d0bd4d, 0x19939b94, 0x1d528623]
    case 20 => [0xf12f560e, 0xf5ee4bb9, 0xf8ad6d60, 0xfc6c70d7, 0xe22b20d2, 0xe6ea3d65, 0xeba91bbc, 0xef68060b]
    case 21 => [0xd727bbb6, 0xd3e6a601, 0xdea580d8, 0xda649d6f, 0xc423cd6a, 0xc0e2d0dd, 0xcda1f604, 0xc960ebb3]
    case 22 => [0xbd3e8d7e, 0xb9ff90c9, 0xb4bcb610, 0xb07daba7, 0xae3afba2, 0xaafbe615, 0xa7b8c0cc, 0xa379dd7b]
    case 23 => [0x9b3660c6, 0x9ff77d71, 0x92b45ba8, 0x9675461f, 0x8832161a, 0x8cf30bad, 0x81b02d74, 0x857130c3]
    case 24 => [0x5d8a9099, 0x594b8d2e, 0x5408abf7, 0x50c9b640, 0x4e8ee645, 0x4a4ffbf2, 0x470cdd2b, 0x43cdc09c]
    case 25 => [0x7b827d21, 0x7f436096, 0x7200464f, 0x76c15bf8, 0x68860bfd, 0x6c47164a, 0x61043093, 0x65c52d24]
    case 26 => [0x119b4be9, 0x155a565e, 0x18197087, 0x1cd86d30, 0x029f3d35, 0x065e2082, 0x0b1d065b, 0x0fdc1bec]
    case 27 => [0x3793a651, 0x3352bbe6, 0x3e119d3f, 0x3ad08088, 0x2497d08d, 0x2056cd3a, 0x2d15ebe3, 0x29d4f654]
    case 28 => [0xc5a92679, 0xc1683bce, 0xcc2b1d17, 0xc8ea00a0, 0xd6ad50a5, 0xd26c4d12, 0xdf2f6bcb, 0xdbee767c]
    case 29 => [0xe3a1cbc1, 0xe760d676, 0xea23f0af, 0xeee2ed18, 0xf0a5bd1d, 0xf464a0aa, 0xf9278673, 0xfde69bc4]
    case 30 => [0x89b8fd09, 0x8d79e0be, 0x803ac667, 0x84fbdbd0, 0x9abc8bd5, 0x9e7d9662, 0x933eb0bb, 0x97ffad0c]
    case _ => [0xafb010b1, 0xab710d06, 0xa6322bdf, 0xa2f33668, 0xbcb4666d, 0xb8757bda, 0xb5365d03, 0xb1f740b4]
  }

  /** Addition of polynomials over the field of two elements. */
  function Plus(a: bv32, b: bv32): bv32 {
    a ^ b
  }

  function Up(c: bv32): bv32 {
    c << 1
  }

  /** A byte at the top of a word. */
  function AtTop(b: bv32): bv32 {
    b << 24
  }

  predicate TopBit(c: bv32) {
    c & 0x8000_0000 != 0
  }

  /** One step of the division: shift out the top bit and subtract the divisor if it was set. */
  function Shift(c: bv32): bv32 {
    if TopBit(c) then Plus(Up(c), POLY) else Up(c)
  }

  function Shift8(c: bv32): bv32 {
    Shift(Shift(Shift(Shift(Shift(Shift(Shift(Shift(c))))))))
  }

  /** Eight consecutive entries of the table, computed. */
  function Row(first: bv32): seq<bv32> {
    [Shift8(first), Shift8(first + 0x0100_0000), Shift8(first + 0x0200_0000), Shift8(first + 0x0300_0000),
     Shift8(first + 0x0400_0000), Shift8(first + 0x0500_0000), Shift8(first + 0x0600_0000), Shift8(first + 0x0700_0000)]
  }


  lemma Rows0(r: bv32)
    requires 0 <= r < 4
    ensures TableRow(r) == Row(r << 27)
  {
  }

  lemma Rows4(r: bv32)
    requires 4 <= r < 8
    ensures TableRow(r) == Row(r << 27)
  {
  }

  lemma Rows8(r: bv32)
    requires 8 <= r < 12
    ensures TableRow(r) == Row(r << 27)
  {
  }

  lemma Rows12(r: bv32)
    requires 12 <= r < 16
    ensures TableRow(r) == Row(r << 27)
  {
  }

  lemma Rows16(r: bv32)
    requires 16 <= r < 20
    ensures TableRow(r) == Row(r << 27)
  {
  }

  lemma Rows20(r: bv32)
    requires 20 <= r < 24
    ensures TableRow(r) == Row(r << 27)
  {
  }

  lemma Rows24(r: bv32)
    requires 24 <= r < 28
    ensures TableRow(r) == Row(r << 27)
  {
  }

  lemma Rows28(r: bv32)
    requires 28 <= r < 32
    ensures TableRow(r) == Row(r << 27)
  {
  }

  lemma RowCorrect(r: bv32)
    requires r < 32
    ensures TableRow(r) == Row(r << 27)
  {
    hide TableRow, Row;
    if r < 4 { Rows0(r); } else if r < 8 { Rows4(r); } else if r < 12 { Rows8(r); } else if r < 16 { Rows12(r); }
    else if r < 20 { Rows16(r); } else if r < 24 { Rows20(r); } else if r < 28 { Rows24(r); } else { Rows28(r); }
  }

  /** crc_table[i]. */
  function Lookup(i: bv32): bv32
    requires i < 256
  {
    assert i >> 3 < 32;
    RowCorrect(i >> 3);
    TableRow(i >> 3)[(i & 7) as int]
  }

  lemma Indices(k: bv32)
    requires k < 8
    ensures 0 <= k as int < 8
    ensures k == 0 || k == 1 || k == 2 || k == 3 || k == 4 || k == 5 || k == 6 || k == 7
  {
  }

  /** Every entry of the table is eight shift steps of its index. */
  lemma LookupCorrect(i: bv32)
    requires i < 256
    ensures Lookup(i) == Shift8(AtTop(i))
  {
    hide TableRow, Shift8;
    RowCorrect(i >> 3);
    var k := i & 7;
    Indices(k);
    assert ((i >> 3) << 27) + (k << 24) == i << 24;
  }

  lemma TopBitPlus(x: bv32, y: bv32)
    ensures TopBit(Plus(x, y)) == (TopBit(x) != TopBit(y))
  {
  }

  lemma UpPlus(x: bv32, y: bv32)
    ensures Up(Plus(x, y)) == Plus(Up(x), Up(y))
  {
  }

  lemma PlusCommutes(a: bv32, b: bv32)
    ensures Plus(a, b) == Plus(b, a)
  {
  }

  lemma PlusAssociates(a: bv32, b: bv32, c: bv32)
    ensures Plus(Plus(a, b), c) == Plus(a, Plus(b, c))
  {
  }

  lemma PlusCancels(a: bv32)
    ensures Plus(a, a) == 0 && Plus(a, 0) == a
  {
  }

  /** The divisor, once or twice in a sum of two. */
  lemma PlusLaws(a: bv32, b: bv32, c: bv32)
    ensures Plus(Plus(a, b), c) == Plus(Plus(a, c), b) == Plus(a, Plus(b, c))
    ensures Plus(Plus(a, c), Plus(b, c)) == Plus(a, b)
  {
    hide Plus;
    PlusAssociates(a, b, c);
    PlusAssociates(a, c, b);
    PlusCommutes(b, c);
    var bc := Plus(b, c);
    PlusAssociates(a, c, bc);
    PlusCommutes(c, bc);
    PlusAssociates(b, c, c);
    PlusCancels(c);
    PlusCancels(b);
  }

  lemma ShiftLinear(x: bv32, y: bv32)
    ensures Shift(Plus(x, y)) == Plus(Shift(x), Shift(y))
  {
    hide TopBit, Plus, Up;
    TopBitPlus(x, y);
    UpPlus(x, y);
    PlusLaws(Up(x), Up(y), POLY);
  }

  lemma Shift8Linear(x: bv32, y: bv32)
    ensures Shift8(Plus(x, y)) == Plus(Shift8(x), Shift8(y))
  {
    hide Shift, Plus;
    var x1, y1 := Shift(x), Shift(y);
    var x2, y2 := Shift(x1), Shift(y1);
    var x3, y3 := Shift(x2), Shift(y2);
    var x4, y4 := Shift(x3), Shift(y3);
    var x5, y5 := Shift(x4), Shift(y4);
    var x6, y6 := Shift(x5), Shift(y5);
    var x7, y7 := Shift(x6), Shift(y6);
    ShiftLinear(x, y);
    ShiftLinear(x1, y1);
    ShiftLinear(x2, y2);
    ShiftLinear(x3, y3);
    ShiftLinear(x4, y4);
    ShiftLinear(x5, y5);
    ShiftLinear(x6, y6);
    ShiftLinear(x7, y7);
  }

  function Up8(c: bv32): bv32 {
    c << 8
  }

  /** The low bits are only shifted: none of them reaches the top in eight steps. */
  lemma Shift8Low(x: bv32)
    requires x < 0x0100_0000
    ensures Shift8(x) == Up8(x)
  {
  }

  /** The table index for a byte. */
  function Index(crc: bv32, b: bv32): (i: bv32)
    requires b < 256
    ensures i < 256
  {
    ((crc >> 24) ^ b) & 0xff
  }

  /** One round of crc32 for a byte. */
  function Update(crc: bv32, b: bv32): bv32
    requires b < 256
  {
    Plus(Up8(crc), Lookup(Index(crc, b)))
  }

  function Low(crc: bv32): (low: bv32)
    ensures low < 0x0100_0000 && Up8(low) == Up8(crc)
  {
    crc & 0x00ff_ffff
  }

  /** The byte meets the top of the remainder; the rest of it is only shifted. */
  lemma TopAndRest(crc: bv32, b: bv32)
    requires b < 256
    ensures Plus(crc, AtTop(b)) == Plus(Low(crc), AtTop(Index(crc, b)))
  {
  }

  /** A table step is eight steps of the division after adding the byte to the top of the remainder. */
  lemma UpdateIsShift8(crc: bv32, b: bv32)
    requires b < 256
    ensures Update(crc, b) == Shift8(Plus(crc, AtTop(b)))
  {
    hide Lookup, Shift8, Index, Low, Plus, AtTop, Up8;
    LookupCorrect(Index(crc, b));
    TopAndRest(crc, b);
    Shift8Low(Low(crc));
    Shift8Linear(Low(crc), AtTop(Index(crc, b)));
  }

  /** Bit-at-a-time division: the next bit of the message meets the bit that is shifted out. */
  function Feed(crc: bv32, bit: bool): bv32 {
    if TopBit(crc) != bit then Plus(Up(crc), POLY) else Up(crc)
  }

  lemma FeedIsShift(crc: bv32, w: bv32)
    ensures Shift(Plus(crc, w)) == Plus(Feed(crc, TopBit(w)), Up(w))
  {
    hide TopBit, Plus, Up;
    TopBitPlus(crc, w);
    UpPlus(crc, w);
    PlusLaws(Up(crc), Up(w), POLY);
  }

  function ShiftN(c: bv32, n: nat): bv32
    decreases n
  {
    if n == 0 then c else ShiftN(Shift(c), n - 1)
  }

  function Left(w: bv32, n: nat): bv32
    decreases n
  {
    if n == 0 then w else Left(Up(w), n - 1)
  }

  /** Feeding the first `n` bits of a word, most significant first. */
  function FeedBits(crc: bv32, w: bv32, n: nat): bv32
    decreases n
  {
    if n == 0 then crc else FeedBits(Feed(crc, TopBit(w)), Up(w), n - 1)
  }

  /** Feeding bit by bit is shifting a remainder to which the word has been added at once. */
  lemma {:induction false} FeedBitsIsShift(crc: bv32, w: bv32, n: nat)
    ensures ShiftN(Plus(crc, w), n) == Plus(FeedBits(crc, w, n), Left(w, n))
    decreases n
  {
    hide Shift, Feed, Plus, Up, TopBit;
    if n > 0 {
      FeedIsShift(crc, w);
      FeedBitsIsShift(Feed(crc, TopBit(w)), Up(w), n - 1);
    }
  }

  lemma ShiftEight(c: bv32)
    ensures ShiftN(c, 8) == Shift8(c)
  {
    hide Shift;
    assert ShiftN(c, 8) == ShiftN(Shift(Shift(Shift(c))), 5) == ShiftN(Shift(Shift(Shift(Shift(Shift(Shift(c)))))), 2);
  }

  lemma ByteGone(b: bv32)
    requires b < 256
    ensures Left(AtTop(b), 8) == 0
  {
    var w := AtTop(b);
    assert Left(w, 8) == Left(w << 3, 5) == Left(w << 6, 2) == Left(w << 8, 0);
  }

  /** The bits of a byte, most significant first. */
  function FeedByte(crc: bv32, b: bv32): bv32 {
    FeedBits(crc, AtTop(b), 8)
  }

  /** Feeding the bits of a byte is one round of the table-driven loop. */
  lemma FeedByteIsUpdate(crc: bv32, b: bv32)
    requires b < 256
    ensures FeedByte(crc, b) == Update(crc, b)
  {
    hide Update, Feed, Shift, Shift8, ShiftN, FeedBits, Plus, AtTop, Left;
    UpdateIsShift8(crc, b);
    ShiftEight(Plus(crc, AtTop(b)));
    FeedBitsIsShift(crc, AtTop(b), 8);
    ByteGone(b);
    PlusCancels(FeedByte(crc, b));
  }

  function Word(b: Byte): (w: bv32)
    ensures w < 256
  {
    b as bv32
  }

  /** The remainder after dividing the bits of a buffer, starting from a given remainder. */
  function Divide(start: bv32, buf: seq<Byte>): bv32 {
    if buf == [] then start else FeedByte(Divide(start, buf[..|buf| - 1]), Word(buf[|buf| - 1]))
  }

  /** crc32: table-driven, and for every buffer and start value the remainder of the bitwise division. */
  method Crc32(start: bv32, buf: array<Byte>, length: nat) returns (crc: bv32)
    requires length <= buf.Length
    ensures crc == Divide(start, buf[..length])
  {
    hide Update, FeedByte, Word;
    crc := start;
    var i := 0;
    while i < length
      invariant 0 <= i <= length && crc == Divide(start, buf[..i])
    {
      var b := Word(buf[i]);
      assert buf[..i + 1][..i] == buf[..i];
      FeedByteIsUpdate(crc, b);
      crc := Update(crc, b);
      i := i + 1;
    }
  }

  /** One byte, by eight steps of the division. */
  lemma FedByte(crc: bv32, b: bv32, crc': bv32)
    requires b < 256 && Shift8(Plus(crc, AtTop(b))) == crc'
    ensures FeedByte(crc, b) == crc'
  {
    hide Update, FeedByte, Shift8;
    FeedByteIsUpdate(crc, b);
    UpdateIsShift8(crc, b);
  }

  lemma CheckBytes1()
    ensures FeedByte(0xffffffff, 0x31) == 0x9efbcf93
    ensures FeedByte(0x9efbcf93, 0x32) == 0x3fec5e6a
    ensures FeedByte(0x3fec5e6a, 0x33) == 0xd952f164
  {
    hide Update, FeedByte;
    FedByte(0xffffffff, 0x31, 0x9efbcf93);
    FedByte(0x9efbcf93, 0x32, 0x3fec5e6a);
    FedByte(0x3fec5e6a, 0x33, 0xd952f164);
  }

  lemma CheckBytes2()
    ensures FeedByte(0xd952f164, 0x34) == 0xa695c4aa
    ensures FeedByte(0xa695c4aa, 0x35) == 0xbd9ab747
    ensures FeedByte(0xbd9ab747, 0x36) == 0xd8f06c8f
  {
    hide Update, FeedByte;
    FedByte(0xd952f164, 0x34, 0xa695c4aa);
    FedByte(0xa695c4aa, 0x35, 0xbd9ab747);
    FedByte(0xbd9ab747, 0x36, 0xd8f06c8f);
  }

  lemma CheckBytes3()
    ensures FeedByte(0xd8f06c8f, 0x37) == 0x0d8a14c4
    ensures FeedByte(0x0d8a14c4, 0x38) == 0x49e3c2fb
    ensures FeedByte(0x49e3c2fb, 0x39) == 0x0376e6e7
  {
    hide Update, FeedByte;
    FedByte(0xd8f06c8f, 0x37, 0x0d8a14c4);
    FedByte(0x0d8a14c4, 0x38, 0x49e3c2fb);
    FedByte(0x49e3c2fb, 0x39, 0x0376e6e7);
  }

  const DIGITS: seq<Byte> := [0x31, 0x32, 0x33, 0x34, 0x35, 0x36, 0x37, 0x38, 0x39]

  lemma DigitWords()
    ensures Word(0x31) == 0x31
    ensures Word(0x32) == 0x32
    ensures Word(0x33) == 0x33
    ensures Word(0x34) == 0x34
    ensures Word(0x35) == 0x35
    ensures Word(0x36) == 0x36
    ensures Word(0x37) == 0x37
    ensures Word(0x38) == 0x38
    ensures Word(0x39) == 0x39
  {
  }

  lemma DividedTo(buf: seq<Byte>, i: nat, crc: bv32, b: bv32, crc': bv32)
    requires i < |buf| && Divide(0xffff_ffff, buf[..i]) == crc && Word(buf[i]) == b && FeedByte(crc, b) == crc'
    ensures Divide(0xffff_ffff, buf[..i + 1]) == crc'
  {
    hide FeedByte, Word;
    assert buf[..i + 1][..i] == buf[..i];
  }

  /** The check value: the remainder of the digits 1 to 9, as the catalogues of CRCs give it. */
  lemma CheckValue()
    ensures Divide(0xffff_ffff, [0x31, 0x32, 0x33, 0x34, 0x35, 0x36, 0x37, 0x38, 0x39]) == 0x0376_e6e7
  {
    hide FeedByte, Word, Divide;
    CheckBytes1();
    CheckBytes2();
    CheckBytes3();
    DigitWords();
    assert DIGITS[..0] == [] && Divide(0xffff_ffff, []) == 0xffff_ffff by {
      DividedNothing();
    }
    DividedTo(DIGITS, 0, 0xffffffff, 0x31, 0x9efbcf93);
    DividedTo(DIGITS, 1, 0x9efbcf93, 0x32, 0x3fec5e6a);
    DividedTo(DIGITS, 2, 0x3fec5e6a, 0x33, 0xd952f164);
    DividedTo(DIGITS, 3, 0xd952f164, 0x34, 0xa695c4aa);
    DividedTo(DIGITS, 4, 0xa695c4aa, 0x35, 0xbd9ab747);
    DividedTo(DIGITS, 5, 0xbd9ab747, 0x36, 0xd8f06c8f);
    DividedTo(DIGITS, 6, 0xd8f06c8f, 0x37, 0x0d8a14c4);
    DividedTo(DIGITS, 7, 0x0d8a14c4, 0x38, 0x49e3c2fb);
    DividedTo(DIGITS, 8, 0x49e3c2fb, 0x39, 0x0376e6e7);
    assert DIGITS[..9] == DIGITS;
  }

  lemma DividedNothing()
    ensures Divide(0xffff_ffff, []) == 0xffff_ffff
  {
  }
}
