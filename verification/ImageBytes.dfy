/**
  The boot image of mkpimage.c byte by byte: what a boot ROM finds at which place, and what becomes of the input.
 */
module ImageBytes {
  import opened Options
  import opened Crc
  import opened Image

  /** The sum of the bytes from `i` up to `j`. */
  function SumOf(b: seq<Byte>, i: nat, j: nat): nat
    requires i <= j <= |b|
    decreases j
  {
    if i == j then 0 else SumOf(b, i, j - 1) + b[j - 1]
  }

  lemma {:induction false} SumOfSlice(b: seq<Byte>, i: nat, j: nat)
    requires i <= j <= |b|
    ensures Sum(b[i..j]) == SumOf(b, i, j)
    decreases j
  {
    if i < j {
      assert b[i..j][..j - i - 1] == b[i..j - 1];
      SumOfSlice(b, i, j - 1);
    }
  }

  /** The number in two bytes, the low one first. */
  function Two(b: seq<Byte>, i: nat): int
    requires i + 2 <= |b|
  {
    b[i] as int + 0x100 * (b[i + 1] as int)
  }

  function Four(b: seq<Byte>, i: nat): int
    requires i + 4 <= |b|
  {
    b[i] as int + 0x100 * (b[i + 1] as int) + 0x1_0000 * (b[i + 2] as int) + 0x100_0000 * (b[i + 3] as int)
  }

  lemma TwoBytes(b: seq<Byte>, i: nat)
    requires i + 2 <= |b|
    ensures Le(b[i..i + 2]) == Two(b, i)
  {
    var w := b[i..i + 2];
    assert w[1..] == [w[1]] && [w[1]][1..] == [] && Le([w[1]]) == w[1] as nat;
  }

  lemma FourBytes(b: seq<Byte>, i: nat)
    requires i + 4 <= |b|
    ensures Le(b[i..i + 4]) == Four(b, i)
  {
    var w := b[i..i + 4];
    assert w[1..][1..] == w[2..] && w[2..] == [w[2], w[3]] && w[2..][1..] == [w[3]] && [w[3]][1..] == [];
    assert Le([w[3]]) == w[3] as nat;
    assert Le(w[2..]) == w[2] as nat + 256 * (w[3] as nat);
    assert Le(w[1..]) == w[1] as nat + 256 * Le(w[2..]);
  }

  /** `AS01`, the version and no flags. */
  predicate Starts(b: seq<Byte>, version: int)
    requires |b| >= 84
  {
    && b[64] == 0x41 && b[65] == 0x53 && b[66] == 0x30 && b[67] == 0x31
    && b[68] == version && b[69] == 0
  }

  lemma StartBytes(b: seq<Byte>, version: int)
    requires |b| >= 84 && (version == 0 || version == 1) && b[HEADER..HEADER + 6] == HeaderStart(version)
    ensures Starts(b, version)
  {
    var w := b[64..70];
    assert w == [0x41, 0x53, 0x30, 0x31, version, 0];
    assert b[64] == w[0] && b[65] == w[1] && b[66] == w[2] && b[67] == w[3] && b[68] == w[4] && b[69] == w[5];
  }

  /** The last four bytes are the inverted remainder of all bytes before them. */
  ghost predicate EndsWithCrc(b: seq<Byte>)
    requires |b| >= 4
  {
    Four(b, |b| - 4) == Inverted(Divide(0xffff_ffff, b[..|b| - 4]))
  }

  lemma CrcBytes(b: seq<Byte>)
    requires CrcMatches(b)
    ensures EndsWithCrc(b)
  {
    hide Le, Divide, Four;
    FourBytes(b, |b| - 4);
    assert b[|b| - 4..|b| - 4 + 4] == b[|b| - 4..];
  }

  /** The check value of the CRC as it is stored: that of the digits 1 to 9. */
  lemma StoredCheckValue()
    ensures Inverted(Divide(0xffff_ffff, [0x31, 0x32, 0x33, 0x34, 0x35, 0x36, 0x37, 0x38, 0x39])) == 0xfc89_1918
  {
    hide Divide;
    CheckValue();
  }

  /** A version 0 image: length in words, checksum, and a branch to the start at place 76. */
  lemma PlacesV0(b: seq<Byte>, startAddr: int)
    requires ConsistentV0(b, startAddr) && |b| >= 84
    ensures Starts(b, 0) && EndsWithCrc(b)
    ensures 4 * Two(b, 70) == |b| && b[72] == b[73] == 0
    ensures Two(b, 74) == SumOf(b, 64, 74)
    ensures b[79] == 0xea && BranchTarget(b, 76) == Some(startAddr)
  {
    hide Two, Four, Le, Sum, SumOf, CrcMatches, EndsWithCrc, HeaderStart, Starts;
    StartBytes(b, 0);
    CrcBytes(b);
    TwoBytes(b, 70);
    TwoBytes(b, 74);
    SumOfSlice(b, 64, 74);
    assert b[72..74][0] == b[72] && b[72..74][1] == b[73];
  }

  /** A version 1 header: its own length, that of the image in bytes, and the entry as an offset from place 64. */
  lemma PlacesV1(b: seq<Byte>, entry: int)
    requires HeaderV1(b, entry)
    ensures Starts(b, 1) && EndsWithCrc(b)
    ensures Two(b, 70) == 20
    ensures Four(b, 72) == |b|
    ensures 64 + Four(b, 76) == entry
    ensures b[80] == b[81] == 0 && Two(b, 82) == SumOf(b, 64, 82)
  {
    hide Two, Four, Le, Sum, SumOf, CrcMatches, EndsWithCrc, HeaderStart, Starts;
    StartBytes(b, 1);
    CrcBytes(b);
    TwoBytes(b, 70);
    FourBytes(b, 72);
    FourBytes(b, 76);
    TwoBytes(b, 82);
    SumOfSlice(b, 64, 82);
    assert b[80..82][0] == b[80] && b[80..82][1] == b[81];
  }

  /** A branch: the low 24 bits count words from eight bytes behind it, as a signed number. */
  lemma BranchWords(b: seq<Byte>, at: nat, words: int)
    requires at + 4 <= |b| && -0x80_0000 <= words < 0x80_0000
    requires Two(b, at) + 0x1_0000 * (b[at + 2] as int) == (if words < 0 then words + 0x100_0000 else words)
    ensures BranchTarget(b, at) == if b[at + 3] == 0xea then Some(at + 8 + 4 * words) else None
  {
  }

  /** main takes inputs of 80 bytes or more (any with the barebox header) that leave room for 4 bytes of CRC. */
  lemma PlanTaken(inputSize: nat, version: int, barebox: bool)
    requires version == 0 || version == 1
    ensures var front := if barebox then 512 else 0;
            var room := if version == 0 then 61440 else 229376;
            PlanFor(inputSize, version, barebox).Some?
            <==> (barebox || inputSize >= 80) && front + inputSize + 4 <= room
  {
  }

  /** The image is as long as it has to be: front, input and CRC, filled up to whole words. */
  lemma PlanTight(inputSize: nat, version: int, barebox: bool)
    requires (version == 0 || version == 1) && PlanFor(inputSize, version, barebox).Some?
    ensures var p := PlanFor(inputSize, version, barebox).value;
            && p.addsize == (if barebox then 512 else 0) && p.total % 4 == 0
            && p.addsize + inputSize + 4 <= p.total < p.addsize + inputSize + 8
  {
  }

  /** The input stands behind the front, which is the barebox header filled up with zeros, and zeros follow. */
  lemma BodyHolds(input: seq<Byte>, version: int, barebox: bool)
    requires (version == 0 || version == 1) && PlanFor(|input|, version, barebox).Some?
    ensures var p := PlanFor(|input|, version, barebox).value; var b := Body(input, p, barebox);
            && |b| == p.total && b[p.addsize..p.addsize + |input|] == input
            && (forall k :: p.addsize + |input| <= k < |b| ==> b[k] == 0)
            && (barebox ==> b[..80] == BytesOf(BB_WORDS) && forall k :: 80 <= k < 512 ==> b[k] == 0)
  {
    hide BytesOf;
    BareboxStarts();
  }

  lemma {:induction false} WordAt(words: seq<int>, i: nat)
    requires i < |words|
    ensures BytesOf(words)[4 * i..4 * i + 4] == Bytes4(words[i])
  {
    if i > 0 {
      WordAt(words[1..], i - 1);
      assert BytesOf(words)[4..] == BytesOf(words[1..]);
      assert BytesOf(words)[4 * i..4 * i + 4] == BytesOf(words[1..])[4 * (i - 1)..4 * (i - 1) + 4];
    }
  }

  /** The barebox header: seven branches to themselves, `barebox` in letters, zeros, and two branches to place 512. */
  lemma BareboxBytes()
    ensures |BytesOf(BB_WORDS)| == 80
    ensures BytesOf(BB_WORDS)[32..40] == [0x62, 0x61, 0x72, 0x65, 0x62, 0x6f, 0x78, 0]
    ensures forall i :: 1 <= i < 8 ==> BranchTarget(BytesOf(BB_WORDS), 4 * i) == Some(4 * i)
    ensures BranchTarget(BytesOf(BB_WORDS), 0) == BranchTarget(BytesOf(BB_WORDS), 76) == Some(512)
    ensures forall k :: 40 <= k < 76 ==> BytesOf(BB_WORDS)[k] == 0
  {
    hide BytesOf, BranchTarget;
    BareboxStarts();
    BareboxName();
    forall i | 1 <= i < 8 ensures BranchTarget(BytesOf(BB_WORDS), 4 * i) == Some(4 * i) {
      BareboxBranch(i);
    }
    BareboxEnd();
    forall k | 40 <= k < 76 ensures BytesOf(BB_WORDS)[k] == 0 {
      BareboxZero(k);
    }
  }

  lemma StubLength()
    ensures |BytesOf(BB_WORDS)| == 80
  {
    hide BytesOf;
  }

  lemma StubWords()
    ensures |BB_WORDS| == 20 && forall i :: 1 <= i < 8 ==> BB_WORDS[i] == 0xeafffffe
    ensures BB_WORDS[8] == 0x65726162 && BB_WORDS[9] == 0x00786f62 && BB_WORDS[19] == 0xea00006b
    ensures forall i :: 10 <= i < 19 ==> BB_WORDS[i] == 0
  {
  }

  lemma StubBytes()
    ensures Bytes4(0xeafffffe) == [0xfe, 0xff, 0xff, 0xea] && Bytes4(0xea00006b) == [0x6b, 0, 0, 0xea]
    ensures Bytes4(0x65726162) == [0x62, 0x61, 0x72, 0x65] && Bytes4(0x00786f62) == [0x62, 0x6f, 0x78, 0]
    ensures Bytes4(0) == [0, 0, 0, 0]
  {
  }

  lemma BareboxName()
    ensures |BytesOf(BB_WORDS)| == 80
    ensures BytesOf(BB_WORDS)[32..40] == [0x62, 0x61, 0x72, 0x65, 0x62, 0x6f, 0x78, 0]
  {
    hide BytesOf, Bytes4, BB_WORDS;
    StubWords();
    StubBytes();
    StubLength();
    WordAt(BB_WORDS, 8);
    WordAt(BB_WORDS, 9);
    assert BytesOf(BB_WORDS)[32..40] == BytesOf(BB_WORDS)[32..36] + BytesOf(BB_WORDS)[36..40];
  }

  lemma BareboxBranch(i: nat)
    requires 1 <= i < 8
    ensures |BytesOf(BB_WORDS)| == 80 && BranchTarget(BytesOf(BB_WORDS), 4 * i) == Some(4 * i)
  {
    hide BytesOf, BranchTarget, Bytes4, BB_WORDS;
    StubWords();
    StubBytes();
    StubLength();
    WordAt(BB_WORDS, i);
    assert BB_WORDS[i] == 0xeafffffe;
    BranchOf(BytesOf(BB_WORDS), 4 * i, [0xfe, 0xff, 0xff, 0xea], -2);
  }

  lemma BareboxEnd()
    ensures |BytesOf(BB_WORDS)| == 80 && BranchTarget(BytesOf(BB_WORDS), 76) == Some(512)
  {
    hide BytesOf, BranchTarget, Bytes4, BB_WORDS;
    StubWords();
    StubBytes();
    StubLength();
    WordAt(BB_WORDS, 19);
    BranchOf(BytesOf(BB_WORDS), 76, [0x6b, 0, 0, 0xea], 0x6b);
  }

  lemma BareboxZero(k: nat)
    requires 40 <= k < 76
    ensures |BytesOf(BB_WORDS)| == 80 && BytesOf(BB_WORDS)[k] == 0
  {
    hide BytesOf, Bytes4, BB_WORDS;
    StubWords();
    StubBytes();
    StubLength();
    var b, i := BytesOf(BB_WORDS), k / 4;
    WordAt(BB_WORDS, i);
    assert BB_WORDS[i] == 0 && b[4 * i..4 * i + 4] == [0, 0, 0, 0];
    assert b[k] == b[4 * i..4 * i + 4][k - 4 * i];
  }

  lemma BranchOf(b: seq<Byte>, at: nat, w: seq<Byte>, words: int)
    requires at + 4 <= |b| && |w| == 4 && b[at..at + 4] == w && w[3] == 0xea && -0x80_0000 <= words < 0x80_0000
    requires Two(w, 0) + 0x1_0000 * (w[2] as int) == if words < 0 then words + 0x100_0000 else words
    ensures BranchTarget(b, at) == Some(at + 8 + 4 * words)
  {
    assert b[at] == w[0] && b[at + 1] == w[1] && b[at + 2] == w[2] && b[at + 3] == w[3];
  }
}
