/** Packed pixels of an OpenVRML `image`: how the component bytes of one
    pixel travel to and from a 32-bit word (`int32`, modelled as `bv32`).

    Three encodings appear here:
    - `Unpack(v, comp)`: the bytes `image::pixel(index, value)` stores, the
      most significant of the low `comp` bytes of `v` first;
    - `ReadAsWritten(s)`: the word `image::pixel(index)` builds from the
      stored bytes as its loop is written (byte `j` of `comp` shifted left
      by `8 * (comp - j)` bits);
    - `Pack(s)`: the intended inverse of `Unpack` (byte `j` shifted left by
      `8 * (comp - 1 - j)` bits), with both round trips proved.
    The as-written reader is `Pack` shifted one byte further to the left.

    A shift by 32 bits or more is undefined in C++; it happens in the reader
    for the first byte of a four-component pixel. The model takes such a
    term as 0, the value `bv32` gives it.

    The facts about bits are proved for each byte position separately, in
    small lemmas over free variables; the lemmas about byte sequences only
    combine them. Two of these, `FitsStep` and `ShiftKeepsLowThree`, state
    their hypothesis inside the `ensures`, so that the bit reasoning stays
    in the lemma and out of the proof that calls it. */
module Packing {

  type Byte = bv8
  type Word = bv32

  /** Byte `b` placed `k` bytes up in a word: `b << 8 * k`, and 0 from four
      bytes on. */
  function Place(b: Byte, k: nat): Word
  {
    if k == 0 then b as Word else Place(b, k - 1) << 8
  }

  /** The `k`-th least significant byte of `v`: `(v >> 8 * k) & 0xff`, and 0
      from four bytes on. */
  function ByteOf(v: Word, k: nat): Byte
  {
    if k == 0 then (v & 0xFF) as Byte else ByteOf(v >> 8, k - 1)
  }

  /** The low `comp` bytes of a word set, the others clear. */
  function LowMask(comp: nat): Word
  {
    if comp == 0 then 0 else (LowMask(comp - 1) << 8) | 0xFF
  }

  /** The OR, over the positions `j` of `s`, of `s[j]` placed `top - j`
      bytes up: what a loop accumulates when it walks `s` front to back
      while a byte counter starting at `top` counts down. */
  function Assemble(s: seq<Byte>, top: nat): Word
    requires |s| <= top + 1
    decreases |s|
  {
    if s == [] then 0
    else Assemble(s[..|s| - 1], top) | Place(s[|s| - 1], top - (|s| - 1))
  }

  /** The word `image::pixel(index)` returns for the component bytes `s` of
      one pixel: its counter starts at `comp == |s|`, so the last byte lands
      in bits 8..15 and, with four components, the first is shifted by 32,
      which C++ leaves undefined and this model takes as 0. */
  function ReadAsWritten(s: seq<Byte>): Word
  {
    Assemble(s, |s|)
  }

  /** The packed word the bytes `s` stand for: the last byte in bits 0..7,
      each earlier one a byte further up. */
  function Pack(s: seq<Byte>): Word
  {
    if s == [] then 0 else Assemble(s, |s| - 1)
  }

  /** The `comp` bytes `image::pixel(index, value)` stores for `v`: the
      low `comp` bytes of `v`, most significant first. */
  function Unpack(v: Word, comp: nat): (r: seq<Byte>)
    ensures |r| == comp
  {
    if comp == 0 then [] else Unpack(v >> 8, comp - 1) + [(v & 0xFF) as Byte]
  }

  // Facts about bits, over free variables.

  /** Placing a byte one position further up shifts it by a byte. */
  lemma PlaceUp(b: Byte, k: nat)
    ensures Place(b, k + 1) == Place(b, k) << 8
  {
  }

  /** Byte `k + 1` of `v` is byte `k` of `v` shifted down a byte. */
  lemma ByteOfDown(v: Word, k: nat)
    ensures ByteOf(v >> 8, k) == ByteOf(v, k + 1)
  {
  }

  /** A byte shift distributes over OR. */
  lemma OrShift(x: Word, y: Word)
    ensures (x | y) << 8 == (x << 8) | (y << 8)
  {
  }

  /** Packing one byte below nothing gives that byte. */
  lemma PackOne(b: Byte)
    ensures 0 | (b as Word) == ((0 as Word) << 8) | (b as Word)
  {
  }

  /** Splitting a word into its low byte and the rest, within a mask one
      byte wider than `m`. */
  lemma MaskStep(v: Word, m: Word)
    ensures (((v >> 8) & m) << 8) | ((v & 0xFF) as Byte as Word) == v & ((m << 8) | 0xFF)
  {
  }

  /** Shifting in a byte below a word within `m` gives a word within the
      mask one byte wider. */
  lemma FitsStep(x: Word, b: Byte, m: Word)
    ensures x & m == x ==> ((x << 8) | (b as Word)) & ((m << 8) | 0xFF) == (x << 8) | (b as Word)
  {
  }

  /** Shifting in a byte below a word that leaves the top byte clear loses
      nothing: shifting back down gives the word, the low byte the byte. */
  lemma TakeBackStep(x: Word, b: Byte)
    requires x & 0xFF00_0000 == 0
    ensures ((x << 8) | (b as Word)) >> 8 == x && ((((x << 8) | (b as Word)) & 0xFF) as Byte) == b
  {
  }

  /** Two words that leave the top byte clear and agree after a byte shift
      are equal. */
  lemma ShiftKeepsLowThree(x: Word, y: Word)
    ensures x & 0xFF00_0000 == 0 && y & 0xFF00_0000 == 0 && x << 8 == y << 8 ==> x == y
  {
  }

  /** A word within a mask of at most three bytes leaves the top byte
      clear. */
  lemma BelowTop(x: Word, comp: nat)
    requires comp <= 3 && x & LowMask(comp) == x
    ensures x & 0xFF00_0000 == 0
  {
    if comp == 0 {
      assert LowMask(comp) == 0;
    } else if comp == 1 {
      assert LowMask(comp) == 0xFF;
    } else if comp == 2 {
      assert LowMask(comp) == 0xFFFF;
    } else {
      assert LowMask(comp) == 0xFF_FFFF;
    }
  }

  // The shifts of the source.

  /** `Place` is the shift the reader writes, `int32(byte) << 8 * k`, for
      every counter value it uses; from four bytes up the byte is gone. */
  lemma PlaceShifts(b: Byte)
    ensures Place(b, 0) == b as Word
    ensures Place(b, 1) == (b as Word) << 8
    ensures Place(b, 2) == (b as Word) << 16
    ensures Place(b, 3) == (b as Word) << 24
    ensures Place(b, 4) == 0
  {
  }

  /** `ByteOf` is the expression the writer stores,
      `(value >> 8 * k) & 0xff`, for every counter value it uses. */
  lemma ByteOfShifts(v: Word)
    ensures ByteOf(v, 0) == (v & 0xFF) as Byte
    ensures ByteOf(v, 1) == ((v >> 8) & 0xFF) as Byte
    ensures ByteOf(v, 2) == ((v >> 16) & 0xFF) as Byte
    ensures ByteOf(v, 3) == ((v >> 24) & 0xFF) as Byte
  {
  }

  // The writer.

  /** Byte `j` of the stored pixel is byte `comp - 1 - j` of the value, as
      the writer's counter says. */
  lemma {:induction false} UnpackAt(v: Word, comp: nat, j: nat)
    requires j < comp
    ensures Unpack(v, comp)[j] == ByteOf(v, comp - 1 - j)
    decreases comp
  {
    if j < comp - 1 {
      UnpackAt(v >> 8, comp - 1, j);
      ByteOfDown(v, comp - 1 - 1 - j);
      assert comp - 1 - 1 - j + 1 == comp - 1 - j;
    }
  }

  // The reader.

  /** Appending one byte to what the reader has consumed ORs in that byte
      at the counter's current position: the step of the reader's loop. */
  lemma AssembleSnoc(p: seq<Byte>, b: Byte, top: nat)
    requires |p| <= top
    ensures Assemble(p + [b], top) == Assemble(p, top) | Place(b, top - |p|)
  {
    assert (p + [b])[..|p|] == p;
  }

  /** Starting the counter one byte higher shifts the whole word up a
      byte. */
  lemma {:induction false} AssembleUp(s: seq<Byte>, top: nat)
    requires |s| <= top + 1
    ensures Assemble(s, top + 1) == Assemble(s, top) << 8
    decreases |s|
  {
    if s != [] {
      var p, b := s[..|s| - 1], s[|s| - 1];
      assert s == p + [b];
      AssembleUp(p, top);
      AssembleSnoc(p, b, top);
      AssembleSnoc(p, b, top + 1);
      PlaceUpFrom(b, top, |p|);
      OrShift(Assemble(p, top), Place(b, top - |p|));
    }
  }

  /** `Place` one byte further up, at the position the reader's counter
      gives byte `n`. */
  lemma PlaceUpFrom(b: Byte, top: nat, n: nat)
    requires n <= top
    ensures Place(b, top + 1 - n) == Place(b, top - n) << 8
  {
    var k := top - n;
    assert top + 1 - n == k + 1;
    PlaceUp(b, k);
  }

  /** What `image::pixel(index)` computes is the packed word moved up one
      byte, the top byte falling off. */
  lemma ReadIsShiftedPack(s: seq<Byte>)
    ensures ReadAsWritten(s) == Pack(s) << 8
  {
    if s != [] {
      AssembleUp(s, |s| - 1);
      assert |s| - 1 + 1 == |s|;
    }
  }

  /** Packing one more byte shifts the packed word up a byte and puts the
      new byte in the low byte. */
  lemma PackSnoc(p: seq<Byte>, b: Byte)
    ensures Pack(p + [b]) == (Pack(p) << 8) | (b as Word)
  {
    if p == [] {
      PackFirst(b);
    } else {
      PackNext(p, b);
    }
  }

  /** `PackSnoc` for the first byte. */
  lemma PackFirst(b: Byte)
    ensures Pack([] + [b]) == (Pack([]) << 8) | (b as Word)
  {
    AssembleSnoc([], b, 0);
    PlaceShifts(b);
    PackOne(b);
  }

  /** `PackSnoc` for a further byte. */
  lemma PackNext(p: seq<Byte>, b: Byte)
    requires p != []
    ensures Pack(p + [b]) == (Pack(p) << 8) | (b as Word)
  {
    AssembleSnoc(p, b, |p|);
    PlaceShifts(b);
    AssembleUp(p, |p| - 1);
    assert |p + [b]| - 1 == |p| == |p| - 1 + 1;
  }

  // Round trips.

  /** The packed word of `s` sets no bit above its low `|s|` bytes. */
  lemma {:induction false} PackFits(s: seq<Byte>)
    ensures Pack(s) & LowMask(|s|) == Pack(s)
    decreases |s|
  {
    if s != [] {
      var p, b := s[..|s| - 1], s[|s| - 1];
      assert s == p + [b];
      PackFits(p);
      PackSnoc(p, b);
      FitsStep(Pack(p), b, LowMask(|p|));
      assert |s| - 1 == |p|;
    }
  }

  /** Round trip, value side: packing what the writer stores gives back the
      low `comp` bytes of the value. */
  lemma {:induction false} PackUnpack(v: Word, comp: nat)
    ensures Pack(Unpack(v, comp)) == v & LowMask(comp)
    decreases comp
  {
    if comp > 0 {
      PackUnpack(v >> 8, comp - 1);
      PackSnoc(Unpack(v >> 8, comp - 1), (v & 0xFF) as Byte);
      MaskStep(v, LowMask(comp - 1));
      assert comp - 1 + 1 == comp;
    }
  }

  /** The packed word of at most three bytes leaves the top byte clear. */
  lemma TopClear(s: seq<Byte>)
    requires |s| <= 3
    ensures Pack(s) & 0xFF00_0000 == 0
  {
    PackFits(s);
    BelowTop(Pack(s), |s|);
  }

  /** Round trip, byte side: unpacking the packed word of up to four bytes
      gives the bytes back. */
  lemma {:induction false} UnpackPack(s: seq<Byte>)
    requires |s| <= 4
    ensures Unpack(Pack(s), |s|) == s
    decreases |s|
  {
    if s != [] {
      var p, b := s[..|s| - 1], s[|s| - 1];
      assert s == p + [b];
      UnpackPack(p);
      TopClear(p);
      PackSnoc(p, b);
      UnpackSnoc(Pack(p), b, |p|);
      assert |s| == |p| + 1;
    }
  }

  /** Unpacking a word with a byte shifted in below gives the unpacked word
      followed by that byte, as long as the shift lost nothing. */
  lemma UnpackSnoc(x: Word, b: Byte, n: nat)
    requires x & 0xFF00_0000 == 0
    ensures Unpack((x << 8) | (b as Word), n + 1) == Unpack(x, n) + [b]
  {
    TakeBackStep(x, b);
  }

  /** Reading a pixel back after writing `v` into it, as the two loops are
      written, gives the low `comp` bytes of `v` one byte up, not `v`. */
  lemma ReadAfterWrite(v: Word, comp: nat)
    ensures ReadAsWritten(Unpack(v, comp)) == (v & LowMask(comp)) << 8
  {
    ReadIsShiftedPack(Unpack(v, comp));
    PackUnpack(v, comp);
  }

  /** A one-component pixel written with 1 reads back as 256; and, taking a
      shift by 32 or more as 0 (C++ leaves it undefined), two
      four-component pixels that differ only in their first byte read back
      alike. */
  lemma ReadAfterWriteCounterexample()
    ensures Unpack(1, 1) == [1]
    ensures ReadAsWritten([1]) == 0x100
    ensures ReadAsWritten([1, 0, 0, 0]) == ReadAsWritten([0, 0, 0, 0]) == 0
  {
    ReadAfterWrite(1, 1);
    PackUnpack(1, 1);
    ReadFour([1, 0, 0, 0]);
    ReadFour([0, 0, 0, 0]);
  }

  /** The packed word of four bytes, one shift at a time. */
  lemma PackFour(s: seq<Byte>)
    requires |s| == 4
    ensures Pack(s) == ((((((((0 as Word) << 8) | (s[0] as Word)) << 8) | (s[1] as Word)) << 8)
                         | (s[2] as Word)) << 8) | (s[3] as Word)
  {
    var s1, s2, s3 := s[..1], s[..2], s[..3];
    assert s1 == [] + [s[0]] && s2 == s1 + [s[1]] && s3 == s2 + [s[2]] && s == s3 + [s[3]];
    PackSnoc([], s[0]);
    PackSnoc(s1, s[1]);
    PackSnoc(s2, s[2]);
    PackSnoc(s3, s[3]);
  }

  /** Shifting four packed bytes up a byte drops the first. */
  lemma DropFirst(a: Byte, b: Byte, c: Byte, d: Byte)
    ensures ((((((((((0 as Word) << 8) | (a as Word)) << 8) | (b as Word)) << 8) | (c as Word)) << 8) | (d as Word)) << 8)
         == (((((b as Word) << 8) | (c as Word)) << 8) | (d as Word)) << 8
  {
  }

  /** The reader's word for four bytes, taking the undefined shift of the
      first byte by 32 as 0: that byte drops out. */
  lemma ReadFour(s: seq<Byte>)
    requires |s| == 4
    ensures ReadAsWritten(s) == (((((s[1] as Word) << 8) | (s[2] as Word)) << 8) | (s[3] as Word)) << 8
  {
    ReadIsShiftedPack(s);
    PackFour(s);
    DropFirst(s[0], s[1], s[2], s[3]);
  }

  /** With four components, and the undefined shift by 32 taken as 0, the
      reader loses the first byte: two pixels that agree on the other three
      read back alike. */
  lemma ReadIgnoresFirstOfFour(s: seq<Byte>, t: seq<Byte>)
    requires |s| == 4 && |t| == 4 && s[1..] == t[1..]
    ensures ReadAsWritten(s) == ReadAsWritten(t)
  {
    SameTail(s, t);
    ReadFour(s);
    ReadFour(t);
  }

  /** Four-byte sequences with equal tails agree from position 1 on. */
  lemma SameTail(s: seq<Byte>, t: seq<Byte>)
    requires |s| == 4 && |t| == 4 && s[1..] == t[1..]
    ensures s[1] == t[1] && s[2] == t[2] && s[3] == t[3]
  {
    assert s[1..][0] == t[1..][0] && s[1..][1] == t[1..][1] && s[1..][2] == t[1..][2];
  }

  /** With at most three components nothing is lost: the reader tells apart
      any two pixels with different bytes. */
  lemma ReadInjectiveUpToThree(s: seq<Byte>, t: seq<Byte>)
    requires |s| == |t| <= 3
    requires ReadAsWritten(s) == ReadAsWritten(t)
    ensures s == t
  {
    ReadIsShiftedPack(s);
    ReadIsShiftedPack(t);
    TopClear(s);
    TopClear(t);
    ShiftKeepsLowThree(Pack(s), Pack(t));
    UnpackPack(s);
    UnpackPack(t);
  }
}
