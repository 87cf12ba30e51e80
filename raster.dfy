/** The OpenVRML `image`: a raster of `x` by `y` pixels with `comp` 8-bit
    components each, stored row by row in a flat byte buffer, plus the
    accessors that read and write one pixel as a packed 32-bit word.

    `size_t` is modelled as `nat` (no wrap-around), `int32` as a `bv32`
    word and the `std::vector<unsigned char>` as an array of bytes whose
    length never changes once the image is built. */
module Raster {
  import opened Packing

  /** The linear pixel index of column `px` and row `py` in an image `w`
      pixels wide: `y * x_ + x`. */
  function CoordinateIndex(w: nat, px: nat, py: nat): (r: nat)
    ensures px < w ==> r / w == py && r % w == px
  {
    if px < w then DivMod(w, px, py); py * w + px
    else py * w + px
  }

  /** Row and column come back out of the linear index of an in-range
      column. */
  lemma DivMod(w: nat, px: nat, py: nat)
    requires px < w
    ensures (py * w + px) / w == py && (py * w + px) % w == px
  {
    var r := py * w + px;
    assert r == py * w + px;
    assert (py * w + px) / w == py && (py * w + px) % w == px by {
      DivModUnique(r, w, py, px);
    }
  }

  /** Euclidean division by a positive divisor has unique quotient and
      remainder. */
  lemma {:induction false} DivModUnique(r: int, w: int, q: int, m: int)
    requires 0 < w && 0 <= m < w && 0 <= q && r == q * w + m
    ensures r / w == q && r % w == m
  {
    var q', m' := r / w, r % w;
    assert r == q' * w + m' && 0 <= m' < w;
    if q' < q {
      MulMono(q' + 1, q, w);
    } else if q < q' {
      MulMono(q + 1, q', w);
    }
  }

  /** Multiplying by a non-negative number keeps order. */
  lemma MulMono(a: int, b: int, w: int)
    requires a <= b && 0 <= w
    ensures a * w <= b * w
  {
    assert b * w - a * w == (b - a) * w;
  }

  /** The coordinates the two asserts of `pixel(x, y)` and `pixel(index)`
      let through, as written: the product of the coordinates below the
      buffer length, and the linear index below the pixel count. */
  predicate GuardsAsWritten(w: nat, h: nat, size: nat, px: nat, py: nat)
  {
    px * py < size && CoordinateIndex(w, px, py) < w * h
  }

  /** The coordinates the raster has: a column below the width and a row
      below the height. */
  predicate InRange(w: nat, h: nat, px: nat, py: nat)
  {
    px < w && py < h
  }

  /** With four bytes in a two-by-two one-component image, the asserts as
      written accept column 3 of row 0, which lies outside the raster and
      addresses the same pixel as column 1 of row 1. */
  lemma CoordinateGuardsAdmitOtherRow()
    ensures GuardsAsWritten(2, 2, 4, 3, 0) && !InRange(2, 2, 3, 0)
    ensures CoordinateIndex(2, 3, 0) == CoordinateIndex(2, 1, 1)
  {
  }

  /** In-range coordinates pass the pixel-count assert and address distinct
      pixels: the linear index is a bijection from the raster onto
      `0 .. w * h - 1`. */
  lemma CoordinateIndexInRange(w: nat, h: nat, px: nat, py: nat)
    ensures InRange(w, h, px, py) ==> CoordinateIndex(w, px, py) < w * h
    ensures forall i :: 0 <= i < w * h ==> InRange(w, h, i % w, i / w) && CoordinateIndex(w, i % w, i / w) == i
  {
    if InRange(w, h, px, py) {
      MulMono(py + 1, h, w);
      assert (py + 1) * w == py * w + w;
    }
    forall i | 0 <= i < w * h
      ensures InRange(w, h, i % w, i / w) && CoordinateIndex(w, i % w, i / w) == i
    {
      if h <= i / w {
        MulMono(h, i / w, w);
      }
    }
  }

  /** Two in-range coordinate pairs with the same linear index are the same
      pair. */
  lemma CoordinateIndexInjective(w: nat, h: nat, px: nat, py: nat, qx: nat, qy: nat)
    ensures InRange(w, h, px, py) && InRange(w, h, qx, qy)
            && CoordinateIndex(w, px, py) == CoordinateIndex(w, qx, qy)
            ==> px == qx && py == qy
  {
  }

  /** The raster buffer. `data` holds the bytes of pixel `i` at
      `i * comp .. i * comp + comp - 1`, the component of highest order
      first; it may be shorter than `x * y * comp`, never longer. */
  class Image {
    var x: nat
    var y: nat
    var comp: nat
    var data: array<Byte>

    /** The buffer never holds more than the dimensions call for. */
    predicate Valid()
      reads this
    {
      data.Length <= x * y * comp
    }

    /** The range constructor: the dimensions as given, the buffer exactly
        the bytes `src[begin..end]` the iterator pair spans, at most
        `x * y * comp` of them. */
    constructor (x0: nat, y0: nat, comp0: nat, src: seq<Byte>, begin: nat, end: nat)
      requires begin <= end <= |src|
      requires end - begin <= x0 * y0 * comp0
      ensures Valid()
      ensures x == x0 && y == y0 && comp == comp0
      ensures data[..] == src[begin..end]
      ensures fresh(data)
    {
      x, y, comp := x0, y0, comp0;
      data := new Byte[end - begin](k requires 0 <= k < end - begin => src[begin + k]);
    }

    /** `array()`: the buffer, never longer than the dimensions call for. */
    function Bytes(): (r: seq<Byte>)
      requires Valid()
      reads this, data
      ensures |r| <= x * y * comp
      ensures |r| == data.Length && forall k :: 0 <= k < |r| ==> r[k] == data[k]
    {
      data[..]
    }

    /** `array(begin, end)`: copies `src[begin..end]` over the front of the
        buffer and leaves the rest of it, and the dimensions, alone. */
    method CopyRange(src: seq<Byte>, begin: nat, end: nat)
      requires Valid()
      requires begin <= end <= |src|
      requires end - begin <= x * y * comp
      requires end - begin <= data.Length
      modifies data
      ensures Valid()
      ensures data[..] == src[begin..end] + old(data[..])[end - begin..]
    {
      var n := end - begin;
      for k := 0 to n
        invariant forall j :: 0 <= j < k ==> data[j] == src[begin + j]
        invariant forall j :: k <= j < data.Length ==> data[j] == old(data[j])
      {
        data[k] := src[begin + k];
      }
      assert data[..] == src[begin..end] + old(data[..])[n..];
    }

    /** `array(value)`: copies `value` over the front of the buffer and
        leaves the rest of it, and the dimensions, alone. */
    method SetBytes(value: seq<Byte>)
      requires Valid()
      requires |value| <= x * y * comp
      requires |value| <= data.Length
      modifies data
      ensures Valid()
      ensures data[..] == value + old(data[..])[|value|..]
    {
      CopyRange(value, 0, |value|);
      assert value[0..|value|] == value;
    }

    /** `pixel(index)`: the word the reader's loop builds from the pixel's
        bytes, the counter running from `comp` down to 1 while the position
        runs up from `index * comp`, each byte shifted by `8 * counter`
        (`Place`, see `Packing.PlaceShifts`). */
    method Pixel(index: nat) returns (value: Word)
      requires index < x * y
      requires index * comp + comp <= data.Length
      ensures value == ReadAsWritten(data[index * comp .. index * comp + comp])
    {
      var start := index * comp;
      value := 0;
      var component, i := comp, start;
      while component > 0
        invariant start <= i <= start + comp && component == comp - (i - start)
        invariant value == Assemble(data[start..i], comp)
      {
        value := value | Place(data[i], component);
        ReadStep(data[..], start, i, comp);
        component, i := component - 1, i + 1;
      }
    }

    /** `pixel(index, value)`: the writer's loop stores byte
        `comp - 1 - j` of `value` at position `index * comp + j`
        (`ByteOf`, see `Packing.ByteOfShifts`), so the pixel's bytes become
        `Unpack(value, comp)`; every other byte, and the dimensions, stay as
        they were. */
    method SetPixel(index: nat, value: Word)
      requires Valid()
      requires index < x * y
      requires index * comp + comp <= data.Length
      modifies data
      ensures Valid()
      ensures data[index * comp .. index * comp + comp] == Unpack(value, comp)
      ensures forall k :: 0 <= k < data.Length && !(index * comp <= k < index * comp + comp) ==>
                data[k] == old(data[k])
    {
      var start := index * comp;
      var component, i := comp, start;
      while component > 0
        invariant start <= i <= start + comp && component == comp - (i - start)
        invariant forall k :: start <= k < i ==> data[k] == Unpack(value, comp)[k - start]
        invariant forall k :: 0 <= k < data.Length && !(start <= k < i) ==> data[k] == old(data[k])
      {
        WriteStep(value, comp, i - start);
        data[i] := ByteOf(value, component - 1);
        component, i := component - 1, i + 1;
      }
      assert data[start..start + comp] == Unpack(value, comp);
    }

    /** `pixel(x, y)`: the pixel at linear index `y * x_ + x`, behind the
        assert as written (`px * py` below the buffer length) and the
        linear reader's own. */
    method PixelAt(px: nat, py: nat) returns (value: Word)
      requires GuardsAsWritten(x, y, data.Length, px, py)
      requires CoordinateIndex(x, px, py) * comp + comp <= data.Length
      ensures var start := CoordinateIndex(x, px, py) * comp;
              value == ReadAsWritten(data[start .. start + comp])
    {
      value := Pixel(py * x + px);
    }

    /** `pixel(x, y, value)`: writes the pixel at linear index `y * x_ + x`,
        behind the same asserts as the reader. */
    method SetPixelAt(px: nat, py: nat, value: Word)
      requires Valid()
      requires GuardsAsWritten(x, y, data.Length, px, py)
      requires CoordinateIndex(x, px, py) * comp + comp <= data.Length
      modifies data
      ensures Valid()
      ensures var start := CoordinateIndex(x, px, py) * comp;
              data[start .. start + comp] == Unpack(value, comp)
              && forall k :: 0 <= k < data.Length && !(start <= k < start + comp) ==> data[k] == old(data[k])
    {
      SetPixel(py * x + px, value);
    }

    /** Writing a pixel and reading it back, as the two loops are written,
        yields the value's low `comp` bytes moved up one byte; the write
        leaves the pixel's bytes `Unpack(value, comp)` and every other byte
        as it was. */
    method WriteThenRead(index: nat, value: Word) returns (read: Word)
      requires Valid()
      requires index < x * y
      requires index * comp + comp <= data.Length
      modifies data
      ensures Valid()
      ensures read == (value & LowMask(comp)) << 8
      ensures data[index * comp .. index * comp + comp] == Unpack(value, comp)
      ensures forall k :: 0 <= k < data.Length && !(index * comp <= k < index * comp + comp) ==>
                data[k] == old(data[k])
    {
      SetPixel(index, value);
      ghost var block := data[index * comp .. index * comp + comp];
      ReadBlockAfterWrite(block, value, comp);
      read := Pixel(index);
    }
  }

  /** One step of the reader's loop over the buffer `a`: taking in the byte
      at position `i` ORs it in at the counter `top - (i - start)`. */
  lemma ReadStep(a: seq<Byte>, start: nat, i: nat, top: nat)
    requires start <= i < |a| && i - start <= top
    ensures Assemble(a[start..i + 1], top) == Assemble(a[start..i], top) | Place(a[i], top - (i - start))
  {
    assert a[start..i + 1] == a[start..i] + [a[i]];
    AssembleSnoc(a[start..i], a[i], top);
  }

  /** One step of the writer's loop: the byte it stores at offset `j` of
      the pixel, with its counter at `comp - j`, is byte `j` of the
      unpacked value. */
  lemma WriteStep(v: Word, comp: nat, j: nat)
    requires j < comp
    ensures ByteOf(v, comp - j - 1) == Unpack(v, comp)[j]
  {
    UnpackAt(v, comp, j);
    assert comp - j - 1 == comp - 1 - j;
  }

  /** A pixel's bytes as the writer left them read back as the value's low
      `comp` bytes moved up one byte. */
  lemma ReadBlockAfterWrite(block: seq<Byte>, v: Word, comp: nat)
    requires block == Unpack(v, comp)
    ensures ReadAsWritten(block) == (v & LowMask(comp)) << 8
  {
    ReadAfterWrite(v, comp);
  }
}
