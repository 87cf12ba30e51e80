# OpenVRML base types: the packed raster image and the fixed-size float aggregates

This project models, in Dafny, the inline part of OpenVRML's
`openvrml/basetypes.h`:

- **`image`** (`raster.dfy`, with the bit-level encoding in `packing.dfy`): a
  raster `x` pixels wide and `y` pixels high with `comp` byte-sized
  components per pixel, stored row by row in a flat byte buffer. It has a
  range constructor, a getter and two bulk setters for the buffer, and
  readers and writers of one pixel as a packed `int32`, addressed either by
  linear index or by column and row. The class `Raster.Image` keeps the
  fields `x`, `y`, `comp` and the buffer `data` (an `array<bv8>`). Its
  methods update `data` in place with the loops of the header. The
  getters `x()`, `y()` and `comp()` are those fields. `Valid()` is the
  invariant the range constructor's assert establishes: the buffer is never
  longer than `x * y * comp`.
- **`color`, `vec2f`, `vec3f`, `rotation`, `quatf`, `mat4f`** (`vectors.dfy`):
  classes over fixed-size arrays of an opaque `Float`, with their
  bounds-checked `operator[]`, their named getters and their single-slot
  setters.

Types: `int32` is a `bv32` word, so the reader's shifts and ORs wrap as
two's-complement bits do. A byte is a `bv8`. `size_t` is a `nat`. A `float`
is its 32-bit IEEE 754 pattern, and only "is it NaN" is ever asked of it.

The pixel reader and writer are modelled as written. The writer stores the
low `comp` bytes of the value, most significant first. The reader shifts
byte `j` of the pixel by `8 * (comp - j)` bits instead of
`8 * (comp - 1 - j)`. So reading back what was written yields the value's
low `comp` bytes moved up one byte (`Packing.ReadAfterWrite`). With four
components, the first byte is shifted by 32 bits. That shift is undefined
in C++, and the model takes its result as 0. The intended packing, `Pack`,
is modelled beside the reader, with both round trips proved
(see "## Findings").

The intended behaviour of these types is: a pixel packed most significant
byte first, with the writer the inverse of the reader; setters that reject
NaN; a buffer of exactly `x * y * comp` bytes; and coordinates outside the
raster treated as a fatal error. Where the header's code departs from that,
the model follows the code:
- the `color` and `quatf` setters accept NaN;
- the range constructor accepts a buffer shorter than `x * y * comp`;
- the reader is not the inverse of the writer;
- `pixel(x, y)` accepts coordinates outside the raster.

## Model

| member | source | states |
|---|---|---|
| `Packing.PlaceShifts` | src/libopenvrml/openvrml/basetypes.h:621 | the reader's term `Place(b, k)` is `int32(b) << 8 * k` for every counter value 0..3, and 0 for the counter value 4 (a shift by 32) |
| `Packing.ByteOfShifts` | src/libopenvrml/openvrml/basetypes.h:632-634 | the writer's byte `ByteOf(v, k)` is `(v >> 8 * k) & 0xff` for every counter value 0..3 |
| `Packing.UnpackAt` | src/libopenvrml/openvrml/basetypes.h:629-635 | byte `j` of what the writer stores for `v` is byte `comp - 1 - j` of `v`: most significant first |
| `Packing.ReadIsShiftedPack` | src/libopenvrml/openvrml/basetypes.h:617-623 | the word the reader builds from a pixel's bytes is the packed word of those bytes shifted up one byte, the top byte lost |
| `Packing.PackFits` | src/libopenvrml/openvrml/basetypes.h:626-636 | the packed word of `n` bytes sets no bit above its low `n` bytes |
| `Packing.PackUnpack` | src/libopenvrml/openvrml/basetypes.h:626-636 | packing what the writer stores for `v` gives back the low `comp` bytes of `v`, for every `comp` |
| `Packing.UnpackPack` | src/libopenvrml/openvrml/basetypes.h:626-636 | unpacking the packed word of up to four bytes gives those bytes back |
| `Packing.ReadAfterWrite` | src/libopenvrml/openvrml/basetypes.h:614-636 | reading a pixel after writing `v` yields `(v & mask of the low comp bytes) << 8`, not `v` |
| `Packing.ReadAfterWriteCounterexample` | src/libopenvrml/openvrml/basetypes.h:614-636 | writing 1 into a one-component pixel reads back as 256; under the model's reading of the undefined shift by 32 as 0, the four-component pixels 1,0,0,0 and 0,0,0,0 both read back as 0 |
| `Packing.ReadFour` | src/libopenvrml/openvrml/basetypes.h:617-623 | under the model's reading of the undefined shift by 32 as 0, with four components the reader's word depends only on bytes 1, 2 and 3, each one byte above its packed position |
| `Packing.ReadIgnoresFirstOfFour` | src/libopenvrml/openvrml/basetypes.h:617-623 | under the model's reading of the undefined shift by 32 as 0, two four-component pixels that differ only in their first byte read back alike |
| `Packing.ReadInjectiveUpToThree` | src/libopenvrml/openvrml/basetypes.h:617-623 | with at most three components, pixels that read back alike have the same bytes |
| `Raster.Image.constructor` | src/libopenvrml/openvrml/basetypes.h:561-579 | the dimensions are the arguments; the buffer is exactly the bytes the iterator pair spans, at most `x * y * comp` of them |
| `Raster.Image.Bytes` | src/libopenvrml/openvrml/basetypes.h:596-599 | `array()` is the buffer, and it is never longer than `x * y * comp` |
| `Raster.Image.SetBytes` | src/libopenvrml/openvrml/basetypes.h:601-605 | `array(value)` requires `value` to fit in `x * y * comp`; afterwards the buffer is `value` followed by the old bytes past `value`; dimensions unchanged |
| `Raster.Image.CopyRange` | src/libopenvrml/openvrml/basetypes.h:607-612 | `array(begin, end)` requires the range to fit in `x * y * comp`; afterwards the buffer starts with the range and keeps its old bytes after it; dimensions unchanged |
| `Raster.Image.Pixel` | src/libopenvrml/openvrml/basetypes.h:614-624 | requires `index < x * y`; returns the OR over `j` of byte `index * comp + j` shifted by `8 * (comp - j)`; changes nothing |
| `Raster.Image.SetPixel` | src/libopenvrml/openvrml/basetypes.h:626-636 | requires `index < x * y`; the pixel's `comp` bytes become `Unpack(value, comp)`; every other byte and the dimensions are unchanged |
| `Raster.Image.WriteThenRead` | src/libopenvrml/openvrml/basetypes.h:614-636 | on the image itself, `pixel(index)` after `pixel(index, v)` returns the low `comp` bytes of `v` moved up one byte; the write leaves the pixel's bytes `Unpack(v, comp)` and every other byte unchanged |
| `Raster.Image.PixelAt` | src/libopenvrml/openvrml/basetypes.h:638-642 | behind the assert `x * y < array_.size()` and the linear reader's own assert (together `GuardsAsWritten`), returns the pixel at linear index `y * x_ + x` |
| `Raster.Image.SetPixelAt` | src/libopenvrml/openvrml/basetypes.h:644-649 | behind the same asserts, writes the pixel at `y * x_ + x` and no other byte |
| `Raster.CoordinateIndex` | src/libopenvrml/openvrml/basetypes.h:638-649 | for a column below the width, the linear index `y * x_ + x` gives back the row as quotient and the column as remainder |
| `Raster.CoordinateGuardsAdmitOtherRow` | src/libopenvrml/openvrml/basetypes.h:638-649 | on a 2x2 one-component image, column 3 of row 0 passes both asserts, lies outside the raster, and addresses pixel (1, 1) |
| `Raster.CoordinateIndexInRange` | src/libopenvrml/openvrml/basetypes.h:638-649 | in-range coordinates pass the pixel-count assert, and every linear index below `x_ * y_` is the index of exactly the in-range pair given by quotient and remainder |
| `Raster.CoordinateIndexInjective` | src/libopenvrml/openvrml/basetypes.h:638-649 | two in-range coordinate pairs with the same linear index are equal |
| `Vectors.Color.At` | src/libopenvrml/openvrml/basetypes.h:68-72 | requires `index < 3`; the slot at `index` |
| `Vectors.Color.R` | src/libopenvrml/openvrml/basetypes.h:74-77 | `r()` is `operator[](0)` |
| `Vectors.Color.G` | src/libopenvrml/openvrml/basetypes.h:79-82 | `g()` is `operator[](1)` |
| `Vectors.Color.B` | src/libopenvrml/openvrml/basetypes.h:84-87 | `b()` is `operator[](2)` |
| `Vectors.Color.SetR` | src/libopenvrml/openvrml/basetypes.h:89-92 | slot 0 becomes the value, with no NaN check; slots 1 and 2 unchanged |
| `Vectors.Color.SetG` | src/libopenvrml/openvrml/basetypes.h:94-97 | slot 1 becomes the value; slots 0 and 2 unchanged |
| `Vectors.Color.SetB` | src/libopenvrml/openvrml/basetypes.h:99-102 | slot 2 becomes the value; slots 0 and 1 unchanged |
| `Vectors.Vec2f.At` | src/libopenvrml/openvrml/basetypes.h:142-146 | requires `index < 2`; the slot at `index` |
| `Vectors.Vec2f.X` | src/libopenvrml/openvrml/basetypes.h:148-151 | `x()` is `operator[](0)` |
| `Vectors.Vec2f.Y` | src/libopenvrml/openvrml/basetypes.h:153-156 | `y()` is `operator[](1)` |
| `Vectors.Vec2f.SetX` | src/libopenvrml/openvrml/basetypes.h:158-166 | requires a non-NaN value; slot 0 becomes it, slot 1 unchanged |
| `Vectors.Vec2f.SetY` | src/libopenvrml/openvrml/basetypes.h:168-176 | requires a non-NaN value; slot 1 becomes it, slot 0 unchanged |
| `Vectors.Vec3f.At` | src/libopenvrml/openvrml/basetypes.h:225-229 | requires `index < 3`; the slot at `index` |
| `Vectors.Vec3f.X` | src/libopenvrml/openvrml/basetypes.h:231-234 | `x()` is `operator[](0)` |
| `Vectors.Vec3f.Y` | src/libopenvrml/openvrml/basetypes.h:236-239 | `y()` is `operator[](1)` |
| `Vectors.Vec3f.Z` | src/libopenvrml/openvrml/basetypes.h:241-244 | `z()` is `operator[](2)` |
| `Vectors.Vec3f.SetX` | src/libopenvrml/openvrml/basetypes.h:246-254 | requires a non-NaN value; slot 0 becomes it, the others unchanged |
| `Vectors.Vec3f.SetY` | src/libopenvrml/openvrml/basetypes.h:256-264 | requires a non-NaN value; slot 1 becomes it, the others unchanged |
| `Vectors.Vec3f.SetZ` | src/libopenvrml/openvrml/basetypes.h:266-274 | requires a non-NaN value; slot 2 becomes it, the others unchanged |
| `Vectors.Rotation.At` | src/libopenvrml/openvrml/basetypes.h:317-322 | requires `index < 4`; the slot at `index` |
| `Vectors.Rotation.X` | src/libopenvrml/openvrml/basetypes.h:324-327 | `x()` is `operator[](0)` |
| `Vectors.Rotation.Y` | src/libopenvrml/openvrml/basetypes.h:329-332 | `y()` is `operator[](1)` |
| `Vectors.Rotation.Z` | src/libopenvrml/openvrml/basetypes.h:334-337 | `z()` is `operator[](2)` |
| `Vectors.Rotation.Axis` | src/libopenvrml/openvrml/basetypes.h:339-342 | `axis()` is a new `vec3f` whose x, y, z are the rotation's x, y, z |
| `Vectors.Rotation.Angle` | src/libopenvrml/openvrml/basetypes.h:344-347 | `angle()` is `operator[](3)` |
| `Vectors.Rotation.SetAngle` | src/libopenvrml/openvrml/basetypes.h:349-352 | slot 3 becomes the value; the axis slots unchanged |
| `Vectors.Mat4f.SetEntry` | src/libopenvrml/openvrml/basetypes.h:400-404 | the writable row `operator[]` requires a row below 4; assigning through it changes that one entry only |
| `Vectors.Mat4f.Row` | src/libopenvrml/openvrml/basetypes.h:406-410 | the `const` row `operator[]` requires a row below 4 and yields that row's four entries |
| `Vectors.Quatf.At` | src/libopenvrml/openvrml/basetypes.h:465-469 | requires `index < 4`; the slot at `index` |
| `Vectors.Quatf.SetAt` | src/libopenvrml/openvrml/basetypes.h:471-475 | the writable `operator[]` requires `index < 4`; assigning through it changes that slot only |
| `Vectors.Quatf.X` | src/libopenvrml/openvrml/basetypes.h:477-480 | `x()` is `operator[](0)` |
| `Vectors.Quatf.Y` | src/libopenvrml/openvrml/basetypes.h:482-485 | `y()` is `operator[](1)` |
| `Vectors.Quatf.Z` | src/libopenvrml/openvrml/basetypes.h:487-490 | `z()` is `operator[](2)` |
| `Vectors.Quatf.W` | src/libopenvrml/openvrml/basetypes.h:492-495 | `w()` is `operator[](3)` |
| `Vectors.Quatf.SetX` | src/libopenvrml/openvrml/basetypes.h:497-500 | slot 0 becomes the value, with no NaN check; the others unchanged |
| `Vectors.Quatf.SetY` | src/libopenvrml/openvrml/basetypes.h:502-505 | slot 1 becomes the value; the others unchanged |
| `Vectors.Quatf.SetZ` | src/libopenvrml/openvrml/basetypes.h:507-510 | slot 2 becomes the value; the others unchanged |
| `Vectors.Quatf.SetW` | src/libopenvrml/openvrml/basetypes.h:512-515 | slot 3 becomes the value; the others unchanged |

## Left out

- Float arithmetic: vector, colour and quaternion algebra, `normalize`, `color::hsv`, rotation composition, `slerp` and `inverse`, and the `mat4f` factories, decomposition, `inverse`, `transpose` and `det`. These are floating-point numerics, and their bodies are not in the header.
- Stream `operator<<` and `operator>>` for every type: this is I/O, and the bodies are not in the header.
- `image::x(size_t)`, `y(size_t)`, `resize`, `comp(size_t)`, the default, `(x, y, comp)` and vector constructors of `image`, and `operator==`. They are only declared, and their `std::bad_alloc` failure is not modelled. No modelled member changes the dimensions or the buffer length.
- `rotation::x(float)`, `y(float)`, `z(float)` and `axis(const vec3f &)`: declared only, with no body in the header.
- The constructors of the float aggregates are declared only. The model gives each class one constructor so that objects can be built: for `color`, `vec2f`, `vec3f`, `rotation` and `quatf` it stores its arguments slot by slot, and for `mat4f` it fills all sixteen entries with its one argument.
- The `_WIN32` choice of the `int32` typedef. The range constructor and `array(begin, end)` are modelled over a byte sequence and a pair of positions in it, not over generic input iterators.
- Raster.Image.Pixel: `size_t` products such as `index * comp` do not wrap in the model. Signed overflow of `int32(byte) << 24` and the shift by 32 are undefined in C++, and the model gives them the wrapped `bv32` results (the shift by 32 yields 0).
- Raster.Image.SetPixel: also requires `index * comp + comp` to be at most the buffer length. The header only asserts `index < x * y`. A buffer shorter than `x * y * comp` makes the write undefined there. The same holds for `Pixel`, `PixelAt` and `SetPixelAt`, and, for the copied length, for `SetBytes` and `CopyRange`.
- Vectors.Mat4f.SetEntry: also requires the column to be below 4. The header checks only the row, and the column indexes a plain C array.
- Dimensions greater than zero and component counts of 1 to 4 are conventions of the library. The header does not check them, and neither does the model.

## Findings

| source | as written | input that shows it | evidently intended | confidence | as-written member | corrected member |
|---|---|---|---|---|---|---|
| src/libopenvrml/openvrml/basetypes.h:621 | the reader shifts byte `j` by `8 * component`, one byte more than the writer's `8 * (component - 1)` at line 634 | `comp == 1`: writing the value 1 at index 0 and reading index 0 back returns 256 | `pixel(index)` returns the packed word the writer split, `8 * (component - 1)`, so that read after write is the identity on the low `comp` bytes | not executed | `Packing.ReadAfterWriteCounterexample` | `Packing.PackUnpack` |
| src/libopenvrml/openvrml/basetypes.h:640 | `pixel(x, y)` asserts `x * y < array_.size()`, which does not bound the column or the row | 2x2 image, one component, four bytes: `pixel(3, 0)` passes both asserts and reads pixel (1, 1) | the coordinates lie in the raster, `x < x_` and `y < y_`, so that each in-range pair addresses its own pixel | not executed | `Raster.CoordinateGuardsAdmitOtherRow` | `Raster.CoordinateIndexInjective` |
