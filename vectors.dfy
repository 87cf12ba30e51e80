/** The fixed-size float aggregates of OpenVRML: `color`, `vec2f`, `vec3f`,
    `rotation`, `quatf` and `mat4f`, as far as their bounds-checked
    indexers and single-slot accessors go.

    A `float` is opaque here: `Float` is its IEEE 754 single-precision bit
    pattern and no arithmetic is done on it. The only property of a float
    the accessors look at is whether it is NaN, the one value for which
    `value == value` fails. */
module Vectors {

  type Float = bv32

  /** A NaN: all exponent bits set and a non-zero fraction. */
  predicate IsNaN(f: Float)
  {
    f & 0x7F80_0000 == 0x7F80_0000 && f & 0x007F_FFFF != 0
  }

  /** `color`: red, green and blue in slots 0, 1 and 2. */
  class Color {
    const rgb: array<Float>

    predicate Valid()
      reads this
    {
      rgb.Length == 3
    }

    constructor (r: Float, g: Float, b: Float)
      ensures Valid() && fresh(rgb)
      ensures rgb[..] == [r, g, b]
    {
      rgb := new Float[3][r, g, b];
    }

    /** `operator[]`: slot `index`, of which there are three. */
    function At(index: nat): (f: Float)
      requires Valid() && index < 3
      reads this, rgb
      ensures f == rgb[..][index]
    {
      rgb[index]
    }

    /** `r()`: slot 0. */
    function R(): (f: Float)
      requires Valid()
      reads this, rgb
      ensures f == At(0)
    {
      rgb[0]
    }

    /** `g()`: slot 1. */
    function G(): (f: Float)
      requires Valid()
      reads this, rgb
      ensures f == At(1)
    {
      rgb[1]
    }

    /** `b()`: slot 2. */
    function B(): (f: Float)
      requires Valid()
      reads this, rgb
      ensures f == At(2)
    {
      rgb[2]
    }

    /** `r(value)`: sets slot 0 only. */
    method SetR(value: Float)
      requires Valid()
      modifies rgb
      ensures rgb[..] == old(rgb[..])[0 := value]
    {
      rgb[0] := value;
    }

    /** `g(value)`: sets slot 1 only. */
    method SetG(value: Float)
      requires Valid()
      modifies rgb
      ensures rgb[..] == old(rgb[..])[1 := value]
    {
      rgb[1] := value;
    }

    /** `b(value)`: sets slot 2 only. */
    method SetB(value: Float)
      requires Valid()
      modifies rgb
      ensures rgb[..] == old(rgb[..])[2 := value]
    {
      rgb[2] := value;
    }
  }

  /** `vec2f`: coordinates x and y in slots 0 and 1, never set to NaN. */
  class Vec2f {
    const vec: array<Float>

    predicate Valid()
      reads this
    {
      vec.Length == 2
    }

    constructor (x: Float, y: Float)
      ensures Valid() && fresh(vec)
      ensures vec[..] == [x, y]
    {
      vec := new Float[2][x, y];
    }

    /** `operator[]`: slot `index`, of which there are two. */
    function At(index: nat): (f: Float)
      requires Valid() && index < 2
      reads this, vec
      ensures f == vec[..][index]
    {
      vec[index]
    }

    /** `x()`: slot 0. */
    function X(): (f: Float)
      requires Valid()
      reads this, vec
      ensures f == At(0)
    {
      vec[0]
    }

    /** `y()`: slot 1. */
    function Y(): (f: Float)
      requires Valid()
      reads this, vec
      ensures f == At(1)
    {
      vec[1]
    }

    /** `x(value)`: a non-NaN value into slot 0 only. */
    method SetX(value: Float)
      requires Valid() && !IsNaN(value)
      modifies vec
      ensures vec[..] == old(vec[..])[0 := value]
    {
      vec[0] := value;
    }

    /** `y(value)`: a non-NaN value into slot 1 only. */
    method SetY(value: Float)
      requires Valid() && !IsNaN(value)
      modifies vec
      ensures vec[..] == old(vec[..])[1 := value]
    {
      vec[1] := value;
    }
  }

  /** `vec3f`: coordinates x, y and z in slots 0, 1 and 2, never set to
      NaN. */
  class Vec3f {
    const vec: array<Float>

    predicate Valid()
      reads this
    {
      vec.Length == 3
    }

    constructor (x: Float, y: Float, z: Float)
      ensures Valid() && fresh(vec)
      ensures vec[..] == [x, y, z]
    {
      vec := new Float[3][x, y, z];
    }

    /** `operator[]`: slot `index`, of which there are three. */
    function At(index: nat): (f: Float)
      requires Valid() && index < 3
      reads this, vec
      ensures f == vec[..][index]
    {
      vec[index]
    }

    /** `x()`: slot 0. */
    function X(): (f: Float)
      requires Valid()
      reads this, vec
      ensures f == At(0)
    {
      vec[0]
    }

    /** `y()`: slot 1. */
    function Y(): (f: Float)
      requires Valid()
      reads this, vec
      ensures f == At(1)
    {
      vec[1]
    }

    /** `z()`: slot 2. */
    function Z(): (f: Float)
      requires Valid()
      reads this, vec
      ensures f == At(2)
    {
      vec[2]
    }

    /** `x(value)`: a non-NaN value into slot 0 only. */
    method SetX(value: Float)
      requires Valid() && !IsNaN(value)
      modifies vec
      ensures vec[..] == old(vec[..])[0 := value]
    {
      vec[0] := value;
    }

    /** `y(value)`: a non-NaN value into slot 1 only. */
    method SetY(value: Float)
      requires Valid() && !IsNaN(value)
      modifies vec
      ensures vec[..] == old(vec[..])[1 := value]
    {
      vec[1] := value;
    }

    /** `z(value)`: a non-NaN value into slot 2 only. */
    method SetZ(value: Float)
      requires Valid() && !IsNaN(value)
      modifies vec
      ensures vec[..] == old(vec[..])[2 := value]
    {
      vec[2] := value;
    }
  }

  /** `rotation`: the axis in slots 0, 1 and 2, the angle in slot 3. */
  class Rotation {
    const rot: array<Float>

    predicate Valid()
      reads this
    {
      rot.Length == 4
    }

    constructor (x: Float, y: Float, z: Float, angle: Float)
      ensures Valid() && fresh(rot)
      ensures rot[..] == [x, y, z, angle]
    {
      rot := new Float[4][x, y, z, angle];
    }

    /** `operator[]`: slot `index`, of which there are four. */
    function At(index: nat): (f: Float)
      requires Valid() && index < 4
      reads this, rot
      ensures f == rot[..][index]
    {
      rot[index]
    }

    /** `x()`: slot 0. */
    function X(): (f: Float)
      requires Valid()
      reads this, rot
      ensures f == At(0)
    {
      rot[0]
    }

    /** `y()`: slot 1. */
    function Y(): (f: Float)
      requires Valid()
      reads this, rot
      ensures f == At(1)
    {
      rot[1]
    }

    /** `z()`: slot 2. */
    function Z(): (f: Float)
      requires Valid()
      reads this, rot
      ensures f == At(2)
    {
      rot[2]
    }

    /** `angle()`: slot 3. */
    function Angle(): (f: Float)
      requires Valid()
      reads this, rot
      ensures f == At(3)
    {
      rot[3]
    }

    /** `axis()`: a new `vec3f` holding slots 0, 1 and 2; the rotation is
        left as it was. */
    method Axis() returns (v: Vec3f)
      requires Valid()
      ensures fresh(v) && fresh(v.vec) && v.Valid()
      ensures v.X() == X() && v.Y() == Y() && v.Z() == Z()
    {
      v := new Vec3f(rot[0], rot[1], rot[2]);
    }

    /** `angle(value)`: sets slot 3 only. */
    method SetAngle(value: Float)
      requires Valid()
      modifies rot
      ensures rot[..] == old(rot[..])[3 := value]
    {
      rot[3] := value;
    }
  }

  /** `quatf`: components x, y, z and w in slots 0 to 3. */
  class Quatf {
    const quat: array<Float>

    predicate Valid()
      reads this
    {
      quat.Length == 4
    }

    constructor (x: Float, y: Float, z: Float, w: Float)
      ensures Valid() && fresh(quat)
      ensures quat[..] == [x, y, z, w]
    {
      quat := new Float[4][x, y, z, w];
    }

    /** The `const` `operator[]`: slot `index`, of which there are four. */
    function At(index: nat): (f: Float)
      requires Valid() && index < 4
      reads this, quat
      ensures f == quat[..][index]
    {
      quat[index]
    }

    /** The non-`const` `operator[]`, assigned through: slot `index` of
        four, and no other, becomes `value`. */
    method SetAt(index: nat, value: Float)
      requires Valid() && index < 4
      modifies quat
      ensures quat[..] == old(quat[..])[index := value]
    {
      quat[index] := value;
    }

    /** `x()`: slot 0. */
    function X(): (f: Float)
      requires Valid()
      reads this, quat
      ensures f == At(0)
    {
      quat[0]
    }

    /** `y()`: slot 1. */
    function Y(): (f: Float)
      requires Valid()
      reads this, quat
      ensures f == At(1)
    {
      quat[1]
    }

    /** `z()`: slot 2. */
    function Z(): (f: Float)
      requires Valid()
      reads this, quat
      ensures f == At(2)
    {
      quat[2]
    }

    /** `w()`: slot 3. */
    function W(): (f: Float)
      requires Valid()
      reads this, quat
      ensures f == At(3)
    {
      quat[3]
    }

    /** `x(value)`: sets slot 0 only. */
    method SetX(value: Float)
      requires Valid()
      modifies quat
      ensures quat[..] == old(quat[..])[0 := value]
    {
      SetAt(0, value);
    }

    /** `y(value)`: sets slot 1 only. */
    method SetY(value: Float)
      requires Valid()
      modifies quat
      ensures quat[..] == old(quat[..])[1 := value]
    {
      SetAt(1, value);
    }

    /** `z(value)`: sets slot 2 only. */
    method SetZ(value: Float)
      requires Valid()
      modifies quat
      ensures quat[..] == old(quat[..])[2 := value]
    {
      SetAt(2, value);
    }

    /** `w(value)`: sets slot 3 only. */
    method SetW(value: Float)
      requires Valid()
      modifies quat
      ensures quat[..] == old(quat[..])[3 := value]
    {
      SetAt(3, value);
    }
  }

  /** `mat4f`: a four-by-four matrix, indexed row first. */
  class Mat4f {
    const mat: array2<Float>

    predicate Valid()
      reads this
    {
      mat.Length0 == 4 && mat.Length1 == 4
    }

    /** A matrix whose every entry is `f`. */
    constructor (f: Float)
      ensures Valid() && fresh(mat)
      ensures forall i, j :: 0 <= i < 4 && 0 <= j < 4 ==> mat[i, j] == f
    {
      mat := new Float[4, 4]((i, j) => f);
    }

    /** The `const` `operator[]`: row `index`, of which there are four, as
        its four entries. */
    function Row(index: nat): (r: seq<Float>)
      requires Valid() && index < 4
      reads this, mat
      ensures |r| == 4
      ensures forall j :: 0 <= j < 4 ==> r[j] == mat[index, j]
    {
      [mat[index, 0], mat[index, 1], mat[index, 2], mat[index, 3]]
    }

    /** The non-`const` `operator[]`, with entry `col` of the row it
        returns assigned: that entry of row `index` becomes `value` and
        every other entry stays as it was. */
    method SetEntry(index: nat, col: nat, value: Float)
      requires Valid() && index < 4 && col < 4
      modifies mat
      ensures mat[index, col] == value
      ensures forall i, j :: 0 <= i < 4 && 0 <= j < 4 && (i != index || j != col) ==>
                mat[i, j] == old(mat[i, j])
    {
      mat[index, col] := value;
    }
  }
}
