/**
 * The boxed 32-bit float cell `Single`. The payload is kept as its raw
 * IEEE 754 binary32 bit pattern (IEEE 754-2019 section 3.4): bit 31 is the
 * sign, bits 30..23 the biased exponent, bits 22..0 the trailing significand.
 * Converting between a float and its bits (`floatToRawIntBits`,
 * `intBitsToFloat`) is the identity on patterns here.
 */
module SingleBox {
  import opened Runtime

  /** Exponent field all ones (the `0x7F800000` mask). */
  const ExponentMask: bv32 := 0x7F80_0000
  /** Everything but the sign bit. */
  const MagnitudeMask: bv32 := 0x7FFF_FFFF

  /** A NaN: exponent all ones and a non-zero significand, of either sign. */
  predicate IsNaN(b: bv32)
  {
    b & ExponentMask == ExponentMask && b & 0x007F_FFFF != 0
  }

  /** +0 or -0. */
  predicate IsZero(b: bv32)
  {
    b & MagnitudeMask == 0
  }

  /**
   * The bit arithmetic of `GetHashCode()`: a pattern whose predecessor, sign
   * cleared, reaches the exponent mask is replaced by its exponent bits.
   */
  function HashBits(b: bv32): (h: bv32)
    ensures IsNaN(b) ==> h == ExponentMask
    ensures IsZero(b) ==> h == 0
    ensures !IsNaN(b) && !IsZero(b) ==> h == b
  {
    if (b - 1) & MagnitudeMask >= ExponentMask then b & ExponentMask else b
  }

  /** The pattern of +infinity, which is also the hash of every NaN. */
  const PositiveInfinity: bv32 := 0x7F80_0000

  /**
   * Every NaN hashes alike, and so do the two zeros, which compare equal as
   * floats. Two distinct patterns share a hash only then, or when one is a
   * NaN and the other +infinity.
   */
  lemma HashCollapsesNaNsAndZeros(b: bv32, c: bv32)
    ensures IsNaN(b) && IsNaN(c) ==> HashBits(b) == HashBits(c)
    ensures IsZero(b) && IsZero(c) ==> HashBits(b) == HashBits(c)
    ensures IsNaN(b) ==> HashBits(b) == HashBits(PositiveInfinity)
    ensures HashBits(b) == HashBits(c) && b != c ==>
      (IsZero(b) && IsZero(c)) ||
      ((IsNaN(b) || b == PositiveInfinity) && (IsNaN(c) || c == PositiveInfinity))
  {
  }

  /** The members that throw whatever the box holds and whichever storage it uses. */
  datatype RefusedCall =
    | GetU8 | GetI8 | SetI8
    | GetU16 | GetI16 | SetI16
    | GetI64 | SetI64
    | GetF64 | SetF64
    | ToDateTime

  /**
   * The outcome of a refused call on a `Single` box, by the rule
   * `ByteBoxes.Refuse` applies as well: `ToDateTime` is an invalid cast and
   * every other refused call is not supported.
   */
  function Refuse(c: RefusedCall): (r: Result<int>)
    ensures r.Err?
    ensures r.error == InvalidCast <==> c == ToDateTime
    ensures r.error == NotSupported <==> c != ToDateTime
  {
    match c
    case ToDateTime => Err(InvalidCast)
    case _ => Err(NotSupported)
  }

  /** An `object` or `ValueType` argument: null, a `Single` box, or an object of any other class. */
  datatype Object = Null | ASingle(f: Single) | Foreign
  {
    ghost function Repr(): set<object>
    {
      if ASingle? then {f} + f.storage.Objects() else {}
    }

    ghost predicate Valid()
      reads Repr()
    {
      ASingle? ==> f.Valid()
    }
  }

  class Single {
    /**
     * The inline payload. An array view inherits the field too, but never
     * writes it, so it keeps its initial value +0.
     */
    var v: bv32
    /** Which storage form this box has, fixed at construction. */
    const storage: Storage<bv32>

    ghost predicate Valid()
      reads this
    {
      storage.InBounds() && (storage.InArray? ==> v == 0)
    }

    /** `Single.Box(float v)`: a fresh inline box. */
    constructor Box(x: bv32)
      ensures Valid() && storage == Inline && v == x
    {
      v := x;
      storage := Inline;
    }

    /** The `InArray` constructor after its bounds check has passed. */
    constructor View(a: array<bv32>, i: int)
      requires 0 <= i < a.Length
      ensures Valid() && storage == InArray(a, i) && v == 0
    {
      v := 0;
      storage := InArray(a, i);
    }

    /**
     * `Single.Box(float[] a, int i)`: an array view. The bounds check tests
     * `i < 0` first, so a null array gives IndexOutOfRange for a negative index and
     * NullReference (reading `Length`) otherwise; no box on either error.
     */
    static method BoxInArray(a: array?<bv32>, i: int) returns (r: Result<Single>)
      ensures r.Err? <==> a == null || i < 0 || i >= a.Length
      ensures r.Err? ==> r.error == (if a == null && i >= 0 then NullReference else IndexOutOfRange)
      ensures r.Ok? ==> a != null && fresh(r.value) && r.value.Valid() && r.value.storage == InArray(a, i)
    {
      if i < 0 {
        return Err(IndexOutOfRange);
      }
      if a == null {
        return Err(NullReference);
      }
      if i >= a.Length {
        return Err(IndexOutOfRange);
      }
      var box := new Single.View(a, i);
      return Ok(box);
    }

    /** The payload: the inline field, or element `i` of the shared array. */
    function Get(): (r: bv32)
      reads this, storage.Objects()
      requires Valid()
      ensures storage.InArray? ==> r == storage.a[storage.i]
      ensures storage.Inline? ==> r == v
    {
      if storage.InArray? then storage.a[storage.i] else v
    }

    /**
     * `VolatileGet()`: an ordered read of the same slot `Get()` reads, the
     * field at `ValueOffset` or the element at `ElementOffset32(i)`.
     */
    function VolatileGet(): (r: bv32)
      reads this, storage.Objects()
      requires Valid()
      ensures r == Get()
    {
      if storage.InArray? then storage.a[storage.i] else v
    }

    /** `Set(float v)`: stores into the field, or into `a[i]` and nowhere else. */
    method Set(x: bv32)
      requires Valid()
      modifies this`v, storage.Objects()
      ensures Valid() && Get() == x
      ensures storage.Inline? ==> v == x
      ensures storage.InArray? ==> v == old(v) && storage.a[..] == old(storage.a[..])[storage.i := x]
    {
      if storage.InArray? {
        storage.a[storage.i] := x;
      } else {
        v := x;
      }
    }

    /** `VolatileSet(float v)`: an ordered write of the raw bits to the slot `Set` writes. */
    method VolatileSet(x: bv32)
      requires Valid()
      modifies this`v, storage.Objects()
      ensures Valid() && VolatileGet() == x
      ensures storage.Inline? ==> v == x
      ensures storage.InArray? ==> v == old(v) && storage.a[..] == old(storage.a[..])[storage.i := x]
    {
      if storage.InArray? {
        storage.a[storage.i] := x;
      } else {
        v := x;
      }
    }

    /** The static `Single.Set(float v, Single o)`: `o.Set(v)`, NullReference for a null `o`. */
    static method SetOn(x: bv32, o: Object) returns (r: Result<()>)
      requires o.Valid() && !o.Foreign?
      modifies o.Repr()
      ensures o.Null? ==> r == Err(NullReference)
      ensures o.ASingle? ==> r == Ok(()) && o.f.Valid() && o.f.Get() == x
      ensures o.ASingle? && o.f.storage.Inline? ==> o.f.v == x
      ensures o.ASingle? && o.f.storage.InArray? ==>
        o.f.v == old(o.f.v) && o.f.storage.a[..] == old(o.f.storage.a[..])[o.f.storage.i := x]
    {
      if o.Null? {
        return Err(NullReference);
      }
      o.f.Set(x);
      r := Ok(());
    }

    /** The static `Single.VolatileSet(float v, Single o)`: `o.VolatileSet(v)`, NullReference for a null `o`. */
    static method VolatileSetOn(x: bv32, o: Object) returns (r: Result<()>)
      requires o.Valid() && !o.Foreign?
      modifies o.Repr()
      ensures o.Null? ==> r == Err(NullReference)
      ensures o.ASingle? ==> r == Ok(()) && o.f.Valid() && o.f.VolatileGet() == x
      ensures o.ASingle? && o.f.storage.Inline? ==> o.f.v == x
      ensures o.ASingle? && o.f.storage.InArray? ==>
        o.f.v == old(o.f.v) && o.f.storage.a[..] == old(o.f.storage.a[..])[o.f.storage.i := x]
    {
      if o.Null? {
        return Err(NullReference);
      }
      o.f.VolatileSet(x);
      r := Ok(());
    }

    /** `GetHashCode()`: `HashBits` of the payload, read as an `int`. */
    function GetHashCode(): (r: int32)
      reads this, storage.Objects()
      requires Valid()
      ensures IsNaN(Get()) ==> r == 0x7F80_0000
      ensures IsZero(Get()) ==> r == 0
      ensures !IsNaN(Get()) && !IsZero(Get()) ==> r == ToInt32(Get())
    {
      ToInt32(HashBits(Get()))
    }

    /**
     * `CompareTo(object)`: 1 for null, ArgumentException unless the object is
     * a `Single` box. The float comparison `CompareTo(float)` itself is IEEE
     * arithmetic and is passed in as `compare`.
     */
    function CompareToObject(obj: Object, compare: (bv32, bv32) -> int): (r: Result<int>)
      reads this, storage.Objects(), obj.Repr()
      requires Valid() && obj.Valid()
      ensures obj.Null? ==> r == Ok(1)
      ensures obj.Foreign? ==> r == Err(Argument)
      ensures obj.ASingle? ==> r == Ok(compare(Get(), obj.f.Get()))
    {
      if obj.ASingle? then Ok(compare(Get(), obj.f.Get()))
      else if obj.Null? then Ok(1)
      else Err(Argument)
    }

    /** `ValueMethod.Clear()`: `Set(0)`, the pattern of +0. */
    method Clear()
      requires Valid()
      modifies this`v, storage.Objects()
      ensures Valid() && Get() == 0 && IsZero(Get())
      ensures storage.Inline? ==> v == 0
      ensures storage.InArray? ==> v == old(v) && storage.a[..] == old(storage.a[..])[storage.i := 0]
    {
      Set(0);
    }

    /**
     * `ValueMethod.CopyTo(into)`: `((Single) into).Set(Get())`. The cast fails
     * for a value of another class; `into` may be this box or share its storage.
     */
    method CopyTo(into: Object) returns (r: Result<()>)
      requires Valid() && into.Valid()
      modifies into.Repr()
      ensures into.Null? ==> r == Err(NullReference)
      ensures into.Foreign? ==> r == Err(InvalidCast)
      ensures into.ASingle? ==> r == Ok(()) && into.f.Valid() && into.f.Get() == old(Get())
      ensures into.ASingle? && into.f.storage.Inline? ==> into.f.v == old(Get())
      ensures into.ASingle? && into.f.storage.InArray? ==>
        into.f.v == old(into.f.v) && into.f.storage.a[..] == old(into.f.storage.a[..])[into.f.storage.i := old(Get())]
    {
      if into.Foreign? {
        return Err(InvalidCast);
      }
      r := SetOn(Get(), into);
    }

    /** `ValueMethod.Clone()`: `Box(Get())`, a fresh inline box, never an alias. */
    method Clone() returns (c: Single)
      requires Valid()
      ensures fresh(c) && c.Valid() && c.storage == Inline
      ensures c.Get() == Get()
    {
      c := new Single.Box(Get());
    }

    /**
     * `Get_I32()`: `floatToRawIntBits(v)`. It reads the field `v`, not `Get()`,
     * so on an array view it reports the untouched field and never the slot.
     */
    function GetI32(): (r: int32)
      reads this
      requires Valid()
      ensures storage.Inline? ==> r == ToInt32(Get())
      ensures storage.InArray? ==> r == 0
    {
      ToInt32(v)
    }

    /** `Set_I32(int v)`: `Set(intBitsToFloat(v))`, with `bits` the pattern of the `int` argument. */
    method SetI32(bits: bv32)
      requires Valid()
      modifies this`v, storage.Objects()
      ensures Valid() && Get() == bits
      ensures storage.Inline? ==> v == bits && GetI32() == ToInt32(bits)
      ensures storage.InArray? ==>
        v == old(v) && storage.a[..] == old(storage.a[..])[storage.i := bits] && GetI32() == 0
    {
      Set(bits);
    }

    /** `Get_I32()` as evidently intended: the bits of `Get()`, in both storage forms. */
    function GetI32Corrected(): (r: int32)
      reads this, storage.Objects()
      requires Valid()
      ensures r == ToInt32(Get())
      ensures storage.Inline? ==> r == GetI32()
    {
      ToInt32(Get())
    }
  }

  /**
   * `Set_I32` followed by `Get_I32` on an array view: the written pattern is
   * in the slot, yet `Get_I32` answers 0, the bits of the unused field.
   */
  method SetI32ThenGetI32OnView(a: array<bv32>, i: int, bits: bv32) returns (read: int32)
    requires 0 <= i < a.Length
    modifies a
    ensures a[i] == bits
    ensures read == 0
  {
    var box := new Single.View(a, i);
    box.SetI32(bits);
    read := box.GetI32();
  }

  /** With the corrected reader, `Set_I32(b); Get_I32()` returns `b` in both storage forms. */
  method SetI32ThenGetI32Corrected(box: Single, bits: bv32) returns (read: int32)
    requires box.Valid()
    modifies box`v, box.storage.Objects()
    ensures read == ToInt32(bits)
  {
    box.SetI32(bits);
    read := box.GetI32Corrected();
  }

  /**
   * Two views of the same slot always read alike, plainly or volatilely: a
   * write through either one, or straight into the array, is seen by the other.
   */
  lemma ViewsShareSlot(x: Single, y: Single)
    requires x.Valid() && y.Valid() && x.storage.InArray? && x.storage == y.storage
    ensures x.Get() == y.Get() == x.VolatileGet() == y.VolatileGet()
  {
  }

  /** Setting a clone leaves the box, and any array it views, as it was. */
  method SetClone(box: Single, x: bv32) returns (c: Single)
    requires box.Valid()
    ensures fresh(c) && c.Valid() && c.Get() == x
    ensures box.Get() == old(box.Get())
  {
    c := box.Clone();
    c.Set(x);
  }
}
