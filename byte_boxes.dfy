/**
 * The boxed 8-bit cells `SByte` and `Byte`. A box keeps its payload either in
 * its own field `v` or in slot `i` of an array it shares with other holders.
 * `Byte` derives from `SByte` in C#; here the two are separate classes and
 * `Byte` restates what it inherits.
 *
 * The inline field is declared `sbyte` in `SByte` and inherited by `Byte`, so
 * an inline `Byte` box reads back its pattern as a signed number, while a
 * `Byte` array view reads a `byte` element and gets 0..255. Every view that
 * masks with 0xFF (`GetU8`, `CompareToByte`) agrees on both forms.
 */
module ByteBoxes {
  import opened Runtime

  /** C# `sbyte`. */
  type int8 = x: int | -128 <= x < 128

  /** C# `byte`. */
  type uint8 = x: int | 0 <= x < 256

  /** `(sbyte) x`: the low 8 bits of `x`, read as a two's-complement number. */
  function ToSByte(x: int): (r: int8)
    ensures (x - r) % 256 == 0
  {
    (x + 128) % 256 - 128
  }

  /** `(byte) x`, and equally `x & 0xFF`: the low 8 bits of `x`, read as unsigned. */
  function ToByte(x: int): (r: uint8)
    ensures (x - r) % 256 == 0
  {
    x % 256
  }

  lemma TruncationsAgree(x: int)
    ensures ToByte(ToSByte(x)) == ToByte(x) && ToSByte(ToByte(x)) == ToSByte(x)
    ensures -128 <= x < 128 ==> ToSByte(x) == x
    ensures 0 <= x < 256 ==> ToByte(x) == x
  {
    SameLowByte(ToSByte(x), x, (ToSByte(x) - x) / 256);
    SameLowByte(ToByte(x), x, (ToByte(x) - x) / 256);
    if -128 <= x < 128 {
      EuclidUnique(x + 128, 0, x + 128);
    }
    if 0 <= x < 256 {
      EuclidUnique(x, 0, x);
    }
  }

  /**
   * The word that `Set_I8(x)` hands to `Set`:
   * `(int) ((byte) x | ((uint) current & 0xFFFFFF00))`. The mask clears the
   * low 8 bits of `(uint) current`, so the `|` with the byte `(byte) x` adds
   * two disjoint bit ranges and is written here as the sum. The low byte of the
   * word is that of `x`; the upper bits, taken from the current payload, are
   * discarded again by `Set`.
   */
  function SetI8Word(current: int, x: int): (w: int32)
    ensures ToSByte(w) == ToSByte(x) && ToByte(w) == ToByte(x)
    ensures 0 <= current < 256 ==> w == ToByte(x)
    ensures -128 <= current < 0 ==> w == ToByte(x) - 256
  {
    var unsigned := current % 0x1_0000_0000;         // (uint) current
    var upper := unsigned - unsigned % 256;           // ... & 0xFFFFFF00
    var w := ToInt32Wrap(ToByte(x) + upper);          // (int) ((byte) x | ...)
    SameLowByte(w, x, (w - ToByte(x)) / 256 - (x - ToByte(x)) / 256);
    w
  }

  /** Two numbers 256 * k apart have the same low byte. */
  lemma SameLowByte(a: int, b: int, k: int)
    requires a == b + 256 * k
    ensures ToSByte(a) == ToSByte(b) && ToByte(a) == ToByte(b)
  {
    EuclidUnique(a, b / 256 + k, b % 256);
    EuclidUnique(a + 128, (b + 128) / 256 + k, (b + 128) % 256);
  }

  /** The remainder of Euclidean division by 256 is the only one in range. */
  lemma EuclidUnique(a: int, q: int, r: int)
    requires a == 256 * q + r && 0 <= r < 256
    ensures a % 256 == r
  {
  }

  /** The members that throw whatever the box holds and whichever storage it uses. */
  datatype RefusedCall =
    | VolatileGet | VolatileSet | StaticVolatileSet
    | GetU16 | GetI16 | SetI16
    | GetU32 | GetI32 | SetI32
    | GetI64 | SetI64
    | GetF32 | SetF32
    | GetF64 | SetF64
    | ToDateTime

  /**
   * The outcome of a refused call on an `SByte` or `Byte` box. The rule, that
   * `ToDateTime` is an invalid cast and every other refused call is not
   * supported, is the same one `SingleBox.Refuse` applies to its own list.
   */
  function Refuse(c: RefusedCall): (r: Result<int>)
    ensures r.Err?
    ensures r.error == InvalidCast <==> c == ToDateTime
    ensures r.error == NotSupported <==> c != ToDateTime
  {
    match c
    case ToDateTime => Err(InvalidCast)
    case _ => Err(NotSupported)
  }

  /**
   * An `object` or `ValueType` argument: null, a plain `SByte` box, a `Byte`
   * box (which is an `SByte` too), or an object of any other class.
   */
  datatype Object = Null | AnSByte(s: SByte) | AByte(b: Byte) | Foreign
  {
    ghost function Repr(): set<object>
    {
      match this
      case AnSByte(s) => {s} + s.storage.Objects()
      case AByte(b) => {b} + b.storage.Objects()
      case _ => {}
    }

    ghost predicate Valid()
    {
      match this
      case AnSByte(s) => s.Valid()
      case AByte(b) => b.Valid()
      case _ => true
    }

    /** `obj is SByte`: a `Byte` box is an `SByte` too. */
    predicate IsSByte()
    {
      AnSByte? || AByte?
    }

    /** The boxed payload's `Get()`. */
    function Get(): int
      reads Repr()
      requires Valid() && IsSByte()
    {
      if AnSByte? then s.Get() else b.Get()
    }

    /** The boxed payload's `GetHashCode()`. */
    function HashCode(): int
      reads Repr()
      requires Valid() && IsSByte()
    {
      if AnSByte? then s.GetHashCode() else b.GetHashCode()
    }
  }

  class SByte {
    /** The inline payload; an array view never touches it. */
    var v: int8
    /** Which storage form this box has, fixed at construction. */
    const storage: Storage<int8>

    ghost predicate Valid()
    {
      storage.InBounds()
    }

    /** `SByte.Box(int v)`: a fresh inline box holding `(sbyte) v`. */
    constructor Box(x: int)
      ensures Valid() && storage == Inline && v == ToSByte(x)
    {
      v := ToSByte(x);
      storage := Inline;
    }

    /** The `InArray` constructor after its bounds check has passed. */
    constructor View(a: array<int8>, i: int)
      requires 0 <= i < a.Length
      ensures Valid() && storage == InArray(a, i) && v == 0
    {
      v := 0;
      storage := InArray(a, i);
    }

    /**
     * `SByte.Box(sbyte[] a, int i)`: an array view. The bounds check tests
     * `i < 0` first, so a null array gives IndexOutOfRange for a negative index and
     * NullReference (reading `Length`) otherwise; no box on either error.
     */
    static method BoxInArray(a: array?<int8>, i: int) returns (r: Result<SByte>)
      ensures r.Err? <==> a == null || i < 0 || i >= a.Length
      ensures r.Err? ==> r.error == (if a == null && i >= 0 then NullReference else IndexOutOfRange)
      ensures r.Ok? ==> a != null && fresh(r.value) && r.value.Valid() && r.value.storage == InArray(a, i)
    {
      if i < 0 {
        return Err(IndexOutOfRange);
      }
      if a == null {
        return Err(NullReference);
      }
      if i >= a.Length {
        return Err(IndexOutOfRange);
      }
      var box := new SByte.View(a, i);
      return Ok(box);
    }

    /** The payload: the inline field, or element `i` of the shared array. */
    function Get(): (r: int)
      reads this, storage.Objects()
      requires Valid()
      ensures -128 <= r < 128
    {
      if storage.InArray? then storage.a[storage.i] else v
    }

    /** `Set(int v)`: stores `(sbyte) v` in the field, or in `a[i]` and nowhere else. */
    method Set(x: int)
      requires Valid()
      modifies this`v, storage.Objects()
      ensures Get() == ToSByte(x)
      ensures storage.Inline? ==> v == ToSByte(x)
      ensures storage.InArray? ==>
        v == old(v) && storage.a[..] == old(storage.a[..])[storage.i := ToSByte(x)]
    {
      if storage.InArray? {
        storage.a[storage.i] := ToSByte(x);
      } else {
        v := ToSByte(x);
      }
    }

    /**
     * The static `SByte.Set(int v, SByte o)`, also reached as `Byte.Set`: `o`
     * is null, a plain `SByte` box or a `Byte` box, and `o.Set(v)` dispatches
     * on its class. A null `o` is a NullReferenceException.
     */
    static method SetOn(x: int, o: Object) returns (r: Result<()>)
      requires o.Valid() && !o.Foreign?
      modifies o.Repr()
      ensures o.Null? ==> r == Err(NullReference)
      ensures o.AnSByte? ==> r == Ok(()) && o.s.Get() == ToSByte(x)
      ensures o.AnSByte? && o.s.storage.Inline? ==> o.s.v == ToSByte(x)
      ensures o.AnSByte? && o.s.storage.InArray? ==>
        o.s.v == old(o.s.v) && o.s.storage.a[..] == old(o.s.storage.a[..])[o.s.storage.i := ToSByte(x)]
      ensures o.AByte? ==> r == Ok(()) && o.b.GetU8() == ToByte(x)
      ensures o.AByte? && o.b.storage.Inline? ==> o.b.v == ToSByte(x)
      ensures o.AByte? && o.b.storage.InArray? ==>
        o.b.v == old(o.b.v) && o.b.storage.a[..] == old(o.b.storage.a[..])[o.b.storage.i := ToByte(x)]
    {
      match o
      case Null => r := Err(NullReference);
      case AnSByte(s) => s.Set(x); r := Ok(());
      case AByte(b) => b.Set(x); r := Ok(());
    }

    /** `Equals(object)`: true exactly for an `SByte` or `Byte` box with the same `Get()`. */
    function EqualsObject(obj: Object): (r: bool)
      reads this, storage.Objects(), obj.Repr()
      requires Valid() && obj.Valid()
      ensures r ==> obj.IsSByte() && obj.Get() == Get()
      ensures obj.IsSByte() && obj.Get() == Get() ==> r
      ensures r ==> GetHashCode() == obj.HashCode()
      ensures r ==> CompareToObject(obj) == Ok(0)
      ensures obj.AnSByte? ==> (r <==> CompareToObject(obj) == Ok(0))
    {
      obj.IsSByte() && obj.Get() == Get()
    }

    /** `Equals(sbyte v)`. */
    function EqualsSByte(x: int8): (r: bool)
      reads this, storage.Objects()
      requires Valid()
      ensures r <==> CompareToSByte(x) == 0
    {
      x == Get()
    }

    /** `GetHashCode()`: the payload itself. */
    function GetHashCode(): (r: int)
      reads this, storage.Objects()
      requires Valid()
      ensures -128 <= r < 128
    {
      Get()
    }

    /** `CompareTo(object)`: 1 for null, ArgumentException unless the object is an `SByte` box. */
    function CompareToObject(obj: Object): (r: Result<int>)
      reads this, storage.Objects(), obj.Repr()
      requires Valid() && obj.Valid()
      ensures obj.Null? ==> r == Ok(1)
      ensures obj.Foreign? ==> r == Err(Argument)
      ensures obj.IsSByte() ==> r.Ok? && r.value in {-1, 0, 1}
      ensures obj.IsSByte() ==>
        (r.value == 0 <==> ToSByte(obj.Get()) == Get()) && (r.value < 0 <==> Get() < ToSByte(obj.Get()))
    {
      if obj.IsSByte() then Ok(CompareToSByte(ToSByte(obj.Get())))
      else if obj.Null? then Ok(1)
      else Err(Argument)
    }

    /** `CompareTo(sbyte b)`: the signed three-way comparison. */
    function CompareToSByte(b: int8): (r: int)
      reads this, storage.Objects()
      requires Valid()
      ensures r == -1 <==> Get() < b
      ensures r == 0 <==> Get() == b
      ensures r == 1 <==> Get() > b
    {
      var a := Get();
      if a < b then -1 else if a > b then 1 else 0
    }

    /** `ValueMethod.Clear()`: `Set(0)`. */
    method Clear()
      requires Valid()
      modifies this`v, storage.Objects()
      ensures Get() == 0
      ensures storage.Inline? ==> v == 0
      ensures storage.InArray? ==> v == old(v) && storage.a[..] == old(storage.a[..])[storage.i := 0]
    {
      Set(0);
    }

    /**
     * `ValueMethod.CopyTo(into)`: `((SByte) into).Set(Get())`. The cast fails for
     * a value of another class; a `Byte` target stores through `Byte.Set`.
     * `into` may be this box or share its storage.
     */
    method CopyTo(into: Object) returns (r: Result<()>)
      requires Valid() && into.Valid()
      modifies into.Repr()
      ensures into.Null? ==> r == Err(NullReference)
      ensures into.Foreign? ==> r == Err(InvalidCast)
      ensures into.AnSByte? ==> r == Ok(()) && into.s.Get() == old(Get())
      ensures into.AnSByte? && into.s.storage.Inline? ==> into.s.v == old(Get())
      ensures into.AnSByte? && into.s.storage.InArray? ==>
        into.s.v == old(into.s.v) && into.s.storage.a[..] == old(into.s.storage.a[..])[into.s.storage.i := old(Get())]
      ensures into.AByte? ==> r == Ok(()) && into.b.GetU8() == old(GetU8())
      ensures into.AByte? && into.b.storage.Inline? ==> into.b.v == old(Get())
      ensures into.AByte? && into.b.storage.InArray? ==>
        into.b.v == old(into.b.v) && into.b.storage.a[..] == old(into.b.storage.a[..])[into.b.storage.i := old(GetU8())]
    {
      if into.Foreign? {
        return Err(InvalidCast);
      }
      r := SetOn(Get(), into);
    }

    /** `ValueMethod.Clone()`: a fresh inline box with the same payload, never an alias. */
    method Clone() returns (c: SByte)
      requires Valid()
      ensures fresh(c) && c.Valid() && c.storage == Inline
      ensures c.Get() == Get()
    {
      c := new SByte.Box(Get());
    }

    /** `Get_U8()`: `(byte) Get()`. */
    function GetU8(): (r: int)
      reads this, storage.Objects()
      requires Valid()
      ensures 0 <= r < 256 && ToSByte(r) == Get()
      ensures Get() >= 0 ==> r == Get()
    {
      ToByte(Get())
    }

    /** `Get_I8()`: `(sbyte) Get()`, which is the payload unchanged. */
    function GetI8(): (r: int)
      reads this, storage.Objects()
      requires Valid()
      ensures r == Get()
    {
      ToSByte(Get())
    }

    /** `Set_I8(int v)`: `Set(SetI8Word(Get(), v))`; only the low byte of `v` survives. */
    method SetI8(x: int)
      requires Valid()
      modifies this`v, storage.Objects()
      ensures GetI8() == ToSByte(x) && GetU8() == ToByte(x)
      ensures storage.Inline? ==> v == ToSByte(x)
      ensures storage.InArray? ==>
        v == old(v) && storage.a[..] == old(storage.a[..])[storage.i := ToSByte(x)]
    {
      var w := SetI8Word(Get(), x);
      Set(w);
      TruncationsAgree(x);
      TruncationsAgree(Get());
    }
  }

  class Byte {
    /** The inline payload, the `sbyte` field inherited from `SByte`. */
    var v: int8
    /** Which storage form this box has, fixed at construction. */
    const storage: Storage<uint8>

    ghost predicate Valid()
    {
      storage.InBounds()
    }

    /** `Byte.Box(int v)`: a fresh inline box whose field holds `(sbyte) v`. */
    constructor Box(x: int)
      ensures Valid() && storage == Inline && v == ToSByte(x)
    {
      v := ToSByte(x);
      storage := Inline;
    }

    /** The `InArray` constructor after its bounds check has passed. */
    constructor View(a: array<uint8>, i: int)
      requires 0 <= i < a.Length
      ensures Valid() && storage == InArray(a, i) && v == 0
    {
      v := 0;
      storage := InArray(a, i);
    }

    /**
     * `Byte.Box(byte[] a, int i)`: an array view. The bounds check tests
     * `i < 0` first, so a null array gives IndexOutOfRange for a negative index and
     * NullReference (reading `Length`) otherwise; no box on either error.
     */
    static method BoxInArray(a: array?<uint8>, i: int) returns (r: Result<Byte>)
      ensures r.Err? <==> a == null || i < 0 || i >= a.Length
      ensures r.Err? ==> r.error == (if a == null && i >= 0 then NullReference else IndexOutOfRange)
      ensures r.Ok? ==> a != null && fresh(r.value) && r.value.Valid() && r.value.storage == InArray(a, i)
    {
      if i < 0 {
        return Err(IndexOutOfRange);
      }
      if a == null {
        return Err(NullReference);
      }
      if i >= a.Length {
        return Err(IndexOutOfRange);
      }
      var box := new Byte.View(a, i);
      return Ok(box);
    }

    /** The payload: the signed inline field, or the unsigned element `i` of the shared array. */
    function Get(): (r: int)
      reads this, storage.Objects()
      requires Valid()
      ensures storage.Inline? ==> -128 <= r < 128
      ensures storage.InArray? ==> 0 <= r < 256
    {
      if storage.InArray? then storage.a[storage.i] else v
    }

    /** `Set(int v)`: `(sbyte) v` into the field, or `(byte) v` into `a[i]` and nowhere else. */
    method Set(x: int)
      requires Valid()
      modifies this`v, storage.Objects()
      ensures GetU8() == ToByte(x)
      ensures storage.Inline? ==> v == ToSByte(x)
      ensures storage.InArray? ==>
        v == old(v) && storage.a[..] == old(storage.a[..])[storage.i := ToByte(x)]
    {
      if storage.InArray? {
        storage.a[storage.i] := ToByte(x);
      } else {
        v := ToSByte(x);
      }
    }

    /** `Equals(object)`: true exactly for a `Byte` box with the same `Get()`; a plain `SByte` box never matches. */
    function EqualsObject(obj: Object): (r: bool)
      reads this, storage.Objects(), obj.Repr()
      requires Valid() && obj.Valid()
      ensures r ==> obj.AByte? && obj.b.Get() == Get()
      ensures obj.AByte? && obj.b.Get() == Get() ==> r
      ensures r ==> GetHashCode() == obj.b.GetHashCode()
      ensures r ==> CompareToObject(obj) == Ok(0)
      ensures obj.AByte? && obj.b.storage.Inline? == storage.Inline? ==> (r <==> CompareToObject(obj) == Ok(0))
    {
      obj.AByte? && obj.b.Get() == Get()
    }

    /** `Equals(byte v)`: compares with `Get()`, so it fails for an inline box holding a pattern of 0x80 or more. */
    function EqualsByte(x: uint8): (r: bool)
      reads this, storage.Objects()
      requires Valid()
      ensures r ==> GetU8() == x
      ensures storage.InArray? ==> (r <==> GetU8() == x)
      ensures storage.Inline? ==> (r <==> GetU8() == x && x < 128)
    {
      x == Get()
    }

    /** `Equals(sbyte v)`, inherited: compares with `Get()`, so a view holding 0x80 or more equals no `sbyte`. */
    function EqualsSByte(x: int8): (r: bool)
      reads this, storage.Objects()
      requires Valid()
      ensures r <==> CompareToSByte(x) == 0
      ensures storage.Inline? ==> (r <==> GetI8() == x)
      ensures storage.InArray? && GetU8() >= 128 ==> !r
    {
      x == Get()
    }

    /** `CompareTo(sbyte b)`, inherited: the signed comparison of `Get()`, which on a view is 0..255. */
    function CompareToSByte(b: int8): (r: int)
      reads this, storage.Objects()
      requires Valid()
      ensures r == -1 <==> Get() < b
      ensures r == 0 <==> Get() == b
      ensures r == 1 <==> Get() > b
      ensures storage.InArray? && GetU8() >= 128 ==> r == 1
    {
      var a := Get();
      if a < b then -1 else if a > b then 1 else 0
    }

    /** `GetHashCode()`, inherited: the payload itself. */
    function GetHashCode(): (r: int)
      reads this, storage.Objects()
      requires Valid()
      ensures -128 <= r < 256
    {
      Get()
    }

    /** `CompareTo(object)`: 1 for null, ArgumentException unless the object is a `Byte` box. */
    function CompareToObject(obj: Object): (r: Result<int>)
      reads this, storage.Objects(), obj.Repr()
      requires Valid() && obj.Valid()
      ensures obj.Null? ==> r == Ok(1)
      ensures obj.Foreign? || obj.AnSByte? ==> r == Err(Argument)
      ensures obj.AByte? ==> r.Ok? && r.value in {-1, 0, 1}
      ensures obj.AByte? ==>
        (r.value == 0 <==> obj.b.GetU8() == GetU8()) && (r.value < 0 <==> GetU8() < obj.b.GetU8())
    {
      if obj.AByte? then Ok(CompareToByte(ToByte(obj.b.Get())))
      else if obj.Null? then Ok(1)
      else Err(Argument)
    }

    /** `CompareTo(byte v)`: `CompareSBytes((sbyte) Get(), (sbyte) v)`, an unsigned comparison. */
    function CompareToByte(x: uint8): (r: int)
      reads this, storage.Objects()
      requires Valid()
      ensures r == -1 <==> GetU8() < x
      ensures r == 0 <==> GetU8() == x
      ensures r == 1 <==> GetU8() > x
    {
      TruncationsAgree(Get());
      TruncationsAgree(x);
      CompareSBytes(ToSByte(Get()), ToSByte(x))
    }

    /** The static `Byte.CompareTo(sbyte a, sbyte b)`: orders the two patterns as unsigned bytes. */
    static function CompareSBytes(a: int8, b: int8): (r: int)
      ensures r == 0 <==> a == b
      ensures r == -1 <==> ToByte(a) < ToByte(b)
      ensures r == 1 <==> ToByte(a) > ToByte(b)
    {
      if a == b then 0 else if ToByte(a) < ToByte(b) then -1 else 1
    }

    /** `ValueMethod.Clear()`, inherited: `Set(0)`. */
    method Clear()
      requires Valid()
      modifies this`v, storage.Objects()
      ensures Get() == 0
      ensures storage.Inline? ==> v == 0
      ensures storage.InArray? ==> v == old(v) && storage.a[..] == old(storage.a[..])[storage.i := 0]
    {
      Set(0);
    }

    /**
     * `ValueMethod.CopyTo(into)`, inherited: `((SByte) into).Set(Get())`. A plain
     * `SByte` target receives `(sbyte) Get()`; the cast fails for a value of
     * another class.
     */
    method CopyTo(into: Object) returns (r: Result<()>)
      requires Valid() && into.Valid()
      modifies into.Repr()
      ensures into.Null? ==> r == Err(NullReference)
      ensures into.Foreign? ==> r == Err(InvalidCast)
      ensures into.AnSByte? ==> r == Ok(()) && into.s.Get() == ToSByte(old(Get()))
      ensures into.AnSByte? && into.s.storage.Inline? ==> into.s.v == ToSByte(old(Get()))
      ensures into.AnSByte? && into.s.storage.InArray? ==>
        into.s.v == old(into.s.v) &&
        into.s.storage.a[..] == old(into.s.storage.a[..])[into.s.storage.i := ToSByte(old(Get()))]
      ensures into.AByte? ==> r == Ok(()) && into.b.GetU8() == old(GetU8())
      ensures into.AByte? && into.b.storage.Inline? ==> into.b.v == ToSByte(old(Get()))
      ensures into.AByte? && into.b.storage.InArray? ==>
        into.b.v == old(into.b.v) && into.b.storage.a[..] == old(into.b.storage.a[..])[into.b.storage.i := old(GetU8())]
    {
      if into.Foreign? {
        return Err(InvalidCast);
      }
      r := SByte.SetOn(Get(), into);
    }

    /** `ValueMethod.Clone()`: `Byte.Box(Get())`, a fresh inline box with the same 8-bit pattern. */
    method Clone() returns (c: Byte)
      requires Valid()
      ensures fresh(c) && c.Valid() && c.storage == Inline
      ensures c.GetU8() == GetU8() && c.Get() == ToSByte(Get())
    {
      c := new Byte.Box(Get());
    }

    /** `Get_U8()`, inherited: `(byte) Get()`, the same in both storage forms. */
    function GetU8(): (r: int)
      reads this, storage.Objects()
      requires Valid()
      ensures 0 <= r < 256
      ensures storage.InArray? ==> r == Get()
      ensures storage.Inline? ==> ToSByte(r) == Get()
    {
      ToByte(Get())
    }

    /** `Get_I8()`, inherited: `(sbyte) Get()`. */
    function GetI8(): (r: int)
      reads this, storage.Objects()
      requires Valid()
      ensures -128 <= r < 128 && ToByte(r) == GetU8()
    {
      ToSByte(Get())
    }

    /** `Set_I8(int v)`, inherited: `Set(SetI8Word(Get(), v))`; only the low byte of `v` survives. */
    method SetI8(x: int)
      requires Valid()
      modifies this`v, storage.Objects()
      ensures GetI8() == ToSByte(x) && GetU8() == ToByte(x)
      ensures storage.Inline? ==> v == ToSByte(x)
      ensures storage.InArray? ==>
        v == old(v) && storage.a[..] == old(storage.a[..])[storage.i := ToByte(x)]
    {
      Set(SetI8Word(Get(), x));
    }
  }

  /**
   * Two `SByte` views of the same slot always read alike: a write through
   * either one, or straight into the array, is seen by the other.
   */
  lemma SByteViewsShareSlot(x: SByte, y: SByte)
    requires x.Valid() && y.Valid() && x.storage.InArray? && x.storage == y.storage
    ensures x.Get() == y.Get() == x.storage.a[x.storage.i]
  {
  }

  /** Two `Byte` views of the same slot always read alike. */
  lemma ByteViewsShareSlot(x: Byte, y: Byte)
    requires x.Valid() && y.Valid() && x.storage.InArray? && x.storage == y.storage
    ensures x.Get() == y.Get() == x.storage.a[x.storage.i]
  {
  }

  /** Setting a clone of an `SByte` box leaves the box, and any array it views, as it was. */
  method SetClone(box: SByte, x: int) returns (c: SByte)
    requires box.Valid()
    ensures fresh(c) && c.Valid() && c.Get() == ToSByte(x)
    ensures box.Get() == old(box.Get())
  {
    c := box.Clone();
    c.Set(x);
  }

  /** Setting a clone of a `Byte` box leaves the box, and any array it views, as it was. */
  method SetByteClone(box: Byte, x: int) returns (c: Byte)
    requires box.Valid()
    ensures fresh(c) && c.Valid() && c.GetU8() == ToByte(x)
    ensures box.Get() == old(box.Get())
  {
    c := box.Clone();
    c.Set(x);
  }

  /**
   * `Equals(object)` is not symmetric across the two classes: an `SByte` box
   * accepts a `Byte` box with the same `Get()`, while `Byte.Equals` rejects
   * every plain `SByte` box.
   */
  method EqualsNotSymmetric() returns (x: SByte, y: Byte)
    ensures x.Valid() && y.Valid()
    ensures x.EqualsObject(AByte(y)) && !y.EqualsObject(AnSByte(x))
  {
    x := new SByte.Box(1);
    y := new Byte.Box(1);
  }

  /**
   * The inherited signed members read a `Byte` view as 0..255: a view holding
   * 200 has `Get_I8() == -56`, yet compares above `(sbyte) -56` and does not equal it.
   */
  method SignedCompareOnView() returns (y: Byte)
    ensures y.Valid() && y.GetI8() == -56
    ensures y.CompareToSByte(-56) == 1 && !y.EqualsSByte(-56)
  {
    var a := new uint8[1];
    a[0] := 200;
    y := new Byte.View(a, 0);
    EuclidUnique(200 + 128, 1, 72);
  }

  /**
   * `CompareTo(object)` can answer 0 where `Equals(object)` answers false: an
   * inline `Byte.Box(200)` reads back -56, an array view holding 200 reads 200,
   * and only the comparison masks both to the byte 200.
   */
  method CompareWithoutEquals() returns (x: Byte, y: Byte)
    ensures x.Valid() && y.Valid()
    ensures x.CompareToObject(AByte(y)) == Ok(0) && !x.EqualsObject(AByte(y))
  {
    x := new Byte.Box(200);
    var a := new uint8[1];
    a[0] := 200;
    y := new Byte.View(a, 0);
    EuclidUnique(200 + 128, 1, 72);   // (sbyte) 200 == -56
    EuclidUnique(-56 + 128, 0, 72);   // (sbyte) -56 == -56
    EuclidUnique(-56, -1, 200);       // (byte) -56 == 200
    EuclidUnique(200, 0, 200);        // (byte) 200 == 200
  }

  /**
   * The same gap from an `SByte` receiver: `SByte.Box(-56)` compares with a
   * `Byte` view holding 200 through `(sbyte) 200 == -56`, so the comparison is
   * 0, while `Equals(object)` compares the payloads -56 and 200.
   */
  method SByteCompareWithoutEquals() returns (x: SByte, y: Byte)
    ensures x.Valid() && y.Valid()
    ensures x.CompareToObject(AByte(y)) == Ok(0) && !x.EqualsObject(AByte(y))
  {
    x := new SByte.Box(-56);
    var a := new uint8[1];
    a[0] := 200;
    y := new Byte.View(a, 0);
    EuclidUnique(200 + 128, 1, 72);   // (sbyte) 200 == -56
    EuclidUnique(-56 + 128, 0, 72);   // (sbyte) -56 == -56
  }
}
