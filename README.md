# Boxed primitive cells and the binding-flags member walk

This project models two pieces of a .NET compatibility library that runs on a
Java host, and proves properties of the model.

- **Boxed cells** `SByte`, `Byte` and `Single`. Each box holds one primitive
  payload. The payload lives either in the box's own field `v`, or in slot `i`
  of an array the box shares with other holders (the private `InArray`
  subclass). The model covers construction with its bounds check, `Get`/`Set`
  in both storage forms, the volatile accessors, equality, hashing,
  comparison, `Clear`/`CopyTo`/`Clone`, the typed indirection accessors and
  the accessors that always throw.
- **`BindingFlagsIterator`**. `Run` compiles a `BindingFlags` set into a
  modifier mask, a modifier value and a "declared only" flag. It then walks the
  `BaseType` chain of a type. For each type it fetches the declared
  constructors, methods or fields and hands every member whose host modifiers
  match to a callback. The callback can stop the whole walk by answering false.

Files:

- `runtime.dfy` (module `Runtime`): the exception kinds, a `Result` type, the
  two storage forms (`Storage<T>`) and the reading of a 32-bit pattern as an
  `int`.
- `byte_boxes.dfy` (module `ByteBoxes`): classes `SByte` and `Byte`.
- `single_box.dfy` (module `SingleBox`): class `Single`. The payload is its raw
  IEEE 754 binary32 pattern (IEEE 754-2019 section 3.4), as a `bv32`.
- `binding_flags_iterator.dfy` (module `BindingFlagsIterator`): `Run`, the
  walk and the walk's specification.

How the model is built:

- A thrown exception is an `Err` result carrying the exception kind.
- The boxes are Dafny classes. The storage form is a `const storage` that is
  either `Inline` or `InArray(a, i)`. `Set` modifies the field or the array
  element, and its contract says which one changed and that nothing else did.
- The host's reflection is abstract data. The type chain, from the initial type
  to the root, is a `seq<TypeInfo>`. Each type carries an identity and its
  declared members of each kind, in host order. Each member carries its
  modifier bits. The callback is a pure function `Member -> bool`.
- `Run` also returns two traces: the types it listed and the members it handed
  to the callback, in order. `IsWalk` describes the correct traces completely,
  and `WalkDeterministic` proves that at most one pair of traces satisfies it.

Two facts about the code that a reader might not expect:

- `Set` stores the payload truncated to 8 bits, so `Set(x); Get() == x` holds
  only for values already in range.
- `Byte` inherits the `sbyte` field `v` from `SByte`. An inline `Byte` box
  therefore reads back `Box(200)` as -56, while a `Byte` array view reads its
  `byte` element as 0..255. The unsigned views (`Get_U8`, `CompareTo(byte)`)
  agree on both forms.

`Equals(object)` and `CompareTo(object)` of the 8-bit boxes, as written, do
not have every property of a .NET equality. Equal boxes hash alike, and
equality implies a comparison of 0. But `SByte.Equals` accepts a `Byte` box
that `Byte.Equals` rejects in the other direction (`EqualsNotSymmetric`). And
a box can compare as 0 with a `Byte` array view without being equal to it:
an inline `Byte` box (`CompareWithoutEquals`) or a plain `SByte` box
(`SByteCompareWithoutEquals`) against a view holding 200.

## Model

| member | source | states |
|---|---|---|
| ByteBoxes.ToSByte | Baselib/src/System/Byte.cs:16 | `(sbyte) x` lies in [-128, 127] and is congruent to `x` modulo 256 |
| ByteBoxes.ToByte | Baselib/src/System/Byte.cs:90 | `(byte) x` lies in [0, 255] and is congruent to `x` modulo 256 |
| ByteBoxes.TruncationsAgree | Baselib/src/System/Byte.cs:90-91 | the signed and unsigned 8-bit truncations keep the same low byte, and each leaves a value already in its range unchanged |
| ByteBoxes.SetI8Word | Baselib/src/System/Byte.cs:92 | the word `Set_I8` builds has the low byte of the argument; its upper bits are those of the current payload read as `uint` |
| ByteBoxes.Refuse | Baselib/src/System/Byte.cs:21-146 | the volatile accessors (lines 21, 24, 27) and every 16-, 32-, 64-bit and float accessor throw NotSupportedException; `ToDateTime` (lines 145-146) alone throws InvalidCastException |
| ByteBoxes.SByte.Box | Baselib/src/System/Byte.cs:16 | a fresh inline box whose field holds `(sbyte) v` |
| ByteBoxes.SByte.View | Baselib/src/System/Byte.cs:161-167 | an in-bounds array view of slot `i` of `a` |
| ByteBoxes.SByte.BoxInArray | Baselib/src/System/Byte.cs:161-167 | IndexOutOfRangeException when `i < 0`, even for a null array (the `||` tests `i < 0` first); otherwise NullReferenceException for a null array and IndexOutOfRangeException when `i >= a.Length`; no box on either error; otherwise a fresh view of slot `i` of `a` |
| ByteBoxes.SByte.Get | Baselib/src/System/Byte.cs:169 | the payload is always in [-128, 127] |
| ByteBoxes.SByte.Set | Baselib/src/System/Byte.cs:172 | `Get()` becomes `(sbyte) x`; an inline box changes only its field; a view changes only `a[i]`, with every other element and the field unchanged |
| ByteBoxes.SByte.SetOn | Baselib/src/System/Byte.cs:26 | the static `Set(v, o)` dispatches on `o`'s class: a plain `SByte` box gets `Get() == (sbyte) v`, a `Byte` box gets `Get_U8() == (byte) v`, each written as its own `Set` writes; a null `o` is a NullReferenceException |
| ByteBoxes.SByte.EqualsObject | Baselib/src/System/Byte.cs:31-35 | true exactly for an `SByte` or `Byte` box whose `Get()` equals this box's; equal boxes hash alike; equality implies `CompareTo(object)` is 0, and against a plain `SByte` box the converse holds too |
| ByteBoxes.SByte.EqualsSByte | Baselib/src/System/Byte.cs:44 | `Equals(sbyte)` holds exactly when `CompareTo(sbyte)` is 0 |
| ByteBoxes.SByte.GetHashCode | Baselib/src/System/Byte.cs:37 | the hash is the payload, in [-128, 127] |
| ByteBoxes.SByte.CompareToObject | Baselib/src/System/Byte.cs:62-69 | 1 for null; ArgumentException for an object that is not an `SByte` box; otherwise -1, 0 or 1 by signed order of this box's payload against `(sbyte) obj.Get()`, so a `Byte` view holding 200 counts as -56 |
| ByteBoxes.SByte.CompareToSByte | Baselib/src/System/Byte.cs:72-76 | -1, 0 or 1 exactly when the payload is below, equal to or above `b` |
| ByteBoxes.SByte.Clear | Baselib/src/System/Byte.cs:80 | `Get()` becomes 0, writing only the box's own slot |
| ByteBoxes.SByte.CopyTo | Baselib/src/System/Byte.cs:81 | InvalidCastException for a value of another class, NullReferenceException for null; an `SByte` target's `Get()` becomes the source's old `Get()`, a `Byte` target's `Get_U8()` its old `Get_U8()`; only the target's slot is written |
| ByteBoxes.SByte.Clone | Baselib/src/System/Byte.cs:82 | a fresh inline box, never a view, with the same `Get()` |
| ByteBoxes.SByte.GetU8 | Baselib/src/System/Byte.cs:90 | `Get_U8()` is in [0, 255] and has the payload's bit pattern |
| ByteBoxes.SByte.GetI8 | Baselib/src/System/Byte.cs:91 | `Get_I8()` equals `Get()` |
| ByteBoxes.SByte.SetI8 | Baselib/src/System/Byte.cs:92 | afterwards `Get_I8()` is `(sbyte) v` and `Get_U8()` is `(byte) v`; the old upper bits are discarded; only the box's own slot changes |
| ByteBoxes.SByteViewsShareSlot | Baselib/src/System/Byte.cs:169-172 | two views of the same slot read the same value, the array element, so a write through either one or into the array is seen by both |
| ByteBoxes.SetClone | Baselib/src/System/Byte.cs:82 | setting a clone leaves the source box's `Get()` unchanged, even when the source is an array view |
| ByteBoxes.Byte.Box | Baselib/src/System/Byte.cs:184 | a fresh inline box whose inherited `sbyte` field holds `(sbyte) v` |
| ByteBoxes.Byte.View | Baselib/src/System/Byte.cs:226-232 | an in-bounds array view of slot `i` of `a` |
| ByteBoxes.Byte.BoxInArray | Baselib/src/System/Byte.cs:226-232 | IndexOutOfRangeException when `i < 0`, even for a null array (the `||` tests `i < 0` first); otherwise NullReferenceException for a null array and IndexOutOfRangeException when `i >= a.Length`; no box on either error; otherwise a fresh view of slot `i` of `a` |
| ByteBoxes.Byte.Get | Baselib/src/System/Byte.cs:234 | an inline box reads in [-128, 127]; a view reads in [0, 255] |
| ByteBoxes.Byte.Set | Baselib/src/System/Byte.cs:237 | `Get_U8()` becomes `(byte) x`; the field receives `(sbyte) x`, or `a[i]` receives `(byte) x` and nothing else in the array changes |
| ByteBoxes.Byte.EqualsObject | Baselib/src/System/Byte.cs:188-192 | true exactly for a `Byte` box with the same `Get()`, never for a plain `SByte` box; equal boxes hash alike; equality implies `CompareTo(object)` is 0, and the converse holds between boxes of the same storage form |
| ByteBoxes.Byte.EqualsByte | Baselib/src/System/Byte.cs:195 | on a view, true exactly when the payload is `v`; on an inline box, also only when `v < 128` |
| ByteBoxes.Byte.EqualsSByte | Baselib/src/System/Byte.cs:44 | the inherited `Equals(sbyte)` holds exactly when the inherited `CompareTo(sbyte)` is 0; inline, exactly when `Get_I8()` is `v`; a view holding 128 or more equals no `sbyte` |
| ByteBoxes.Byte.GetHashCode | Baselib/src/System/Byte.cs:37 | the hash is the payload, in [-128, 255] |
| ByteBoxes.Byte.CompareToObject | Baselib/src/System/Byte.cs:200-207 | 1 for null; ArgumentException for a plain `SByte` box or any other object; otherwise -1, 0 or 1 by unsigned order of the payloads |
| ByteBoxes.Byte.CompareToByte | Baselib/src/System/Byte.cs:210 | -1, 0 or 1 exactly when `Get_U8()` is below, equal to or above `v` |
| ByteBoxes.Byte.CompareToSByte | Baselib/src/System/Byte.cs:72-76 | the inherited `CompareTo(sbyte)`: -1, 0 or 1 exactly when `Get()` is below, equal to or above `b` in signed order; a view holding 128 or more compares above every `sbyte` |
| ByteBoxes.Byte.CompareSBytes | Baselib/src/System/Byte.cs:212-213 | 0 exactly when `a == b`; otherwise ordered by `a & 0xFF` against `b & 0xFF`, so the pattern 0xFF ranks above 0x01 |
| ByteBoxes.Byte.Clear | Baselib/src/System/Byte.cs:80 | `Get()` becomes 0, writing only the box's own slot |
| ByteBoxes.Byte.CopyTo | Baselib/src/System/Byte.cs:81 | the inherited copy: InvalidCastException for a value of another class, NullReferenceException for null; a plain `SByte` target gets `(sbyte) Get()`, a `Byte` target gets the source's old `Get_U8()`; only the target's slot is written |
| ByteBoxes.Byte.Clone | Baselib/src/System/Byte.cs:186 | a fresh inline box with the same 8-bit pattern, never a view |
| ByteBoxes.Byte.GetU8 | Baselib/src/System/Byte.cs:90 | `Get_U8()` is in [0, 255]; it equals `Get()` on a view and has the field's bit pattern on an inline box |
| ByteBoxes.Byte.GetI8 | Baselib/src/System/Byte.cs:91 | `Get_I8()` is in [-128, 127] with the bit pattern of `Get_U8()` |
| ByteBoxes.Byte.SetI8 | Baselib/src/System/Byte.cs:92 | afterwards `Get_I8()` is `(sbyte) v` and `Get_U8()` is `(byte) v`; only the box's own slot changes |
| ByteBoxes.ByteViewsShareSlot | Baselib/src/System/Byte.cs:234-237 | two views of the same slot read the same value, the array element |
| ByteBoxes.SetByteClone | Baselib/src/System/Byte.cs:186 | setting a clone leaves the source box's `Get()` unchanged, even when the source is an array view |
| ByteBoxes.EqualsNotSymmetric | Baselib/src/System/Byte.cs:31-35 | `SByte.Box(1).Equals(Byte.Box(1))` is true while `Byte.Box(1).Equals(SByte.Box(1))` is false (lines 33 and 190 cast to different classes) |
| ByteBoxes.SignedCompareOnView | Baselib/src/System/Byte.cs:44 | a `Byte` array view holding 200 has `Get_I8()` of -56, yet `CompareTo((sbyte) -56)` is 1 and `Equals((sbyte) -56)` is false, because the inherited members read the unsigned element |
| ByteBoxes.CompareWithoutEquals | Baselib/src/System/Byte.cs:184-207 | an inline `Byte.Box(200)` and a `Byte` array view holding 200 compare as 0 yet are not `Equals`, because the inline field reads back -56 |
| ByteBoxes.SByteCompareWithoutEquals | Baselib/src/System/Byte.cs:31-35 | a plain `SByte.Box(-56)` and a `Byte` array view holding 200 compare as 0, because line 65 casts the view's 200 to -56, yet are not `Equals`, because line 34 compares -56 with 200 |
| Runtime.ToInt32Wrap | Baselib/src/System/Byte.cs:92 | the `(int)` cast of a `uint` value is the same 32 bits read as a signed number: in `int` range and congruent modulo 2^32 |
| Runtime.ToInt32 | Baselib/src/System/Single.cs:137 | a 32-bit pattern, such as `floatToRawIntBits` returns, read as an `int`: in `int` range and congruent to the pattern modulo 2^32 |
| SingleBox.HashBits | Baselib/src/System/Single.cs:38-44 | every NaN pattern, of either sign, hashes to 0x7F800000; both zeros hash to 0; every other pattern hashes to itself |
| SingleBox.HashCollapsesNaNsAndZeros | Baselib/src/System/Single.cs:38-44 | all NaNs share one hash, as do both zeros; two distinct patterns share a hash only then, or when one is a NaN and the other is +infinity |
| SingleBox.Refuse | Baselib/src/System/Single.cs:129-144 | the 8-, 16- and 64-bit accessors and `Get_F64`/`Set_F64` throw NotSupportedException; `ToDateTime` alone throws InvalidCastException |
| SingleBox.Single.Box | Baselib/src/System/Single.cs:16 | a fresh inline box holding the given bits |
| SingleBox.Single.View | Baselib/src/System/Single.cs:196-202 | an in-bounds array view of slot `i` of `a`, whose own field stays +0 |
| SingleBox.Single.BoxInArray | Baselib/src/System/Single.cs:196-202 | IndexOutOfRangeException when `i < 0`, even for a null array (the `||` tests `i < 0` first); otherwise NullReferenceException for a null array and IndexOutOfRangeException when `i >= a.Length`; no box on either error; otherwise a fresh view of slot `i` of `a` |
| SingleBox.Single.Get | Baselib/src/System/Single.cs:204 | a view reads `a[i]`; an inline box reads its field |
| SingleBox.Single.VolatileGet | Baselib/src/System/Single.cs:205-207 | the volatile read addresses the same slot as `Get()` |
| SingleBox.Single.Set | Baselib/src/System/Single.cs:209 | `Get()` becomes `x`; an inline box changes only its field; a view changes only `a[i]` |
| SingleBox.Single.VolatileSet | Baselib/src/System/Single.cs:210-212 | a following `VolatileGet()` returns the bits just written, from the same slot `Set` writes |
| SingleBox.Single.SetOn | Baselib/src/System/Single.cs:27 | the static `Set(v, o)` makes `o.Get()` equal `v`, writing only `o`'s slot; a null `o` is a NullReferenceException |
| SingleBox.Single.VolatileSetOn | Baselib/src/System/Single.cs:28 | the static `VolatileSet(v, o)` makes `o.VolatileGet()` equal `v`, writing only `o`'s slot; a null `o` is a NullReferenceException |
| SingleBox.Single.GetHashCode | Baselib/src/System/Single.cs:38-44 | the hash is 0x7F800000 for every NaN payload, 0 for either zero, and otherwise the payload's bits read as an `int` |
| SingleBox.Single.CompareToObject | Baselib/src/System/Single.cs:69-76 | 1 for null; ArgumentException for an object that is not a `Single` box; otherwise the float comparison of the two payloads |
| SingleBox.Single.Clear | Baselib/src/System/Single.cs:87 | `Get()` becomes the pattern of +0, writing only the box's own slot |
| SingleBox.Single.CopyTo | Baselib/src/System/Single.cs:88 | InvalidCastException for a value of another class, NullReferenceException for null; a `Single` target's `Get()` becomes the source's old `Get()`, writing only the target's slot |
| SingleBox.Single.Clone | Baselib/src/System/Single.cs:89 | a fresh inline box, never a view, with the same `Get()` |
| SingleBox.Single.GetI32 | Baselib/src/System/Single.cs:137 | on an inline box, the payload's bits as an `int`; on a view, always 0, whatever the slot holds |
| SingleBox.Single.SetI32 | Baselib/src/System/Single.cs:138 | `Get()` becomes the given bits through `Set`; `Get_I32()` then returns them on an inline box and 0 on a view |
| SingleBox.Single.GetI32Corrected | Baselib/src/System/Single.cs:137 | the bits of `Get()` in both storage forms; it agrees with `Get_I32` on inline boxes |
| SingleBox.SetI32ThenGetI32OnView | Baselib/src/System/Single.cs:137-138 | on a view, `Set_I32(b)` puts `b` into the slot, yet the following `Get_I32()` returns 0 |
| SingleBox.SetI32ThenGetI32Corrected | Baselib/src/System/Single.cs:137-138 | with the corrected reader, `Set_I32(b)` then `Get_I32()` returns `b` in both storage forms |
| SingleBox.ViewsShareSlot | Baselib/src/System/Single.cs:204-212 | two views of the same slot read alike, plainly and volatilely |
| SingleBox.SetClone | Baselib/src/System/Single.cs:89 | setting a clone leaves the source box's `Get()` unchanged, even when the source is an array view |
| BindingFlagsIterator.KindOf | Baselib/src/System/Reflection/BindingFlagsIterator.cs:71-86 | Constructor, Method and Field select their walk; every other `MemberTypes` value is an ArgumentException |
| BindingFlagsIterator.Plan.Matches | Baselib/src/System/Reflection/BindingFlagsIterator.cs:108 | the test `(jmodifiers & modifierMask) == modifierValue` (also lines 140 and 176): an empty mask passes every member exactly when the value is 0; a value bit outside the mask passes none |
| BindingFlagsIterator.Compile | Baselib/src/System/Reflection/BindingFlagsIterator.cs:21-69 | nothing matches exactly when the visibility or the static/instance axis is empty; otherwise stray bits are refused; a plan's value lies within its mask and `loopOnce` is the DeclaredOnly bit |
| BindingFlagsIterator.CompileFlags | Baselib/src/System/Reflection/BindingFlagsIterator.cs:21-69 | the step-by-step compilation agrees with `Compile`: nothing matches if a visibility or static/instance axis is empty, even with stray bits; otherwise any bit outside the five known flags is refused; otherwise a plan |
| BindingFlagsIterator.CompiledFilterMeaning | Baselib/src/System/Reflection/BindingFlagsIterator.cs:39-47 | a compiled plan keeps a member exactly when it is static and Static was asked for, or it is not static and Instance was asked for |
| BindingFlagsIterator.CompileReads | Baselib/src/System/Reflection/BindingFlagsIterator.cs:21-69 | the compilation depends only on whether a visibility bit is set, on the static and instance bits, on the unrecognised bits and on DeclaredOnly |
| BindingFlagsIterator.VisibilityBits | Baselib/src/System/Reflection/BindingFlagsIterator.cs:24-37 | swapping in Public, NonPublic or both keeps a visibility bit and leaves every other bit the compilation reads unchanged |
| BindingFlagsIterator.PlanShapes | Baselib/src/System/Reflection/BindingFlagsIterator.cs:39-59 | Static alone gives (STATIC, STATIC); Instance alone gives (STATIC, 0); both give (0, 0), which matches every member; `loopOnce` is exactly the DeclaredOnly bit |
| BindingFlagsIterator.VisibilityNeverMasked | Baselib/src/System/Reflection/BindingFlagsIterator.cs:24-37 | asking for Public, NonPublic or both yields the same compilation outcome |
| BindingFlagsIterator.Scope | Baselib/src/System/Reflection/BindingFlagsIterator.cs:164-186 | the types a walk lists when never stopped: a prefix of the chain; the whole chain, or only the initial type under DeclaredOnly; a field walk stops just before the first type that is `Object` |
| BindingFlagsIterator.FilterMembers | Baselib/src/System/Reflection/BindingFlagsIterator.cs:105-113 | a member survives the filter exactly when the type declares it and `(modifiers & mask) == value` |
| BindingFlagsIterator.CandidateMembers | Baselib/src/System/Reflection/BindingFlagsIterator.cs:97-118 | a member is a candidate exactly when it matches and some listed type declares it |
| BindingFlagsIterator.OfferDeclared | Baselib/src/System/Reflection/BindingFlagsIterator.cs:173-181 | the `foreach` hands the matching members to the callback in declared order and stops at the first refusal; all of them reach the callback when none is refused |
| BindingFlagsIterator.AtObject | Baselib/src/System/Reflection/BindingFlagsIterator.cs:166-167 | a field walk that reaches `Object` ends there without listing it |
| BindingFlagsIterator.StopInType | Baselib/src/System/Reflection/BindingFlagsIterator.cs:176-179 | a refusal inside the current type's `foreach` ends the walk as a stopped walk that satisfies `IsWalk`, with the current type listed |
| BindingFlagsIterator.CompleteType | Baselib/src/System/Reflection/BindingFlagsIterator.cs:173-181 | a `foreach` that runs to its end adds the type to the listing and all its matching members, every one accepted, to the visited members |
| BindingFlagsIterator.FinishAfterType | Baselib/src/System/Reflection/BindingFlagsIterator.cs:183-185 | without a refusal, DeclaredOnly or reaching the root ends the walk after the current type, as a finished walk that satisfies `IsWalk` |
| BindingFlagsIterator.MoveToBase | Baselib/src/System/Reflection/BindingFlagsIterator.cs:183-185 | without a refusal, and neither DeclaredOnly nor at the root, the walk moves to the base type with the loop invariant `Walking` kept |
| BindingFlagsIterator.VisitType | Baselib/src/System/Reflection/BindingFlagsIterator.cs:164-186 | one round of the loop either ends a walk that satisfies `IsWalk`, or keeps the loop invariant `Walking` for the next type |
| BindingFlagsIterator.Walk | Baselib/src/System/Reflection/BindingFlagsIterator.cs:157-187 | the walk's traces satisfy `IsWalk` over `Scope` (the constructor and method walks, lines 93-151, are the same loop without the `Object` check) |
| BindingFlagsIterator.Run | Baselib/src/System/Reflection/BindingFlagsIterator.cs:12-87 | an empty axis returns with no listing and no callback; stray bits throw PlatformNotSupportedException; an unknown member kind throws ArgumentException only after the flag checks; otherwise the traces satisfy `IsWalk` |
| BindingFlagsIterator.VisitedFromListed | Baselib/src/System/Reflection/BindingFlagsIterator.cs:105-117 | the visited members are, in order, a prefix of the matching members of the listed types |
| BindingFlagsIterator.StopIsImmediate | Baselib/src/System/Reflection/BindingFlagsIterator.cs:173-181 | a stopped walk ends on a refused member that passed the filter in the last listed type, after every candidate of the earlier listed types |
| BindingFlagsIterator.WalkDeterministic | Baselib/src/System/Reflection/BindingFlagsIterator.cs:93-119 | `IsWalk` admits only one outcome and one pair of traces per scope and callback |
| BindingFlagsIterator.DeclaredOnlyStaysOnInitialType | Baselib/src/System/Reflection/BindingFlagsIterator.cs:54-59 | under DeclaredOnly, at most the initial type is listed and only its declared members are visited |
| BindingFlagsIterator.ObjectFieldsHidden | Baselib/src/System/Reflection/BindingFlagsIterator.cs:161-167 | a field walk never lists `Object` and never visits its fields; a field walk that starts at `Object` lists and visits nothing |

## Left out

- `ToString` and `ToString(format, provider)`: they delegate to host formatting routines.
- The `IConvertible` conversions and `ToType`: they call the host conversion library. Only the `ToDateTime` failure is modelled.
- `GetTypeCode`: it returns a constant enumeration value and carries no behaviour.
- Float value semantics: `Single.CompareTo(float)`, `Equals(float)`, `Equals(object)` and the `IsNaN`/`IsFinite`/... helpers compare IEEE values. They are floating-point arithmetic and are not modelled.
- SingleBox.Single.CompareToObject: the float comparison `CompareTo(float)` is a parameter, so the contract fixes only the null and wrong-type cases and which payloads are compared.
- `intBitsToFloat`/`floatToRawIntBits`: they are the identity on bit patterns here. NaN payload canonicalisation by the host is not modelled.
- The `JavaUnsafe` primitives (`FieldOffset`, `ElementOffset32`, `getIntVolatile`, `putIntVolatile`) and the cached `_ValueOffset`: volatile access is modelled as a plain access to the same slot.
- Memory ordering and concurrency of any kind: the model is sequential.
- The protected `Clone(int v)` factory: it is folded into each class's `Clone`.
- Host reflection (`JavaClassForArray`, `getDeclaredConstructors`/`Methods`/`Fields`, `getModifiers`): each type's declared members and modifier bits are given data, and `Modifier.STATIC` is its value 8.
- A null `initialType`: `Run` requires a non-empty chain.
- A null receiver of an instance method: box references are non-null. Null arguments of `CopyTo`, the static `Set`/`VolatileSet` and `BoxInArray` are modelled.
- The callback's side effects: the callback is a pure function of the member.
- Type identity is an integer `id` standing for reference equality with `typeof(Object)`.

## Findings

| source | as written | input that shows it | evidently intended | confidence | as-written member | corrected member |
|---|---|---|---|---|---|---|
| Baselib/src/System/Single.cs:137 | `Get_I32()` reads the field `v` rather than `Get()`; an array view never writes that field | an array view of `a[0]`, then `Set_I32(0x3F800000)`: the slot holds the bits, `Get_I32()` returns 0 | `Get_I32()` returns the bits of `Get()`, as `Set_I32` writes through `Set` | not executed | SingleBox.SetI32ThenGetI32OnView | SingleBox.Single.GetI32Corrected |
