/**
 * The object dictionary as a value: entries by index, locations by index and sub-index
 * (crates/powerlink-rs/src/od/entry.rs, od/mod.rs).
 */
module Entries {
  import opened Wrappers
  import opened Bytes
  import opened ObjectValues

  datatype AccessType =
    | ReadOnly
    | WriteOnly
    | WriteOnlyStore
    | ReadWrite
    | ReadWriteStore
    | Constant
    | Conditional

  datatype Object =
    | Variable(value: ObjectValue)
    | Array(values: seq<ObjectValue>)
    | Record(values: seq<ObjectValue>)

  /** Name, category, range and mapping hints play no part in the modelled operations. */
  datatype ObjectEntry = ObjectEntry(obj: Object, access: Option<AccessType>, defaultValue: Option<ObjectValue>)

  type Dictionary = map<u16, ObjectEntry>

  type Location = (u16, u8)

  // ---- The flat view: which locations hold a value, and which ----

  predicate Holds(o: Object, sub: u8) {
    match o
    case Variable(_) => sub == 0
    case Array(vs) => 1 <= sub <= |vs|
    case Record(vs) => 1 <= sub <= |vs|
  }

  function At(o: Object, sub: u8): ObjectValue
    requires Holds(o, sub)
  {
    if o.Variable? then o.value else o.values[sub - 1]
  }

  function PutObject(o: Object, sub: u8, v: ObjectValue): Object
    requires Holds(o, sub)
  {
    if o.Variable? then o.(value := v) else o.(values := o.values[sub - 1 := v])
  }

  predicate HasLocation(d: Dictionary, index: u16, sub: u8) {
    index in d && Holds(d[index].obj, sub)
  }

  function Value(d: Dictionary, index: u16, sub: u8): ObjectValue
    requires HasLocation(d, index, sub)
  {
    At(d[index].obj, sub)
  }

  // ---- Reading ----

  function Min(a: nat, b: nat): nat { if a <= b then a else b }

  /** Sub-index 0 of an array or record reads as the number of its elements, at most 254. */
  function Read(d: Dictionary, index: u16, sub: u8): Option<ObjectValue> {
    if HasLocation(d, index, sub) then Some(Value(d, index, sub))
    else if index in d && !d[index].obj.Variable? && sub == 0 then
      Some(Unsigned8(Min(|d[index].obj.values|, 254)))
    else None
  }

  function ReadU8(d: Dictionary, index: u16, sub: u8): Option<u8> {
    match Read(d, index, sub)
    case Some(Unsigned8(v)) => Some(v)
    case _ => None
  }

  function ReadU16(d: Dictionary, index: u16, sub: u8): Option<u16> {
    match Read(d, index, sub)
    case Some(Unsigned16(v)) => Some(v)
    case _ => None
  }

  function ReadU32(d: Dictionary, index: u16, sub: u8): Option<u32> {
    match Read(d, index, sub)
    case Some(Unsigned32(v)) => Some(v)
    case _ => None
  }

  function GetOr<T>(o: Option<T>, fallback: T): T {
    match o
    case Some(v) => v
    case None => fallback
  }

  // ---- Writing ----

  predicate IsMappingIndex(index: u16) { 0x1600 <= index <= 0x16FF || 0x1A00 <= index <= 0x1AFF }

  predicate IsProtected(e: ObjectEntry) { e.access == Some(ReadOnly) || e.access == Some(Constant) }

  /** Result of an internal write. */
  function WriteOutcome(d: Dictionary, index: u16, sub: u8, v: ObjectValue, checkAccess: bool): Result<(), Error> {
    if index !in d then Err(ObjectNotFound)
    else if checkAccess && IsProtected(d[index]) then Err(StorageError(ReadOnlyObject))
    else if HasLocation(d, index, sub) then
      if SameType(Value(d, index, sub), v) then Ok(()) else Err(TypeMismatch)
    else if d[index].obj.Variable? || sub != 0 then Err(SubObjectNotFound)
    else if !IsMappingIndex(index) then Err(StorageError(CountNotWritable))
    else if v.Unsigned8? then Ok(())
    else Err(TypeMismatch)
  }

  /** The dictionary after an internal write; writing a mapping count stores nothing. */
  function Written(d: Dictionary, index: u16, sub: u8, v: ObjectValue, checkAccess: bool): Dictionary {
    if WriteOutcome(d, index, sub, v, checkAccess).Ok? && HasLocation(d, index, sub) then
      d[index := d[index].(obj := PutObject(d[index].obj, sub, v))]
    else d
  }

  // ---- Shape ----

  predicate SameObjectShape(a: Object, b: Object) {
    match a
    case Variable(v) => b.Variable? && SameType(v, b.value)
    case Array(vs) => b.Array? && |vs| == |b.values| && forall k :: 0 <= k < |vs| ==> SameType(vs[k], b.values[k])
    case Record(vs) => b.Record? && |vs| == |b.values| && forall k :: 0 <= k < |vs| ==> SameType(vs[k], b.values[k])
  }

  /** Same indices, access rights, defaults, array lengths and value types. */
  ghost predicate SameShape(a: Dictionary, b: Dictionary) {
    && a.Keys == b.Keys
    && forall i :: i in a ==>
         && a[i].access == b[i].access
         && a[i].defaultValue == b[i].defaultValue
         && SameObjectShape(a[i].obj, b[i].obj)
  }

  lemma SameObjectShapeEquivalence(a: Object, b: Object, c: Object)
    ensures SameObjectShape(a, a)
    ensures SameObjectShape(a, b) ==> SameObjectShape(b, a)
    ensures SameObjectShape(a, b) && SameObjectShape(b, c) ==> SameObjectShape(a, c)
  {
    forall x: ObjectValue, y: ObjectValue, z: ObjectValue
      ensures SameType(x, x)
      ensures SameType(x, y) ==> SameType(y, x)
      ensures SameType(x, y) && SameType(y, z) ==> SameType(x, z)
    {
      SameTypeEquivalence(x, y, z);
    }
  }

  lemma SameShapeEquivalence(a: Dictionary, b: Dictionary, c: Dictionary)
    ensures SameShape(a, a)
    ensures SameShape(a, b) ==> SameShape(b, a)
    ensures SameShape(a, b) && SameShape(b, c) ==> SameShape(a, c)
  {
    forall i | i in a ensures SameObjectShape(a[i].obj, a[i].obj) {
      SameObjectShapeEquivalence(a[i].obj, a[i].obj, a[i].obj);
    }
    if SameShape(a, b) {
      forall i | i in b ensures SameObjectShape(b[i].obj, a[i].obj) {
        SameObjectShapeEquivalence(a[i].obj, b[i].obj, b[i].obj);
      }
      if SameShape(b, c) {
        forall i | i in a ensures SameObjectShape(a[i].obj, c[i].obj) {
          SameObjectShapeEquivalence(a[i].obj, b[i].obj, c[i].obj);
        }
      }
    }
  }

  lemma SameShapeLocations(a: Dictionary, b: Dictionary, index: u16, sub: u8)
    requires SameShape(a, b)
    ensures HasLocation(a, index, sub) == HasLocation(b, index, sub)
    ensures HasLocation(a, index, sub) ==> SameType(Value(a, index, sub), Value(b, index, sub))
  {}

  /** Which writes succeed, stated on locations, types and access rights. */
  predicate Accepts(d: Dictionary, index: u16, sub: u8, v: ObjectValue, checkAccess: bool) {
    && index in d
    && !(checkAccess && IsProtected(d[index]))
    && if HasLocation(d, index, sub) then SameType(Value(d, index, sub), v)
       else !d[index].obj.Variable? && sub == 0 && IsMappingIndex(index) && v.Unsigned8?
  }

  /** d' differs from d at most in one location, where it holds v. */
  ghost predicate OnlyChanges(d: Dictionary, d': Dictionary, index: u16, sub: u8, v: ObjectValue) {
    && SameShape(d, d')
    && forall j: u16, t: u8 :: HasLocation(d, j, t) ==>
         && HasLocation(d', j, t)
         && Value(d', j, t) == if (j, t) == (index, sub) then v else Value(d, j, t)
  }

  lemma SameShapeReflexive(o: Object)
    ensures SameObjectShape(o, o)
  {
    if o.Variable? {
      SameTypeEquivalence(o.value, o.value, o.value);
    } else {
      forall k | 0 <= k < |o.values| ensures SameType(o.values[k], o.values[k]) {
        SameTypeEquivalence(o.values[k], o.values[k], o.values[k]);
      }
    }
  }

  lemma PutOneValue(o: Object, sub: u8, v: ObjectValue)
    requires Holds(o, sub) && SameType(At(o, sub), v)
    ensures var o' := PutObject(o, sub, v);
            && SameObjectShape(o, o')
            && forall t: u8 :: Holds(o, t) ==> Holds(o', t) && At(o', t) == if t == sub then v else At(o, t)
  {
    SameShapeReflexive(o);
  }

  lemma PutOneLocation(d: Dictionary, index: u16, sub: u8, v: ObjectValue)
    requires HasLocation(d, index, sub) && SameType(Value(d, index, sub), v)
    ensures OnlyChanges(d, d[index := d[index].(obj := PutObject(d[index].obj, sub, v))], index, sub, v)
  {
    PutOneValue(d[index].obj, sub, v);
    forall i | i in d ensures SameObjectShape(d[i].obj, d[i].obj) {
      SameShapeReflexive(d[i].obj);
    }
  }

  /**
   * A write succeeds exactly when it is acceptable. A failed write and a write to a mapping
   * count change nothing; any other write changes its one location, and never the shape.
   */
  lemma WriteExact(d: Dictionary, index: u16, sub: u8, v: ObjectValue, checkAccess: bool)
    ensures WriteOutcome(d, index, sub, v, checkAccess).Ok? <==> Accepts(d, index, sub, v, checkAccess)
    ensures var d' := Written(d, index, sub, v, checkAccess);
            && SameShape(d, d')
            && (if Accepts(d, index, sub, v, checkAccess) && HasLocation(d, index, sub)
                then OnlyChanges(d, d', index, sub, v) && Read(d', index, sub) == Some(v)
                else d' == d)
  {
    if Accepts(d, index, sub, v, checkAccess) && HasLocation(d, index, sub) {
      PutOneLocation(d, index, sub, v);
    } else {
      SameShapeEquivalence(d, d, d);
    }
  }

  /** Which error a refused write gives, error by error. */
  lemma {:induction false} RefusedExactly(d: Dictionary, index: u16, sub: u8, v: ObjectValue, checkAccess: bool)
    ensures var r := WriteOutcome(d, index, sub, v, checkAccess);
            var blocked := checkAccess && index in d
                           && (d[index].access == Some(ReadOnly) || d[index].access == Some(Constant));
            var count := index in d && !d[index].obj.Variable? && sub == 0;
            && (r == Err(ObjectNotFound) <==> index !in d)
            && (r == Err(StorageError(ReadOnlyObject)) <==> blocked)
            && (r == Err(SubObjectNotFound) <==> index in d && !blocked && !HasLocation(d, index, sub) && !count)
            && (r == Err(StorageError(CountNotWritable)) <==> count && !blocked && !IsMappingIndex(index))
            && (r == Err(TypeMismatch) <==>
                  !blocked && if HasLocation(d, index, sub) then !SameType(Value(d, index, sub), v)
                              else count && IsMappingIndex(index) && !v.Unsigned8?)
  {}

  /** Only the readable locations matter: reading is the same on dictionaries that agree on them. */
  lemma ReadByLocations(a: Dictionary, b: Dictionary, index: u16, sub: u8)
    requires SameShape(a, b)
    requires HasLocation(a, index, sub) ==> HasLocation(b, index, sub) && Value(a, index, sub) == Value(b, index, sub)
    ensures Read(a, index, sub) == Read(b, index, sub)
  {}
}
