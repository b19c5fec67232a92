/**
  The part of the Java runtime the mirror relies on, made explicit:
  primitive type tags, boxed values, declared fields, class chains and a heap
  of field values. It replaces `java.lang.reflect`.
*/
module Reflect {
  import opened Wrappers

  /** The declared type of a field; `RefT` is every non-primitive type. */
  datatype JType =
    | IntT | FloatT | DoubleT | LongT | ShortT | ByteT | BooleanT | CharT
    | RefT(className: string)
  {
    /** `Class.isPrimitive()` for the type of a field. */
    predicate IsPrimitive() {
      !RefT?
    }
  }

  /** A JSON number: an integer, or a fractional literal kept as its text (floating point is not modelled). */
  datatype Number = Integral(i: int) | Decimal(text: string)

  /** A UTF-16 code unit: the value of a Java `char`. */
  type Char16 = x: int | 0 <= x < 0x1_0000

  /** A boxed Java value as `Field.get` returns it or `Field.set` receives it; `NullV` is `null`. */
  datatype Value =
    | IntV(i: int) | LongV(i: int) | ShortV(i: int) | ByteV(i: int)
    | BoolV(b: bool) | CharV(c: Char16)
    | FloatV(n: Number) | DoubleV(n: Number)
    | NullV
  {
    /** The primitive type whose box this value is; `None` for `null`. */
    function Kind(): (t: Option<JType>)
      ensures t.Some? <==> !NullV?
      ensures t.Some? ==> t.value.IsPrimitive()
    {
      match this
      case IntV(_) => Some(IntT)
      case LongV(_) => Some(LongT)
      case ShortV(_) => Some(ShortT)
      case ByteV(_) => Some(ByteT)
      case BoolV(_) => Some(BooleanT)
      case CharV(_) => Some(CharT)
      case FloatV(_) => Some(FloatT)
      case DoubleV(_) => Some(DoubleT)
      case NullV => None
    }
  }

  /** The exceptions the modelled Java code can raise. */
  datatype Thrown =
    | JSONException
    | NullPointerException
    | StringIndexOutOfBoundsException
    | IllegalArgumentException
    | IllegalAccessException

  /** The value a field of type `t` holds before anything is written to it. */
  function Default(t: JType): (v: Value)
    ensures t.IsPrimitive() <==> !v.NullV?
    ensures t.IsPrimitive() ==> v.Kind() == Some(t)
  {
    match t
    case IntT => IntV(0)
    case LongT => LongV(0)
    case ShortT => ShortV(0)
    case ByteT => ByteV(0)
    case BooleanT => BoolV(false)
    case CharT => CharV(0)
    case FloatT => FloatV(Integral(0))
    case DoubleT => DoubleV(Integral(0))
    case RefT(_) => NullV
  }

  /**
    The widening primitive conversions of section 5.1.2 of the Java Language
    Specification, listed by source type.
  */
  predicate WidensTo(from: JType, to: JType) {
    match from
    case ByteT => to in {ShortT, IntT, LongT, FloatT, DoubleT}
    case ShortT => to in {IntT, LongT, FloatT, DoubleT}
    case CharT => to in {IntT, LongT, FloatT, DoubleT}
    case IntT => to in {LongT, FloatT, DoubleT}
    case LongT => to in {FloatT, DoubleT}
    case FloatT => to == DoubleT
    case _ => false
  }

  /** The number an integral box or a `char` box holds. */
  function IntegralOf(v: Value): Option<int> {
    match v
    case IntV(i) => Some(i)
    case LongV(i) => Some(i)
    case ShortV(i) => Some(i)
    case ByteV(i) => Some(i)
    case CharV(c) => Some(c)
    case _ => None
  }

  /**
    What `Field.set` stores into a field of type `t` when handed the box `v`:
    the value unwrapped and widened to `t`, or `None` when the unwrapping or
    widening conversion does not exist (including a `null` for a primitive
    field). A reference-typed field takes the value as it is. Integral to
    floating conversions keep the exact number; their rounding is not modelled.
  */
  function Widen(v: Value, t: JType): (r: Option<Value>)
    ensures t.IsPrimitive() ==>
      (r.Some? <==> v.Kind().Some? && (v.Kind().value == t || WidensTo(v.Kind().value, t)))
    ensures t.IsPrimitive() && r.Some? ==> r.value.Kind() == Some(t)
    ensures v.Kind() == Some(t) ==> r == Some(v)
    ensures r.Some? && t in {ShortT, IntT, LongT} ==> IntegralOf(r.value) == IntegralOf(v)
  {
    match t
    case BooleanT => if v.BoolV? then Some(v) else None
    case CharT => if v.CharV? then Some(v) else None
    case ByteT => if v.ByteV? then Some(v) else None
    case ShortT => if v.ByteV? || v.ShortV? then Some(ShortV(v.i)) else None
    case IntT => if v.LongV? then None else (match IntegralOf(v) case Some(i) => Some(IntV(i)) case None => None)
    case LongT => (match IntegralOf(v) case Some(i) => Some(LongV(i)) case None => None)
    case FloatT =>
      if v.FloatV? then Some(v)
      else (match IntegralOf(v) case Some(i) => Some(FloatV(Integral(i))) case None => None)
    case DoubleT =>
      if v.DoubleV? then Some(v)
      else if v.FloatV? then Some(DoubleV(v.n))
      else (match IntegralOf(v) case Some(i) => Some(DoubleV(Integral(i))) case None => None)
    case RefT(_) => Some(v)
  }

  /** A field as declared in the source text of one class, with its `static` and `final` modifiers. */
  datatype FieldDecl = FieldDecl(name: string, ty: JType, isStatic: bool, isFinal: bool)

  /** One level of a class hierarchy: its name and its declared fields, in the order `getDeclaredFields` returns them. */
  datatype Class = Class(name: string, declared: seq<FieldDecl>)

  /** The name `Class.getName()` gives the root class. */
  const ObjectClassName: string := "java.lang.Object"

  /** The identity of a field: its declaring class and its name. */
  datatype FieldKey = FieldKey(owner: string, name: string)

  /** A `java.lang.reflect.Field`: a declared field together with its declaring class. */
  datatype Field = Field(owner: string, name: string, ty: JType, isStatic: bool, isFinal: bool) {
    function Key(): FieldKey {
      FieldKey(owner, name)
    }

    /**
      Whether `set` may write the field once `setAccessible(true)` has been
      called: every field except a `static final` one.
    */
    predicate Writable() {
      !(isStatic && isFinal)
    }
  }

  /** The identity of a live Java instance; the mirror compares instances with `==`. */
  type Ref = nat

  /** A storage location: an instance field of one object, or a static field shared by all. */
  datatype Slot = InstanceSlot(obj: Ref, key: FieldKey) | StaticSlot(key: FieldKey)

  /** Where field `f` of `obj` lives; the object is ignored for a static field. */
  function SlotOf(obj: Ref, f: Field): (s: Slot)
    ensures s.key == f.Key()
    ensures s.StaticSlot? <==> f.isStatic
  {
    if f.isStatic then StaticSlot(f.Key()) else InstanceSlot(obj, f.Key())
  }

  /** Field values; a missing entry holds the field type's default. */
  type Heap = map<Slot, Value>

  /** `Field.get(obj)`. */
  function Get(h: Heap, obj: Ref, f: Field): Value {
    if SlotOf(obj, f) in h then h[SlotOf(obj, f)] else Default(f.ty)
  }

  /**
    `Field.set(obj, v)` on an accessible field: a `static final` field
    throws `IllegalAccessException`; a box that does not unwrap and widen to
    the field's type throws `IllegalArgumentException`; otherwise the widened
    value is stored, for every instance at once when the field is static.
  */
  function Set(h: Heap, obj: Ref, f: Field, v: Value): (r: Result<Heap, Thrown>)
    ensures !f.Writable() ==> r == Failure(IllegalAccessException)
    ensures f.Writable() ==> (r.Failure? <==> Widen(v, f.ty).None?)
    ensures f.Writable() && r.Failure? ==> r.error == IllegalArgumentException
    ensures r.Success? ==> Get(r.value, obj, f) == Widen(v, f.ty).value
    ensures r.Success? && f.isStatic ==> forall o: Ref :: Get(r.value, o, f) == Widen(v, f.ty).value
    ensures r.Success? ==>
      forall o: Ref, g: Field :: SlotOf(o, g) != SlotOf(obj, f) ==> Get(r.value, o, g) == Get(h, o, g)
  {
    if !f.Writable() then Failure(IllegalAccessException)
    else match Widen(v, f.ty)
      case None => Failure(IllegalArgumentException)
      case Some(w) => Success(h[SlotOf(obj, f) := w])
  }
}
