/**
  Value coercion for inbound field updates (the `switch` on the `"type"`
  tag in `Updater.updateObjectPoolObject`), and the outbound side it should
  invert: the tag and JSON rendering of a field value.
*/
module Coercion {
  import opened Wrappers
  import opened Reflect
  import opened Json

  /** Java's `(short)` cast: the 16-bit two's-complement truncation. */
  function Narrow16(i: int): (r: int)
    ensures -32768 <= r < 32768
    ensures (i - r) % 65536 == 0
    ensures -32768 <= i < 32768 ==> r == i
  {
    (i + 32768) % 65536 - 32768
  }

  /**
    The boxed value the handler decodes from the `field` object for `tag`.
    A tag it does not know leaves the value `null`; a missing or mistyped
    `"value"` throws `JSONException`; an empty string for `"char"` throws
    from `charAt(0)`.
  */
  function Decode(tag: string, field: map<string, Json>): (r: Result<Value, Thrown>)
    ensures tag !in KnownTags ==> r == Success(NullV)
    ensures r.Failure? ==> tag in KnownTags
    ensures r.Failure? && r.error != JSONException ==> tag == "char" && r.error == StringIndexOutOfBoundsException
    ensures tag in {"int", "byte", "long", "short"} ==>
      (r.Success? <==> "value" in field && field["value"].JNum? && field["value"].n.Integral?)
    ensures tag in {"float", "double"} ==> (r.Success? <==> "value" in field && field["value"].JNum?)
    ensures tag == "boolean" ==> (r.Success? <==> "value" in field && field["value"].JBool?)
    ensures tag == "char" ==>
      (r.Success? <==> "value" in field && field["value"].JString? && |field["value"].s| > 0)
    ensures (tag == "int" || tag == "byte") && r.Success? ==> r.value == IntV(field["value"].n.i)
    ensures tag == "long" && r.Success? ==> r.value == LongV(field["value"].n.i)
    ensures tag == "float" && r.Success? ==> r.value == FloatV(field["value"].n)
    ensures tag == "double" && r.Success? ==> r.value == DoubleV(field["value"].n)
    ensures tag == "boolean" && r.Success? ==> r.value == BoolV(field["value"].b)
    ensures tag == "char" && "value" in field && field["value"] == JString([]) ==>
      r == Failure(StringIndexOutOfBoundsException)
    ensures tag == "char" && r.Success? ==> r.value == CharV(JavaUnits(field["value"].s)[0])
    ensures tag == "short" && r.Success? ==>
      && r.value.ShortV? && -32768 <= r.value.i < 32768
      && (field["value"].n.i - r.value.i) % 65536 == 0
  {
    if tag == "float" then
      var n :- GetNumber(field, "value"); Success(FloatV(n))
    else if tag == "int" then
      var i :- GetInteger(field, "value"); Success(IntV(i))
    else if tag == "byte" then
      var i :- GetInteger(field, "value"); Success(IntV(i))
    else if tag == "double" then
      var n :- GetNumber(field, "value"); Success(DoubleV(n))
    else if tag == "long" then
      var i :- GetInteger(field, "value"); Success(LongV(i))
    else if tag == "boolean" then
      var b :- GetBoolean(field, "value"); Success(BoolV(b))
    else if tag == "char" then
      var s :- GetString(field, "value");
      var c :- CharAt0(s);
      Success(CharV(c))
    else if tag == "short" then
      var i :- GetInteger(field, "value"); Success(ShortV(Narrow16(i)))
    else
      Success(NullV)
  }

  /** The tags the handler's `switch` recognises. */
  const KnownTags: set<string> := {"float", "int", "byte", "double", "long", "boolean", "char", "short"}

  /** The name of a primitive type, as the web client sends it back in `"type"`. */
  function TagName(t: JType): (tag: string)
    ensures t.IsPrimitive() ==> tag in KnownTags
  {
    match t
    case IntT => "int"
    case FloatT => "float"
    case DoubleT => "double"
    case LongT => "long"
    case ShortT => "short"
    case ByteT => "byte"
    case BooleanT => "boolean"
    case CharT => "char"
    case RefT(name) => name
  }

  /** A UTF-16 surrogate code unit, which no Unicode text holds on its own. */
  predicate IsSurrogate(u: Char16) {
    0xD800 <= u < 0xE000
  }

  /** A value whose rendering is a JSON value of this model: anything but a lone surrogate `char`. */
  predicate Renderable(v: Value) {
    v.CharV? ==> !IsSurrogate(v.c)
  }

  /** The JSON a boxed field value reads back as once rendered and parsed. */
  function Rendered(v: Value): Json
    requires Renderable(v)
  {
    match v
    case IntV(i) => JNum(Integral(i))
    case LongV(i) => JNum(Integral(i))
    case ShortV(i) => JNum(Integral(i))
    case ByteV(i) => JNum(Integral(i))
    case BoolV(b) => JBool(b)
    case CharV(c) => JString([c as char])
    case FloatV(n) => JNum(n)
    case DoubleV(n) => JNum(n)
    case NullV => JNull
  }

  /** `v` is a value a field of type `t` can hold. */
  predicate Fits(v: Value, t: JType) {
    match t
    case IntT => v.IntV? && -0x8000_0000 <= v.i < 0x8000_0000
    case LongT => v.LongV? && -0x8000_0000_0000_0000 <= v.i < 0x8000_0000_0000_0000
    case ShortT => v.ShortV? && -0x8000 <= v.i < 0x8000
    case ByteT => v.ByteV? && -0x80 <= v.i < 0x80
    case BooleanT => v.BoolV?
    case CharT => v.CharV?
    case FloatT => v.FloatV?
    case DoubleT => v.DoubleV?
    case RefT(_) => false
  }

  /**
    Sending a field value out with its declared type and reading the echo
    back yields the same value, for every primitive type except `byte`:
    there the handler yields a boxed `int` holding the same number.
  */
  lemma RoundTrip(v: Value, t: JType)
    requires Fits(v, t) && Renderable(v)
    ensures t != ByteT ==> Decode(TagName(t), map["value" := Rendered(v)]) == Success(v)
    ensures t == ByteT ==> Decode(TagName(t), map["value" := Rendered(v)]) == Success(IntV(v.i))
  {
    if t == CharT {
      assert [v.c as char][0] == v.c as char;
    }
  }

  /** The `"byte"` tag is not narrowed: 300 arrives as a boxed `int` 300, not as the `byte` 44. */
  lemma ByteTagIsNotNarrowed()
    ensures Decode("byte", map["value" := JNum(Integral(300))]) == Success(IntV(300))
  {
  }

  /**
    A `byte` field never accepts what the `"byte"` tag decodes to: a boxed
    `int` does not unwrap and widen to `byte`, so `Field.set` refuses it.
  */
  lemma ByteTagIsRefusedByByteFields(field: map<string, Json>)
    requires Decode("byte", field).Success?
    ensures Widen(Decode("byte", field).value, ByteT).None?
  {
  }
}
