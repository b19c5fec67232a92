/**
  Corrected counterparts of two behaviours of the coordinator that differ
  from what the protocol evidently intends; see the findings in README.md.
*/
module Intended {
  import opened Wrappers
  import opened Reflect
  import opened Json
  import opened Coercion
  import opened Pools
  import opened Registry

  /** Java's `(byte)` cast: the 8-bit two's-complement truncation. */
  function Narrow8(i: int): (r: int)
    ensures -128 <= r < 128
    ensures (i - r) % 256 == 0
    ensures -128 <= i < 128 ==> r == i
  {
    (i + 128) % 256 - 128
  }

  /** The decoding with `"byte"` narrowed to a boxed `byte`, like `"short"`; every other tag as before. */
  function Decode(tag: string, field: map<string, Json>): (r: Result<Value, Thrown>)
    ensures tag != "byte" ==> r == Coercion.Decode(tag, field)
    ensures tag == "byte" ==> (r.Success? <==> Coercion.Decode(tag, field).Success?)
    ensures tag == "byte" && r.Success? ==>
      && r.value.ByteV? && -128 <= r.value.i < 128
      && Coercion.Decode(tag, field).value.IntV?
      && (Coercion.Decode(tag, field).value.i - r.value.i) % 256 == 0
  {
    if tag == "byte" then
      var i :- GetInteger(field, "value"); Success(ByteV(Narrow8(i)))
    else
      Coercion.Decode(tag, field)
  }

  /** With the correction, every primitive value survives the round trip through the protocol. */
  lemma RoundTrip(v: Value, t: JType)
    requires Fits(v, t) && Renderable(v)
    ensures Decode(TagName(t), map["value" := Rendered(v)]) == Success(v)
  {
    Coercion.RoundTrip(v, t);
  }

  /** With the correction, a `"byte"` update is a value `Field.set` accepts for a `byte` field. */
  lemma ByteTagIsAccepted(field: map<string, Json>)
    requires Decode("byte", field).Success?
    ensures Widen(Decode("byte", field).value, ByteT) == Some(Decode("byte", field).value)
  {
  }

  /**
    `unregister` with the `REMOVE_OBJECT_FROM_POOL` payload taken before the
    removal, so that it describes the instance that left the pool.
  */
  function Unregister(u: Updater, obj: Ref, className: string): (r: Updater)
    ensures r.pools == Registry.Unregister(u, obj, className).pools
    ensures r.heap == u.heap && r.link == u.link
    ensures |r.sent| == |Registry.Unregister(u, obj, className).sent|
    ensures match PoolForName(u.pools, className)
            case None => r == u
            case Some(k) =>
              if Holds(u.pools[k].objects, obj) then
                && |r.sent| == |u.sent| + 1 && r.sent[..|u.sent|] == u.sent
                && r.sent[|u.sent|] == RemoveObjectFromPool(ObjectJsonFor(u.pools[k], u.heap, obj))
                && r.sent[|u.sent|].obj.Some?
                && r.sent[|u.sent|].obj.value.members["id"] == JNum(Integral(u.pools[k].objects[PairIndex(u.pools[k].objects, obj).value].id))
              else r == u
  {
    match PoolForName(u.pools, className)
    case None => u
    case Some(k) =>
      var payload := ObjectJsonFor(u.pools[k], u.heap, obj);
      var (p, removed) := RemoveObject(u.pools[k], obj);
      if removed then
        u.(pools := u.pools[k := p], sent := u.sent + [RemoveObjectFromPool(payload)])
      else u
  }
}
