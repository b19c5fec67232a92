/**
  The `Updater` coordinator: the list of object pools, find-or-create of a
  pool by class name, registration, unregistration, clearing, the timer's
  broadcast and the handler for `FIELD_UPDATED_AT_WEB_CLIENT`. Every
  `mSocket.emit` is an append to `sent`; delivery belongs to the transport.
*/
module Registry {
  import opened Wrappers
  import opened Reflect
  import opened Json
  import opened Discovery
  import opened Coercion
  import opened Pools
  import opened Timer

  /** The outbound protocol events, with their payloads; `None` is a `null` payload. */
  datatype Event =
    | RegisterObjectPool(pool: Json)
    | AddObjectToPool(obj: Option<Json>)
    | RemoveObjectFromPool(obj: Option<Json>)
    | UpdateAllObjectPools(pools: Json)
    | ClearAllPools

  /** The coordinator's state, the live instances' field values, the timer flags and what was emitted. */
  datatype Updater = Updater(pools: seq<Pool>, heap: Heap, link: Link, sent: seq<Event>)

  /** No two pools are for the same class name. */
  predicate UniqueNames(pools: seq<Pool>) {
    forall i, j :: 0 <= i < j < |pools| ==> pools[i].className != pools[j].className
  }

  predicate HasPool(pools: seq<Pool>, name: string) {
    exists i :: 0 <= i < |pools| && pools[i].className == name
  }

  /**
    `getObjectPoolForClass`, both overloads (the `Class` one compares
    `getName()` too): the first pool whose class name is `name`, or `null`.
  */
  function PoolForName(pools: seq<Pool>, name: string): (r: Option<nat>)
    ensures r.None? <==> !HasPool(pools, name)
    ensures r.Some? ==> (r.value < |pools| && pools[r.value].className == name
                         && forall i :: 0 <= i < r.value ==> pools[i].className != name)
  {
    if |pools| == 0 then None
    else if pools[0].className == name then Some(0)
    else
      match PoolForName(pools[1..], name)
      case None =>
        assert forall i :: 1 <= i < |pools| ==> pools[i] == pools[1..][i - 1];
        None
      case Some(k) =>
        assert forall i :: 1 <= i <= k + 1 ==> pools[i] == pools[1..][i - 1];
        Some(k + 1)
  }

  /** An id `getUniqueId` may return for the pool `register` adds to. */
  predicate IdFreshFor(pools: seq<Pool>, name: string, id: int) {
    && 0 <= id < IdBound
    && match PoolForName(pools, name)
       case Some(k) => !HasId(pools[k].objects, id)
       case None => true
  }

  /** The pool `register` creates for a class it has no pool for. */
  function NewPool(chain: seq<Class>): Pool
    requires |chain| > 0
  {
    Pool(chain[0].name, Discover(chain), [])
  }

  /**
    `register(obj)`, where `chain` is `obj.getClass()` and its superclasses
    and `id` is what `getUniqueId` drew. A missing pool is created, appended
    and announced with `REGISTER_OBJECT_POOL`; then the instance is added
    (always, even when already held) and announced with `ADD_OBJECT_TO_POOL`.
  */
  function Register(u: Updater, obj: Ref, chain: seq<Class>, id: int): (r: Updater)
    requires |chain| > 0
    requires IdFreshFor(u.pools, chain[0].name, id)
    ensures r.heap == u.heap && r.link == u.link
    ensures UniqueNames(u.pools) ==> UniqueNames(r.pools)
    ensures var created := !HasPool(u.pools, chain[0].name);
      && |r.pools| == |u.pools| + (if created then 1 else 0)
      && |r.sent| == |u.sent| + (if created then 2 else 1)
      && r.sent[..|u.sent|] == u.sent
      && (created ==> r.sent[|u.sent|].RegisterObjectPool? && r.pools[|u.pools|].fields == Discover(chain))
      && r.sent[|r.sent| - 1].AddObjectToPool? && r.sent[|r.sent| - 1].obj.Some?
    ensures r.pools == match PoolForName(u.pools, chain[0].name)
      case Some(k) => u.pools[k := AddObject(u.pools[k], obj, id).0]
      case None => u.pools + [AddObject(NewPool(chain), obj, id).0]
    ensures !HasPool(u.pools, chain[0].name) ==> r.sent[|u.sent|] == RegisterObjectPool(PoolJson(NewPool(chain), u.heap))
    ensures forall i :: 0 <= i < |u.pools| && u.pools[i].className != chain[0].name ==> r.pools[i] == u.pools[i]
    ensures exists k :: (0 <= k < |r.pools| && r.pools[k].className == chain[0].name
                         && |r.pools[k].objects| > 0
                         && r.pools[k].objects[|r.pools[k].objects| - 1] == ObjectIdPair(id, obj))
  {
    var name := chain[0].name;
    match PoolForName(u.pools, name)
    case Some(k) =>
      var p := AddObject(u.pools[k], obj, id).0;
      UniqueNamesReplaced(u.pools, k, p);
      var r := u.(pools := u.pools[k := p], sent := u.sent + [AddObjectToPool(ObjectJsonFor(p, u.heap, obj))]);
      assert r.pools[k] == p;
      r
    case None =>
      var pool := NewPool(chain);
      var p := AddObject(pool, obj, id).0;
      UniqueNamesAppended(u.pools, p);
      var r := u.(pools := u.pools + [p],
                  sent := u.sent + [RegisterObjectPool(PoolJson(pool, u.heap)), AddObjectToPool(ObjectJsonFor(p, u.heap, obj))]);
      assert r.pools[|u.pools|] == p;
      r
  }

  lemma UniqueNamesReplaced(pools: seq<Pool>, k: nat, p: Pool)
    requires k < |pools| && p.className == pools[k].className
    ensures UniqueNames(pools) ==> UniqueNames(pools[k := p])
  {
  }

  lemma UniqueNamesAppended(pools: seq<Pool>, p: Pool)
    requires !HasPool(pools, p.className)
    ensures UniqueNames(pools) ==> UniqueNames(pools + [p])
  {
  }

  /** The position of the pool `register` adds to: the class's pool, or the one it appends. */
  function Target(pools: seq<Pool>, name: string): (k: nat)
    ensures k <= |pools|
    ensures k < |pools| <==> HasPool(pools, name)
    ensures k < |pools| ==> PoolForName(pools, name) == Some(k)
  {
    match PoolForName(pools, name) case Some(k) => k case None => |pools|
  }

  /**
    The `ADD_OBJECT_TO_POOL` payload is the snapshot of the first pair holding
    `obj` in the pool it was added to, whatever the new pair is.
  */
  lemma RegisterAnnouncesFirstPair(u: Updater, obj: Ref, chain: seq<Class>, id: int)
    requires |chain| > 0
    requires IdFreshFor(u.pools, chain[0].name, id)
    ensures var r := Register(u, obj, chain, id);
      var k := Target(u.pools, chain[0].name);
      && k < |r.pools|
      && r.sent[|r.sent| - 1] == AddObjectToPool(ObjectJsonFor(r.pools[k], u.heap, obj))
  {
  }

  /** Registering an instance the pool does not hold yet announces it with the id it was given. */
  lemma RegisterAnnouncesNewId(u: Updater, obj: Ref, chain: seq<Class>, id: int)
    requires |chain| > 0
    requires IdFreshFor(u.pools, chain[0].name, id)
    requires match PoolForName(u.pools, chain[0].name)
             case Some(k) => !Holds(u.pools[k].objects, obj)
             case None => true
    ensures var r := Register(u, obj, chain, id);
      && r.sent[|r.sent| - 1].AddObjectToPool?
      && r.sent[|r.sent| - 1].obj.Some?
      && r.sent[|r.sent| - 1].obj.value.members["id"] == JNum(Integral(id))
  {
  }

  /**
    `register` leaves the class's pool at `Target`: the pool it found there,
    or the new one, with the instance appended; and that pool is the one a
    later lookup of the class finds.
  */
  lemma RegisterTargetPool(u: Updater, obj: Ref, chain: seq<Class>, id: int)
    requires |chain| > 0
    requires IdFreshFor(u.pools, chain[0].name, id)
    ensures var k := Target(u.pools, chain[0].name);
      var r := Register(u, obj, chain, id);
      && k < |r.pools|
      && r.pools[k] == AddObject(if k < |u.pools| then u.pools[k] else NewPool(chain), obj, id).0
      && PoolForName(r.pools, chain[0].name) == Some(k)
  {
    var name := chain[0].name;
    var r := Register(u, obj, chain, id);
    match PoolForName(u.pools, name)
    case Some(k) =>
      var p := AddObject(u.pools[k], obj, id).0;
      assert r.pools == u.pools[k := p];
      FirstPoolKept(u.pools, k, p, name);
    case None =>
      var p := AddObject(NewPool(chain), obj, id).0;
      assert r.pools == u.pools + [p];
      FirstPoolAppended(u.pools, p, name);
  }

  lemma FirstPoolKept(pools: seq<Pool>, k: nat, p: Pool, name: string)
    requires PoolForName(pools, name) == Some(k) && p.className == name
    ensures PoolForName(pools[k := p], name) == Some(k)
  {
    var ps := pools[k := p];
    assert ps[k].className == name;
    assert forall i :: 0 <= i < k ==> ps[i] == pools[i];
  }

  lemma FirstPoolAppended(pools: seq<Pool>, p: Pool, name: string)
    requires !HasPool(pools, name) && p.className == name
    ensures PoolForName(pools + [p], name) == Some(|pools|)
  {
    var ps := pools + [p];
    assert ps[|pools|].className == name;
    var r := PoolForName(ps, name);
    assert r.Some?;
  }

  /**
    Registering an instance a second time, when its class's pool did not
    hold it before, announces it with the id of its first pair, because the
    payload is the snapshot of the first pair holding it.
  */
  lemma RegisterTwiceAnnouncesFirstId(u: Updater, obj: Ref, chain: seq<Class>, id1: int, id2: int)
    requires |chain| > 0
    requires IdFreshFor(u.pools, chain[0].name, id1)
    requires match PoolForName(u.pools, chain[0].name)
             case Some(k) => !Holds(u.pools[k].objects, obj)
             case None => true
    requires IdFreshFor(Register(u, obj, chain, id1).pools, chain[0].name, id2)
    ensures var r := Register(Register(u, obj, chain, id1), obj, chain, id2);
      && r.sent[|r.sent| - 1].obj.Some?
      && r.sent[|r.sent| - 1].obj.value.members["id"] == JNum(Integral(id1))
  {
    var name := chain[0].name;
    var u1 := Register(u, obj, chain, id1);
    var k := Target(u.pools, name);
    var p0 := if k < |u.pools| then u.pools[k] else NewPool(chain);
    RegisterTargetPool(u, obj, chain, id1);
    assert u1.pools[k] == AddObject(p0, obj, id1).0;
    assert Target(u1.pools, name) == k;
    RegisterTargetPool(u1, obj, chain, id2);
    RegisterAnnouncesFirstPair(u1, obj, chain, id2);
    AddTwiceAnnouncesFirstId(p0, u.heap, obj, id1, id2);
  }

  /**
    `unregister(obj)`: without a pool for the class nothing happens; else the
    first pair holding `obj` is removed and, only if one was, an event is
    emitted whose payload is computed after the removal.
  */
  function Unregister(u: Updater, obj: Ref, className: string): (r: Updater)
    ensures r.heap == u.heap && r.link == u.link
    ensures UniqueNames(u.pools) ==> UniqueNames(r.pools)
    ensures var removed := match PoolForName(u.pools, className)
                           case Some(k) => Holds(u.pools[k].objects, obj)
                           case None => false;
      && (!removed ==> r == u)
      && (removed ==> |r.pools| == |u.pools| && |r.sent| == |u.sent| + 1 && r.sent[..|u.sent|] == u.sent
                      && r.sent[|u.sent|].RemoveObjectFromPool?)
    ensures match PoolForName(u.pools, className)
            case Some(k) => r.pools == u.pools[k := RemoveObject(u.pools[k], obj).0]
            case None => r.pools == u.pools
    ensures match PoolForName(u.pools, className)
            case Some(k) =>
              Holds(u.pools[k].objects, obj) ==>
                r.sent[|u.sent|] == RemoveObjectFromPool(ObjectJsonFor(r.pools[k], u.heap, obj))
            case None => true
    ensures forall i :: 0 <= i < |u.pools| && u.pools[i].className != className ==> r.pools[i] == u.pools[i]
  {
    match PoolForName(u.pools, className)
    case None => u
    case Some(k) =>
      var (p, removed) := RemoveObject(u.pools[k], obj);
      if removed then
        u.(pools := u.pools[k := p], sent := u.sent + [RemoveObjectFromPool(ObjectJsonFor(p, u.heap, obj))])
      else u
  }

  /** `clearAllPools`: forgets every pool, descriptors included, and emits `CLEAR_ALL_POOLS`. */
  function ClearAll(u: Updater): (r: Updater)
    ensures r.pools == [] && UniqueNames(r.pools)
    ensures r.sent == u.sent + [ClearAllPools]
    ensures r.heap == u.heap && r.link == u.link
  {
    u.(pools := [], sent := u.sent + [ClearAllPools])
  }

  /** One firing of the timer task: `UPDATE_ALL_OBJECT_POOLS` with every pool's snapshot, in pool order. */
  function Broadcast(u: Updater): (r: Updater)
    requires u.link.timer
    ensures r.pools == u.pools && r.heap == u.heap && r.link == u.link
    ensures |r.sent| == |u.sent| + 1 && r.sent[..|u.sent|] == u.sent
    ensures r.sent[|u.sent|].UpdateAllObjectPools?
    ensures r.sent[|u.sent|].pools.JArray? && |r.sent[|u.sent|].pools.items| == |u.pools|
    ensures forall i :: 0 <= i < |u.pools| ==> r.sent[|u.sent|].pools.items[i] == PoolJson(u.pools[i], u.heap)
  {
    u.(sent := u.sent + [UpdateAllObjectPools(JArray(seq(|u.pools|, i requires 0 <= i < |u.pools| => PoolJson(u.pools[i], u.heap))))])
  }

  /** The first pair carrying `id`, as the handler's loop with `break` finds it. */
  function PairWithId(objects: seq<ObjectIdPair>, id: int): (r: Option<nat>)
    ensures r.None? <==> !HasId(objects, id)
    ensures r.Some? ==> (r.value < |objects| && objects[r.value].id == id
                         && forall i :: 0 <= i < r.value ==> objects[i].id != id)
  {
    if |objects| == 0 then None
    else if objects[0].id == id then Some(0)
    else
      match PairWithId(objects[1..], id)
      case None =>
        assert forall i :: 1 <= i < |objects| ==> objects[i] == objects[1..][i - 1];
        None
      case Some(k) =>
        assert forall i :: 1 <= i <= k + 1 ==> objects[i] == objects[1..][i - 1];
        Some(k + 1)
  }

  /** The parts of an update message the handler reads before it decodes the value. */
  datatype Request = Request(className: string, objectId: int, field: map<string, Json>, tag: string)

  /** The message carries a `class_name` string, an integral `object_id` and a `field` object with a `type` string. */
  predicate WellShaped(message: map<string, Json>) {
    && "class_name" in message && message["class_name"].JString?
    && "object_id" in message && message["object_id"].JNum? && message["object_id"].n.Integral?
    && "field" in message && message["field"].JObject?
    && "type" in message["field"].members && message["field"].members["type"].JString?
  }

  /** The `getString`, `getInt` and `getJSONObject` calls at the head of the handler. */
  function ParseRequest(message: map<string, Json>): (r: Result<Request, Thrown>)
    ensures r.Success? <==> WellShaped(message)
    ensures r.Failure? ==> r.error == JSONException
    ensures r.Success? ==>
      && r.value.className == message["class_name"].s
      && r.value.objectId == message["object_id"].n.i
      && r.value.field == message["field"].members
      && r.value.tag == message["field"].members["type"].s
  {
    var className :- GetString(message, "class_name");
    var objectId :- GetInteger(message, "object_id");
    var field :- GetObject(message, "field");
    var tag :- GetString(field, "type");
    Success(Request(className, objectId, field, tag))
  }

  /**
    The body of the `try` in `updateObjectPoolObject`, in the Java order of
    evaluation: parse, decode the value, dereference the pool (a `null` pool
    throws here), then write the field of the first pair with the id. Only an
    exception out of the field writes can follow a change to the heap.
  */
  function ApplyUpdate(pools: seq<Pool>, h: Heap, message: map<string, Json>): (r: Write)
    ensures r.escaped.Some? && r.escaped.value != IllegalArgumentException ==> r.heap == h
    ensures r.escaped == Some(NullPointerException) ==>
      ParseRequest(message).Success? && !HasPool(pools, ParseRequest(message).value.className)
  {
    match ParseRequest(message)
    case Failure(e) => Write(h, Some(e))
    case Success(q) =>
      match Decode(q.tag, q.field)
      case Failure(e) => Write(h, Some(e))
      case Success(value) =>
        match PoolForName(pools, q.className)
        case None => Write(h, Some(NullPointerException))
        case Some(k) =>
          match PairWithId(pools[k].objects, q.objectId)
          case None => Write(h, None)
          case Some(j) =>
            match GetString(q.field, "name")
            case Failure(e) => Write(h, Some(e))
            case Success(name) => SetFieldValueForObject(pools[k].fields, h, pools[k].objects[j].obj, value, name)
  }

  /** The state after a listener ran, and the exception that escaped it, if any. */
  datatype Handled = Handled(after: Updater, escaped: Option<Thrown>)

  /**
    The `FIELD_UPDATED_AT_WEB_CLIENT` listener. A `JSONException` is caught
    and leaves everything as it was. A class without a pool, an empty
    `"char"` string and a value the field's type does not take escape the
    handler; the last after the fields before the refusing one were written.
  */
  function UpdateObjectPoolObject(u: Updater, message: map<string, Json>): (r: Handled)
    ensures r.after.pools == u.pools && r.after.link == u.link && r.after.sent == u.sent
    ensures r.escaped.Some? ==>
      r.escaped.value in {NullPointerException, StringIndexOutOfBoundsException, IllegalArgumentException}
    ensures r.escaped.Some? && r.escaped.value != IllegalArgumentException ==> r.after == u
    ensures !WellShaped(message) ==> r == Handled(u, None)
    ensures WellShaped(message) ==>
      var q := ParseRequest(message).value;
      var decoded := Decode(q.tag, q.field);
      && (decoded == Failure(JSONException) ==> r == Handled(u, None))
      && (decoded == Failure(StringIndexOutOfBoundsException) ==> r == Handled(u, Some(StringIndexOutOfBoundsException)))
      && (decoded.Success? && !HasPool(u.pools, q.className) ==> r == Handled(u, Some(NullPointerException)))
      && ((decoded.Success? && HasPool(u.pools, q.className)
           && !HasId(u.pools[PoolForName(u.pools, q.className).value].objects, q.objectId)) ==> r == Handled(u, None))
      && ((decoded.Success? && HasPool(u.pools, q.className)
           && !("name" in q.field && q.field["name"].JString?)) ==> r == Handled(u, None))
    ensures r.escaped == Some(NullPointerException) ==>
      WellShaped(message) && !HasPool(u.pools, message["class_name"].s)
  {
    var w := ApplyUpdate(u.pools, u.heap, message);
    if w.escaped == Some(JSONException) then Handled(u, None) else Handled(u.(heap := w.heap), w.escaped)
  }

  /**
    A well-formed update for a held id runs `setFieldValueForObject` on that
    pool's fields and that instance, with the decoded value and the named
    field: the heap and the escaping exception are exactly its outcome.
  */
  lemma UpdateWritesNamedField(u: Updater, message: map<string, Json>)
    requires WellShaped(message) && HasPool(u.pools, message["class_name"].s)
    requires var field := message["field"].members;
      && Decode(field["type"].s, field).Success?
      && "name" in field && field["name"].JString?
    requires HasId(u.pools[PoolForName(u.pools, message["class_name"].s).value].objects, message["object_id"].n.i)
    ensures var p := u.pools[PoolForName(u.pools, message["class_name"].s).value];
      var j := PairWithId(p.objects, message["object_id"].n.i).value;
      var field := message["field"].members;
      var value := Decode(field["type"].s, field).value;
      var w := SetFieldValueForObject(p.fields, u.heap, p.objects[j].obj, value, field["name"].s);
      UpdateObjectPoolObject(u, message) == Handled(u.(heap := w.heap), w.escaped)
  {
  }

  /** Clearing forgets the pools, so the next registration of any class announces its pool again. */
  lemma RegisterAfterClearAnnouncesPool(u: Updater, obj: Ref, chain: seq<Class>, id: int)
    requires |chain| > 0 && 0 <= id < IdBound
    ensures var r := Register(ClearAll(u), obj, chain, id);
      && |r.pools| == 1
      && |r.sent| == |u.sent| + 3
      && r.sent[|u.sent|] == ClearAllPools
      && r.sent[|u.sent| + 1].RegisterObjectPool?
      && r.sent[|u.sent| + 2].AddObjectToPool?
  {
  }

  /**
    When the instance was held by exactly one pair, the `REMOVE_OBJECT_FROM_POOL`
    event carries a `null` payload: the snapshot is looked up after the pair is gone.
  */
  lemma UnregisterSendsNullWhenHeldOnce(u: Updater, obj: Ref, className: string)
    requires HasPool(u.pools, className)
    requires var p := u.pools[PoolForName(u.pools, className).value];
      exists k :: 0 <= k < |p.objects| && p.objects[k].obj == obj
        && forall i :: 0 <= i < |p.objects| && i != k ==> p.objects[i].obj != obj
    ensures var r := Unregister(u, obj, className);
      |r.sent| == |u.sent| + 1 && r.sent[|u.sent|] == RemoveObjectFromPool(None)
  {
  }
}

/**
  Worked scenarios: an instance of `Point` with `int x, y` is registered and
  the web client sets `x` to 5; an instance of `Dimmer` with `byte level`
  is registered and every `"byte"` update of it escapes the handler.
*/
module Scenario {
  import opened Wrappers
  import opened Reflect
  import opened Json
  import opened Pools
  import opened Timer
  import opened Registry

  const PointChain: seq<Class> :=
    [Class("Point", [FieldDecl("x", IntT, false, false), FieldDecl("y", IntT, false, false)]), Class(ObjectClassName, [])]

  const X: Field := Field("Point", "x", IntT, false, false)
  const Y: Field := Field("Point", "y", IntT, false, false)

  lemma PointFields()
    ensures Discovery.Discover(PointChain) == [X, Y]
  {
    assert PointChain[1..][0].name == ObjectClassName;
    assert Discovery.LevelFields(PointChain[0]) == [X, Y];
    assert Discovery.Primitive([X, Y]) == [X, Y] by {
      assert [X, Y][1..] == [Y];
      assert [Y][1..] == [];
    }
  }

  /** Registering into an empty coordinator announces the new pool and then the instance. */
  lemma RegisterPoint(h: Heap, a: Ref, id: int)
    requires 0 <= id < IdBound
    ensures var u := Register(Updater([], h, Link(true, true), []), a, PointChain, id);
      && u.pools == [Pool("Point", [X, Y], [ObjectIdPair(id, a)])]
      && |u.sent| == 2 && u.sent[0].RegisterObjectPool? && u.sent[1].AddObjectToPool?
  {
    PointFields();
  }

  /** The message that sets field `name` of the instance with id `id` from a `{type, value}` pair. */
  function UpdateMessage(className: string, id: int, name: string, tag: string, value: Json): map<string, Json> {
    map[
      "class_name" := JString(className),
      "object_id" := JNum(Integral(id)),
      "field" := JObject(map["name" := JString(name), "type" := JString(tag), "value" := value])]
  }

  /** Writing 5 into `x` of `[x, y]` sets `x`, keeps `y`, and throws nothing. */
  lemma PointWrite(h: Heap, a: Ref)
    ensures var w := SetFieldValueForObject([X, Y], h, a, IntV(5), "x");
      && w.escaped.None?
      && Get(w.heap, a, X) == IntV(5)
      && Get(w.heap, a, Y) == Get(h, a, Y)
  {
    assert FirstRefusal([X, Y], "x", IntV(5)) == 2 by {
      assert [X, Y][1..] == [Y];
      assert [Y][1..] == [];
    }
    assert DistinctKeys([X, Y]);
    assert !WritesSlot([X, Y], 2, "x", a, SlotOf(a, Y));
  }

  /**
    Once a `Point` is registered, the update message for its id changes `x`
    to 5 and leaves `y` as it was.
  */
  lemma PointScenario(u: Updater, a: Ref, id: int)
    requires u.pools == [Pool("Point", Discovery.Discover(PointChain), [ObjectIdPair(id, a)])]
    ensures var r := UpdateObjectPoolObject(u, UpdateMessage("Point", id, "x", "int", JNum(Integral(5))));
      && r.escaped.None?
      && Get(r.after.heap, a, X) == IntV(5)
      && Get(r.after.heap, a, Y) == Get(u.heap, a, Y)
  {
    PointFields();
    var message := UpdateMessage("Point", id, "x", "int", JNum(Integral(5)));
    assert PoolForName(u.pools, "Point") == Some(0);
    assert PairWithId(u.pools[0].objects, id) == Some(0);
    assert WellShaped(message);
    assert Coercion.Decode("int", message["field"].members) == Success(IntV(5));
    UpdateWritesNamedField(u, message);
    PointWrite(u.heap, a);
  }

  /** A class with one `byte` field. */
  const DimmerChain: seq<Class> := [Class("Dimmer", [FieldDecl("level", ByteT, false, false)]), Class(ObjectClassName, [])]

  const Level: Field := Field("Dimmer", "level", ByteT, false, false)

  lemma DimmerFields()
    ensures Discovery.Discover(DimmerChain) == [Level]
  {
    assert DimmerChain[1..][0].name == ObjectClassName;
    assert Discovery.LevelFields(DimmerChain[0]) == [Level];
    assert Discovery.Primitive([Level]) == [Level] by {
      assert [Level][1..] == [];
    }
  }

  /**
    Once a `Dimmer` is registered, every `"byte"` update of its `byte` field
    escapes the handler with `IllegalArgumentException` and leaves the field
    as it was.
  */
  lemma ByteUpdateEscapes(u: Updater, a: Ref, id: int, v: int)
    requires u.pools == [Pool("Dimmer", Discovery.Discover(DimmerChain), [ObjectIdPair(id, a)])]
    ensures UpdateObjectPoolObject(u, UpdateMessage("Dimmer", id, "level", "byte", JNum(Integral(v))))
      == Handled(u, Some(IllegalArgumentException))
  {
    DimmerFields();
    var message := UpdateMessage("Dimmer", id, "level", "byte", JNum(Integral(v)));
    assert PoolForName(u.pools, "Dimmer") == Some(0);
    assert PairWithId(u.pools[0].objects, id) == Some(0);
    assert WellShaped(message);
    assert Coercion.Decode("byte", message["field"].members) == Success(IntV(v));
    assert Refuses(Level, "level", IntV(v));
    assert SetFieldValueForObject([Level], u.heap, a, IntV(v), "level") == Write(u.heap, Some(IllegalArgumentException));
    UpdateWritesNamedField(u, message);
  }
}
