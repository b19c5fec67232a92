/**
  `Updater.ObjectPool`: the registered instances of one class, each paired
  with a pool-local id, plus the class's discovered fields. Pools are values
  here; an operation returns the new pool instead of mutating it.
*/
module Pools {
  import opened Wrappers
  import opened Reflect
  import opened Json

  /** Ids are drawn with `Random.nextInt(IdBound)`, so they lie in `[0, IdBound)`. */
  const IdBound: int := 999999999

  /** `Updater.ObjectIdPair`. */
  datatype ObjectIdPair = ObjectIdPair(id: int, obj: Ref)

  datatype Pool = Pool(className: string, fields: seq<Field>, objects: seq<ObjectIdPair>)

  predicate HasId(objects: seq<ObjectIdPair>, id: int) {
    exists i :: 0 <= i < |objects| && objects[i].id == id
  }

  /** No two pairs share an id. */
  predicate DistinctIds(objects: seq<ObjectIdPair>) {
    forall i, j :: 0 <= i < j < |objects| ==> objects[i].id != objects[j].id
  }

  /** Some pair holds `obj` (compared by reference). */
  predicate Holds(objects: seq<ObjectIdPair>, obj: Ref) {
    exists i :: 0 <= i < |objects| && objects[i].obj == obj
  }

  /** How many pairs hold `obj`. */
  function Count(objects: seq<ObjectIdPair>, obj: Ref): nat {
    if |objects| == 0 then 0
    else (if objects[0].obj == obj then 1 else 0) + Count(objects[1..], obj)
  }

  /** An id `getUniqueId` may return for pool `p`. */
  predicate FreshId(p: Pool, id: int) {
    0 <= id < IdBound && !HasId(p.objects, id)
  }

  // ---------------------------------------------------------------- ids

  /**
    The id the redraw loop settles on when the random source yields `draws`:
    the first draw no pair already uses. `None` means every supplied draw
    collided, so the Java loop would still be drawing.
  */
  function FirstFresh(objects: seq<ObjectIdPair>, draws: seq<int>): (r: Option<int>)
    ensures r.None? <==> forall k :: 0 <= k < |draws| ==> HasId(objects, draws[k])
    ensures r.Some? ==> exists k :: (0 <= k < |draws| && draws[k] == r.value && !HasId(objects, r.value)
                                     && forall m :: 0 <= m < k ==> HasId(objects, draws[m]))
  {
    if |draws| == 0 then None
    else if HasId(objects, draws[0]) then
      var r := FirstFresh(objects, draws[1..]);
      assert forall k :: 1 <= k < |draws| ==> draws[k] == draws[1..][k - 1];
      r
    else Some(draws[0])
  }

  lemma {:induction false} FirstFreshSkips(objects: seq<ObjectIdPair>, draws: seq<int>, k: nat)
    requires k <= |draws|
    requires forall m :: 0 <= m < k ==> HasId(objects, draws[m])
    ensures FirstFresh(objects, draws) == FirstFresh(objects, draws[k..])
  {
    if k > 0 {
      assert draws[1..][k - 1..] == draws[k..];
      FirstFreshSkips(objects, draws[1..], k - 1);
    }
  }

  /**
    `getUniqueId`: draw, scan the pool, and start the scan again with a new
    draw on every collision. The result is a fresh id in range.
  */
  method GetUniqueId(objects: seq<ObjectIdPair>, draws: seq<int>) returns (r: Option<int>)
    requires forall k :: 0 <= k < |draws| ==> 0 <= draws[k] < IdBound
    ensures r == FirstFresh(objects, draws)
    ensures r.Some? ==> 0 <= r.value < IdBound && !HasId(objects, r.value)
  {
    if |draws| == 0 {
      return None;
    }
    var k := 0;
    var val := draws[0];
    var i := 0;
    while i < |objects|
      invariant 0 <= k < |draws| && val == draws[k]
      invariant 0 <= i <= |objects|
      invariant forall m :: 0 <= m < k ==> HasId(objects, draws[m])
      invariant forall j :: 0 <= j < i ==> objects[j].id != val
      decreases |draws| - k, |objects| - i
    {
      if objects[i].id == val {
        if k + 1 == |draws| {
          FirstFreshSkips(objects, draws, k);
          return None;
        }
        k := k + 1;
        val := draws[k];
        i := 0;
      } else {
        i := i + 1;
      }
    }
    FirstFreshSkips(objects, draws, k);
    r := Some(val);
  }

  // ---------------------------------------------------------------- add and remove

  /**
    `addObject` with the id `getUniqueId` returned: appends one pair, with no
    check that `obj` is already held, and reports `true` as `ArrayList.add` does.
  */
  function AddObject(p: Pool, obj: Ref, id: int): (r: (Pool, bool))
    requires FreshId(p, id)
    ensures r.1
    ensures r.0.className == p.className && r.0.fields == p.fields
    ensures |r.0.objects| == |p.objects| + 1 && r.0.objects[..|p.objects|] == p.objects
    ensures r.0.objects[|p.objects|] == ObjectIdPair(id, obj)
    ensures DistinctIds(p.objects) ==> DistinctIds(r.0.objects)
    ensures Count(r.0.objects, obj) == Count(p.objects, obj) + 1
  {
    var objects := p.objects + [ObjectIdPair(id, obj)];
    CountAppend(p.objects, ObjectIdPair(id, obj), obj);
    (p.(objects := objects), true)
  }

  lemma {:induction false} CountAppend(objects: seq<ObjectIdPair>, pair: ObjectIdPair, obj: Ref)
    ensures Count(objects + [pair], obj) == Count(objects, obj) + (if pair.obj == obj then 1 else 0)
  {
    if |objects| > 0 {
      assert (objects + [pair])[1..] == objects[1..] + [pair];
      CountAppend(objects[1..], pair, obj);
    }
  }

  /** Registering the same instance twice leaves two pairs for it, with different ids. */
  lemma AddSameInstanceTwice(p: Pool, obj: Ref, id1: int, id2: int)
    requires FreshId(p, id1)
    requires FreshId(AddObject(p, obj, id1).0, id2)
    ensures var q := AddObject(AddObject(p, obj, id1).0, obj, id2).0;
      && Count(q.objects, obj) == Count(p.objects, obj) + 2
      && q.objects[|p.objects|] == ObjectIdPair(id1, obj)
      && q.objects[|p.objects| + 1] == ObjectIdPair(id2, obj)
      && id1 != id2
  {
  }

  /**
    Adding an instance the pool does not hold, and then adding it again,
    leaves its first pair the one of the first add: the snapshot
    `getObjectJsonAt(obj)` returns carries the first id.
  */
  lemma AddTwiceAnnouncesFirstId(p: Pool, h: Heap, obj: Ref, id1: int, id2: int)
    requires FreshId(p, id1) && !Holds(p.objects, obj)
    requires FreshId(AddObject(p, obj, id1).0, id2)
    ensures var q := AddObject(AddObject(p, obj, id1).0, obj, id2).0;
      && ObjectJsonFor(q, h, obj).Some?
      && ObjectJsonFor(q, h, obj).value.members["id"] == JNum(Integral(id1))
  {
    var q := AddObject(AddObject(p, obj, id1).0, obj, id2).0;
    assert q.objects[|p.objects|] == ObjectIdPair(id1, obj);
    assert forall i :: 0 <= i < |p.objects| ==> q.objects[i] == p.objects[i];
    assert PairIndex(q.objects, obj) == Some(|p.objects|);
  }

  /**
    `addObject` as written: draw an id with `getUniqueId`, then append the
    pair. `None` means every supplied draw collided.
  */
  method AddObjectDrawing(p: Pool, obj: Ref, draws: seq<int>) returns (r: Option<(Pool, bool)>)
    requires forall k :: 0 <= k < |draws| ==> 0 <= draws[k] < IdBound
    ensures r.None? <==> forall k :: 0 <= k < |draws| ==> HasId(p.objects, draws[k])
    ensures r.Some? ==> exists id :: (FreshId(p, id) && FirstFresh(p.objects, draws) == Some(id)
                                      && r.value == AddObject(p, obj, id))
    ensures r.Some? ==> r.value.1 && |r.value.0.objects| == |p.objects| + 1
    ensures r.Some? && DistinctIds(p.objects) ==> DistinctIds(r.value.0.objects)
  {
    var id := GetUniqueId(p.objects, draws);
    match id
    case None => r := None;
    case Some(v) => r := Some(AddObject(p, obj, v));
  }

  /** `getObjectIdPairByObject`, as the position of the first pair holding `obj`. */
  function PairIndex(objects: seq<ObjectIdPair>, obj: Ref): (r: Option<nat>)
    ensures r.None? <==> !Holds(objects, obj)
    ensures r.Some? ==> (r.value < |objects| && objects[r.value].obj == obj
                         && forall i :: 0 <= i < r.value ==> objects[i].obj != obj)
  {
    if |objects| == 0 then None
    else if objects[0].obj == obj then Some(0)
    else
      match PairIndex(objects[1..], obj)
      case None =>
        assert forall i :: 1 <= i < |objects| ==> objects[i] == objects[1..][i - 1];
        None
      case Some(k) =>
        assert forall i :: 1 <= i <= k + 1 ==> objects[i] == objects[1..][i - 1];
        Some(k + 1)
  }

  /**
    `removeObject`: drop the first pair holding `obj` and report `true`, or
    report `false` and change nothing when no pair holds it.
  */
  function RemoveObject(p: Pool, obj: Ref): (r: (Pool, bool))
    ensures r.1 <==> Holds(p.objects, obj)
    ensures !r.1 ==> r.0 == p
    ensures r.0.className == p.className && r.0.fields == p.fields
    ensures r.1 ==> exists k :: (0 <= k < |p.objects| && p.objects[k].obj == obj
                                 && (forall i :: 0 <= i < k ==> p.objects[i].obj != obj)
                                 && r.0.objects == p.objects[..k] + p.objects[k + 1..])
    ensures DistinctIds(p.objects) ==> DistinctIds(r.0.objects)
  {
    match PairIndex(p.objects, obj)
    case None => (p, false)
    case Some(k) =>
      RemoveAtKeepsDistinct(p.objects, k);
      (p.(objects := p.objects[..k] + p.objects[k + 1..]), true)
  }

  lemma RemoveAtKeepsDistinct(objects: seq<ObjectIdPair>, k: nat)
    requires k < |objects|
    ensures DistinctIds(objects) ==> DistinctIds(objects[..k] + objects[k + 1..])
  {
    var rest := objects[..k] + objects[k + 1..];
    assert forall i :: 0 <= i < |rest| ==> rest[i] == objects[if i < k then i else i + 1];
  }

  // ---------------------------------------------------------------- field writes

  /** The outcome of `setFieldValueForObject`: the field values afterwards, and the exception that escaped, if any. */
  datatype Write = Write(heap: Heap, escaped: Option<Thrown>)

  /** `set` on field `f` throws for `value`, and the loop reaches `f` because it is named `name`. */
  predicate Refuses(f: Field, name: string, value: Value) {
    f.name == name && (!f.Writable() || Widen(value, f.ty).None?)
  }

  /** The position of the first field named `name` whose `set` throws for `value`, or `|fields|`. */
  function FirstRefusal(fields: seq<Field>, name: string, value: Value): (k: nat)
    ensures k <= |fields|
    ensures forall i :: 0 <= i < k ==> !Refuses(fields[i], name, value)
    ensures k < |fields| ==> Refuses(fields[k], name, value)
  {
    if |fields| == 0 || Refuses(fields[0], name, value) then 0
    else
      var k := FirstRefusal(fields[1..], name, value);
      assert forall i :: 1 <= i < k + 1 ==> fields[i] == fields[1..][i - 1];
      1 + k
  }

  /** One of the first `k` fields is named `name` and is stored, for `obj`, in slot `s`. */
  predicate WritesSlot(fields: seq<Field>, k: nat, name: string, obj: Ref, s: Slot) {
    exists i :: 0 <= i < k && i < |fields| && fields[i].name == name && SlotOf(obj, fields[i]) == s
  }

  lemma WritesSlotTail(fields: seq<Field>, k: nat, name: string, obj: Ref, s: Slot)
    requires 0 < k <= |fields|
    ensures WritesSlot(fields, k, name, obj, s) <==>
      (fields[0].name == name && SlotOf(obj, fields[0]) == s) || WritesSlot(fields[1..], k - 1, name, obj, s)
  {
    if WritesSlot(fields, k, name, obj, s) && !(fields[0].name == name && SlotOf(obj, fields[0]) == s) {
      var i :| 0 <= i < k && i < |fields| && fields[i].name == name && SlotOf(obj, fields[i]) == s;
      assert fields[1..][i - 1] == fields[i];
    }
    if WritesSlot(fields[1..], k - 1, name, obj, s) {
      var i :| 0 <= i < k - 1 && i < |fields[1..]| && fields[1..][i].name == name && SlotOf(obj, fields[1..][i]) == s;
      assert fields[i + 1] == fields[1..][i];
    }
  }

  /** No two fields have the same identity, as the fields of one class chain do not. */
  predicate DistinctKeys(fields: seq<Field>) {
    forall i, j :: 0 <= i < j < |fields| ==> fields[i].Key() != fields[j].Key()
  }

  /**
    `setFieldValueForObject`: `set` `value` on `obj` for every field named
    `name`, shadowed same-name fields of superclasses included, until a
    `set` throws. Up to the first refusing field (position `k`) every named
    field receives the widened value and nothing else changes. The refusal
    of a `static final` field is an `IllegalAccessException`, caught and
    logged; an argument the field's type does not take is an
    `IllegalArgumentException`, which escapes.
  */
  function SetFieldValueForObject(fields: seq<Field>, h: Heap, obj: Ref, value: Value, name: string): (r: Write)
    ensures var k := FirstRefusal(fields, name, value);
      && r.escaped == (if k < |fields| && fields[k].Writable() then Some(IllegalArgumentException) else None)
      && (forall o: Ref, g: Field :: !WritesSlot(fields, k, name, obj, SlotOf(o, g)) ==> Get(r.heap, o, g) == Get(h, o, g))
      && (DistinctKeys(fields) ==>
            forall i :: 0 <= i < k && fields[i].name == name ==> Get(r.heap, obj, fields[i]) == Widen(value, fields[i].ty).value)
  {
    if |fields| == 0 then Write(h, None)
    else if Refuses(fields[0], name, value) then
      if fields[0].Writable() then Write(h, Some(IllegalArgumentException)) else Write(h, None)
    else
      var h' := if fields[0].name == name then Set(h, obj, fields[0], value).value else h;
      var r := SetFieldValueForObject(fields[1..], h', obj, value, name);
      SetFieldValueStep(fields, h, obj, value, name, h', r);
      r
  }

  /** The step of `SetFieldValueForObject` past a first field that takes the value. */
  lemma SetFieldValueStep(fields: seq<Field>, h: Heap, obj: Ref, value: Value, name: string, h': Heap, r: Write)
    requires |fields| > 0 && !Refuses(fields[0], name, value)
    requires h' == if fields[0].name == name then Set(h, obj, fields[0], value).value else h
    requires var k := FirstRefusal(fields[1..], name, value);
      && (forall o: Ref, g: Field :: !WritesSlot(fields[1..], k, name, obj, SlotOf(o, g)) ==> Get(r.heap, o, g) == Get(h', o, g))
      && (DistinctKeys(fields[1..]) ==>
            forall i :: 0 <= i < k && fields[1..][i].name == name ==> Get(r.heap, obj, fields[1..][i]) == Widen(value, fields[1..][i].ty).value)
    ensures var k := FirstRefusal(fields, name, value);
      && (forall o: Ref, g: Field :: !WritesSlot(fields, k, name, obj, SlotOf(o, g)) ==> Get(r.heap, o, g) == Get(h, o, g))
      && (DistinctKeys(fields) ==>
            forall i :: 0 <= i < k && fields[i].name == name ==> Get(r.heap, obj, fields[i]) == Widen(value, fields[i].ty).value)
  {
    var k := FirstRefusal(fields, name, value);
    assert k == 1 + FirstRefusal(fields[1..], name, value);
    forall o: Ref, g: Field | !WritesSlot(fields, k, name, obj, SlotOf(o, g))
      ensures Get(r.heap, o, g) == Get(h, o, g)
    {
      WritesSlotTail(fields, k, name, obj, SlotOf(o, g));
    }
    if DistinctKeys(fields) {
      assert DistinctKeys(fields[1..]) by {
        forall i, j | 0 <= i < j < |fields[1..]| ensures fields[1..][i].Key() != fields[1..][j].Key() {
          assert fields[1..][i] == fields[i + 1] && fields[1..][j] == fields[j + 1];
        }
      }
      forall i | 0 <= i < k && fields[i].name == name
        ensures Get(r.heap, obj, fields[i]) == Widen(value, fields[i].ty).value
      {
        if i == 0 {
          forall j | 0 <= j < |fields[1..]| ensures SlotOf(obj, fields[1..][j]) != SlotOf(obj, fields[0]) {
            assert fields[1..][j] == fields[j + 1];
          }
          assert !WritesSlot(fields[1..], k - 1, name, obj, SlotOf(obj, fields[0]));
        } else {
          assert fields[i] == fields[1..][i - 1];
        }
      }
    }
  }

  /** A name no field carries changes nothing, and nothing escapes. */
  lemma {:induction false} UnknownFieldNameChangesNothing(fields: seq<Field>, h: Heap, obj: Ref, value: Value, name: string)
    requires forall i :: 0 <= i < |fields| ==> fields[i].name != name
    ensures SetFieldValueForObject(fields, h, obj, value, name) == Write(h, None)
  {
    if |fields| > 0 {
      UnknownFieldNameChangesNothing(fields[1..], h, obj, value, name);
    }
  }

  // ---------------------------------------------------------------- snapshots

  /** The `{name, type}` entry of a field in a pool's `"fields"` array. */
  function FieldHeader(f: Field): Json {
    JObject(map["name" := JString(f.name), "type" := JClass(f.ty)])
  }

  function FieldHeaders(fields: seq<Field>): (r: seq<Json>)
    ensures |r| == |fields| && forall i :: 0 <= i < |fields| ==> r[i] == FieldHeader(fields[i])
  {
    seq(|fields|, i requires 0 <= i < |fields| => FieldHeader(fields[i]))
  }

  /** The `{name, value, type}` entry of a field of `obj`. */
  function FieldEntry(f: Field, h: Heap, obj: Ref): Json {
    JObject(map["name" := JString(f.name), "value" := JBoxed(Get(h, obj, f)), "type" := JClass(f.ty)])
  }

  function FieldEntries(fields: seq<Field>, h: Heap, obj: Ref): (r: seq<Json>)
    ensures |r| == |fields| && forall i :: 0 <= i < |fields| ==> r[i] == FieldEntry(fields[i], h, obj)
  {
    seq(|fields|, i requires 0 <= i < |fields| => FieldEntry(fields[i], h, obj))
  }

  /** An object's entry in a pool's `"objects"` array. */
  function ObjectEntry(pair: ObjectIdPair, fields: seq<Field>, h: Heap): Json {
    JObject(map["id" := JNum(Integral(pair.id)), "fields" := JArray(FieldEntries(fields, h, pair.obj))])
  }

  /**
    The pool snapshot, object by object: one entry per pair in pool order,
    except that with no fields the `"objects"` array stays empty (the Java
    code creates the entries while visiting the first field).
  */
  function PoolJson(p: Pool, h: Heap): Json {
    JObject(map[
      "class_name" := JString(p.className),
      "fields" := JArray(FieldHeaders(p.fields)),
      "objects" := JArray(
        if |p.fields| == 0 then []
        else seq(|p.objects|, i requires 0 <= i < |p.objects| => ObjectEntry(p.objects[i], p.fields, h)))])
  }

  /** The entries of the first `n` fields followed by the entry of field `n`. */
  lemma FieldEntriesSnoc(fields: seq<Field>, n: nat, h: Heap, obj: Ref)
    requires n < |fields|
    ensures FieldEntries(fields[..n + 1], h, obj) == FieldEntries(fields[..n], h, obj) + [FieldEntry(fields[n], h, obj)]
  {
  }

  lemma FieldHeadersSnoc(fields: seq<Field>, n: nat)
    requires n < |fields|
    ensures FieldHeaders(fields[..n + 1]) == FieldHeaders(fields[..n]) + [FieldHeader(fields[n])]
  {
  }

  /**
    `toJSON`: built field-major, growing the `"objects"` array while the
    first field is visited and appending to each object's entry afterwards.
  */
  method ToJson(p: Pool, h: Heap) returns (r: Json)
    ensures r == PoolJson(p, h)
    ensures r.members["objects"].items == if |p.fields| == 0 then [] else
      seq(|p.objects|, i requires 0 <= i < |p.objects| => ObjectEntry(p.objects[i], p.fields, h))
  {
    var fields: seq<Json> := [];
    var objects: seq<(int, seq<Json>)> := [];
    for fi := 0 to |p.fields|
      invariant fields == FieldHeaders(p.fields[..fi])
      invariant |objects| == if fi == 0 then 0 else |p.objects|
      invariant forall k :: 0 <= k < |objects| ==>
        objects[k] == (p.objects[k].id, FieldEntries(p.fields[..fi], h, p.objects[k].obj))
    {
      var f := p.fields[fi];
      FieldHeadersSnoc(p.fields, fi);
      fields := fields + [FieldHeader(f)];
      for i := 0 to |p.objects|
        invariant |objects| == if fi == 0 then i else |p.objects|
        invariant forall k :: 0 <= k < i ==>
          objects[k] == (p.objects[k].id, FieldEntries(p.fields[..fi + 1], h, p.objects[k].obj))
        invariant forall k :: i <= k < |objects| ==>
          objects[k] == (p.objects[k].id, FieldEntries(p.fields[..fi], h, p.objects[k].obj))
      {
        FieldEntriesSnoc(p.fields, fi, h, p.objects[i].obj);
        var entry := FieldEntry(f, h, p.objects[i].obj);
        if |objects| > i {
          var (id, entries) := objects[i];
          assert id == p.objects[i].id && entries == FieldEntries(p.fields[..fi], h, p.objects[i].obj);
          objects := objects[i := (id, entries + [entry])];
        } else {
          assert [entry] == FieldEntries(p.fields[..fi + 1], h, p.objects[i].obj) by {
            assert fi == 0 && FieldEntries(p.fields[..fi], h, p.objects[i].obj) == [];
          }
          objects := objects + [(p.objects[i].id, [entry])];
        }
      }
    }
    assert p.fields[..|p.fields|] == p.fields;
    var entries := seq(|objects|, k requires 0 <= k < |objects| =>
      JObject(map["id" := JNum(Integral(objects[k].0)), "fields" := JArray(objects[k].1)]));
    assert entries == if |p.fields| == 0 then [] else
      seq(|p.objects|, i requires 0 <= i < |p.objects| => ObjectEntry(p.objects[i], p.fields, h));
    r := JObject(map["class_name" := JString(p.className), "fields" := JArray(fields), "objects" := JArray(entries)]);
  }

  /**
    `getObjectJsonAt(index)`: `null` outside `[0, |objects|)`; otherwise the
    pair's id and one entry per field, in field order.
  */
  function ObjectJsonAt(p: Pool, h: Heap, index: int): (r: Option<Json>)
    ensures r.None? <==> index < 0 || index >= |p.objects|
    ensures r.Some? ==>
      && r.value.JObject?
      && r.value.members.Keys == {"class_name", "id", "fields"}
      && r.value.members["class_name"] == JString(p.className)
      && r.value.members["id"] == JNum(Integral(p.objects[index].id))
      && r.value.members["fields"].JArray?
      && |r.value.members["fields"].items| == |p.fields|
      && forall k :: 0 <= k < |p.fields| ==>
           r.value.members["fields"].items[k] == FieldEntry(p.fields[k], h, p.objects[index].obj)
  {
    if index > |p.objects| - 1 || index < 0 then None
    else
      Some(JObject(map[
        "class_name" := JString(p.className),
        "id" := JNum(Integral(p.objects[index].id)),
        "fields" := JArray(FieldEntries(p.fields, h, p.objects[index].obj))]))
  }

  /**
    `getObjectJsonAt(obj)`: the snapshot of the first pair holding `obj`, or
    `null` when no pair holds it (`indexOf(null)` is -1).
  */
  function ObjectJsonFor(p: Pool, h: Heap, obj: Ref): (r: Option<Json>)
    ensures r.None? <==> !Holds(p.objects, obj)
    ensures r.Some? ==> exists k :: (0 <= k < |p.objects| && p.objects[k].obj == obj
                                     && (forall i :: 0 <= i < k ==> p.objects[i].obj != obj)
                                     && r == ObjectJsonAt(p, h, k))
  {
    var index := match PairIndex(p.objects, obj) case Some(k) => k as int case None => -1;
    ObjectJsonAt(p, h, index)
  }

  /**
    The full snapshot and the per-object snapshot agree: when the pool has
    fields, entry `i` of `"objects"` carries the same id and field entries
    as `getObjectJsonAt(i)`.
  */
  lemma SnapshotAgreesWithObjectJson(p: Pool, h: Heap, i: int)
    requires |p.fields| > 0 && 0 <= i < |p.objects|
    ensures PoolJson(p, h).members["objects"].items[i].members["id"] == ObjectJsonAt(p, h, i).value.members["id"]
    ensures PoolJson(p, h).members["objects"].items[i].members["fields"] == ObjectJsonAt(p, h, i).value.members["fields"]
  {
  }
}
