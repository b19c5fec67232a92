# java-inspector `Updater`, modelled in Dafny

java-inspector mirrors the primitive fields of registered live Java objects to
a remote web inspector over socket.io. Everything it does is in one class,
`Updater`, with its nested `ObjectPool` and `ObjectIdPair`. This project
models that class as immutable values and pure functions:

- `wrappers.dfy`: `Option` (Java `null`) and `Result` (a thrown exception).
- `reflect.dfy`: the runtime that reflection reaches. It has primitive type tags, boxed values with the widening conversions `Field.set` applies, declared fields with their `static` and `final` modifiers, class chains, and a heap of field values. An instance field is stored per instance; a static field is one slot shared by every instance.
- `json.dfy`: `JSONObject`/`JSONArray` values as a datatype, the `getString`/`getInt`/... accessors, and `String.charAt(0)` over the string's UTF-16 code units.
- `discovery.dfy`: `getInheritedPrivateFields`.
- `coercion.dfy`: decoding of the tagged value in an inbound field update, the `(short)` narrowing, and the outbound rendering it should invert.
- `pools.dfy`: `ObjectPool`. It covers id assignment, add and remove, field writes, and the two JSON builders.
- `timer.dfy`: the timer-present flag, guarded by the connection flag.
- `registry.dfy`: the coordinator. It covers find-or-create of pools by class name, `register`, `unregister`, `clearAllPools`, the timer's broadcast, and the `FIELD_UPDATED_AT_WEB_CLIENT` handler. A worked `Point` scenario is included.
- `intended.dfy`: corrected versions of the two behaviours listed under Findings.

Each outbound `mSocket.emit` is modelled as an append to the `sent` event log.
Each inbound event is a call of the handler function.

The model follows the code where the code differs from what a reader of the
protocol might expect:
- `addObject` does not check for duplicates. Registering an instance twice
  gives two pairs with different ids. When the class's pool did not hold the
  instance before, the second `ADD_OBJECT_TO_POOL` carries the first pair's
  id, because `getObjectJsonAt(obj)` finds the first pair.
- `clearAllPools` discards the pools themselves, descriptors included. The
  next `register` of any class creates its pool again and emits
  `REGISTER_OBJECT_POOL` again.
- Emits do not depend on the connection state. socket.io buffers them.
- The `"byte"` tag is not narrowed. The `REMOVE_OBJECT_FROM_POOL` payload is
  computed after the removal. Both are listed under Findings.
- Errors are not all absorbed. A message that names an unknown class
  dereferences a `null` pool. An empty `"char"` string fails in `charAt(0)`.
  `Field.set` throws `IllegalArgumentException` when the decoded box does not
  unwrap and widen to the field's type: for `null` from an unknown tag, for
  the `int` the `"byte"` tag yields, or for a `double` sent to a `float`
  field. None of these is a `JSONException`, so all three escape the
  handler. The model returns the state after the handler together with the
  escaping exception; an `IllegalArgumentException` leaves behind the writes
  to the same-name fields visited before the refusing one.
- `getDeclaredFields` also returns static fields, so a primitive static
  field is mirrored and written like the others. Its value is shared by
  every instance. Writing a `static final` field throws
  `IllegalAccessException`; `setFieldValueForObject` catches it, logs it,
  and leaves the rest of its loop undone. The model follows the Java SE
  contract of `Field.set` for fields made accessible.

## Model

| member | source | states |
|---|---|---|
| Reflect.Widen | library/src/main/java/com/leonziyo/javainspector/Updater.java:282 | `Field.set` accepts a box for a primitive field exactly when the box's type equals the field's or widens to it by section 5.1.2 of the Java Language Specification; the result has the field's type, integral numbers keep their value, and `null` is refused |
| Reflect.Set | library/src/main/java/com/leonziyo/javainspector/Updater.java:282 | a `static final` field throws `IllegalAccessException`; otherwise a box that does not widen throws `IllegalArgumentException`, and an accepted one is stored widened, read back by every instance for a static field, with every other slot unchanged |
| Json.Utf16 | library/src/main/java/com/leonziyo/javainspector/Updater.java:163 | a scalar value below U+10000 is one code unit equal to it; any other is a high and a low surrogate that recombine to it |
| Json.CharAt0 | library/src/main/java/com/leonziyo/javainspector/Updater.java:163 | `charAt(0)` throws `StringIndexOutOfBoundsException` exactly when the Java string has no code units, and otherwise returns its first unit, a high surrogate when the text starts outside the Basic Multilingual Plane |
| Discovery.Walked | library/src/main/java/com/leonziyo/javainspector/Updater.java:211-224 | the walk visits the longest prefix of the superclass chain that does not reach `java.lang.Object`, and stops at the end of the chain or at `Object` |
| Discovery.Discover | library/src/main/java/com/leonziyo/javainspector/Updater.java:208-227 | no discovered field has a reference type |
| Discovery.PrimitiveMembership | library/src/main/java/com/leonziyo/javainspector/Updater.java:219-221 | the per-level filter keeps a field if and only if its type is primitive |
| Discovery.KeepPrimitive | library/src/main/java/com/leonziyo/javainspector/Updater.java:214-222 | the inner loop returns the primitive fields of one level, in the order `getDeclaredFields` gives them |
| Discovery.GetInheritedPrivateFields | library/src/main/java/com/leonziyo/javainspector/Updater.java:208-227 | the nested Java loop returns the primitive fields of each walked level in turn. This equals filtering the concatenation of every walked level's declarations |
| Discovery.DiscoverIsFilteredDeclarations | library/src/main/java/com/leonziyo/javainspector/Updater.java:212-224 | discovery keeps exactly the primitive declarations of the walked levels, in chain order and then in the order `getDeclaredFields` gives them |
| Discovery.DiscoverMembership | library/src/main/java/com/leonziyo/javainspector/Updater.java:208-227 | a field is discovered if and only if it is primitive-typed and declared at a level before `Object` |
| Discovery.DiscoverDerivedFirst | library/src/main/java/com/leonziyo/javainspector/Updater.java:211-224 | for any k levels before `Object`, their fields form a prefix of the result, so derived classes come before their superclasses |
| Coercion.Narrow16 | library/src/main/java/com/leonziyo/javainspector/Updater.java:165-167 | `(short)` gives the unique value in [-32768, 32768) congruent to the input modulo 65536, and the identity on that range |
| Coercion.Decode | library/src/main/java/com/leonziyo/javainspector/Updater.java:142-168 | for each of the 8 tags, decoding succeeds exactly when `"value"` has the JSON kind the tag's accessor reads (a non-empty string for `"char"`), and the result is `IntV` for `"int"` and `"byte"`, `LongV`, `FloatV`, `DoubleV` and `BoolV` of that value, the first UTF-16 code unit for `"char"`, and the 16-bit truncation for `"short"`. An unknown tag yields `null`. A failure is a `JSONException`, except the `StringIndexOutOfBoundsException` of an empty `"char"` string |
| Coercion.TagName | library/src/main/java/com/leonziyo/javainspector/Updater.java:309-312 | every primitive type's name is one of the tags the handler recognises |
| Coercion.RoundTrip | library/src/main/java/com/leonziyo/javainspector/Updater.java:142-168 | a value that fits its field's type, sent with that type's tag and echoed back, decodes to itself for every type except `byte`. For `byte` it decodes to a boxed `int` with the same number |
| Coercion.ByteTagIsNotNarrowed | library/src/main/java/com/leonziyo/javainspector/Updater.java:150-152 | `{"type":"byte","value":300}` decodes to the `int` 300 |
| Coercion.ByteTagIsRefusedByByteFields | library/src/main/java/com/leonziyo/javainspector/Updater.java:150-152 | whatever the `"byte"` tag decodes to, a `byte` field refuses it: a boxed `int` has no widening conversion to `byte` |
| Pools.FirstFresh | library/src/main/java/com/leonziyo/javainspector/Updater.java:266-276 | the redraw loop settles on the first draw that no pair uses, and every earlier draw collided. It settles on nothing exactly when all draws collide |
| Pools.GetUniqueId | library/src/main/java/com/leonziyo/javainspector/Updater.java:266-276 | the scan with restart-on-collision returns the first fresh draw. That id lies in [0, 999999999) and is used by no pair |
| Pools.AddObject | library/src/main/java/com/leonziyo/javainspector/Updater.java:258-260 | adding always returns true and appends exactly one pair `(id, obj)`. Earlier pairs are kept, ids stay pairwise distinct, and the instance's pair count grows by one |
| Pools.AddSameInstanceTwice | library/src/main/java/com/leonziyo/javainspector/Updater.java:258-260 | adding one instance twice leaves two pairs for it, with different ids |
| Pools.AddTwiceAnnouncesFirstId | library/src/main/java/com/leonziyo/javainspector/Updater.java:354-357 | adding an instance the pool does not hold twice leaves `getObjectJsonAt(obj)` non-null and carrying the first add's id |
| Pools.AddObjectDrawing | library/src/main/java/com/leonziyo/javainspector/Updater.java:258-276 | `addObject` draws with `getUniqueId` and appends: it yields nothing exactly when every draw collides, and otherwise the pool extended by the first fresh draw, with ids still distinct |
| Pools.PairIndex | library/src/main/java/com/leonziyo/javainspector/Updater.java:290-296 | the lookup finds the first pair holding the instance by reference, or null exactly when no pair holds it |
| Pools.RemoveObject | library/src/main/java/com/leonziyo/javainspector/Updater.java:262-264 | removal returns true if and only if the instance is held. Otherwise the pool is unchanged. If it is held, only the first pair holding it is removed; the others keep their ids and order, and ids stay distinct |
| Pools.FirstRefusal | library/src/main/java/com/leonziyo/javainspector/Updater.java:280-283 | the position found is the first field with the name whose `set` throws for the value, and every field before it with the name accepts it |
| Pools.SetFieldValueForObject | library/src/main/java/com/leonziyo/javainspector/Updater.java:278-288 | the loop writes the given instance's same-name fields in order until the first one whose `set` throws; no slot that none of those fields occupies changes. When no two fields share an identity, as for the fields of one class chain, every such field before the refusal holds the value widened to its type, shadowed and static ones included. Nothing escapes when no field refuses or when the refusing one is `static final`; otherwise `IllegalArgumentException` escapes |
| Pools.UnknownFieldNameChangesNothing | library/src/main/java/com/leonziyo/javainspector/Updater.java:280-283 | a name no descriptor carries changes no field, and nothing escapes |
| Pools.ToJson | library/src/main/java/com/leonziyo/javainspector/Updater.java:298-352 | the field-major build with the lazily grown `objects` array gives one entry per pair, in pool order, holding the pair's id and one `{name, value, type}` per descriptor. With no descriptors the `objects` array is empty |
| Pools.ObjectJsonAt | library/src/main/java/com/leonziyo/javainspector/Updater.java:359-391 | the result is null if and only if the index is outside [0, size). Otherwise it holds the class name, the pair's id and one entry per descriptor, in descriptor order |
| Pools.ObjectJsonFor | library/src/main/java/com/leonziyo/javainspector/Updater.java:354-357 | the result is null if and only if no pair holds the instance. Otherwise it is the snapshot of the first pair holding it |
| Pools.SnapshotAgreesWithObjectJson | library/src/main/java/com/leonziyo/javainspector/Updater.java:298-391 | with at least one descriptor, entry i of the pool snapshot has the same id and field entries as `getObjectJsonAt(i)` |
| Timer.StartTimer | library/src/main/java/com/leonziyo/javainspector/Updater.java:51-62 | starting is a no-op when a timer exists or the socket is disconnected. Afterwards a timer exists if and only if one existed or the socket is connected |
| Timer.StopTimer | library/src/main/java/com/leonziyo/javainspector/Updater.java:64-69 | afterwards no timer exists, and without a timer nothing changes |
| Timer.OnConnect | library/src/main/java/com/leonziyo/javainspector/Updater.java:108-113 | after the connect event a timer exists |
| Timer.OnDisconnect | library/src/main/java/com/leonziyo/javainspector/Updater.java:123-128 | after the disconnect event no timer exists |
| Timer.TransitionsKeepTimerConfined | library/src/main/java/com/leonziyo/javainspector/Updater.java:51-69 | start, stop, connect and disconnect all keep "a timer exists only while connected" |
| Timer.StartAndStopAreIdempotent | library/src/main/java/com/leonziyo/javainspector/Updater.java:51-69 | starting twice equals starting once, and stopping twice equals stopping once |
| Registry.PoolForName | library/src/main/java/com/leonziyo/javainspector/Updater.java:229-245 | the lookup returns the first pool with that class name, or null exactly when none has it |
| Registry.Register | library/src/main/java/com/leonziyo/javainspector/Updater.java:183-194 | the pools become the old list with `addObject(obj)` applied to the class's pool, or with a new pool of the discovered fields, holding only the new pair, appended. A created pool is announced with the snapshot of the empty pool, and `ADD_OBJECT_TO_POOL` with a non-null payload follows. There is still at most one pool per name, other pools and the heap are unchanged, and earlier events are kept |
| Registry.RegisterAnnouncesNewId | library/src/main/java/com/leonziyo/javainspector/Updater.java:191-193 | registering an instance the pool does not hold announces it with the id it was given |
| Registry.Target | library/src/main/java/com/leonziyo/javainspector/Updater.java:184-189 | the pool `register` adds to is the class's pool when one exists, and otherwise the one appended at the end |
| Registry.RegisterAnnouncesFirstPair | library/src/main/java/com/leonziyo/javainspector/Updater.java:191-193 | the `ADD_OBJECT_TO_POOL` payload is the snapshot of the first pair holding the instance in the pool it was added to |
| Registry.RegisterTargetPool | library/src/main/java/com/leonziyo/javainspector/Updater.java:184-192 | after `register`, the pool at the target position is the pool found there, or the new one, with the instance appended, and a later lookup of the class finds that same position |
| Registry.RegisterTwiceAnnouncesFirstId | library/src/main/java/com/leonziyo/javainspector/Updater.java:191-193 | when the class's pool did not hold the instance before, whether or not the pool existed yet, registering the instance a second time announces it with the id of its first pair, not the new one |
| Registry.Unregister | library/src/main/java/com/leonziyo/javainspector/Updater.java:196-206 | with no pool, or when the instance is not held, nothing changes and nothing is emitted. Otherwise the class's pool becomes the result of `removeObject`, and exactly one `REMOVE_OBJECT_FROM_POOL` is emitted whose payload is the snapshot of the first pair still holding the instance after the removal (null when none is left). There is still at most one pool per name, and other pools are unchanged |
| Registry.UnregisterSendsNullWhenHeldOnce | library/src/main/java/com/leonziyo/javainspector/Updater.java:203-204 | unregistering an instance held by exactly one pair emits `REMOVE_OBJECT_FROM_POOL` with a null payload |
| Registry.ClearAll | library/src/main/java/com/leonziyo/javainspector/Updater.java:71-74 | clearing leaves no pools and appends `CLEAR_ALL_POOLS` |
| Registry.RegisterAfterClearAnnouncesPool | library/src/main/java/com/leonziyo/javainspector/Updater.java:71-74 | after clearing, registering any class emits `REGISTER_OBJECT_POOL` again and then `ADD_OBJECT_TO_POOL` |
| Registry.Broadcast | library/src/main/java/com/leonziyo/javainspector/Updater.java:76-83 | a timer firing emits one `UPDATE_ALL_OBJECT_POOLS` whose array holds, at each position, the `toJSON` snapshot of the pool at that position, and changes nothing else |
| Registry.PairWithId | library/src/main/java/com/leonziyo/javainspector/Updater.java:170-175 | the handler's loop picks the first pair with the id, or none exactly when no pair has it |
| Registry.ParseRequest | library/src/main/java/com/leonziyo/javainspector/Updater.java:139-143 | the head of the handler succeeds exactly when the message has a `class_name` string, an integral `object_id` and a `field` object with a `type` string, and otherwise throws `JSONException` |
| Registry.ApplyUpdate | library/src/main/java/com/leonziyo/javainspector/Updater.java:138-175 | a `NullPointerException` arises only when the message names a class with no pool, and every exception except `IllegalArgumentException` leaves the heap untouched |
| Registry.UpdateObjectPoolObject | library/src/main/java/com/leonziyo/javainspector/Updater.java:134-181 | the handler changes only field values. A malformed message or a `JSONException` from decoding changes nothing and nothing escapes. With a decodable value, an unknown class escapes as `NullPointerException` with nothing changed; an id no pair carries, or a held id with no `name` string in `field`, changes nothing and nothing escapes. An empty `"char"` string escapes as `StringIndexOutOfBoundsException`. Nothing else escapes except `IllegalArgumentException` from `Field.set` |
| Registry.UpdateWritesNamedField | library/src/main/java/com/leonziyo/javainspector/Updater.java:170-175 | a well-formed update for a held id has exactly the outcome of `setFieldValueForObject` on that pool's fields and the first pair's instance, with the decoded value and the named field |
| Scenario.PointFields | library/src/main/java/com/leonziyo/javainspector/Updater.java:208-227 | class `Point` with `int x, y` and superclass `Object` discovers `[x, y]` |
| Scenario.RegisterPoint | library/src/main/java/com/leonziyo/javainspector/Updater.java:183-194 | the first registration creates one pool holding the instance and emits `REGISTER_OBJECT_POOL` and then `ADD_OBJECT_TO_POOL` |
| Scenario.PointWrite | library/src/main/java/com/leonziyo/javainspector/Updater.java:278-288 | writing the `int` 5 into `x` of `Point`'s fields sets `x`, leaves `y` as it was, and throws nothing |
| Scenario.PointScenario | library/src/main/java/com/leonziyo/javainspector/Updater.java:134-181 | once a `Point` is registered, the inbound update `{Point, id, x:int=5}` sets `x` to 5, leaves `y` as it was, and nothing escapes |
| Scenario.DimmerFields | library/src/main/java/com/leonziyo/javainspector/Updater.java:208-227 | class `Dimmer` with one `byte level` and superclass `Object` discovers `[level]` |
| Scenario.ByteUpdateEscapes | library/src/main/java/com/leonziyo/javainspector/Updater.java:150-152 | once an instance of a class with one `byte` field is registered, every `"byte"` update of it escapes the handler with `IllegalArgumentException` and changes nothing |
| Intended.Narrow8 | library/src/main/java/com/leonziyo/javainspector/Updater.java:150-152 | `(byte)` gives the unique value in [-128, 128) congruent to the input modulo 256 |
| Intended.Decode | library/src/main/java/com/leonziyo/javainspector/Updater.java:142-168 | the corrected decoder agrees with the handler on every tag except `"byte"`. There it yields the 8-bit truncation of the `int` the handler yields |
| Intended.RoundTrip | library/src/main/java/com/leonziyo/javainspector/Updater.java:142-168 | with the correction, every value that fits its primitive type and can be rendered (every one but a lone-surrogate `char`) survives the echo through the protocol |
| Intended.ByteTagIsAccepted | library/src/main/java/com/leonziyo/javainspector/Updater.java:150-152 | with the correction, a `byte` field takes the decoded `"byte"` value as it is |
| Intended.Unregister | library/src/main/java/com/leonziyo/javainspector/Updater.java:196-206 | the corrected unregister changes the pools exactly as the original does. Its `REMOVE_OBJECT_FROM_POOL` payload is the snapshot of the removed pair, never null |

## Findings

| source | as written | input that shows it | evidently intended | confidence | as-written member | corrected member |
|---|---|---|---|---|---|---|
| library/src/main/java/com/leonziyo/javainspector/Updater.java:203-204 | the payload `getObjectJsonAt(obj)` is computed after `removeObject(obj)` | register instance A once, then unregister A: the pool no longer holds A, so the payload is null | the payload describes the instance that was removed | not executed; high | Registry.UnregisterSendsNullWhenHeldOnce | Intended.Unregister |
| library/src/main/java/com/leonziyo/javainspector/Updater.java:150-152 | `"byte"` reads `getInt` without a `(byte)` cast, unlike `"short"` | `{"type":"byte","value":7}` for a `byte` field gives `Integer` 7, and `Field.set` throws `IllegalArgumentException`, which escapes the handler | `(byte)` narrowing, giving a `Byte` the field accepts | not executed; high | Scenario.ByteUpdateEscapes | Intended.ByteTagIsAccepted |

## Left out

- The socket.io transport is left out: `IO.socket`, `connect`, the listener registration, and the actual `emit` (Updater.java:100-132). This is network I/O from a library not shown. Emits are appends to `sent`, and inbound events are calls of `UpdateObjectPoolObject`, `OnConnect` and `OnDisconnect`.
- `java.util.Timer` and `scheduleAtFixedRate` are left out. So is the unsynchronised access to the pool list from the timer thread and the socket's threads. This is concurrency. The timer is a flag, and one firing is `Registry.Broadcast`.
- The reflective runtime itself is left out: `getDeclaredFields`, `getSuperclass`, `setAccessible` and the JVM's field storage. They are replaced by explicit class chains and a heap map; `Field.get` and `Field.set` are modelled over that map. A field never written holds its type's default. `Field.set`'s check that the object is an instance of the declaring class always passes here, because a pool holds only instances of its own class.
- Reflect.Widen: an `int` or `long` widened to `float` or `double` keeps its exact value; the rounding of that conversion is floating point and is not modelled.
- Coercion.RoundTrip: a `char` field holding a lone UTF-16 surrogate is excluded, because a JSON string here is a sequence of Unicode scalar values and cannot hold one.
- Intended.RoundTrip: excludes lone-surrogate `char` values for the same reason as `Coercion.RoundTrip`.
- Reflect.Set: follows the Java SE contract of `Field.set`, under which an accessible `static final` field refuses writes. The Android runtime may write such a field after `setAccessible(true)`; that platform's behaviour is not modelled.
- Discovery.LevelFields: takes each level's fields in the order `getDeclaredFields` returns them, which the platform does not fix (Android lists instance fields before static ones). The model does not choose an order; it keeps whatever order the class description gives.
- org.json coercion is left out. Each accessor accepts only its native JSON kind and otherwise throws `JSONException`. org.json would also convert strings and fractional numbers. Text rendering is also left out, including how a `Class` object appears under `"type"`.
- Floating point is left out. `"float"` and `"double"` values are carried as the JSON number they arrived as. The `(float)` rounding is not modelled, and neither is org.json's rejection of NaN and infinities.
- `java.util.Random` is left out. Draws are a supplied sequence, assumed to lie in [0, 999999999).
- Logging (`log`, `System.out.print`), the singleton `getInstance`, and the constructor's `connectSocket` call are left out. They have no effect on the mirrored state.
- The sample `MainActivity` is left out. It only calls `register`, `startTimer` and `stopTimer`.
- Pools.GetUniqueId: the Java loop can redraw forever. Given finitely many draws, the model returns `None` when every draw collides.
- Pools.AddObject: takes the id `getUniqueId` returned as a parameter, with the freshness that `getUniqueId` guarantees as a precondition.
- Registry.Register: takes the drawn id as a parameter, like `AddObject`. It also takes the instance's class chain in place of `obj.getClass()`.
- Coercion.Decode: `getInt` and `getLong` return the JSON integer unbounded. The 32- and 64-bit truncation org.json applies to out-of-range numbers is not modelled.
