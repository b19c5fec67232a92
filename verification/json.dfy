/**
  JSON values as the org.json classes hold them, and the accessors the
  inbound handler uses. A `JSONObject` is a map from keys to values; besides
  the JSON kinds it may hold a boxed Java value or a `Class` object, which is
  what the outbound snapshots put under `"value"` and `"type"`.
*/
module Json {
  import opened Wrappers
  import opened Reflect

  datatype Json =
    | JNull
    | JBool(b: bool)
    | JNum(n: Number)
    | JString(s: string)
    | JArray(items: seq<Json>)
    | JObject(members: map<string, Json>)
    | JBoxed(v: Value)
    | JClass(t: JType)

  /** `JSONObject.getString(key)`. */
  function GetString(o: map<string, Json>, key: string): (r: Result<string, Thrown>)
    ensures r.Success? <==> key in o && o[key].JString?
    ensures r.Success? ==> r.value == o[key].s
    ensures r.Failure? ==> r.error == JSONException
  {
    if key in o && o[key].JString? then Success(o[key].s) else Failure(JSONException)
  }

  /** `JSONObject.getInt(key)` and `getLong(key)`: an integral JSON number. */
  function GetInteger(o: map<string, Json>, key: string): (r: Result<int, Thrown>)
    ensures r.Success? <==> key in o && o[key].JNum? && o[key].n.Integral?
    ensures r.Success? ==> r.value == o[key].n.i
    ensures r.Failure? ==> r.error == JSONException
  {
    if key in o && o[key].JNum? && o[key].n.Integral? then Success(o[key].n.i) else Failure(JSONException)
  }

  /** `JSONObject.getDouble(key)`: any JSON number, kept opaque. */
  function GetNumber(o: map<string, Json>, key: string): (r: Result<Number, Thrown>)
    ensures r.Success? <==> key in o && o[key].JNum?
    ensures r.Success? ==> r.value == o[key].n
    ensures r.Failure? ==> r.error == JSONException
  {
    if key in o && o[key].JNum? then Success(o[key].n) else Failure(JSONException)
  }

  /** `JSONObject.getBoolean(key)`. */
  function GetBoolean(o: map<string, Json>, key: string): (r: Result<bool, Thrown>)
    ensures r.Success? <==> key in o && o[key].JBool?
    ensures r.Success? ==> r.value == o[key].b
    ensures r.Failure? ==> r.error == JSONException
  {
    if key in o && o[key].JBool? then Success(o[key].b) else Failure(JSONException)
  }

  /** `JSONObject.getJSONObject(key)`. */
  function GetObject(o: map<string, Json>, key: string): (r: Result<map<string, Json>, Thrown>)
    ensures r.Success? <==> key in o && o[key].JObject?
    ensures r.Success? ==> r.value == o[key].members
    ensures r.Failure? ==> r.error == JSONException
  {
    if key in o && o[key].JObject? then Success(o[key].members) else Failure(JSONException)
  }
  /** The UTF-16 encoding of one Unicode scalar value: one code unit, or a surrogate pair. */
  function Utf16(c: char): (r: seq<Char16>)
    ensures 1 <= |r| <= 2
    ensures |r| == 1 <==> (c as int) < 0x1_0000
    ensures |r| == 1 ==> r[0] == c as int
    ensures |r| == 2 ==>
      && 0xD800 <= r[0] < 0xDC00 && 0xDC00 <= r[1] < 0xE000
      && 0x1_0000 + (r[0] as int - 0xD800) * 0x400 + (r[1] as int - 0xDC00) == c as int
  {
    var cp := c as int;
    if cp < 0x1_0000 then [cp]
    else [0xD800 + (cp - 0x1_0000) / 0x400, 0xDC00 + (cp - 0x1_0000) % 0x400]
  }

  /** The code units of the Java `String` that holds the text `s`. */
  function JavaUnits(s: string): (r: seq<Char16>)
    ensures |s| <= |r| <= 2 * |s|
  {
    if |s| == 0 then [] else Utf16(s[0]) + JavaUnits(s[1..])
  }

  /**
    `String.charAt(0)`: the first UTF-16 code unit of the Java string, which
    is a high surrogate when the text starts outside the Basic Multilingual Plane.
  */
  function CharAt0(s: string): (r: Result<Char16, Thrown>)
    ensures r.Failure? <==> |JavaUnits(s)| == 0
    ensures r.Failure? ==> r.error == StringIndexOutOfBoundsException
    ensures r.Success? ==> r.value == JavaUnits(s)[0]
    ensures r.Success? && (s[0] as int) < 0x1_0000 ==> r.value == s[0] as int
    ensures r.Success? && (s[0] as int) >= 0x1_0000 ==> 0xD800 <= r.value < 0xDC00
  {
    if |s| == 0 then Failure(StringIndexOutOfBoundsException) else Success(Utf16(s[0])[0])
  }
}
