/** DataProcessor's record transform (data-test.py): upper-case the string values of a
    dict, leave keys and every other value alone. The processor's `data_cache` is never
    written, so the transform is a pure function. */
module DataTest {
  import opened Wrappers

  /** A Python value as it can appear in user data. */
  datatype Value =
    | Str(text: string)
    | Int(i: int)
    | Bool(b: bool)
    | Null
    | List(items: seq<Value>)
    | Dict(entries: map<string, Value>)

  /** str.upper on one character, for ASCII letters. */
  function UpperChar(c: char): (u: char)
    ensures 'a' <= c <= 'z' ==> 'A' <= u <= 'Z' && u as int == c as int - 32
    ensures !('a' <= c <= 'z') ==> u == c
  {
    if 'a' <= c <= 'z' then (c as int - 32) as char else c
  }

  /** str.upper: every character mapped by UpperChar, the length kept. */
  function Upper(s: string): (u: string)
    ensures |u| == |s|
    ensures forall i :: 0 <= i < |s| ==> u[i] == UpperChar(s[i])
  {
    if s == [] then [] else [UpperChar(s[0])] + Upper(s[1..])
  }

  /** Upper-casing already upper-cased text changes nothing. */
  lemma UpperIdempotent(s: string)
    ensures Upper(Upper(s)) == Upper(s)
  {
  }

  function TransformValue(v: Value): Value
  {
    if v.Str? then Str(Upper(v.text)) else v
  }

  /** `_transform_data`: the same keys; each string value upper-cased; every other
      value, including lists and dicts that contain strings, passed through as is. */
  function TransformData(data: map<string, Value>): (r: map<string, Value>)
    ensures r.Keys == data.Keys
    ensures forall k :: k in data && data[k].Str? ==>
      r[k] == Str(Upper(data[k].text))
    ensures forall k :: k in data && !data[k].Str? ==> r[k] == data[k]
  {
    map k | k in data :: TransformValue(data[k])
  }

  /** Transforming twice is transforming once. */
  lemma TransformIdempotent(data: map<string, Value>)
    ensures TransformData(TransformData(data)) == TransformData(data)
  {
    var once := TransformData(data);
    forall k | k in once ensures TransformData(once)[k] == once[k] {
      if data[k].Str? {
        UpperIdempotent(data[k].text);
      }
    }
  }

  /** `process_user_data`: the transformed dict, or None when the transform raises,
      which it does exactly when the argument has no `.items()`, i.e. is not a dict. */
  function ProcessUserData(userData: Value): (r: Option<map<string, Value>>)
    ensures r.Some? <==> userData.Dict?
    ensures r.Some? ==> r.value == TransformData(userData.entries)
    ensures r.Some? ==> r.value.Keys == userData.entries.Keys
    ensures r.Some? ==> forall k :: k in userData.entries && !userData.entries[k].Str? ==>
      r.value[k] == userData.entries[k]
  {
    if userData.Dict? then Some(TransformData(userData.entries)) else None
  }
}
