/** The Python values the scan-interpretation code handles: the decoded JSON
    response of the scanning service.  A dict is an ordered association list
    of key/value pairs, because Python dicts iterate in insertion order; a
    genuine dict never repeats a key (`DistinctKeys`). */
module PyValues {

  /** A JSON-shaped Python value: None, bool, int, float, str, list or dict. */
  datatype Value =
    | NoneValue
    | BoolValue(b: bool)
    | IntValue(i: int)
    | FloatValue(f: real)
    | StrValue(s: string)
    | ListValue(items: seq<Value>)
    | DictValue(entries: seq<(string, Value)>)

  /** A dict with string keys, in insertion order. */
  type Dict = seq<(string, Value)>

  /** The exceptions the modelled code can raise. */
  datatype Exception =
    | KeyError(key: string)
    | TypeError
    | AttributeError(name: string)

  /** Python's `X | None`. */
  datatype Option<+T> = None | Some(value: T)

  /** A call that either returns a value or raises an exception. */
  datatype Result<+T> = Ok(value: T) | Raise(error: Exception)

  function KeySet(d: Dict): set<string>
  {
    set e | e in d :: e.0
  }

  /** Every key occurs at most once, as in a real Python dict. */
  predicate DistinctKeys(d: Dict)
  {
    forall i, j :: 0 <= i < j < |d| ==> d[i].0 != d[j].0
  }

  /** `d[key]` / `key in d`: the value stored under `key`, if any. */
  function Lookup(d: Dict, key: string): (r: Option<Value>)
    ensures r.None? <==> key !in KeySet(d)
    ensures r.Some? ==> (key, r.value) in d
    ensures DistinctKeys(d) ==> forall e :: e in d && e.0 == key ==> r == Some(e.1)
  {
    if |d| == 0 then None
    else if d[0].0 == key then Some(d[0].1)
    else Lookup(d[1..], key)
  }

  /** `d.get(key, default)`. */
  function DictGet(d: Dict, key: string, default: Value): Value
  {
    match Lookup(d, key)
    case Some(v) => v
    case None => default
  }

  /** `v[key]` with a string key: only a dict can be indexed by a string;
      a dict without the key raises KeyError, any other value TypeError. */
  function Subscript(v: Value, key: string): Result<Value>
  {
    match v
    case DictValue(d) =>
      (match Lookup(d, key)
       case Some(x) => Ok(x)
       case None => Raise(KeyError(key)))
    case _ => Raise(TypeError)
  }

  /** `v.get(key)`: only a dict has a `get` method; a missing key gives None. */
  function GetMethod(v: Value, key: string): Result<Value>
  {
    match v
    case DictValue(d) => Ok(DictGet(d, key, NoneValue))
    case _ => Raise(AttributeError("get"))
  }

  /** Python truthiness (`bool(v)`). */
  predicate Truthy(v: Value)
  {
    match v
    case NoneValue => false
    case BoolValue(b) => b
    case IntValue(i) => i != 0
    case FloatValue(f) => f != 0.0
    case StrValue(s) => |s| > 0
    case ListValue(items) => |items| > 0
    case DictValue(entries) => |entries| > 0
  }

  /** `v is True`: only the boolean singleton True qualifies. */
  predicate IsTrue(v: Value)
  {
    v == BoolValue(true)
  }

  /** `v == 1`: bool is a subclass of int and floats compare by value. */
  predicate EqualsOne(v: Value)
  {
    v == IntValue(1) || v == BoolValue(true) || v == FloatValue(1.0)
  }

  /** The dict with every entry whose key is in `keys` removed, the rest kept
      in order: `{k: v for k, v in d.items() if k not in keys}`. */
  function WithoutKeys(d: Dict, keys: set<string>): (r: Dict)
    ensures |r| <= |d|
    ensures forall e :: e in r <==> e in d && e.0 !in keys
    ensures KeySet(r) == KeySet(d) - keys
    ensures DistinctKeys(d) ==> DistinctKeys(r)
  {
    if |d| == 0 then []
    else
      var rest := WithoutKeys(d[1..], keys);
      assert forall e :: e in d[1..] ==> e in d;
      if d[0].0 in keys then rest else [d[0]] + rest
  }

  /** Removing no present key changes nothing. */
  lemma {:induction false} WithoutAbsentKeys(d: Dict, keys: set<string>)
    requires KeySet(d) !! keys
    ensures WithoutKeys(d, keys) == d
  {
    if |d| > 0 {
      assert d[0] in d;
      assert KeySet(d[1..]) <= KeySet(d) by {
        forall k | k in KeySet(d[1..]) ensures k in KeySet(d) {
          var e :| e in d[1..] && e.0 == k;
          assert e in d;
        }
      }
      WithoutAbsentKeys(d[1..], keys);
      assert d == [d[0]] + d[1..];
    }
  }

  /** Removing two key sets one after the other removes their union. */
  lemma {:induction false} WithoutKeysTwice(d: Dict, a: set<string>, b: set<string>)
    ensures WithoutKeys(WithoutKeys(d, a), b) == WithoutKeys(d, a + b)
  {
    if |d| > 0 {
      WithoutKeysTwice(d[1..], a, b);
      if d[0].0 !in a {
        assert WithoutKeys(d, a) == [d[0]] + WithoutKeys(d[1..], a);
        assert ([d[0]] + WithoutKeys(d[1..], a))[1..] == WithoutKeys(d[1..], a);
      }
    }
  }

  /** `d.pop(key, None)` for its effect on `d`: the entry under `key`, if any,
      is removed; the popped value itself is not used by the modelled code. */
  function Pop(d: Dict, key: string): (r: Dict)
    ensures r == WithoutKeys(d, {key})
  {
    if |d| == 0 then []
    else if d[0].0 == key then Pop(d[1..], key)
    else [d[0]] + Pop(d[1..], key)
  }

  /** `d[key] = value`: an existing key keeps its position and takes the new
      value; a new key is appended at the end. */
  function SetItem(d: Dict, key: string, value: Value): (r: Dict)
    ensures Lookup(r, key) == Some(value)
    ensures forall k :: k != key ==> Lookup(r, k) == Lookup(d, k)
    ensures key !in KeySet(d) ==> r == d + [(key, value)]
  {
    if |d| == 0 then [(key, value)]
    else if d[0].0 == key then [(key, value)] + d[1..]
    else
      assert key in KeySet(d) <==> key in KeySet(d[1..]) by {
        assert d == [d[0]] + d[1..];
      }
      [d[0]] + SetItem(d[1..], key, value)
  }
}
