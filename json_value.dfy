/** The value model of Json.h: the seven kinds, the tagged union `Var` that holds
    exactly one payload, and the queries and pure updates on a `Var`.

    A `std::map<std::string, Json>` is modelled by its iteration order: a sequence
    of entries whose keys ascend strictly in `std::string`'s lexicographic order. */
module JsonValue {

  datatype Option<T> = None | Some(value: T)

  /** Json::Type: the kind tag. */
  datatype Type = Null | Bool | Int | Float | String | Array | Object

  const INT32_MIN: int := -0x8000_0000
  const INT32_MAX: int := 0x7FFF_FFFF

  /** The payload of an `Int` value: a 32-bit `int`. */
  type Int32 = x: int | INT32_MIN <= x <= INT32_MAX

  /** The payload of a `Float` value, kept as its bit pattern; no floating-point
      arithmetic is modelled. */
  datatype Float32 = Float32(bits: bv32)

  /** One key/value pair of an object. */
  datatype Entry = Entry(key: string, value: Var)

  /** Json::Var: the kind and the one payload that kind selects. The payloads that
      the source keeps on the heap (string, vector, map) are values here, owned by
      the enclosing `Var`, so a value is always a tree without sharing. */
  datatype Var =
    | JNull
    | JBool(b: bool)
    | JInt(i: Int32)
    | JFloat(f: Float32)
    | JString(s: string)
    | JArray(elems: seq<Var>)
    | JObject(entries: seq<Entry>)
  {
    /** Json::GetType: one Type per kind, each kind its own. */
    function GetType(): (t: Type)
      ensures (t == Null <==> JNull?) && (t == Bool <==> JBool?) && (t == Int <==> JInt?)
      ensures (t == Float <==> JFloat?) && (t == String <==> JString?)
      ensures (t == Array <==> JArray?) && (t == Object <==> JObject?)
    {
      match this
      case JNull => Null
      case JBool(_) => Bool
      case JInt(_) => Int
      case JFloat(_) => Float
      case JString(_) => String
      case JArray(_) => Array
      case JObject(_) => Object
    }

    /** Json::Size: element count of an array, key count of an object, 0 otherwise. */
    function Size(): (n: nat)
      ensures JArray? ==> n == |elems|
      ensures JObject? ==> n == |entries| && n == |KeysOf(entries)|
      ensures JObject? && Sorted(entries) ==> n == |KeySet(entries)|
      ensures !JArray? && !JObject? ==> n == 0
    {
      match this
      case JArray(es) => |es|
      case JObject(es) => (if Sorted(es) then SortedKeyCount(es); |es| else |es|)
      case _ => 0
    }

    /** Json::Contains: false, not an error, on anything but an object. */
    function Contains(key: string): (r: bool)
      ensures r <==> JObject? && Lookup(entries, key).Some?
    {
      JObject? && key in KeySet(entries)
    }

    /** Json::operator[](key) on an object: the value stored under `key`. */
    function Get(key: string): (r: Var)
      requires JObject? && Contains(key)
      ensures Lookup(entries, key) == Some(r)
    {
      LookupFound(entries, key);
      Lookup(entries, key).value
    }

    /** Json::operator[](i) on an array. */
    function At(i: nat): (r: Var)
      requires JArray? && i < |elems|
      ensures r in elems && r == elems[i]
    {
      elems[i]
    }

    /** operator bool: the payload of a Bool, `false` for every other kind. */
    function AsBool(): (r: bool)
      ensures r <==> this == JBool(true)
    {
      if JBool? then b else false
    }

    /** operator int: the payload of an Int, 0 for every other kind. */
    function AsInt(): (r: Int32)
      ensures JInt(r) == this || (!JInt? && r == 0)
    {
      if JInt? then i else 0
    }

    /** operator float: the payload of a Float, +0.0 for every other kind. */
    function AsFloat(): (r: Float32)
      ensures JFloat(r) == this || (!JFloat? && r == Float32(0))
    {
      if JFloat? then f else Float32(0)
    }

    /** operator std::string: the payload of a String, "" for every other kind. */
    function AsString(): (r: string)
      ensures JString(r) == this || (!JString? && r == "")
    {
      if JString? then s else ""
    }
  }

  /** The value Json(Type) constructs: an empty string, vector or map for those
      kinds. For Bool, Int and Float that constructor leaves the payload
      uninitialised, so those kinds are excluded. */
  function OfType(t: Type): (v: Var)
    requires t in {Null, String, Array, Object}
    ensures v.GetType() == t && v.Size() == 0 && WellFormed(v)
    ensures t == String ==> v.AsString() == ""
  {
    match t
    case Null => JNull
    case String => JString("")
    case Array => JArray([])
    case Object => JObject([])
  }

  /** The order of std::string's operator<: lexicographic by character, a proper
      prefix before its extensions. */
  predicate KeyLess(a: string, b: string): (r: bool)
    ensures |a| < |b| && a == b[..|a|] ==> r
  {
    if |a| == 0 then |b| > 0
    else if |b| == 0 then false
    else a[0] < b[0] || (a[0] == b[0] && KeyLess(a[1..], b[1..]))
  }

  lemma {:induction false} KeyLessIrreflexive(a: string)
    ensures !KeyLess(a, a)
  {
    if |a| > 0 {
      KeyLessIrreflexive(a[1..]);
    }
  }

  lemma {:induction false} KeyLessTransitive(a: string, b: string, c: string)
    requires KeyLess(a, b) && KeyLess(b, c)
    ensures KeyLess(a, c)
  {
    if |a| > 0 && a[0] == b[0] && b[0] == c[0] {
      KeyLessTransitive(a[1..], b[1..], c[1..]);
    }
  }

  lemma {:induction false} KeyLessTotal(a: string, b: string)
    ensures a == b || KeyLess(a, b) || KeyLess(b, a)
  {
    if |a| > 0 && |b| > 0 && a[0] == b[0] {
      KeyLessTotal(a[1..], b[1..]);
      if a[1..] == b[1..] {
        assert a == [a[0]] + a[1..] && b == [b[0]] + b[1..];
      }
    }
  }

  /** The keys of an entry sequence, as a set. */
  function KeySet(es: seq<Entry>): set<string>
  {
    set i | 0 <= i < |es| :: es[i].key
  }

  /** The keys of an entry sequence, in order. */
  function KeysOf(es: seq<Entry>): (ks: seq<string>)
    ensures |ks| == |es| && forall i :: 0 <= i < |es| ==> ks[i] == es[i].key
  {
    seq(|es|, i requires 0 <= i < |es| => es[i].key)
  }

  /** The invariant of std::map: keys strictly ascending, hence unique. */
  predicate Sorted(es: seq<Entry>)
  {
    forall i, j :: 0 <= i < j < |es| ==> KeyLess(es[i].key, es[j].key)
  }

  /** Every object in the tree keeps std::map's invariant. */
  predicate WellFormed(v: Var)
  {
    match v
    case JArray(es) => forall i :: 0 <= i < |es| ==> WellFormed(es[i])
    case JObject(es) => Sorted(es) && forall i :: 0 <= i < |es| ==> WellFormed(es[i].value)
    case _ => true
  }

  /** std::map::find: the value stored under `key`, if any. */
  function Lookup(es: seq<Entry>, key: string): (r: Option<Var>)
    ensures r.Some? <==> key in KeySet(es)
  {
    if |es| == 0 then None
    else if es[0].key == key then Some(es[0].value)
    else
      assert KeySet(es) == {es[0].key} + KeySet(es[1..]);
      Lookup(es[1..], key)
  }

  lemma LookupFound(es: seq<Entry>, key: string)
    requires key in KeySet(es)
    ensures Lookup(es, key).Some?
  {
  }

  /** The keys of a sorted map are distinct: one key per entry. */
  lemma {:induction false} SortedKeyCount(es: seq<Entry>)
    requires Sorted(es)
    ensures |KeySet(es)| == |es|
    decreases |es|
  {
    if |es| > 0 {
      SortedTail(es);
      SortedKeyCount(es[1..]);
      assert es[0].key !in KeySet(es[1..]) by {
        if es[0].key in KeySet(es[1..]) { KeyLessIrreflexive(es[0].key); }
      }
    } else {
      assert KeySet(es) == {};
    }
  }

  lemma KeySetCons(e: Entry, es: seq<Entry>)
    ensures KeySet([e] + es) == {e.key} + KeySet(es)
  {
    var r := [e] + es;
    assert r[0] == e;
    forall k | k in KeySet(es) ensures k in KeySet(r) {
      var i :| 0 <= i < |es| && es[i].key == k;
      assert r[i + 1] == es[i];
    }
  }

  lemma {:induction false} SortedTail(es: seq<Entry>)
    requires |es| > 0 && Sorted(es)
    ensures Sorted(es[1..])
    ensures forall k :: k in KeySet(es[1..]) ==> KeyLess(es[0].key, k)
    ensures KeySet(es) == {es[0].key} + KeySet(es[1..])
  {
  }

  lemma {:induction false} SortedCons(e: Entry, es: seq<Entry>)
    requires Sorted(es)
    requires forall k :: k in KeySet(es) ==> KeyLess(e.key, k)
    ensures Sorted([e] + es)
  {
    var r := [e] + es;
    forall i, j | 0 <= i < j < |r|
      ensures KeyLess(r[i].key, r[j].key)
    {
      if i == 0 {
        assert r[j].key == es[j - 1].key;
        assert r[j].key in KeySet(es);
      } else {
        assert r[i] == es[i - 1] && r[j] == es[j - 1];
      }
    }
  }

  /** `(*objectVal)[key] = value` on a std::map: replaces the value of an existing
      key in place, or inserts the pair at its sorted position. */
  function Put(es: seq<Entry>, key: string, value: Var): (r: seq<Entry>)
    requires Sorted(es)
    ensures Sorted(r)
    ensures KeySet(r) == KeySet(es) + {key}
    ensures Lookup(r, key) == Some(value)
    ensures forall k :: k != key ==> Lookup(r, k) == Lookup(es, k)
    ensures |r| == if key in KeySet(es) then |es| else |es| + 1
    ensures forall i :: 0 <= i < |r| ==> r[i].value == value || r[i] in es
  {
    if |es| == 0 then
      PutIntoEmpty(key, value);
      [Entry(key, value)]
    else
      SortedTail(es);
      if es[0].key == key then
        PutReplacing(es, value);
        [Entry(key, value)] + es[1..]
      else if KeyLess(key, es[0].key) then
        PutInFront(es, key, value);
        [Entry(key, value)] + es
      else
        KeyLessTotal(key, es[0].key);
        var tail := Put(es[1..], key, value);
        PutBehind(es, key, value, tail);
        [es[0]] + tail
  }

  /** `r` is what assigning `value` to `key` in the map `es` gives: the
      postcondition of Put, for its case lemmas. */
  ghost predicate PutOf(es: seq<Entry>, key: string, value: Var, r: seq<Entry>)
  {
    && Sorted(r)
    && KeySet(r) == KeySet(es) + {key}
    && Lookup(r, key) == Some(value)
    && (forall k :: k != key ==> Lookup(r, k) == Lookup(es, k))
    && |r| == (if key in KeySet(es) then |es| else |es| + 1)
    && (forall i :: 0 <= i < |r| ==> r[i].value == value || r[i] in es)
  }

  lemma PutIntoEmpty(key: string, value: Var)
    ensures PutOf([], key, value, [Entry(key, value)])
  {
    KeySetCons(Entry(key, value), []);
    assert [Entry(key, value)] + [] == [Entry(key, value)];
  }

  lemma PutReplacing(es: seq<Entry>, value: Var)
    requires |es| > 0 && Sorted(es)
    ensures PutOf(es, es[0].key, value, [Entry(es[0].key, value)] + es[1..])
  {
    var key := es[0].key;
    var r := [Entry(key, value)] + es[1..];
    SortedTail(es);
    SortedCons(Entry(key, value), es[1..]);
    KeySetCons(Entry(key, value), es[1..]);
    assert r[1..] == es[1..];
    assert key !in KeySet(es[1..]) by {
      if key in KeySet(es[1..]) { KeyLessIrreflexive(key); }
    }
  }

  lemma PutInFront(es: seq<Entry>, key: string, value: Var)
    requires |es| > 0 && Sorted(es) && KeyLess(key, es[0].key)
    ensures PutOf(es, key, value, [Entry(key, value)] + es)
  {
    var r := [Entry(key, value)] + es;
    SortedTail(es);
    forall k | k in KeySet(es) ensures KeyLess(key, k) {
      if k != es[0].key { KeyLessTransitive(key, es[0].key, k); }
    }
    SortedCons(Entry(key, value), es);
    KeySetCons(Entry(key, value), es);
    assert key !in KeySet(es) by {
      if key in KeySet(es) { KeyLessIrreflexive(key); }
    }
    assert r[1..] == es;
  }

  lemma PutBehind(es: seq<Entry>, key: string, value: Var, tail: seq<Entry>)
    requires |es| > 0 && Sorted(es) && KeyLess(es[0].key, key)
    requires PutOf(es[1..], key, value, tail)
    ensures PutOf(es, key, value, [es[0]] + tail)
  {
    var r := [es[0]] + tail;
    var e := es[0];
    SortedTail(es);
    assert e.key != key by {
      if e.key == key { KeyLessIrreflexive(key); }
    }
    assert e.key !in KeySet(es[1..]) by {
      if e.key in KeySet(es[1..]) { KeyLessIrreflexive(e.key); }
    }
    SortedCons(e, tail);
    assert r[1..] == tail;
    KeySetCons(e, tail);
    assert Lookup(r, key) == Lookup(tail, key);
    forall k | k != key ensures Lookup(r, k) == Lookup(es, k) {
      if k != e.key {
        assert Lookup(r, k) == Lookup(tail, k) && Lookup(es, k) == Lookup(es[1..], k);
      }
    }
    forall i | 0 <= i < |r| ensures r[i].value == value || r[i] in es {
      if i > 0 {
        assert r[i] == tail[i - 1];
        assert tail[i - 1] in es[1..] ==> tail[i - 1] in es;
      }
    }
  }

  /** Put applied to each pair in turn, as a loop of Set calls or of parsed
      object members does. */
  function PutAll(es: seq<Entry>, pairs: seq<Entry>): (r: seq<Entry>)
    requires Sorted(es)
    ensures Sorted(r)
    decreases pairs
  {
    if |pairs| == 0 then es else PutAll(Put(es, pairs[0].key, pairs[0].value), pairs[1..])
  }

  /** The value of the last pair in `pairs` whose key is `key`. */
  function LastFor(pairs: seq<Entry>, key: string): Option<Var>
  {
    if |pairs| == 0 then None
    else if LastFor(pairs[1..], key).Some? then LastFor(pairs[1..], key)
    else if pairs[0].key == key then Some(pairs[0].value)
    else None
  }

  /** A key given more than once keeps its last value; keys not given keep theirs. */
  lemma {:induction false} PutAllLookup(es: seq<Entry>, pairs: seq<Entry>, key: string)
    requires Sorted(es)
    ensures Lookup(PutAll(es, pairs), key) ==
              if LastFor(pairs, key).Some? then LastFor(pairs, key) else Lookup(es, key)
    decreases pairs
  {
    if |pairs| > 0 {
      PutAllLookup(Put(es, pairs[0].key, pairs[0].value), pairs[1..], key);
    }
  }

  /** Putting a key above every present key appends the pair. */
  lemma {:induction false} PutAbove(es: seq<Entry>, e: Entry)
    requires Sorted(es + [e])
    ensures Sorted(es)
    ensures Put(es, e.key, e.value) == es + [e]
  {
    var all := es + [e];
    assert Sorted(es) by {
      forall i, j | 0 <= i < j < |es| ensures KeyLess(es[i].key, es[j].key) {
        assert all[i] == es[i] && all[j] == es[j];
      }
    }
    if |es| > 0 {
      assert all[0] == es[0] && all[|es|] == e;
      PutPastHead(es, e.key, e.value);
      SortedTail(all);
      assert all[1..] == es[1..] + [e];
      PutAbove(es[1..], e);
      assert all == [es[0]] + (es[1..] + [e]);
    }
  }

  /** A key above the first key is put into the rest of the map. */
  lemma PutPastHead(es: seq<Entry>, key: string, value: Var)
    requires |es| > 0 && Sorted(es) && KeyLess(es[0].key, key)
    ensures Put(es, key, value) == [es[0]] + Put(es[1..], key, value)
  {
    KeyLessIrreflexive(key);
    if KeyLess(key, es[0].key) {
      KeyLessTransitive(key, es[0].key, key);
    }
  }

  /** vector::insert(begin() + index, v): `v` at `index`, later elements shifted up. */
  function Inserted(elems: seq<Var>, index: nat, v: Var): (r: seq<Var>)
    requires index <= |elems|
    ensures |r| == |elems| + 1 && r[index] == v
    ensures forall i :: 0 <= i < index ==> r[i] == elems[i]
    ensures forall i :: index <= i < |elems| ==> r[i + 1] == elems[i]
  {
    elems[..index] + [v] + elems[index..]
  }

  /** Exactly seven kinds exist, and each value has one of them. */
  lemma SevenKinds(v: Var)
    ensures v.GetType() in [Null, Bool, Int, Float, String, Array, Object]
    ensures |{Null, Bool, Int, Float, String, Array, Object}| == 7
  {
  }
}
