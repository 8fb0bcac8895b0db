/** The `Json` class of Json.h: a handle that exclusively owns one `Var`, its
    constructors, deep copy, assignment and the in-place updates Set, Add and
    Insert. Because the `Var` is owned through a `unique_ptr` and `Var` itself
    can be neither copied nor moved, two handles never share a payload; the
    payload is therefore a value (`JsonValue.Var`) held in a mutable field. */
module JsonNode {
  import opened JsonValue
  import opened JsonEquality

  class Json {
    var var_: Var

    /** Every object in the owned tree keeps std::map's invariant. */
    predicate Valid()
      reads this
    {
      WellFormed(var_)
    }

    /** Json(Type): an empty payload of the given kind; the default argument
        is Null. */
    constructor (t: Type)
      requires t in {Null, String, Array, Object}
      ensures var_ == OfType(t) && Valid()
      ensures t == Null ==> var_ == JNull
    {
      var_ := OfType(t);
    }

    /** Json(bool) */
    constructor FromBool(b: bool)
      ensures var_ == JBool(b) && var_.AsBool() == b && Valid()
    {
      var_ := JBool(b);
    }

    /** Json(int) */
    constructor FromInt(i: Int32)
      ensures var_ == JInt(i) && var_.AsInt() == i && Valid()
    {
      var_ := JInt(i);
    }

    /** Json(float) */
    constructor FromFloat(f: Float32)
      ensures var_ == JFloat(f) && var_.AsFloat() == f && Valid()
    {
      var_ := JFloat(f);
    }

    /** Json(const char*) and Json(const std::string&) */
    constructor FromString(s: string)
      ensures var_ == JString(s) && var_.AsString() == s && Valid()
    {
      var_ := JString(s);
    }

    /** The conversion of one argument of the variadic constructor, or of one
        initializer-list entry, to a `Json`: whichever of the constructors
        above its type selects. */
    constructor Wrap(v: Var)
      requires WellFormed(v)
      ensures var_ == v && Valid()
    {
      var_ := v;
    }

    /** Json(const Json&): a fresh payload deep-copied from the other's. */
    constructor CopyOf(other: Json)
      requires other.Valid()
      ensures var_ == other.var_ && Equal(var_, other.var_) && Valid()
    {
      var copy := CopyVar(other.var_);
      var_ := copy;
    }

    /** Json(ARG arg, const R&... rest): an Array grown in place by Add, one
        argument after the other. */
    constructor Elements(args: seq<Var>)
      requires |args| > 0
      requires forall i :: 0 <= i < |args| ==> WellFormed(args[i])
      ensures var_ == JArray(args) && var_.Size() == |args| && Valid()
    {
      var_ := JArray([]);
      new;
      EllipArray(this, args);
    }

    /** Json(initializer_list<pair<const string, const Json>>): the result of
        Json::JObject on the pairs. */
    constructor OfPairs(pairs: seq<Entry>)
      requires forall i :: 0 <= i < |pairs| ==> WellFormed(pairs[i].value)
      ensures var_ == JObject(PutAll([], pairs)) && Valid()
      ensures forall key :: Lookup(var_.entries, key) == LastFor(pairs, key)
    {
      var r := ObjectOf(pairs);
      var_ := r.var_;
    }

    /** operator=(const Json&): unless it is self-assignment, the payload is
        replaced by a deep copy of the other's. */
    method Assign(other: Json)
      requires Valid() && other.Valid()
      modifies this
      ensures var_ == old(other.var_) && Valid()
    {
      if this != other {
        var_ := CopyVar(other.var_);
      }
    }

    /** Json::Set: on an Object, `(*objectVal)[key] = value`, a copy of the
        value stored under the key, inserted or replacing the old one. When
        `value` is this handle itself, the copy is the partial one SelfCopy
        describes. */
    method Set(key: string, value: Json)
      requires var_.JObject? && Valid() && value.Valid()
      modifies this
      ensures var_ == JObject(Put(old(var_.entries), key, Stored(old(var_), key, value == this, old(value.var_))))
      ensures Valid()
      ensures var_.Contains(key) && var_.Get(key) == Stored(old(var_), key, value == this, old(value.var_))
      ensures value != this ==> var_.Get(key) == old(value.var_)
      ensures forall k :: k != key ==> Lookup(var_.entries, k) == Lookup(old(var_.entries), k)
      ensures var_.Size() == if old(var_.Contains(key)) then old(var_.Size()) else old(var_.Size()) + 1
    {
      var copy: Var;
      if value == this {
        copy := SelfCopy(var_.entries, key);
      } else {
        copy := CopyVar(value.var_);
      }
      PutWellFormed(var_.entries, key, copy);
      var_ := JObject(Put(var_.entries, key, copy));
    }

    /** Json::Insert(const Json&, index): on an Array, a copy of `val` at
        `index`, the elements from `index` on shifted up by one. */
    method Insert(val: Json, index: nat)
      requires var_.JArray? && index <= |var_.elems| && Valid() && val.Valid()
      modifies this
      ensures var_ == JArray(Inserted(old(var_.elems), index, old(val.var_))) && Valid()
      ensures var_.Size() == old(var_.Size()) + 1
    {
      var copy := CopyVar(val.var_);
      var_ := JArray(Inserted(var_.elems, index, copy));
    }

    /** Json::Insert(Json&&, index): the moved-in value is placed at the end;
        `index` is not used. A handle moved into itself is excluded: its
        payload would become an element of its own vector. */
    method InsertMoved(val: Json, index: nat)
      requires var_.JArray? && Valid() && val.Valid() && val != this
      modifies this
      ensures var_ == JArray(old(var_.elems) + [old(val.var_)]) && Valid()
      ensures var_.Size() == old(var_.Size()) + 1
    {
      var_ := JArray(Inserted(var_.elems, |var_.elems|, val.var_));
      assert var_.elems == old(var_.elems) + [old(val.var_)];
    }

    /** Json::Add(const Json&): Insert at the current size. */
    method Add(val: Json)
      requires var_.JArray? && Valid() && val.Valid()
      modifies this
      ensures var_ == JArray(old(var_.elems) + [old(val.var_)]) && Valid()
      ensures var_.Size() == old(var_.Size()) + 1
    {
      Insert(val, |var_.elems|);
      assert var_.elems == old(var_.elems) + [old(val.var_)];
    }

    /** Json::Add(Json&&): adding a handle to itself goes through the copying
        Add; any other value is moved to the end. */
    method AddMoved(val: Json)
      requires var_.JArray? && Valid() && val.Valid()
      modifies this
      ensures var_ == JArray(old(var_.elems) + [old(val.var_)]) && Valid()
    {
      if this == val {
        Add(val);
      } else {
        InsertMoved(val, |var_.elems|);
      }
    }

    /** Json::GetKeys: the keys of an Object in the map's order, which is
        strictly ascending. */
    method GetKeys() returns (keys: seq<string>)
      requires var_.JObject? && Valid()
      ensures keys == KeysOf(var_.entries)
      ensures forall i, j :: 0 <= i < j < |keys| ==> KeyLess(keys[i], keys[j])
    {
      var es := var_.entries;
      keys := [];
      for k := 0 to |es|
        invariant keys == KeysOf(es[..k])
      {
        keys := keys + [es[k].key];
      }
      assert es[..|es|] == es;
    }
  }

  /** What Json::Set stores under `key`: a copy of the value, or, when the
      value is the receiver itself, the partial copy SelfCopy describes. */
  function Stored(receiver: Var, key: string, self: bool, value: Var): (r: Var)
    requires receiver.JObject? && WellFormed(receiver) && WellFormed(value)
    ensures WellFormed(r)
    ensures !self ==> r == value
    ensures self ==> r == SelfCopy(receiver.entries, key)
  {
    if self then SelfCopy(receiver.entries, key) else value
  }

  /** The members of a map whose keys lie below `key`: a prefix of the map. */
  function Below(es: seq<Entry>, key: string): (r: seq<Entry>)
    requires Sorted(es)
    ensures |r| <= |es| && r == es[..|r|] && Sorted(r)
    decreases es
  {
    if |es| == 0 || !KeyLess(es[0].key, key) then []
    else
      SortedTail(es);
      var rest := Below(es[1..], key);
      assert es[..|rest| + 1] == [es[0]] + es[1..][..|rest|];
      [es[0]] + rest
  }

  /** find in Below: a key below `key` is found with its value in the map,
      any other key is not found. */
  lemma {:induction false} BelowLookup(es: seq<Entry>, key: string, k: string)
    requires Sorted(es)
    ensures Lookup(Below(es, key), k) == if KeyLess(k, key) then Lookup(es, k) else None
    decreases es
  {
    var r := Below(es, key);
    if |es| == 0 {
    } else if !KeyLess(es[0].key, key) {
      if KeyLess(k, key) && k in KeySet(es) {
        SortedTail(es);
        if k != es[0].key {
          KeyLessTransitive(es[0].key, k, key);
        }
      }
    } else {
      SortedTail(es);
      BelowLookup(es[1..], key, k);
      assert r[1..] == Below(es[1..], key);
      if k == es[0].key {
        assert KeyLess(k, key);
      }
    }
  }

  /** The value Json::Set stores when `value` is the receiver, whose map is
      `es`. `operator[]` has already bound `key` to the node being assigned;
      operator= empties that node and Var::Copy fills it from the receiver's
      map in key order. When the walk reaches `key` it copies that same node,
      which then holds copies of the members below `key` only. */
  function SelfCopy(es: seq<Entry>, key: string): (r: Var)
    requires Sorted(es) && forall i :: 0 <= i < |es| ==> WellFormed(es[i].value)
    ensures r.JObject? && WellFormed(r)
    ensures KeySet(r.entries) == KeySet(es) + {key}
    ensures Lookup(r.entries, key) == Some(JObject(Below(es, key)))
    ensures forall k :: k != key ==> Lookup(r.entries, k) == Lookup(es, k)
  {
    var partial := Below(es, key);
    assert forall i :: 0 <= i < |partial| ==> partial[i] == es[i];
    PutWellFormed(es, key, JObject(partial));
    JObject(Put(es, key, JObject(partial)))
  }

  /** `j = {"b":1}; j.Set("a", j)` stores `{"a":{},"b":1}` under "a", not the
      `{"b":1}` that j held before the call. */
  lemma SelfSetExample(a: string, b: string)
    requires a == "a" && b == "b"
    ensures SelfCopy([Entry(b, JInt(1))], a) == JObject([Entry(a, JObject([])), Entry(b, JInt(1))])
    ensures SelfCopy([Entry(b, JInt(1))], a) != JObject([Entry(b, JInt(1))])
  {
    assert KeyLess(a, b) && !KeyLess(b, a);
    var es := [Entry(b, JInt(1))];
    assert Below(es, a) == [];
    assert Put(es, a, JObject([])) == [Entry(a, JObject([]))] + es;
  }

  /** Storing a well-formed value under a key of a well-formed map keeps
      every stored value well-formed. */
  lemma PutWellFormed(es: seq<Entry>, key: string, v: Var)
    requires Sorted(es) && WellFormed(v)
    requires forall i :: 0 <= i < |es| ==> WellFormed(es[i].value)
    ensures WellFormed(JObject(Put(es, key, v)))
  {
    var r := Put(es, key, v);
    forall i | 0 <= i < |r| ensures WellFormed(r[i].value) {
      if r[i].value != v {
        var j :| 0 <= j < |es| && es[j] == r[i];
      }
    }
  }

  /** Var::Copy: the kind and the payload of `src`, the elements and members
      of a container copied one at a time, each copy itself deep. */
  method CopyVar(src: Var) returns (dst: Var)
    requires WellFormed(src)
    ensures dst == src && Equal(dst, src)
    decreases src
  {
    match src {
      case JArray(es) =>
        var out: seq<Var> := [];
        for k := 0 to |es|
          invariant out == es[..k]
        {
          var c := CopyVar(es[k]);
          out := out + [c];
        }
        assert es[..|es|] == es;
        dst := JArray(out);
      case JObject(es) =>
        var out: seq<Entry> := [];
        for k := 0 to |es|
          invariant out == es[..k]
        {
          var c := CopyVar(es[k].value);
          assert es[..k + 1] == es[..k] + [Entry(es[k].key, c)];
          PutAbove(out, Entry(es[k].key, c));
          out := Put(out, es[k].key, c);
        }
        assert es[..|es|] == es;
        dst := JObject(out);
      case _ =>
        dst := src;
    }
    EqualReflexive(src);
  }

  /** Json::EllipArray: Add the first argument, then the rest the same way. */
  method EllipArray(self: Json, args: seq<Var>)
    requires self.var_.JArray? && self.Valid()
    requires forall i :: 0 <= i < |args| ==> WellFormed(args[i])
    modifies self
    ensures self.var_ == JArray(old(self.var_.elems) + args) && self.Valid()
    decreases |args|
  {
    if |args| > 0 {
      var val := new Json.Wrap(args[0]);
      self.Add(val);
      EllipArray(self, args[1..]);
      assert [args[0]] + args[1..] == args;
    }
  }

  /** Json::JObject: an Object on which Set is called for each pair in turn,
      so a repeated key keeps the value of its last pair. */
  method ObjectOf(pairs: seq<Entry>) returns (result: Json)
    requires forall i :: 0 <= i < |pairs| ==> WellFormed(pairs[i].value)
    ensures fresh(result) && result.Valid()
    ensures result.var_ == JObject(PutAll([], pairs))
    ensures forall key :: Lookup(result.var_.entries, key) == LastFor(pairs, key)
  {
    result := new Json(Object);
    for k := 0 to |pairs|
      invariant result.var_.JObject? && result.Valid()
      invariant PutAll(result.var_.entries, pairs[k..]) == PutAll([], pairs)
    {
      var value := new Json.Wrap(pairs[k].value);
      assert pairs[k..][0] == pairs[k] && pairs[k..][1..] == pairs[k + 1..];
      result.Set(pairs[k].key, value);
    }
    forall key ensures Lookup(result.var_.entries, key) == LastFor(pairs, key) {
      PutAllLookup([], pairs, key);
    }
  }

  /** Json::JArray: an Array to which each argument is added in turn. */
  method ArrayOf(args: seq<Var>) returns (result: Json)
    requires forall i :: 0 <= i < |args| ==> WellFormed(args[i])
    ensures fresh(result) && result.Valid()
    ensures result.var_ == JArray(args) && result.var_.Size() == |args|
  {
    result := new Json(Array);
    for k := 0 to |args|
      invariant result.var_ == JArray(args[..k]) && result.Valid()
    {
      var val := new Json.Wrap(args[k]);
      result.Add(val);
      assert args[..k + 1] == args[..k] + [args[k]];
    }
    assert args[..|args|] == args;
  }
}
