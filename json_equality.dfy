/** Structural equality of Json.cpp: operator== and the two Compare overloads. */
module JsonEquality {
  import opened JsonValue

  /** Json::operator==: values of different kinds are unequal; otherwise the
      payloads are compared, arrays and objects through Compare. */
  function Equal(a: Var, b: Var): (r: bool)
    ensures r ==> a.GetType() == b.GetType()
    decreases a
  {
    match (a, b)
    case (JNull, JNull) => true
    case (JBool(x), JBool(y)) => x == y
    case (JInt(x), JInt(y)) => x == y
    case (JFloat(x), JFloat(y)) => x == y
    case (JString(x), JString(y)) => x == y
    case (JArray(xs), JArray(ys)) => CompareArrays(xs, ys)
    case (JObject(xs), JObject(ys)) => CompareObjects(xs, ys)
    case _ => false
  }

  /** Json::Compare on two vectors: same length, equal element by element. */
  function CompareArrays(xs: seq<Var>, ys: seq<Var>): (r: bool)
    ensures r ==> |xs| == |ys|
    decreases xs
  {
    |xs| == |ys| && forall i :: 0 <= i < |xs| ==> Equal(xs[i], ys[i])
  }

  /** Json::Compare on two maps: the same key set, and for every key of `xs` the
      value in `ys` under that key equal to the one in `xs`. */
  function CompareObjects(xs: seq<Entry>, ys: seq<Entry>): (r: bool)
    ensures r ==> KeySet(xs) == KeySet(ys)
    decreases xs
  {
    KeySet(xs) == KeySet(ys) &&
    forall i :: 0 <= i < |xs| ==>
      xs[i].key in KeySet(ys) && Equal(xs[i].value, Lookup(ys, xs[i].key).value)
  }

  /** In a sorted entry sequence, find returns the entry at the key's own position. */
  lemma {:induction false} LookupAt(es: seq<Entry>, i: nat)
    requires Sorted(es) && i < |es|
    ensures Lookup(es, es[i].key) == Some(es[i].value)
  {
    if i > 0 {
      if es[0].key == es[i].key { KeyLessIrreflexive(es[i].key); }
      SortedTail(es);
      LookupAt(es[1..], i - 1);
    }
  }

  /** Two sorted entry sequences with the same key set list the same keys in the
      same order. */
  lemma {:induction false} SortedSameKeys(xs: seq<Entry>, ys: seq<Entry>)
    requires Sorted(xs) && Sorted(ys) && KeySet(xs) == KeySet(ys)
    ensures |xs| == |ys| && forall i :: 0 <= i < |xs| ==> xs[i].key == ys[i].key
  {
    if |xs| == 0 {
      KeySetHead(ys);
    } else {
      assert xs[0].key in KeySet(ys);
      assert |ys| > 0;
      SortedTail(xs);
      SortedTail(ys);
      var x0, y0 := xs[0].key, ys[0].key;
      assert y0 in KeySet(xs);
      assert x0 == y0 || x0 in KeySet(ys[1..]);
      assert x0 == y0 || y0 in KeySet(xs[1..]);
      KeyLessIrreflexive(x0);
      if KeyLess(x0, y0) && KeyLess(y0, x0) {
        KeyLessTransitive(x0, y0, x0);
      }
      assert x0 == y0;
      assert x0 !in KeySet(xs[1..]) && y0 !in KeySet(ys[1..]);
      assert KeySet(xs[1..]) == KeySet(ys[1..]);
      SortedSameKeys(xs[1..], ys[1..]);
      forall i | 0 <= i < |xs| ensures xs[i].key == ys[i].key {
        if i > 0 { assert xs[i] == xs[1..][i - 1] && ys[i] == ys[1..][i - 1]; }
      }
    }
  }

  lemma KeySetHead(es: seq<Entry>)
    ensures |es| > 0 ==> es[0].key in KeySet(es)
  {
  }

  /** Every well-formed value is equal to itself. */
  lemma {:induction false} EqualReflexive(a: Var)
    requires WellFormed(a)
    ensures Equal(a, a)
    decreases a
  {
    match a
    case JArray(xs) =>
      forall i | 0 <= i < |xs| ensures Equal(xs[i], xs[i]) {
        EqualReflexive(xs[i]);
      }
    case JObject(xs) =>
      forall i | 0 <= i < |xs|
        ensures xs[i].key in KeySet(xs) && Equal(xs[i].value, Lookup(xs, xs[i].key).value)
      {
        LookupAt(xs, i);
        EqualReflexive(xs[i].value);
      }
    case _ =>
  }

  /** On well-formed values operator== is exactly identity of values: the kind
      decides first, arrays compare in order, and objects, whose keys are kept in
      one canonical order, compare as key/value sets. */
  lemma {:induction false} EqualIsIdentity(a: Var, b: Var)
    requires WellFormed(a) && WellFormed(b)
    ensures Equal(a, b) <==> a == b
    decreases a
  {
    EqualReflexive(a);
    if Equal(a, b) {
      match (a, b)
      case (JArray(xs), JArray(ys)) =>
        assert CompareArrays(xs, ys);
        forall i | 0 <= i < |xs| ensures xs[i] == ys[i] {
          EqualIsIdentity(xs[i], ys[i]);
        }
        assert xs == ys;
      case (JObject(xs), JObject(ys)) =>
        assert CompareObjects(xs, ys);
        SortedSameKeys(xs, ys);
        forall i | 0 <= i < |xs| ensures xs[i] == ys[i] {
          LookupAt(ys, i);
          EqualIsIdentity(xs[i].value, ys[i].value);
        }
        assert xs == ys;
      case _ =>
    }
  }

  /** Values of different kinds are never equal. */
  lemma KindsDiffer(a: Var, b: Var)
    requires a.GetType() != b.GetType()
    ensures !Equal(a, b)
  {
  }

  /** A map is determined by what find returns for each key: two sorted entry
      sequences that agree on every lookup are the same sequence, whatever
      order their entries were inserted in. */
  lemma MapDeterminedByLookups(xs: seq<Entry>, ys: seq<Entry>)
    requires Sorted(xs) && Sorted(ys)
    requires forall k :: Lookup(xs, k) == Lookup(ys, k)
    ensures xs == ys
  {
    assert KeySet(xs) == KeySet(ys) by {
      forall k ensures k in KeySet(xs) <==> k in KeySet(ys) {
        assert Lookup(xs, k) == Lookup(ys, k);
      }
    }
    SortedSameKeys(xs, ys);
    forall i | 0 <= i < |xs| ensures xs[i] == ys[i] {
      LookupAt(xs, i);
      LookupAt(ys, i);
    }
  }

  /** Assignments to two different keys of a map commute: an object's value
      does not depend on the order in which its members were stored. */
  lemma PutCommutes(es: seq<Entry>, k1: string, v1: Var, k2: string, v2: Var)
    requires Sorted(es) && k1 != k2
    ensures Put(Put(es, k1, v1), k2, v2) == Put(Put(es, k2, v2), k1, v1)
  {
    MapDeterminedByLookups(Put(Put(es, k1, v1), k2, v2), Put(Put(es, k2, v2), k1, v1));
  }
}
