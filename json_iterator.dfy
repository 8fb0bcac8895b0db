/** Json::Iterator: one position in the container's vector, or in its map's
    entries in ascending key order, chosen by the container's kind. The two
    std iterators of the source are modelled by one index into the sequence
    the container holds. */
module JsonIterator {
  import opened JsonValue
  import opened JsonNode

  /** A container the iterator can walk: an Array or an Object. */
  predicate Walkable(v: Var)
  {
    v.JArray? || v.JObject?
  }

  /** What the iterator yields at each position: the elements of an Array, the
      values of an Object's members in key order. */
  function Children(v: Var): (r: seq<Var>)
    requires Walkable(v)
    ensures |r| == v.Size()
    ensures v.JArray? ==> r == v.elems
    ensures v.JObject? ==> forall i :: 0 <= i < |r| ==> r[i] == v.entries[i].value
  {
    if v.JArray? then v.elems else seq(|v.entries|, i requires 0 <= i < |v.entries| => v.entries[i].value)
  }

  class Iterator {
    const container: Json
    var pos: nat

    /** The container is walkable and the position is at most its end. */
    predicate Valid()
      reads this, container
    {
      Walkable(container.var_) && pos <= container.var_.Size()
    }

    /** Json::begin */
    constructor Begin(c: Json)
      requires Walkable(c.var_)
      ensures container == c && pos == 0 && Valid()
    {
      container := c;
      pos := 0;
    }

    /** Json::end */
    constructor End(c: Json)
      requires Walkable(c.var_)
      ensures container == c && pos == c.var_.Size() && Valid()
      ensures AtEnd()
    {
      container := c;
      pos := c.var_.Size();
    }

    /** The position is past the last entry. */
    predicate AtEnd()
      requires Valid()
      reads this, container
    {
      pos == container.var_.Size()
    }

    /** Iterator::operator++: the next entry; the source does the same on the
        vector or on the map iterator, by the container's kind. */
    method Next()
      requires Valid() && !AtEnd()
      modifies this
      ensures pos == old(pos) + 1 && Valid()
    {
      pos := pos + 1;
    }

    /** Iterator::operator!=: two positions in the same container differ. */
    method NotEqual(other: Iterator) returns (b: bool)
      requires Valid() && other.Valid() && other.container == container
      ensures b <==> pos != other.pos
    {
      b := pos != other.pos;
    }

    /** Iterator::Value: the element, or the member's value, at the position. */
    function Value(): (r: Var)
      requires Valid() && !AtEnd()
      reads this, container
      ensures r == Children(container.var_)[pos]
      ensures container.var_.JArray? ==> r == container.var_.elems[pos]
      ensures container.var_.JObject? ==> r == container.var_.entries[pos].value
    {
      if container.var_.JArray? then container.var_.elems[pos] else container.var_.entries[pos].value
    }

    /** Iterator::Key on an Object: the key of the member at the position. */
    function Key(): (r: string)
      requires Valid() && !AtEnd() && container.var_.JObject?
      reads this, container
      ensures r in KeySet(container.var_.entries)
      ensures r == KeysOf(container.var_.entries)[pos]
    {
      container.var_.entries[pos].key
    }
  }

  /** A range-for over a container, `for (it = begin(); it != end(); ++it)`,
      collecting Value() at each step: every child once, in order. */
  method Walk(c: Json) returns (values: seq<Var>)
    requires Walkable(c.var_)
    ensures values == Children(c.var_)
  {
    var it := new Iterator.Begin(c);
    var last := new Iterator.End(c);
    values := [];
    var going := it.NotEqual(last);
    while going
      invariant it.container == c && it.Valid() && last.container == c && last.Valid()
      invariant last.pos == c.var_.Size()
      invariant going <==> it.pos != last.pos
      invariant values == Children(c.var_)[..it.pos]
      decreases c.var_.Size() - it.pos
    {
      values := values + [it.Value()];
      it.Next();
      going := it.NotEqual(last);
    }
    assert Children(c.var_)[..it.pos] == Children(c.var_);
  }

  /** The same walk over an Object collecting Key(): its keys, ascending. */
  method WalkKeys(c: Json) returns (keys: seq<string>)
    requires c.var_.JObject? && Sorted(c.var_.entries)
    ensures keys == KeysOf(c.var_.entries)
    ensures forall i, j :: 0 <= i < j < |keys| ==> KeyLess(keys[i], keys[j])
  {
    var it := new Iterator.Begin(c);
    var last := new Iterator.End(c);
    keys := [];
    var going := it.NotEqual(last);
    while going
      invariant it.container == c && it.Valid() && last.container == c && last.Valid()
      invariant last.pos == c.var_.Size()
      invariant going <==> it.pos != last.pos
      invariant keys == KeysOf(c.var_.entries)[..it.pos]
      decreases c.var_.Size() - it.pos
    {
      keys := keys + [it.Key()];
      it.Next();
      going := it.NotEqual(last);
    }
    assert KeysOf(c.var_.entries)[..it.pos] == KeysOf(c.var_.entries);
  }
}
