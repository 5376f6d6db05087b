/**
 * The type-keyed data container (utils/data_container.rs).
 *
 * The container maps the `TypeId` of a Rust type to one shared value of that type.
 * Type identity is an abstract tag here, and a stored value carries the tag of its
 * own type, so the downcast in `get` is the check that the stored value's tag is
 * the requested one.
 */
module DataContainers {
  import opened Wrappers

  /** `TypeId::of::<T>()`: an abstract token naming one Rust type. */
  datatype TypeTag = TypeTag(id: nat)

  /** A stored value of the type `tag` names; `content` stands for the value itself. */
  datatype Value = Value(tag: TypeTag, content: nat)

  /** Every entry sits under the tag of its own type, as `add` and `add_arc` store it. */
  predicate TagsMatch(m: map<TypeTag, Value>)
  {
    forall t :: t in m ==> m[t].tag == t
  }

  /**
   * `data.get(&TypeId::of::<T>()).and_then(downcast_ref::<Arc<T>>)`: the entry under
   * `tag`, if there is one and it really has that type.
   */
  function Lookup(m: map<TypeTag, Value>, tag: TypeTag): (r: Option<Value>)
    ensures r.Some? ==> r.value.tag == tag && tag in m
    ensures TagsMatch(m) ==> (r.Some? <==> tag in m)
  {
    if tag in m && m[tag].tag == tag then Some(m[tag]) else None
  }

  /** Nothing can be fetched from an empty container. */
  lemma LookupEmpty(tag: TypeTag)
    ensures Lookup(map[], tag) == None
  {
  }

  /** After an add, `get` of that type returns the added value. */
  lemma LookupAfterAdd(m: map<TypeTag, Value>, v: Value)
    ensures Lookup(m[v.tag := v], v.tag) == Some(v)
  {
  }

  /** An add leaves every other type's entry as it was. */
  lemma LookupAfterAddOther(m: map<TypeTag, Value>, v: Value, tag: TypeTag)
    requires tag != v.tag
    ensures Lookup(m[v.tag := v], tag) == Lookup(m, tag)
  {
  }

  /** Adding keeps every entry under the tag of its own type. */
  lemma AddKeepsTags(m: map<TypeTag, Value>, v: Value)
    requires TagsMatch(m)
    ensures TagsMatch(m[v.tag := v])
  {
  }

  /**
   * A right-biased union: the keys of both, the value of `other` on a clash and the
   * value of `self` elsewhere; what either side can `get`, the union can `get`.
   */
  lemma CombineLookup(m1: map<TypeTag, Value>, m2: map<TypeTag, Value>, tag: TypeTag)
    requires TagsMatch(m1) && TagsMatch(m2)
    ensures (m1 + m2).Keys == m1.Keys + m2.Keys
    ensures TagsMatch(m1 + m2)
    ensures Lookup(m1 + m2, tag) == if tag in m2 then Lookup(m2, tag) else Lookup(m1, tag)
  {
  }

  class DataContainer {
    var data: map<TypeTag, Value>

    ghost predicate Valid()
      reads this
    {
      TagsMatch(data)
    }

    /** `DataContainer::default`: nothing stored. */
    constructor ()
      ensures data == map[] && Valid()
    {
      data := map[];
    }

    /** `add` (data_container.rs:19-21): stores `value` under its type, replacing any earlier one. */
    method Add(value: Value)
      modifies this
      ensures data == old(data)[value.tag := value]
      ensures old(Valid()) ==> Valid()
    {
      data := data[value.tag := value];
    }

    /** `add_arc` (data_container.rs:24-26): stores an already shared value the same way. */
    method AddArc(value: Value)
      modifies this
      ensures data == old(data)[value.tag := value]
      ensures old(Valid()) ==> Valid()
    {
      Add(value);
    }

    /** `get` (data_container.rs:29-31). */
    function Get(tag: TypeTag): (r: Option<Value>)
      reads this
      ensures Valid() ==> (r.Some? <==> tag in data)
      ensures r.Some? ==> tag in data && r.value == data[tag] && r.value.tag == tag
    {
      Lookup(data, tag)
    }

    /**
     * `combine` (data_container.rs:34-44): a new container holding a copy of this one's
     * entries with each of `other`'s entries inserted over it. Neither input changes.
     */
    method Combine(other: DataContainer) returns (combined: DataContainer)
      ensures fresh(combined)
      ensures combined.data == data + other.data
      ensures Valid() && other.Valid() ==> combined.Valid()
    {
      var merged := data;
      var pending := other.data.Keys;
      while pending != {}
        invariant pending <= other.data.Keys
        invariant merged == data + map k | k in other.data.Keys - pending :: other.data[k]
        decreases pending
      {
        var key :| key in pending;
        merged := merged[key := other.data[key]];
        pending := pending - {key};
      }
      assert other.data.Keys - pending == other.data.Keys;
      assert (map k | k in other.data.Keys :: other.data[k]) == other.data;
      combined := new DataContainer();
      combined.data := merged;
    }
  }
}
