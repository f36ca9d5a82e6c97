/** The per-session object store (`Db`) that caches keys fetched from the
    remote service under session-local object handles.

    The store's own implementation is not part of this model. The class below
    is a minimal stand-in whose only promises are the ones the session layer
    relies on: `AddObject` files an object under a handle not in use,
    `Clear` empties the store, and `Enumerate` lists the handles in use, in
    the order they were added. */
module ObjectDb {
  import opened Types

  /** CK_OBJECT_HANDLE (its 64-bit width is not modelled). */
  type ObjectHandle = nat

  /** The remote service's record for one key, carried opaquely. */
  type KeyData = seq<byte>

  /** A cached key object: the key id it was fetched under and its record. */
  datatype Object = Object(id: string, data: KeyData)

  /** `Object::from_key_data`; the conversion's details are not modelled. */
  function FromKeyData(data: KeyData, id: string): (o: Object)
    ensures o.id == id && o.data == data
  {
    Object(id, data)
  }

  /** The objects filed under the handles hs, in that order. */
  function Lookup(hs: seq<ObjectHandle>, m: map<ObjectHandle, Object>): (os: seq<Object>)
    requires forall i :: 0 <= i < |hs| ==> hs[i] in m
    ensures |os| == |hs|
    ensures forall i :: 0 <= i < |hs| ==> os[i] == m[hs[i]]
  {
    seq(|hs|, i requires 0 <= i < |hs| => m[hs[i]])
  }

  class Db {
    var objects: map<ObjectHandle, Object>
    /** The handles in use, in insertion order (the enumeration order). */
    var order: seq<ObjectHandle>
    var nextHandle: ObjectHandle

    ghost predicate Valid()
      reads this
    {
      && (forall i :: 0 <= i < |order| ==> order[i] in objects)
      && (forall h :: h in objects ==> h in order)
      && (forall i, j :: 0 <= i < j < |order| ==> order[i] != order[j])
      && 0 < nextHandle
      && (forall h :: h in objects ==> 0 < h < nextHandle)
    }

    /** The cached objects in enumeration order. */
    ghost function Listing(): seq<Object>
      reads this
      requires Valid()
    {
      Lookup(order, objects)
    }

    /** Between the old and the current state exactly one object, o, was
        added, under the handle h that was not in use. */
    twostate predicate Added(h: ObjectHandle, o: Object)
      reads this
    {
      && old(Valid()) && Valid()
      && h !in old(objects)
      && objects == old(objects)[h := o]
      && order == old(order) + [h]
      && Listing() == old(Listing()) + [o]
    }

    constructor ()
      ensures Valid()
      ensures objects == map[] && order == []
    {
      objects := map[];
      order := [];
      nextHandle := 1;
    }

    /** `db.enumerate()`, keeping only the handles: every handle in use,
        each once, in insertion order. */
    function Enumerate(): (hs: seq<ObjectHandle>)
      reads this
      requires Valid()
      ensures hs == order
      ensures forall h :: h in hs <==> h in objects
      ensures forall i, j :: 0 <= i < j < |hs| ==> hs[i] != hs[j]
      ensures |hs| == |objects|
    {
      DistinctCardinality(order, objects);
      order
    }

    /** `db.add_object`: files o under a handle that was not in use and
        leaves every other entry as it was. */
    method AddObject(o: Object) returns (h: ObjectHandle)
      requires Valid()
      modifies this
      ensures Valid()
      ensures h !in old(objects)
      ensures objects == old(objects)[h := o]
      ensures order == old(order) + [h]
      ensures Listing() == old(Listing()) + [o]
    {
      h := nextHandle;
      objects := objects[h := o];
      order := order + [h];
      nextHandle := nextHandle + 1;
    }

    /** `db.clear`: afterwards no handle is in use. */
    method Clear()
      requires Valid()
      modifies this
      ensures Valid()
      ensures objects == map[] && order == []
    {
      objects := map[];
      order := [];
    }
  }

  /** A duplicate-free sequence listing exactly the keys of a map is as long
      as the map. */
  lemma {:induction false} DistinctCardinality(hs: seq<ObjectHandle>, m: map<ObjectHandle, Object>)
    requires forall i :: 0 <= i < |hs| ==> hs[i] in m
    requires forall h :: h in m ==> h in hs
    requires forall i, j :: 0 <= i < j < |hs| ==> hs[i] != hs[j]
    ensures |hs| == |m|
  {
    if hs == [] {
      assert m.Keys == {};
    } else {
      var h := hs[|hs| - 1];
      var hs' := hs[..|hs| - 1];
      var m' := m - {h};
      forall g | g in m' ensures g in hs' {
        var i :| 0 <= i < |hs| && hs[i] == g;
        assert i != |hs| - 1;
      }
      DistinctCardinality(hs', m');
      assert m.Keys == m'.Keys + {h};
    }
  }
}
