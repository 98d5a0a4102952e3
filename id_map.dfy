/**
 * The string-to-id bimap the drivers use for contig names. Ids are dense
 * and handed out in insertion order; a name keeps its id once it has one.
 * Here they count from 0 and serve only as labels: the constructor flag the
 * drivers pass is not part of this model.
 */
module IdMaps {

  class IncrementalIdMap {
    /** names[i] is the name whose id is i. */
    var names: seq<string>
    /** The inverse lookup from name to id. */
    var ids: map<string, int>

    ghost predicate Valid()
      reads this
    {
      && (forall k | 0 <= k < |names| :: names[k] in ids && ids[names[k]] == k)
      && (forall n | n in ids :: 0 <= ids[n] < |names| && names[ids[n]] == n)
    }

    constructor ()
      ensures Valid() && names == [] && ids == map[]
    {
      names := [];
      ids := map[];
    }

    /** try_insert: the existing id of `name`, or the next free id. */
    method TryInsert(name: string) returns (id: int)
      requires Valid()
      modifies this
      ensures Valid() && names == InsertAll(old(names), [name])
      ensures name in ids && id == ids[name] && Extends(old(ids), ids)
      ensures old(name in ids) ==> names == old(names) && ids == old(ids)
      ensures old(name !in ids) ==> names == old(names) + [name] && ids == old(ids)[name := |old(names)|]
    {
      assert InsertAll(names, [name]) == if name in names then names else names + [name] by {
        assert [name][..0] == [];
      }
      if name in ids {
        id := ids[name];
      } else {
        id := |names|;
        names := names + [name];
        ids := ids[name := id];
      }
    }

    /** get_id, for a name the map already holds. */
    function GetId(name: string): (id: int)
      reads this
      requires Valid() && name in ids
      ensures 0 <= id < |names| && names[id] == name
    {
      ids[name]
    }
  }

  /** The names after try_insert of each of `refs` in turn: each new name is appended once. */
  function InsertAll(names: seq<string>, refs: seq<string>): (r: seq<string>)
    ensures names <= r
    ensures forall n :: n in r <==> n in names || n in refs
    decreases |refs|
  {
    if refs == [] then names
    else
      var before := InsertAll(names, refs[..|refs| - 1]);
      if refs[|refs| - 1] in before then before else before + [refs[|refs| - 1]]
  }

  /** Inserting `a` and then `b` is inserting `a + b`. */
  lemma {:induction false} InsertAllAppend(names: seq<string>, a: seq<string>, b: seq<string>)
    ensures InsertAll(InsertAll(names, a), b) == InsertAll(names, a + b)
    decreases |b|
  {
    if b == [] {
      assert a + b == a;
    } else {
      InsertAllAppend(names, a, b[..|b| - 1]);
      assert (a + b)[..|a + b| - 1] == a + b[..|b| - 1];
    }
  }

  /** Ids never change once handed out: `m2` agrees with `m1` on every name of `m1`. */
  ghost predicate Extends(m1: map<string, int>, m2: map<string, int>)
  {
    forall n | n in m1 :: n in m2 && m2[n] == m1[n]
  }

  /** The GFA sequence loop of both drivers: every sequence name gets an id, in file order. */
  method LoadSequenceNames(sequenceNames: seq<string>) returns (idMap: IncrementalIdMap)
    ensures fresh(idMap) && idMap.Valid() && idMap.names == InsertAll([], sequenceNames)
    ensures forall n | n in sequenceNames :: n in idMap.ids
  {
    idMap := new IncrementalIdMap();
    var k := 0;
    while k < |sequenceNames|
      invariant 0 <= k <= |sequenceNames|
      invariant idMap.Valid() && idMap.names == InsertAll([], sequenceNames[..k])
    {
      assert sequenceNames[..k + 1] == sequenceNames[..k] + [sequenceNames[k]];
      InsertAllAppend([], sequenceNames[..k], [sequenceNames[k]]);
      var _ := idMap.TryInsert(sequenceNames[k]);
      k := k + 1;
    }
    assert sequenceNames[..k] == sequenceNames;
    forall n | n in sequenceNames
      ensures n in idMap.ids
    {
      var k :| 0 <= k < |idMap.names| && idMap.names[k] == n;
    }
  }
}
