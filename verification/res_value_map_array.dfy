/** The value array of a bag entry (`ResValueMapArray`): its children are
    value maps, and the enclosing map entry's header records how many. */
module ResValueMapArray {
  import opened Common
  import ResValueMap

  /** The part of the enclosing entry's header this array keeps in step. */
  datatype EntryHeaderMap = EntryHeaderMap(valuesCount: int)

  /** The array, with the header of its enclosing `ResTableMapEntry`
      (absent when the array has no such ancestor). */
  datatype ValueMapArray = ValueMapArray(children: seq<ResValueMap.ValueMap>, header: Option<EntryHeaderMap>)

  /** `newInstance`: a fresh value map, all of its twelve bytes zero. */
  function NewInstance(): (r: ResValueMap.ValueMap)
    ensures r.name == 0 && r.data == 0 && r.valueType == ResValueMap.Null
  {
    ResValueMap.ValueMap(0, ResValueMap.Null, 0)
  }

  /** The header's count matches the number of children. */
  predicate Synced(a: ValueMapArray)
  {
    a.header.Some? && a.header.value.valuesCount == |a.children|
  }

  /** `createNext`: appends a fresh value map, then writes the child count
      into the enclosing entry's header; without such an entry the append
      has happened but the header cannot be reached and the call fails. */
  function CreateNext(a: ValueMapArray): (r: (ValueMapArray, Result<ResValueMap.ValueMap, string>))
    ensures r.0.children == a.children + [NewInstance()]
    ensures a.header.Some? <==> r.1.Success?
    ensures r.1.Success? ==> r.1.value == NewInstance() && Synced(r.0)
    ensures r.1.Failure? ==> r.0.header == a.header
  {
    var children := a.children + [NewInstance()];
    match a.header
    case None => (a.(children := children), Failure("NullPointerException"))
    case Some(h) => (ValueMapArray(children, Some(h.(valuesCount := |children|))), Success(NewInstance()))
  }

  /** `createNext` called n times. */
  function CreateMany(a: ValueMapArray, n: nat): ValueMapArray
    decreases n
  {
    if n == 0 then a else CreateMany(CreateNext(a).0, n - 1)
  }

  /** However many times `createNext` runs in an entry, the header ends in
      step with the children, which grew by that many fresh maps; an array
      whose header was in step stays in step even with no call. */
  lemma {:induction false} CreateManyKeepsCount(a: ValueMapArray, n: nat)
    requires a.header.Some?
    requires n == 0 ==> Synced(a)
    ensures Synced(CreateMany(a, n))
    ensures |CreateMany(a, n).children| == |a.children| + n
    ensures CreateMany(a, n).children[..|a.children|] == a.children
    ensures forall i :: |a.children| <= i < |a.children| + n ==> CreateMany(a, n).children[i] == NewInstance()
    decreases n
  {
    if n > 0 {
      var b := CreateNext(a).0;
      CreateManyKeepsCount(b, n - 1);
      var c := CreateMany(b, n - 1);
      assert c.children[..|b.children|] == b.children;
      assert c.children[..|a.children|] == b.children[..|a.children|];
      forall i | |a.children| <= i < |a.children| + n
        ensures c.children[i] == NewInstance()
      {
        if i == |a.children| {
          assert c.children[i] == b.children[i];
        }
      }
    }
  }
}
