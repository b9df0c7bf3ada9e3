/** The weak back-reference from one piece of a style span into a string
    pool slot: it reads and writes the string index kept by its style item
    for its own piece. */
module StyleItemReference {
  import opened Common

  /** A block as seen from outside: its identity (Java object identity) and
      the classes it is an instance of. */
  datatype BlockNode = BlockNode(id: nat, classes: set<string>)

  /** A style item block and its ancestors in the block tree, nearest first. */
  datatype StyleItem = StyleItem(node: BlockNode, ancestors: seq<BlockNode>)

  /** The reference: a style item and the index of a piece of it. */
  datatype StyleItemReference = StyleItemReference(styleItem: StyleItem, stylePiece: int)

  /** What `equals` may be handed: another style reference or any other object. */
  datatype Object = StyleRef(ref: StyleItemReference) | OtherObject(id: nat)

  /** The style items' string-reference storage, whose code is not part of
      this model: `getStringRef(piece)` and `setStringRef(piece, value)` of
      the item with a given identity, over a document state S. */
  datatype StringRefStore<!S> = StringRefStore(
    getStringRef: (S, nat, int) -> int,
    setStringRef: (S, nat, int, int) -> S)

  /** The storage reads back what was written to the same (item, piece). */
  ghost predicate ReadsBack<S(!new)>(store: StringRefStore<S>)
  {
    forall s, item, piece, v ::
      store.getStringRef(store.setStringRef(s, item, piece, v), item, piece) == v
  }

  /** Writing one (item, piece) leaves every other (item, piece) as it was. */
  ghost predicate WritesOnlyItsPiece<S(!new)>(store: StringRefStore<S>)
  {
    forall s, item, piece, v, item', piece' :: (item, piece) != (item', piece') ==>
      store.getStringRef(store.setStringRef(s, item, piece, v), item', piece') == store.getStringRef(s, item', piece')
  }

  /** `set(val)`. */
  function Set<S>(store: StringRefStore<S>, s: S, r: StyleItemReference, v: int): S
  {
    store.setStringRef(s, r.styleItem.node.id, r.stylePiece, v)
  }

  /** `get()`. */
  function Get<S>(store: StringRefStore<S>, s: S, r: StyleItemReference): int
  {
    store.getStringRef(s, r.styleItem.node.id, r.stylePiece)
  }

  /** get reads the slot set writes: `Get` and `Set` address the same
      (item, piece) pair, so given a store that reads back what it was
      given, get after set(v) yields v. The round trip itself is the
      store's; what this states of the model is the shared address. */
  lemma GetAfterSet<S(!new)>(store: StringRefStore<S>, s: S, r: StyleItemReference, v: int)
    requires ReadsBack(store)
    ensures Get(store, Set(store, s, r, v), r) == v
  {
  }

  /** set(v) through one reference changes what no unequal reference reads. */
  lemma SetLeavesOtherPieces<S(!new)>(store: StringRefStore<S>, s: S, r: StyleItemReference, other: StyleItemReference, v: int)
    requires WritesOnlyItsPiece(store)
    requires !Equals(r, StyleRef(other))
    ensures Get(store, Set(store, s, r, v), other) == Get(store, s, other)
  {
    assert (r.styleItem.node.id, r.stylePiece) != (other.styleItem.node.id, other.stylePiece);
  }

  /** `equals`: same style item object and same piece. */
  function Equals(a: StyleItemReference, obj: Object): (r: bool)
    ensures r ==> obj.StyleRef? && HashCode(a) == HashCode(obj.ref)
    ensures obj.StyleRef? && obj.ref == a ==> r
  {
    if obj == StyleRef(a) then true
    else match obj
      case OtherObject(_) => false
      case StyleRef(other) =>
        a.stylePiece == other.stylePiece && a.styleItem.node.id == other.styleItem.node.id
  }

  /** `hashCode`: the piece index. */
  function HashCode(a: StyleItemReference): int
  {
    a.stylePiece
  }

  /** Two references are equal exactly when they name the same piece of the
      same style item object; the relation is an equivalence. */
  lemma EqualsIsIdentityOfSlot(a: StyleItemReference, b: StyleItemReference, c: StyleItemReference)
    ensures Equals(a, StyleRef(b)) <==>
              a.stylePiece == b.stylePiece && a.styleItem.node.id == b.styleItem.node.id
    ensures Equals(a, StyleRef(b)) <==> Equals(b, StyleRef(a))
    ensures Equals(a, StyleRef(b)) && Equals(b, StyleRef(c)) ==> Equals(a, StyleRef(c))
    ensures forall o: Object :: o.OtherObject? ==> !Equals(a, o)
  {
  }

  lemma FirstInstanceShift(ancs: seq<BlockNode>, cls: string, rest: Option<BlockNode>)
    requires |ancs| > 0 && cls !in ancs[0].classes
    requires rest.Some? ==> exists k :: 0 <= k < |ancs[1..]| && ancs[1..][k] == rest.value &&
                              forall j :: 0 <= j < k ==> cls !in ancs[1..][j].classes
    ensures rest.Some? ==> exists k :: 0 <= k < |ancs| && ancs[k] == rest.value &&
                              forall j :: 0 <= j < k ==> cls !in ancs[j].classes
  {
    if rest.Some? {
      var k :| 0 <= k < |ancs[1..]| && ancs[1..][k] == rest.value &&
                forall j :: 0 <= j < k ==> cls !in ancs[1..][j].classes;
      assert ancs[k + 1] == rest.value;
      forall j | 0 <= j < k + 1 ensures cls !in ancs[j].classes {
        if j > 0 { assert ancs[j] == ancs[1..][j - 1]; }
      }
    }
  }

  /** The nearest block of ancs that is an instance of cls. */
  function FirstInstance(ancs: seq<BlockNode>, cls: string): (r: Option<BlockNode>)
    ensures r.Some? ==> r.value in ancs && cls in r.value.classes
    ensures r.None? <==> forall k :: 0 <= k < |ancs| ==> cls !in ancs[k].classes
    ensures r.Some? ==> exists k :: 0 <= k < |ancs| && ancs[k] == r.value &&
                          forall j :: 0 <= j < k ==> cls !in ancs[j].classes
  {
    if |ancs| == 0 then None
    else if cls in ancs[0].classes then Some(ancs[0])
    else
      var rest := FirstInstance(ancs[1..], cls);
      assert forall k :: 0 < k < |ancs| ==> ancs[k] == ancs[1..][k - 1];
      FirstInstanceShift(ancs, cls, rest);
      rest
  }

  /** `getReferredParent(cls)`: the style item itself when it is a cls,
      otherwise its nearest cls ancestor, or null. */
  function GetReferredParent(r: StyleItemReference, cls: string): (res: Option<BlockNode>)
    ensures cls in r.styleItem.node.classes ==> res == Some(r.styleItem.node)
    ensures cls !in r.styleItem.node.classes ==>
              (res.None? <==> forall k :: 0 <= k < |r.styleItem.ancestors| ==> cls !in r.styleItem.ancestors[k].classes)
    ensures res.Some? ==> cls in res.value.classes
    ensures res.Some? && res.value != r.styleItem.node ==>
              exists k :: 0 <= k < |r.styleItem.ancestors| && r.styleItem.ancestors[k] == res.value &&
                forall j :: 0 <= j < k ==> cls !in r.styleItem.ancestors[j].classes
  {
    if cls in r.styleItem.node.classes then Some(r.styleItem.node)
    else FirstInstance(r.styleItem.ancestors, cls)
  }
}
