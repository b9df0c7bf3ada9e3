/** Chooses the decoder for a bag entry (`XMLBagDecoder`): the first
    specialised decoder that accepts the entry, else the common one. */
module XmlBagDecoder {

  datatype BagDecoder = AttrDecoder | PluralsDecoder | ArrayDecoder | CommonBagDecoder

  /** The specialised decoders in the order they are tried. */
  const DECODER_LIST: seq<BagDecoder> := [AttrDecoder, PluralsDecoder, ArrayDecoder]

  /** The first decoder of the list that accepts the entry, or the common
      decoder when none does. */
  function FirstMatch<E>(canDecode: (BagDecoder, E) -> bool, entry: E, list: seq<BagDecoder>): (d: BagDecoder)
    ensures d == CommonBagDecoder || d in list
  {
    if |list| == 0 then CommonBagDecoder
    else if canDecode(list[0], entry) then list[0]
    else FirstMatch(canDecode, entry, list[1..])
  }

  /** `getFor`: walks the list and returns the first decoder whose
      `canDecode` accepts; otherwise the common decoder. */
  method GetFor<E>(canDecode: (BagDecoder, E) -> bool, entry: E) returns (d: BagDecoder)
    ensures d == FirstMatch(canDecode, entry, DECODER_LIST)
    ensures d != CommonBagDecoder ==> canDecode(d, entry)
    ensures d == CommonBagDecoder ==> forall i :: 0 <= i < |DECODER_LIST| ==> !canDecode(DECODER_LIST[i], entry)
  {
    var i := 0;
    while i < |DECODER_LIST|
      invariant 0 <= i <= |DECODER_LIST|
      invariant forall k :: 0 <= k < i ==> !canDecode(DECODER_LIST[k], entry)
      invariant FirstMatch(canDecode, entry, DECODER_LIST) == FirstMatch(canDecode, entry, DECODER_LIST[i..])
    {
      if canDecode(DECODER_LIST[i], entry) {
        return DECODER_LIST[i];
      }
      assert DECODER_LIST[i..][1..] == DECODER_LIST[i + 1..];
      i := i + 1;
    }
    return CommonBagDecoder;
  }

  /** The priority order spelled out, each case in both directions. */
  lemma Priority<E>(canDecode: (BagDecoder, E) -> bool, entry: E)
    ensures FirstMatch(canDecode, entry, DECODER_LIST) == AttrDecoder <==> canDecode(AttrDecoder, entry)
    ensures FirstMatch(canDecode, entry, DECODER_LIST) == PluralsDecoder <==>
              !canDecode(AttrDecoder, entry) && canDecode(PluralsDecoder, entry)
    ensures FirstMatch(canDecode, entry, DECODER_LIST) == ArrayDecoder <==>
              !canDecode(AttrDecoder, entry) && !canDecode(PluralsDecoder, entry) && canDecode(ArrayDecoder, entry)
    ensures FirstMatch(canDecode, entry, DECODER_LIST) == CommonBagDecoder <==>
              !canDecode(AttrDecoder, entry) && !canDecode(PluralsDecoder, entry) && !canDecode(ArrayDecoder, entry)
  {
    assert DECODER_LIST[1..] == [PluralsDecoder, ArrayDecoder];
    assert DECODER_LIST[1..][1..] == [ArrayDecoder];
    assert DECODER_LIST[1..][1..][1..] == [];
  }

  /** `decode`: the entry goes to exactly one decoder, the one `getFor`
      picks, which writes into the parent element. */
  method Decode<E, P>(canDecode: (BagDecoder, E) -> bool, run: (BagDecoder, E, P) -> P, entry: E, parent: P)
    returns (r: P, used: BagDecoder)
    ensures used == FirstMatch(canDecode, entry, DECODER_LIST)
    ensures r == run(used, entry, parent)
  {
    used := GetFor(canDecode, entry);
    r := run(used, entry, parent);
  }
}
