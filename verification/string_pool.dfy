/** The string pool of a resource table or binary XML document: a slot array
    of strings, the value-to-slots lookup map rebuilt from it, the referrer
    bookkeeping of each slot, and the two header flag words. */
module StringPool {
  import opened Common
  import Ordinal

  /** A referrer: a field elsewhere in the document that stores a slot index
      (`get()`); `owner` tells apart referrers naming the same index. */
  datatype ReferenceItem = ReferenceItem(owner: nat, index: int)

  /** One slot. `html` is what the string item reports as its text
      (`getHtml`, null when it has none); `references` are the referrers
      attached to it. */
  datatype Slot = Slot(html: Option<string>, references: set<ReferenceItem>)

  /** The pool. `uniqueMap` maps a text to the slots holding it (a
      `StringGroup`); `countStrings` is the header's string count;
      `arrayUtf8` is the encoding last pushed to the string array. */
  datatype Pool = Pool(
    slots: seq<Slot>,
    uniqueMap: map<string, seq<nat>>,
    countStrings: int,
    flagUtf8: bv16,
    flagSorted: bv16,
    arrayUtf8: bool)

  const UTF8_FLAG_VALUE: bv16 := 0x0100
  const FLAG_UTF8: bv16 := 0x0100
  const FLAG_SORTED: bv16 := 0x0100

  /** A fresh item holding s: `createNext()` / `ensureSize` then `set(s)`. */
  function FreshSlot(s: string): Slot
  {
    Slot(Some(s), {})
  }

  function FreshSlots(list: seq<string>): (r: seq<Slot>)
    ensures |r| == |list|
    ensures forall j :: 0 <= j < |list| ==> r[j] == FreshSlot(list[j])
  {
    seq(|list|, j requires 0 <= j < |list| => FreshSlot(list[j]))
  }

  // ---------------------------------------------------------------------
  // The lookup map

  /** Registers slot n (holding `slot`) in the group of its text, if any. */
  function Extend(m: map<string, seq<nat>>, slot: Slot, n: nat): map<string, seq<nat>>
  {
    match slot.html
    case None => m
    case Some(s) => m[s := (if s in m then m[s] else []) + [n]]
  }

  /** Reference definition of the lookup map `refreshUniqueIdMap` builds:
      slots visited in index order, each text's group listing its slots. */
  function Lookup(slots: seq<Slot>): map<string, seq<nat>>
    decreases |slots|
  {
    if |slots| == 0 then map[]
    else Extend(Lookup(slots[..|slots| - 1]), slots[|slots| - 1], |slots| - 1)
  }

  predicate Ascending(s: seq<nat>)
  {
    forall i, j :: 0 <= i < j < |s| ==> s[i] < s[j]
  }

  /** Every group of m is non-empty. */
  ghost predicate GroupsNonEmpty(m: map<string, seq<nat>>)
  {
    forall s :: s in m ==> |m[s]| > 0
  }

  /** Every group of m lists its slots in ascending order. */
  ghost predicate GroupsAscending(m: map<string, seq<nat>>)
  {
    forall s :: s in m ==> Ascending(m[s])
  }

  /** Every slot a group of m lists holds that group's text. */
  ghost predicate GroupsSound(slots: seq<Slot>, m: map<string, seq<nat>>)
  {
    forall s, k :: s in m && 0 <= k < |m[s]| ==> m[s][k] < |slots| && slots[m[s][k]].html == Some(s)
  }

  /** Every slot holding a text is listed in that text's group. */
  ghost predicate GroupsComplete(slots: seq<Slot>, m: map<string, seq<nat>>)
  {
    forall s, i :: 0 <= i < |slots| && slots[i].html == Some(s) ==> s in m && i in m[s]
  }

  /** m maps every text held by some slot, and nothing else, to the
      ascending list of exactly the slots holding it. */
  ghost predicate IsLookupOf(slots: seq<Slot>, m: map<string, seq<nat>>)
  {
    GroupsNonEmpty(m) && GroupsAscending(m) && GroupsSound(slots, m) && GroupsComplete(slots, m)
  }

  /** The keys of a faithful lookup map are exactly the texts held. */
  lemma LookupKeys(slots: seq<Slot>, m: map<string, seq<nat>>, s: string)
    ensures IsLookupOf(slots, m) ==>
              (s in m <==> exists i :: 0 <= i < |slots| && slots[i].html == Some(s))
  {
    if IsLookupOf(slots, m) && s in m {
      assert slots[m[s][0]].html == Some(s);
    }
  }

  /** Appending one slot and registering it keeps the map faithful. */
  lemma ExtendSound(prefix: seq<Slot>, last: Slot, m: map<string, seq<nat>>)
    requires IsLookupOf(prefix, m)
    ensures IsLookupOf(prefix + [last], Extend(m, last, |prefix|))
  {
    ExtendNonEmptyAscending(prefix, last, m);
    ExtendGroupsSound(prefix, last, m);
    ExtendGroupsComplete(prefix, last, m);
  }

  lemma ExtendNonEmptyAscending(prefix: seq<Slot>, last: Slot, m: map<string, seq<nat>>)
    requires GroupsNonEmpty(m) && GroupsAscending(m) && GroupsSound(prefix, m)
    ensures GroupsNonEmpty(Extend(m, last, |prefix|)) && GroupsAscending(Extend(m, last, |prefix|))
  {
    var m' := Extend(m, last, |prefix|);
    forall s | s in m' ensures Ascending(m'[s]) {
      if last.html == Some(s) && s in m {
        forall k | 0 <= k < |m[s]| ensures m[s][k] < |prefix| { }
      }
    }
  }

  lemma ExtendGroupsSound(prefix: seq<Slot>, last: Slot, m: map<string, seq<nat>>)
    requires GroupsSound(prefix, m)
    ensures GroupsSound(prefix + [last], Extend(m, last, |prefix|))
  {
    var slots := prefix + [last];
    var m' := Extend(m, last, |prefix|);
    forall s, k | s in m' && 0 <= k < |m'[s]| ensures m'[s][k] < |slots| && slots[m'[s][k]].html == Some(s) {
      if last.html == Some(s) && k == |m'[s]| - 1 {
      } else {
        assert m'[s][k] == m[s][k];
        assert slots[m[s][k]] == prefix[m[s][k]];
      }
    }
  }

  lemma ExtendGroupsComplete(prefix: seq<Slot>, last: Slot, m: map<string, seq<nat>>)
    requires GroupsComplete(prefix, m)
    ensures GroupsComplete(prefix + [last], Extend(m, last, |prefix|))
  {
    var slots := prefix + [last];
    var m' := Extend(m, last, |prefix|);
    forall s, i | 0 <= i < |slots| && slots[i].html == Some(s) ensures s in m' && i in m'[s] {
      if i < |prefix| {
        assert prefix[i] == slots[i];
        assert i in m[s];
      }
    }
  }

  lemma {:induction false} LookupSound(slots: seq<Slot>)
    ensures IsLookupOf(slots, Lookup(slots))
    decreases |slots|
  {
    if |slots| > 0 {
      var n := |slots| - 1;
      LookupSound(slots[..n]);
      ExtendSound(slots[..n], slots[n], Lookup(slots[..n]));
      assert slots[..n] + [slots[n]] == slots;
    }
  }

  /** Under a faithful lookup map, the first slot of a text's group is the
      lowest slot holding that text. */
  lemma FirstOfGroupIsLowest(slots: seq<Slot>, m: map<string, seq<nat>>, s: string, i: int)
    requires IsLookupOf(slots, m)
    requires s in m && 0 <= i < |slots| && slots[i].html == Some(s)
    ensures |m[s]| > 0 && m[s][0] <= i
  {
    assert i in m[s];
    var k :| 0 <= k < |m[s]| && m[s][k] == i;
    if k > 0 {
      assert m[s][0] < m[s][k];
    }
  }

  /** `refreshUniqueIdMap`: clears the map and regroups every slot that has
      a text, in slot order. */
  method RefreshUniqueIdMap(p: Pool) returns (q: Pool)
    ensures q.uniqueMap == Lookup(p.slots)
    ensures IsLookupOf(q.slots, q.uniqueMap)
    ensures q.slots == p.slots && q.countStrings == p.countStrings
    ensures q.flagUtf8 == p.flagUtf8 && q.flagSorted == p.flagSorted && q.arrayUtf8 == p.arrayUtf8
  {
    var m: map<string, seq<nat>> := map[];
    var i := 0;
    while i < |p.slots|
      invariant 0 <= i <= |p.slots|
      invariant m == Lookup(p.slots[..i])
    {
      assert p.slots[..i + 1][..i] == p.slots[..i];
      m := Extend(m, p.slots[i], i);
      i := i + 1;
    }
    assert p.slots[..i] == p.slots;
    q := p.(uniqueMap := m);
    LookupSound(p.slots);
  }

  /** `contains`: whether the lookup map has a group for s. */
  function Contains(p: Pool, s: string): (r: bool)
    ensures IsLookupOf(p.slots, p.uniqueMap) ==>
              (r <==> exists i :: 0 <= i < |p.slots| && p.slots[i].html == Some(s))
  {
    LookupKeys(p.slots, p.uniqueMap, s);
    s in p.uniqueMap
  }

  // ---------------------------------------------------------------------
  // Bulk insertion

  /** `insertStringList`: grows the array by |list| fresh items at the tail,
      sets them to list in order, then rebuilds the lookup map. */
  function InsertStringList(p: Pool, list: seq<string>): (q: Pool)
    ensures q.slots == p.slots + FreshSlots(list)
    ensures IsLookupOf(q.slots, q.uniqueMap)
    ensures q.countStrings == p.countStrings
    ensures q.flagUtf8 == p.flagUtf8 && q.flagSorted == p.flagSorted && q.arrayUtf8 == p.arrayUtf8
  {
    var slots := p.slots + FreshSlots(list);
    LookupSound(slots);
    p.(slots := slots, uniqueMap := Lookup(slots))
  }

  /** The map `insertStrings` returns: each inserted text to the slot of
      its LAST occurrence in list (a later `put` replaces an earlier one). */
  function InsertResults(list: seq<string>, base: nat): (r: map<string, nat>)
    decreases |list|
  {
    if |list| == 0 then map[]
    else InsertResults(list[..|list| - 1], base)[list[|list| - 1] := base + |list| - 1]
  }

  lemma {:induction false} InsertResultsLastOccurrence(list: seq<string>, base: nat)
    ensures forall s :: s in InsertResults(list, base) <==> s in list
    ensures forall s :: s in InsertResults(list, base) ==>
              && base <= InsertResults(list, base)[s] < base + |list|
              && list[InsertResults(list, base)[s] - base] == s
              && forall j :: InsertResults(list, base)[s] - base < j < |list| ==> list[j] != s
    decreases |list|
  {
    if |list| > 0 {
      var n := |list| - 1;
      InsertResultsLastOccurrence(list[..n], base);
      assert list == list[..n] + [list[n]];
      assert forall s :: s in list <==> s in list[..n] || s == list[n];
    }
  }

  /** A slot index pointing into the appended tail at an occurrence of s
      names a fresh slot holding s. */
  lemma AppendedAt(base: seq<Slot>, list: seq<string>, results: map<string, nat>)
    requires forall s :: s in results ==>
               |base| <= results[s] < |base| + |list| && list[results[s] - |base|] == s
    ensures forall s :: s in results ==> (base + FreshSlots(list))[results[s]] == FreshSlot(s)
  {
    var slots := base + FreshSlots(list);
    forall s | s in results ensures slots[results[s]] == FreshSlot(s) {
      assert slots[results[s]] == FreshSlots(list)[results[s] - |base|];
    }
  }

  /** `insertStrings`: like insertStringList, without sorting, also
      returning each inserted text with the slot it ended up in. */
  function InsertStrings(p: Pool, list: seq<string>): (r: (Pool, map<string, nat>))
    ensures |r.0.slots| == |p.slots| + |list|
    ensures r.0.slots[..|p.slots|] == p.slots
    ensures IsLookupOf(r.0.slots, r.0.uniqueMap)
    ensures forall s :: s in r.1 <==> s in list
    ensures forall s :: s in r.1 ==> |p.slots| <= r.1[s] < |r.0.slots| && r.0.slots[r.1[s]] == FreshSlot(s)
    ensures r.0.slots == p.slots + FreshSlots(list)
    ensures r.1 == InsertResults(list, |p.slots|)
    ensures r.0 == p.(slots := r.0.slots, uniqueMap := r.0.uniqueMap)
  {
    var q := InsertStringList(p, list);
    var results := InsertResults(list, |p.slots|);
    InsertResultsLastOccurrence(list, |p.slots|);
    AppendedAt(p.slots, list, results);
    (q, results)
  }

  /** The collection handed to addStrings. Only `java.util.HashSet` (and its
      subclasses) is distinguished by the code; `elements` is its iteration
      order. */
  datatype Collection = HashSetOf(elements: seq<string>) | OtherCollection(elements: seq<string>)

  /** A HashSet holds no element twice. */
  predicate WellFormed(c: Collection)
  {
    c.HashSetOf? ==> Distinct(c.elements)
  }

  /** `uniqueSet.remove(key)` for every key: s without the elements in keys,
      iteration order kept. */
  function Without(s: seq<string>, keys: set<string>): (r: seq<string>)
    ensures forall x :: x in r <==> x in s && x !in keys
    ensures Distinct(s) ==> Distinct(r)
    ensures |r| <= |s|
  {
    if |s| == 0 then []
    else if s[0] in keys then Without(s[1..], keys)
    else
      assert forall x :: x in s[1..] ==> x in s;
      [s[0]] + Without(s[1..], keys)
  }

  /** The texts of slots that all hold one. */
  function Texts(slots: seq<Slot>): (r: seq<string>)
    requires forall i :: 0 <= i < |slots| ==> slots[i].html.Some?
    ensures |r| == |slots|
  {
    seq(|slots|, i requires 0 <= i < |slots| => slots[i].html.value)
  }

  /** The texts already present in slots: the keys of the refreshed map. */
  ghost predicate Present(slots: seq<Slot>, x: string)
  {
    exists i :: 0 <= i < |slots| && slots[i].html == Some(x)
  }

  /** The texts present are exactly the keys of the rebuilt map. */
  lemma PresentIsLookupKey(slots: seq<Slot>)
    ensures forall x :: x in Lookup(slots) <==> Present(slots, x)
  {
    LookupSound(slots);
    forall x ensures x in Lookup(slots) <==> Present(slots, x) {
      LookupKeys(slots, Lookup(slots), x);
    }
  }

  /** The collection addStrings leaves with the caller: a HashSet loses the
      texts already present (lines 79-88 mutate it); any other collection is
      only copied. */
  function CallerAfter(p: Pool, c: Collection): Collection
  {
    if c.HashSetOf? then HashSetOf(Without(c.elements, Lookup(p.slots).Keys)) else c
  }

  /** `addStrings`, as written. A null or empty collection changes nothing.
      Otherwise the lookup map is refreshed; if the collection is a HashSet
      the texts already present are removed from the CALLER's set; then the
      caller's collection itself (not the filtered copy) is sorted and
      appended. The second component is the caller's collection afterwards. */
  function AddStrings(p: Pool, input: Option<Collection>): (r: (Pool, Option<Collection>))
    requires input.Some? ==> WellFormed(input.value)
    ensures input.None? || |input.value.elements| == 0 ==> r == (p, input)
    ensures |p.slots| <= |r.0.slots| && r.0.slots[..|p.slots|] == p.slots
    ensures r.0.countStrings == p.countStrings
    ensures input.Some? && |input.value.elements| > 0 ==> IsLookupOf(r.0.slots, r.0.uniqueMap)
    ensures r.0 == p.(slots := r.0.slots, uniqueMap := r.0.uniqueMap)
  {
    if input.None? || |input.value.elements| == 0 then (p, input)
    else
      var refreshed := p.(uniqueMap := Lookup(p.slots));
      var caller := CallerAfter(p, input.value);
      (InsertStringList(refreshed, Ordinal.Sort(caller.elements)), Some(caller))
  }

  /** The texts of fresh slots are the strings they were made from. */
  lemma TextsOfFresh(list: seq<string>)
    ensures Texts(FreshSlots(list)) == list
  {
  }

  /** addStrings on a non-empty collection appends fresh slots for the
      caller's collection, sorted, after the existing ones. */
  lemma AddStringsSlots(p: Pool, c: Collection)
    requires WellFormed(c) && |c.elements| > 0
    ensures AddStrings(p, Some(c)).0.slots == p.slots + FreshSlots(Ordinal.Sort(CallerAfter(p, c).elements))
    ensures AddStrings(p, Some(c)).1 == Some(CallerAfter(p, c))
  {
  }

  /** The slots addStrings appends are fresh and hold, in ascending ordinal
      order, exactly the strings of the caller's collection as it stands
      after the call. */
  lemma AddStringsAppendsSorted(p: Pool, c: Collection)
    requires WellFormed(c) && |c.elements| > 0
    ensures var r := AddStrings(p, Some(c));
      && r.1 == Some(CallerAfter(p, c))
      && |r.0.slots| == |p.slots| + |CallerAfter(p, c).elements|
      && (forall j :: |p.slots| <= j < |r.0.slots| ==>
            r.0.slots[j].html.Some? && r.0.slots[j].references == {})
      && Ordinal.Sorted(Texts(r.0.slots[|p.slots|..]))
      && multiset(Texts(r.0.slots[|p.slots|..])) == multiset(CallerAfter(p, c).elements)
  {
    AddStringsSlots(p, c);
    AppendedSortedTail(p.slots, CallerAfter(p, c).elements);
  }

  /** Appending fresh slots for the sorted elements: the tail is fresh,
      sorted, and a rearrangement of the elements. */
  lemma AppendedSortedTail(base: seq<Slot>, elements: seq<string>)
    ensures var slots := base + FreshSlots(Ordinal.Sort(elements));
      && |slots| == |base| + |elements|
      && (forall j :: |base| <= j < |slots| ==> slots[j].html.Some? && slots[j].references == {})
      && Ordinal.Sorted(Texts(slots[|base|..]))
      && multiset(Texts(slots[|base|..])) == multiset(elements)
  {
    var sorted := Ordinal.Sort(elements);
    var added := FreshSlots(sorted);
    var slots := base + added;
    assert slots[|base|..] == added;
    TextsOfFresh(sorted);
    assert |sorted| == |elements| by {
      assert |multiset(sorted)| == |multiset(elements)|;
    }
    forall j | |base| <= j < |slots|
      ensures slots[j].html.Some? && slots[j].references == {}
    {
      assert slots[j] == added[j - |base|];
    }
  }

  /** For a collection that is not a HashSet nothing is deduplicated: the
      pool grows by the collection's full size, duplicates and
      already-present strings included, and the caller's list is unchanged. */
  lemma AddStringsListKeepsAll(p: Pool, c: Collection)
    requires c.OtherCollection? && |c.elements| > 0
    ensures var r := AddStrings(p, Some(c));
      && r.1 == Some(c)
      && |r.0.slots| == |p.slots| + |c.elements|
      && multiset(Texts(r.0.slots[|p.slots|..])) == multiset(c.elements)
  {
    AddStringsSlots(p, c);
    assert CallerAfter(p, c) == c;
    AppendedSortedTail(p.slots, c.elements);
  }

  /** For a HashSet, exactly the strings not already present are appended,
      and the caller's set loses the present ones. */
  lemma AddStringsHashSetSkipsPresent(p: Pool, c: Collection)
    requires c.HashSetOf? && Distinct(c.elements) && |c.elements| > 0
    ensures var r := AddStrings(p, Some(c));
      && r.1.Some? && r.1.value.HashSetOf? && Distinct(r.1.value.elements)
      && (forall x :: x in r.1.value.elements <==> x in c.elements && !Present(p.slots, x))
      && (forall x :: x in Texts(r.0.slots[|p.slots|..]) <==> x in c.elements && !Present(p.slots, x))
  {
    var after := CallerAfter(p, c).elements;
    AddStringsSlots(p, c);
    AppendedSortedTail(p.slots, after);
    PresentIsLookupKey(p.slots);
    var texts := Texts((p.slots + FreshSlots(Ordinal.Sort(after)))[|p.slots|..]);
    forall x ensures x in texts <==> x in after {
      assert x in texts <==> x in multiset(texts);
      assert x in after <==> x in multiset(after);
    }
  }

  // ---------------------------------------------------------------------
  // addStrings does not deduplicate list input (see README, Findings)

  /** A new pool (the constructor): no slots, an empty map, the UTF-8 flag
      written without re-encoding. */
  function NewPool(isUtf8: bool): (p: Pool)
    ensures p.slots == [] && p.uniqueMap == map[] && IsUtf8Flag(p) == isUtf8
    ensures p.arrayUtf8 == isUtf8 && p.countStrings == 0 && p.flagSorted == 0
  {
    SetUtf8(Pool([], map[], 0, 0, 0, isUtf8), isUtf8, false).0
  }

  /** Sorting a list of one repeated string gives the same list. */
  lemma SortRepeated(x: string, s: seq<string>)
    requires forall k :: 0 <= k < |s| ==> s[k] == x
    ensures Ordinal.Sort(s) == s
  {
    var t := Ordinal.Sort(s);
    assert |t| == |s| by { assert |multiset(t)| == |multiset(s)|; }
    forall k | 0 <= k < |s| ensures t[k] == x {
      assert t[k] in multiset(t);
      assert t[k] in s;
    }
  }

  lemma FreshSortedTwice(x: string)
    ensures [] + FreshSlots(Ordinal.Sort([x, x])) == [FreshSlot(x), FreshSlot(x)]
  {
    SortRepeated(x, [x, x]);
  }

  lemma FreshSortedOnce(x: string)
    ensures [FreshSlot(x)] + FreshSlots(Ordinal.Sort([x])) == [FreshSlot(x), FreshSlot(x)]
  {
    SortRepeated(x, [x]);
  }

  /** As written, adding the list [x, x] to a new pool yields two slots
      holding x, whatever x is. */
  lemma AddStringsListDuplicates(x: string, isUtf8: bool)
    ensures var q := AddStrings(NewPool(isUtf8), Some(OtherCollection([x, x]))).0;
      |q.slots| == 2 && q.slots[0].html == Some(x) && q.slots[1].html == Some(x)
  {
    var p := NewPool(isUtf8);
    var c := OtherCollection([x, x]);
    AddStringsSlots(p, c);
    assert CallerAfter(p, c) == c;
    FreshSortedTwice(x);
  }

  /** As written, adding the list [x] to a pool already holding x appends a
      second slot holding x, whatever x is. */
  lemma AddStringsListDuplicatesPresent(x: string, isUtf8: bool)
    ensures var p := GetOrCreate(NewPool(isUtf8), x).0;
      var q := AddStrings(p, Some(OtherCollection([x]))).0;
      |q.slots| == 2 && q.slots[0].html == Some(x) && q.slots[1].html == Some(x)
  {
    var p := GetOrCreate(NewPool(isUtf8), x).0;
    var c := OtherCollection([x]);
    assert p.slots == [FreshSlot(x)];
    AddStringsSlots(p, c);
    assert CallerAfter(p, c) == c;
    FreshSortedOnce(x);
  }

  /** No text is held by two slots. */
  ghost predicate NoDuplicateTexts(slots: seq<Slot>)
  {
    forall i, j :: 0 <= i < j < |slots| && slots[i].html.Some? ==> slots[i].html != slots[j].html
  }

  /** `new HashSet<>(list)`: each element once, first occurrences kept. */
  function Dedup(s: seq<string>): (r: seq<string>)
    ensures Distinct(r)
    ensures forall x :: x in r <==> x in s
    decreases |s|
  {
    if |s| == 0 then []
    else
      var d := Dedup(s[..|s| - 1]);
      assert forall x :: x in s <==> x in s[..|s| - 1] || x == s[|s| - 1] by {
        assert s == s[..|s| - 1] + [s[|s| - 1]];
      }
      if s[|s| - 1] in d then d else d + [s[|s| - 1]]
  }

  lemma {:induction false} DistinctCountsAtMostOne(s: seq<string>, x: string)
    requires Distinct(s)
    ensures multiset(s)[x] <= 1
    decreases |s|
  {
    if |s| > 0 {
      DistinctCountsAtMostOne(s[1..], x);
      assert s == [s[0]] + s[1..];
      assert s[0] !in s[1..];
    }
  }

  /** A rearrangement of a duplicate-free sequence is duplicate-free. */
  lemma DistinctByMultiset(a: seq<string>, b: seq<string>)
    requires Distinct(a) && multiset(a) == multiset(b)
    ensures Distinct(b)
  {
    forall i, j | 0 <= i < j < |b| ensures b[i] != b[j] {
      if b[i] == b[j] {
        assert b == b[..j] + [b[j]] + b[j + 1..];
        assert b[i] in b[..j];
        assert multiset(b)[b[j]] >= 2;
        DistinctCountsAtMostOne(a, b[j]);
        assert false;
      }
    }
  }

  /** The evidently intended `addStrings`: the filtered unique set, not the
      caller's collection, is sorted and appended (`new ArrayList<>(uniqueSet)`
      at line 89). The caller's HashSet is still mutated as in the code. */
  function AddStringsDeduplicated(p: Pool, input: Option<Collection>): (r: (Pool, Option<Collection>))
    requires input.Some? ==> WellFormed(input.value)
    ensures input.None? || |input.value.elements| == 0 ==> r == (p, input)
    ensures |p.slots| <= |r.0.slots| && r.0.slots[..|p.slots|] == p.slots
    ensures input.Some? && |input.value.elements| > 0 ==> IsLookupOf(r.0.slots, r.0.uniqueMap)
    ensures r.0 == p.(slots := r.0.slots, uniqueMap := r.0.uniqueMap)
  {
    if input.None? || |input.value.elements| == 0 then (p, input)
    else
      var refreshed := p.(uniqueMap := Lookup(p.slots));
      var unique := Without(Dedup(input.value.elements), refreshed.uniqueMap.Keys);
      (InsertStringList(refreshed, Ordinal.Sort(unique)), Some(CallerAfter(p, input.value)))
  }

  /** The strings the corrected addStrings appends, before sorting. */
  function Unique(p: Pool, c: Collection): seq<string>
  {
    Without(Dedup(c.elements), Lookup(p.slots).Keys)
  }

  /** What the corrected addStrings appends: the sorted unique strings, each
      given but not present, each once. */
  lemma DeduplicatedTail(p: Pool, c: Collection)
    requires WellFormed(c) && |c.elements| > 0
    ensures var q := AddStringsDeduplicated(p, Some(c)).0;
      var sorted := Ordinal.Sort(Unique(p, c));
      && q.slots == p.slots + FreshSlots(sorted)
      && Distinct(sorted) && Distinct(Unique(p, c))
      && (forall x :: x in sorted <==> x in c.elements && !Present(p.slots, x))
  {
    var unique := Unique(p, c);
    var sorted := Ordinal.Sort(unique);
    PresentIsLookupKey(p.slots);
    var refreshed := p.(uniqueMap := Lookup(p.slots));
    assert AddStringsDeduplicated(p, Some(c)).0 == InsertStringList(refreshed, sorted);
    DistinctByMultiset(unique, sorted);
    forall x ensures x in sorted <==> x in unique {
      assert x in sorted <==> x in multiset(sorted);
      assert x in unique <==> x in multiset(unique);
    }
  }

  /** Appending distinct texts that are all absent keeps texts unique. */
  lemma AppendAbsentKeepsUnique(prefix: seq<Slot>, added: seq<string>)
    requires NoDuplicateTexts(prefix) && Distinct(added)
    requires forall x :: x in added ==> !Present(prefix, x)
    ensures NoDuplicateTexts(prefix + FreshSlots(added))
  {
    var slots := prefix + FreshSlots(added);
    var n := |prefix|;
    forall i, j | 0 <= i < j < |slots| && slots[i].html.Some? ensures slots[i].html != slots[j].html {
      if j < n {
        assert slots[i] == prefix[i] && slots[j] == prefix[j];
      } else if i < n {
        assert slots[i] == prefix[i];
        assert slots[j].html == Some(added[j - n]);
        assert Present(prefix, prefix[i].html.value);
      } else {
        assert slots[i].html == Some(added[i - n]) && slots[j].html == Some(added[j - n]);
      }
    }
  }

  /** Appending the absent strings of a collection makes all of them present. */
  lemma AppendMakesPresent(prefix: seq<Slot>, added: seq<string>, given: seq<string>)
    requires forall x :: x in added <==> x in given && !Present(prefix, x)
    ensures forall x :: x in given ==> Present(prefix + FreshSlots(added), x)
  {
    var slots := prefix + FreshSlots(added);
    forall x | x in given ensures Present(slots, x) {
      if Present(prefix, x) {
        var i :| 0 <= i < |prefix| && prefix[i].html == Some(x);
        assert slots[i] == prefix[i];
      } else {
        var k :| 0 <= k < |added| && added[k] == x;
        assert slots[|prefix| + k].html == Some(x);
      }
    }
  }

  /** With deduplication a pool without duplicate texts stays without. */
  lemma AddStringsDeduplicatedNoDuplicates(p: Pool, c: Collection)
    requires WellFormed(c) && |c.elements| > 0
    requires NoDuplicateTexts(p.slots)
    ensures NoDuplicateTexts(AddStringsDeduplicated(p, Some(c)).0.slots)
  {
    DeduplicatedTail(p, c);
    AppendAbsentKeepsUnique(p.slots, Ordinal.Sort(Unique(p, c)));
  }

  /** With deduplication every given string ends up in the pool, and the pool
      grows by exactly the number of distinct strings not yet present. */
  lemma AddStringsDeduplicatedGrowth(p: Pool, c: Collection)
    requires WellFormed(c) && |c.elements| > 0
    ensures var q := AddStringsDeduplicated(p, Some(c)).0;
      && (forall x :: x in c.elements ==> Present(q.slots, x))
      && |q.slots| == |p.slots| + |set x | x in c.elements && !Present(p.slots, x)|
  {
    DeduplicatedTail(p, c);
    var sorted := Ordinal.Sort(Unique(p, c));
    AppendMakesPresent(p.slots, sorted, c.elements);
    var absent := set x | x in c.elements && !Present(p.slots, x);
    DistinctSizeOfSet(sorted, absent);
  }

  lemma DistinctSizeOfSet(s: seq<string>, t: set<string>)
    requires Distinct(s)
    requires forall x :: x in s <==> x in t
    ensures |t| == |s|
  {
    DistinctSetSize(s);
    assert t == set x | x in s;
  }

  /** A duplicate-free sequence has as many elements as its set. */
  lemma {:induction false} DistinctSetSize(s: seq<string>)
    requires Distinct(s)
    ensures |set x | x in s| == |s|
    decreases |s|
  {
    if |s| > 0 {
      DistinctSetSize(s[1..]);
      assert (set x | x in s) == {s[0]} + (set x | x in s[1..]);
      assert s[0] !in (set x | x in s[1..]);
    }
  }

  // ---------------------------------------------------------------------
  // getOrCreate

  /** `getOrCreate`: the first slot of s's group; when the group is missing
      or empty, one new slot holding s is appended (`createNewString`), the
      header count is set to the new array length and the slot joins the
      group. Returns the pool and the slot index. */
  function GetOrCreate(p: Pool, s: string): (r: (Pool, nat))
    ensures |r.0.slots| == |p.slots| || |r.0.slots| == |p.slots| + 1
    ensures r.0.slots[..|p.slots|] == p.slots
    ensures |r.0.slots| == |p.slots| + 1 ==>
              r.1 == |p.slots| && r.0.slots[r.1] == FreshSlot(s) && r.0.countStrings == |r.0.slots|
    ensures |r.0.slots| == |p.slots| ==> r.0 == p
    ensures IsLookupOf(p.slots, p.uniqueMap) ==>
              && IsLookupOf(r.0.slots, r.0.uniqueMap)
              && r.1 < |r.0.slots| && r.0.slots[r.1].html == Some(s)
              && (forall i :: 0 <= i < r.1 ==> r.0.slots[i].html != Some(s))
              && ((exists i :: 0 <= i < |p.slots| && p.slots[i].html == Some(s)) <==> r.0 == p)
    ensures r.0 == p.(slots := r.0.slots, uniqueMap := r.0.uniqueMap, countStrings := r.0.countStrings)
  {
    var group := if s in p.uniqueMap then p.uniqueMap[s] else [];
    if |group| == 0 then
      var n := |p.slots|;
      var slots := p.slots + [FreshSlot(s)];
      var q := p.(slots := slots, countStrings := |slots|, uniqueMap := p.uniqueMap[s := group + [n]]);
      assert slots[..n] == p.slots;
      assert IsLookupOf(p.slots, p.uniqueMap) ==> IsLookupOf(q.slots, q.uniqueMap) by {
        if IsLookupOf(p.slots, p.uniqueMap) {
          assert forall i :: 0 <= i < n ==> slots[i] == p.slots[i];
        }
      }
      (q, n)
    else
      assert IsLookupOf(p.slots, p.uniqueMap) ==> forall i :: 0 <= i < group[0] ==> p.slots[i].html != Some(s) by {
        if IsLookupOf(p.slots, p.uniqueMap) {
          forall i | 0 <= i < group[0] ensures p.slots[i].html != Some(s) {
            if p.slots[i].html == Some(s) {
              FirstOfGroupIsLowest(p.slots, p.uniqueMap, s, i);
            }
          }
        }
      }
      (p, group[0])
  }

  /** A second getOrCreate of the same text returns the same slot and adds
      nothing. */
  lemma GetOrCreateIdempotent(p: Pool, s: string)
    ensures GetOrCreate(GetOrCreate(p, s).0, s) == GetOrCreate(p, s)
  {
  }

  // ---------------------------------------------------------------------
  // Referrers

  /** `get(index)`: the slot an index names, if any. */
  function Resolve(p: Pool, index: int): (r: Option<nat>)
    ensures r.Some? <==> 0 <= index < |p.slots|
    ensures r.Some? ==> r.value == index
  {
    if 0 <= index < |p.slots| then Some(index as nat) else None
  }

  /** The referrers in refs that name slot i. */
  function Naming(refs: seq<Option<ReferenceItem>>, i: int): set<ReferenceItem>
  {
    set k | 0 <= k < |refs| && refs[k].Some? && refs[k].value.index == i :: refs[k].value
  }

  lemma NamingSingle(ref: Option<ReferenceItem>, i: int)
    ensures Naming([ref], i) == if ref.Some? && ref.value.index == i then {ref.value} else {}
  {
    if ref.Some? && ref.value.index == i {
      assert [ref][0] == ref;
    }
  }

  lemma NamingAllSingle(ref: Option<ReferenceItem>)
    ensures forall i :: Naming([ref], i) == if ref.Some? && ref.value.index == i then {ref.value} else {}
  {
    forall i { NamingSingle(ref, i); }
  }

  /** `addReference`: attaches ref to the slot its index names; a null ref
      or an index naming no slot is ignored. */
  function AddReference(p: Pool, ref: Option<ReferenceItem>): (q: Pool)
    ensures |q.slots| == |p.slots| && q.uniqueMap == p.uniqueMap && q.countStrings == p.countStrings
    ensures q.flagUtf8 == p.flagUtf8 && q.flagSorted == p.flagSorted && q.arrayUtf8 == p.arrayUtf8
    ensures ref.None? || Resolve(p, ref.value.index).None? ==> q == p
    ensures forall i :: 0 <= i < |p.slots| ==>
              q.slots[i].html == p.slots[i].html &&
              q.slots[i].references == p.slots[i].references + Naming([ref], i)
  {
    NamingAllSingle(ref);
    if ref.None? then p
    else
      match Resolve(p, ref.value.index)
      case None => p
      case Some(i) =>
        var slot := p.slots[i];
        p.(slots := p.slots[i := slot.(references := slot.references + {ref.value})])
  }

  /** `removeReference`: detaches ref from the slot its index names and
      returns that slot; null ref or unresolved index: nothing, null. */
  function RemoveReference(p: Pool, ref: Option<ReferenceItem>): (r: (Pool, Option<nat>))
    ensures |r.0.slots| == |p.slots| && r.0.uniqueMap == p.uniqueMap && r.0.countStrings == p.countStrings
    ensures r.0.flagUtf8 == p.flagUtf8 && r.0.flagSorted == p.flagSorted && r.0.arrayUtf8 == p.arrayUtf8
    ensures ref.None? || Resolve(p, ref.value.index).None? ==> r == (p, None)
    ensures ref.Some? && Resolve(p, ref.value.index).Some? ==> r.1 == Some(ref.value.index as nat)
    ensures forall i :: 0 <= i < |p.slots| ==>
              r.0.slots[i].html == p.slots[i].html &&
              r.0.slots[i].references == p.slots[i].references - Naming([ref], i)
  {
    NamingAllSingle(ref);
    if ref.None? then (p, None)
    else
      match Resolve(p, ref.value.index)
      case None => (p, None)
      case Some(i) =>
        var slot := p.slots[i];
        (p.(slots := p.slots[i := slot.(references := slot.references - {ref.value})]), Some(i))
  }

  /** Attaching a referrer that was not attached and detaching it again
      restores the pool. */
  lemma AddThenRemoveRestores(p: Pool, ref: ReferenceItem)
    requires forall i :: 0 <= i < |p.slots| ==> ref !in p.slots[i].references
    ensures RemoveReference(AddReference(p, Some(ref)), Some(ref)).0 == p
  {
    var q := RemoveReference(AddReference(p, Some(ref)), Some(ref)).0;
    assert forall i :: 0 <= i < |p.slots| ==> q.slots[i] == p.slots[i];
  }

  function AddAll(p: Pool, refs: seq<Option<ReferenceItem>>): Pool
    decreases |refs|
  {
    if |refs| == 0 then p else AddAll(AddReference(p, refs[0]), refs[1..])
  }

  function RemoveAll(p: Pool, refs: seq<Option<ReferenceItem>>): Pool
    decreases |refs|
  {
    if |refs| == 0 then p else RemoveAll(RemoveReference(p, refs[0]).0, refs[1..])
  }

  /** `addReferences`: addReference for each element; a null list does nothing. */
  function AddReferences(p: Pool, refs: Option<seq<Option<ReferenceItem>>>): Pool
  {
    match refs
    case None => p
    case Some(l) => AddAll(p, l)
  }

  /** `removeReferences`: removeReference for each element; a null list does nothing. */
  function RemoveReferences(p: Pool, refs: Option<seq<Option<ReferenceItem>>>): Pool
  {
    match refs
    case None => p
    case Some(l) => RemoveAll(p, l)
  }

  lemma NamingCons(refs: seq<Option<ReferenceItem>>, i: int)
    requires |refs| > 0
    ensures Naming(refs, i) == Naming([refs[0]], i) + Naming(refs[1..], i)
  {
    forall r | r in Naming(refs, i) ensures r in Naming([refs[0]], i) + Naming(refs[1..], i) {
      var k :| 0 <= k < |refs| && refs[k].Some? && refs[k].value.index == i && refs[k].value == r;
      if k > 0 { assert refs[1..][k - 1] == refs[k]; } else { assert [refs[0]][0] == refs[k]; }
    }
    forall r | r in Naming(refs[1..], i) ensures r in Naming(refs, i) {
      var k :| 0 <= k < |refs[1..]| && refs[1..][k].Some? && refs[1..][k].value.index == i && refs[1..][k].value == r;
      assert refs[k + 1] == refs[1..][k];
    }
  }

  /** The bulk attach gives each slot exactly the referrers that name it,
      and touches nothing else. */
  lemma {:induction false} AddReferencesEffect(p: Pool, refs: seq<Option<ReferenceItem>>)
    ensures var q := AddReferences(p, Some(refs));
      && |q.slots| == |p.slots| && q.uniqueMap == p.uniqueMap && q.countStrings == p.countStrings
      && forall i :: 0 <= i < |p.slots| ==>
           q.slots[i].html == p.slots[i].html &&
           q.slots[i].references == p.slots[i].references + Naming(refs, i)
    decreases |refs|
  {
    if |refs| > 0 {
      var p1 := AddReference(p, refs[0]);
      AddReferencesEffect(p1, refs[1..]);
      forall i | 0 <= i < |p.slots| ensures
        AddAll(p, refs).slots[i].references == p.slots[i].references + Naming(refs, i)
      {
        NamingCons(refs, i);
      }
    }
  }

  /** The bulk detach removes from each slot exactly the referrers that name it. */
  lemma {:induction false} RemoveReferencesEffect(p: Pool, refs: seq<Option<ReferenceItem>>)
    ensures var q := RemoveReferences(p, Some(refs));
      && |q.slots| == |p.slots| && q.uniqueMap == p.uniqueMap && q.countStrings == p.countStrings
      && forall i :: 0 <= i < |p.slots| ==>
           q.slots[i].html == p.slots[i].html &&
           q.slots[i].references == p.slots[i].references - Naming(refs, i)
    decreases |refs|
  {
    if |refs| > 0 {
      var p1 := RemoveReference(p, refs[0]).0;
      RemoveReferencesEffect(p1, refs[1..]);
      forall i | 0 <= i < |p.slots| ensures
        RemoveAll(p, refs).slots[i].references == p.slots[i].references - Naming(refs, i)
      {
        NamingCons(refs, i);
      }
    }
  }

  // ---------------------------------------------------------------------
  // Header flags

  function IsUtf8Flag(p: Pool): bool
  {
    p.flagUtf8 & FLAG_UTF8 != 0
  }

  /** `setUtf8(is_utf8, updateAll)`: writes the flag word; the strings are
      re-encoded (the second component) only when updateAll is set and the
      flag bit actually changed. */
  function SetUtf8(p: Pool, isUtf8: bool, updateAll: bool): (r: (Pool, bool))
    ensures r.0.flagUtf8 == (if isUtf8 then 0x0100 else 0)
    ensures IsUtf8Flag(r.0) == isUtf8
    ensures r.1 <==> updateAll && IsUtf8Flag(p) != isUtf8
    ensures r.1 ==> r.0.arrayUtf8 == isUtf8
    ensures !r.1 ==> r.0.arrayUtf8 == p.arrayUtf8
    ensures r.0.slots == p.slots && r.0.uniqueMap == p.uniqueMap && r.0.countStrings == p.countStrings
    ensures r.0.flagSorted == p.flagSorted
  {
    var wasUtf8 := IsUtf8Flag(p);
    var q := p.(flagUtf8 := if isUtf8 then UTF8_FLAG_VALUE else 0);
    if !updateAll || wasUtf8 == IsUtf8Flag(q) then (q, false)
    else (q.(arrayUtf8 := isUtf8), true)
  }

  /** The public `setUtf8(is_utf8)` always asks for re-encoding; a repeated
      call therefore re-encodes nothing. */
  lemma SetUtf8Twice(p: Pool, isUtf8: bool)
    ensures var q := SetUtf8(p, isUtf8, true).0;
      SetUtf8(q, isUtf8, true) == (q, false)
  {
  }

  /** The block whose load notifies the pool: the header's UTF-8 flag word,
      on which the constructor registers, or any other block. */
  datatype LoadSender = FlagUtf8Block | OtherBlock

  /** `onBlockLoaded`: when the sender is the UTF-8 flag word, the array
      follows the flag read; any other sender changes nothing. */
  function OnFlagUtf8Loaded(p: Pool, sender: LoadSender): (q: Pool)
    ensures sender.FlagUtf8Block? ==> (q.arrayUtf8 <==> p.flagUtf8 & 0x0100 != 0)
    ensures sender.OtherBlock? ==> q == p
    ensures q == p.(arrayUtf8 := q.arrayUtf8)
  {
    if sender == FlagUtf8Block then p.(arrayUtf8 := IsUtf8Flag(p)) else p
  }

  /** `setSorted`: the sorted flag word becomes 0x0100 or 0. */
  function SetSorted(p: Pool, sorted: bool): (q: Pool)
    ensures q.flagSorted == 0x0100 <==> sorted
    ensures q.flagSorted == 0 <==> !sorted
    ensures q == p.(flagSorted := q.flagSorted)
  {
    p.(flagSorted := if sorted then FLAG_SORTED else 0)
  }
}
