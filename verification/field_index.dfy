/** A DEX `field_id_item` (`FieldIndex`): eight bytes holding the defining
    class's type index (u16 at offset 0), the field's type index (u16 at
    offset 2) and its name's string index (32 bits at offset 4), as in
    the field_id_item section of the Dalvik Executable format. */
module FieldIndex {
  import opened Bytes
  import opened Common

  const ITEM_SIZE: nat := 8

  type Bytes8 = b: seq<byte> | |b| == ITEM_SIZE witness [0, 0, 0, 0, 0, 0, 0, 0]

  datatype FieldIdItem = FieldIdItem(bytes: Bytes8)

  /** A new record: eight zero bytes. */
  function New(): (r: FieldIdItem)
    ensures GetClassIndex(r) == 0 && GetTypeIndex(r) == 0 && GetNameIndex(r) == 0
  {
    var z := PutShort(0) + PutShort(0) + PutInteger(0);
    assert z[0..2] == PutShort(0) && z[2..4] == PutShort(0) && z[4..8] == PutInteger(0);
    ShortRoundTrip(0);
    IntegerRoundTrip(0);
    FieldIdItem(z)
  }

  /** `getClassIndex`: the u16 at offset 0. */
  function GetClassIndex(f: FieldIdItem): (r: int)
    ensures 0 <= r < 0x1_0000
  {
    GetUShort(f.bytes[0..2])
  }

  /** `getTypeIndex`: the u16 at offset 2. */
  function GetTypeIndex(f: FieldIdItem): (r: int)
    ensures 0 <= r < 0x1_0000
  {
    GetUShort(f.bytes[2..4])
  }

  /** `getNameIndex`: the int at offset 4. */
  function GetNameIndex(f: FieldIdItem): int32
  {
    GetInteger(f.bytes[4..8])
  }

  /** `setClassIndex`: the index is cast to a Java short and written at
      offset 0; the other fields keep their bytes. */
  function SetClassIndex(f: FieldIdItem, index: int32): (r: FieldIdItem)
    ensures GetClassIndex(r) == index as int % 0x1_0000
    ensures GetTypeIndex(r) == GetTypeIndex(f) && GetNameIndex(r) == GetNameIndex(f)
    ensures r.bytes[2..] == f.bytes[2..]
  {
    var b := PutShort(index as int) + f.bytes[2..];
    assert b[0..2] == PutShort(index as int);
    assert b[2..4] == f.bytes[2..4] && b[4..8] == f.bytes[4..8];
    ShortRoundTrip(index as int);
    FieldIdItem(b)
  }

  /** `setTypeIndex`: the index is cast to a Java short and written at
      offset 2. */
  function SetTypeIndex(f: FieldIdItem, index: int32): (r: FieldIdItem)
    ensures GetTypeIndex(r) == index as int % 0x1_0000
    ensures GetClassIndex(r) == GetClassIndex(f) && GetNameIndex(r) == GetNameIndex(f)
    ensures r.bytes[..2] == f.bytes[..2] && r.bytes[4..] == f.bytes[4..]
  {
    var b := f.bytes[..2] + PutShort(index as int) + f.bytes[4..];
    assert b[2..4] == PutShort(index as int);
    assert b[0..2] == f.bytes[0..2] && b[4..8] == f.bytes[4..8];
    ShortRoundTrip(index as int);
    FieldIdItem(b)
  }

  /** `setNameIndex`: the int written at offset 4. */
  function SetNameIndex(f: FieldIdItem, index: int32): (r: FieldIdItem)
    ensures GetNameIndex(r) == index
    ensures GetClassIndex(r) == GetClassIndex(f) && GetTypeIndex(r) == GetTypeIndex(f)
    ensures r.bytes[..4] == f.bytes[..4]
  {
    var b := f.bytes[..4] + PutInteger(index as int);
    assert b[4..8] == PutInteger(index as int);
    assert b[0..2] == f.bytes[0..2] && b[2..4] == f.bytes[2..4];
    IntegerRoundTrip(index);
    FieldIdItem(b)
  }

  /** Writing a field's own value back leaves the record as it was: each
      field's bytes are determined by its value. */
  lemma SetOwnValues(f: FieldIdItem)
    ensures SetClassIndex(f, GetClassIndex(f) as int32) == f
    ensures SetTypeIndex(f, GetTypeIndex(f) as int32) == f
    ensures SetNameIndex(f, GetNameIndex(f)) == f
  {
    SetOwnClassIndex(f);
    SetOwnTypeIndex(f);
    SetOwnNameIndex(f);
  }

  lemma SetOwnClassIndex(f: FieldIdItem)
    ensures SetClassIndex(f, GetClassIndex(f) as int32) == f
  {
    var v := GetClassIndex(f);
    var g := SetClassIndex(f, v as int32);
    assert v % 0x1_0000 == v;
    assert GetClassIndex(g) == v;
    UShortDeterminesBytes(g.bytes[0..2], f.bytes[0..2]);
    assert g.bytes == g.bytes[0..2] + g.bytes[2..];
    assert f.bytes == f.bytes[0..2] + f.bytes[2..];
  }

  lemma SetOwnTypeIndex(f: FieldIdItem)
    ensures SetTypeIndex(f, GetTypeIndex(f) as int32) == f
  {
    var v := GetTypeIndex(f);
    var g := SetTypeIndex(f, v as int32);
    assert v % 0x1_0000 == v;
    assert GetTypeIndex(g) == v;
    UShortDeterminesBytes(g.bytes[2..4], f.bytes[2..4]);
    assert g.bytes == g.bytes[..2] + g.bytes[2..4] + g.bytes[4..];
    assert f.bytes == f.bytes[..2] + f.bytes[2..4] + f.bytes[4..];
  }

  lemma SetOwnNameIndex(f: FieldIdItem)
    ensures SetNameIndex(f, GetNameIndex(f)) == f
  {
    var g := SetNameIndex(f, GetNameIndex(f));
    IntegerDeterminesBytes(g.bytes[4..8], f.bytes[4..8]);
    assert g.bytes == g.bytes[..4] + g.bytes[4..8];
    assert f.bytes == f.bytes[..4] + f.bytes[4..8];
  }

  lemma UShortDeterminesBytes(a: seq<byte>, b: seq<byte>)
    requires |a| == 2 && |b| == 2 && GetUShort(a) == GetUShort(b)
    ensures a == b
  {
  }

  lemma IntegerDeterminesBytes(a: seq<byte>, b: seq<byte>)
    requires |a| == 4 && |b| == 4 && GetInteger(a) == GetInteger(b)
    ensures a == b
  {
    assert GetUInteger(a) == GetUInteger(b);
    HalvesOfUInteger(a, b);
    UShortDeterminesBytes(a[..2], b[..2]);
    UShortDeterminesBytes(a[2..], b[2..]);
    assert a == a[..2] + a[2..];
    assert b == b[..2] + b[2..];
  }

  /** Equal unsigned 32-bit values have equal 16-bit halves. */
  lemma HalvesOfUInteger(a: seq<byte>, b: seq<byte>)
    requires |a| == 4 && |b| == 4 && GetUInteger(a) == GetUInteger(b)
    ensures GetUShort(a[..2]) == GetUShort(b[..2]) && GetUShort(a[2..]) == GetUShort(b[2..])
  {
    SplitWord(GetUShort(a[..2]), GetUShort(a[2..]));
    SplitWord(GetUShort(b[..2]), GetUShort(b[2..]));
  }

  lemma SplitWord(low: int, high: int)
    requires 0 <= low < 0x1_0000
    ensures (low + 0x1_0000 * high) / 0x1_0000 == high
    ensures (low + 0x1_0000 * high) % 0x1_0000 == low
  {
  }

  /** The section lookups `getKey` goes through: a type index to its
      `TypeIndex`, a type to its descriptor's `StringIndex`, a string index
      to its `StringIndex`, and a `StringIndex` to its text. */
  datatype Lookups<!T, !S> = Lookups(
    typeAt: int -> Option<T>,
    stringOfType: T -> Option<S>,
    stringAt: int -> Option<S>,
    text: S -> Option<string>)

  /** What `StringBuilder.append` adds for a possibly null string. */
  function Appended(s: Option<string>): string
  {
    match s
    case Some(t) => t
    case None => "null"
  }

  /** The descriptor string of the type at an index, if both steps resolve. */
  function TypeDescriptor<T, S>(env: Lookups<T, S>, index: int): Option<S>
  {
    match env.typeAt(index)
    case None => None
    case Some(t) => env.stringOfType(t)
  }

  /** `getKey`: "class->name:type" from the three indices, or null as soon
      as one of the lookups comes back null. */
  function GetKey<T, S>(env: Lookups<T, S>, f: FieldIdItem): (r: Option<string>)
    ensures r.Some? <==> TypeDescriptor(env, GetClassIndex(f)).Some? &&
                         env.stringAt(GetNameIndex(f) as int).Some? &&
                         TypeDescriptor(env, GetTypeIndex(f)).Some?
    ensures r.Some? ==>
              r.value == Appended(env.text(TypeDescriptor(env, GetClassIndex(f)).value)) + "->" +
                         Appended(env.text(env.stringAt(GetNameIndex(f) as int).value)) + ":" +
                         Appended(env.text(TypeDescriptor(env, GetTypeIndex(f)).value))
  {
    match TypeDescriptor(env, GetClassIndex(f))
    case None => None
    case Some(cls) =>
      match env.stringAt(GetNameIndex(f) as int)
      case None => None
      case Some(name) =>
        match TypeDescriptor(env, GetTypeIndex(f))
        case None => None
        case Some(typ) => Some(Appended(env.text(cls)) + "->" + Appended(env.text(name)) + ":" + Appended(env.text(typ)))
  }

  /** A record built by the three setters keys on the indices given to
      them, the two type indices taken modulo 2^16. */
  lemma KeyOfSetIndices<T, S>(env: Lookups<T, S>, f: FieldIdItem, cls: int32, typ: int32, name: int32)
    ensures var g := SetNameIndex(SetTypeIndex(SetClassIndex(f, cls), typ), name);
            GetKey(env, g).Some? <==> TypeDescriptor(env, cls as int % 0x1_0000).Some? &&
                                      env.stringAt(name as int).Some? &&
                                      TypeDescriptor(env, typ as int % 0x1_0000).Some?
  {
  }
}
