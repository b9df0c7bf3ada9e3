/** A style/bag item of a resource table (`ResValueMap`, an `AttributeValue`):
    a 32-bit name word, a value type and a 32-bit data word, with name
    decoding and encoding against a resource table that is supplied from
    outside. */
module ResValueMap {
  import opened Common

  /** The value-type byte of a value item; only NULL and DEC matter here. */
  datatype ValueType = Null | Dec | OtherValueType(code: nat)

  /** An attribute type (`AttributeType`): its name id and its name. */
  datatype AttributeType = AttributeType(id: bv32, name: string)

  /** One attribute data format, as its bit mask. */
  datatype DataFormat = DataFormat(mask: bv32)

  /** The record: the name word, the value type and the data word. */
  datatype ValueMap = ValueMap(name: bv32, valueType: ValueType, data: bv32)

  /** A resolved resource: id, owning package (by identity, absent when
      detached), whether it is declared, its entry name and its package name. */
  datatype ResourceEntry = ResourceEntry(
    resourceId: bv32, package: Option<nat>, declared: bool,
    name: string, packageName: Option<string>)

  /** Everything the record consults but does not define: package and table
      lookups, the value coder and the attribute-format helpers. */
  datatype Env = Env(
    ownPackage: Option<nat>,
    isResourceId: bv32 -> bool,
    attributeTypeOf: bv32 -> Option<AttributeType>,
    formats: AttributeType,
    resolve: bv32 -> Option<ResourceEntry>,
    decodeUnknownResourceId: bv32 -> Option<string>,
    splitPrefix: Option<string> -> Option<string>,
    splitName: Option<string> -> Option<string>,
    encodeUnknownNameId: Option<string> -> Option<bv32>,
    getAttrResource: (Option<nat>, Option<string>, Option<string>) -> Option<ResourceEntry>,
    getIdResource: (Option<nat>, Option<string>, Option<string>) -> Option<ResourceEntry>,
    isIntegerType: ValueType -> bool,
    formatsToString: bv32 -> Option<string>,
    decodeAttributeData: (ResourceEntry, bv32) -> Option<string>,
    genericDecode: ValueMap -> Option<string>,
    sumFormats: seq<DataFormat> -> bv32,
    baseMerge: (ValueMap, ValueMap) -> ValueMap)

  // ---------------------------------------------------------------- words

  /** The upper and lower halves of a word, each as a word below 2^16. */
  function High(w: bv32): bv32 { w >> 16 }
  function Low(w: bv32): bv32 { w & 0xFFFF }

  /** A Java short as its 16 bits (`val & 0xffff`). */
  function Bits(v: bv16): bv32 { v as bv32 }

  /** A word is determined by its two halves. */
  lemma HalvesDetermineWord(a: bv32, b: bv32)
    requires High(a) == High(b) && Low(a) == Low(b)
    ensures a == b
  {
    WordFromHalves(a);
    WordFromHalves(b);
  }

  lemma WordFromHalves(a: bv32)
    ensures a == ((a >> 16) << 16) | (a & 0xFFFF)
  {
  }

  /** Replaces the upper half of a word. */
  function SpliceHigh(w: bv32, v: bv16): (r: bv32)
    ensures High(r) == Bits(v) && Low(r) == Low(w)
  {
    (Bits(v) << 16) | (w & 0xFFFF)
  }

  /** Replaces the lower half of a word. */
  function SpliceLow(w: bv32, v: bv16): (r: bv32)
    ensures Low(r) == Bits(v) && High(r) == High(w)
  {
    Bits(v) | (w & 0xFFFF0000)
  }

  /** Every bit of mask is set in w. */
  predicate Includes(w: bv32, mask: bv32)
  {
    w & mask == mask
  }

  /** ORs a mask into a word: only ever sets bits, so both survive. */
  function SetBits(w: bv32, mask: bv32): (r: bv32)
    ensures Includes(r, w) && Includes(r, mask)
  {
    OrIncludesLeft(w, mask);
    OrIncludesRight(w, mask);
    w | mask
  }

  lemma OrIncludesLeft(a: bv32, b: bv32)
    ensures Includes(a | b, a)
  {
  }

  lemma OrIncludesRight(a: bv32, b: bv32)
    ensures Includes(a | b, b)
  {
  }

  function SetNameHigh(m: ValueMap, v: bv16): (r: ValueMap)
    ensures High(r.name) == Bits(v) && Low(r.name) == Low(m.name)
    ensures r.valueType == m.valueType && r.data == m.data
  {
    m.(name := SpliceHigh(m.name, v))
  }

  function SetNameLow(m: ValueMap, v: bv16): (r: ValueMap)
    ensures Low(r.name) == Bits(v) && High(r.name) == High(m.name)
    ensures r.valueType == m.valueType && r.data == m.data
  {
    m.(name := SpliceLow(m.name, v))
  }

  function SetDataHigh(m: ValueMap, v: bv16): (r: ValueMap)
    ensures High(r.data) == Bits(v) && Low(r.data) == Low(m.data)
    ensures r.valueType == m.valueType && r.name == m.name
  {
    m.(data := SpliceHigh(m.data, v))
  }

  function SetDataLow(m: ValueMap, v: bv16): (r: ValueMap)
    ensures Low(r.data) == Bits(v) && High(r.data) == High(m.data)
    ensures r.valueType == m.valueType && r.name == m.name
  {
    m.(data := SpliceLow(m.data, v))
  }

  /** Writing a word's own upper half back leaves the record as it was. */
  lemma SetNameHighOwnHalf(m: ValueMap)
    ensures SetNameHigh(m, (m.name >> 16) as bv16) == m
  {
    SpliceHighOwn(m.name);
  }

  /** Writing a word's own lower half back leaves the record as it was. */
  lemma SetNameLowOwnHalf(m: ValueMap)
    ensures SetNameLow(m, (m.name & 0xFFFF) as bv16) == m
  {
    SpliceLowOwn(m.name);
  }

  /** A half of a word survives the round trip through a Java short. */
  lemma HighThroughShort(w: bv32)
    ensures Bits((w >> 16) as bv16) == High(w)
  {
  }

  lemma LowThroughShort(w: bv32)
    ensures Bits((w & 0xFFFF) as bv16) == Low(w)
  {
  }

  lemma SpliceHighOwn(w: bv32)
    ensures SpliceHigh(w, (w >> 16) as bv16) == w
  {
    HighThroughShort(w);
    HalvesDetermineWord(SpliceHigh(w, (w >> 16) as bv16), w);
  }

  lemma SpliceLowOwn(w: bv32)
    ensures SpliceLow(w, (w & 0xFFFF) as bv16) == w
  {
    LowThroughShort(w);
    HalvesDetermineWord(SpliceLow(w, (w & 0xFFFF) as bv16), w);
  }

  /** The two halves are independent: the splices commute. */
  lemma SplicesCommute(m: ValueMap, hi: bv16, lo: bv16)
    ensures SetNameLow(SetNameHigh(m, hi), lo) == SetNameHigh(SetNameLow(m, lo), hi)
    ensures SetDataLow(SetDataHigh(m, hi), lo) == SetDataHigh(SetDataLow(m, lo), hi)
  {
    HalvesDetermineWord(SetNameLow(SetNameHigh(m, hi), lo).name,
                        SetNameHigh(SetNameLow(m, lo), hi).name);
    HalvesDetermineWord(SetDataLow(SetDataHigh(m, hi), lo).data,
                        SetDataHigh(SetDataLow(m, lo), hi).data);
  }

  // ------------------------------------------------------------- decoding

  function GetAttributeType(env: Env, m: ValueMap): Option<AttributeType>
  {
    env.attributeTypeOf(m.name)
  }

  /** Whether `decodeName` prefixes the entry's package name. */
  predicate PrefixApplies(env: Env, e: ResourceEntry, includePrefix: bool)
  {
    includePrefix && e.package != env.ownPackage && e.packageName.Some?
  }

  /** `decodeName(includePrefix)`: a name word that is not resource-id shaped
      names an attribute type (or nothing); an unresolved or undeclared id is
      rendered by the value coder; otherwise the entry name, prefixed with
      "package:" for a foreign package when asked. */
  function DecodeName(env: Env, m: ValueMap, includePrefix: bool): (r: Option<string>)
    ensures !env.isResourceId(m.name) ==>
              (r.Some? <==> env.attributeTypeOf(m.name).Some?) &&
              (r.Some? ==> r.value == env.attributeTypeOf(m.name).value.name)
    ensures env.isResourceId(m.name) &&
            (env.resolve(m.name).None? || !env.resolve(m.name).value.declared) ==>
              r == env.decodeUnknownResourceId(m.name)
    ensures env.isResourceId(m.name) && env.resolve(m.name).Some? && env.resolve(m.name).value.declared ==>
              var e := env.resolve(m.name).value;
              r.Some? && |e.name| <= |r.value| && r.value[|r.value| - |e.name|..] == e.name &&
              (|r.value| != |e.name| <==> PrefixApplies(env, e, includePrefix))
  {
    var id := m.name;
    if !env.isResourceId(id) then
      match GetAttributeType(env, m)
      case Some(t) => Some(t.name)
      case None => None
    else
      match env.resolve(id)
      case None => env.decodeUnknownResourceId(id)
      case Some(e) =>
        if !e.declared then env.decodeUnknownResourceId(id)
        else if PrefixApplies(env, e, includePrefix) then
          var s := e.packageName.value + ":" + e.name;
          assert s[|s| - |e.name|..] == e.name;
          Some(s)
        else Some(e.name)
  }

  /** `decodeName()` is `decodeName(true)`. */
  function DecodeNameDefault(env: Env, m: ValueMap): Option<string>
  {
    DecodeName(env, m, true)
  }

  /** A name word that is not resource-id shaped decodes the same whatever
      the resolver answers. */
  lemma DecodeNameIgnoresResolver(env: Env, m: ValueMap, resolve': bv32 -> Option<ResourceEntry>, includePrefix: bool)
    requires !env.isResourceId(m.name)
    ensures DecodeName(env, m, includePrefix) == DecodeName(env.(resolve := resolve'), m, includePrefix)
  {
  }

  /** `decodePrefix`: the package name of the resolved name, unless the name
      does not resolve or resolves into this record's own package. */
  function DecodePrefix(env: Env, m: ValueMap): (r: Option<string>)
    ensures env.resolve(m.name).None? ==> r.None?
    ensures r.Some? ==> env.resolve(m.name).Some? &&
                        env.resolve(m.name).value.package != env.ownPackage &&
                        r == env.resolve(m.name).value.packageName
    ensures env.resolve(m.name).Some? && env.resolve(m.name).value.package != env.ownPackage ==>
              r == env.resolve(m.name).value.packageName
  {
    match env.resolve(m.name)
    case None => None
    case Some(e) => if env.ownPackage == e.package then None else e.packageName
  }

  /** The prefix `decodeName()` puts in front of a declared foreign name is
      exactly `decodePrefix`, and without a prefix both agree with
      `decodeName(false)`. */
  lemma DecodeNameUsesDecodePrefix(env: Env, m: ValueMap)
    requires env.isResourceId(m.name)
    requires env.resolve(m.name).Some? && env.resolve(m.name).value.declared
    ensures var e := env.resolve(m.name).value;
            DecodeName(env, m, false) == Some(e.name) &&
            (DecodePrefix(env, m).Some? ==> DecodeNameDefault(env, m) == Some(DecodePrefix(env, m).value + ":" + e.name)) &&
            (DecodePrefix(env, m).None? ==> DecodeNameDefault(env, m) == Some(e.name))
  {
  }

  /** The attribute-format rendering of the data word, only for a record
      whose name is the FORMATS attribute type. */
  function DecodeDataAsAttrFormats(env: Env, m: ValueMap): (r: Option<string>)
    ensures GetAttributeType(env, m) != Some(env.formats) ==> r.None?
    ensures GetAttributeType(env, m) == Some(env.formats) ==> r == env.formatsToString(m.data)
  {
    if GetAttributeType(env, m) != Some(env.formats) then None
    else env.formatsToString(m.data)
  }

  /** The resolved name attribute's own rendering of the data word. */
  function DecodeDataAsAttr(env: Env, m: ValueMap): (r: Option<string>)
    ensures env.resolve(m.name).None? ==> r.None?
    ensures env.resolve(m.name).Some? ==> r == env.decodeAttributeData(env.resolve(m.name).value, m.data)
  {
    match env.resolve(m.name)
    case None => None
    case Some(e) => env.decodeAttributeData(e, m.data)
  }

  /** `decodeValue`: for integer value types, the format rendering first,
      then the attribute's rendering, and the generic decoding only when
      both give nothing; other value types decode generically. */
  function DecodeValue(env: Env, m: ValueMap): (r: Option<string>)
    ensures !env.isIntegerType(m.valueType) ==> r == env.genericDecode(m)
    ensures env.isIntegerType(m.valueType) && DecodeDataAsAttrFormats(env, m).Some? ==>
              r == DecodeDataAsAttrFormats(env, m)
    ensures (env.isIntegerType(m.valueType) && DecodeDataAsAttrFormats(env, m).None? &&
             DecodeDataAsAttr(env, m).Some?) ==> r == DecodeDataAsAttr(env, m)
    ensures (env.isIntegerType(m.valueType) && DecodeDataAsAttrFormats(env, m).None? &&
             DecodeDataAsAttr(env, m).None?) ==> r == env.genericDecode(m)
  {
    if env.isIntegerType(m.valueType) then
      var formats := DecodeDataAsAttrFormats(env, m);
      var value := if formats.None? then DecodeDataAsAttr(env, m) else formats;
      if value.Some? then value else env.genericDecode(m)
    else env.genericDecode(m)
  }

  /** Whatever `decodeValue` returns comes from one of the three decoders,
      and the generic decoder is used whenever the value type is not an
      integer type. */
  lemma DecodeValueSource(env: Env, m: ValueMap)
    ensures DecodeValue(env, m) == DecodeDataAsAttrFormats(env, m) ||
            DecodeValue(env, m) == DecodeDataAsAttr(env, m) ||
            DecodeValue(env, m) == env.genericDecode(m)
    ensures DecodeValue(env, m) != env.genericDecode(m) ==> env.isIntegerType(m.valueType)
  {
  }

  // ------------------------------------------------------------- updating

  /** `setAttributeType`: the name word becomes the type's id; only a FORMATS
      type on a NULL-typed record switches the value type, to DEC. */
  function SetAttributeType(env: Env, m: ValueMap, t: AttributeType): (r: ValueMap)
    ensures r.name == t.id && r.data == m.data
    ensures r.valueType != m.valueType <==> t == env.formats && m.valueType == Null
    ensures r.valueType != m.valueType ==> r.valueType == Dec
  {
    var n := m.(name := t.id);
    if t == env.formats && m.valueType == Null then n.(valueType := Dec) else n
  }

  /** When the attribute-type table maps each type's id back to the type,
      the type that was set is the type read back. */
  lemma SetThenGetAttributeType(env: Env, m: ValueMap, t: AttributeType)
    requires env.attributeTypeOf(t.id) == Some(t)
    ensures GetAttributeType(env, SetAttributeType(env, m, t)) == Some(t)
  {
  }

  /** `addAttributeTypeFormats`: null is a no-op; otherwise the formats' sum
      is ORed into the data word and a NULL value type becomes DEC. */
  function AddAttributeTypeFormats(env: Env, m: ValueMap, formats: Option<seq<DataFormat>>): (r: ValueMap)
    ensures formats.None? ==> r == m
    ensures r.name == m.name && Includes(r.data, m.data)
    ensures formats.Some? ==> Includes(r.data, env.sumFormats(formats.value))
    ensures formats.Some? ==> Includes(m.data | env.sumFormats(formats.value), r.data)
    ensures r.valueType != m.valueType <==> formats.Some? && m.valueType == Null
    ensures r.valueType != m.valueType ==> r.valueType == Dec
  {
    match formats
    case None => m
    case Some(fs) =>
      ValueMap(m.name, NullToDec(m.valueType), SetBits(m.data, env.sumFormats(fs)))
  }

  /** A NULL value type becomes DEC; any other stays. */
  function NullToDec(t: ValueType): (r: ValueType)
    ensures r != t <==> t == Null
    ensures r != t ==> r == Dec
  {
    if t == Null then Dec else t
  }

  /** `addAttributeTypeFormat`: null is a no-op; otherwise the mask is ORed
      into the data word and the value type is left alone. */
  function AddAttributeTypeFormat(m: ValueMap, format: Option<DataFormat>): (r: ValueMap)
    ensures format.None? ==> r == m
    ensures r.name == m.name && r.valueType == m.valueType
    ensures Includes(r.data, m.data)
    ensures format.Some? ==> Includes(r.data, format.value.mask)
    ensures format.Some? ==> Includes(m.data | format.value.mask, r.data)
  {
    match format
    case None => m
    case Some(f) =>
      m.(data := SetBits(m.data, f.mask))
  }

  /** Adding formats only ever sets bits, so adding the same ones again
      changes nothing. */
  lemma AddFormatsIdempotent(env: Env, m: ValueMap, formats: Option<seq<DataFormat>>, format: Option<DataFormat>)
    ensures AddAttributeTypeFormats(env, AddAttributeTypeFormats(env, m, formats), formats) ==
            AddAttributeTypeFormats(env, m, formats)
    ensures AddAttributeTypeFormat(AddAttributeTypeFormat(m, format), format) ==
            AddAttributeTypeFormat(m, format)
  {
  }

  /** The argument of `merge`: this very record, another `ResValueMap`, or
      a value item of some other kind. */
  datatype MergeSource = Itself | OtherMap(other: ValueMap) | OtherValueItem

  /** `merge`: a no-op for itself or another kind of value item; otherwise
      the base value-item merge followed by copying the other's name word. */
  function Merge(env: Env, m: ValueMap, source: MergeSource): (r: ValueMap)
    ensures !source.OtherMap? ==> r == m
    ensures source.OtherMap? ==> r.name == source.other.name
    ensures source.OtherMap? ==> r.valueType == env.baseMerge(m, source.other).valueType &&
                                 r.data == env.baseMerge(m, source.other).data
  {
    match source
    case OtherMap(o) => env.baseMerge(m, o).(name := o.name)
    case _ => m
  }

  // ------------------------------------------------------------- encoding

  /** What `encodeAttrName`/`encodeIdName` return: null, a new entry for a
      well-known name id in this record's package, or the table's entry. */
  datatype EncodeOutcome = NotEncoded | WellKnown(id: bv32) | Found(entry: ResourceEntry)

  /** Which table a name is encoded against. */
  datatype NameKind = AttrName | IdName

  /** Whether a null prefix may still be looked up; false in this class. */
  const AllowNullPrefixEncode: bool := false

  function TableLookup(env: Env, kind: NameKind): (Option<nat>, Option<string>, Option<string>) -> Option<ResourceEntry>
  {
    match kind
    case AttrName => env.getAttrResource
    case IdName => env.getIdResource
  }

  /** `encodeAttrName(prefix, name)` / `encodeIdName(prefix, name)`: a null
      name gives null; a missing prefix is split off the name; a well-known
      name id is set without a lookup; a still-missing prefix gives null; a
      table lookup on a detached record fails with a null dereference;
      otherwise the looked-up entry's id is set when there is one. The
      record is changed only when an id is returned. */
  function EncodeName(env: Env, m: ValueMap, kind: NameKind, prefix: Option<string>, name: Option<string>)
    : (r: Result<(ValueMap, EncodeOutcome), string>)
    ensures name.None? ==> r == Success((m, NotEncoded))
    ensures r.Success? && r.value.1.NotEncoded? ==> r.value.0 == m
    ensures r.Success? && r.value.1.WellKnown? ==> r.value.0 == m.(name := r.value.1.id)
    ensures r.Success? && r.value.1.Found? ==> r.value.0 == m.(name := r.value.1.entry.resourceId)
    ensures name.Some? && env.encodeUnknownNameId(env.splitName(name)).Some? ==>
              r == Success((m.(name := env.encodeUnknownNameId(env.splitName(name)).value),
                            WellKnown(env.encodeUnknownNameId(env.splitName(name)).value)))
    ensures r.Success? && r.value.1.Found? ==>
              name.Some? && env.encodeUnknownNameId(env.splitName(name)).None? &&
              Some(r.value.1.entry) ==
                TableLookup(env, kind)(env.ownPackage,
                                       if prefix.None? then env.splitPrefix(name) else prefix,
                                       env.splitName(name))
    ensures r.Success? && r.value.1.WellKnown? ==>
              name.Some? && env.encodeUnknownNameId(env.splitName(name)) == Some(r.value.1.id)
    ensures r.Failure? ==> env.ownPackage.None?
    ensures name.Some? && env.encodeUnknownNameId(env.splitName(name)).None? &&
            prefix.None? && env.splitPrefix(name).None? ==>
              r == Success((m, NotEncoded))
    ensures name.Some? && env.encodeUnknownNameId(env.splitName(name)).None? &&
            (prefix.Some? || env.splitPrefix(name).Some?) && env.ownPackage.None? ==>
              r.Failure?
    ensures name.Some? && env.encodeUnknownNameId(env.splitName(name)).None? &&
            (prefix.Some? || env.splitPrefix(name).Some?) && env.ownPackage.Some? ==>
              var found := TableLookup(env, kind)(env.ownPackage,
                                                  if prefix.None? then env.splitPrefix(name) else prefix,
                                                  env.splitName(name));
              && (found.None? ==> r == Success((m, NotEncoded)))
              && (found.Some? ==> r == Success((m.(name := found.value.resourceId), Found(found.value))))
  {
    if name.None? then Success((m, NotEncoded))
    else
      var prefix' := if prefix.None? then env.splitPrefix(name) else prefix;
      var name' := env.splitName(name);
      match env.encodeUnknownNameId(name')
      case Some(id) => Success((m.(name := id), WellKnown(id)))
      case None =>
        if prefix'.None? && !AllowNullPrefixEncode then Success((m, NotEncoded))
        else if env.ownPackage.None? then Failure("NullPointerException")
        else
          match TableLookup(env, kind)(env.ownPackage, prefix', name')
          case Some(e) => Success((m.(name := e.resourceId), Found(e)))
          case None => Success((m, NotEncoded))
  }

  function EncodeAttrName(env: Env, m: ValueMap, prefix: Option<string>, name: Option<string>)
    : Result<(ValueMap, EncodeOutcome), string>
  {
    EncodeName(env, m, AttrName, prefix, name)
  }

  function EncodeIdName(env: Env, m: ValueMap, prefix: Option<string>, name: Option<string>)
    : Result<(ValueMap, EncodeOutcome), string>
  {
    EncodeName(env, m, IdName, prefix, name)
  }

  /** The one-argument forms split prefix and name first. */
  function EncodeAttrNameSplit(env: Env, m: ValueMap, name: Option<string>)
    : Result<(ValueMap, EncodeOutcome), string>
  {
    EncodeAttrName(env, m, env.splitPrefix(name), env.splitName(name))
  }

  function EncodeIdNameSplit(env: Env, m: ValueMap, name: Option<string>)
    : Result<(ValueMap, EncodeOutcome), string>
  {
    EncodeIdName(env, m, env.splitPrefix(name), env.splitName(name))
  }

  /** With no prefix given and none to split off, a name that is not well
      known is not encoded and the record is unchanged. */
  lemma NullPrefixNotEncoded(env: Env, m: ValueMap, kind: NameKind, name: Option<string>)
    requires name.Some? && env.splitPrefix(name).None?
    requires env.encodeUnknownNameId(env.splitName(name)).None?
    ensures EncodeName(env, m, kind, None, name) == Success((m, NotEncoded))
  {
  }

  /** A well-known name is encoded the same whatever the tables hold. */
  lemma WellKnownSkipsTables(env: Env, m: ValueMap, kind: NameKind, prefix: Option<string>, name: Option<string>,
                             attrs: (Option<nat>, Option<string>, Option<string>) -> Option<ResourceEntry>,
                             ids: (Option<nat>, Option<string>, Option<string>) -> Option<ResourceEntry>)
    requires name.Some? && env.encodeUnknownNameId(env.splitName(name)).Some?
    ensures EncodeName(env, m, kind, prefix, name) ==
            EncodeName(env.(getAttrResource := attrs, getIdResource := ids), m, kind, prefix, name)
  {
  }

  /** Encoding then decoding: when the table's entry is declared and
      resolves back to itself, the record decodes to the entry's name (and,
      for an entry of this package, to the same name with a prefix asked). */
  lemma EncodeThenDecode(env: Env, m: ValueMap, kind: NameKind, prefix: Option<string>, name: Option<string>)
    requires EncodeName(env, m, kind, prefix, name).Success?
    requires EncodeName(env, m, kind, prefix, name).value.1.Found?
    requires var e := EncodeName(env, m, kind, prefix, name).value.1.entry;
             e.declared && env.isResourceId(e.resourceId) && env.resolve(e.resourceId) == Some(e)
    ensures var (m', out) := EncodeName(env, m, kind, prefix, name).value;
            DecodeName(env, m', false) == Some(out.entry.name) &&
            (out.entry.package == env.ownPackage ==> DecodeNameDefault(env, m') == Some(out.entry.name))
  {
  }
}
