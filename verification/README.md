# ARSCLib core, modelled in Dafny

This project models the core of ARSCLib, a Java library that reads and writes
Android resource tables (`resources.arsc`), binary XML and DEX files. Each
piece is modelled as immutable datatypes and pure functions, with its
properties proved:

- **String pool** (`string_pool.dfy`, `ordinal.dfy`). The pool is an array of
  string slots plus a lookup map from each text to the ascending slots that
  hold it. Bulk insertion sorts by `String.compareTo` and appends at the tail.
  `getOrCreate` appends at most one slot. References attach to and detach from
  slots. The UTF-8 and sorted flag words are modelled too.
- **Style item reference** (`style_item_reference.dfy`). The back-reference
  from one piece of a style span into the pool.
- **Style spans** (`style_element.dfy`). Start, end and length over a tree of
  text and element nodes; `appendChar` coalescing; `copyFrom`. Span text is
  a sequence of UTF-16 code units, as in a Java String, so offsets count a
  surrogate pair as two.
- **Bag values** (`res_value_map.dfy`, `res_value_map_array.dfy`):
  - `ResValueMap`: attribute-name decoding and encoding order, the 16-bit
    high/low splices of the name and data words, and the format-mask OR;
  - the value array's header count.
- **DEX records**:
  - `field_index.dfy`: the 8-byte `field_id_item`;
  - `class_data_item.dfy`: the out-of-line `class_data_item` read;
  - `dex_header.dfy`: the header, its 112-byte minimum and its trailing
    unknown block.
- **XML encode source** (`xml_encode_source.dfy`). Its
  not-encoded / cached / disposed life cycle.
- **Bag decoder dispatch** (`xml_bag_decoder.dfy`).

Shared pieces live in three files:

- `common.dfy`: `Option` stands for Java's null; `Result` stands for a thrown
  exception.
- `bytes.dfy`: little-endian packing.
- `ordinal.dfy`: Java's `String.compareTo` and sorting by it.

The model never gives an invented body to code it calls but cannot see. That
code becomes function-valued fields of an environment datatype, or a parameter:

- `StyleItem.getStringRef`/`setStringRef`;
- `PackageBlock.isResourceId`;
- `ValueCoder`;
- the table's attr/id lookups;
- `canDecode`;
- the `Ule128Item` and definition-array readers;
- the XML encoder;
- the CRC.

The string array and its items are the exception: they are modelled
directly, as a sequence of slots each holding a text and a set of
references, under the behaviour listed under "Assumptions about
collaborators" below.

All source paths below are relative to the repository root.

## Model

| member | source | states |
|---|---|---|
| Ordinal.CompareZeroIffEqual | src/main/java/com/reandroid/arsc/pool/StringPool.java:308-311 | the pool's comparator (`String.compareTo`) is zero exactly for equal strings |
| Ordinal.CompareAntiSymmetric | src/main/java/com/reandroid/arsc/pool/StringPool.java:308-311 | swapping the arguments negates the comparison |
| Ordinal.LessEqTransitive | src/main/java/com/reandroid/arsc/pool/StringPool.java:308-311 | the comparator's order is transitive, so it is a total order usable for sorting |
| Ordinal.Sort | src/main/java/com/reandroid/arsc/pool/StringPool.java:89 | the list insertion receives is sorted ascending by the comparator and is a permutation of the input |
| Ordinal.SortedUnique | src/main/java/com/reandroid/arsc/pool/StringPool.java:89 | two sorted permutations of the same strings are equal, so the sorted order does not depend on the sorting algorithm |
| Ordinal.SortPermutationInvariant | src/main/java/com/reandroid/arsc/pool/StringPool.java:89 | sorting gives the same list for any arrangement of the same strings |
| StringPool.LookupSound | src/main/java/com/reandroid/arsc/pool/StringPool.java:124-142 | the rebuilt lookup maps each non-null slot text to exactly the slots holding it, in ascending order, and has no other keys |
| StringPool.RefreshUniqueIdMap | src/main/java/com/reandroid/arsc/pool/StringPool.java:124-142 | the loop rebuilds the lookup from scratch over all slots, skipping empty ones, and leaves slots, count and flags alone |
| StringPool.FirstOfGroupIsLowest | src/main/java/com/reandroid/arsc/pool/StringPool.java:214-222 | the first slot of a text's group is the lowest slot holding that text |
| StringPool.Contains | src/main/java/com/reandroid/arsc/pool/StringPool.java:195-197 | with a sound lookup, `contains` holds exactly when some slot holds the text |
| StringPool.InsertStringList | src/main/java/com/reandroid/arsc/pool/StringPool.java:93-105 | the new slot array is the old one followed by one fresh slot per list entry, in list order, and the lookup is rebuilt sound |
| StringPool.InsertStrings | src/main/java/com/reandroid/arsc/pool/StringPool.java:106-122 | the returned map has exactly the listed strings as keys, each mapped to an appended slot that holds it; the slots appended are one fresh slot per entry in list order, and a string listed twice maps to its last occurrence; the string count and the flags are left alone |
| StringPool.InsertResultsLastOccurrence | src/main/java/com/reandroid/arsc/pool/StringPool.java:106-122 | a string listed twice maps to the slot of its last occurrence |
| StringPool.AddStrings | src/main/java/com/reandroid/arsc/pool/StringPool.java:74-92 | a null or empty collection changes nothing; otherwise slots are only appended, the header count is not written, and the lookup ends sound; nothing but the slots and the lookup changes |
| StringPool.AddStringsAppendsSorted | src/main/java/com/reandroid/arsc/pool/StringPool.java:78-91 | the appended slots are fresh and hold the caller's collection as it stands after the call, in ascending comparator order |
| StringPool.AddStringsListKeepsAll | src/main/java/com/reandroid/arsc/pool/StringPool.java:78-91 | for a non-HashSet collection the pool grows by its full size, duplicates and already-present strings included |
| StringPool.AddStringsHashSetSkipsPresent | src/main/java/com/reandroid/arsc/pool/StringPool.java:78-91 | for a HashSet, exactly the strings not yet present are appended, and the caller's set loses the present ones |
| StringPool.AddStringsListDuplicates | src/main/java/com/reandroid/arsc/pool/StringPool.java:78-91 | for every string x, adding the list [x, x] to a new pool gives two slots both holding x |
| StringPool.AddStringsListDuplicatesPresent | src/main/java/com/reandroid/arsc/pool/StringPool.java:78-91 | for every string x, adding the list [x] to a pool already holding x appends a second slot holding x |
| StringPool.AddStringsDeduplicated | src/main/java/com/reandroid/arsc/pool/StringPool.java:78-91 | the deduplicating addStrings only appends, keeps the lookup sound and changes nothing but the slots and the lookup |
| StringPool.AddStringsDeduplicatedNoDuplicates | src/main/java/com/reandroid/arsc/pool/StringPool.java:78-91 | with deduplication, a pool without duplicate texts stays without them |
| StringPool.AddStringsDeduplicatedGrowth | src/main/java/com/reandroid/arsc/pool/StringPool.java:78-91 | with deduplication, every given string ends up present and the pool grows by exactly the number of distinct absent ones |
| StringPool.GetOrCreate | src/main/java/com/reandroid/arsc/pool/StringPool.java:204-228 | returns the lowest slot holding the text, unchanged pool exactly when it was present; otherwise appends one fresh slot and sets the string count to the new length; the lookup stays sound and the flags are left alone |
| StringPool.GetOrCreateIdempotent | src/main/java/com/reandroid/arsc/pool/StringPool.java:204-222 | a second call with the same text returns the same slot and adds nothing |
| StringPool.Resolve | src/main/java/com/reandroid/arsc/pool/StringPool.java:198-200 | an index names a slot exactly when it lies within the array |
| StringPool.AddReference | src/main/java/com/reandroid/arsc/pool/StringPool.java:177-185 | a null reference or an index naming no slot changes nothing; otherwise only the named slot gains the reference |
| StringPool.RemoveReference | src/main/java/com/reandroid/arsc/pool/StringPool.java:166-176 | a null reference or an index naming no slot changes nothing and returns null; otherwise the named slot loses the reference and is returned |
| StringPool.AddThenRemoveRestores | src/main/java/com/reandroid/arsc/pool/StringPool.java:166-185 | adding a reference held by no slot and then removing it restores the pool |
| StringPool.AddReferencesEffect | src/main/java/com/reandroid/arsc/pool/StringPool.java:186-193 | after adding a list, each slot holds its old references plus those of the list that name it |
| StringPool.RemoveReferencesEffect | src/main/java/com/reandroid/arsc/pool/StringPool.java:158-165 | after removing a list, each slot holds its old references minus those of the list that name it |
| StringPool.SetUtf8 | src/main/java/com/reandroid/arsc/pool/StringPool.java:244-246 | the flag word becomes 0x0100 or 0; strings are re-encoded exactly when asked to and the flag's value actually changed |
| StringPool.SetUtf8Twice | src/main/java/com/reandroid/arsc/pool/StringPool.java:255-267 | setting the same UTF-8 value twice re-encodes nothing the second time |
| StringPool.OnFlagUtf8Loaded | src/main/java/com/reandroid/arsc/pool/StringPool.java:288-293 | when the loaded block is the UTF-8 flag word, the array's encoding follows bit 0x0100 of it; any other sender changes nothing; nothing but the array's encoding ever changes |
| StringPool.SetSorted | src/main/java/com/reandroid/arsc/pool/StringPool.java:247-254 | the sorted flag word becomes 0x0100 exactly when sorted and 0 otherwise; nothing else changes |
| StringPool.NewPool | src/main/java/com/reandroid/arsc/pool/StringPool.java:40-70 | a new pool has no slots, an empty lookup, a string count of 0, a clear sorted flag, and the requested UTF-8 encoding both in the flag word and in the string array |
| StyleItemReference.GetAfterSet | src/main/java/com/reandroid/arsc/item/StyleItemReference.java:27-34 | `get` and `set` address the same (item, piece) pair, so `get` after `set(v)` yields v whenever the style item stores string refs faithfully |
| StyleItemReference.SetLeavesOtherPieces | src/main/java/com/reandroid/arsc/item/StyleItemReference.java:27-30 | `set` writes only its own (item, piece) slot: any other reference reads what it read before |
| StyleItemReference.Equals | src/main/java/com/reandroid/arsc/item/StyleItemReference.java:43-58 | equality is reflexive and equal references have equal hash codes |
| StyleItemReference.EqualsIsIdentityOfSlot | src/main/java/com/reandroid/arsc/item/StyleItemReference.java:43-54 | two references are equal iff same style item and same piece; equality is symmetric and transitive; other objects are never equal |
| StyleItemReference.FirstInstance | src/main/java/com/reandroid/arsc/item/StyleItemReference.java:41 | the nearest ancestor of the class, none exactly when no ancestor is one |
| StyleItemReference.GetReferredParent | src/main/java/com/reandroid/arsc/item/StyleItemReference.java:35-42 | the style item itself if it is of the class, else its nearest ancestor of the class |
| StyleElement.LengthIsTextLength | src/main/java/com/reandroid/xml/StyleElement.java:137-146 | a node's length, the sum of its children's lengths, is the number of UTF-16 code units it covers, as `String.length` counts them |
| StyleElement.GetStart | src/main/java/com/reandroid/xml/StyleElement.java:103-118 | 0 without a parent; otherwise the UTF-16 code units covered by the siblings before it in its immediate parent |
| StyleElement.GetEnd | src/main/java/com/reandroid/xml/StyleElement.java:119-136 | start plus covered length in UTF-16 code units minus one, so an empty element ends one before its start |
| StyleElement.AppendChar | src/main/java/com/reandroid/xml/StyleElement.java:160-174 | NUL leaves the element unchanged; any other code unit, a lone surrogate included, is added to the covered text, joining a trailing text node or as one new text node |
| StyleElement.SurrogatePairCountsTwo | src/main/java/com/reandroid/xml/StyleElement.java:103-118 | a character outside the Basic Multilingual Plane before an element moves its start by two |
| StyleElement.CopyFrom | src/main/java/com/reandroid/xml/StyleElement.java:40-59 | the name is copied, the source's attributes are appended, existing children are kept in front, and after them come the copies of the source's children: an element as a copied style element, a text as a style text, any other node dropped |
| StyleElement.CopyChildrenMirrorsKept | src/main/java/com/reandroid/xml/StyleElement.java:46-58 | the copied children match the source's elements and texts one to one and in order, other node kinds dropped |
| StyleElement.CopyKeepsText | src/main/java/com/reandroid/xml/StyleElement.java:40-59 | a copy covers exactly the source's text, so its length is the source's code-unit count |
| ResValueMap.SetNameHigh | src/main/java/com/reandroid/arsc/value/ResValueMap.java:151-155 | the upper 16 bits of the name become the short's bits; the lower 16 bits and the other fields are kept |
| ResValueMap.SetNameLow | src/main/java/com/reandroid/arsc/value/ResValueMap.java:156-160 | the lower 16 bits of the name become the short's bits; the upper ones are kept |
| ResValueMap.SetDataHigh | src/main/java/com/reandroid/arsc/value/ResValueMap.java:161-165 | the same upper-half splice on the data word |
| ResValueMap.SetDataLow | src/main/java/com/reandroid/arsc/value/ResValueMap.java:166-170 | the same lower-half splice on the data word |
| ResValueMap.SetNameHighOwnHalf | src/main/java/com/reandroid/arsc/value/ResValueMap.java:151-155 | writing the name's own upper half back leaves the record unchanged |
| ResValueMap.SetNameLowOwnHalf | src/main/java/com/reandroid/arsc/value/ResValueMap.java:156-160 | writing the name's own lower half back leaves the record unchanged |
| ResValueMap.SplicesCommute | src/main/java/com/reandroid/arsc/value/ResValueMap.java:151-170 | high and low splices are independent and commute |
| ResValueMap.DecodeName | src/main/java/com/reandroid/arsc/value/ResValueMap.java:30-51 | a non-resource-id name gives the attribute type's name or null; an unresolved or undeclared id gives the unknown-id rendering; otherwise the entry name, prefixed exactly when asked, foreign and the prefix is non-null |
| ResValueMap.DecodeNameIgnoresResolver | src/main/java/com/reandroid/arsc/value/ResValueMap.java:31-38 | a non-resource-id name decodes the same whatever the resolver answers |
| ResValueMap.DecodePrefix | src/main/java/com/reandroid/arsc/value/ResValueMap.java:60-67 | null when the name does not resolve or resolves into this package; a name resolving into another package gives that entry's package name |
| ResValueMap.DecodeNameUsesDecodePrefix | src/main/java/com/reandroid/arsc/value/AttributeValue.java:33-35 | `decodeName()` is `decodeName(true)`: the declared entry's name with exactly `decodePrefix` and ":" in front when there is one |
| ResValueMap.DecodeDataAsAttrFormats | src/main/java/com/reandroid/arsc/value/ResValueMap.java:52-59 | a FORMATS-typed record renders its data through the formats decoder; any other record gives null |
| ResValueMap.DecodeDataAsAttr | src/main/java/com/reandroid/arsc/value/AttributeValue.java:122-128 | an unresolved name gives null; a resolved one gives that attribute's rendering of the data word |
| ResValueMap.DecodeValue | src/main/java/com/reandroid/arsc/value/AttributeValue.java:109-121 | for integer value types: formats first, then the attribute's rendering, then the generic decoding; other types decode generically |
| ResValueMap.DecodeValueSource | src/main/java/com/reandroid/arsc/value/AttributeValue.java:109-121 | the result always comes from one of the three decoders, and is non-generic only for integer types |
| ResValueMap.SetAttributeType | src/main/java/com/reandroid/arsc/value/ResValueMap.java:71-76 | the name becomes the type's id; the value type changes exactly for FORMATS on a NULL-typed record, to DEC |
| ResValueMap.SetThenGetAttributeType | src/main/java/com/reandroid/arsc/value/ResValueMap.java:68-76 | with a consistent type table, the type set is the type read back |
| ResValueMap.AddAttributeTypeFormats | src/main/java/com/reandroid/arsc/value/ResValueMap.java:84-93 | null is a no-op; otherwise data becomes exactly the old data ORed with the formats' bits (no bit lost, none other set) and only NULL becomes DEC |
| ResValueMap.AddAttributeTypeFormat | src/main/java/com/reandroid/arsc/value/ResValueMap.java:94-100 | null is a no-op; data becomes exactly the old data ORed with the mask (no bit lost, none other set) and the value type never changes |
| ResValueMap.AddFormatsIdempotent | src/main/java/com/reandroid/arsc/value/ResValueMap.java:84-100 | adding the same formats twice is the same as once |
| ResValueMap.Merge | src/main/java/com/reandroid/arsc/value/ResValueMap.java:171-179 | merging with itself or a non-ResValueMap changes nothing; otherwise the base merge, then the other's name |
| ResValueMap.EncodeName | src/main/java/com/reandroid/arsc/value/AttributeValue.java:45-108 | a null name gives null; a well-known name, and only one, sets its fixed id without a table lookup; a still-missing prefix gives null; a lookup on a detached record fails; otherwise a found entry sets its resource id and a failed lookup gives null with the record unchanged |
| ResValueMap.NullPrefixNotEncoded | src/main/java/com/reandroid/arsc/value/AttributeValue.java:61-65 | with no prefix given or split off, a name that is not well known is not encoded and the record is unchanged |
| ResValueMap.WellKnownSkipsTables | src/main/java/com/reandroid/arsc/value/AttributeValue.java:56-60 | a well-known name encodes the same whatever the attr and id tables hold |
| ResValueMap.EncodeThenDecode | src/main/java/com/reandroid/arsc/value/AttributeValue.java:66-72 | a name encoded to a declared entry that resolves back decodes to the entry's name |
| ResValueMapArray.NewInstance | src/main/java/com/reandroid/arsc/array/ResValueMapArray.java:38-41 | a new element is a zeroed map: name 0, data 0, NULL type |
| ResValueMapArray.CreateNext | src/main/java/com/reandroid/arsc/array/ResValueMapArray.java:26-37 | one fresh element is appended; with a map-entry ancestor the header's values count equals the child count, without one the call fails after the append |
| ResValueMapArray.CreateManyKeepsCount | src/main/java/com/reandroid/arsc/array/ResValueMapArray.java:26-31 | after any number of calls the header stays in step and exactly that many fresh elements were appended |
| FieldIndex.New | src/main/java/com/reandroid/dex/index/FieldIndex.java:28-31 | a new 8-byte record reads 0 in all three fields |
| FieldIndex.GetClassIndex | src/main/java/com/reandroid/dex/index/FieldIndex.java:72-74 | the class index is always in [0, 65535] |
| FieldIndex.GetTypeIndex | src/main/java/com/reandroid/dex/index/FieldIndex.java:78-80 | the type index is always in [0, 65535] |
| FieldIndex.SetClassIndex | src/main/java/com/reandroid/dex/index/FieldIndex.java:72-77 | reading back gives the index mod 2^16; the other two fields are unchanged |
| FieldIndex.SetTypeIndex | src/main/java/com/reandroid/dex/index/FieldIndex.java:78-83 | reading back gives the index mod 2^16; the other two fields are unchanged |
| FieldIndex.SetNameIndex | src/main/java/com/reandroid/dex/index/FieldIndex.java:84-89 | reading back gives the index; the other two fields are unchanged |
| FieldIndex.SetOwnValues | src/main/java/com/reandroid/dex/index/FieldIndex.java:72-89 | writing a field's own value back leaves the bytes unchanged: the three fields cover all eight bytes |
| FieldIndex.GetKey | src/main/java/com/reandroid/dex/index/FieldIndex.java:33-61 | "class->name:type" when all five lookups succeed, null exactly when one fails |
| FieldIndex.KeyOfSetIndices | src/main/java/com/reandroid/dex/index/FieldIndex.java:33-89 | a record built by the three setters has a key exactly when the indices given (types mod 2^16) resolve |
| ClassDataItem.OnReadBytes | src/main/java/com/reandroid/dex/item/ClassDataItem.java:83-92 | an offset of at most 0 reads nothing and leaves the reader; otherwise the content is what is read at the offset and the reader position is restored |
| ClassDataItem.ReadIgnoresPosition | src/main/java/com/reandroid/dex/item/ClassDataItem.java:83-92 | the reader's earlier position does not affect what is read |
| ClassDataItem.ArraysMatchCounts | src/main/java/com/reandroid/dex/item/ClassDataItem.java:50-80 | each array has the length its own count getter reports, when the array readers honour their counts |
| DexHeader.NewHeader | src/main/java/com/reandroid/dex/header/DexHeader.java:50-100 | 15 fixed fields in order, an empty unknown block, the hook attached, version "035\0", other fields their defaults |
| DexHeader.UnknownSizeOnLoad | src/main/java/com/reandroid/dex/header/DexHeader.java:102-107 | after the header size loads, the unknown block is sized to the declared size minus the bytes counted so far (the fixed fields and the unknown block as it was), so fixed fields plus new block equal the declared size only when the old block was empty; a negative size fails; other senders change nothing |
| DexHeader.ReadBytes | src/main/java/com/reandroid/dex/header/DexHeader.java:102-107 | the fields are cut from the first 104 bytes and the unknown block follows, sized by the hook only when attached; the read succeeds exactly when that size is defined and the data holds the fixed fields and the block |
| DexHeader.ReadHeader | src/main/java/com/reandroid/dex/header/DexHeader.java:130-148 | end of stream and fewer than 112 bytes are errors; otherwise the hook is detached and the unknown block stays empty |
| DexHeader.ReadHeaderIgnoresHeaderSize | src/main/java/com/reandroid/dex/header/DexHeader.java:139-145 | inputs differing only in the declared header size give headers that agree on every other field |
| DexHeader.SerializeReadRoundTrip | src/main/java/com/reandroid/dex/header/DexHeader.java:75-107 | reading a serialised header gives back its fields and unknown block when the block's size is what the read would give |
| XmlEncodeSource.New | src/main/java/com/reandroid/apk/xmlencoder/XMLEncodeSource.java:21-27 | a new source starts with nothing encoded |
| XmlEncodeSource.GetArray | src/main/java/com/reandroid/apk/xmlencoder/XMLEncodeSource.java:60-70 | the cache when present (empty once disposed); else the encoding, kept on success; a parser failure is an IOException and leaves the cache empty |
| XmlEncodeSource.GetLength | src/main/java/com/reandroid/apk/xmlencoder/XMLEncodeSource.java:28-31 | the cached byte count, 0 after disposal; a source not yet encoded is encoded (and cached) first, and the call fails exactly when that encoding fails |
| XmlEncodeSource.GetCrc | src/main/java/com/reandroid/apk/xmlencoder/XMLEncodeSource.java:32-38 | the checksum of the cached bytes, that of the empty array after disposal; a source not yet encoded is encoded first, and the call fails exactly when that encoding fails |
| XmlEncodeSource.Write | src/main/java/com/reandroid/apk/xmlencoder/XMLEncodeSource.java:39-47 | a disposed source throws an IOException naming its alias; a cached source, or one whose encoding succeeds, has its bytes written and their count returned; a failed encoding is an IOException |
| XmlEncodeSource.GetBytes | src/main/java/com/reandroid/apk/xmlencoder/XMLEncodeSource.java:48-55 | the cached bytes, empty after disposal; an IOException becomes an IllegalArgumentException; the source ends as `getArray` leaves it, so a failed encoding leaves it unencoded |
| XmlEncodeSource.Dispose | src/main/java/com/reandroid/apk/xmlencoder/XMLEncodeSource.java:56-59 | the cache becomes the DISPOSED marker |
| XmlEncodeSource.CacheKept | src/main/java/com/reandroid/apk/xmlencoder/XMLEncodeSource.java:60-63 | once encoded, any run of calls without disposal leaves the source as it is: encoding happens at most once |
| XmlEncodeSource.CachedIgnoresEncoder | src/main/java/com/reandroid/apk/xmlencoder/XMLEncodeSource.java:60-63 | a cached source reads the cache whatever a new encoding would give |
| XmlEncodeSource.FirstReadEncodes | src/main/java/com/reandroid/apk/xmlencoder/XMLEncodeSource.java:64-69 | the first successful read fills the cache; a failed one leaves the source for a retry |
| XmlEncodeSource.DisposedIsFinal | src/main/java/com/reandroid/apk/xmlencoder/XMLEncodeSource.java:40-59 | after disposal any calls keep it disposed: length 0, empty bytes, writes refused |
| XmlBagDecoder.FirstMatch | src/main/java/com/reandroid/apk/xmldecoder/XMLBagDecoder.java:42-49 | the chosen decoder is the common one or one from the list |
| XmlBagDecoder.GetFor | src/main/java/com/reandroid/apk/xmldecoder/XMLBagDecoder.java:42-49 | the loop returns the first decoder that accepts the entry, else the common one, which then means none accepted |
| XmlBagDecoder.Priority | src/main/java/com/reandroid/apk/xmldecoder/XMLBagDecoder.java:30-37 | attr, then plurals, then array, then common, each case in both directions |
| XmlBagDecoder.Decode | src/main/java/com/reandroid/apk/xmldecoder/XMLBagDecoder.java:38-41 | exactly one decoder runs: the one `getFor` picks |

## Left out

- Integer widths:
  - `int` arithmetic on counts and sizes is unbounded; a pool or array past
    2^31 entries is not modelled.
  - The header string count is stored as an unbounded integer.
- Java's `String.compareTo` compares UTF-16 code units; `Ordinal.CompareTo`
  compares Dafny characters. The two orders differ only for characters
  outside the Basic Multilingual Plane.
- `removeUnusedStrings`, `listUnusedStrings` and the string array's re-encoding
  are left out. They are bodies in `StringArray`, which is not part of this
  model. `StringPool.SetUtf8` reports whether re-encoding is asked for; it does
  not re-encode.
- Null elements inside collections are not modelled:
  - null strings in `addStrings` lists;
  - null references in reference lists (except as `None` entries);
  - null slots in the string array.
- Assumptions about collaborators whose code is not in this model. They are
  the smallest behaviour each call site needs:
  - `StringItem.getHtml` on a new item returns the text set into it;
  - `StringArray.ensureSize(initialSize + n)` appends exactly n new items
    holding no text and no references, and does not write the header's
    string count (`StringPool.InsertStringList`);
  - `StringItem.addReference`/`removeReference` have set semantics;
  - `StringArray.get` returns null outside the array;
  - a `StyleText`'s length is the `String.length` of its text (UTF-16 code
    units), and its `appendChar` appends the code unit;
  - `Block.getParentInstance` returns the nearest ancestor that is an
    instance of the class (`StyleItemReference.FirstInstance`);
  - `StringGroup.add` and `getItems` keep items in insertion order, so the
    first item of a group is the one added first: the lowest slot
    (`StringPool.GetOrCreate`);
  - `XMLElement.addAttribute` appends after the existing attributes
    (`StyleElement.CopyFrom`);
  - `StyleAttribute(XMLAttribute)` copies name and value;
  - a new `ResValueMap` is twelve zero bytes, so NULL type;
  - `BlockArray.createNext` appends one `newInstance()`;
  - a new `FieldIndex` is eight zero bytes;
  - `BlockReader.seek` sets the position;
  - a read past the end of a `BlockReader` fails;
  - `ByteArray.setSize` with a negative size fails;
  - the encoder is deterministic, so each source has one encoding outcome.
- `DexHeader` field sizes are those of the field classes: magic 4, version 4,
  checksum 4, signature 20, the integers and the endian tag 4 each, each
  offset-and-count pair 8. The classes themselves are not part of this model.
  - With these sizes the fixed fields total 104 bytes.
  - header_item of the Dalvik Executable format is 112 bytes, with link_size
    and link_off between endian_tag and map_off, which the field list does not
    name.
  - The model follows the field list as written and does not judge it.
- DexHeader.NewHeader takes the other fields' defaults as a parameter: the
  defaults of `Magic`, `Checksum`, `Signature`, `Endian` and `OffsetAndCount`
  are not part of this model.
- ResValueMap.EncodeName models the missing table block of a detached record
  as the null-package failure. It does not distinguish a package without a
  table block.
- ResValueMap.Merge takes `ValueItem.merge` as an environment function;
  what the base merge copies is not stated.
- ResValueMap.DecodeValue models the `ResValueMap` override of
  `decodeDataAsAttrFormats`. `AttributeValue`'s default returns null, and
  `ResValueMap` is the only concrete subclass in the model.
- StyleElement.GetStart is relative to the immediate parent, as the code
  computes it. The model states that value and does not claim it is absolute
  within the whole span.
- Not modelled because they are text projections or I/O:
  - `toJson`/`fromJson`, `toString` and smali `append`;
  - the XML pull parser and serializer (`StyleElement.parse`, the encoder
    itself);
  - CRC32, which is a parameter;
  - output streams, whose written bytes are returned as a sequence.
- Out of scope:
  - `ApkModuleDecoder`: directory and file orchestration;
  - `BytesOutputStream`: a stream wrapper;
  - `MethodValue`: a delegation to a section lookup.
- `encodeStyleValue` delegates wholly to `ValueCoder`, which is not part of
  this model.
- `getAttributeTypeFormats` decodes through `AttributeDataFormat`, which is not
  part of this model.

## Findings

| source | as written | input that shows it | evidently intended | confidence | as-written member | corrected member |
|---|---|---|---|---|---|---|
| src/main/java/com/reandroid/arsc/pool/StringPool.java:78-91 | `addStrings` builds a filtered `uniqueSet` (present strings removed) but sorts and inserts the caller's `stringList`. Duplicates and already-present strings are therefore kept for any collection that is not a `HashSet`. | the list ["a","a"] into an empty pool gives two "a" slots; ["x"] into a pool holding "x" gives a second "x" slot (both proved for every string) | insert the filtered unique set, so each given string ends up present once | not executed | StringPool.AddStringsListDuplicates | StringPool.AddStringsDeduplicated |
