/** The DEX file header (`DexHeader`): fifteen fixed-size fields followed by
    a trailing block of unknown bytes whose size can follow the declared
    header size, after header_item of the Dalvik Executable format. */
module DexHeader {
  import opened Common
  import opened Bytes

  /** The fields in child order: magic, version, checksum, signature,
      file size, header size, endian tag, map, then seven offset-and-count
      pairs (strings, type, proto, field, method, class_def, data). */
  const MAGIC: nat := 0
  const VERSION: nat := 1
  const HEADER_SIZE: nat := 5
  const FIELD_COUNT: nat := 15

  const FIELD_SIZES: seq<nat> := [4, 4, 4, 20, 4, 4, 4, 4, 8, 8, 8, 8, 8, 8, 8]

  /** Where each field starts; the last entry is where the unknown block starts. */
  const OFFSETS: seq<nat> := [0, 4, 8, 12, 32, 36, 40, 44, 48, 56, 64, 72, 80, 88, 96, 104]

  const FIXED_SIZE: nat := 104

  /** The bytes `readHeader` asks the stream for. */
  const COMMON_HEADER_SIZE: nat := 112

  /** The version a new header carries: "035" and a NUL. */
  const VERSION_035: seq<byte> := [0x30, 0x33, 0x35, 0x00]

  lemma OffsetsAddUp()
    ensures |FIELD_SIZES| == FIELD_COUNT && |OFFSETS| == FIELD_COUNT + 1
    ensures OFFSETS[0] == 0 && OFFSETS[FIELD_COUNT] == FIXED_SIZE
    ensures forall i :: 0 <= i < FIELD_COUNT ==> OFFSETS[i + 1] == OFFSETS[i] + FIELD_SIZES[i]
  {
  }

  lemma {:induction false} OffsetsMonotone(i: nat, j: nat)
    requires i <= j <= FIELD_COUNT
    ensures OFFSETS[i] <= OFFSETS[j]
    decreases j
  {
    if i < j {
      OffsetsMonotone(i, j - 1);
      OffsetsAddUp();
    }
  }

  /** Every field lies within the fixed part, its size apart from the next. */
  lemma FieldsLayout()
    ensures forall i :: 0 <= i < FIELD_COUNT ==> OFFSETS[i + 1] == OFFSETS[i] + FIELD_SIZES[i]
    ensures forall i :: 0 <= i <= FIELD_COUNT ==> OFFSETS[i] <= FIXED_SIZE
  {
    OffsetsAddUp();
    forall i | 0 <= i <= FIELD_COUNT ensures OFFSETS[i] <= FIXED_SIZE {
      OffsetsMonotone(i, FIELD_COUNT);
    }
  }

  /** A header: its fixed fields, the unknown block, and whether the header
      size field still reports its loading to the header. */
  datatype DexHeader = DexHeader(fields: seq<seq<byte>>, unknown: seq<byte>, hookActive: bool)

  predicate WellSized(fields: seq<seq<byte>>)
  {
    |fields| == FIELD_COUNT && forall i :: 0 <= i < FIELD_COUNT ==> |fields[i]| == FIELD_SIZES[i]
  }

  /** `countBytes`: every field plus the unknown block. */
  function CountBytes(h: DexHeader): (r: nat)
    requires WellSized(h.fields)
    ensures r == FIXED_SIZE + |h.unknown|
  {
    ConcatLength(h.fields, FIELD_COUNT);
    assert h.fields[..FIELD_COUNT] == h.fields;
    |Concat(h.fields)| + |h.unknown|
  }

  /** The declared header size, as the Java int the field holds. */
  function DeclaredHeaderSize(h: DexHeader): int32
    requires WellSized(h.fields)
  {
    GetInteger(h.fields[HEADER_SIZE])
  }

  /** The constructor: the fields in order with their defaults, an empty
      unknown block, the load hook attached, and the version overwritten
      with "035\0". */
  function NewHeader(defaults: seq<seq<byte>>): (h: DexHeader)
    requires WellSized(defaults)
    ensures WellSized(h.fields) && h.hookActive && h.unknown == []
    ensures h.fields[VERSION] == VERSION_035
    ensures forall i :: 0 <= i < FIELD_COUNT && i != VERSION ==> h.fields[i] == defaults[i]
  {
    DexHeader(defaults[VERSION := VERSION_035], [], true)
  }

  /** The size `onBlockLoaded` gives the unknown block: when the header-size
      field has just been loaded, the declared size minus everything counted
      so far; a negative size cannot be allocated. Other senders leave it. */
  function UnknownSizeOnLoad(h: DexHeader, sender: nat): (r: Result<nat, string>)
    requires WellSized(h.fields)
    ensures sender != HEADER_SIZE ==> r == Success(|h.unknown|)
    ensures sender == HEADER_SIZE ==>
              (r.Success? <==> DeclaredHeaderSize(h) as int >= CountBytes(h)) &&
              (r.Success? ==> FIXED_SIZE + r.value == DeclaredHeaderSize(h) as int - |h.unknown|)
  {
    if sender == HEADER_SIZE then
      var size := DeclaredHeaderSize(h) as int - CountBytes(h);
      if size < 0 then Failure("NegativeArraySizeException") else Success(size)
    else Success(|h.unknown|)
  }

  /** The fixed fields cut out of the first 104 bytes. */
  function Fields(data: seq<byte>): (r: seq<seq<byte>>)
    requires |data| >= FIXED_SIZE
    ensures WellSized(r)
    ensures forall i :: 0 <= i < FIELD_COUNT ==> r[i] == data[OFFSETS[i]..OFFSETS[i + 1]]
  {
    FieldsLayout();
    seq(FIELD_COUNT, i requires 0 <= i < FIELD_COUNT => data[OFFSETS[i]..OFFSETS[i + 1]])
  }

  /** The target once its header-size field has been read from data. */
  function HeaderSizeLoaded(target: DexHeader, data: seq<byte>): (h: DexHeader)
    requires WellSized(target.fields) && |data| >= FIXED_SIZE
    ensures WellSized(h.fields) && h.unknown == target.unknown
    ensures DeclaredHeaderSize(h) == DeclaredHeaderSize(DexHeader(Fields(data[..FIXED_SIZE]), [], false))
  {
    FieldsLayout();
    var d := data[..FIXED_SIZE];
    assert Fields(d)[HEADER_SIZE] == data[OFFSETS[HEADER_SIZE]..OFFSETS[HEADER_SIZE + 1]] by {
      assert Fields(d)[HEADER_SIZE] == d[OFFSETS[HEADER_SIZE]..OFFSETS[HEADER_SIZE + 1]];
    }
    target.(fields := target.fields[HEADER_SIZE := data[OFFSETS[HEADER_SIZE]..OFFSETS[HEADER_SIZE + 1]]])
  }

  /** `readBytes` into a header: the fields in order; once the header size
      is in, an attached hook resizes the unknown block (reading against
      the target's current byte count), which is read last. Running out of
      bytes fails. */
  function ReadBytes(target: DexHeader, data: seq<byte>): (r: Result<DexHeader, string>)
    requires WellSized(target.fields)
    ensures r.Success? ==> WellSized(r.value.fields) && r.value.hookActive == target.hookActive
    ensures r.Success? ==> |data| >= FIXED_SIZE + |r.value.unknown|
    ensures r.Success? ==> r.value.fields == Fields(data[..FIXED_SIZE]) &&
                           r.value.unknown == data[FIXED_SIZE..FIXED_SIZE + |r.value.unknown|]
    ensures r.Success? && !target.hookActive ==> |r.value.unknown| == |target.unknown|
    ensures r.Success? && target.hookActive ==>
              FIXED_SIZE + |r.value.unknown| == DeclaredHeaderSize(r.value) as int - |target.unknown|
    ensures !target.hookActive ==> (r.Success? <==> |data| >= FIXED_SIZE + |target.unknown|)
    ensures target.hookActive ==>
              (r.Success? <==>
                 && |data| >= FIXED_SIZE
                 && UnknownSizeOnLoad(HeaderSizeLoaded(target, data), HEADER_SIZE).Success?
                 && |data| >= FIXED_SIZE + UnknownSizeOnLoad(HeaderSizeLoaded(target, data), HEADER_SIZE).value)
  {
    if |data| < OFFSETS[HEADER_SIZE + 1] then Failure("EOFException")
    else
      var loaded := target.(fields := target.fields[HEADER_SIZE := data[OFFSETS[HEADER_SIZE]..OFFSETS[HEADER_SIZE + 1]]]);
      var size := if target.hookActive then UnknownSizeOnLoad(loaded, HEADER_SIZE) else Success(|target.unknown|);
      match size
      case Failure(e) => Failure(e)
      case Success(n) =>
        if |data| < FIXED_SIZE + n then Failure("EOFException")
        else
          var fields := Fields(data[..FIXED_SIZE]);
          assert fields[HEADER_SIZE] == loaded.fields[HEADER_SIZE];
          Success(DexHeader(fields, data[FIXED_SIZE..FIXED_SIZE + n], target.hookActive))
  }

  /** What one `InputStream.read` into the 112-byte buffer gave. */
  datatype StreamRead = EndOfStream | Chunk(bytes: seq<byte>)

  datatype HeaderError = FinishedReading | FewBytes(read: nat) | ReadFailed(message: string)

  /** All-zero field contents; whatever the fields start with is read over. */
  function ZeroFields(): (r: seq<seq<byte>>)
    ensures WellSized(r)
  {
    seq(FIELD_COUNT, i requires 0 <= i < FIELD_COUNT => seq(FIELD_SIZES[i], _ => 0 as byte))
  }

  /** `readHeader`: end of stream and a short read are errors; otherwise a
      new header with its hook detached reads the fixed fields, so the
      declared header size never resizes the unknown block. */
  function ReadHeader(input: StreamRead): (r: Result<DexHeader, HeaderError>)
    requires input.Chunk? ==> |input.bytes| <= COMMON_HEADER_SIZE
    ensures input.EndOfStream? ==> r == Failure(FinishedReading)
    ensures input.Chunk? && |input.bytes| < COMMON_HEADER_SIZE ==> r == Failure(FewBytes(|input.bytes|))
    ensures input.Chunk? && |input.bytes| == COMMON_HEADER_SIZE ==>
              r.Success? && r.value.unknown == [] && !r.value.hookActive &&
              r.value.fields == Fields(input.bytes[..FIXED_SIZE])
  {
    match input
    case EndOfStream => Failure(FinishedReading)
    case Chunk(bytes) =>
      if |bytes| < COMMON_HEADER_SIZE then Failure(FewBytes(|bytes|))
      else
        var header := NewHeader(ZeroFields()).(hookActive := false);
        match ReadBytes(header, bytes)
        case Failure(e) => Failure(ReadFailed(e))
        case Success(h) => Success(h)
  }

  /** Two headers read from inputs that differ only in the declared header
      size agree on every other field, and neither has an unknown block. */
  lemma ReadHeaderIgnoresHeaderSize(a: seq<byte>, b: seq<byte>)
    requires |a| == COMMON_HEADER_SIZE && |b| == COMMON_HEADER_SIZE
    requires a[..OFFSETS[HEADER_SIZE]] == b[..OFFSETS[HEADER_SIZE]]
    requires a[OFFSETS[HEADER_SIZE + 1]..] == b[OFFSETS[HEADER_SIZE + 1]..]
    ensures var (ha, hb) := (ReadHeader(Chunk(a)).value, ReadHeader(Chunk(b)).value);
            ha.unknown == hb.unknown == [] &&
            forall i :: 0 <= i < FIELD_COUNT && i != HEADER_SIZE ==> ha.fields[i] == hb.fields[i]
  {
    var (ha, hb) := (ReadHeader(Chunk(a)).value, ReadHeader(Chunk(b)).value);
    forall i | 0 <= i < FIELD_COUNT && i != HEADER_SIZE
      ensures ha.fields[i] == hb.fields[i]
    {
      OffsetsMonotone(i, i + 1);
      OffsetsMonotone(i + 1, FIELD_COUNT);
      PrefixSlice(a, FIXED_SIZE, OFFSETS[i], OFFSETS[i + 1]);
      PrefixSlice(b, FIXED_SIZE, OFFSETS[i], OFFSETS[i + 1]);
      if i < HEADER_SIZE {
        OffsetsMonotone(i + 1, HEADER_SIZE);
        SameBytesBelow(a, b, OFFSETS[HEADER_SIZE], OFFSETS[i], OFFSETS[i + 1]);
      } else {
        OffsetsMonotone(HEADER_SIZE + 1, i);
        SameBytesAbove(a, b, OFFSETS[HEADER_SIZE + 1], OFFSETS[i], OFFSETS[i + 1]);
      }
    }
  }

  lemma PrefixSlice(a: seq<byte>, n: nat, i: nat, j: nat)
    requires i <= j <= n <= |a|
    ensures a[..n][i..j] == a[i..j]
  {
  }

  lemma SameBytesBelow(a: seq<byte>, b: seq<byte>, n: nat, i: nat, j: nat)
    requires n <= |a| && n <= |b| && a[..n] == b[..n] && i <= j <= n
    ensures a[i..j] == b[i..j]
  {
    forall k | i <= k < j ensures a[k] == b[k] {
      assert a[k] == a[..n][k] && b[k] == b[..n][k];
    }
  }

  lemma SameBytesAbove(a: seq<byte>, b: seq<byte>, n: nat, i: nat, j: nat)
    requires n <= |a| && |a| == |b| && a[n..] == b[n..] && n <= i <= j <= |a|
    ensures a[i..j] == b[i..j]
  {
    forall k | i <= k < j ensures a[k] == b[k] {
      assert a[k] == a[n..][k - n] && b[k] == b[n..][k - n];
    }
  }

  // ------------------------------------------------------------ serialising

  function Concat(s: seq<seq<byte>>): seq<byte>
  {
    if |s| == 0 then [] else s[0] + Concat(s[1..])
  }

  /** The header's bytes: the fields in order, then the unknown block. */
  function Serialize(h: DexHeader): seq<byte>
  {
    Concat(h.fields) + h.unknown
  }

  lemma {:induction false} ConcatAppend(s: seq<seq<byte>>, x: seq<byte>)
    ensures Concat(s + [x]) == Concat(s) + x
    decreases |s|
  {
    if |s| > 0 {
      assert (s + [x])[1..] == s[1..] + [x];
      ConcatAppend(s[1..], x);
    } else {
      assert s + [x] == [x];
    }
  }

  lemma {:induction false} ConcatLength(fields: seq<seq<byte>>, k: nat)
    requires WellSized(fields) && k <= FIELD_COUNT
    ensures |Concat(fields[..k])| == OFFSETS[k]
    decreases k
  {
    if k > 0 {
      ConcatLength(fields, k - 1);
      assert fields[..k] == fields[..k - 1] + [fields[k - 1]];
      ConcatAppend(fields[..k - 1], fields[k - 1]);
    }
  }

  lemma {:induction false} ConcatPrefix(fields: seq<seq<byte>>, k: nat)
    requires WellSized(fields) && k <= FIELD_COUNT
    ensures |Concat(fields)| == FIXED_SIZE
    ensures Concat(fields)[..OFFSETS[k]] == Concat(fields[..k])
    decreases FIELD_COUNT - k
  {
    ConcatLength(fields, FIELD_COUNT);
    assert fields[..FIELD_COUNT] == fields;
    if k < FIELD_COUNT {
      ConcatPrefix(fields, k + 1);
      assert fields[..k + 1] == fields[..k] + [fields[k]];
      ConcatAppend(fields[..k], fields[k]);
      ConcatLength(fields, k);
      assert Concat(fields)[..OFFSETS[k]] == Concat(fields)[..OFFSETS[k + 1]][..OFFSETS[k]];
    }
  }

  /** Field i sits at its offset in the serialised header. */
  lemma FieldAtOffset(fields: seq<seq<byte>>, i: nat)
    requires WellSized(fields) && i < FIELD_COUNT
    ensures |Concat(fields)| == FIXED_SIZE
    ensures Concat(fields)[OFFSETS[i]..OFFSETS[i + 1]] == fields[i]
  {
    ConcatPrefix(fields, i + 1);
    ConcatLength(fields, i);
    assert fields[..i + 1] == fields[..i] + [fields[i]];
    ConcatAppend(fields[..i], fields[i]);
    assert Concat(fields)[OFFSETS[i]..OFFSETS[i + 1]] == Concat(fields)[..OFFSETS[i + 1]][OFFSETS[i]..];
  }

  /** Reading back a serialised header gives its fields and unknown block,
      provided the target's unknown block ends up the same size: with the
      hook attached, when the declared size accounts for the target's
      current bytes plus the block; with it detached, when the target
      already has a block that size. */
  lemma SerializeReadRoundTrip(h: DexHeader, target: DexHeader)
    requires WellSized(h.fields) && WellSized(target.fields)
    requires target.hookActive ==>
               DeclaredHeaderSize(h) as int == CountBytes(target) + |h.unknown|
    requires !target.hookActive ==> |target.unknown| == |h.unknown|
    ensures ReadBytes(target, Serialize(h)) == Success(DexHeader(h.fields, h.unknown, target.hookActive))
  {
    var data := Serialize(h);
    ConcatPrefix(h.fields, 0);
    assert data[..FIXED_SIZE] == Concat(h.fields);
    assert data[FIXED_SIZE..FIXED_SIZE + |h.unknown|] == h.unknown;
    forall i | 0 <= i < FIELD_COUNT
      ensures Fields(data[..FIXED_SIZE])[i] == h.fields[i]
    {
      FieldAtOffset(h.fields, i);
    }
    assert Fields(data[..FIXED_SIZE]) == h.fields;
    FieldAtOffset(h.fields, HEADER_SIZE);
    assert data[OFFSETS[HEADER_SIZE]..OFFSETS[HEADER_SIZE + 1]] == h.fields[HEADER_SIZE];
  }
}
