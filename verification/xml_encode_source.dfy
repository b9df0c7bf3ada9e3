/** An input source that encodes an XML file to binary XML on first use
    (`XMLEncodeSource`): not yet encoded, encoded and cached, or disposed. */
module XmlEncodeSource {
  import opened Common
  import opened Bytes

  /** How encoding the parser's document fails. */
  datatype EncodeError = ParserError(message: string) | IoError(message: string)

  /** The cache: null, the encoded bytes, or the shared empty DISPOSED array. */
  datatype Cache = NotEncoded | Encoded(bytes: seq<byte>) | Disposed

  /** A source: its alias, what encoding its document gives, and its cache. */
  datatype Source = Source(alias: string, encoding: Result<seq<byte>, EncodeError>, cache: Cache)

  datatype Exception = IOException(message: string) | IllegalArgumentException(cause: Exception)

  /** The constructor: nothing is encoded yet. */
  function New(alias: string, encoding: Result<seq<byte>, EncodeError>): (s: Source)
    ensures s.cache == NotEncoded && s.alias == alias && s.encoding == encoding
  {
    Source(alias, encoding, NotEncoded)
  }

  /** `getArray`: the cache when there is one (the empty array once
      disposed); otherwise the document is encoded, and a success is kept.
      A parser failure surfaces as an IOException and leaves the cache
      empty. */
  function GetArray(s: Source): (r: (Source, Result<seq<byte>, Exception>))
    ensures s.cache.Encoded? ==> r == (s, Success(s.cache.bytes))
    ensures s.cache.Disposed? ==> r == (s, Success([]))
    ensures s.cache.NotEncoded? ==>
              (r.1.Success? <==> s.encoding.Success?) &&
              (r.1.Success? ==> r.0 == s.(cache := Encoded(s.encoding.value)) && r.1.value == s.encoding.value) &&
              (r.1.Failure? ==> r.0 == s && r.1.error.IOException?)
    ensures r.0.alias == s.alias && r.0.encoding == s.encoding
  {
    match s.cache
    case Encoded(b) => (s, Success(b))
    case Disposed => (s, Success([]))
    case NotEncoded =>
      match s.encoding
      case Success(b) => (s.(cache := Encoded(b)), Success(b))
      case Failure(e) => (s, Failure(IOException(e.message)))
  }

  /** `getLength`: the number of encoded bytes. */
  function GetLength(s: Source): (r: (Source, Result<nat, Exception>))
    ensures s.cache.Disposed? ==> r == (s, Success(0))
    ensures r.1.Success? ==> r.0.cache.Encoded? || r.0.cache.Disposed?
    ensures r.1.Success? && r.0.cache.Encoded? ==> r.1.value == |r.0.cache.bytes|
    ensures r.0 == GetArray(s).0
    ensures r.1.Failure? <==> GetArray(s).1.Failure?
    ensures s.cache.Encoded? ==> r.1 == Success(|s.cache.bytes|)
    ensures s.cache.NotEncoded? && s.encoding.Success? ==> r.1 == Success(|s.encoding.value|)
  {
    var (t, a) := GetArray(s);
    match a
    case Success(b) => (t, Success(|b|))
    case Failure(e) => (t, Failure(e))
  }

  /** `getCrc`: the checksum, computed by the given function, of the
      encoded bytes. */
  function GetCrc(s: Source, crc: seq<byte> -> int): (r: (Source, Result<int, Exception>))
    ensures r.1.Success? && r.0.cache.Encoded? ==> r.1.value == crc(r.0.cache.bytes)
    ensures r.0 == GetArray(s).0
    ensures r.1.Failure? <==> GetArray(s).1.Failure?
    ensures s.cache.Encoded? ==> r.1 == Success(crc(s.cache.bytes))
    ensures s.cache.Disposed? ==> r == (s, Success(crc([])))
    ensures s.cache.NotEncoded? && s.encoding.Success? ==> r.1 == Success(crc(s.encoding.value))
  {
    var (t, a) := GetArray(s);
    match a
    case Success(b) => (t, Success(crc(b)))
    case Failure(e) => (t, Failure(e))
  }

  /** `write`: the encoded bytes appended to the output, returning how many;
      a disposed source refuses with an IOException naming it. */
  function Write(s: Source, out: seq<byte>): (r: (Source, Result<(seq<byte>, nat), Exception>))
    ensures s.cache.Disposed? ==> r == (s, Failure(IOException("Disposed source: " + s.alias)))
    ensures r.1.Success? ==>
              r.0.cache.Encoded? && r.1.value == (out + r.0.cache.bytes, |r.0.cache.bytes|)
    ensures r.0 == GetArray(s).0
    ensures s.cache.Encoded? ==> r.1 == Success((out + s.cache.bytes, |s.cache.bytes|))
    ensures s.cache.NotEncoded? && s.encoding.Success? ==>
              r.1 == Success((out + s.encoding.value, |s.encoding.value|))
    ensures s.cache.NotEncoded? && s.encoding.Failure? ==> r.1.Failure? && r.1.error.IOException?
  {
    var (t, a) := GetArray(s);
    match a
    case Failure(e) => (t, Failure(e))
    case Success(b) =>
      if t.cache.Disposed? then (t, Failure(IOException("Disposed source: " + t.alias)))
      else (t, Success((out + b, |b|)))
  }

  /** `getBytes`: the encoded bytes, an IOException rethrown as an
      IllegalArgumentException. After disposal, the empty array. */
  function GetBytes(s: Source): (r: (Source, Result<seq<byte>, Exception>))
    ensures s.cache.Disposed? ==> r == (s, Success([]))
    ensures r.1.Failure? ==> r.1.error.IllegalArgumentException? && r.1.error.cause.IOException?
    ensures r.1.Success? <==> GetArray(s).1.Success?
    ensures r.1.Success? ==> r == GetArray(s)
    ensures r.0 == GetArray(s).0
  {
    var (t, a) := GetArray(s);
    match a
    case Success(b) => (t, Success(b))
    case Failure(e) => (t, Failure(IllegalArgumentException(e)))
  }

  /** `disposeInputSource`. */
  function Dispose(s: Source): (r: Source)
    ensures r.cache.Disposed? && r.alias == s.alias
  {
    s.(cache := Disposed)
  }

  /** The source's operations, as a caller might run them. */
  datatype Op = LengthOp | CrcOp(crc: seq<byte> -> int) | WriteOp(out: seq<byte>) | BytesOp | DisposeOp

  function Step(s: Source, op: Op): Source
  {
    match op
    case LengthOp => GetLength(s).0
    case CrcOp(crc) => GetCrc(s, crc).0
    case WriteOp(out) => Write(s, out).0
    case BytesOp => GetBytes(s).0
    case DisposeOp => Dispose(s)
  }

  function Run(s: Source, ops: seq<Op>): Source
    decreases |ops|
  {
    if |ops| == 0 then s else Run(Step(s, ops[0]), ops[1..])
  }

  /** Once encoded, the cache is what every later call sees until the
      source is disposed: encoding happens at most once. */
  lemma {:induction false} CacheKept(s: Source, ops: seq<Op>)
    requires s.cache.Encoded?
    requires forall i :: 0 <= i < |ops| ==> !ops[i].DisposeOp?
    ensures Run(s, ops) == s
    decreases |ops|
  {
    if |ops| > 0 {
      assert Step(s, ops[0]) == s;
      CacheKept(s, ops[1..]);
    }
  }

  /** Every read of a cached source gives the cached bytes, whatever a new
      encoding would give now. */
  lemma CachedIgnoresEncoder(s: Source, other: Result<seq<byte>, EncodeError>)
    requires s.cache.Encoded?
    ensures GetArray(s).1 == GetArray(s.(encoding := other)).1 == Success(s.cache.bytes)
  {
  }

  /** The first successful read encodes; a failed one leaves the source
      as it was, so the next read tries again. */
  lemma FirstReadEncodes(s: Source)
    requires s.cache.NotEncoded?
    ensures s.encoding.Success? ==> GetArray(s).0.cache == Encoded(s.encoding.value)
    ensures s.encoding.Failure? ==> GetArray(s).0 == s
  {
  }

  /** Disposal is final: whatever runs after it, the source stays disposed,
      reports length 0 and empty bytes, and refuses to write. */
  lemma {:induction false} DisposedIsFinal(s: Source, ops: seq<Op>, out: seq<byte>)
    requires s.cache.Disposed?
    ensures Run(s, ops).cache.Disposed?
    ensures GetLength(Run(s, ops)).1 == Success(0)
    ensures GetBytes(Run(s, ops)).1 == Success([])
    ensures Write(Run(s, ops), out).1 == Failure(IOException("Disposed source: " + s.alias))
    decreases |ops|
  {
    if |ops| > 0 {
      var t := Step(s, ops[0]);
      assert t.cache.Disposed? && t.alias == s.alias;
      DisposedIsFinal(t, ops[1..], out);
    }
  }
}
