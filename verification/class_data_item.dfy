/** A DEX `class_data_item` (`ClassDataItem`): four uleb128 counts (static
    fields, instance fields, direct methods, virtual methods) followed by
    the four member arrays in the same order, as in the class_data_item
    section of the Dalvik Executable format. It is read out of line: from
    the offset its owner records, after which the reader goes back. */
module ClassDataItem {
  import opened Common
  import opened Bytes

  /** A block reader: the bytes and the current position. */
  datatype Reader = Reader(data: seq<byte>, position: int)

  /** The decoded item, children in the order they are read. */
  datatype ClassData<F, M> = ClassData(
    staticFieldsCount: nat, instanceFieldCount: nat,
    directMethodCount: nat, virtualMethodCount: nat,
    staticFields: seq<F>, instanceFields: seq<F>,
    directMethods: seq<M>, virtualMethods: seq<M>)

  /** The element readers: a uleb128 count (`Ule128Item`), and the field
      and method definition arrays, each told how many entries its bound
      count asks for. Each answers the value and the position after it, or
      nothing when the bytes do not hold it. */
  datatype Readers<!F, !M> = Readers(
    ule128: (seq<byte>, int) -> Option<(nat, int)>,
    fieldDefs: (seq<byte>, int, nat) -> Option<(seq<F>, int)>,
    methodDefs: (seq<byte>, int, nat) -> Option<(seq<M>, int)>)

  /** Array readers that return exactly as many entries as asked for. */
  ghost predicate HonoursCounts<F, M>(env: Readers<F, M>)
  {
    (forall d, p, n :: env.fieldDefs(d, p, n).Some? ==> |env.fieldDefs(d, p, n).value.0| == n) &&
    (forall d, p, n :: env.methodDefs(d, p, n).Some? ==> |env.methodDefs(d, p, n).value.0| == n)
  }

  /** The container's own read: the four counts, then each array with the
      count it is bound to, from the given position. */
  function ReadContent<F, M>(env: Readers<F, M>, data: seq<byte>, pos: int): Result<(ClassData<F, M>, int), string>
  {
    match env.ule128(data, pos)
    case None => Failure("EOFException")
    case Some((c0, p1)) =>
    match env.ule128(data, p1)
    case None => Failure("EOFException")
    case Some((c1, p2)) =>
    match env.ule128(data, p2)
    case None => Failure("EOFException")
    case Some((c2, p3)) =>
    match env.ule128(data, p3)
    case None => Failure("EOFException")
    case Some((c3, p4)) =>
    match env.fieldDefs(data, p4, c0)
    case None => Failure("EOFException")
    case Some((a0, p5)) =>
    match env.fieldDefs(data, p5, c1)
    case None => Failure("EOFException")
    case Some((a1, p6)) =>
    match env.methodDefs(data, p6, c2)
    case None => Failure("EOFException")
    case Some((a2, p7)) =>
    match env.methodDefs(data, p7, c3)
    case None => Failure("EOFException")
    case Some((a3, p8)) => Success((ClassData(c0, c1, c2, c3, a0, a1, a2, a3), p8))
  }

  /** `onReadBytes`: an offset of zero or less means there is no class data
      and nothing is read; otherwise the reader seeks to the offset, the
      content is read there, and the reader returns to where it was. */
  function OnReadBytes<F, M>(env: Readers<F, M>, item: ClassData<F, M>, offset: int32, reader: Reader)
    : (r: Result<(ClassData<F, M>, Reader), string>)
    ensures offset <= 0 ==> r == Success((item, reader))
    ensures r.Success? ==> r.value.1 == reader
    ensures offset > 0 ==>
              (r.Success? <==> ReadContent(env, reader.data, offset as int).Success?) &&
              (r.Success? ==> r.value.0 == ReadContent(env, reader.data, offset as int).value.0)
  {
    if offset <= 0 then Success((item, reader))
    else
      var position := reader.position;
      var seeked := reader.(position := offset as int);
      match ReadContent(env, seeked.data, seeked.position)
      case Failure(e) => Failure(e)
      case Success((content, end)) =>
        Success((content, Reader(seeked.data, position)))
  }

  /** Where the reader stood before does not matter: class data is found by
      its offset alone. */
  lemma ReadIgnoresPosition<F, M>(env: Readers<F, M>, item: ClassData<F, M>, offset: int32, a: Reader, b: Reader)
    requires a.data == b.data && offset > 0
    ensures OnReadBytes(env, item, offset, a).Success? <==> OnReadBytes(env, item, offset, b).Success?
    ensures OnReadBytes(env, item, offset, a).Success? ==>
              OnReadBytes(env, item, offset, a).value.0 == OnReadBytes(env, item, offset, b).value.0
  {
  }

  /** Each array is bound to its own count: with readers that honour the
      count they are given, every array read has the length its count
      getter reports. */
  lemma ArraysMatchCounts<F, M>(env: Readers<F, M>, item: ClassData<F, M>, offset: int32, reader: Reader)
    requires HonoursCounts(env)
    requires offset > 0
    requires OnReadBytes(env, item, offset, reader).Success?
    ensures var c := OnReadBytes(env, item, offset, reader).value.0;
            |c.staticFields| == c.staticFieldsCount &&
            |c.instanceFields| == c.instanceFieldCount &&
            |c.directMethods| == c.directMethodCount &&
            |c.virtualMethods| == c.virtualMethodCount
  {
  }
}
