/** `rawtopiccommon`: the offset range of a topic partition and its protobuf
    form. `Offset` is an `int64` wrapper whose `FromInt64` stores the value and
    whose `ToInt64` returns it; its definition is not part of this model. */
module TopicCommon {
  import opened Wrappers

  /** `rawtopiccommon.Offset`. */
  type Offset = int64

  /** `Ydb_Topic.OffsetsRange`. */
  datatype OffsetsRangeProto = OffsetsRangeProto(start: int64, end: int64)

  /** `errUnexpectedProtobufInOffsets`. */
  datatype OffsetsError = ErrUnexpectedProtobufInOffsets

  /** `OffsetRange`: the half-open range of offsets `[Start, End)`. */
  class OffsetRange {
    var start: Offset
    var end: Offset

    /** The zero value. */
    constructor ()
      ensures start == 0 && end == 0
    {
      start := 0;
      end := 0;
    }

    /** `FromProto`: a nil message is an error and leaves the range as it was;
        otherwise both offsets are copied, after which `ToProto` gives the
        message back. */
    method FromProto(proto: Option<OffsetsRangeProto>) returns (err: Option<OffsetsError>)
      modifies this
      ensures err.Some? <==> proto.None?
      ensures proto.None? ==> err == Some(ErrUnexpectedProtobufInOffsets) && start == old(start) && end == old(end)
      ensures proto.Some? ==> start == proto.value.start && end == proto.value.end
      ensures proto.Some? ==> ToProto() == proto.value
    {
      if proto.None? {
        return Some(ErrUnexpectedProtobufInOffsets);
      }
      start := proto.value.start;
      end := proto.value.end;
      return None;
    }

    /** `ToProto`: a message carrying the two offsets; the range itself is
        only read. */
    function ToProto(): (p: OffsetsRangeProto)
      reads this
      ensures p.start == start && p.end == end
    {
      OffsetsRangeProto(start, end)
    }
  }

  /** Two ranges with the same message hold the same offsets: `ToProto` loses
      nothing, so `FromProto` of it reproduces the range. */
  lemma ToProtoInjective(a: OffsetRange, b: OffsetRange)
    requires a.ToProto() == b.ToProto()
    ensures a.start == b.start && a.end == b.end
  {
  }
}
