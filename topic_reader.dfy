/** `rawtopicreader`: the messages of the topic read stream and their copies
    from and to protobuf. A nil protobuf pointer is `None`; timestamps, codecs
    and the optional durations of the read settings are not part of this
    model. */
module TopicReader {
  import opened Wrappers
  import opened TopicCommon

  /** The errors the copies from protobuf report. */
  datatype ReaderError =
    | ErrUnexpectedNilStreamReadMessageReadResponse
    | ErrNilPartitionData
    | ErrUnexpectedNilBatchInPartitionData
    | ErrUnexpectedMessageNilInPartitionData
    | ErrUnexpectedProtoNilStartPartitionSessionRequest
    | ErrUnexpectedNilPartitionSession
    | ErrUnexpectedGrpcNilStopPartitionSessionRequest
    /** The error of `CommitOffsetResponse.fromProto` on a nil entry. */
    | ErrNilCommittedOffset
    | OffsetsErr(offsets: OffsetsError)

  // ---------------------------------------------------------------------------
  // `PartitionSessionID` and `OptionalOffset`
  // ---------------------------------------------------------------------------

  /** `PartitionSessionID`. */
  newtype PartitionSessionId = x: int | -0x8000_0000_0000_0000 <= x < 0x8000_0000_0000_0000

  /** `PartitionSessionID.FromInt64`: the identifier with value `v`. */
  function SessionIdFromInt64(v: int64): (id: PartitionSessionId)
    ensures id as int == v as int
  {
    v as int as PartitionSessionId
  }

  /** `PartitionSessionID.ToInt64`. */
  function SessionIdToInt64(id: PartitionSessionId): (v: int64)
    ensures v as int == id as int
  {
    id as int as int64
  }

  /** The two conversions are inverse to each other. */
  lemma SessionIdRoundTrip(v: int64, id: PartitionSessionId)
    ensures SessionIdToInt64(SessionIdFromInt64(v)) == v
    ensures SessionIdFromInt64(SessionIdToInt64(id)) == id
  {
  }

  /** `OptionalOffset`: an offset that may be absent. An absent offset holds
      -1. */
  class OptionalOffset {
    var offset: Offset
    var hasValue: bool

    /** The zero value. */
    constructor ()
      ensures offset == 0 && !hasValue
    {
      offset := 0;
      hasValue := false;
    }

    /** `FromInt64Pointer`: nil clears the offset to -1, a value sets it; the
        pointer read back is the one given. */
    method FromInt64Pointer(value: Option<int64>)
      modifies this
      ensures hasValue == value.Some?
      ensures offset == if value.Some? then value.value else -1
      ensures ToInt64Pointer() == value
    {
      if value.None? {
        hasValue := false;
        offset := -1;
      } else {
        hasValue := true;
        offset := value.value;
      }
    }

    /** `FromInt64`: sets the offset to `v`. */
    method FromInt64(v: int64)
      modifies this
      ensures hasValue && offset == v
      ensures ToInt64() == v && ToInt64Pointer() == Some(v)
    {
      FromInt64Pointer(Some(v));
    }

    /** `ToInt64`: the stored offset, which is the value `ToInt64Pointer`
        points to whenever it is not nil. */
    function ToInt64(): (v: int64)
      reads this
      ensures ToInt64Pointer().Some? ==> v == ToInt64Pointer().value
    {
      offset
    }

    /** `ToInt64Pointer`: nil exactly when no offset is set. */
    function ToInt64Pointer(): (p: Option<int64>)
      reads this
      ensures p.Some? <==> hasValue
      ensures p.Some? ==> p.value == offset
    {
      if hasValue then Some(offset) else None
    }
  }

  // ---------------------------------------------------------------------------
  // `InitRequest`
  // ---------------------------------------------------------------------------

  /** `TopicReadSettings` without the optional lag and start time. */
  datatype TopicReadSettings = TopicReadSettings(path: string, partitionsId: seq<int64>)

  /** `InitRequest`. */
  datatype InitRequest = InitRequest(topicsReadSettings: seq<TopicReadSettings>, consumer: string)

  datatype TopicReadSettingsProto = TopicReadSettingsProto(path: string, partitionIds: seq<int64>)

  datatype InitRequestProto = InitRequestProto(consumer: string, topicsReadSettings: seq<TopicReadSettingsProto>)

  /** `InitRequest.toProto`: one message per topic, in order, with its path
      and a copy of its partition identifiers. */
  method InitRequestToProto(r: InitRequest) returns (proto: InitRequestProto)
    ensures proto.consumer == r.consumer
    ensures |proto.topicsReadSettings| == |r.topicsReadSettings|
    ensures forall i :: 0 <= i < |r.topicsReadSettings| ==>
              && proto.topicsReadSettings[i].path == r.topicsReadSettings[i].path
              && proto.topicsReadSettings[i].partitionIds == r.topicsReadSettings[i].partitionsId
  {
    var settings: seq<TopicReadSettingsProto> := [];
    for topicSettingsIndex := 0 to |r.topicsReadSettings|
      invariant |settings| == topicSettingsIndex
      invariant forall i :: 0 <= i < topicSettingsIndex ==>
                  && settings[i].path == r.topicsReadSettings[i].path
                  && settings[i].partitionIds == r.topicsReadSettings[i].partitionsId
    {
      var src := r.topicsReadSettings[topicSettingsIndex];
      var partitionsIds := CopyIds(src.partitionsId);
      settings := settings + [TopicReadSettingsProto(src.path, partitionsIds)];
    }
    proto := InitRequestProto(r.consumer, settings);
  }

  /** `copy` into a new slice of the same length. */
  method CopyIds(src: seq<int64>) returns (dst: seq<int64>)
    ensures dst == src
  {
    var a := new int64[|src|];
    for i := 0 to |src|
      invariant a[..i] == src[..i]
    {
      a[i] := src[i];
    }
    dst := a[..];
  }

  /** `InitRequest.GetTopics`: the path of every topic, in order. */
  method GetTopics(r: InitRequest) returns (res: seq<string>)
    ensures |res| == |r.topicsReadSettings|
    ensures forall i :: 0 <= i < |res| ==> res[i] == r.topicsReadSettings[i].path
  {
    res := [];
    for i := 0 to |r.topicsReadSettings|
      invariant |res| == i
      invariant forall k :: 0 <= k < i ==> res[k] == r.topicsReadSettings[k].path
    {
      res := res + [r.topicsReadSettings[i].path];
    }
  }

  // ---------------------------------------------------------------------------
  // `InitResponse`, `ReadRequest`
  // ---------------------------------------------------------------------------

  datatype InitResponseProto = InitResponseProto(sessionId: string)

  /** `InitResponse`. */
  class InitResponse {
    var sessionId: string

    constructor ()
      ensures sessionId == ""
    {
      sessionId := "";
    }

    /** `InitResponse.fromProto`: the session identifier, empty for a nil
        message (the getter of a nil message gives the zero value). */
    method FromProto(p: Option<InitResponseProto>)
      modifies this
      ensures sessionId == if p.Some? then p.value.sessionId else ""
    {
      sessionId := if p.Some? then p.value.sessionId else "";
    }
  }

  /** `ReadRequest`: the byte budget the client grants. */
  datatype ReadRequest = ReadRequest(bytesSize: int64)

  datatype ReadRequestProto = ReadRequestProto(bytesSize: int64)

  /** `ReadRequest.toProto`: the budget is sent unchanged. */
  function ReadRequestToProto(r: ReadRequest): (p: ReadRequestProto)
    ensures p.bytesSize == r.bytesSize
  {
    ReadRequestProto(r.bytesSize)
  }

  // ---------------------------------------------------------------------------
  // `ReadResponse`
  // ---------------------------------------------------------------------------

  datatype MetadataItem = MetadataItem(key: string, value: seq<bv8>)

  /** `GetKey` and `GetValue` of a metadata item pointer: a nil item reads as
      an empty key with no value. */
  function GetItem(item: Option<MetadataItem>): MetadataItem {
    match item
    case Some(it) => it
    case None => MetadataItem("", [])
  }

  /** The metadata items of a message read through the nil-safe getters. */
  function MetadataOf(src: seq<Option<MetadataItem>>): seq<MetadataItem> {
    seq(|src|, i requires 0 <= i < |src| => GetItem(src[i]))
  }

  datatype MessageDataProto = MessageDataProto(
    offset: int64, seqNo: int64, data: seq<bv8>, uncompressedSize: int64,
    messageGroupId: string, metadataItems: seq<Option<MetadataItem>>)

  datatype BatchProto = BatchProto(
    producerId: string, writeSessionMeta: map<string, string>, messageData: seq<Option<MessageDataProto>>)

  datatype PartitionDataProto = PartitionDataProto(partitionSessionId: int64, batches: seq<Option<BatchProto>>)

  datatype ReadResponseProto = ReadResponseProto(bytesSize: int64, partitionData: seq<Option<PartitionDataProto>>)

  /** `MessageData` without its creation time. */
  datatype MessageData = MessageData(
    offset: Offset, seqNo: int64, data: seq<bv8>, uncompressedSize: int64,
    messageGroupId: string, metadataItems: seq<MetadataItem>)

  /** `Batch` without its codec and write time. */
  datatype Batch = Batch(producerId: string, writeSessionMeta: map<string, string>, messageData: seq<MessageData>)

  datatype PartitionData = PartitionData(partitionSessionId: PartitionSessionId, batches: seq<Batch>)

  /** The copy of a list of protobuf pointers: every element converted by `f`
      in order, stopping at the first nil (`nilErr`) or the first failed
      conversion. */
  function Collect<A, B>(xs: seq<Option<A>>, f: A -> Result<B, ReaderError>, nilErr: ReaderError)
    : (r: Result<seq<B>, ReaderError>)
    ensures r.Ok? ==> |r.value| == |xs|
  {
    if xs == [] then Ok([])
    else
      match Collect(xs[..|xs| - 1], f, nilErr)
      case Err(e) => Err(e)
      case Ok(done) =>
        match xs[|xs| - 1]
        case None => Err(nilErr)
        case Some(x) =>
          match f(x)
          case Err(e) => Err(e)
          case Ok(y) => Ok(done + [y])
  }

  /** The copy succeeds exactly when no element is nil and every conversion
      succeeds, and then holds the conversions in order; otherwise it fails
      with the error of the first element that is nil or fails. */
  lemma {:induction false} CollectMeaning<A, B>(xs: seq<Option<A>>, f: A -> Result<B, ReaderError>, nilErr: ReaderError)
    ensures Collect(xs, f, nilErr).Ok? <==> forall i :: 0 <= i < |xs| ==> xs[i].Some? && f(xs[i].value).Ok?
    ensures Collect(xs, f, nilErr).Ok? ==>
              forall i :: 0 <= i < |xs| ==> Collect(xs, f, nilErr).value[i] == f(xs[i].value).value
    ensures Collect(xs, f, nilErr).Err? ==>
              exists i :: 0 <= i < |xs| && (forall j :: 0 <= j < i ==> xs[j].Some? && f(xs[j].value).Ok?)
                && (xs[i].None? || f(xs[i].value).Err?)
                && Collect(xs, f, nilErr).error == if xs[i].None? then nilErr else f(xs[i].value).error
  {
    if xs != [] {
      var pre := xs[..|xs| - 1];
      CollectMeaning(pre, f, nilErr);
      assert forall i :: 0 <= i < |pre| ==> pre[i] == xs[i];
    }
  }

  /** One more element copied. */
  lemma CollectStep<A, B>(xs: seq<Option<A>>, i: nat, f: A -> Result<B, ReaderError>, nilErr: ReaderError)
    requires i < |xs| && Collect(xs[..i], f, nilErr).Ok?
    ensures Collect(xs[..i + 1], f, nilErr)
            == match xs[i]
               case None => Err(nilErr)
               case Some(x) =>
                 match f(x)
                 case Err(e) => Err(e)
                 case Ok(y) => Ok(Collect(xs[..i], f, nilErr).value + [y])
  {
    assert xs[..i + 1][..i] == xs[..i];
  }

  /** A failure on a prefix is the failure of the whole copy. */
  lemma {:induction false} CollectErrPersists<A, B>(xs: seq<Option<A>>, i: nat, f: A -> Result<B, ReaderError>, nilErr: ReaderError)
    requires i <= |xs| && Collect(xs[..i], f, nilErr).Err?
    ensures Collect(xs, f, nilErr) == Collect(xs[..i], f, nilErr)
  {
    if i < |xs| {
      var pre := xs[..|xs| - 1];
      assert pre[..i] == xs[..i];
      CollectErrPersists(pre, i, f, nilErr);
    } else {
      assert xs[..i] == xs;
    }
  }

  /** The copy of one message (it cannot fail). */
  function MessageFromProto(m: MessageDataProto): Result<MessageData, ReaderError> {
    Ok(MessageData(m.offset, m.seqNo, m.data, m.uncompressedSize, m.messageGroupId, MetadataOf(m.metadataItems)))
  }

  /** The copy of one batch: its messages, none of them nil. */
  function BatchFromProto(b: BatchProto): Result<Batch, ReaderError> {
    match Collect(b.messageData, MessageFromProto, ErrUnexpectedMessageNilInPartitionData)
    case Err(e) => Err(e)
    case Ok(ms) => Ok(Batch(b.producerId, b.writeSessionMeta, ms))
  }

  /** The copy of one partition: its batches, none of them nil. */
  function PartitionFromProto(p: PartitionDataProto): Result<PartitionData, ReaderError> {
    match Collect(p.batches, BatchFromProto, ErrUnexpectedNilBatchInPartitionData)
    case Err(e) => Err(e)
    case Ok(bs) => Ok(PartitionData(SessionIdFromInt64(p.partitionSessionId), bs))
  }

  /** The partitions of a read response. */
  function PartitionsFromProto(ps: seq<Option<PartitionDataProto>>): Result<seq<PartitionData>, ReaderError> {
    Collect(ps, PartitionFromProto, ErrNilPartitionData)
  }

  /** `ReadResponse`. */
  class ReadResponse {
    var bytesSize: int64
    var partitionData: seq<PartitionData>

    constructor ()
      ensures bytesSize == 0 && partitionData == []
    {
      bytesSize := 0;
      partitionData := [];
    }

    /** `ReadResponse.fromProto`: a nil response is an error; otherwise the
        byte size and every partition, batch and message are copied in order,
        and the first nil partition, batch or message met is an error. */
    method FromProto(proto: Option<ReadResponseProto>) returns (err: Option<ReaderError>)
      modifies this
      ensures proto.None? ==> err == Some(ErrUnexpectedNilStreamReadMessageReadResponse)
      ensures proto.Some? ==> bytesSize == proto.value.bytesSize
      ensures proto.Some? && PartitionsFromProto(proto.value.partitionData).Err? ==>
                err == Some(PartitionsFromProto(proto.value.partitionData).error)
      ensures proto.Some? && PartitionsFromProto(proto.value.partitionData).Ok? ==>
                err.None? && partitionData == PartitionsFromProto(proto.value.partitionData).value
    {
      if proto.None? {
        return Some(ErrUnexpectedNilStreamReadMessageReadResponse);
      }
      bytesSize := proto.value.bytesSize;
      var src := proto.value.partitionData;
      var copied: seq<PartitionData> := [];
      for partitionIndex := 0 to |src|
        invariant bytesSize == proto.value.bytesSize
        invariant PartitionsFromProto(src[..partitionIndex]) == Ok(copied)
      {
        CollectStep(src, partitionIndex, PartitionFromProto, ErrNilPartitionData);
        if src[partitionIndex].None? {
          CollectErrPersists(src, partitionIndex + 1, PartitionFromProto, ErrNilPartitionData);
          return Some(ErrNilPartitionData);
        }
        var srcPartition := src[partitionIndex].value;
        var batches := CopyBatches(srcPartition.batches);
        if batches.Err? {
          CollectErrPersists(src, partitionIndex + 1, PartitionFromProto, ErrNilPartitionData);
          return Some(batches.error);
        }
        copied := copied + [PartitionData(SessionIdFromInt64(srcPartition.partitionSessionId), batches.value)];
      }
      assert src[..|src|] == src;
      partitionData := copied;
      return None;
    }

    /** `GetPartitionBatchMessagesCounts`: the number of partitions, of
        batches over all partitions and of messages over all batches. */
    method GetPartitionBatchMessagesCounts() returns (partitionDataCount: nat, batchCount: nat, messagesCount: nat)
      ensures partitionDataCount == |partitionData|
      ensures batchCount == TotalBatches(partitionData)
      ensures messagesCount == TotalMessages(partitionData)
    {
      partitionDataCount := |partitionData|;
      batchCount, messagesCount := 0, 0;
      for partitionIndex := 0 to |partitionData|
        invariant batchCount == TotalBatches(partitionData[..partitionIndex])
        invariant messagesCount == TotalMessages(partitionData[..partitionIndex])
      {
        var batches := partitionData[partitionIndex].batches;
        batchCount := batchCount + |batches|;
        ghost var before := messagesCount;
        for batchIndex := 0 to |batches|
          invariant messagesCount == before + BatchMessages(batches[..batchIndex])
        {
          assert batches[..batchIndex + 1][..batchIndex] == batches[..batchIndex];
          messagesCount := messagesCount + |batches[batchIndex].messageData|;
        }
        assert batches[..|batches|] == batches;
        assert partitionData[..partitionIndex + 1][..partitionIndex] == partitionData[..partitionIndex];
      }
      assert partitionData[..|partitionData|] == partitionData;
    }
  }

  /** The batches of a partition, copied in order. */
  method CopyBatches(src: seq<Option<BatchProto>>) returns (r: Result<seq<Batch>, ReaderError>)
    ensures r == Collect(src, BatchFromProto, ErrUnexpectedNilBatchInPartitionData)
  {
    var copied: seq<Batch> := [];
    for batchIndex := 0 to |src|
      invariant Collect(src[..batchIndex], BatchFromProto, ErrUnexpectedNilBatchInPartitionData) == Ok(copied)
    {
      CollectStep(src, batchIndex, BatchFromProto, ErrUnexpectedNilBatchInPartitionData);
      if src[batchIndex].None? {
        CollectErrPersists(src, batchIndex + 1, BatchFromProto, ErrUnexpectedNilBatchInPartitionData);
        return Err(ErrUnexpectedNilBatchInPartitionData);
      }
      var srcBatch := src[batchIndex].value;
      var messages := CopyMessages(srcBatch.messageData);
      if messages.Err? {
        CollectErrPersists(src, batchIndex + 1, BatchFromProto, ErrUnexpectedNilBatchInPartitionData);
        return Err(messages.error);
      }
      copied := copied + [Batch(srcBatch.producerId, srcBatch.writeSessionMeta, messages.value)];
    }
    assert src[..|src|] == src;
    return Ok(copied);
  }

  /** The messages of a batch, copied in order. */
  method CopyMessages(src: seq<Option<MessageDataProto>>) returns (r: Result<seq<MessageData>, ReaderError>)
    ensures r == Collect(src, MessageFromProto, ErrUnexpectedMessageNilInPartitionData)
  {
    var copied: seq<MessageData> := [];
    for messageIndex := 0 to |src|
      invariant Collect(src[..messageIndex], MessageFromProto, ErrUnexpectedMessageNilInPartitionData) == Ok(copied)
    {
      CollectStep(src, messageIndex, MessageFromProto, ErrUnexpectedMessageNilInPartitionData);
      if src[messageIndex].None? {
        CollectErrPersists(src, messageIndex + 1, MessageFromProto, ErrUnexpectedMessageNilInPartitionData);
        return Err(ErrUnexpectedMessageNilInPartitionData);
      }
      var srcMessage := src[messageIndex].value;
      var items := CopyMetadata(srcMessage.metadataItems);
      copied := copied + [MessageData(srcMessage.offset, srcMessage.seqNo, srcMessage.data,
                                      srcMessage.uncompressedSize, srcMessage.messageGroupId, items)];
    }
    assert src[..|src|] == src;
    return Ok(copied);
  }

  /** The metadata items of a message, appended one by one (none when the
      message has none): every item keeps its key and value, in order, and a
      nil item becomes an empty key with no value. */
  method CopyMetadata(src: seq<Option<MetadataItem>>) returns (items: seq<MetadataItem>)
    ensures |items| == |src|
    ensures forall i :: 0 <= i < |src| && src[i].Some? ==> items[i] == src[i].value
    ensures forall i :: 0 <= i < |src| && src[i].None? ==> items[i].key == "" && items[i].value == []
    ensures items == MetadataOf(src)
  {
    items := [];
    if |src| > 0 {
      for i := 0 to |src|
        invariant items == MetadataOf(src[..i])
      {
        var protoItem := src[i];
        var key := if protoItem.Some? then protoItem.value.key else "";
        var value := if protoItem.Some? then protoItem.value.value else [];
        items := items + [MetadataItem(key, value)];
      }
      assert src[..|src|] == src;
    }
  }

  /** The number of batches over all partitions. */
  function TotalBatches(ps: seq<PartitionData>): nat {
    if ps == [] then 0 else TotalBatches(ps[..|ps| - 1]) + |ps[|ps| - 1].batches|
  }

  /** The number of messages over the batches. */
  function BatchMessages(bs: seq<Batch>): nat {
    if bs == [] then 0 else BatchMessages(bs[..|bs| - 1]) + |bs[|bs| - 1].messageData|
  }

  /** The number of messages over all batches of all partitions. */
  function TotalMessages(ps: seq<PartitionData>): nat {
    if ps == [] then 0 else TotalMessages(ps[..|ps| - 1]) + BatchMessages(ps[|ps| - 1].batches)
  }

  /** All messages of a response, partition by partition and batch by batch. */
  function AllMessages(ps: seq<PartitionData>): seq<MessageData> {
    if ps == [] then [] else AllMessages(ps[..|ps| - 1]) + BatchesMessages(ps[|ps| - 1].batches)
  }

  function BatchesMessages(bs: seq<Batch>): seq<MessageData> {
    if bs == [] then [] else BatchesMessages(bs[..|bs| - 1]) + bs[|bs| - 1].messageData
  }

  /** The message count is the length of the list of all messages. */
  lemma {:induction false} MessageCountIsAll(ps: seq<PartitionData>)
    ensures TotalMessages(ps) == |AllMessages(ps)|
  {
    if ps != [] {
      MessageCountIsAll(ps[..|ps| - 1]);
      BatchMessagesIsAll(ps[|ps| - 1].batches);
    }
  }

  lemma {:induction false} BatchMessagesIsAll(bs: seq<Batch>)
    ensures BatchMessages(bs) == |BatchesMessages(bs)|
  {
    if bs != [] {
      BatchMessagesIsAll(bs[..|bs| - 1]);
    }
  }

  /** A copied response keeps the shape of the message: as many partitions,
      each with as many batches, each with as many messages, in order. */
  lemma ReadResponseShape(ps: seq<Option<PartitionDataProto>>)
    requires PartitionsFromProto(ps).Ok?
    ensures var r := PartitionsFromProto(ps).value;
            && |r| == |ps|
            && forall i :: 0 <= i < |ps| ==>
                 && ps[i].Some?
                 && r[i].partitionSessionId == SessionIdFromInt64(ps[i].value.partitionSessionId)
                 && |r[i].batches| == |ps[i].value.batches|
                 && forall j :: 0 <= j < |ps[i].value.batches| ==>
                      && ps[i].value.batches[j].Some?
                      && BatchFromProto(ps[i].value.batches[j].value).Ok?
                      && r[i].batches[j] == BatchFromProto(ps[i].value.batches[j].value).value
                      && |r[i].batches[j].messageData| == |ps[i].value.batches[j].value.messageData|
  {
    CollectMeaning(ps, PartitionFromProto, ErrNilPartitionData);
    forall i | 0 <= i < |ps|
      ensures var r := PartitionsFromProto(ps).value;
              && r[i].partitionSessionId == SessionIdFromInt64(ps[i].value.partitionSessionId)
              && |r[i].batches| == |ps[i].value.batches|
              && forall j :: 0 <= j < |ps[i].value.batches| ==>
                   && ps[i].value.batches[j].Some?
                   && BatchFromProto(ps[i].value.batches[j].value).Ok?
                   && r[i].batches[j] == BatchFromProto(ps[i].value.batches[j].value).value
                   && |r[i].batches[j].messageData| == |ps[i].value.batches[j].value.messageData|
    {
      var p := ps[i].value;
      CollectMeaning(p.batches, BatchFromProto, ErrUnexpectedNilBatchInPartitionData);
    }
  }

  /** A nil message in any batch of any partition makes the copy fail. */
  lemma NilMessageFails(ps: seq<Option<PartitionDataProto>>, i: nat, j: nat, k: nat)
    requires i < |ps| && ps[i].Some?
    requires j < |ps[i].value.batches| && ps[i].value.batches[j].Some?
    requires k < |ps[i].value.batches[j].value.messageData| && ps[i].value.batches[j].value.messageData[k].None?
    ensures PartitionsFromProto(ps).Err?
  {
    var b := ps[i].value.batches[j].value;
    CollectMeaning(b.messageData, MessageFromProto, ErrUnexpectedMessageNilInPartitionData);
    CollectMeaning(ps[i].value.batches, BatchFromProto, ErrUnexpectedNilBatchInPartitionData);
    CollectMeaning(ps, PartitionFromProto, ErrNilPartitionData);
  }

  // ---------------------------------------------------------------------------
  // `CommitOffsetRequest`, `CommitOffsetResponse`
  // ---------------------------------------------------------------------------

  /** `PartitionCommitOffset`: the ranges to commit in one partition session. */
  datatype PartitionCommitOffset = PartitionCommitOffset(partitionSessionId: PartitionSessionId, offsets: seq<OffsetRange>)

  datatype PartitionCommitOffsetProto = PartitionCommitOffsetProto(partitionSessionId: int64, offsets: seq<OffsetsRangeProto>)

  /** `CommitOffsetRequest.toProto`: one entry per partition session, in
      order, each with its ranges in order. */
  method CommitOffsetRequestToProto(commitOffsets: seq<PartitionCommitOffset>) returns (res: seq<PartitionCommitOffsetProto>)
    ensures |res| == |commitOffsets|
    ensures forall i :: 0 <= i < |res| ==>
              && res[i].partitionSessionId == SessionIdToInt64(commitOffsets[i].partitionSessionId)
              && |res[i].offsets| == |commitOffsets[i].offsets|
              && forall j :: 0 <= j < |res[i].offsets| ==> res[i].offsets[j] == commitOffsets[i].offsets[j].ToProto()
  {
    res := [];
    for sessionIndex := 0 to |commitOffsets|
      invariant |res| == sessionIndex
      invariant forall i :: 0 <= i < sessionIndex ==>
                  && res[i].partitionSessionId == SessionIdToInt64(commitOffsets[i].partitionSessionId)
                  && |res[i].offsets| == |commitOffsets[i].offsets|
                  && forall j :: 0 <= j < |res[i].offsets| ==> res[i].offsets[j] == commitOffsets[i].offsets[j].ToProto()
    {
      var src := commitOffsets[sessionIndex];
      var offsets: seq<OffsetsRangeProto> := [];
      for offsetIndex := 0 to |src.offsets|
        invariant |offsets| == offsetIndex
        invariant forall j :: 0 <= j < offsetIndex ==> offsets[j] == src.offsets[j].ToProto()
      {
        offsets := offsets + [src.offsets[offsetIndex].ToProto()];
      }
      res := res + [PartitionCommitOffsetProto(SessionIdToInt64(src.partitionSessionId), offsets)];
    }
  }

  /** `PartitionCommittedOffset`. */
  datatype PartitionCommittedOffset = PartitionCommittedOffset(partitionSessionId: PartitionSessionId, committedOffset: Offset)

  datatype PartitionCommittedOffsetProto = PartitionCommittedOffsetProto(partitionSessionId: int64, committedOffset: int64)

  datatype CommitOffsetResponseProto = CommitOffsetResponseProto(partitionsCommittedOffsets: seq<Option<PartitionCommittedOffsetProto>>)

  /** The copy of one committed offset (it cannot fail). */
  function CommittedFromProto(p: PartitionCommittedOffsetProto): Result<PartitionCommittedOffset, ReaderError> {
    Ok(PartitionCommittedOffset(SessionIdFromInt64(p.partitionSessionId), p.committedOffset))
  }

  /** The entries of a commit response; a nil response has none. */
  function CommittedEntries(proto: Option<CommitOffsetResponseProto>): seq<Option<PartitionCommittedOffsetProto>> {
    if proto.None? then [] else proto.value.partitionsCommittedOffsets
  }

  /** `CommitOffsetResponse`. */
  class CommitOffsetResponse {
    var partitionsCommittedOffsets: seq<PartitionCommittedOffset>

    constructor ()
      ensures partitionsCommittedOffsets == []
    {
      partitionsCommittedOffsets := [];
    }

    /** `CommitOffsetResponse.fromProto`: one entry per entry of the message,
        in order; a nil entry is an error. A nil message has no entries and is
        not an error. */
    method FromProto(proto: Option<CommitOffsetResponseProto>) returns (err: Option<ReaderError>)
      modifies this
      ensures var r := Collect(CommittedEntries(proto), CommittedFromProto, ErrNilCommittedOffset);
              && (r.Err? ==> err == Some(r.error))
              && (r.Ok? ==> err.None? && partitionsCommittedOffsets == r.value)
    {
      var src := CommittedEntries(proto);
      var copied: seq<PartitionCommittedOffset> := [];
      for i := 0 to |src|
        invariant Collect(src[..i], CommittedFromProto, ErrNilCommittedOffset) == Ok(copied)
      {
        CollectStep(src, i, CommittedFromProto, ErrNilCommittedOffset);
        if src[i].None? {
          CollectErrPersists(src, i + 1, CommittedFromProto, ErrNilCommittedOffset);
          return Some(ErrNilCommittedOffset);
        }
        var srcCommitted := src[i].value;
        copied := copied + [PartitionCommittedOffset(SessionIdFromInt64(srcCommitted.partitionSessionId),
                                                     srcCommitted.committedOffset)];
      }
      assert src[..|src|] == src;
      partitionsCommittedOffsets := copied;
      return None;
    }
  }

  /** A commit response copies exactly when none of its entries is nil, and
      then holds each entry's session and offset in order. */
  lemma CommittedMeaning(proto: Option<CommitOffsetResponseProto>)
    ensures var es := CommittedEntries(proto);
            var r := Collect(es, CommittedFromProto, ErrNilCommittedOffset);
            && (r.Ok? <==> forall i :: 0 <= i < |es| ==> es[i].Some?)
            && (r.Ok? ==> |r.value| == |es| && forall i :: 0 <= i < |es| ==>
                  r.value[i].partitionSessionId == SessionIdFromInt64(es[i].value.partitionSessionId)
                  && r.value[i].committedOffset == es[i].value.committedOffset)
            && (r.Err? ==> r.error == ErrNilCommittedOffset)
  {
    CollectMeaning(CommittedEntries(proto), CommittedFromProto, ErrNilCommittedOffset);
  }

  // ---------------------------------------------------------------------------
  // Partition session messages
  // ---------------------------------------------------------------------------

  /** `PartitionSessionStatusRequest`. */
  datatype PartitionSessionStatusRequest = PartitionSessionStatusRequest(partitionSessionId: PartitionSessionId)

  /** `PartitionSessionStatusRequest.toProto`: the session identifier. */
  function StatusRequestToProto(r: PartitionSessionStatusRequest): (id: int64)
    ensures SessionIdFromInt64(id) == r.partitionSessionId
  {
    SessionIdToInt64(r.partitionSessionId)
  }

  datatype PartitionSessionStatusResponseProto = PartitionSessionStatusResponseProto(
    partitionSessionId: int64, partitionOffsets: Option<OffsetsRangeProto>)

  /** `PartitionSessionStatusResponse` without the write-time watermark. */
  class PartitionSessionStatusResponse {
    var partitionSessionId: PartitionSessionId
    const partitionOffsets: OffsetRange

    constructor ()
      ensures partitionSessionId == 0 && fresh(partitionOffsets)
    {
      partitionSessionId := 0;
      partitionOffsets := new OffsetRange();
    }

    /** `PartitionSessionStatusResponse.fromProto`: the session identifier is
        set first (zero for a nil message), then the offsets are copied, a nil
        range being the error of `OffsetRange.FromProto`, which leaves the
        range as it was. */
    method FromProto(proto: Option<PartitionSessionStatusResponseProto>) returns (err: Option<ReaderError>)
      modifies this, partitionOffsets
      ensures partitionSessionId == SessionIdFromInt64(if proto.Some? then proto.value.partitionSessionId else 0)
      ensures err.Some? <==> proto.None? || proto.value.partitionOffsets.None?
      ensures err.Some? ==> err == Some(OffsetsErr(ErrUnexpectedProtobufInOffsets))
      ensures err.Some? ==> partitionOffsets.start == old(partitionOffsets.start) && partitionOffsets.end == old(partitionOffsets.end)
      ensures err.None? ==> partitionOffsets.ToProto() == proto.value.partitionOffsets.value
    {
      partitionSessionId := SessionIdFromInt64(if proto.Some? then proto.value.partitionSessionId else 0);
      var offsets := if proto.Some? then proto.value.partitionOffsets else None;
      var e := partitionOffsets.FromProto(offsets);
      if e.Some? {
        return Some(OffsetsErr(e.value));
      }
      return None;
    }
  }

  /** `PartitionSession`. */
  datatype PartitionSession = PartitionSession(partitionSessionId: PartitionSessionId, path: string, partitionId: int64)

  datatype PartitionSessionProto = PartitionSessionProto(partitionSessionId: int64, path: string, partitionId: int64)

  datatype StartPartitionSessionRequestProto = StartPartitionSessionRequestProto(
    partitionSession: Option<PartitionSessionProto>, committedOffset: int64, partitionOffsets: Option<OffsetsRangeProto>)

  /** `StartPartitionSessionRequest`. */
  class StartPartitionSessionRequest {
    var partitionSession: PartitionSession
    var committedOffset: Offset
    const partitionOffsets: OffsetRange

    constructor ()
      ensures partitionSession == PartitionSession(0, "", 0) && committedOffset == 0 && fresh(partitionOffsets)
    {
      partitionSession := PartitionSession(0, "", 0);
      committedOffset := 0;
      partitionOffsets := new OffsetRange();
    }

    /** `StartPartitionSessionRequest.fromProto`: a nil message or a nil
        partition session is an error that changes nothing; otherwise the
        session and the committed offset are copied, then the offsets, a nil
        range being the error of `OffsetRange.FromProto`. No error touches
        the offset range. */
    method FromProto(proto: Option<StartPartitionSessionRequestProto>) returns (err: Option<ReaderError>)
      modifies this, partitionOffsets
      ensures proto.None? ==>
                err == Some(ErrUnexpectedProtoNilStartPartitionSessionRequest)
                && partitionSession == old(partitionSession) && committedOffset == old(committedOffset)
      ensures proto.Some? && proto.value.partitionSession.None? ==>
                err == Some(ErrUnexpectedNilPartitionSession)
                && partitionSession == old(partitionSession) && committedOffset == old(committedOffset)
      ensures proto.Some? && proto.value.partitionSession.Some? ==>
                var s := proto.value.partitionSession.value;
                && partitionSession == PartitionSession(SessionIdFromInt64(s.partitionSessionId), s.path, s.partitionId)
                && committedOffset == proto.value.committedOffset
                && (err.Some? <==> proto.value.partitionOffsets.None?)
                && (err.Some? ==> err == Some(OffsetsErr(ErrUnexpectedProtobufInOffsets)))
                && (err.None? ==> partitionOffsets.ToProto() == proto.value.partitionOffsets.value)
      ensures err.Some? ==> partitionOffsets.start == old(partitionOffsets.start) && partitionOffsets.end == old(partitionOffsets.end)
    {
      if proto.None? {
        return Some(ErrUnexpectedProtoNilStartPartitionSessionRequest);
      }
      if proto.value.partitionSession.None? {
        return Some(ErrUnexpectedNilPartitionSession);
      }
      var s := proto.value.partitionSession.value;
      partitionSession := partitionSession.(partitionId := s.partitionId);
      partitionSession := partitionSession.(path := s.path);
      partitionSession := partitionSession.(partitionSessionId := SessionIdFromInt64(s.partitionSessionId));
      committedOffset := proto.value.committedOffset;
      var e := partitionOffsets.FromProto(proto.value.partitionOffsets);
      if e.Some? {
        return Some(OffsetsErr(e.value));
      }
      return None;
    }
  }

  /** `StartPartitionSessionResponse`: the offsets the client starts reading
      and committing from, each possibly absent. */
  datatype StartPartitionSessionResponse = StartPartitionSessionResponse(
    partitionSessionId: PartitionSessionId, readOffset: OptionalOffset, commitOffset: OptionalOffset)

  datatype StartPartitionSessionResponseProto = StartPartitionSessionResponseProto(
    partitionSessionId: int64, readOffset: Option<int64>, commitOffset: Option<int64>)

  /** `StartPartitionSessionResponse.toProto`: an absent offset is sent as
      nil, a present one as its value. */
  function StartResponseToProto(r: StartPartitionSessionResponse): (p: StartPartitionSessionResponseProto)
    reads r.readOffset, r.commitOffset
    ensures SessionIdFromInt64(p.partitionSessionId) == r.partitionSessionId
    ensures p.readOffset.Some? <==> r.readOffset.hasValue
    ensures p.readOffset.Some? ==> p.readOffset.value == r.readOffset.offset
    ensures p.commitOffset.Some? <==> r.commitOffset.hasValue
    ensures p.commitOffset.Some? ==> p.commitOffset.value == r.commitOffset.offset
  {
    StartPartitionSessionResponseProto(
      SessionIdToInt64(r.partitionSessionId), r.readOffset.ToInt64Pointer(), r.commitOffset.ToInt64Pointer())
  }

  datatype StopPartitionSessionRequestProto = StopPartitionSessionRequestProto(
    partitionSessionId: int64, graceful: bool, committedOffset: int64)

  /** `StopPartitionSessionRequest`. */
  class StopPartitionSessionRequest {
    var partitionSessionId: PartitionSessionId
    var graceful: bool
    var committedOffset: Offset

    constructor ()
      ensures partitionSessionId == 0 && !graceful && committedOffset == 0
    {
      partitionSessionId := 0;
      graceful := false;
      committedOffset := 0;
    }

    /** `StopPartitionSessionRequest.fromProto`: a nil message is an error that
        changes nothing; otherwise the three fields are copied. */
    method FromProto(proto: Option<StopPartitionSessionRequestProto>) returns (err: Option<ReaderError>)
      modifies this
      ensures err.Some? <==> proto.None?
      ensures proto.None? ==>
                err == Some(ErrUnexpectedGrpcNilStopPartitionSessionRequest)
                && partitionSessionId == old(partitionSessionId) && graceful == old(graceful)
                && committedOffset == old(committedOffset)
      ensures proto.Some? ==>
                && SessionIdToInt64(partitionSessionId) == proto.value.partitionSessionId
                && graceful == proto.value.graceful && committedOffset == proto.value.committedOffset
    {
      if proto.None? {
        return Some(ErrUnexpectedGrpcNilStopPartitionSessionRequest);
      }
      partitionSessionId := SessionIdFromInt64(proto.value.partitionSessionId);
      graceful := proto.value.graceful;
      committedOffset := proto.value.committedOffset;
      return None;
    }
  }

  /** `StopPartitionSessionResponse`. */
  datatype StopPartitionSessionResponse = StopPartitionSessionResponse(partitionSessionId: PartitionSessionId)

  /** `StopPartitionSessionResponse.toProto`: the session identifier. */
  function StopResponseToProto(r: StopPartitionSessionResponse): (id: int64)
    ensures SessionIdFromInt64(id) == r.partitionSessionId
  {
    SessionIdToInt64(r.partitionSessionId)
  }
}
