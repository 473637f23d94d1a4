/** `UploadObject` and `CopyObject` (pkg/cloudprovider/objectstore.go), run against a
    bucket any of whose calls may fail. */
module Transfer {
  import opened Arith
  import opened Bucket
  import opened ByteRange
  import opened TransferPlan

  datatype Stage = SourceStage | PutStage | TooBigStage | InitStage | PartStage | CompleteStage

  datatype Result = Done | Failed(stage: Stage)

  /** How many bytes of the input the parts ask for: more than the object when the last
      part is left with a negative size. */
  function Sent(plan: Plan, sizeBytes: int): int
    requires plan.Multipart?
  {
    if LastSize(plan, sizeBytes) >= 0 then sizeBytes else plan.size * (plan.count - 1)
  }

  /** The calls for the parts sent so far, one etag each. `UploadObject` passes the
      offset of each part, `CopyObject` always 0. */
  function PartCall(key: string, id: int, plan: Plan, total: int, copying: bool, k: int, etag: int, ok: bool): Call
    requires plan.Multipart?
  {
    PutPart(key, id, k + 1, PartSize(plan, total, k), if copying then 0 else PartOffset(plan, k), total, etag, ok)
  }

  function PartCalls(key: string, id: int, plan: Plan, total: int, copying: bool, etags: seq<int>): seq<Call>
    requires plan.Multipart?
  {
    seq(|etags|, k requires 0 <= k < |etags| => PartCall(key, id, plan, total, copying, k, etags[k], true))
  }

  /** Everything a transfer in parts calls: create, the parts in order, then complete;
      after any failure but that of create, abort, once, and nothing more. */
  ghost predicate Protocol(calls: seq<Call>, key: string, plan: Plan, total: int, copying: bool,
                           id: int, etags: seq<int>, failed: seq<Call>, aborted: bool, r: Result)
    requires plan.Multipart?
  {
    var parts := [NewUpload(key, id, true)] + PartCalls(key, id, plan, total, copying, etags);
    match r
    case Done =>
      |etags| == plan.count && calls == parts + [Complete(key, id, etags, true)]
    case Failed(CompleteStage) =>
      |etags| == plan.count && calls == parts + [Complete(key, id, etags, false), Abort(key, id, aborted)]
    case Failed(PartStage) =>
      && |etags| < plan.count && calls == parts + failed + [Abort(key, id, aborted)]
      && (failed == [] || exists e :: failed == [PartCall(key, id, plan, total, copying, |etags|, e, false)])
      && (failed == [] ==> copying)
    case Failed(InitStage) =>
      calls == [NewUpload(key, id, false)]
    case Failed(_) => false
  }

  /** The upload holds exactly these parts, which put together are `data`. */
  ghost predicate Holds(uploads: map<int, Upload>, key: string, id: int, etags: seq<int>, data: seq<Byte>) {
    && id in uploads && uploads[id].key == key
    && PartsMatch(uploads[id].parts, etags) && Assemble(uploads[id].parts, |etags|) == data
  }

  lemma OneMorePart(before: map<int, Upload>, after: map<int, Upload>, key: string, id: int,
                    etags: seq<int>, data: seq<Byte>, part: Part)
    requires Holds(before, key, id, etags, data)
    requires PartAdded(before, after, id, |etags| + 1, part)
    ensures Holds(after, key, id, etags + [part.etag], data + part.data)
    ensures after - {id} == before - {id}
  {
    var n := |etags|;
    AssembleFrame(before[id].parts, n, n + 1, part);
    var parts := after[id].parts;
    assert parts == before[id].parts[n + 1 := part];
    forall k | 0 <= k < n + 1 ensures HasPart(parts, k + 1, (etags + [part.etag])[k]) {
      assert k < n ==> HasPart(before[id].parts, k + 1, etags[k]);
    }
    assert Assemble(parts, n + 1) == Assemble(parts, n) + part.data;
  }

  /** Part `i` continues the data where the parts before it left off. */
  lemma PartArrived(plan: Plan, sizeBytes: int, data: seq<Byte>, i: int)
    requires plan.Multipart? && 0 <= i < plan.count && plan.size > 0
    ensures Take(data, i * plan.size) + Take(Drop(data, i * plan.size), PartSize(plan, sizeBytes, i))
      == Take(data, if i + 1 < plan.count then (i + 1) * plan.size else Sent(plan, sizeBytes))
    ensures i + 1 < plan.count ==> Drop(Drop(data, i * plan.size), plan.size) == Drop(data, (i + 1) * plan.size)
    ensures (i + 1) * plan.size == i * plan.size + plan.size
  {
    MulSub(plan.size, i + 1);
    MulSub(plan.size, plan.count);
    MulMono(0, i, plan.size);
    TakeThenTake(data, i * plan.size, PartSize(plan, sizeBytes, i));
  }

  /** Storing part `i` extends what the upload holds, and the record of the calls. */
  lemma PartStored(before: map<int, Upload>, after: map<int, Upload>, key: string, id: int, sent: seq<int>,
                   plan: Plan, sizeBytes: int, copying: bool, data: seq<Byte>, etag: int)
    requires plan.Multipart? && |sent| < plan.count && plan.size > 0
    requires Holds(before, key, id, sent, Take(data, |sent| * plan.size))
    requires PartAdded(before, after, id, |sent| + 1,
      Part(etag, Take(Drop(data, |sent| * plan.size), PartSize(plan, sizeBytes, |sent|))))
    ensures var n := |sent| + 1;
      Holds(after, key, id, sent + [etag], Take(data, if n < plan.count then n * plan.size else Sent(plan, sizeBytes)))
    ensures after - {id} == before - {id}
    ensures PartCalls(key, id, plan, sizeBytes, copying, sent + [etag])
      == PartCalls(key, id, plan, sizeBytes, copying, sent)
         + [PartCall(key, id, plan, sizeBytes, copying, |sent|, etag, true)]
  {
    var i := |sent|;
    OneMoreCall(key, id, plan, sizeBytes, copying, sent, etag);
    PartArrived(plan, sizeBytes, data, i);
    OneMorePart(before, after, key, id, sent, Take(data, i * plan.size),
                Part(etag, Take(Drop(data, i * plan.size), PartSize(plan, sizeBytes, i))));
  }

  method UploadParts(bucket: Bucket, key: string, id: int, plan: Plan, input: Reader, sizeBytes: int)
    returns (ok: bool, etags: array<int>, ghost sent: seq<int>, ghost failed: seq<Call>)
    requires bucket.Valid() && plan.Multipart? && plan.count > 0 && plan.size > 0
    requires id in bucket.uploads && bucket.uploads[id] == Upload(key, map[])
    modifies bucket`uploads, bucket`nextEtag, bucket`calls, input
    ensures bucket.Valid()
    ensures bucket.uploads - {id} == old(bucket.uploads) - {id}
    ensures bucket.calls == old(bucket.calls) + PartCalls(key, id, plan, sizeBytes, false, sent) + failed
    ensures ok ==> |sent| == plan.count && failed == [] && sent == etags[..]
    ensures ok ==> Holds(bucket.uploads, key, id, sent, Take(old(input.rest), Sent(plan, sizeBytes)))
    ensures !ok ==> |sent| < plan.count
    ensures !ok ==> exists e :: failed == [PartCall(key, id, plan, sizeBytes, false, |sent|, e, false)]
  {
    var partSize, partCount := plan.size, plan.count;
    etags := new int[partCount];
    var offset := 0;
    ghost var data := input.rest;
    sent, failed := [], [];
    var i := 0;
    while i < partCount
      invariant 0 <= i <= partCount && bucket.Valid()
      invariant i < partCount ==> partSize == plan.size && offset == i * plan.size
      invariant |sent| == i && etags[..i] == sent && failed == []
      invariant bucket.uploads - {id} == old(bucket.uploads) - {id}
      invariant bucket.calls == old(bucket.calls) + PartCalls(key, id, plan, sizeBytes, false, sent)
      invariant i < partCount ==> input.rest == Drop(data, i * plan.size)
      invariant Holds(bucket.uploads, key, id, sent,
                      Take(data, if i < partCount then i * plan.size else Sent(plan, sizeBytes)))
    {
      if i == partCount - 1 {
        partSize := sizeBytes - partSize * (partCount - 1);
      }
      ghost var before := bucket.uploads;
      var etag;
      ok, etag := bucket.UploadPart(key, id, i + 1, input, partSize, partSize, offset, sizeBytes);
      if !ok {
        failed := [PartCall(key, id, plan, sizeBytes, false, i, etag, false)];
        return;
      }
      PartStored(before, bucket.uploads, key, id, sent, plan, sizeBytes, false, data, etag);
      PartArrived(plan, sizeBytes, data, i);
      offset := offset + partSize;
      etags[i] := etag;
      sent := sent + [etag];
      i := i + 1;
    }
    assert etags[..i] == etags[..];
    ok := true;
  }

  // ---------- UploadObject ----------

  /** What a transfer leaves in the store. The object changes only to the whole new
      content, and only if the step that makes it visible was reached; a finished
      transfer leaves no upload behind, a failed one no more than its own. */
  ghost predicate StoreOutcome(objects0: map<string, seq<Byte>>, uploads0: map<int, Upload>,
                               objects: map<string, seq<Byte>>, uploads: map<int, Upload>,
                               key: string, content: seq<Byte>, id: int, r: Result) {
    && (r.Done? ==> objects == objects0[key := content] && uploads == uploads0)
    && (r.Failed? && r.stage != PutStage && r.stage != CompleteStage ==> objects == objects0)
    && (objects == objects0 || objects == objects0[key := content])
    && uploads - {id} == uploads0
  }

  /** The content a transfer in parts stores. */
  function Content(plan: Plan, data: seq<Byte>, sizeBytes: int): seq<Byte> {
    if plan.Multipart? then Take(data, Sent(plan, sizeBytes)) else Take(data, sizeBytes)
  }

  /** A transfer in parts stores what a single request would exactly when the last part
      is not left with a negative size, or the input has no bytes beyond the object. */
  lemma ContentAsOneShotIff(plan: Plan, data: seq<Byte>, sizeBytes: int)
    requires plan.Multipart? && sizeBytes >= 0
    ensures Content(plan, data, sizeBytes) == Take(data, sizeBytes)
      <==> LastSize(plan, sizeBytes) >= 0 || |data| <= sizeBytes
  {
    var all, one := Content(plan, data, sizeBytes), Take(data, sizeBytes);
    if LastSize(plan, sizeBytes) < 0 && |data| > sizeBytes {
      assert |all| > |one|;
    }
  }

  lemma RemoveFresh(before: map<int, Upload>, after: map<int, Upload>, id: int)
    requires id !in before && after - {id} == before - {id}
    ensures after - {id} == before
    ensures (after - {id}) - {id} == before
  {
    assert before - {id} == before;
  }

  // ---------- What is sent how, by the calls ----------

  /** Call `k`, if it is one for a part: part `k` of `count`, with its size and offset. */
  predicate IsPart(c: Call, k: int, count: int, size: int, sizeBytes: int, copying: bool) {
    c.PutPart? ==>
      && 1 <= c.index <= count && c.index == k && c.total == sizeBytes
      && c.size == (if c.index < count then size else sizeBytes - size * (count - 1))
      && c.offset == if copying then 0 else (c.index - 1) * size
  }

  /** The calls are those of a transfer in the least parts. */
  ghost predicate SentInParts(calls: seq<Call>, sizeBytes: int, block: int, maxCount: int, copying: bool) {
    exists count, size :: LeastParts(sizeBytes, block, maxCount, count, size)
      && InParts(calls, count, size, sizeBytes, copying)
  }

  ghost predicate InParts(calls: seq<Call>, count: int, size: int, sizeBytes: int, copying: bool) {
    && calls != [] && calls[0].NewUpload?
    && (forall k :: 0 <= k < |calls| ==> !calls[k].Put? && IsPart(calls[k], k, count, size, sizeBytes, copying))
    && (forall k :: 0 <= k < |calls| && calls[k].Complete? ==> k == count + 1 && |calls[k].etags| == count)
  }

  /** Less than a block is put in one request, whole; what the parts allowed cannot hold is refused without a call;
      everything else is sent in the least parts. */
  ghost predicate SentBySize(calls: seq<Call>, sizeBytes: int, block: int, maxCount: int, maxBytes: int,
                             copying: bool, r: Result) {
    if sizeBytes < block then
      |calls| == 1 && calls[0].Put? && calls[0].size == sizeBytes && r != Failed(TooBigStage)
    else if sizeBytes > maxCount * block && sizeBytes > maxCount * maxBytes then
      calls == [] && r == Failed(TooBigStage)
    else
      SentInParts(calls, sizeBytes, block, maxCount, copying) && r != Failed(TooBigStage)
  }

  lemma ProtocolInParts(calls: seq<Call>, key: string, plan: Plan, total: int, copying: bool,
                        id: int, etags: seq<int>, failed: seq<Call>, aborted: bool, r: Result)
    requires plan.Multipart? && plan.count > 0
    requires Protocol(calls, key, plan, total, copying, id, etags, failed, aborted, r)
    ensures InParts(calls, plan.count, plan.size, total, copying) && r != Failed(TooBigStage)
  {
    var parts := [NewUpload(key, id, true)] + PartCalls(key, id, plan, total, copying, etags);
    forall k | 0 <= k < |calls|
      ensures !calls[k].Put? && IsPart(calls[k], k, plan.count, plan.size, total, copying)
      ensures calls[k].Complete? ==> k == plan.count + 1 && |calls[k].etags| == plan.count
    {
      if 0 < k < |parts| && r != Failed(InitStage) {
        assert calls[k] == parts[k] == PartCall(key, id, plan, total, copying, k - 1, etags[k - 1], true);
      }
    }
  }

  lemma ProtocolBySize(calls: seq<Call>, key: string, blocksz: int, maxCount: int, maxBytes: int, total: int,
                       copying: bool, id: int, etags: seq<int>, failed: seq<Call>, aborted: bool, r: Result)
    requires maxCount > 0 && PlanOf(blocksz, total, maxCount, maxBytes).Multipart?
    requires Protocol(calls, key, PlanOf(blocksz, total, maxCount, maxBytes), total, copying, id, etags, failed,
                      aborted, r)
    ensures SentBySize(calls, total, if blocksz > 0 then blocksz else 52428800, maxCount, maxBytes, copying, r)
  {
    var plan := PlanOf(blocksz, total, maxCount, maxBytes);
    PlanIff(blocksz, total, maxCount, maxBytes);
    ProtocolInParts(calls, key, plan, total, copying, id, etags, failed, aborted, r);
  }

  method UploadObject(bucket: Bucket, key: string, blocksz: int, input: Reader, sizeBytes: int)
    returns (r: Result, ghost id: int, ghost sent: seq<int>, ghost failed: seq<Call>, ghost aborted: bool)
    requires bucket.Valid()
    modifies bucket`objects, bucket`uploads, bucket`nextId, bucket`nextEtag, bucket`calls, input
    ensures bucket.Valid()
    ensures var plan := PlanOf(blocksz, sizeBytes, bucket.maxPartCount, bucket.maxPartSizeBytes);
      StoreOutcome(old(bucket.objects), old(bucket.uploads), bucket.objects, bucket.uploads,
                   key, Content(plan, old(input.rest), sizeBytes), id, r)
    ensures old(bucket.calls) <= bucket.calls
    ensures var plan := PlanOf(blocksz, sizeBytes, bucket.maxPartCount, bucket.maxPartSizeBytes);
      var calls := bucket.calls[|old(bucket.calls)|..];
      match plan
      case OneShot => calls == [Put(key, sizeBytes, r.Done?)] && r in {Done, Failed(PutStage)}
      case TooLarge => calls == [] && r == Failed(TooBigStage)
      case Multipart(_, _) => Protocol(calls, key, plan, sizeBytes, false, id, sent, failed, aborted, r)
    ensures SentBySize(bucket.calls[|old(bucket.calls)|..], sizeBytes, if blocksz > 0 then blocksz else 52428800,
                       bucket.maxPartCount, bucket.maxPartSizeBytes, false, r)
  {
    id, sent, failed, aborted := bucket.nextId, [], [], false;
    PlanIff(blocksz, sizeBytes, bucket.maxPartCount, bucket.maxPartSizeBytes);
    var plan := MakePlan(blocksz, sizeBytes, bucket.maxPartCount, bucket.maxPartSizeBytes);
    if plan.OneShot? {
      var ok := bucket.PutObject(key, input, sizeBytes);
      r := if ok then Done else Failed(PutStage);
    } else if plan.TooLarge? {
      r := Failed(TooBigStage);
    } else {
      PlanFits(blocksz, sizeBytes, bucket.maxPartCount, bucket.maxPartSizeBytes);
      r, id, sent, failed, aborted := UploadInParts(bucket, key, plan, input, sizeBytes);
      ProtocolBySize(bucket.calls[|old(bucket.calls)|..], key, blocksz, bucket.maxPartCount, bucket.maxPartSizeBytes,
                     sizeBytes, false, id, sent, failed, aborted, r);
    }
  }

  function Ending(key: string, id: int, partsOk: bool, etags: seq<int>, aborted: bool, r: Result): seq<Call> {
    (if partsOk then [Complete(key, id, etags, r.Done?)] else []) + (if r.Done? then [] else [Abort(key, id, aborted)])
  }

  /** The pieces of a run, put together, follow the protocol. */
  lemma PiecesFollowProtocol(calls0: seq<Call>, calls: seq<Call>, key: string, plan: Plan, total: int, copying: bool,
                             id: int, partsOk: bool, etags: seq<int>, failed: seq<Call>, aborted: bool, r: Result)
    requires plan.Multipart?
    requires calls == calls0 + [NewUpload(key, id, true)] + PartCalls(key, id, plan, total, copying, etags) + failed
      + Ending(key, id, partsOk, etags, aborted, r)
    requires r in {Done, Failed(PartStage), Failed(CompleteStage)} && (r == Failed(PartStage) <==> !partsOk)
    requires partsOk ==> |etags| == plan.count && failed == []
    requires !partsOk ==> |etags| < plan.count && (failed == [] ==> copying)
    requires !partsOk && failed != [] ==>
               exists e :: failed == [PartCall(key, id, plan, total, copying, |etags|, e, false)]
    ensures calls0 <= calls && Protocol(calls[|calls0|..], key, plan, total, copying, id, etags, failed, aborted, r)
  {
    var mine := [NewUpload(key, id, true)] + PartCalls(key, id, plan, total, copying, etags) + failed
      + Ending(key, id, partsOk, etags, aborted, r);
    assert calls == calls0 + mine;
    assert calls[|calls0|..] == mine;
  }

  /** How both functions end: complete the upload or, if a part or that fails, abort it. */
  method FinishUpload(bucket: Bucket, key: string, id: int, partsOk: bool, etags: seq<int>, ghost content: seq<Byte>)
    returns (r: Result, ghost aborted: bool)
    requires bucket.Valid() && (partsOk ==> Holds(bucket.uploads, key, id, etags, content))
    modifies bucket`objects, bucket`uploads, bucket`calls
    ensures bucket.Valid()
    ensures StoreOutcome(old(bucket.objects), old(bucket.uploads) - {id}, bucket.objects, bucket.uploads, key,
                         content, id, r)
    ensures r in {Done, Failed(PartStage), Failed(CompleteStage)} && (r == Failed(PartStage) <==> !partsOk)
    ensures bucket.calls == old(bucket.calls) + Ending(key, id, partsOk, etags, aborted, r)
  {
    aborted := false;
    if !partsOk {
      aborted := bucket.AbortMultipartUpload(key, id);
      r := Failed(PartStage);
      return;
    }
    var ok := bucket.CompleteMultipartUpload(key, id, etags);
    if !ok {
      aborted := bucket.AbortMultipartUpload(key, id);
      r := Failed(CompleteStage);
      return;
    }
    r := Done;
  }

  method UploadInParts(bucket: Bucket, key: string, plan: Plan, input: Reader, sizeBytes: int)
    returns (r: Result, ghost id: int, ghost sent: seq<int>, ghost failed: seq<Call>, ghost aborted: bool)
    requires bucket.Valid() && plan.Multipart? && plan.count > 0 && plan.size > 0
    modifies bucket`objects, bucket`uploads, bucket`nextId, bucket`nextEtag, bucket`calls, input
    ensures bucket.Valid()
    ensures StoreOutcome(old(bucket.objects), old(bucket.uploads), bucket.objects, bucket.uploads,
                         key, Content(plan, old(input.rest), sizeBytes), id, r)
    ensures old(bucket.calls) <= bucket.calls
    ensures Protocol(bucket.calls[|old(bucket.calls)|..], key, plan, sizeBytes, false, id, sent, failed, aborted, r)
  {
    sent, failed, aborted := [], [], false;
    ghost var content := Content(plan, input.rest, sizeBytes);
    var ok, uploadId := bucket.NewMultipartUpload(key);
    id := uploadId;
    if !ok {
      r := Failed(InitStage);
      return;
    }
    var etags;
    ok, etags, sent, failed := UploadParts(bucket, key, uploadId, plan, input, sizeBytes);
    RemoveFresh(old(bucket.uploads), bucket.uploads, id);
    r, aborted := FinishUpload(bucket, key, uploadId, ok, etags[..], content);
    PiecesFollowProtocol(old(bucket.calls), bucket.calls, key, plan, sizeBytes, false, id, ok, sent, failed, aborted,
                         r);
  }

  // ---------- CopyObject ----------

  /** The range requested for part `k`, ends included. */
  function RangeFor(plan: Plan, sizeBytes: int, k: int): SGetObjectRange
    requires plan.Multipart?
  {
    SGetObjectRange(PartOffset(plan, k), PartOffset(plan, k) + PartSize(plan, sizeBytes, k) - 1)
  }

  function RangesFor(plan: Plan, sizeBytes: int, n: int): seq<SGetObjectRange>
    requires plan.Multipart? && n >= 0
  {
    seq(n, k => RangeFor(plan, sizeBytes, k))
  }

  /** If the server answers the range at all, its first bytes are the part's, also for
      the range 0-0, which is not sent as a range, and for those that are not valid. */
  lemma RangeGivesPart(plan: Plan, content: seq<Byte>, k: int)
    requires plan.Multipart? && plan.size > 0 && 0 <= k < plan.count
    requires RangeRead(content, RangeFor(plan, |content|, k)).Bytes?
    ensures var n := PartSize(plan, |content|, k);
      Take(RangeRead(content, RangeFor(plan, |content|, k)).data, n) == Take(Drop(content, k * plan.size), n)
  {
    MulMono(0, k, plan.size);
  }

  /** The ranges are disjoint, in order and without gaps, start at 0 and end at the last
      byte, and their sizes are those of the parts. */
  lemma RangesTile(blocksz: int, sizeBytes: int, maxCount: int, maxBytes: int, k: int)
    requires maxCount > 0
    requires PlanOf(blocksz, sizeBytes, maxCount, maxBytes).Multipart?
    requires LeavesLastPart(sizeBytes, Block(blocksz), maxCount)
    requires 0 <= k < PlanOf(blocksz, sizeBytes, maxCount, maxBytes).count
    ensures var plan := PlanOf(blocksz, sizeBytes, maxCount, maxBytes);
      var r := RangeFor(plan, sizeBytes, k);
      && r.Start <= r.End && r.SizeBytes() == PartSize(plan, sizeBytes, k)
      && (k == 0 ==> r.Start == 0)
      && (if k + 1 < plan.count then RangeFor(plan, sizeBytes, k + 1).Start == r.End + 1 else r.End == sizeBytes - 1)
  {
    PartsTile(blocksz, sizeBytes, maxCount, maxBytes, k);
  }

  function TotalBytes(ranges: seq<SGetObjectRange>): int {
    if ranges == [] then 0 else TotalBytes(ranges[..|ranges| - 1]) + ranges[|ranges| - 1].SizeBytes()
  }

  /** The sizes of the ranges add up to the size of the object. */
  lemma {:induction false} RangesAddUp(plan: Plan, sizeBytes: int, n: int)
    requires plan.Multipart? && 0 <= n <= plan.count
    ensures TotalBytes(RangesFor(plan, sizeBytes, n)) == if n == plan.count && n > 0 then sizeBytes else n * plan.size
  {
    if n > 0 {
      RangesAddUp(plan, sizeBytes, n - 1);
      assert RangesFor(plan, sizeBytes, n)[..n - 1] == RangesFor(plan, sizeBytes, n - 1);
      MulSub(plan.size, n);
    }
  }

  /** Fetches the range of part `i` and stores it as that part. */
  method CopyRange(src: Bucket, srcKey: string, dst: Bucket, dstKey: string, id: int, plan: Plan, sizeBytes: int,
                   i: int, range: SGetObjectRange, partSize: int, ghost sent: seq<int>)
    returns (ok: bool, etag: int, ghost failed: seq<Call>)
    requires dst.Valid() && plan.Multipart? && plan.size > 0 && 0 <= i == |sent| < plan.count
    requires srcKey in src.objects && sizeBytes == |src.objects[srcKey]|
    requires range == RangeFor(plan, sizeBytes, i) && partSize == PartSize(plan, sizeBytes, i)
    requires Holds(dst.uploads, dstKey, id, sent, Take(src.objects[srcKey], i * plan.size))
    modifies src`fetches, src`refusals, dst`uploads, dst`nextEtag, dst`calls
    ensures dst.Valid() && dst.uploads - {id} == old(dst.uploads) - {id}
    ensures src.fetches == old(src.fetches) + [range]
    ensures ok ==> failed == []
    ensures ok ==> dst.calls == old(dst.calls) + [PartCall(dstKey, id, plan, sizeBytes, true, i, etag, true)]
    ensures ok ==>
      Holds(dst.uploads, dstKey, id, sent + [etag],
            Take(src.objects[srcKey], if i + 1 < plan.count then (i + 1) * plan.size else Sent(plan, sizeBytes)))
    ensures !ok ==> dst.calls == old(dst.calls) + failed
    ensures !ok ==> failed == [] || failed == [PartCall(dstKey, id, plan, sizeBytes, true, i, etag, false)]
    ensures src.refusals == old(src.refusals) + if !ok && failed == [] then 1 else 0
  {
    failed, etag := [], 0;
    var stream;
    ok, stream := src.GetObject(srcKey, range);
    if !ok {
      return;
    }
    RangeGivesPart(plan, src.objects[srcKey], i);
    ghost var before := dst.uploads;
    ok, etag := dst.UploadPart(dstKey, id, i + 1, stream, partSize, partSize, 0, sizeBytes);
    if !ok {
      failed := [PartCall(dstKey, id, plan, sizeBytes, true, i, etag, false)];
      return;
    }
    PartStored(before, dst.uploads, dstKey, id, sent, plan, sizeBytes, true, src.objects[srcKey], etag);
  }

  lemma OneMoreCall(key: string, id: int, plan: Plan, total: int, copying: bool, etags: seq<int>, etag: int)
    requires plan.Multipart?
    ensures PartCalls(key, id, plan, total, copying, etags + [etag])
      == PartCalls(key, id, plan, total, copying, etags)
         + [PartCall(key, id, plan, total, copying, |etags|, etag, true)]
  {
  }

  method CopyParts(src: Bucket, srcKey: string, dst: Bucket, dstKey: string, id: int, plan: Plan, sizeBytes: int)
    returns (ok: bool, etags: array<int>, ghost sent: seq<int>, ghost failed: seq<Call>)
    requires dst.Valid() && plan.Multipart? && plan.count > 0 && plan.size > 0
    requires id in dst.uploads && dst.uploads[id] == Upload(dstKey, map[])
    requires srcKey in src.objects && sizeBytes == |src.objects[srcKey]|
    modifies src`fetches, src`refusals, dst`uploads, dst`nextEtag, dst`calls
    ensures dst.Valid()
    ensures dst.uploads - {id} == old(dst.uploads) - {id}
    ensures dst.calls == old(dst.calls) + PartCalls(dstKey, id, plan, sizeBytes, true, sent) + failed
    ensures ok ==> |sent| == plan.count && failed == [] && sent == etags[..]
    ensures ok ==> Holds(dst.uploads, dstKey, id, sent, Take(src.objects[srcKey], Sent(plan, sizeBytes)))
    ensures !ok ==> |sent| < plan.count
    ensures !ok && failed != [] ==>
              exists e :: failed == [PartCall(dstKey, id, plan, sizeBytes, true, |sent|, e, false)]
    ensures src.fetches == old(src.fetches) + RangesFor(plan, sizeBytes, if ok then plan.count else |sent| + 1)
    ensures src.refusals == old(src.refusals) + if !ok && failed == [] then 1 else 0
  {
    var partSize, partCount := plan.size, plan.count;
    etags := new int[partCount];
    ghost var data := src.objects[srcKey];
    sent, failed := [], [];
    var i := 0;
    while i < partCount
      invariant 0 <= i <= partCount && dst.Valid()
      invariant i < partCount ==> partSize == plan.size
      invariant |sent| == i && etags[..i] == sent && failed == []
      invariant dst.uploads - {id} == old(dst.uploads) - {id}
      invariant dst.calls == old(dst.calls) + PartCalls(dstKey, id, plan, sizeBytes, true, sent)
      invariant src.fetches == old(src.fetches) + RangesFor(plan, sizeBytes, i) && src.refusals == old(src.refusals)
      invariant Holds(dst.uploads, dstKey, id, sent,
                      Take(data, if i < partCount then i * plan.size else Sent(plan, sizeBytes)))
    {
      var start := i * partSize;
      if i == partCount - 1 {
        partSize := sizeBytes - partSize * (partCount - 1);
      }
      var end := start + partSize - 1;
      var etag;
      ok, etag, failed := CopyRange(src, srcKey, dst, dstKey, id, plan, sizeBytes, i, SGetObjectRange(start, end),
                                    partSize, sent);
      if !ok {
        return;
      }
      OneMoreCall(dstKey, id, plan, sizeBytes, true, sent, etag);
      etags[i] := etag;
      sent := sent + [etag];
      i := i + 1;
    }
    assert etags[..i] == etags[..];
    ok := true;
  }

  /** How many ranges were fetched: one for each part sent, and one for the part that failed. */
  function Fetched(plan: Plan, sent: seq<int>, r: Result): nat
    requires plan.Multipart?
  {
    if r == Failed(InitStage) then 0 else if r == Failed(PartStage) then |sent| + 1 else Max(plan.count, 0)
  }

  function Max(a: int, b: int): int { if a >= b then a else b }

  method CopyObject(src: Bucket, srcKey: string, dst: Bucket, dstKey: string, blocksz: int)
    returns (r: Result, ghost plan: Plan, ghost id: int, ghost sent: seq<int>, ghost failed: seq<Call>,
             ghost aborted: bool)
    requires dst.Valid()
    modifies src`fetches, src`refusals, dst`objects, dst`uploads, dst`nextId, dst`nextEtag, dst`calls
    ensures dst.Valid()
    // It fails to read the source exactly when a read fails.
    ensures src.refusals == old(src.refusals)
      + if r == Failed(SourceStage) || (r == Failed(PartStage) && failed == []) then 1 else 0
    // It succeeds only with the destination holding the source's bytes.
    ensures r != Failed(SourceStage) ==> srcKey in old(src.objects)
    ensures r.Done? ==> dst.objects == old(dst.objects)[dstKey := old(src.objects)[srcKey]]
    ensures r.Done? ==> dst.uploads == old(dst.uploads)
    ensures r == Failed(SourceStage) ==> dst.objects == old(dst.objects) && dst.uploads == old(dst.uploads)
    ensures r != Failed(SourceStage) ==>
      StoreOutcome(old(dst.objects), old(dst.uploads), dst.objects, dst.uploads, dstKey, old(src.objects)[srcKey], id,
                   r)
    ensures old(dst.calls) <= dst.calls && old(src.fetches) <= src.fetches
    ensures srcKey in old(src.objects) ==>
      plan == PlanOf(blocksz, |old(src.objects)[srcKey]|, dst.maxPartCount, dst.maxPartSizeBytes)
    ensures r != Failed(SourceStage) && plan.OneShot? ==>
      dst.calls == old(dst.calls) + [Put(dstKey, |old(src.objects)[srcKey]|, r.Done?)] && r in {Done, Failed(PutStage)}
    ensures r != Failed(SourceStage) && plan.TooLarge? ==> dst.calls == old(dst.calls) && r == Failed(TooBigStage)
    ensures r == Failed(SourceStage) ==> dst.calls == old(dst.calls)
    ensures r != Failed(SourceStage) && plan.Multipart? ==>
      && Protocol(dst.calls[|old(dst.calls)|..], dstKey, plan, |old(src.objects)[srcKey]|, true, id, sent, failed,
                  aborted, r)
      && src.fetches == old(src.fetches) + RangesFor(plan, |old(src.objects)[srcKey]|, Fetched(plan, sent, r))
    ensures r != Failed(SourceStage) && !plan.Multipart? ==>
      src.fetches == old(src.fetches) + if plan.OneShot? then [SGetObjectRange(0, 0)] else []
    ensures r != Failed(SourceStage) ==>
      SentBySize(dst.calls[|old(dst.calls)|..], |old(src.objects)[srcKey]|,
                 if blocksz > 0 then blocksz else 52428800, dst.maxPartCount, dst.maxPartSizeBytes, true, r)
  {
    id, sent, failed, aborted := dst.nextId, [], [], false;
    plan := if srcKey !in src.objects then TooLarge
            else PlanOf(blocksz, |src.objects[srcKey]|, dst.maxPartCount, dst.maxPartSizeBytes);
    var found, sizeBytes := src.HeadObject(srcKey);
    if !found {
      r := Failed(SourceStage);
      return;
    }
    var p := MakePlan(blocksz, sizeBytes, dst.maxPartCount, dst.maxPartSizeBytes);
    PlanIff(blocksz, sizeBytes, dst.maxPartCount, dst.maxPartSizeBytes);
    if p.OneShot? {
      r := CopyAtOnce(src, srcKey, dst, dstKey, sizeBytes, id);
    } else if p.TooLarge? {
      r := Failed(TooBigStage);
    } else {
      PlanFits(blocksz, sizeBytes, dst.maxPartCount, dst.maxPartSizeBytes);
      r, id, sent, failed, aborted := CopyInParts(src, srcKey, dst, dstKey, p, sizeBytes);
      ProtocolBySize(dst.calls[|old(dst.calls)|..], dstKey, blocksz, dst.maxPartCount, dst.maxPartSizeBytes,
                     sizeBytes, true, id, sent, failed, aborted, r);
    }
  }

  method CopyAtOnce(src: Bucket, srcKey: string, dst: Bucket, dstKey: string, sizeBytes: int, ghost id: int)
    returns (r: Result)
    requires dst.Valid() && srcKey in src.objects && sizeBytes == |src.objects[srcKey]| && id !in dst.uploads
    modifies src`fetches, src`refusals, dst`objects, dst`calls
    ensures dst.Valid() && old(dst.calls) <= dst.calls && old(src.fetches) <= src.fetches
    ensures r in {Done, Failed(SourceStage), Failed(PutStage)}
    ensures src.fetches == old(src.fetches) + [SGetObjectRange(0, 0)]
    ensures src.refusals == old(src.refusals) + if r == Failed(SourceStage) then 1 else 0
    ensures dst.calls == old(dst.calls) + if r == Failed(SourceStage) then [] else [Put(dstKey, sizeBytes, r.Done?)]
    ensures StoreOutcome(old(dst.objects), old(dst.uploads), dst.objects, dst.uploads, dstKey,
                         old(src.objects)[srcKey], id, r)
  {
    var ok, stream := src.GetObject(srcKey, SGetObjectRange(0, 0));
    if !ok {
      r := Failed(SourceStage);
      return;
    }
    ok := dst.PutObject(dstKey, stream, sizeBytes);
    r := if ok then Done else Failed(PutStage);
  }

  method CopyInParts(src: Bucket, srcKey: string, dst: Bucket, dstKey: string, plan: Plan, sizeBytes: int)
    returns (r: Result, ghost id: int, ghost sent: seq<int>, ghost failed: seq<Call>, ghost aborted: bool)
    requires dst.Valid() && plan.Multipart? && plan.count > 0 && plan.size > 0
    requires srcKey in src.objects && sizeBytes == |src.objects[srcKey]|
    modifies src`fetches, src`refusals, dst`objects, dst`uploads, dst`nextId, dst`nextEtag, dst`calls
    ensures dst.Valid() && old(dst.calls) <= dst.calls && old(src.fetches) <= src.fetches
    ensures StoreOutcome(old(dst.objects), old(dst.uploads), dst.objects, dst.uploads, dstKey,
                         old(src.objects)[srcKey], id, r)
    ensures Protocol(dst.calls[|old(dst.calls)|..], dstKey, plan, sizeBytes, true, id, sent, failed, aborted, r)
    ensures src.fetches == old(src.fetches) + RangesFor(plan, sizeBytes, Fetched(plan, sent, r))
    ensures src.refusals == old(src.refusals) + if r == Failed(PartStage) && failed == [] then 1 else 0
  {
    sent, failed, aborted := [], [], false;
    ghost var content := src.objects[srcKey];
    var ok, uploadId := dst.NewMultipartUpload(dstKey);
    id := uploadId;
    if !ok {
      r := Failed(InitStage);
      return;
    }
    var etags;
    ok, etags, sent, failed := CopyParts(src, srcKey, dst, dstKey, uploadId, plan, sizeBytes);
    RemoveFresh(old(dst.uploads), dst.uploads, id);
    assert Take(content, Sent(plan, sizeBytes)) == content;
    r, aborted := FinishUpload(dst, dstKey, uploadId, ok, etags[..], content);
    PiecesFollowProtocol(old(dst.calls), dst.calls, dstKey, plan, sizeBytes, true, id, ok, sent, failed, aborted, r);
  }
}
