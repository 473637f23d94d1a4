/** The part of `ICloudBucket` (pkg/cloudprovider/objectstore.go) that the transfers use:
    a store of objects and of multipart uploads in progress. Any call may fail; a call
    that fails may have taken effect all the same. */
module Bucket {
  import opened ByteRange

  type Byte = b: int | 0 <= b < 256

  /** The first `n` bytes, as `io.LimitReader` passes them on. */
  function Take(s: seq<Byte>, n: int): seq<Byte> {
    if n <= 0 then [] else if n >= |s| then s else s[..n]
  }

  function Drop(s: seq<Byte>, n: int): seq<Byte> {
    if n <= 0 then s else if n >= |s| then [] else s[n..]
  }

  lemma TakeThenTake(s: seq<Byte>, n: int, m: int)
    requires n >= 0
    ensures Take(s, n) + Take(Drop(s, n), m) == Take(s, n + if m < 0 then 0 else m)
    ensures m >= 0 ==> Drop(Drop(s, n), m) == Drop(s, n + m)
  {
    if n < |s| {
      TakeOnwards(s, n, m);
    }
  }

  lemma TakeOnwards(s: seq<Byte>, n: int, m: int)
    requires 0 <= n < |s|
    ensures s[..n] + Take(s[n..], m) == Take(s, n + if m < 0 then 0 else m)
    ensures m >= 0 ==> Drop(s[n..], m) == Drop(s, n + m)
  {
    if 0 <= m < |s| - n {
      assert s[..n] + s[n..][..m] == s[..n + m];
      assert s[n..][m..] == s[n + m..];
    }
  }

  /** An `io.Reader`: what is left to read. */
  class Reader {
    var rest: seq<Byte>

    constructor (data: seq<Byte>)
      ensures rest == data
    {
      rest := data;
    }
  }

  datatype Part = Part(etag: int, data: seq<Byte>)

  datatype Upload = Upload(key: string, parts: map<int, Part>)

  /** The calls that change a bucket, as they were made, and whether they succeeded. */
  datatype Call =
    | Put(key: string, size: int, ok: bool)
    | NewUpload(key: string, id: int, ok: bool)
    | PutPart(key: string, id: int, index: int, size: int, offset: int, total: int, etag: int, ok: bool)
    | Complete(key: string, id: int, etags: seq<int>, ok: bool)
    | Abort(key: string, id: int, ok: bool)

  /** The parts 1 to `n`, one after the other. */
  function Assemble(parts: map<int, Part>, n: int): seq<Byte>
    requires n >= 0
  {
    if n == 0 then [] else Assemble(parts, n - 1) + if n in parts then parts[n].data else []
  }

  predicate HasPart(parts: map<int, Part>, n: int, etag: int) {
    n in parts && parts[n].etag == etag
  }

  /** The parts 1 to |etags| are there and carry these etags. */
  predicate PartsMatch(parts: map<int, Part>, etags: seq<int>) {
    forall k :: 0 <= k < |etags| ==> HasPart(parts, k + 1, etags[k])
  }

  /** A part that is missing or carries another etag makes the parts not match. */
  lemma EtagsMatter(parts: map<int, Part>, etags: seq<int>, k: int)
    requires 0 <= k < |etags| && (k + 1 !in parts || parts[k + 1].etag != etags[k])
    ensures !PartsMatch(parts, etags)
  {
    assert !HasPart(parts, k + 1, etags[k]);
  }

  lemma {:induction false} AssembleFrame(parts: map<int, Part>, n: int, k: int, p: Part)
    requires 0 <= n < k
    ensures Assemble(parts[k := p], n) == Assemble(parts, n)
  {
    if n > 0 {
      AssembleFrame(parts, n - 1, k, p);
    }
  }

  /** The bytes a server returns for a range header, if it can satisfy it: a header
      that is empty or not valid (its last position before its first) is ignored. */
  function RangeRead(content: seq<Byte>, r: SGetObjectRange): Read {
    if r.Start > 0 && r.End > 0 then
      if r.End < r.Start then Bytes(content)
      else if r.Start >= |content| then Unsatisfiable
      else Bytes(Take(Drop(content, r.Start), r.SizeBytes()))
    else if r.Start > 0 then
      if r.Start >= |content| then Unsatisfiable else Bytes(Drop(content, r.Start))
    else if r.End > 0 then
      if |content| == 0 then Unsatisfiable else Bytes(Take(content, r.End + 1))
    else Bytes(content)
  }

  /** A range whose last byte comes before its first is not valid, and ignored (section 2.1 of RFC 7233); a valid
      one gives its bytes, as far as there are any, and is refused where there are none. */
  lemma RangeAnswers(content: seq<Byte>, r: SGetObjectRange)
    requires r.Start > 0 && r.End > 0
    ensures r.End < r.Start ==> RangeRead(content, r) == Bytes(content)
    ensures r.Start <= r.End < |content| ==> RangeRead(content, r) == Bytes(content[r.Start..r.End + 1])
    ensures r.Start < |content| <= r.End ==> RangeRead(content, r) == Bytes(content[r.Start..])
    ensures |content| <= r.Start <= r.End ==> RangeRead(content, r) == Unsatisfiable
  {
    if r.Start <= r.End < |content| {
      assert content[r.Start..][..r.SizeBytes()] == content[r.Start..r.End + 1];
    }
  }

  datatype Read = Unsatisfiable | Bytes(data: seq<Byte>)

  class Bucket {
    const maxPartCount: int
    const maxPartSizeBytes: int
    var objects: map<string, seq<Byte>>
    var uploads: map<int, Upload>
    var nextId: int
    var nextEtag: int
    ghost var calls: seq<Call>
    ghost var fetches: seq<SGetObjectRange>
    /** How many reads have failed. */
    ghost var refusals: nat

    ghost predicate Valid()
      reads this
    {
      maxPartCount > 0 && forall id :: id in uploads ==> id < nextId
    }

    constructor (maxPartCount: int, maxPartSizeBytes: int)
      requires maxPartCount > 0
      ensures Valid() && objects == map[] && uploads == map[] && calls == [] && fetches == []
      ensures this.maxPartCount == maxPartCount && this.maxPartSizeBytes == maxPartSizeBytes
    {
      this.maxPartCount, this.maxPartSizeBytes := maxPartCount, maxPartSizeBytes;
      objects, uploads, nextId, nextEtag := map[], map[], 0, 0;
      calls, fetches, refusals := [], [], 0;
    }

    /** Stores the first `size` bytes of the input under the key. */
    method PutObject(key: string, input: Reader, size: int) returns (ok: bool)
      requires Valid()
      modifies this`objects, this`calls, input
      ensures Valid() && calls == old(calls) + [Put(key, size, ok)]
      ensures objects == old(objects) || objects == old(objects)[key := Take(old(input.rest), size)]
      ensures ok ==> objects == old(objects)[key := Take(old(input.rest), size)]
    {
      var applied: bool := *;
      ok := *;
      if ok || applied {
        objects := objects[key := Take(input.rest, size)];
      }
      var left: seq<Byte> := *;
      input.rest := left;
      calls := calls + [Put(key, size, ok)];
    }

    method NewMultipartUpload(key: string) returns (ok: bool, id: int)
      requires Valid()
      modifies this`uploads, this`nextId, this`calls
      ensures Valid() && calls == old(calls) + [NewUpload(key, id, ok)]
      ensures id !in old(uploads)
      ensures uploads == old(uploads) || uploads == old(uploads)[id := Upload(key, map[])]
      ensures ok ==> uploads == old(uploads)[id := Upload(key, map[])]
    {
      var applied: bool := *;
      ok, id := *, nextId;
      if ok || applied {
        uploads := uploads[id := Upload(key, map[])];
      }
      nextId := nextId + 1;
      calls := calls + [NewUpload(key, id, ok)];
    }

    /** Stores the first `limit` bytes of the input as part `index`. */
    method UploadPart(key: string, id: int, index: int, input: Reader, limit: int, size: int, offset: int, total: int)
      returns (ok: bool, etag: int)
      requires Valid()
      modifies this`uploads, this`nextEtag, this`calls, input
      ensures Valid() && calls == old(calls) + [PutPart(key, id, index, size, offset, total, etag, ok)]
      ensures ok ==> id in old(uploads) && old(uploads)[id].key == key && input.rest == Drop(old(input.rest), limit)
      ensures ok ==> PartAdded(old(uploads), uploads, id, index, Part(etag, Take(old(input.rest), limit)))
      ensures uploads == old(uploads)
        || PartAdded(old(uploads), uploads, id, index, Part(etag, Take(old(input.rest), limit)))
    {
      var applied: bool := *;
      ok, etag := *, nextEtag;
      nextEtag := nextEtag + 1;
      ok := ok && id in uploads && uploads[id].key == key;
      if id in uploads && (ok || applied) {
        var u := uploads[id];
        uploads := uploads[id := u.(parts := u.parts[index := Part(etag, Take(input.rest, limit))])];
      }
      if ok {
        input.rest := Drop(input.rest, limit);
      } else {
        var left: seq<Byte> := *;
        input.rest := left;
      }
      calls := calls + [PutPart(key, id, index, size, offset, total, etag, ok)];
    }

    /** Makes the parts the object, if they are the ones named. */
    method CompleteMultipartUpload(key: string, id: int, etags: seq<int>) returns (ok: bool)
      requires Valid()
      modifies this`objects, this`uploads, this`calls
      ensures Valid() && calls == old(calls) + [Complete(key, id, etags, ok)]
      ensures (objects == old(objects) && uploads == old(uploads) && !ok)
        || Completed(old(objects), old(uploads), objects, uploads, key, id, etags)
    {
      var applied: bool := *;
      ok := *;
      ok := ok && id in uploads && uploads[id].key == key && PartsMatch(uploads[id].parts, etags);
      if id in uploads && uploads[id].key == key && PartsMatch(uploads[id].parts, etags) && (ok || applied) {
        objects := objects[key := Assemble(uploads[id].parts, |etags|)];
        uploads := uploads - {id};
      }
      calls := calls + [Complete(key, id, etags, ok)];
    }

    method AbortMultipartUpload(key: string, id: int) returns (ok: bool)
      requires Valid()
      modifies this`uploads, this`calls
      ensures Valid() && calls == old(calls) + [Abort(key, id, ok)]
      ensures uploads == old(uploads) || uploads == old(uploads) - {id}
      ensures ok ==> uploads == old(uploads) - {id}
    {
      var applied: bool := *;
      ok := *;
      if ok || applied {
        uploads := uploads - {id};
      }
      calls := calls + [Abort(key, id, ok)];
    }

    /** Reads an object, or the range of it, as a stream. */
    method GetObject(key: string, range: SGetObjectRange) returns (ok: bool, stream: Reader)
      modifies this`fetches, this`refusals
      ensures fresh(stream) && refusals == old(refusals) + if ok then 0 else 1
      ensures fetches == old(fetches) + [range]
      ensures ok ==> key in objects && RangeRead(objects[key], range) == Bytes(stream.rest)
    {
      ok := *;
      stream := new Reader([]);
      fetches := fetches + [range];
      if ok && key in objects && RangeRead(objects[key], range).Bytes? {
        stream := new Reader(RangeRead(objects[key], range).data);
      } else {
        ok, refusals := false, refusals + 1;
      }
    }

    /** `GetIObject`, for its size; its own proof is in the listing module. */
    method HeadObject(key: string) returns (ok: bool, sizeBytes: int)
      modifies this`refusals
      ensures refusals == old(refusals) + if ok then 0 else 1
      ensures ok ==> key in objects && sizeBytes == |objects[key]|
    {
      ok, sizeBytes := *, 0;
      ok := ok && key in objects;
      if ok {
        sizeBytes := |objects[key]|;
      } else {
        refusals := refusals + 1;
      }
    }
  }

  /** The upload has one part more, or a part replaced; nothing else changed. */
  ghost predicate PartAdded(before: map<int, Upload>, after: map<int, Upload>, id: int, index: int, part: Part) {
    id in before && after == before[id := before[id].(parts := before[id].parts[index := part])]
  }

  /** The object is the parts put together, and the upload is gone. */
  ghost predicate Completed(objects0: map<string, seq<Byte>>, uploads0: map<int, Upload>,
                            objects: map<string, seq<Byte>>, uploads: map<int, Upload>,
                            key: string, id: int, etags: seq<int>) {
    && id in uploads0 && uploads0[id].key == key && PartsMatch(uploads0[id].parts, etags)
    && objects == objects0[key := Assemble(uploads0[id].parts, |etags|)]
    && uploads == uploads0 - {id}
  }
}
