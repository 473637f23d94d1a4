/** How `UploadObject` and `CopyObject` cut an object into parts
    (pkg/cloudprovider/objectstore.go). */
module TransferPlan {
  import opened Arith
  import opened ByteRange

  const MAX_PUT_OBJECT_SIZEBYTES: int := 1024 * 1024 * 50

  /** One request, a refusal, or `count` parts of `size` bytes, the last one taking the rest. */
  datatype Plan = OneShot | TooLarge | Multipart(count: int, size: int)

  function Block(blocksz: int): int {
    if blocksz <= 0 then MAX_PUT_OBJECT_SIZEBYTES else blocksz
  }

  /** The plan in closed form: the fewest blocks that hold the object or, beyond
      the part limit, the smallest size at which that many parts hold it. */
  function PlanOf(blocksz: int, sizeBytes: int, maxCount: int, maxBytes: int): Plan
    requires maxCount > 0
  {
    var block := Block(blocksz);
    if sizeBytes < block then OneShot
    else if CeilDiv(sizeBytes, block) <= maxCount then Multipart(CeilDiv(sizeBytes, block), block)
    else if CeilDiv(sizeBytes, maxCount) > maxBytes then TooLarge
    else Multipart(maxCount, CeilDiv(sizeBytes, maxCount))
  }

  /** The computation both functions start with. */
  method MakePlan(blocksz: int, sizeBytes: int, maxCount: int, maxBytes: int) returns (plan: Plan)
    requires maxCount > 0
    ensures plan == PlanOf(blocksz, sizeBytes, maxCount, maxBytes)
  {
    var block := blocksz;
    if block <= 0 {
      block := MAX_PUT_OBJECT_SIZEBYTES;
    }
    if sizeBytes < block {
      return OneShot;
    }
    CeilByHand(sizeBytes, block);
    CeilByHand(sizeBytes, maxCount);
    var partSize := block;
    var partCount := sizeBytes / partSize;
    if partCount * partSize < sizeBytes {
      partCount := partCount + 1;
    }
    if partCount > maxCount {
      partCount := maxCount;
      partSize := sizeBytes / partCount;
      if partSize * partCount < sizeBytes {
        partSize := partSize + 1;
      }
      if partSize > maxBytes {
        return TooLarge;
      }
    }
    return Multipart(partCount, partSize);
  }

  /** The least number of parts of block size that hold the object or, where the limit is less than that, as
      many parts as it allows, of the least size at which they hold it. */
  predicate LeastParts(sizeBytes: int, block: int, maxCount: int, count: int, size: int) {
    && 1 <= count <= maxCount && size >= 1
    && if sizeBytes <= maxCount * block then size == block && (count - 1) * block < sizeBytes <= count * block
       else count == maxCount && maxCount * (size - 1) < sizeBytes <= maxCount * size
  }

  /** What is sent how: one request for less than a block, a refusal when neither the blocks the limit allows
      nor as many parts of the largest size hold the object, the least parts otherwise. */
  lemma PlanIff(blocksz: int, sizeBytes: int, maxCount: int, maxBytes: int)
    requires maxCount > 0
    ensures var block := if blocksz > 0 then blocksz else 52428800;
      var p := PlanOf(blocksz, sizeBytes, maxCount, maxBytes);
      && (p.OneShot? <==> sizeBytes < block)
      && (p.TooLarge? <==> sizeBytes >= block && sizeBytes > maxCount * block && sizeBytes > maxCount * maxBytes)
      && (p.Multipart? ==> LeastParts(sizeBytes, block, maxCount, p.count, p.size))
  {
    var block := Block(blocksz);
    if sizeBytes >= block {
      CeilAboveAny(sizeBytes, block, maxCount);
      CeilAboveAny(sizeBytes, maxCount, maxBytes);
      CeilBounds(sizeBytes, block);
      CeilBounds(sizeBytes, maxCount);
      MulSub(maxCount, CeilDiv(sizeBytes, maxCount));
      MulSub(maxCount, maxBytes);
      MulSub(maxCount, block);
    }
  }

  /** The size the last part is left with. */
  function LastSize(plan: Plan, sizeBytes: int): int
    requires plan.Multipart?
  {
    sizeBytes - plan.size * (plan.count - 1)
  }

  /** The offset and the size of part `i`. */
  function PartOffset(plan: Plan, i: int): int
    requires plan.Multipart?
  {
    i * plan.size
  }

  function PartSize(plan: Plan, sizeBytes: int, i: int): int
    requires plan.Multipart?
  {
    if i == plan.count - 1 then LastSize(plan, sizeBytes) else plan.size
  }

  /** A plan in parts stays within the part limit, its parts hold the object, none is
      larger than the others' size, and all fit the size limit when the block does. */
  lemma PlanFits(blocksz: int, sizeBytes: int, maxCount: int, maxBytes: int)
    requires maxCount > 0
    requires PlanOf(blocksz, sizeBytes, maxCount, maxBytes).Multipart?
    ensures var p := PlanOf(blocksz, sizeBytes, maxCount, maxBytes);
      && 1 <= p.count <= maxCount && p.size > 0
      && p.size * p.count >= sizeBytes && LastSize(p, sizeBytes) <= p.size
      && (Block(blocksz) <= maxBytes ==> p.size <= maxBytes)
  {
    CeilBounds(sizeBytes, Block(blocksz));
    CeilBounds(sizeBytes, maxCount);
    var p := PlanOf(blocksz, sizeBytes, maxCount, maxBytes);
    MulSub(p.size, p.count);
  }

  /** The last part has bytes to carry exactly when the block count fits the limit, or
      spreading the object over the limit leaves a long enough last part. */
  predicate LeavesLastPart(sizeBytes: int, block: int, maxCount: int)
    requires block > 0 && maxCount > 0
  {
    || CeilDiv(sizeBytes, block) <= maxCount
    || sizeBytes % maxCount == 0
    || sizeBytes / maxCount + sizeBytes % maxCount >= maxCount
  }

  lemma LastPartPositiveIff(blocksz: int, sizeBytes: int, maxCount: int, maxBytes: int)
    requires maxCount > 0
    requires PlanOf(blocksz, sizeBytes, maxCount, maxBytes).Multipart?
    ensures LastSize(PlanOf(blocksz, sizeBytes, maxCount, maxBytes), sizeBytes) > 0
      <==> LeavesLastPart(sizeBytes, Block(blocksz), maxCount)
  {
    var block := Block(blocksz);
    if CeilDiv(sizeBytes, block) <= maxCount {
      CeilBounds(sizeBytes, block);
      MulSub(block, CeilDiv(sizeBytes, block));
    } else {
      CeilAbove(sizeBytes, block, maxCount);
      CappedLast(sizeBytes, maxCount);
    }
  }

  /** The last part is not left with a negative size exactly when, moreover, it may be empty. */
  lemma LastPartNotNegativeIff(blocksz: int, sizeBytes: int, maxCount: int, maxBytes: int)
    requires maxCount > 0
    requires PlanOf(blocksz, sizeBytes, maxCount, maxBytes).Multipart?
    ensures LastSize(PlanOf(blocksz, sizeBytes, maxCount, maxBytes), sizeBytes) >= 0
      <==> LeavesLastPart(sizeBytes, Block(blocksz), maxCount)
           || sizeBytes / maxCount + sizeBytes % maxCount == maxCount - 1
  {
    var block := Block(blocksz);
    LastPartPositiveIff(blocksz, sizeBytes, maxCount, maxBytes);
    if CeilDiv(sizeBytes, block) > maxCount {
      CeilAbove(sizeBytes, block, maxCount);
      CappedLast(sizeBytes, maxCount);
    }
  }

  /** What is left after `n - 1` parts of the size that makes `n` parts hold everything. */
  lemma CappedLast(sizeBytes: int, n: int)
    requires sizeBytes >= 0 && n > 0 && sizeBytes / n > 0
    ensures sizeBytes - CeilDiv(sizeBytes, n) * (n - 1)
      == if sizeBytes % n == 0 then sizeBytes / n else sizeBytes / n + sizeBytes % n - (n - 1)
  {
    CeilByHand(sizeBytes, n);
    DivMod(sizeBytes, n);
    var q := sizeBytes / n;
    MulSub(q, n);
    MulSub(q + 1, n);
    assert (q + 1) * n == q * n + n;
  }

  predicate NonemptyParts(blocksz: int, sizeBytes: int, maxCount: int, maxBytes: int)
    requires maxCount > 0
  {
    var p := PlanOf(blocksz, sizeBytes, maxCount, maxBytes);
    p.Multipart? ==> LastSize(p, sizeBytes) > 0
  }

  /** The block is so large that every 64-bit size is cut into nonempty parts: spreading a size over the
      limit leaves enough for the last part, no capped plan is accepted, or none is called for. */
  predicate LargeBlock(block: int, maxCount: int, maxBytes: int) {
    block >= maxCount - 1 || block >= maxBytes || block * maxCount >= MAX_INT64
  }

  /** Every 64-bit size is cut into nonempty parts exactly when the block is at least the part limit
      less one, or is so large that no capped plan is accepted, or so large that none is called for. */
  lemma EverySizeCutIff(blocksz: int, maxCount: int, maxBytes: int)
    requires maxCount > 0
    ensures (forall sizeBytes | sizeBytes <= MAX_INT64 :: NonemptyParts(blocksz, sizeBytes, maxCount, maxBytes))
      <==> LargeBlock(Block(blocksz), maxCount, maxBytes)
  {
    if LargeBlock(Block(blocksz), maxCount, maxBytes) {
      forall sizeBytes | sizeBytes <= MAX_INT64 ensures NonemptyParts(blocksz, sizeBytes, maxCount, maxBytes) {
        LargeBlockSuffices(blocksz, sizeBytes, maxCount, maxBytes);
      }
    } else {
      SmallBlockFails(blocksz, maxCount, maxBytes);
    }
  }

  lemma LargeBlockSuffices(blocksz: int, sizeBytes: int, maxCount: int, maxBytes: int)
    requires maxCount > 0 && sizeBytes <= MAX_INT64
    requires LargeBlock(Block(blocksz), maxCount, maxBytes)
    ensures NonemptyParts(blocksz, sizeBytes, maxCount, maxBytes)
  {
    var block := Block(blocksz);
    if PlanOf(blocksz, sizeBytes, maxCount, maxBytes).Multipart? {
      LastPartPositiveIff(blocksz, sizeBytes, maxCount, maxBytes);
      if CeilDiv(sizeBytes, block) > maxCount {
        CeilAbove(sizeBytes, block, maxCount);
        CeilAbove(sizeBytes, maxCount, block);
        DivMod(sizeBytes, maxCount);
        MulSub(block, maxCount);
      }
    }
  }

  /** With a smaller block, one byte more than the limit's worth of blocks leaves
      nothing for the last part. */
  lemma SmallBlockFails(blocksz: int, maxCount: int, maxBytes: int)
    requires maxCount > 0 && !LargeBlock(Block(blocksz), maxCount, maxBytes)
    ensures var size := Block(blocksz) * maxCount + 1;
      size <= MAX_INT64 && !NonemptyParts(blocksz, size, maxCount, maxBytes)
  {
    var block := Block(blocksz);
    var size := block * maxCount + 1;
    MulMono(1, maxCount, block);
    MulSub(block, maxCount);
    DivUnique(size, maxCount, block, 1);
    CeilByHand(size, maxCount);
    CeilAbove(size, block, maxCount);
    LastPartPositiveIff(blocksz, size, maxCount, maxBytes);
  }

  /** An instance: eleven bytes, blocks of one, at most ten parts leave -7 bytes for the last. */
  lemma NegativeLastPart()
    ensures PlanOf(1, 11, 10, 100) == Multipart(10, 2)
    ensures LastSize(PlanOf(1, 11, 10, 100), 11) == -7
  {
  }

  /** When every part has bytes to carry, the parts tile the object: each starts where
      the one before it ends, the first at 0, and the last ends at the end. */
  lemma PartsTile(blocksz: int, sizeBytes: int, maxCount: int, maxBytes: int, i: int)
    requires maxCount > 0
    requires PlanOf(blocksz, sizeBytes, maxCount, maxBytes).Multipart?
    requires LeavesLastPart(sizeBytes, Block(blocksz), maxCount)
    requires 0 <= i < PlanOf(blocksz, sizeBytes, maxCount, maxBytes).count
    ensures var p := PlanOf(blocksz, sizeBytes, maxCount, maxBytes);
      && PartSize(p, sizeBytes, i) > 0 && PartOffset(p, 0) == 0
      && PartOffset(p, i) + PartSize(p, sizeBytes, i) == (if i + 1 < p.count then PartOffset(p, i + 1) else sizeBytes)
  {
    LastPartPositiveIff(blocksz, sizeBytes, maxCount, maxBytes);
    PlanFits(blocksz, sizeBytes, maxCount, maxBytes);
    var p := PlanOf(blocksz, sizeBytes, maxCount, maxBytes);
    MulSub(p.size, i + 1);
    MulSub(p.size, p.count);
  }

  /** The parts before the last hold less than the object and the part limit together. */
  lemma FrontBound(blocksz: int, sizeBytes: int, maxCount: int, maxBytes: int)
    requires maxCount > 0
    requires PlanOf(blocksz, sizeBytes, maxCount, maxBytes).Multipart?
    ensures var p := PlanOf(blocksz, sizeBytes, maxCount, maxBytes);
      0 <= (p.count - 1) * p.size < sizeBytes + maxCount
  {
    var p := PlanOf(blocksz, sizeBytes, maxCount, maxBytes);
    PlanFits(blocksz, sizeBytes, maxCount, maxBytes);
    MulMono(0, p.count - 1, p.size);
    if CeilDiv(sizeBytes, Block(blocksz)) <= maxCount {
      CeilBounds(sizeBytes, Block(blocksz));
    } else {
      CeilBounds(sizeBytes, maxCount);
      MulSub(maxCount, p.size);
      MulSub(p.size, maxCount);
    }
  }

  /** Every product and sum computed for the plan and for its part `i` is a 64-bit value. */
  predicate InRange(blocksz: int, sizeBytes: int, maxCount: int, maxBytes: int, i: int)
    requires maxCount > 0
    requires PlanOf(blocksz, sizeBytes, maxCount, maxBytes).Multipart?
  {
    var p := PlanOf(blocksz, sizeBytes, maxCount, maxBytes);
    && 0 <= (sizeBytes / Block(blocksz)) * Block(blocksz) <= MAX_INT64
    && 0 <= (sizeBytes / maxCount) * maxCount <= MAX_INT64
    && 0 <= p.size * (p.count - 1) <= MAX_INT64
    && 0 <= PartOffset(p, i) <= MAX_INT64
    && 0 <= PartOffset(p, i) + PartSize(p, sizeBytes, i) <= MAX_INT64
  }

  /** Nothing overflows exactly when the last part has bytes to carry, or the parts before
      it, at the size the limit forces, stay in the 64-bit range. */
  lemma NoOverflowIff(blocksz: int, sizeBytes: int, maxCount: int, maxBytes: int)
    requires maxCount > 0 && sizeBytes <= MAX_INT64
    requires PlanOf(blocksz, sizeBytes, maxCount, maxBytes).Multipart?
    ensures var p := PlanOf(blocksz, sizeBytes, maxCount, maxBytes);
      (forall i | 0 <= i < p.count :: InRange(blocksz, sizeBytes, maxCount, maxBytes, i))
      <==> LeavesLastPart(sizeBytes, Block(blocksz), maxCount)
           || CeilDiv(sizeBytes, maxCount) * (maxCount - 1) <= MAX_INT64
  {
    var p := PlanOf(blocksz, sizeBytes, maxCount, maxBytes);
    PlanFits(blocksz, sizeBytes, maxCount, maxBytes);
    LastPartPositiveIff(blocksz, sizeBytes, maxCount, maxBytes);
    if p.size * (p.count - 1) <= MAX_INT64 {
      forall i | 0 <= i < p.count ensures InRange(blocksz, sizeBytes, maxCount, maxBytes, i) {
        SmallFrontInRange(blocksz, sizeBytes, maxCount, maxBytes, i);
      }
    } else {
      assert !InRange(blocksz, sizeBytes, maxCount, maxBytes, 0);
    }
  }

  lemma SmallFrontInRange(blocksz: int, sizeBytes: int, maxCount: int, maxBytes: int, i: int)
    requires maxCount > 0 && sizeBytes <= MAX_INT64
    requires PlanOf(blocksz, sizeBytes, maxCount, maxBytes).Multipart?
    requires 0 <= i < PlanOf(blocksz, sizeBytes, maxCount, maxBytes).count
    requires var p := PlanOf(blocksz, sizeBytes, maxCount, maxBytes); p.size * (p.count - 1) <= MAX_INT64
    ensures InRange(blocksz, sizeBytes, maxCount, maxBytes, i)
  {
    var p := PlanOf(blocksz, sizeBytes, maxCount, maxBytes);
    FloorBound(sizeBytes, Block(blocksz));
    FloorBound(sizeBytes, maxCount);
    PlanFits(blocksz, sizeBytes, maxCount, maxBytes);
    MulMono(i, p.count - 1, p.size);
    MulMono(0, i, p.size);
    if i + 1 < p.count {
      MulMono(i + 1, p.count - 1, p.size);
      MulSub(p.size, i + 1);
    }
  }

  /** In particular nothing overflows when the size and the part limit together are a 64-bit value. */
  lemma NoOverflow(blocksz: int, sizeBytes: int, maxCount: int, maxBytes: int, i: int)
    requires maxCount > 0 && sizeBytes + maxCount <= MAX_INT64
    requires PlanOf(blocksz, sizeBytes, maxCount, maxBytes).Multipart?
    requires 0 <= i < PlanOf(blocksz, sizeBytes, maxCount, maxBytes).count
    ensures InRange(blocksz, sizeBytes, maxCount, maxBytes, i)
  {
    var p := PlanOf(blocksz, sizeBytes, maxCount, maxBytes);
    FrontBound(blocksz, sizeBytes, maxCount, maxBytes);
    MulSub(p.size, p.count);
    SmallFrontInRange(blocksz, sizeBytes, maxCount, maxBytes, i);
  }

  lemma FloorBound(a: int, b: int)
    requires a >= 0 && b > 0
    ensures 0 <= (a / b) * b <= a
  {
    DivMod(a, b);
    MulMono(0, a / b, b);
  }
}
