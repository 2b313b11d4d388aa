/** The block-device layer: arbitrary byte ranges over a medium that only transfers whole
    blocks, through a one-block bounce buffer that doubles as a cache. Transfers may fail. */
module BlockDevice {
  import opened Arith
  import opened FileBytes
  import opened Common

  const NO_BLOCK: nat := 0xffff_ffff_ffff_ffff

  function Later(later: nat, earlier: nat): nat {
    if later != NO_BLOCK then later else earlier
  }

  /** What the device and the DosEnvec prescribe. */
  datatype Params = Params(blocksize: nat, maxtransfer: nat, accepts: nat -> bool) {
    predicate Ok() {
      0 < blocksize < 0x1_0000_0000
    }

    /** The length of the next transfer of aligned_io. */
    function Chunk(address: nat, len: nat): nat
      requires Ok()
    {
      var whole := Whole(maxtransfer, blocksize);
      if !accepts(address) then blocksize
      else if maxtransfer == 0 || len <= maxtransfer then len
      else if whole == 0 then blocksize
      else whole
    }

    lemma ChunkFacts(address: nat, len: nat)
      requires Ok() && 0 < len && Aligned(len, blocksize)
      ensures 0 < Chunk(address, len) <= len && Aligned(Chunk(address, len), blocksize)
      ensures Aligned(len - Chunk(address, len), blocksize)
      ensures maxtransfer == 0 || Chunk(address, len) <= maxtransfer || Chunk(address, len) == blocksize
    {
      hide Aligned, Whole;
      MultipleAtLeast(len, blocksize);
      WholeUnits(maxtransfer, blocksize);
      WholeUnits(blocksize, blocksize);
      DifferenceAligned(len, Chunk(address, len), blocksize);
    }

    /** Where the last bounced transfer of aligned_io happens, or NO_BLOCK. */
    function LastBounced(address: nat, len: nat, off: nat): nat
      requires Ok() && Aligned(len, blocksize)
      decreases len
    {
      if len == 0 then NO_BLOCK
      else
        ChunkFacts(address, len);
        var n := Chunk(address, len);
        Later(LastBounced(address + n, len - n, off + n), if accepts(address) then NO_BLOCK else off)
    }

    lemma LastBouncedStep(address: nat, len: nat, off: nat)
      requires Ok() && Aligned(len, blocksize) && len > 0
      ensures var n := Chunk(address, len);
              && n <= len && Aligned(len - n, blocksize)
              && LastBounced(address, len, off) ==
                 Later(LastBounced(address + n, len - n, off + n), if accepts(address) then NO_BLOCK else off)
    {
      ChunkFacts(address, len);
    }
  }

  /** The buffer addresses a DosEnvec mask accepts: `(((ULONG) buf) & ~mask) == 0`. */
  function ByMask(mask: bv32): nat -> bool {
    (address: nat) => (address % 0x1_0000_0000) as bv32 & !mask == 0
  }

  predicate Aligned(x: nat, d: nat)
    requires d > 0
  {
    x % d == 0
  }

  lemma MultipleAtLeast(x: nat, d: nat)
    requires d > 0 && x > 0 && Aligned(x, d)
    ensures x >= d
  {
    DivModUnique(x, d, x / d);
  }

  /** `x & ~(d - 1)` for a power of two. */
  function Whole(x: nat, d: nat): nat
    requires d > 0
  {
    Times(x / d, d)
  }

  lemma WholeUnits(x: nat, d: nat)
    requires d > 0
    ensures Whole(x, d) == x - x % d <= x && Aligned(Whole(x, d), d)
    ensures Aligned(d, d) && Aligned(0, d)
  {
    DivModUnique(x, d, x / d);
    TimesDiv(x / d, d);
    TimesDiv(1, d);
  }

  lemma DifferenceAligned(x: nat, y: nat, d: nat)
    requires d > 0 && y <= x && Aligned(x, d) && Aligned(y, d)
    ensures Aligned(x - y, d)
  {
    DivModUnique(x, d, x / d);
    DivModUnique(y, d, y / d);
    if x / d < y / d {
      MulMonotone(x / d + 1, y / d, d);
    } else {
      assert x - y == (x / d - y / d) * d;
      TimesDiv(x / d - y / d, d);
    }
  }

  lemma SumAligned(x: nat, y: nat, d: nat)
    requires d > 0 && Aligned(x, d) && Aligned(y, d)
    ensures Aligned(x + y, d)
  {
    DivModUnique(x, d, x / d);
    DivModUnique(y, d, y / d);
    assert x + y == (x / d + y / d) * d;
    TimesDiv(x / d + y / d, d);
  }

  lemma AlignedRoom(x: nat, y: nat, d: nat)
    requires d > 0 && x < y && Aligned(x, d) && Aligned(y, d)
    ensures x + d <= y
  {
    DifferenceAligned(y, x, d);
    MultipleAtLeast(y - x, d);
  }

  lemma Front(b0: seq<Byte>, b1: seq<Byte>, at: nat, done: nat)
    requires at + done <= |b0| == |b1| && b1[..at + done] == b0[..at + done]
    ensures b1[..at] == b0[..at] && b1[at..at + done] == b0[at..at + done]
  {
    assert b1[..at] == b1[..at + done][..at];
    assert b1[at..at + done] == b1[..at + done][at..];
  }

  lemma Splice(b0: seq<Byte>, b1: seq<Byte>, disk: seq<Byte>, at: nat, done: nat, chunk: nat, off: nat)
    requires at + done + chunk <= |b0| == |b1| && off + done + chunk <= |disk|
    requires b1[at..at + done] == b0[at..at + done] == disk[off..off + done]
    requires b1[at + done..at + done + chunk] == disk[off + done..off + done + chunk]
    ensures b1[at..at + done + chunk] == disk[off..off + done + chunk]
  {
    assert b1[at..at + done + chunk] == b1[at..at + done] + b1[at + done..at + done + chunk];
    assert disk[off..off + done + chunk] == disk[off..off + done] + disk[off + done..off + done + chunk];
  }

  /** What the bounce buffer holds, and the block it is said to hold. */
  datatype Cache = Cache(lba: nat, block: seq<Byte>)

  ghost predicate InDisk(disk: seq<Byte>, bs: nat, b: nat)
    requires bs > 0
  {
    Aligned(b, bs) && b + bs <= |disk|
  }

  /** bounce_lba = X implies that the bounce buffer holds disk block X. */
  ghost predicate CacheOk(disk: seq<Byte>, bs: nat, c: Cache)
    requires bs > 0
  {
    |c.block| == bs &&
    (c.lba != NO_BLOCK ==> InDisk(disk, bs, c.lba) && c.block == disk[c.lba..c.lba + bs])
  }

  /** The bounce buffer after some transfers of aligned_io: what the last bounced one
      brought in, or what was there before. */
  ghost predicate BouncedLast(disk: seq<Byte>, bs: nat, lb: nat, before: seq<Byte>, block: seq<Byte>) {
    bs > 0 &&
    if lb == NO_BLOCK then block == before
    else InDisk(disk, bs, lb) && block == disk[lb..lb + bs]
  }

  ghost predicate ReadingBounds(p: Params, disk: seq<Byte>, buf: seq<Byte>, at: nat, len: nat, off: nat) {
    && p.Ok() && off + len <= |disk| < NO_BLOCK && at + len <= |buf|
    && Aligned(off, p.blocksize) && Aligned(len, p.blocksize)
  }

  /** A reading aligned_io after `done` bytes, the last bounced block so far being `lb`. */
  ghost predicate Reading(p: Params, disk: seq<Byte>, buf: seq<Byte>, block: seq<Byte>,
                          at: nat, address: nat, len: nat, off: nat, done: nat, lb: nat,
                          front: seq<Byte>, tail: seq<Byte>, before: seq<Byte>) {
    && ReadingBounds(p, disk, buf, at, len, off) && done <= len
    && Aligned(off + done, p.blocksize) && Aligned(len - done, p.blocksize)
    && buf[..at] == front && buf[at + len..] == tail
    && buf[at..at + done] == disk[off..off + done]
    && BouncedLast(disk, p.blocksize, lb, before, block)
    && p.LastBounced(address, len, off) == Later(p.LastBounced(address + done, len - done, off + done), lb)
  }

  lemma ReadingStarts(p: Params, disk: seq<Byte>, buf: seq<Byte>, block: seq<Byte>, at: nat, address: nat, len: nat, off: nat)
    requires ReadingBounds(p, disk, buf, at, len, off)
    ensures Reading(p, disk, buf, block, at, address, len, off, 0, NO_BLOCK, buf[..at], buf[at + len..], block)
  {
  }

  lemma ReadingFacts(p: Params, disk: seq<Byte>, buf: seq<Byte>, block: seq<Byte>,
                     at: nat, address: nat, len: nat, off: nat, done: nat, lb: nat,
                     front: seq<Byte>, tail: seq<Byte>, before: seq<Byte>)
    requires Reading(p, disk, buf, block, at, address, len, off, done, lb, front, tail, before)
    ensures ReadingBounds(p, disk, buf, at, len, off) && done <= len
    ensures Aligned(off + done, p.blocksize) && Aligned(len - done, p.blocksize)
    ensures buf[..at] == front && buf[at + len..] == tail
    ensures p.LastBounced(address, len, off) == NO_BLOCK ==> 
              lb == NO_BLOCK && block == before && (done < len ==> p.accepts(address + done))
  {
    if done < len {
      p.LastBouncedStep(address + done, len - done, off + done);
    }
  }

  lemma ReadingStep(p: Params, disk: seq<Byte>, b0: seq<Byte>, b1: seq<Byte>, k0: seq<Byte>, k1: seq<Byte>,
                    at: nat, address: nat, len: nat, off: nat, done: nat, chunk: nat, lb: nat,
                    front: seq<Byte>, tail: seq<Byte>, before: seq<Byte>)
    requires Reading(p, disk, b0, k0, at, address, len, off, done, lb, front, tail, before) && done < len
    requires chunk == p.Chunk(address + done, len - done) && done + chunk <= len
    requires Aligned(chunk, p.blocksize) && Aligned(len - done - chunk, p.blocksize)
    requires |b1| == |b0| && b1[..at + done] == b0[..at + done] && b1[at + len..] == b0[at + len..]
    requires b1[at + done..at + done + chunk] == disk[off + done..off + done + chunk]
    requires p.accepts(address + done) ==> k1 == k0
    requires !p.accepts(address + done) ==> chunk == p.blocksize && k1 == disk[off + done..off + done + chunk]
    ensures Reading(p, disk, b1, k1, at, address, len, off, done + chunk,
                    if p.accepts(address + done) then lb else off + done, front, tail, before)
  {
    hide Aligned, Whole, Params.Chunk, Params.LastBounced;
    p.LastBouncedStep(address + done, len - done, off + done);
    Front(b0, b1, at, done);
    Splice(b0, b1, disk, at, done, chunk, off);
    SumAligned(off + done, chunk, p.blocksize);
  }

  lemma ReadingEnds(p: Params, disk: seq<Byte>, buf: seq<Byte>, block: seq<Byte>,
                    at: nat, address: nat, len: nat, off: nat, lb: nat,
                    front: seq<Byte>, tail: seq<Byte>, before: seq<Byte>)
    requires Reading(p, disk, buf, block, at, address, len, off, len, lb, front, tail, before)
    ensures ReadingBounds(p, disk, buf, at, len, off)
    ensures buf[..at] == front && buf[at + len..] == tail && buf[at..at + len] == disk[off..off + len]
    ensures p.LastBounced(address, len, off) == lb && BouncedLast(disk, p.blocksize, lb, before, block)
  {
  }

  lemma FrontOnly(b0: seq<Byte>, b1: seq<Byte>, at: nat, done: nat, len: nat)
    requires at + done <= at + len <= |b0| == |b1| && b1[..at + done] == b0[..at + done]
    ensures b1[..at] == b0[..at]
  {
    Front(b0, b1, at, done);
  }

  /** A request cut into an unaligned head, an aligned middle and an unaligned tail. */
  datatype Plan = Plan(skip: nat, head: nat, middle: nat, tail: nat)

  function PlanOf(bs: nat, abs: nat, size: nat): Plan
    requires bs > 0
  {
    var skip := abs % bs;
    var head := if skip == 0 then 0 else Min(bs - skip, size);
    var middle := Whole(size - head, bs);
    WholeUnits(size - head, bs);
    Plan(skip, head, middle, size - head - middle)
  }

  lemma PlanFacts(bs: nat, abs: nat, size: nat, limit: nat)
    requires bs > 0 && size > 0 && abs + size <= limit && Aligned(limit, bs)
    ensures var c := PlanOf(bs, abs, size);
            && c.head + c.middle + c.tail == size && c.tail < bs && c.skip <= abs && c.skip + c.head <= bs
            && (c.head > 0 <==> c.skip > 0)
            && Aligned(abs - c.skip, bs) && abs - c.skip + bs <= limit
            && Aligned(c.middle, bs)
            && (c.middle + c.tail > 0 ==> Aligned(abs + c.head, bs))
            && (c.tail > 0 ==> Aligned(abs + c.head + c.middle, bs) && abs + c.head + c.middle + bs <= limit)
  {
    hide Whole;
    var c := PlanOf(bs, abs, size);
    WholeUnits(abs, bs);
    WholeUnits(size - c.head, bs);
    DivModUnique(abs, bs, abs / bs);
    DivModUnique(size - c.head, bs, (size - c.head) / bs);
    var b := abs - c.skip;
    assert Aligned(b, bs);
    AlignedRoom(b, limit, bs);
    SumAligned(b, bs, bs);
    if c.middle + c.tail > 0 {
      assert abs + c.head == b || abs + c.head == b + bs;
      SumAligned(abs + c.head, c.middle, bs);
      if c.tail > 0 {
        AlignedRoom(abs + c.head + c.middle, limit, bs);
      }
    }
  }

  /** fetch_block, when its transfer succeeds. */
  ghost function Fetched(disk: seq<Byte>, bs: nat, c: Cache, b: nat): (r: Cache)
    requires bs > 0 && |c.block| == bs && InDisk(disk, bs, b)
    ensures |r.block| == bs && r.lba == b
  {
    if c.lba == b then c else Cache(b, disk[b..b + bs])
  }

  /** aligned_io for reading, as far as the bounce buffer is concerned: the last bounced
      block is in it, under the old name. */
  ghost function AfterMiddle(disk: seq<Byte>, bs: nat, c: Cache, lb: nat): (r: Cache)
    requires bs > 0 && |c.block| == bs && (lb != NO_BLOCK ==> InDisk(disk, bs, lb))
    ensures |r.block| == bs && r.lba == c.lba
  {
    if lb == NO_BLOCK then c else Cache(c.lba, disk[lb..lb + bs])
  }

  lemma MiddleCache(disk: seq<Byte>, bs: nat, lba: nat, lb: nat, before: seq<Byte>, block: seq<Byte>)
    requires bs > 0 && |before| == bs
    requires BouncedLast(disk, bs, lb, before, block) || (lb == NO_BLOCK && block == before)
    ensures lb != NO_BLOCK ==> InDisk(disk, bs, lb)
    ensures Cache(lba, block) == AfterMiddle(disk, bs, Cache(lba, before), lb)
  {
  }

  /** A request as the device layer sees it. */
  datatype Request = Request(address: nat, abs: nat, size: nat)

  ghost predicate InRange(p: Params, disk: seq<Byte>, q: Request) {
    p.Ok() && q.size > 0 && q.abs + q.size <= |disk| < NO_BLOCK && Aligned(|disk|, p.blocksize)
  }

  /** The last block the middle of a reading request leaves in the bounce buffer. */
  ghost function Clobber(p: Params, limit: nat, q: Request): nat
    requires p.Ok() && q.size > 0 && q.abs + q.size <= limit && Aligned(limit, p.blocksize)
  {
    PlanFacts(p.blocksize, q.abs, q.size, limit);
    var c := PlanOf(p.blocksize, q.abs, q.size);
    p.LastBounced(q.address + c.head, c.middle, q.abs + c.head)
  }

  lemma {:induction false} LastBouncedInRange(p: Params, address: nat, len: nat, off: nat, limit: nat)
    requires p.Ok() && Aligned(len, p.blocksize) && Aligned(off, p.blocksize) && off + len <= limit < NO_BLOCK
    ensures var lb := p.LastBounced(address, len, off);
            lb != NO_BLOCK ==> Aligned(lb, p.blocksize) && off <= lb && lb + p.blocksize <= off + len
    decreases len
  {
    hide Aligned, Whole;
    if len > 0 {
      p.LastBouncedStep(address, len, off);
      p.ChunkFacts(address, len);
      var n := p.Chunk(address, len);
      SumAligned(off, n, p.blocksize);
      LastBouncedInRange(p, address + n, len - n, off + n, limit);
      MultipleAtLeast(len, p.blocksize);
    }
  }

  lemma ClobberInDisk(p: Params, disk: seq<Byte>, q: Request)
    requires InRange(p, disk, q)
    ensures var lb := Clobber(p, |disk|, q); var c := PlanOf(p.blocksize, q.abs, q.size);
            lb != NO_BLOCK ==> InDisk(disk, p.blocksize, lb) && q.abs + c.head <= lb
                               && lb + p.blocksize <= q.abs + c.head + c.middle
  {
    hide Aligned, Params.LastBounced, PlanOf;
    PlanFacts(p.blocksize, q.abs, q.size, |disk|);
    var c := PlanOf(p.blocksize, q.abs, q.size);
    if c.middle > 0 {
      LastBouncedInRange(p, q.address + c.head, c.middle, q.abs + c.head, |disk|);
    } else {
      NothingBounced(p, q.address + c.head, q.abs + c.head);
    }
  }

  lemma NothingBounced(p: Params, address: nat, off: nat)
    requires p.Ok() && Aligned(0, p.blocksize)
    ensures p.LastBounced(address, 0, off) == NO_BLOCK
  {
  }

  lemma MiddleLength(p: Params, limit: nat, q: Request)
    requires p.Ok() && q.size > 0 && q.abs + q.size <= limit && Aligned(limit, p.blocksize)
    ensures var c := PlanOf(p.blocksize, q.abs, q.size);
            && c.head <= q.size && c.middle <= q.size - c.head && Aligned(c.middle, p.blocksize)
            && c.middle == (if q.size - c.head >= p.blocksize then Whole(q.size - c.head, p.blocksize) else 0)
            && (c.middle > 0 <==> q.size - c.head >= p.blocksize)
            && (q.size - c.head > 0 ==> Aligned(q.abs + c.head, p.blocksize))
  {
    hide Whole;
    PlanFacts(p.blocksize, q.abs, q.size, limit);
    var c := PlanOf(p.blocksize, q.abs, q.size);
    WholeUnits(q.size - c.head, p.blocksize);
    DivModUnique(q.size - c.head, p.blocksize, 0);
  }

  lemma MiddleOf(p: Params, limit: nat, q: Request)
    requires p.Ok() && q.size > 0 && q.abs + q.size <= limit && Aligned(limit, p.blocksize)
    ensures var c := PlanOf(p.blocksize, q.abs, q.size);
            && c.head <= q.size && Aligned(c.middle, p.blocksize)
            && c.middle == (if q.size - c.head >= p.blocksize then Whole(q.size - c.head, p.blocksize) else 0)
            && Clobber(p, limit, q) == p.LastBounced(q.address + c.head, c.middle, q.abs + c.head)
            && (c.middle == 0 ==> Clobber(p, limit, q) == NO_BLOCK)
  {
    PlanFacts(p.blocksize, q.abs, q.size, limit);
    var c := PlanOf(p.blocksize, q.abs, q.size);
    DivModUnique(q.size - c.head, p.blocksize, 0);
    NothingBounced(p, q.address + c.head, q.abs + c.head);
  }

  /** The cache after the head and after the middle of a successful read. */
  ghost function AfterHead(p: Params, disk: seq<Byte>, c: Cache, q: Request): (r: Cache)
    requires InRange(p, disk, q) && |c.block| == p.blocksize
    ensures |r.block| == p.blocksize
  {
    PlanFacts(p.blocksize, q.abs, q.size, |disk|);
    var f := PlanOf(p.blocksize, q.abs, q.size);
    if f.head > 0 then Fetched(disk, p.blocksize, c, q.abs - f.skip) else c
  }

  ghost function BeforeTail(p: Params, disk: seq<Byte>, c: Cache, q: Request): (r: Cache)
    requires InRange(p, disk, q) && |c.block| == p.blocksize
    ensures |r.block| == p.blocksize
  {
    ClobberInDisk(p, disk, q);
    AfterMiddle(disk, p.blocksize, AfterHead(p, disk, c, q), Clobber(p, |disk|, q))
  }

  ghost function AfterRead(p: Params, disk: seq<Byte>, c: Cache, q: Request): (r: Cache)
    requires InRange(p, disk, q) && |c.block| == p.blocksize
    ensures |r.block| == p.blocksize
  {
    PlanFacts(p.blocksize, q.abs, q.size, |disk|);
    var f := PlanOf(p.blocksize, q.abs, q.size);
    if f.tail > 0 then Fetched(disk, p.blocksize, BeforeTail(p, disk, c, q), q.abs + f.head + f.middle)
    else BeforeTail(p, disk, c, q)
  }

  /** The bytes a successful read delivers. */
  ghost function ReadBytes(p: Params, disk: seq<Byte>, c: Cache, q: Request): seq<Byte>
    requires InRange(p, disk, q) && |c.block| == p.blocksize
  {
    PlanFacts(p.blocksize, q.abs, q.size, |disk|);
    var f := PlanOf(p.blocksize, q.abs, q.size);
    AfterHead(p, disk, c, q).block[f.skip..f.skip + f.head]
      + disk[q.abs + f.head..q.abs + f.head + f.middle]
      + AfterRead(p, disk, c, q).block[..f.tail]
  }

  /** What a caller can check beforehand: no bounced transfer spoils the named block. The
      name in force is that of the head block, or of the block cached before. */
  ghost predicate Safe(p: Params, limit: nat, lba: nat, q: Request)
    requires p.Ok() && q.size > 0 && q.abs + q.size <= limit && Aligned(limit, p.blocksize)
  {
    PlanFacts(p.blocksize, q.abs, q.size, limit);
    var f := PlanOf(p.blocksize, q.abs, q.size);
    var lb := Clobber(p, limit, q);
    var named := if f.head > 0 then q.abs - f.skip else lba;
    || lb == NO_BLOCK
    || (if f.tail > 0 then named != q.abs + f.head + f.middle else named == NO_BLOCK || named == lb)
  }

  /** The block that the bounce buffer is named after, while the middle is transferred, after a
      successful read, and after a successful write. */
  function NameInMiddle(p: Params, lba: nat, q: Request): nat
    requires p.Ok()
  {
    var f := PlanOf(p.blocksize, q.abs, q.size);
    if f.head > 0 && f.skip <= q.abs then q.abs - f.skip else lba
  }

  function NameAfterRead(p: Params, lba: nat, q: Request): nat
    requires p.Ok()
  {
    var f := PlanOf(p.blocksize, q.abs, q.size);
    if f.tail > 0 then q.abs + f.head + f.middle else NameInMiddle(p, lba, q)
  }

  function NameAfterWrite(p: Params, lba: nat, q: Request): nat
    requires p.Ok()
  {
    var f := PlanOf(p.blocksize, q.abs, q.size);
    if f.tail > 0 then q.abs + f.head + f.middle
    else if f.middle > 0 then NO_BLOCK
    else NameInMiddle(p, lba, q)
  }

  /** What a reading aligned_io that fails leaves in the bounce buffer: one of its transfers
      fails, a bounced one leaves anything there, a direct one what was there before it. */
  ghost predicate MiddleFails(p: Params, disk: seq<Byte>, address: nat, len: nat, off: nat, before: seq<Byte>, block: seq<Byte>)
    requires p.Ok() && Aligned(len, p.blocksize) && off + len <= |disk|
    decreases len
  {
    && len > 0
    && (p.ChunkFacts(address, len);
        var n := p.Chunk(address, len);
        || (if p.accepts(address) then block == before else |block| == p.blocksize)
        || MiddleFails(p, disk, address + n, len - n, off + n,
                       if p.accepts(address) then before else disk[off..off + n], block))
  }

  lemma {:induction false} MiddleFailsIs(p: Params, disk: seq<Byte>, address: nat, len: nat, off: nat,
                                         before: seq<Byte>, block: seq<Byte>)
    requires p.Ok() && Aligned(len, p.blocksize) && off + len <= |disk| < NO_BLOCK && |before| == p.blocksize
    ensures MiddleFails(p, disk, address, len, off, before, block)
        <==> len > 0 && |block| == p.blocksize && (p.LastBounced(address, len, off) == NO_BLOCK ==> block == before)
    decreases len
  {
    hide Aligned, Whole;
    if len > 0 {
      p.LastBouncedStep(address, len, off);
      p.ChunkFacts(address, len);
      var n := p.Chunk(address, len);
      MiddleFailsIs(p, disk, address + n, len - n, off + n, if p.accepts(address) then before else disk[off..off + n], block);
      if n == len {
        NothingBounced(p, address + n, off + n);
      }
    }
  }

  /** The same for the middle of a request. */
  ghost predicate MiddleLeaves(p: Params, disk: seq<Byte>, c: Cache, q: Request, block: seq<Byte>)
    requires InRange(p, disk, q)
  {
    PlanFacts(p.blocksize, q.abs, q.size, |disk|);
    var f := PlanOf(p.blocksize, q.abs, q.size);
    MiddleFails(p, disk, q.address + f.head, f.middle, q.abs + f.head, c.block, block)
  }

  lemma MiddleLeavesIs(p: Params, disk: seq<Byte>, c: Cache, q: Request, block: seq<Byte>)
    requires InRange(p, disk, q) && |c.block| == p.blocksize
    ensures MiddleLeaves(p, disk, c, q, block)
        <==> PlanOf(p.blocksize, q.abs, q.size).middle > 0 && |block| == p.blocksize
             && (Clobber(p, |disk|, q) == NO_BLOCK ==> block == c.block)
  {
    hide Aligned, PlanOf, MiddleFails;
    PlanFacts(p.blocksize, q.abs, q.size, |disk|);
    MiddleOf(p, |disk|, q);
    var f := PlanOf(p.blocksize, q.abs, q.size);
    MiddleFailsIs(p, disk, q.address + f.head, f.middle, q.abs + f.head, c.block, block);
  }

  /** What a failed read leaves: no name when the head or the tail had to be fetched, or the
      name in force with what the transfers of the middle left. */
  ghost predicate MayLeave(p: Params, disk: seq<Byte>, c: Cache, q: Request, r: Cache)
    requires InRange(p, disk, q) && |c.block| == p.blocksize
  {
    PlanFacts(p.blocksize, q.abs, q.size, |disk|);
    var f := PlanOf(p.blocksize, q.abs, q.size);
    var c1 := AfterHead(p, disk, c, q);
    || (f.head > 0 && c.lba != q.abs - f.skip && r.lba == NO_BLOCK && |r.block| == p.blocksize)
    || (r.lba == c1.lba && MiddleLeaves(p, disk, c1, q, r.block))
    || (f.tail > 0 && c1.lba != q.abs + f.head + f.middle && r.lba == NO_BLOCK && |r.block| == p.blocksize)
  }

  /** What a caller can check beforehand: even if the read fails the cache stays truthful. */
  ghost predicate FailSafe(p: Params, limit: nat, lba: nat, q: Request)
    requires p.Ok() && q.size > 0 && q.abs + q.size <= limit && Aligned(limit, p.blocksize)
  {
    Clobber(p, limit, q) == NO_BLOCK || NameInMiddle(p, lba, q) == NO_BLOCK
  }

  /** All that failed reads leave is truthful exactly when no transfer of the middle is
      bounced, or the bounce buffer has no name meanwhile. */
  lemma FailureTruthful(p: Params, disk: seq<Byte>, c: Cache, q: Request)
    requires InRange(p, disk, q) && CacheOk(disk, p.blocksize, c)
    ensures (forall r :: MayLeave(p, disk, c, q, r) ==> CacheOk(disk, p.blocksize, r))
        <==> FailSafe(p, |disk|, c.lba, q)
  {
    hide Aligned, PlanOf, Clobber, AfterHead, MiddleLeaves;
    PlanFacts(p.blocksize, q.abs, q.size, |disk|);
    MiddleOf(p, |disk|, q);
    HeadRight(p, disk, c, q);
    var c1 := AfterHead(p, disk, c, q);
    forall block: seq<Byte>
      ensures MiddleLeaves(p, disk, c1, q, block)
        <==> PlanOf(p.blocksize, q.abs, q.size).middle > 0 && |block| == p.blocksize
             && (Clobber(p, |disk|, q) == NO_BLOCK ==> block == c1.block)
    {
      MiddleLeavesIs(p, disk, c1, q, block);
    }
    if !FailSafe(p, |disk|, c.lba, q) {
      var wrong := Cache(c1.lba, c1.block[0 := if c1.block[0] == 0 then 1 else 0]);
      assert wrong.block[0] != c1.block[0];
      assert MayLeave(p, disk, c, q, wrong) && !CacheOk(disk, p.blocksize, wrong);
    }
  }

  lemma HeadRight(p: Params, disk: seq<Byte>, c: Cache, q: Request)
    requires InRange(p, disk, q) && CacheOk(disk, p.blocksize, c)
    ensures var f := PlanOf(p.blocksize, q.abs, q.size); var c1 := AfterHead(p, disk, c, q);
            && CacheOk(disk, p.blocksize, c1)
            && c1.lba == (if f.head > 0 then q.abs - f.skip else c.lba)
            && f.skip + f.head <= p.blocksize && q.abs + f.head <= |disk|
            && c1.block[f.skip..f.skip + f.head] == disk[q.abs..q.abs + f.head]
  {
    hide Aligned, PlanOf;
    PlanFacts(p.blocksize, q.abs, q.size, |disk|);
    var f := PlanOf(p.blocksize, q.abs, q.size);
    if f.head > 0 {
      var b := q.abs - f.skip;
      assert AfterHead(p, disk, c, q).block == disk[b..b + p.blocksize];
      SliceOfSlice(disk, b, p.blocksize, f.skip, f.skip + f.head);
    }
  }

  lemma SliceOfSlice(s: seq<Byte>, b: nat, n: nat, i: nat, j: nat)
    requires b + n <= |s| && i <= j <= n
    ensures s[b..b + n][i..j] == s[b + i..b + j]
  {
    var inner, direct := s[b..b + n][i..j], s[b + i..b + j];
    assert forall k :: 0 <= k < j - i ==> inner[k] == direct[k];
  }

  lemma TailRight(p: Params, disk: seq<Byte>, c: Cache, q: Request)
    requires InRange(p, disk, q) && CacheOk(disk, p.blocksize, c) && Safe(p, |disk|, c.lba, q)
    ensures var f := PlanOf(p.blocksize, q.abs, q.size); var c3 := AfterRead(p, disk, c, q); var t := q.abs + f.head + f.middle;
            && CacheOk(disk, p.blocksize, c3)
            && f.tail <= p.blocksize && t + f.tail <= |disk| && c3.block[..f.tail] == disk[t..t + f.tail]
  {
    hide Aligned, PlanOf, Clobber, AfterHead;
    PlanFacts(p.blocksize, q.abs, q.size, |disk|);
    ClobberInDisk(p, disk, q);
    HeadRight(p, disk, c, q);
    var f := PlanOf(p.blocksize, q.abs, q.size);
    var t := q.abs + f.head + f.middle;
    var c2 := BeforeTail(p, disk, c, q);
    assert CacheOk(disk, p.blocksize, c2) || c2.lba != t;
    if f.tail == 0 {
      assert AfterRead(p, disk, c, q) == c2;
    }
  }

  lemma ThreePieces(s: seq<Byte>, a: nat, b: nat, c: nat, d: nat)
    requires a <= b <= c <= d <= |s|
    ensures s[a..d] == s[a..b] + s[b..c] + s[c..d]
  {
    assert s[a..d] == s[a..b] + s[b..d];
    assert s[b..d] == s[b..c] + s[c..d];
  }

  /** A safe read delivers the disk bytes and leaves a truthful cache. */
  lemma SafeReadRight(p: Params, disk: seq<Byte>, c: Cache, q: Request)
    requires InRange(p, disk, q) && CacheOk(disk, p.blocksize, c) && Safe(p, |disk|, c.lba, q)
    ensures ReadBytes(p, disk, c, q) == disk[q.abs..q.abs + q.size]
    ensures CacheOk(disk, p.blocksize, AfterRead(p, disk, c, q))
  {
    hide Aligned, PlanOf, Safe, AfterHead, AfterRead, CacheOk, ReadBytes;
    PlanFacts(p.blocksize, q.abs, q.size, |disk|);
    HeadRight(p, disk, c, q);
    TailRight(p, disk, c, q);
    var f := PlanOf(p.blocksize, q.abs, q.size);
    var t := q.abs + f.head + f.middle;
    ThreePieces(disk, q.abs, q.abs + f.head, t, t + f.tail);
    ReadInPieces(p, disk, c, q);
  }

  lemma ReadInPieces(p: Params, disk: seq<Byte>, c: Cache, q: Request)
    requires InRange(p, disk, q) && CacheOk(disk, p.blocksize, c)
    ensures |c.block| == p.blocksize
    ensures var f := PlanOf(p.blocksize, q.abs, q.size); var c1, c3 := AfterHead(p, disk, c, q), AfterRead(p, disk, c, q);
      && f.skip + f.head <= p.blocksize && f.tail <= p.blocksize && q.abs + f.head + f.middle <= |disk|
      && ReadBytes(p, disk, c, q) ==
         c1.block[f.skip..f.skip + f.head] + disk[q.abs + f.head..q.abs + f.head + f.middle] + c3.block[..f.tail]
  {
    hide Aligned, PlanOf, AfterHead, AfterRead;
    PlanFacts(p.blocksize, q.abs, q.size, |disk|);
  }

  /** Without that check a read can go wrong: for every unsafe request there is a medium,
      with a truthful cache of the same name, on which it returns wrong bytes or leaves a
      cache that lies. */
  lemma UnsafeReadWrong(p: Params, limit: nat, lba: nat, q: Request)
    requires p.Ok() && q.size > 0 && q.abs + q.size <= limit < NO_BLOCK && Aligned(limit, p.blocksize)
    requires lba != NO_BLOCK ==> Aligned(lba, p.blocksize) && lba + p.blocksize <= limit
    requires !Safe(p, limit, lba, q)
    ensures exists disk: seq<Byte>, block: seq<Byte> ::
              && |disk| == limit && CacheOk(disk, p.blocksize, Cache(lba, block))
              && InRange(p, disk, q)
              && !(ReadBytes(p, disk, Cache(lba, block), q) == disk[q.abs..q.abs + q.size]
                   && CacheOk(disk, p.blocksize, AfterRead(p, disk, Cache(lba, block), q)))
  {
    hide Aligned, PlanOf, Clobber, Safe, AfterRead, ReadBytes;
    PlanFacts(p.blocksize, q.abs, q.size, limit);
    var bs := p.blocksize;
    var f := PlanOf(bs, q.abs, q.size);
    var named := if f.head > 0 then q.abs - f.skip else lba;
    // ones in the block the cache is named after, zeros everywhere else
    var disk: seq<Byte> := seq(limit, i => if named <= i < named + bs then 1 else 0);
    var block: seq<Byte> := if lba == NO_BLOCK then seq(bs, _ => 0) else disk[lba..lba + bs];
    var c := Cache(lba, block);
    LyingCache(p, disk, c, q, named);
    assert CacheOk(disk, bs, Cache(lba, block));
  }

  lemma LyingCache(p: Params, disk: seq<Byte>, c: Cache, q: Request, named: nat)
    requires InRange(p, disk, q) && CacheOk(disk, p.blocksize, c) && !Safe(p, |disk|, c.lba, q)
    requires var f := PlanOf(p.blocksize, q.abs, q.size); f.skip <= q.abs && named == if f.head > 0 then q.abs - f.skip else c.lba
    requires forall i :: 0 <= i < |disk| ==> disk[i] == if named <= i < named + p.blocksize then 1 else 0
    ensures !CacheOk(disk, p.blocksize, AfterRead(p, disk, c, q))
  {
    hide Aligned, PlanOf, Clobber, AfterHead;
    PlanFacts(p.blocksize, q.abs, q.size, |disk|);
    ClobberInDisk(p, disk, q);
    HeadRight(p, disk, c, q);
    var bs := p.blocksize;
    var lb := Clobber(p, |disk|, q);
    var c3 := AfterRead(p, disk, c, q);
    BlocksApart(named, lb, bs);
    assert c3.lba == named && c3.block == disk[lb..lb + bs];
    assert c3.block[0] == 0 && disk[named..named + bs][0] == 1;
  }

  lemma BlocksApart(a: nat, b: nat, d: nat)
    requires d > 0 && Aligned(a, d) && Aligned(b, d) && a != b
    ensures a + d <= b || b + d <= a
  {
    if a < b {
      AlignedRoom(a, b, d);
    } else {
      AlignedRoom(b, a, d);
    }
  }

  class Device {
    const p: Params
    /** the whole medium; the partition is the `size` bytes from `firstbyte` on */
    const disk: array<Byte>
    const firstbyte: nat
    const size: nat
    const bounce: array<Byte>
    var bounceLba: nat
    /** how many transfers have failed */
    ghost var faults: nat

    ghost predicate Shape() {
      && p.Ok()
      && firstbyte + size <= disk.Length < NO_BLOCK && Aligned(disk.Length, p.blocksize)
      && bounce.Length == p.blocksize && bounce != disk
    }

    ghost function Cached(): Cache
      reads this`bounceLba, bounce
    {
      Cache(bounceLba, bounce[..])
    }

    ghost predicate Coherent()
      reads this`bounceLba, disk, bounce
    {
      Shape() && CacheOk(disk[..], p.blocksize, Cached())
    }

    /** raw_io for reading: on failure the buffer may hold anything. */
    method RawRead(buf: array<Byte>, at: nat, len: nat, off: nat) returns (ok: bool)
      requires Shape() && Aligned(off, p.blocksize) && Aligned(len, p.blocksize)
      requires p.maxtransfer == 0 || len <= p.maxtransfer || len == p.blocksize
      requires off + len <= disk.Length && at + len <= buf.Length && buf != disk
      modifies this`faults, buf
      ensures faults >= old(faults) && (ok <==> faults == old(faults))
      ensures buf[..at] == old(buf[..at]) && buf[at + len..] == old(buf[at + len..])
      ensures ok ==> buf[at..at + len] == disk[off..off + len]
    {
      ok := *;
      faults := faults + if ok then 0 else 1;
      var k := 0;
      while k < len
        modifies buf
        invariant k <= len
        invariant buf[..at] == old(buf[..at]) && buf[at + len..] == old(buf[at + len..])
        invariant ok ==> buf[at..at + k] == disk[off..off + k]
      {
        if ok {
          buf[at + k] := disk[off + k];
        } else {
          buf[at + k] := *;
        }
        assert disk[off..off + k + 1] == disk[off..off + k] + [disk[off + k]];
        assert buf[at..at + k + 1] == buf[at..at + k] + [buf[at + k]];
        k := k + 1;
      }
    }

    /** raw_io for writing: on failure the addressed blocks may hold anything. */
    method RawWrite(buf: array<Byte>, at: nat, len: nat, off: nat) returns (ok: bool)
      requires Shape() && Aligned(off, p.blocksize) && Aligned(len, p.blocksize)
      requires p.maxtransfer == 0 || len <= p.maxtransfer || len == p.blocksize
      requires off + len <= disk.Length && at + len <= buf.Length && buf != disk
      modifies this`faults, disk
      ensures faults >= old(faults) && (ok <==> faults == old(faults))
      ensures disk[..off] == old(disk[..off]) && disk[off + len..] == old(disk[off + len..])
      ensures ok ==> disk[off..off + len] == buf[at..at + len]
    {
      ok := *;
      faults := faults + if ok then 0 else 1;
      var k := 0;
      while k < len
        modifies disk
        invariant k <= len
        invariant disk[..off] == old(disk[..off]) && disk[off + len..] == old(disk[off + len..])
        invariant ok ==> disk[off..off + k] == buf[at..at + k]
      {
        if ok {
          disk[off + k] := buf[at + k];
        } else {
          disk[off + k] := *;
        }
        assert disk[off..off + k + 1] == disk[off..off + k] + [disk[off + k]];
        assert buf[at..at + k + 1] == buf[at..at + k] + [buf[at + k]];
        k := k + 1;
      }
    }

    /** fetch_block: nothing to do when the block is cached. */
    method FetchBlock(blockoff: nat) returns (ok: bool)
      requires Shape() && Aligned(blockoff, p.blocksize) && blockoff + p.blocksize <= disk.Length
      modifies this`faults, this`bounceLba, bounce
      ensures faults >= old(faults) && (ok <==> faults == old(faults))
      ensures old(bounceLba) == blockoff ==> ok && bounceLba == blockoff && bounce[..] == old(bounce[..])
      ensures old(bounceLba) != blockoff && ok ==>
                bounceLba == blockoff && bounce[..] == disk[blockoff..blockoff + p.blocksize]
      ensures !ok ==> bounceLba == NO_BLOCK && old(bounceLba) != blockoff
    {
      if bounceLba == blockoff {
        return true;
      }
      bounceLba := NO_BLOCK;
      WholeUnits(p.blocksize, p.blocksize);
      ok := RawRead(bounce, 0, p.blocksize, blockoff);
      if !ok {
        return false;
      }
      bounceLba := blockoff;
      return true;
    }

    /** memcpy, with the part of the target from `end` on known to be left alone. */
    static method Copy(src: array<Byte>, from: nat, dst: array<Byte>, to: nat, n: nat, ghost end: nat)
      requires src != dst && from + n <= src.Length && to + n <= end <= dst.Length
      modifies dst
      ensures dst[..to] == old(dst[..to]) && dst[end..] == old(dst[end..])
      ensures dst[to..to + n] == src[from..from + n]
    {
      forall k | 0 <= k < n {
        dst[to + k] := src[from + k];
      }
      ghost var written, wanted := dst[to..to + n], src[from..from + n];
      assert forall k :: 0 <= k < n ==> written[k] == wanted[k];
    }

    /** One transfer of a reading aligned_io, through the bounce buffer if the caller's
        address is not acceptable. */
    method ReadChunk(buf: array<Byte>, at: nat, address: nat, len: nat, off: nat) returns (ok: bool, chunk: nat)
      requires Shape() && 0 < len && Aligned(off, p.blocksize) && Aligned(len, p.blocksize)
      requires off + len <= disk.Length && at + len <= buf.Length && buf != disk && buf != bounce
      modifies this`faults, buf, bounce
      ensures faults >= old(faults) && (ok <==> faults == old(faults))
      ensures chunk == p.Chunk(address, len) && 0 < chunk <= len
      ensures Aligned(chunk, p.blocksize) && Aligned(len - chunk, p.blocksize)
      ensures buf[..at] == old(buf[..at]) && buf[at + len..] == old(buf[at + len..])
      ensures ok ==> buf[at..at + chunk] == disk[off..off + chunk]
      ensures p.accepts(address) ==> bounce[..] == old(bounce[..])
      ensures !p.accepts(address) ==> chunk == p.blocksize
      ensures !p.accepts(address) && ok ==> bounce[..] == disk[off..off + p.blocksize]
    {
      hide Aligned, Whole;
      p.ChunkFacts(address, len);
      chunk := ChooseChunk(address, len);
      if !p.accepts(address) {
        ok := RawRead(bounce, 0, chunk, off);
        if ok {
          assert bounce[..] == bounce[0..chunk];
          Copy(bounce, 0, buf, at, chunk, at + len);
        }
      } else {
        ok := RawRead(buf, at, chunk, off);
        assert buf[at + len..] == buf[at + chunk..][len - chunk..];
      }
    }

    /** The transfer length, computed the way aligned_io does. */
    method ChooseChunk(address: nat, len: nat) returns (chunk: nat)
      requires Shape() && 0 < len
      ensures chunk == p.Chunk(address, len)
    {
      hide Aligned, Whole;
      chunk := len;
      if p.maxtransfer != 0 && chunk > p.maxtransfer {
        chunk := Whole(p.maxtransfer, p.blocksize);
      }
      if chunk == 0 {
        chunk := p.blocksize;
      }
      if !p.accepts(address) {
        chunk := p.blocksize;
      }
    }

    method ReadRound(buf: array<Byte>, at: nat, address: nat, len: nat, off: nat, done: nat,
                     ghost lb: nat, ghost front: seq<Byte>, ghost tail: seq<Byte>, ghost before: seq<Byte>)
      returns (ok: bool, chunk: nat, ghost lb1: nat)
      requires Shape() && Reading(p, disk[..], buf[..], bounce[..], at, address, len, off, done, lb, front, tail, before)
      requires done < len && buf != disk && buf != bounce
      modifies this`faults, buf, bounce
      ensures faults >= old(faults) && (ok <==> faults == old(faults))
      ensures 0 < chunk <= len - done
      ensures ok ==> Reading(p, disk[..], buf[..], bounce[..], at, address, len, off, done + chunk, lb1, front, tail, before)
      ensures !ok ==> at + len <= buf.Length && buf[..at] == front && buf[at + len..] == tail
      ensures !ok && ReadingBounds(p, disk[..], buf[..], at, len, off) && p.LastBounced(address, len, off) == NO_BLOCK ==>
                bounce[..] == before
    {
      hide Aligned, Reading, Whole, Params.Chunk, Params.LastBounced;
      ReadingFacts(p, disk[..], buf[..], bounce[..], at, address, len, off, done, lb, front, tail, before);
      ghost var b0, k0 := buf[..], bounce[..];
      lb1 := if p.accepts(address + done) then lb else off + done;
      ok, chunk := ReadChunk(buf, at + done, address + done, len - done, off + done);
      FrontOnly(b0, buf[..], at, done, len);
      if ok {
        ReadingStep(p, disk[..], b0, buf[..], k0, bounce[..], at, address, len, off, done, chunk, lb, front, tail, before);
      }
    }

    /** aligned_io for reading. */
    method AlignedRead(buf: array<Byte>, at: nat, address: nat, len: nat, off: nat) returns (ok: bool)
      requires Shape() && Aligned(off, p.blocksize) && Aligned(len, p.blocksize)
      requires off + len <= disk.Length && at + len <= buf.Length && buf != disk && buf != bounce
      modifies this`faults, buf, bounce
      ensures faults >= old(faults) && (ok <==> faults == old(faults))
      ensures buf[..at] == old(buf[..at]) && buf[at + len..] == old(buf[at + len..])
      ensures ok ==> buf[at..at + len] == disk[off..off + len]
      ensures ok ==> BouncedLast(disk[..], p.blocksize, p.LastBounced(address, len, off), old(bounce[..]), bounce[..])
      ensures !ok ==> len > 0
      ensures p.LastBounced(address, len, off) == NO_BLOCK ==> bounce[..] == old(bounce[..])
    {
      hide Aligned, Reading, Params.LastBounced;
      ghost var front, tail, before := buf[..at], buf[at + len..], bounce[..];
      var done: nat := 0;
      ghost var lb: nat := NO_BLOCK;
      ReadingStarts(p, disk[..], buf[..], bounce[..], at, address, len, off);
      while done < len
        invariant faults == old(faults)
        invariant done <= len
        invariant Reading(p, disk[..], buf[..], bounce[..], at, address, len, off, done, lb, front, tail, before)
      {
        var good, chunk, lb1 := ReadRound(buf, at, address, len, off, done, lb, front, tail, before);
        if !good {
          return false;
        }
        lb := lb1;
        done := done + chunk;
      }
      ReadingEnds(p, disk[..], buf[..], bounce[..], at, address, len, off, lb, front, tail, before);
      return true;
    }

    /** One transfer of a writing aligned_io. */
    method WriteChunk(buf: array<Byte>, at: nat, address: nat, len: nat, off: nat) returns (ok: bool, chunk: nat)
      requires Shape() && 0 < len && Aligned(off, p.blocksize) && Aligned(len, p.blocksize)
      requires off + len <= disk.Length && at + len <= buf.Length && buf != disk && buf != bounce
      modifies this`faults, disk, bounce
      ensures faults >= old(faults) && (ok <==> faults == old(faults))
      ensures 0 < chunk <= len && Aligned(chunk, p.blocksize) && Aligned(len - chunk, p.blocksize)
      ensures disk[..off] == old(disk[..off]) && disk[off + len..] == old(disk[off + len..])
      ensures ok ==> disk[off..off + chunk] == buf[at..at + chunk]
    {
      hide Aligned, Whole;
      p.ChunkFacts(address, len);
      chunk := ChooseChunk(address, len);
      if !p.accepts(address) {
        Copy(buf, at, bounce, 0, chunk, chunk);
        ok := RawWrite(bounce, 0, chunk, off);
      } else {
        ok := RawWrite(buf, at, chunk, off);
      }
      assert disk[off + len..] == disk[off + chunk..][len - chunk..];
    }

    /** aligned_io for writing: the cached block may be in range, so it is forgotten. */
    method AlignedWrite(buf: array<Byte>, at: nat, address: nat, len: nat, off: nat) returns (ok: bool)
      requires Shape() && Aligned(off, p.blocksize) && Aligned(len, p.blocksize)
      requires off + len <= disk.Length && at + len <= buf.Length && buf != disk && buf != bounce
      modifies this`faults, this`bounceLba, disk, bounce
      ensures faults >= old(faults) && (ok <==> faults == old(faults))
      ensures KeptAround(old(disk[..]), disk[..], off, off + len)
      ensures ok ==> disk[..] == Patched(old(disk[..]), off, buf[at..at + len])
      ensures bounceLba == NO_BLOCK
    {
      hide Aligned, Patched, KeptAround, Writing;
      ghost var d0, data := disk[..], buf[at..at + len];
      bounceLba := NO_BLOCK;
      var done: nat := 0;
      WritingStarts(d0, data, off);
      while done < len
        invariant faults == old(faults)
        invariant done <= len && Aligned(off + done, p.blocksize) && Aligned(len - done, p.blocksize)
        invariant Writing(d0, disk[..], data, off, done)
        invariant bounceLba == NO_BLOCK
      {
        ghost var d1 := disk[..];
        var good, chunk := WriteChunk(buf, at + done, address + done, len - done, off + done);
        WritingKept(d0, d1, disk[..], data, off, done);
        if !good {
          return false;
        }
        SliceOfSlice(buf[..], at, len, done, done + chunk);
        WritingStep(d0, d1, disk[..], data, off, done, chunk);
        SumAligned(off + done, chunk, p.blocksize);
        done := done + chunk;
      }
      WritingEnds(d0, disk[..], data, off);
      return true;
    }

    ghost predicate Wanted(size: nat, offset: int) {
      0 <= offset && 0 < size && offset + size <= this.size
    }

    /** The unaligned head or tail of a read: `n` bytes at `skip` of one block. */
    method ReadPart(buf: array<Byte>, at: nat, n: nat, block: nat, skip: nat) returns (ok: bool)
      requires Shape() && InDisk(disk[..], p.blocksize, block) && skip + n <= p.blocksize
      requires at + n <= buf.Length && buf != disk && buf != bounce
      modifies this`faults, this`bounceLba, bounce, buf
      ensures faults >= old(faults) && (ok <==> faults == old(faults))
      ensures buf[..at] == old(buf[..at]) && buf[at + n..] == old(buf[at + n..])
      ensures ok ==> Cached() == Fetched(disk[..], p.blocksize, old(Cached()), block)
                     && buf[at..at + n] == Cached().block[skip..skip + n]
      ensures !ok ==> bounceLba == NO_BLOCK && old(bounceLba) != block
    {
      hide Aligned;
      ok := FetchBlock(block);
      if !ok {
        return false;
      }
      Copy(bounce, skip, buf, at, n, at + n);
    }

    /** The head of partition_io for reading: nothing to do on a block boundary. */
    method ReadHead(buf: array<Byte>, q: Request) returns (ok: bool, n: nat)
      requires Shape() && InRange(p, disk[..], q) && q.size <= buf.Length && buf != disk && buf != bounce
      modifies this`faults, this`bounceLba, bounce, buf
      ensures faults >= old(faults) && (ok <==> faults == old(faults))
      ensures n == PlanOf(p.blocksize, q.abs, q.size).head <= q.size
      ensures buf[n..] == old(buf[n..])
      ensures ok ==>
                && Cached() == AfterHead(p, disk[..], old(Cached()), q)
                && var skip := PlanOf(p.blocksize, q.abs, q.size).skip;
                   skip + n <= p.blocksize && buf[..n] == Cached().block[skip..skip + n]
      ensures !ok ==> MayLeave(p, disk[..], old(Cached()), q, Cached())
    {
      hide Aligned, Whole, MiddleLeaves;
      PlanFacts(p.blocksize, q.abs, q.size, disk.Length);
      var head := q.abs % p.blocksize;
      if head == 0 {
        return true, 0;
      }
      n := p.blocksize - head;
      if n > q.size {
        n := q.size;
      }
      ok := ReadPart(buf, 0, n, q.abs - head, head);
      assert buf[..n] == buf[0..n];
    }

    /** The middle of partition_io for reading: whole blocks, straight into the buffer. */
    method ReadMiddle(buf: array<Byte>, at: nat, remaining: nat, q: Request) returns (ok: bool, n: nat)
      requires Shape() && InRange(p, disk[..], q) && q.size <= buf.Length && buf != disk && buf != bounce
      requires at == PlanOf(p.blocksize, q.abs, q.size).head && at + remaining == q.size
      modifies this`faults, bounce, buf
      ensures faults >= old(faults) && (ok <==> faults == old(faults))
      ensures n == PlanOf(p.blocksize, q.abs, q.size).middle && at + n <= q.size
      ensures buf[..at] == old(buf[..at]) && buf[at + n..] == old(buf[at + n..])
      ensures ok ==> buf[at..at + n] == disk[q.abs + at..q.abs + at + n]
      ensures ok ==> (Clobber(p, disk.Length, q) != NO_BLOCK ==> InDisk(disk[..], p.blocksize, Clobber(p, disk.Length, q)))
                     && Cached() == AfterMiddle(disk[..], p.blocksize, old(Cached()), Clobber(p, disk.Length, q))
      ensures !ok ==> MiddleLeaves(p, disk[..], old(Cached()), q, bounce[..])
    {
      hide Aligned, Whole, Params.LastBounced, PlanOf, Clobber, BouncedLast, AfterMiddle, MiddleLeaves;
      MiddleLength(p, disk.Length, q);
      ClobberInDisk(p, disk[..], q);
      MiddleOf(p, disk.Length, q);
      MiddleCache(disk[..], p.blocksize, bounceLba, NO_BLOCK, bounce[..], bounce[..]);
      ghost var k0 := bounce[..];
      n := 0;
      ok := true;
      if remaining >= p.blocksize {
        n := Whole(remaining, p.blocksize);
        ok := AlignedRead(buf, at, q.address + at, n, q.abs + at);
        if ok {
          MiddleCache(disk[..], p.blocksize, bounceLba, Clobber(p, disk.Length, q), k0, bounce[..]);
        } else {
          MiddleLeavesIs(p, disk[..], Cache(bounceLba, k0), q, bounce[..]);
        }
      }
    }

    /** The tail of partition_io for reading. */
    method ReadTail(buf: array<Byte>, at: nat, remaining: nat, q: Request, ghost c0: Cache) returns (ok: bool)
      requires Shape() && InRange(p, disk[..], q) && q.size <= buf.Length && buf != disk && buf != bounce
      requires var f := PlanOf(p.blocksize, q.abs, q.size); at == f.head + f.middle && remaining == f.tail
      requires at + remaining == q.size && |c0.block| == p.blocksize && Cached() == BeforeTail(p, disk[..], c0, q)
      modifies this`faults, this`bounceLba, bounce, buf
      ensures faults >= old(faults) && (ok <==> faults == old(faults))
      ensures buf[..at] == old(buf[..at]) && buf[q.size..] == old(buf[q.size..])
      ensures ok ==> Cached() == AfterRead(p, disk[..], c0, q)
                     && remaining <= p.blocksize && buf[at..q.size] == Cached().block[..remaining]
      ensures !ok ==> MayLeave(p, disk[..], c0, q, Cached())
    {
      hide Aligned, PlanOf, MiddleLeaves, AfterHead;
      PlanFacts(p.blocksize, q.abs, q.size, disk.Length);
      ok := true;
      if remaining > 0 {
        ok := ReadPart(buf, at, remaining, q.abs + at, 0);
      }
    }

    /** partition_io for reading, once the request is known to lie inside the partition. */
    method ReadRequest(buf: array<Byte>, q: Request) returns (ok: bool)
      requires Shape() && InRange(p, disk[..], q) && q.size <= buf.Length && buf != disk && buf != bounce
      modifies this`faults, this`bounceLba, bounce, buf
      ensures faults >= old(faults) && (ok <==> faults == old(faults))
      ensures buf[q.size..] == old(buf[q.size..])
      ensures ok ==> buf[..q.size] == ReadBytes(p, disk[..], old(Cached()), q)
      ensures ok ==> Cached() == AfterRead(p, disk[..], old(Cached()), q)
      ensures !ok ==> MayLeave(p, disk[..], old(Cached()), q, Cached())
    {
      hide Aligned, Clobber, PlanOf, AfterHead, AfterRead, ReadBytes, BeforeTail, CacheOk, MiddleLeaves;
      PlanFacts(p.blocksize, q.abs, q.size, disk.Length);
      ghost var c0, b0 := Cached(), buf[..];
      var n, m;
      ok, n := ReadHead(buf, q);
      Suffix(b0, buf[..], n, q.size);
      if !ok {
        return;
      }
      ghost var b1, c1 := buf[..], Cached();
      ok, m := ReadMiddle(buf, n, q.size - n, q);
      Suffix(b1, buf[..], n + m, q.size);
      if !ok {
        return;
      }
      ghost var b2 := buf[..];
      MiddleDone(p, disk[..], c0, Cached(), q);
      ok := ReadTail(buf, n + m, q.size - n - m, q, c0);
      if ok {
        AssembleRead(p, disk[..], c0, q, b1, b2, buf[..], n, m);
      }
    }

    /** partition_io for reading. */
    method PartitionRead(buf: array<Byte>, address: nat, size: nat, offset: int) returns (r: int)
      requires Shape() && size <= buf.Length && buf != disk && buf != bounce
      modifies this`faults, this`bounceLba, bounce, buf
      ensures Wanted(size, offset) ==> faults >= old(faults) && (r == size <==> faults == old(faults))
      ensures !Wanted(size, offset) ==> faults == old(faults)
      ensures offset < 0 || size == 0 || offset >= this.size ==> r == 0 && Cached() == old(Cached())
      ensures 0 <= offset < this.size < offset + size ==> r == -1 && Cached() == old(Cached())
      ensures Wanted(size, offset) ==> r == size || r == -1
      ensures buf[size..] == old(buf[size..])
      ensures Wanted(size, offset) && r == size ==>
                var q := Request(address, firstbyte + offset, size);
                && InRange(p, disk[..], q)
                && buf[..size] == ReadBytes(p, disk[..], old(Cached()), q)
                && Cached() == AfterRead(p, disk[..], old(Cached()), q)
      ensures Wanted(size, offset) && old(Coherent()) ==>
                var q := Request(address, firstbyte + offset, size);
                && InRange(p, disk[..], q)
                && (r == size && Safe(p, disk.Length, old(bounceLba), q) ==>
                      buf[..size] == disk[q.abs..q.abs + size] && Coherent())
                && (r == -1 ==> MayLeave(p, disk[..], old(Cached()), q, Cached()))
                && (r == -1 && FailSafe(p, disk.Length, old(bounceLba), q) ==> Coherent())
      ensures Wanted(size, offset) && r == size ==>
                bounceLba == NameAfterRead(p, old(bounceLba), Request(address, firstbyte + offset, size))
    {
      hide Aligned, Whole, Clobber, PlanOf, CacheOk, Safe, FailSafe, MayLeave, NameAfterRead;
      if offset < 0 || size == 0 {
        return 0;
      }
      if offset >= this.size {
        return 0;
      }
      if offset + size > this.size {
        return -1;
      }
      var q := Request(address, firstbyte + offset, size);
      ghost var c0 := Cached();
      var ok := ReadRequest(buf, q);
      if !ok {
        if CacheOk(disk[..], p.blocksize, c0) {
          FailureTruthful(p, disk[..], c0, q);
        }
        return -1;
      }
      ReadName(p, disk[..], c0, q);
      if CacheOk(disk[..], p.blocksize, c0) && Safe(p, disk.Length, c0.lba, q) {
        SafeReadRight(p, disk[..], c0, q);
      }
      return size;
    }

    /** fetch_block from a truthful cache: on success the buffer is the block. */
    method Load(block: nat) returns (ok: bool)
      requires Coherent() && InDisk(disk[..], p.blocksize, block)
      modifies this`faults, this`bounceLba, bounce
      ensures faults >= old(faults) && (ok <==> faults == old(faults))
      ensures Coherent()
      ensures ok ==> bounceLba == block && bounce[..] == disk[block..block + p.blocksize]
    {
      hide Aligned;
      ok := FetchBlock(block);
    }

    /** Write the bounce buffer over the block it is named after; forget it on failure. */
    method WriteBack(block: nat) returns (ok: bool)
      requires Shape() && InDisk(disk[..], p.blocksize, block) && bounceLba == block
      modifies this`faults, this`bounceLba, disk
      ensures faults >= old(faults) && (ok <==> faults == old(faults))
      ensures Coherent()
      ensures ok ==> disk[block..block + p.blocksize] == bounce[..] && bounceLba == block
      ensures disk[..block] == old(disk[..block]) && disk[block + p.blocksize..] == old(disk[block + p.blocksize..])
    {
      hide Aligned;
      OneBlock(p.blocksize);
      ok := RawWrite(bounce, 0, p.blocksize, block);
      assert bounce[..] == bounce[0..p.blocksize];
      if !ok {
        bounceLba := NO_BLOCK;
      }
    }

    /** Head or tail of a write: read the block, change `n` bytes of it, write it back. */
    method WritePart(buf: array<Byte>, at: nat, n: nat, block: nat, skip: nat) returns (ok: bool)
      requires Coherent() && InDisk(disk[..], p.blocksize, block) && skip + n <= p.blocksize
      requires at + n <= buf.Length && buf != disk && buf != bounce
      modifies this`faults, this`bounceLba, bounce, disk
      ensures faults >= old(faults) && (ok <==> faults == old(faults))
      ensures Coherent()
      ensures ok ==> disk[..] == Patched(old(disk[..]), block + skip, buf[at..at + n]) && bounceLba == block
      ensures KeptAround(old(disk[..]), disk[..], block, block + p.blocksize)
    {
      hide Aligned, CacheOk, Patched;
      ok := Load(block);
      if !ok {
        return false;
      }
      ghost var d0, k0 := disk[..], bounce[..];
      Copy(buf, at, bounce, skip, n, skip + n);
      PatchedIs(k0, bounce[..], skip, buf[at..at + n]);
      ok := WriteBack(block);
      if ok {
        PatchedBlock(d0, disk[..], p.blocksize, block, skip, buf[at..at + n]);
      }
    }

    /** The head of a write. */
    method WriteHead(buf: array<Byte>, q: Request) returns (ok: bool, n: nat)
      requires Coherent() && InRange(p, disk[..], q) && q.size <= buf.Length && buf != disk && buf != bounce
      modifies this`faults, this`bounceLba, bounce, disk
      ensures faults >= old(faults) && (ok <==> faults == old(faults))
      ensures Coherent() && InRange(p, disk[..], q)
      ensures n == PlanOf(p.blocksize, q.abs, q.size).head <= q.size
      ensures ok ==> disk[..] == Patched(old(disk[..]), q.abs, buf[..n]) && bounceLba == NameInMiddle(p, old(bounceLba), q)
      ensures KeptAround(old(disk[..]), disk[..], FirstTouched(p, q), EndTouched(p, q))
    {
      hide Aligned, Whole, CacheOk, Patched, KeptAround;
      PlanFacts(p.blocksize, q.abs, q.size, disk.Length);
      ghost var d0 := disk[..];
      TouchedFacts(p, q, disk.Length);
      KeptSame(d0, FirstTouched(p, q), EndTouched(p, q));
      var head := q.abs % p.blocksize;
      if head == 0 {
        PatchedNothing(d0, q.abs);
        assert buf[..0] == [];
        return true, 0;
      }
      n := p.blocksize - head;
      if n > q.size {
        n := q.size;
      }
      ok := WritePart(buf, 0, n, q.abs - head, head);
      assert buf[0..n] == buf[..n];
      KeptWider(d0, disk[..], q.abs - head, q.abs - head + p.blocksize, FirstTouched(p, q), EndTouched(p, q));
    }

    /** The middle of a write: whole blocks, with the cached block forgotten. */
    method WriteMiddle(buf: array<Byte>, at: nat, remaining: nat, q: Request) returns (ok: bool, n: nat)
      requires Coherent() && InRange(p, disk[..], q) && q.size <= buf.Length && buf != disk && buf != bounce
      requires at == PlanOf(p.blocksize, q.abs, q.size).head && at + remaining == q.size
      modifies this`faults, this`bounceLba, bounce, disk
      ensures faults >= old(faults) && (ok <==> faults == old(faults))
      ensures Coherent() && InRange(p, disk[..], q)
      ensures n == PlanOf(p.blocksize, q.abs, q.size).middle && at + n <= q.size
      ensures ok ==> disk[..] == Patched(old(disk[..]), q.abs + at, buf[at..at + n])
      ensures bounceLba == if n > 0 then NO_BLOCK else old(bounceLba)
      ensures KeptAround(old(disk[..]), disk[..], FirstTouched(p, q), EndTouched(p, q))
    {
      hide Aligned, Whole, PlanOf, Patched, KeptAround, FirstTouched, EndTouched;
      MiddleLength(p, disk.Length, q);
      ghost var f := PlanOf(p.blocksize, q.abs, q.size);
      assert f.middle == (if remaining >= p.blocksize then Whole(remaining, p.blocksize) else 0) by {
        assert remaining == q.size - f.head;
      }
      TouchedFacts(p, q, disk.Length);
      ghost var d0 := disk[..];
      KeptSame(d0, FirstTouched(p, q), EndTouched(p, q));
      if remaining < p.blocksize {
        PatchedNothing(d0, q.abs + at);
        assert buf[at..at] == [];
        return true, 0;
      }
      n := Whole(remaining, p.blocksize);
      ok := AlignedWrite(buf, at, q.address + at, n, q.abs + at);
      KeptWider(d0, disk[..], q.abs + at, q.abs + at + n, FirstTouched(p, q), EndTouched(p, q));
    }

    /** The tail of a write. */
    method WriteTail(buf: array<Byte>, at: nat, remaining: nat, q: Request) returns (ok: bool)
      requires Coherent() && InRange(p, disk[..], q) && q.size <= buf.Length && buf != disk && buf != bounce
      requires var f := PlanOf(p.blocksize, q.abs, q.size); at == f.head + f.middle && remaining == f.tail
      requires at + remaining == q.size
      modifies this`faults, this`bounceLba, bounce, disk
      ensures faults >= old(faults) && (ok <==> faults == old(faults))
      ensures Coherent()
      ensures ok ==> disk[..] == Patched(old(disk[..]), q.abs + at, buf[at..q.size])
      ensures ok ==> bounceLba == if remaining > 0 then q.abs + at else old(bounceLba)
      ensures KeptAround(old(disk[..]), disk[..], FirstTouched(p, q), EndTouched(p, q))
    {
      hide Aligned, PlanOf, Patched, KeptAround, CacheOk;
      PlanFacts(p.blocksize, q.abs, q.size, disk.Length);
      TouchedFacts(p, q, disk.Length);
      ghost var d0 := disk[..];
      KeptSame(d0, FirstTouched(p, q), EndTouched(p, q));
      ok := true;
      if remaining > 0 {
        ok := WritePart(buf, at, remaining, q.abs + at, 0);
        KeptWider(d0, disk[..], q.abs + at, q.abs + at + p.blocksize, FirstTouched(p, q), EndTouched(p, q));
      } else {
        PatchedNothing(d0, q.abs + at);
        assert buf[at..q.size] == [];
      }
    }

    /** partition_io for writing, once the request is known to lie inside the partition. */
    method WriteRequest(buf: array<Byte>, q: Request) returns (ok: bool)
      requires Coherent() && InRange(p, disk[..], q) && q.size <= buf.Length && buf != disk && buf != bounce
      modifies this`faults, this`bounceLba, bounce, disk
      ensures faults >= old(faults) && (ok <==> faults == old(faults))
      ensures Coherent()
      ensures ok ==> disk[..] == Patched(old(disk[..]), q.abs, buf[..q.size])
      ensures ok ==> bounceLba == NameAfterWrite(p, old(bounceLba), q)
      ensures KeptAround(old(disk[..]), disk[..], FirstTouched(p, q), EndTouched(p, q))
    {
      hide Aligned, PlanOf, Patched, KeptAround, CacheOk, FirstTouched, EndTouched;
      PlanFacts(p.blocksize, q.abs, q.size, disk.Length);
      ghost var d0 := disk[..];
      var n, m;
      ok, n := WriteHead(buf, q);
      ghost var d1 := disk[..];
      if !ok {
        return;
      }
      ok, m := WriteMiddle(buf, n, q.size - n, q);
      ghost var d2 := disk[..];
      KeptTwice(d0, d1, d2, FirstTouched(p, q), EndTouched(p, q));
      if !ok {
        return;
      }
      ok := WriteTail(buf, n + m, q.size - n - m, q);
      KeptTwice(d0, d2, disk[..], FirstTouched(p, q), EndTouched(p, q));
      if ok {
        PatchedTwice(d0, q.abs, buf[..n], buf[n..n + m]);
        assert buf[..n] + buf[n..n + m] == buf[..n + m];
        PatchedTwice(d0, q.abs, buf[..n + m], buf[n + m..q.size]);
        assert buf[..n + m] + buf[n + m..q.size] == buf[..q.size];
      }
    }

    /** partition_io for writing: exactly the requested bytes change; if a transfer fails,
        only blocks the request touches can be damaged and the cache stays truthful. */
    method PartitionWrite(buf: array<Byte>, address: nat, size: nat, offset: int) returns (r: int)
      requires Coherent() && size <= buf.Length && buf != disk && buf != bounce
      modifies this`faults, this`bounceLba, bounce, disk
      ensures Wanted(size, offset) ==> faults >= old(faults) && (r == size <==> faults == old(faults))
      ensures !Wanted(size, offset) ==> faults == old(faults)
      ensures Coherent()
      ensures offset < 0 || size == 0 || offset >= this.size ==> r == 0 && disk[..] == old(disk[..])
      ensures 0 <= offset < this.size < offset + size ==> r == -1 && disk[..] == old(disk[..])
      ensures Wanted(size, offset) ==> r == size || r == -1
      ensures Wanted(size, offset) && r == size ==>
                && disk[..] == Patched(old(disk[..]), firstbyte + offset, buf[..size])
                && bounceLba == NameAfterWrite(p, old(bounceLba), Request(address, firstbyte + offset, size))
      ensures !Wanted(size, offset) ==> bounceLba == old(bounceLba)
      ensures Wanted(size, offset) ==>
                var q := Request(address, firstbyte + offset, size);
                KeptAround(old(disk[..]), disk[..], FirstTouched(p, q), EndTouched(p, q))
    {
      hide Aligned, CacheOk, Patched, KeptAround, FirstTouched, EndTouched;
      if offset < 0 || size == 0 {
        return 0;
      }
      if offset >= this.size {
        return 0;
      }
      if offset + size > this.size {
        return -1;
      }
      var ok := WriteRequest(buf, Request(address, firstbyte + offset, size));
      return if ok then size else -1;
    }
  }

  /** The first block a request touches, and the end of the last. */
  function FirstTouched(p: Params, q: Request): nat
    requires p.Ok()
  {
    Whole(q.abs, p.blocksize)
  }

  function EndTouched(p: Params, q: Request): nat
    requires p.Ok()
  {
    RoundUp(q.abs + q.size, p.blocksize)
  }

  lemma TouchedFacts(p: Params, q: Request, limit: nat)
    requires p.Ok() && q.size > 0 && q.abs + q.size <= limit && Aligned(limit, p.blocksize)
    ensures var f := PlanOf(p.blocksize, q.abs, q.size);
            && FirstTouched(p, q) == q.abs - f.skip && EndTouched(p, q) <= limit
            && (f.head > 0 ==> q.abs - f.skip + p.blocksize <= EndTouched(p, q))
            && q.abs + f.head + f.middle <= EndTouched(p, q)
            && (f.tail > 0 ==> q.abs + f.head + f.middle + p.blocksize <= EndTouched(p, q))
  {
    hide Whole;
    var bs := p.blocksize;
    var f := PlanOf(bs, q.abs, q.size);
    PlanFacts(bs, q.abs, q.size, limit);
    WholeUnits(q.abs, bs);
    EndAligned(q.abs + q.size, bs);
    var e := EndTouched(p, q);
    if f.head > 0 {
      AlignedRoom(q.abs - f.skip, e, bs);
    }
    if f.tail > 0 {
      AlignedRoom(q.abs + f.head + f.middle, e, bs);
    }
    if e > limit {
      AlignedRoom(limit, e, bs);
    }
  }

  lemma EndAligned(x: nat, d: nat)
    requires d > 0
    ensures Aligned(RoundUp(x, d), d) && x <= RoundUp(x, d) < x + d
  {
    DivRoundUpBounds(x, d);
    TimesDiv(DivRoundUp(x, d), d);
  }

  /** A writing aligned_io after `done` bytes. */
  ghost predicate Writing(d0: seq<Byte>, d: seq<Byte>, data: seq<Byte>, off: nat, done: nat) {
    && done <= |data| && off + |data| <= |d0| && KeptAround(d0, d, off, off + |data|)
    && d[off..off + done] == data[..done]
  }

  lemma WritingStarts(d0: seq<Byte>, data: seq<Byte>, off: nat)
    requires off + |data| <= |d0|
    ensures Writing(d0, d0, data, off, 0)
  {
  }

  lemma WritingKept(d0: seq<Byte>, d1: seq<Byte>, d2: seq<Byte>, data: seq<Byte>, off: nat, done: nat)
    requires Writing(d0, d1, data, off, done) && |d1| == |d2|
    requires d2[..off + done] == d1[..off + done] && d2[off + |data|..] == d1[off + |data|..]
    ensures KeptAround(d0, d2, off, off + |data|)
  {
    Front(d1, d2, off, done);
  }

  lemma WritingStep(d0: seq<Byte>, d1: seq<Byte>, d2: seq<Byte>, data: seq<Byte>, off: nat, done: nat, chunk: nat)
    requires Writing(d0, d1, data, off, done) && |d1| == |d2| && done + chunk <= |data|
    requires d2[..off + done] == d1[..off + done] && d2[off + |data|..] == d1[off + |data|..]
    requires d2[off + done..off + done + chunk] == data[done..done + chunk]
    ensures Writing(d0, d2, data, off, done + chunk)
  {
    WritingKept(d0, d1, d2, data, off, done);
    Front(d1, d2, off, done);
    assert data[0..0 + done] == data[..done] && data[0 + done..0 + done + chunk] == data[done..done + chunk];
    Splice(d1, d2, data, off, done, chunk, 0);
    assert data[0..0 + done + chunk] == data[..done + chunk];
  }

  lemma WritingEnds(d0: seq<Byte>, d: seq<Byte>, data: seq<Byte>, off: nat)
    requires Writing(d0, d, data, off, |data|)
    ensures KeptAround(d0, d, off, off + |data|) && d == Patched(d0, off, data)
  {
    assert data[..|data|] == data;
    PatchedIs(d0, d, off, data);
  }

  /** Only [lo, hi) may differ. */
  ghost predicate KeptAround(d0: seq<Byte>, d1: seq<Byte>, lo: nat, hi: nat) {
    |d0| == |d1| && lo <= |d0| && hi <= |d0| && d1[..lo] == d0[..lo] && d1[hi..] == d0[hi..]
  }

  lemma KeptSame(d: seq<Byte>, lo: nat, hi: nat)
    requires lo <= |d| && hi <= |d|
    ensures KeptAround(d, d, lo, hi)
  {
  }

  lemma KeptWider(d0: seq<Byte>, d1: seq<Byte>, a: nat, b: nat, lo: nat, hi: nat)
    requires KeptAround(d0, d1, a, b) && lo <= a && b <= hi <= |d0|
    ensures KeptAround(d0, d1, lo, hi)
  {
    assert d1[..lo] == d1[..a][..lo];
    assert d1[hi..] == d1[b..][hi - b..];
  }

  lemma KeptTwice(d0: seq<Byte>, d1: seq<Byte>, d2: seq<Byte>, lo: nat, hi: nat)
    requires KeptAround(d0, d1, lo, hi) && KeptAround(d1, d2, lo, hi)
    ensures KeptAround(d0, d2, lo, hi)
  {
  }

  lemma PatchedNothing(s: seq<Byte>, at: nat)
    requires at <= |s|
    ensures Patched(s, at, []) == s
  {
  }

  lemma PatchedIs(s: seq<Byte>, t: seq<Byte>, at: nat, bytes: seq<Byte>)
    requires |s| == |t| && at + |bytes| <= |s|
    requires t[..at] == s[..at] && t[at..at + |bytes|] == bytes && t[at + |bytes|..] == s[at + |bytes|..]
    ensures t == Patched(s, at, bytes)
  {
    assert t == t[..at] + t[at..at + |bytes|] + t[at + |bytes|..];
  }

  /** `bytes` in place of what was at `at`. */
  ghost function Patched(s: seq<Byte>, at: nat, bytes: seq<Byte>): (r: seq<Byte>)
    requires at + |bytes| <= |s|
    ensures |r| == |s|
  {
    s[..at] + bytes + s[at + |bytes|..]
  }

  lemma PatchedAt(s: seq<Byte>, at: nat, bytes: seq<Byte>, k: nat)
    requires at + |bytes| <= |s| && k < |s|
    ensures Patched(s, at, bytes)[k] == if at <= k < at + |bytes| then bytes[k - at] else s[k]
  {
  }

  lemma OneBlock(d: nat)
    requires d > 0
    ensures Aligned(d, d)
  {
    WholeUnits(d, d);
  }

  /** Changing a block in a copy and writing the copy back changes the disk in place. */
  lemma PatchedBlock(d0: seq<Byte>, d1: seq<Byte>, bs: nat, block: nat, skip: nat, bytes: seq<Byte>)
    requires |d0| == |d1| && block + bs <= |d0| && skip + |bytes| <= bs
    requires d1[..block] == d0[..block] && d1[block + bs..] == d0[block + bs..]
    requires d1[block..block + bs] == Patched(d0[block..block + bs], skip, bytes)
    ensures d1 == Patched(d0, block + skip, bytes)
  {
    var d := Patched(d0, block + skip, bytes);
    assert d[..block] == d0[..block] && d[block + bs..] == d0[block + bs..];
    var inner, wanted := d[block..block + bs], Patched(d0[block..block + bs], skip, bytes);
    forall k: nat | k < bs
      ensures inner[k] == wanted[k]
    {
      PatchedAt(d0, block + skip, bytes, block + k);
      PatchedAt(d0[block..block + bs], skip, bytes, k);
    }
    assert inner == wanted;
    assert d == d[..block] + d[block..block + bs] + d[block + bs..];
    assert d1 == d1[..block] + d1[block..block + bs] + d1[block + bs..];
  }

  lemma PatchedTwice(s: seq<Byte>, at: nat, x: seq<Byte>, y: seq<Byte>)
    requires at + |x| + |y| <= |s|
    ensures Patched(Patched(s, at, x), at + |x|, y) == Patched(s, at, x + y)
  {
  }

  lemma ReadName(p: Params, disk: seq<Byte>, c: Cache, q: Request)
    requires InRange(p, disk, q) && |c.block| == p.blocksize
    ensures AfterRead(p, disk, c, q).lba == NameAfterRead(p, c.lba, q)
  {
    hide Aligned, PlanOf, Clobber;
    PlanFacts(p.blocksize, q.abs, q.size, |disk|);
  }


  lemma MiddleDone(p: Params, disk: seq<Byte>, c0: Cache, c2: Cache, q: Request)
    requires InRange(p, disk, q) && |c0.block| == p.blocksize
    requires Clobber(p, |disk|, q) != NO_BLOCK ==> InDisk(disk, p.blocksize, Clobber(p, |disk|, q))
    requires c2 == AfterMiddle(disk, p.blocksize, AfterHead(p, disk, c0, q), Clobber(p, |disk|, q))
    ensures c2 == BeforeTail(p, disk, c0, q)
  {
  }

  /** The three pieces of a successful read, put together. */
  lemma AssembleRead(p: Params, disk: seq<Byte>, c0: Cache, q: Request,
                     b1: seq<Byte>, b2: seq<Byte>, b3: seq<Byte>, n: nat, m: nat)
    requires InRange(p, disk, q) && |c0.block| == p.blocksize && q.size <= |b1| == |b2| == |b3|
    requires var f := PlanOf(p.blocksize, q.abs, q.size);
             && n == f.head && m == f.middle && n + m <= q.size && f.skip + n <= p.blocksize && q.size - n - m <= p.blocksize
             && b1[..n] == AfterHead(p, disk, c0, q).block[f.skip..f.skip + n]
    requires b2[..n] == b1[..n] && b2[n..n + m] == disk[q.abs + n..q.abs + n + m]
    requires b3[..n + m] == b2[..n + m] && b3[n + m..q.size] == AfterRead(p, disk, c0, q).block[..q.size - n - m]
    ensures b3[..q.size] == ReadBytes(p, disk, c0, q)
  {
    hide Aligned, PlanOf, AfterHead, AfterRead;
    PlanFacts(p.blocksize, q.abs, q.size, |disk|);
    ThreeParts(b2, b3, n, m, q.size);
  }

  lemma ThreeParts(b2: seq<Byte>, b3: seq<Byte>, n: nat, m: nat, size: nat)
    requires n + m <= size <= |b2| == |b3| && b3[..n + m] == b2[..n + m]
    ensures b3[..size] == b2[..n] + b2[n..n + m] + b3[n + m..size]
  {
    assert b3[..size] == b3[..n + m] + b3[n + m..size];
    assert b2[..n + m] == b2[..n] + b2[n..n + m];
  }

  lemma Suffix(b0: seq<Byte>, b1: seq<Byte>, i: nat, j: nat)
    requires i <= j <= |b0| == |b1| && b1[i..] == b0[i..]
    ensures b1[j..] == b0[j..]
  {
    assert b1[j..] == b1[i..][j - i..];
  }

  /** A request of the layer above: read `size` bytes, or write `data`, at a partition
      offset, with a buffer at some address. */
  datatype Io =
    | Get(address: nat, offset: int, size: nat)
    | Put(address: nat, offset: int, data: seq<Byte>)
  {
    function Size(): nat {
      if Get? then size else |data|
    }
  }

  /** What the request returns, and the bytes read. */
  datatype Answer = Answer(r: int, bytes: seq<Byte>)

  /** Direct access to a flat byte array. */
  function FlatStep(flat: seq<Byte>, io: Io): (seq<Byte>, Answer) {
    if io.offset < 0 || io.Size() == 0 || io.offset >= |flat| then (flat, Answer(0, []))
    else if io.offset + io.Size() > |flat| then (flat, Answer(-1, []))
    else if io.Get? then (flat, Answer(io.size, flat[io.offset..io.offset + io.size]))
    else (flat[..io.offset] + io.data + flat[io.offset + |io.data|..], Answer(|io.data|, []))
  }

  /** After a write, a read inside the device gives what was written, and all else as before. */
  lemma PutThenGet(flat: seq<Byte>, put: Io, get: Io)
    requires put.Put? && get.Get? && put.data != [] && get.size > 0
    requires 0 <= put.offset && put.offset + |put.data| <= |flat| && 0 <= get.offset && get.offset + get.size <= |flat|
    ensures FlatStep(flat, put).1 == Answer(|put.data|, []) && |FlatStep(flat, put).0| == |flat|
    ensures var flat' := FlatStep(flat, put).0; var a := FlatStep(flat', get).1;
      && FlatStep(flat', get).0 == flat' && a.r == get.size == |a.bytes|
      && forall k :: 0 <= k < get.size ==>
           a.bytes[k] == if put.offset <= get.offset + k < put.offset + |put.data| then put.data[get.offset + k - put.offset]
                         else flat[get.offset + k]
  {
  }

  function FlatRun(flat: seq<Byte>, ios: seq<Io>): (seq<Byte>, seq<Answer>) {
    if ios == [] then (flat, [])
    else
      var (f1, as1) := FlatRun(flat, ios[..|ios| - 1]);
      var (f2, a2) := FlatStep(f1, ios[|ios| - 1]);
      (f2, as1 + [a2])
  }

  /** A read that passes the check of SafeReadRight, the bounce buffer being named `lba`. */
  ghost predicate SafeIo(dev: Device, lba: nat, io: Io)
    requires dev.Shape()
  {
    io.Get? && dev.Wanted(io.size, io.offset) ==>
      Safe(dev.p, dev.disk.Length, lba, Request(io.address, dev.firstbyte + io.offset, io.size))
  }

  /** A request that leaves a truthful cache even if it fails: every write, and reads that pass
      the check of FailureTruthful. */
  ghost predicate FailSafeIo(dev: Device, lba: nat, io: Io)
    requires dev.Shape()
  {
    io.Get? && dev.Wanted(io.size, io.offset) ==>
      FailSafe(dev.p, dev.disk.Length, lba, Request(io.address, dev.firstbyte + io.offset, io.size))
  }

  /** The name of the bounce buffer after a successful request, and after a run of them. */
  ghost function NameAfter(dev: Device, lba: nat, io: Io): nat
    requires dev.p.Ok()
  {
    if !dev.Wanted(io.Size(), io.offset) then lba
    else
      var q := Request(io.address, dev.firstbyte + io.offset, io.Size());
      if io.Get? then NameAfterRead(dev.p, lba, q) else NameAfterWrite(dev.p, lba, q)
  }

  ghost function NameRun(dev: Device, lba: nat, ios: seq<Io>): nat
    requires dev.p.Ok()
  {
    if ios == [] then lba else NameAfter(dev, NameRun(dev, lba, ios[..|ios| - 1]), ios[|ios| - 1])
  }

  /** Every request of the run is safe at the name in force when its turn comes. */
  ghost predicate SafeRun(dev: Device, lba: nat, ios: seq<Io>)
    requires dev.Shape()
  {
    forall k :: 0 <= k < |ios| ==> SafeIo(dev, NameRun(dev, lba, ios[..k]), ios[k])
  }

  ghost function Flat(dev: Device): seq<Byte>
    requires dev.Shape()
    reads dev.disk
  {
    dev.disk[dev.firstbyte..dev.firstbyte + dev.size]
  }

  method ServeGet(dev: Device, io: Io) returns (ok: bool, answer: Answer)
    requires dev.Coherent() && SafeIo(dev, dev.bounceLba, io) && io.Get?
    modifies dev`faults, dev`bounceLba, dev.bounce
    ensures dev.faults >= old(dev.faults) && (ok <==> dev.faults == old(dev.faults))
    ensures ok ==> dev.Coherent() && (Flat(dev), answer) == FlatStep(old(Flat(dev)), io)
    ensures ok ==> dev.bounceLba == NameAfter(dev, old(dev.bounceLba), io)
    ensures !ok ==> dev.Wanted(io.size, io.offset)
    ensures !ok && FailSafeIo(dev, old(dev.bounceLba), io) ==> dev.Coherent()
  {
    hide Aligned, Clobber, CacheOk, ReadBytes, AfterRead, Safe, FailSafe, NameAfterRead, MayLeave;
    var buf := new Byte[io.size](_ => 0);
    var r := dev.PartitionRead(buf, io.address, io.size, io.offset);
    if r > 0 {
      FlatSlice(dev.disk[..], dev.firstbyte, dev.size, io.offset, io.size);
    }
    answer := Answer(r, if r > 0 then buf[..io.size] else []);
    ok := r >= 0 || io.offset + io.size > dev.size;
  }

  method ServePut(dev: Device, io: Io) returns (ok: bool, answer: Answer)
    requires dev.Coherent() && io.Put?
    modifies dev`faults, dev`bounceLba, dev.bounce, dev.disk
    ensures dev.faults >= old(dev.faults) && (ok <==> dev.faults == old(dev.faults))
    ensures dev.Coherent()
    ensures ok ==> (Flat(dev), answer) == FlatStep(old(Flat(dev)), io)
    ensures ok ==> dev.bounceLba == NameAfter(dev, old(dev.bounceLba), io)
    ensures !ok ==> dev.Wanted(|io.data|, io.offset)
  {
    hide Aligned, CacheOk, Patched, KeptAround, FirstTouched, EndTouched, NameAfterWrite;
    var n := |io.data|;
    ghost var d0 := dev.disk[..];
    var buf := new Byte[n](k requires 0 <= k < n => io.data[k]);
    assert buf[..n] == io.data;
    var r := dev.PartitionWrite(buf, io.address, n, io.offset);
    answer := Answer(r, []);
    if r > 0 {
      FlatPatched(d0, dev.firstbyte, dev.size, io.offset, io.data);
    }
    ok := r >= 0 || io.offset + n > dev.size;
  }

  lemma FlatSlice(d: seq<Byte>, first: nat, size: nat, offset: nat, n: nat)
    requires first + size <= |d| && offset + n <= size
    ensures d[first..first + size][offset..offset + n] == d[first + offset..first + offset + n]
  {
    var f := d[first..first + size];
    assert forall k :: offset <= k < offset + n ==> f[k] == d[first + k];
    assert f[offset..offset + n] == d[first + offset..first + offset + n];
  }

  lemma FlatPatched(d: seq<Byte>, first: nat, size: nat, offset: nat, data: seq<Byte>)
    requires first + size <= |d| && offset + |data| <= size
    ensures var f := d[first..first + size];
            Patched(d, first + offset, data)[first..first + size] == f[..offset] + data + f[offset + |data|..]
  {
  }

  /** Any run of safe requests whose transfers succeed is direct access to a byte array. A run
      that stops at a failed transfer has answered rightly until then, and leaves a truthful
      cache if the request that failed is one that always does. */
  method ServeAll(dev: Device, ios: seq<Io>) returns (ok: bool, answers: seq<Answer>)
    requires dev.Coherent() && SafeRun(dev, dev.bounceLba, ios)
    modifies dev`faults, dev`bounceLba, dev.bounce, dev.disk
    ensures ok <==> dev.faults == old(dev.faults)
    ensures ok ==> dev.Coherent() && (Flat(dev), answers) == FlatRun(old(Flat(dev)), ios)
    ensures !ok ==> |answers| < |ios| && answers == FlatRun(old(Flat(dev)), ios[..|answers|]).1
    ensures !ok && FailSafeIo(dev, NameRun(dev, old(dev.bounceLba), ios[..|answers|]), ios[|answers|]) ==> dev.Coherent()
  {
    hide SafeIo, FailSafeIo, FlatStep, NameAfter;
    ghost var lba := dev.bounceLba;
    answers := [];
    var k := 0;
    while k < |ios|
      invariant dev.faults == old(dev.faults)
      invariant k <= |ios| && dev.Coherent() && |answers| == k
      invariant dev.bounceLba == NameRun(dev, lba, ios[..k])
      invariant (Flat(dev), answers) == FlatRun(old(Flat(dev)), ios[..k])
    {
      var good, answer;
      if ios[k].Get? {
        good, answer := ServeGet(dev, ios[k]);
      } else {
        good, answer := ServePut(dev, ios[k]);
      }
      if !good {
        return false, answers;
      }
      answers := answers + [answer];
      assert ios[..k + 1][..k] == ios[..k];
      k := k + 1;
    }
    assert ios[..k] == ios;
    return true, answers;
  }

  /** The distance of the transfers of aligned_io while none is bounced. */
  function Stride(p: Params, len: nat): nat
    requires p.Ok()
  {
    if p.maxtransfer == 0 then len else Max(Whole(p.maxtransfer, p.blocksize), p.blocksize)
  }

  /** The driver takes the address of every transfer. */
  ghost predicate Direct(p: Params, address: nat, len: nat)
    requires p.Ok()
  {
    forall i: nat :: Times(i, Stride(p, len)) < len ==> p.accepts(address + Times(i, Stride(p, len)))
  }

  lemma StrideFacts(p: Params, address: nat, len: nat)
    requires p.Ok() && 0 < len && Aligned(len, p.blocksize) && p.accepts(address)
    ensures Stride(p, len) > 0 && p.Chunk(address, len) == Min(len, Stride(p, len))
    ensures p.maxtransfer > 0 ==> Stride(p, len - p.Chunk(address, len)) == Stride(p, len)
  {
    hide Aligned, Whole;
    MultipleAtLeast(len, p.blocksize);
    WholeOrNone(p.maxtransfer, p.blocksize);
    p.ChunkFacts(address, len);
    if p.maxtransfer > 0 && len > Stride(p, len) && len <= p.maxtransfer {
      WholeBetween(len, p.maxtransfer, p.blocksize);
    }
  }

  lemma WholeOrNone(x: nat, d: nat)
    requires d > 0
    ensures Whole(x, d) <= x && (Whole(x, d) == 0 || Whole(x, d) >= d)
  {
    hide Whole;
    WholeUnits(x, d);
    if Whole(x, d) > 0 {
      MultipleAtLeast(Whole(x, d), d);
    }
  }

  lemma WholeBetween(x: nat, y: nat, d: nat)
    requires d > 0 && Aligned(x, d) && x <= y
    ensures x <= Whole(y, d)
  {
    DivModUnique(x, d, x / d);
    DivModUnique(y, d, y / d);
    if y / d < x / d {
      MulMonotone(y / d + 1, x / d, d);
    } else {
      MulMonotone(x / d, y / d, d);
    }
  }

  /** Nothing is bounced exactly when the driver takes the address of every transfer. */
  lemma {:induction false} DirectExactly(p: Params, address: nat, len: nat, off: nat)
    requires p.Ok() && Aligned(len, p.blocksize) && off + len < NO_BLOCK
    ensures p.LastBounced(address, len, off) == NO_BLOCK <==> Direct(p, address, len)
    decreases len
  {
    hide Aligned, Whole, Stride;
    if len == 0 {
      NothingBounced(p, address, off);
      return;
    }
    p.LastBouncedStep(address, len, off);
    var d := Stride(p, len);
    assert Times(0, d) == 0;
    if p.accepts(address) {
      StrideFacts(p, address, len);
      p.ChunkFacts(address, len);
      var n := p.Chunk(address, len);
      DirectExactly(p, address + n, len - n, off + n);
      DirectStep(p, address, len);
    }
  }

  lemma DirectStep(p: Params, address: nat, len: nat)
    requires p.Ok() && 0 < len && p.accepts(address) && Stride(p, len) > 0
    requires p.Chunk(address, len) == Min(len, Stride(p, len))
    requires p.maxtransfer > 0 ==> Stride(p, len - p.Chunk(address, len)) == Stride(p, len)
    ensures var n := p.Chunk(address, len);
      Direct(p, address, len) <==> Direct(p, address + n, len - n)
  {
    hide Params.Chunk, Whole, Times;
    var n, d := p.Chunk(address, len), Stride(p, len);
    if n == len {
      TimesAtLeast(d);
    } else if Direct(p, address, len) {
      forall i: nat | Times(i, d) < len - n
        ensures p.accepts(address + n + Times(i, d))
      {
        TimesStep(i, d);
        assert Times(i + 1, d) < len;
      }
      assert Direct(p, address + n, len - n);
    } else if Direct(p, address + n, len - n) {
      forall i: nat | Times(i, d) < len
        ensures p.accepts(address + Times(i, d))
      {
        TimesAtLeast(d);
        if i > 0 {
          TimesStep(i - 1, d);
        }
      }
    }
  }

  lemma TimesAtLeast(d: nat)
    ensures Times(0, d) == 0 && forall i: nat :: i > 0 ==> Times(i, d) >= d
  {
    forall i: nat | i > 0
      ensures Times(i, d) >= d
    {
      MulMonotone(1, i, d);
    }
  }

  /** A DosEnvec mask: a read whose transfers all have addresses that the mask lets through is
      safe, and stays so when it fails. */
  lemma MaskIsSafe(p: Params, limit: nat, lba: nat, q: Request, mask: bv32)
    requires p.Ok() && q.size > 0 && q.abs + q.size <= limit < NO_BLOCK && Aligned(limit, p.blocksize)
    requires p.accepts == ByMask(mask)
    ensures var f := PlanOf(p.blocksize, q.abs, q.size);
      && (Clobber(p, limit, q) == NO_BLOCK <==> Direct(p, q.address + f.head, f.middle))
      && (Direct(p, q.address + f.head, f.middle) ==> Safe(p, limit, lba, q) && FailSafe(p, limit, lba, q))
  {
    hide Direct, PlanOf, Aligned;
    PlanFacts(p.blocksize, q.abs, q.size, limit);
    var f := PlanOf(p.blocksize, q.abs, q.size);
    DirectExactly(p, q.address + f.head, f.middle, q.abs + f.head);
  }

  /** A driver that takes every address: nothing is bounced. */
  lemma FullMaskIsSafe(p: Params, limit: nat, lba: nat, q: Request)
    requires p.Ok() && q.size > 0 && q.abs + q.size <= limit && Aligned(limit, p.blocksize)
    requires p.accepts == ByMask(0xffff_ffff)
    ensures Safe(p, limit, lba, q) && FailSafe(p, limit, lba, q)
  {
    PlanFacts(p.blocksize, q.abs, q.size, limit);
    var f := PlanOf(p.blocksize, q.abs, q.size);
    AcceptedIsDirect(p, q.address + f.head, f.middle, q.abs + f.head);
  }

  /** No transfer is bounced while the driver takes every address of the buffer. */
  lemma {:induction false} AcceptedIsDirect(p: Params, address: nat, len: nat, off: nat)
    requires p.Ok() && Aligned(len, p.blocksize)
    requires forall a: nat :: address <= a < address + len ==> p.accepts(a)
    ensures p.LastBounced(address, len, off) == NO_BLOCK
    decreases len
  {
    hide Aligned, Whole;
    if len > 0 {
      p.LastBouncedStep(address, len, off);
      p.ChunkFacts(address, len);
      var n := p.Chunk(address, len);
      AcceptedIsDirect(p, address + n, len - n, off + n);
    } else {
      NothingBounced(p, address, off);
    }
  }
}
