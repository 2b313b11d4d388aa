/** The boot region: what vbr_write puts on the device, what verify_vbr_checksum accepts, and
    what mounting and unmounting change in the boot sector. */
module Vbr {
  import opened Arith
  import opened Common
  import opened Checksums

  const SUPER_BLOCK_SIZE := 512
  const VOLUME_SERIAL := 0x64
  const VOLUME_STATE := 0x6a
  const ALLOCATED_PERCENT := 0x70

  /** Boot regions are summed in 32 bits. */
  const HALF := 0x8000_0000

  predicate Skipped(i: nat) {
    i == VOLUME_STATE || i == VOLUME_STATE + 1 || i == ALLOCATED_PERCENT
  }

  /** The bytes among the first i that a start checksum covers. */
  function CoveredTo(s: seq<Byte>, i: nat): seq<Byte>
    requires ALLOCATED_PERCENT < |s| && i <= |s|
  {
    s[..Min(i, VOLUME_STATE)]
    + s[VOLUME_STATE + 2..Max(VOLUME_STATE + 2, Min(i, ALLOCATED_PERCENT))]
    + s[ALLOCATED_PERCENT + 1..Max(i, ALLOCATED_PERCENT + 1)]
  }

  function Covered(s: seq<Byte>): seq<Byte>
    requires ALLOCATED_PERCENT < |s|
  {
    s[..VOLUME_STATE] + s[VOLUME_STATE + 2..ALLOCATED_PERCENT] + s[ALLOCATED_PERCENT + 1..]
  }

  lemma CoveredStep(s: seq<Byte>, i: nat)
    requires ALLOCATED_PERCENT < |s| && i < |s|
    ensures CoveredTo(s, i + 1) == if Skipped(i) then CoveredTo(s, i) else CoveredTo(s, i) + [s[i]]
  {
  }

  lemma CoveredAll(s: seq<Byte>)
    requires ALLOCATED_PERCENT < |s|
    ensures CoveredTo(s, |s|) == Covered(s) && CoveredTo(s, 0) == []
  {
  }

  /** Only the skipped bytes may differ without changing a start checksum. */
  lemma CoveredSame(a: seq<Byte>, b: seq<Byte>)
    requires |a| == |b| > ALLOCATED_PERCENT
    requires forall j :: 0 <= j < |a| && !Skipped(j) ==> a[j] == b[j]
    ensures Covered(a) == Covered(b)
  {
    assert a[..VOLUME_STATE] == b[..VOLUME_STATE];
    assert a[VOLUME_STATE + 2..ALLOCATED_PERCENT] == b[VOLUME_STATE + 2..ALLOCATED_PERCENT];
    assert a[ALLOCATED_PERCENT + 1..] == b[ALLOCATED_PERCENT + 1..];
  }

  /** The start checksum covers a longer sector like a shorter one followed by the rest. */
  lemma CoveredConcat(a: seq<Byte>, b: seq<Byte>)
    requires |a| > ALLOCATED_PERCENT
    ensures Covered(a + b) == Covered(a) + b
  {
    assert (a + b)[..VOLUME_STATE] == a[..VOLUME_STATE];
    assert (a + b)[VOLUME_STATE + 2..ALLOCATED_PERCENT] == a[VOLUME_STATE + 2..ALLOCATED_PERCENT];
    assert (a + b)[ALLOCATED_PERCENT + 1..] == a[ALLOCATED_PERCENT + 1..] + b;
  }

  /** exfat_vbr_start_checksum */
  method StartChecksum(sector: seq<Byte>) returns (sum: nat)
    requires |sector| > ALLOCATED_PERCENT
    ensures sum == AddBytes(HALF, 0, Covered(sector)) && sum < 0x1_0000_0000
  {
    hide AddByte, CoveredTo, Covered;
    CoveredAll(sector);
    sum := 0;
    var i := 0;
    while i < |sector|
      invariant i <= |sector| && sum < 0x1_0000_0000
      invariant sum == AddBytes(HALF, 0, CoveredTo(sector, i))
    {
      CoveredStep(sector, i);
      if !Skipped(i) {
        AddOne(HALF, 0, CoveredTo(sector, i), sector[i]);
        sum := AddByte(HALF, sum, sector[i]);
      }
      i := i + 1;
    }
  }

  /** exfat_vbr_add_checksum */
  method AddChecksum(sector: seq<Byte>, start: nat) returns (sum: nat)
    requires start < 0x1_0000_0000
    ensures sum == AddBytes(HALF, start, sector) && sum < 0x1_0000_0000
  {
    sum := start;
    var i := 0;
    while i < |sector|
      invariant i <= |sector| && sum < 0x1_0000_0000
      invariant AddBytes(HALF, start, sector) == AddBytes(HALF, sum, sector[i..])
    {
      assert sector[i..][1..] == sector[i + 1..];
      sum := AddByte(HALF, sum, sector[i]);
      i := i + 1;
    }
  }

  lemma {:induction false} ZerosAddNothing(z: seq<Byte>)
    requires forall i :: 0 <= i < |z| ==> z[i] == 0
    ensures AddBytes(HALF, 0, z) == 0
  {
    hide AddByte;
    if z != [] {
      AddZero();
      ZerosAddNothing(z[1..]);
    }
  }

  lemma AddZero()
    ensures AddByte(HALF, 0, 0) == 0
  {
  }

  /** Byte i of a sequence of little-endian copies of a 32-bit value. */
  function WordByte(v: nat, i: nat): Byte
    requires v < 0x1_0000_0000
  {
    if i % 4 == 0 then v % 0x100
    else if i % 4 == 1 then v / 0x100 % 0x100
    else if i % 4 == 2 then v / 0x100 / 0x100 % 0x100
    else v / 0x100 / 0x100 / 0x100
  }

  /** A sector filled with one 32-bit value, low byte first. */
  function Filled(v: nat, size: nat): (s: seq<Byte>)
    requires v < 0x1_0000_0000
    ensures |s| == size && forall i :: 0 <= i < size ==> s[i] == WordByte(v, i)
  {
    seq(size, i requires 0 <= i < size => WordByte(v, i))
  }

  function Word(s: seq<Byte>, at: nat): nat
    requires at + 4 <= |s|
  {
    (s[at] as nat) + 0x100 * ((s[at + 1] as nat) + 0x100 * ((s[at + 2] as nat) + 0x100 * (s[at + 3] as nat)))
  }

  lemma WordFilled(v: nat, k: nat)
    requires v < 0x1_0000_0000
    ensures (WordByte(v, 4 * k) as nat) + 0x100 * ((WordByte(v, 4 * k + 1) as nat)
      + 0x100 * ((WordByte(v, 4 * k + 2) as nat) + 0x100 * (WordByte(v, 4 * k + 3) as nat))) == v
  {
    var a := v / 0x100;
    var b := a / 0x100;
    assert v == 0x100 * a + v % 0x100 && a == 0x100 * b + a % 0x100 && b == 0x100 * (b / 0x100) + b % 0x100;
  }

  /** A sector with nothing but the extended boot signature in its last four bytes. */
  function Signed(size: nat): (s: seq<Byte>)
    requires size >= 4
    ensures |s| == size
  {
    Zeros(size - 4) + [0, 0, 0x55, 0xaa]
  }

  function Repeated(s: seq<Byte>, n: nat): (r: seq<Byte>)
    ensures |r| == n * |s|
  {
    if n == 0 then [] else Repeated(s, n - 1) + s
  }

  /** Everything vbr_write writes before the checksum sector. */
  function Body(sb: seq<Byte>, sectorSize: nat): (r: seq<Byte>)
    requires sectorSize >= 4
    ensures |r| == |sb| + 10 * sectorSize
  {
    sb + Repeated(Signed(sectorSize), 8) + Repeated(Zeros(sectorSize), 2)
  }

  /** n copies of one sector go to the device and into the checksum. */
  method WriteSectors(before: seq<Byte>, sector: seq<Byte>, n: nat, start: nat) returns (stream: seq<Byte>, sum: nat)
    requires start < 0x1_0000_0000
    ensures stream == before + Repeated(sector, n)
    ensures sum == AddBytes(HALF, start, Repeated(sector, n)) && sum < 0x1_0000_0000
  {
    hide AddByte;
    stream, sum := before, start;
    var i := 0;
    while i < n
      invariant i <= n && sum < 0x1_0000_0000
      invariant stream == before + Repeated(sector, i) && sum == AddBytes(HALF, start, Repeated(sector, i))
    {
      AddBytesConcat(HALF, start, Repeated(sector, i), sector);
      assert before + Repeated(sector, i) + sector == before + (Repeated(sector, i) + sector);
      stream := stream + sector;
      sum := AddChecksum(sector, sum);
      i := i + 1;
    }
  }

  /** vbr_write: the byte stream, and the checksum it computes on the way. The super block is
      written as 512 bytes whatever the sector size is. */
  method Write(sb: seq<Byte>, sectorSize: nat) returns (stream: seq<Byte>)
    requires |sb| == SUPER_BLOCK_SIZE && sectorSize >= 512
    ensures stream == Body(sb, sectorSize) + Filled(AddBytes(HALF, 0, Covered(Body(sb, sectorSize))), sectorSize)
  {
    hide AddBytes, Covered, Repeated, Signed, Filled;
    var sum := StartChecksum(sb);
    stream := sb;
    stream, sum := WriteSectors(stream, Signed(sectorSize), 8, sum);
    stream, sum := WriteSectors(stream, Zeros(sectorSize), 2, sum);
    ghost var signed, zeros := Repeated(Signed(sectorSize), 8), Repeated(Zeros(sectorSize), 2);
    BodyChecksum(sb, signed, zeros);
    stream := stream + Filled(sum, sectorSize);
  }

  lemma BodyChecksum(sb: seq<Byte>, a: seq<Byte>, b: seq<Byte>)
    requires |sb| == SUPER_BLOCK_SIZE
    ensures AddBytes(HALF, 0, Covered(sb + a + b)) == AddBytes(HALF, AddBytes(HALF, AddBytes(HALF, 0, Covered(sb)), a), b)
  {
    hide AddBytes, Covered;
    CoveredConcat(sb, a);
    CoveredConcat(sb + a, b);
    AddBytesConcat(HALF, 0, Covered(sb), a);
    AddBytesConcat(HALF, 0, Covered(sb) + a, b);
  }

  /** The boot region on the device: erased to zeros first, then written over. */
  function Region(stream: seq<Byte>, sectorSize: nat): (r: seq<Byte>)
    requires |stream| <= 12 * sectorSize
    ensures |r| == 12 * sectorSize
  {
    stream + Zeros(12 * sectorSize - |stream|)
  }

  /** What a mounter demands: all words of the twelfth sector are the checksum of the others. */
  ghost predicate Accepted(region: seq<Byte>, sectorSize: nat)
    requires sectorSize >= 512 && |region| == 12 * sectorSize
  {
    forall i :: 0 <= i < sectorSize / 4 ==>
      Word(region, 11 * sectorSize + 4 * i) == AddBytes(HALF, 0, Covered(region[..11 * sectorSize]))
  }

  /** The sum over the first eleven sectors, one sector after the other. */
  method SumSectors(region: seq<Byte>, sectorSize: nat) returns (sum: nat)
    requires sectorSize >= 512 && |region| == 12 * sectorSize
    ensures sum == AddBytes(HALF, 0, Covered(region[..11 * sectorSize])) && sum < 0x1_0000_0000
  {
    hide Times, AddBytes, Covered;
    sum := StartChecksum(region[..sectorSize]);
    var i := 1;
    var at := sectorSize;
    TimesIs(1, sectorSize);
    TimesAtMost(1, 11, sectorSize);
    while i < 11
      invariant 1 <= i <= 11 && sum < 0x1_0000_0000 && at == Times(i, sectorSize) <= 11 * sectorSize
      invariant sectorSize <= at && sum == AddBytes(HALF, 0, Covered(region[..at]))
    {
      TimesStep(i, sectorSize);
      TimesAtMost(i + 1, 11, sectorSize);
      SumStep(region, at, sectorSize);
      sum := AddChecksum(region[at..at + sectorSize], sum);
      i := i + 1;
      at := at + sectorSize;
    }
    TimesIs(11, sectorSize);
  }

  lemma SumStep(region: seq<Byte>, at: nat, n: nat)
    requires at >= 512 && at + n <= |region|
    ensures AddBytes(HALF, AddBytes(HALF, 0, Covered(region[..at])), region[at..at + n]) == AddBytes(HALF, 0, Covered(region[..at + n]))
  {
    hide AddBytes, Covered;
    CoveredConcat(region[..at], region[at..at + n]);
    AddBytesConcat(HALF, 0, Covered(region[..at]), region[at..at + n]);
    assert region[..at] + region[at..at + n] == region[..at + n];
  }

  lemma TimesIs(k: nat, d: nat)
    ensures Times(k, d) == k * d && Times(0, d) == 0
  {
  }

  lemma TimesAtMost(k: nat, n: nat, d: nat)
    requires k <= n
    ensures Times(k, d) <= n * d
  {
    MulMonotone(k, n, d);
  }

  /** verify_vbr_checksum, its repair answered with no. */
  method Verify(region: seq<Byte>, sectorSize: nat) returns (ok: bool)
    requires sectorSize >= 512 && |region| == 12 * sectorSize
    ensures ok <==> Accepted(region, sectorSize)
  {
    hide AddBytes, Covered, Word;
    var sum := SumSectors(region, sectorSize);
    var i := 0;
    while i < sectorSize / 4
      invariant i <= sectorSize / 4
      invariant forall j :: 0 <= j < i ==> Word(region, 11 * sectorSize + 4 * j) == sum
    {
      if Word(region, 11 * sectorSize + 4 * i) != sum {
        return false;
      }
      i := i + 1;
    }
    return true;
  }

  /** The region a format leaves mounts exactly when the sector size is 512 - or the checksum
      happens to be zero: with larger sectors everything after the first 512 bytes is misplaced. */
  lemma WrittenAccepted(sb: seq<Byte>, sectorSize: nat, checksum: nat)
    requires |sb| == SUPER_BLOCK_SIZE && sectorSize >= 512 && sectorSize % 512 == 0
    requires checksum == AddBytes(HALF, 0, Covered(Body(sb, sectorSize)))
    ensures var region := Region(Body(sb, sectorSize) + Filled(checksum, sectorSize), sectorSize);
      Accepted(region, sectorSize) <==> sectorSize == 512 || checksum == 0
  {
    hide AddBytes, Covered, Word, Body, Filled;
    var body, ss := Body(sb, sectorSize), sectorSize;
    var region := Region(body + Filled(checksum, ss), ss);
    var tail := region[|body|..11 * ss];
    assert region[..11 * ss] == body + tail;
    CoveredConcat(body, tail);
    AddBytesConcat(HALF, 0, Covered(body), tail);
    forall i | 0 <= i < ss / 4
      ensures Word(region, 11 * ss + 4 * i) == if 4 * i < 512 then checksum else 0
    {
      WordOfRegion(body, ss, checksum, ss / 512, i);
    }
    NothingAdded(checksum);
    assert Word(region, 11 * ss + 4 * 0) == checksum;
    assert ss > 512 ==> Word(region, 11 * ss + 4 * (ss / 4 - 1)) == 0;
    if ss == 512 {
      assert tail == [];
    } else if checksum == 0 {
      ZeroFilled(ss);
      ZerosAddNothing(tail);
    }
  }

  /** The boot region that a format with this super block leaves. */
  function Formatted(sb: seq<Byte>, sectorSize: nat): (r: seq<Byte>)
    requires |sb| == SUPER_BLOCK_SIZE && sectorSize >= 512
    ensures |r| == 12 * sectorSize
  {
    var body := Body(sb, sectorSize);
    Region(body + Filled(AddBytes(HALF, 0, Covered(body)), sectorSize), sectorSize)
  }

  /** Larger sectors do break a format: whatever else the super block says, at most one value of
      the first byte of the volume's serial number gives a region that verifies. */
  lemma LargerSectorsFail(sb: seq<Byte>, sectorSize: nat, v: Byte, w: Byte)
    requires |sb| == SUPER_BLOCK_SIZE && sectorSize > 512 && sectorSize % 512 == 0 && v != w
    ensures !(Accepted(Formatted(sb[VOLUME_SERIAL := v], sectorSize), sectorSize)
              && Accepted(Formatted(sb[VOLUME_SERIAL := w], sectorSize), sectorSize))
  {
    hide AddBytes, Covered, Repeated, Signed, Filled, Accepted, Region;
    var x, y := sb[VOLUME_SERIAL := v], sb[VOLUME_SERIAL := w];
    var a, b := Repeated(Signed(sectorSize), 8), Repeated(Zeros(sectorSize), 2);
    SectorByteCounts(x, VOLUME_SERIAL, w);
    assert x[VOLUME_SERIAL := w] == y;
    BodyChecksum(x, a, b);
    BodyChecksum(y, a, b);
    var p, q := AddBytes(HALF, 0, Covered(x)), AddBytes(HALF, 0, Covered(y));
    StaysDifferent(HALF, p, q, a);
    StaysDifferent(HALF, AddBytes(HALF, p, a), AddBytes(HALF, q, a), b);
    WrittenAccepted(x, sectorSize, AddBytes(HALF, 0, Covered(Body(x, sectorSize))));
    WrittenAccepted(y, sectorSize, AddBytes(HALF, 0, Covered(Body(y, sectorSize))));
  }

  /** The checksum is a word of 32 bits, in which a zero byte is a rotation. */
  lemma SumsThirtyTwoBits(sum: nat, k: nat)
    requires sum < 0x1_0000_0000 && k < 32
    ensures HALF == Pow2(31)
    ensures BitOf(AddByte(HALF, sum, 0), k) <==> BitOf(sum, if k < 31 then k + 1 else 0)
  {
    Pow2ThirtyOne();
    ZeroRotates(32, sum, k);
  }

  lemma Pow2ThirtyOne()
    ensures Pow2(31) == 0x8000_0000 && Pow2(32) == 0x1_0000_0000
  {
    hide Pow2;
    Pow2Sixteen();
    Pow2Sum(16, 15);
    Pow2Sum(16, 16);
  }

  /** A single byte changed in the first sector changes the sum, but for the state word and the
      percentage. */
  lemma SectorByteCounts(s: seq<Byte>, i: nat, v: Byte)
    requires ALLOCATED_PERCENT < |s| && i < |s| && !Skipped(i) && v != s[i]
    ensures AddBytes(HALF, 0, Covered(s[i := v])) != AddBytes(HALF, 0, Covered(s))
  {
    hide AddBytes;
    var x := s[i := v];
    var a, b, c := VOLUME_STATE, VOLUME_STATE + 2, ALLOCATED_PERCENT;
    var front, back;
    if i < a {
      front, back := s[..i], s[i + 1..a] + s[b..c] + s[c + 1..];
    } else if i < c {
      front, back := s[..a] + s[b..i], s[i + 1..c] + s[c + 1..];
    } else {
      front, back := s[..a] + s[b..c] + s[c + 1..i], s[i + 1..];
    }
    assert Covered(s) == front + [s[i]] + back;
    assert Covered(x) == front + [v] + back;
    ByteCounts(HALF, 0, front, v, s[i], back);
  }

  lemma NothingAdded(sum: nat)
    requires sum < 0x1_0000_0000
    ensures AddBytes(HALF, sum, []) == sum
  {
  }

  lemma ZeroFilled(size: nat)
    ensures forall i :: 0 <= i < size ==> Filled(0, size)[i] == 0
  {
  }

  /** The words of the twelfth sector: the checksum where the stream reaches, zeros after it. */
  lemma WordOfRegion(body: seq<Byte>, ss: nat, checksum: nat, m: nat, i: nat)
    requires ss == 512 * m && m >= 1 && |body| == 512 + 10 * ss && checksum < 0x1_0000_0000 && i < ss / 4
    ensures Word(Region(body + Filled(checksum, ss), ss), 11 * ss + 4 * i) == if 4 * i < 512 then checksum else 0
  {
    hide WordByte, Filled;
    var region := Region(body + Filled(checksum, ss), ss);
    var at := 11 * ss + 4 * i;
    if 4 * i < 512 {
      var k := 128 * m + i - 128;
      assert at - |body| == 4 * k && 4 * k + 4 <= ss;
      assert region[at] == Filled(checksum, ss)[4 * k];
      assert region[at + 1] == Filled(checksum, ss)[4 * k + 1];
      assert region[at + 2] == Filled(checksum, ss)[4 * k + 2];
      assert region[at + 3] == Filled(checksum, ss)[4 * k + 3];
      WordFilled(checksum, k);
    } else {
      assert region[at] == region[at + 1] == region[at + 2] == region[at + 3] == 0;
    }
  }

  /** exfat_soil_super_block and finalize_super_block set the state word and the percentage. */
  function Touched(region: seq<Byte>, low: Byte, high: Byte, percent: Byte): (r: seq<Byte>)
    requires |region| >= SUPER_BLOCK_SIZE
    ensures |r| == |region|
  {
    region[VOLUME_STATE := low][VOLUME_STATE + 1 := high][ALLOCATED_PERCENT := percent]
  }

  /** Mounting and unmounting keep the region acceptable, any number of times. */
  lemma TouchedAccepted(region: seq<Byte>, sectorSize: nat, low: Byte, high: Byte, percent: Byte)
    requires sectorSize >= 512 && |region| == 12 * sectorSize
    ensures Accepted(Touched(region, low, high, percent), sectorSize) <==> Accepted(region, sectorSize)
  {
    var r := Touched(region, low, high, percent);
    CoveredSame(r[..11 * sectorSize], region[..11 * sectorSize]);
    forall i | 0 <= i < sectorSize / 4
      ensures Word(r, 11 * sectorSize + 4 * i) == Word(region, 11 * sectorSize + 4 * i)
    {
    }
  }
}
