/** The profile histogram (src/extras.c): from a sampled address to a region and a bucket. */
module Histogram {
  import opened PapiCodes
  import opened OverflowTables
  import opened Words

  /** An address is compared and subtracted as a 64-bit number. */
  const ADDRESSES: nat := 0x1_0000_0000_0000_0000
  /** 2^17: the scale that gives one bucket per address. */
  const FULL_SCALE: nat := 0x2_0000

  /** The size of a bucket in bytes, 16-bit buckets being tried first and 64-bit ones the rest. */
  function BucketBytes(flags: set<ProfFlag>): (b: nat)
    ensures b == 2 || b == 4 || b == 8
    ensures b == 2 <==> Bucket16 in flags
    ensures Bucket32 in flags ==> b != 8
  {
    if Bucket16 in flags then 2 else if Bucket32 in flags then 4 else 8
  }

  /** The number of values a bucket can take. */
  function Capacity(bytes: nat): (c: nat)
    ensures c > 1
  {
    if bytes == 2 then 0x1_0000 else if bytes == 4 then 0x1_0000_0000 else 0x1_0000_0000_0000_0000
  }

  /** That is two to the number of its bits: one byte multiplies it by 256. */
  lemma {:induction false} CapacityIsWidth(bytes: nat)
    requires bytes in {2, 4, 8}
    ensures Capacity(bytes) == Pow2(8 * bytes)
  {
    Pow2Plus4(0);
    Pow2Plus4(4);
    Pow2Plus4(8);
    Pow2Plus4(12);
    Pow2At32();
    Pow2At64();
  }

  /** The bucket for an address at or above the start of the region. */
  function Bucket(r: Region, address: nat): nat
    requires address >= r.off
  {
    if r.off == 0 && r.scale == 2 then 0
    else (address - r.off) * r.scale % ADDRESSES / FULL_SCALE
  }

  /** The sample changes a bucket: it is not below the region, and the index is inside the buffer. */
  predicate Counted(r: Region, bytes: nat, address: nat) {
    address >= r.off && Bucket(r, address) * bytes < r.size
  }

  /** A buffer that is exactly the region's size, in whole buckets. */
  predicate Holds(buf: seq<nat>, r: Region, bytes: nat) {
    bytes > 0 && |buf| * bytes == r.size && forall k :: 0 <= k < |buf| ==> buf[k] < Capacity(bytes)
  }

  lemma {:induction false} IndexInBuffer(index: nat, n: nat, bytes: nat)
    requires bytes > 0
    ensures index * bytes < n * bytes <==> index < n
  {}

  /** The bucket the sample changes, or -1. */
  function HitBy(r: Region, bytes: nat, address: nat): (k: int)
    ensures k == -1 <==> !Counted(r, bytes, address)
    ensures k >= -1
  {
    if Counted(r, bytes, address) then Bucket(r, address) else -1
  }

  /** One more in a bucket of that many values. */
  function Next(v: nat, capacity: nat): nat {
    if v + 1 == capacity then 0 else v + 1
  }

  function Bumped(buf: seq<nat>, k: int, capacity: nat): (after: seq<nat>)
    ensures |after| == |buf|
  {
    if 0 <= k < |buf| then buf[k := Next(buf[k], capacity)] else buf
  }

  /** The index computation, which is made whatever the address. */
  method BucketIndex(address: nat, r: Region) returns (indx: nat)
    ensures address >= r.off ==> indx == Bucket(r, address)
  {
    if r.off == 0 && r.scale == 2 {
      indx := 0;
    } else {
      indx := (address - r.off) * r.scale % ADDRESSES / FULL_SCALE;
    }
  }

  /** The three cases of bucket width. */
  method Increment(buf: array<nat>, indx: nat, size: nat, flags: set<ProfFlag>)
    requires buf.Length * BucketBytes(flags) == size
    requires forall k :: 0 <= k < buf.Length ==> buf[k] < Capacity(BucketBytes(flags))
    modifies buf
    ensures buf[..] == Bumped(old(buf[..]), if indx * BucketBytes(flags) < size then indx else -1,
                              Capacity(BucketBytes(flags)))
  {
    IndexInBuffer(indx, buf.Length, BucketBytes(flags));
    if Bucket16 in flags {
      if indx * 2 < size {
        buf[indx] := (buf[indx] + 1) % 0x1_0000;
      }
    } else if Bucket32 in flags {
      if indx * 4 < size {
        buf[indx] := (buf[indx] + 1) % 0x1_0000_0000;
      }
    } else {
      if indx * 8 < size {
        buf[indx] := (buf[indx] + 1) % 0x1_0000_0000_0000_0000;
      }
    }
  }

  /** src/extras.c, posix_profil, with the unit increment. */
  method PosixProfil(address: nat, r: Region, buf: array<nat>, flags: set<ProfFlag>)
    requires Holds(buf[..], r, BucketBytes(flags))
    modifies buf
    ensures buf[..] == Bumped(old(buf[..]), HitBy(r, BucketBytes(flags), address), Capacity(BucketBytes(flags)))
  {
    var indx := BucketIndex(address, r);
    if address >= r.off {
      Increment(buf, indx, r.size, flags);
    }
  }

  /** The bucket the sample changes lies wholly in the region's buffer. */
  predicate WriteFits(r: Region, bytes: nat, address: nat) {
    Counted(r, bytes, address) ==> (Bucket(r, address) + 1) * bytes <= r.size
  }

  /** Only the bucket at size / bytes can begin inside the buffer and end outside. */
  lemma {:induction false} PartBucket(k: nat, size: nat, bytes: nat)
    requires bytes > 0
    ensures (k * bytes < size ==> (k + 1) * bytes <= size) <==> size % bytes == 0 || k != size / bytes
  {
    var q := size / bytes;
    assert size == q * bytes + size % bytes;
    assert (k + 1) * bytes == k * bytes + bytes && (q + 1) * bytes == q * bytes + bytes;
    TimesLess(k, q, bytes);
    TimesLess(q, k, bytes);
    TimesLess(k + 1, q, bytes);
    TimesLess(q + 1, k, bytes);
  }

  /** The test before the write looks at the first byte of the bucket only: a bucket of which the
      buffer has just a part is written too. */
  lemma {:induction false} WriteFitsExactly(r: Region, bytes: nat, address: nat)
    requires bytes in {2, 4, 8} && address >= r.off
    ensures WriteFits(r, bytes, address) <==> r.size % bytes == 0 || Bucket(r, address) != r.size / bytes
  {
    PartBucket(Bucket(r, address), r.size, bytes);
  }

  /** No write below the limit goes past the end of the buffer exactly when it holds whole buckets
      or none of those addresses reaches the part bucket. */
  lemma {:induction false} WritesFitExactly(r: Region, bytes: nat, limit: nat)
    requires bytes in {2, 4, 8}
    ensures (forall a: nat :: a < limit ==> WriteFits(r, bytes, a)) <==>
            (r.size % bytes == 0 || forall a: nat :: r.off <= a < limit ==> Bucket(r, a) != r.size / bytes)
  {
    forall a: nat | r.off <= a < limit
      ensures WriteFits(r, bytes, a) <==> r.size % bytes == 0 || Bucket(r, a) != r.size / bytes
    {
      WriteFitsExactly(r, bytes, a);
    }
  }

  // ---------------------------------------------------------------- one region

  /** How many buckets the documented size formula asks for, rounded up. */
  function BucketsFor(length: nat, scale: nat): nat {
    (length * scale + FULL_SCALE - 1) / FULL_SCALE
  }

  /** A region of so many addresses whose buffer has the documented size in whole buckets, which
      pr_size, a 32-bit number, can hold. */
  predicate Documented(r: Region, length: nat, bytes: nat) {
    && ScaleOk(r.scale) && bytes in {2, 4, 8}
    && r.size == BucketsFor(length, r.scale) * bytes < 0x1_0000_0000
  }

  lemma {:induction false} TimesLess(a: nat, b: nat, scale: nat)
    requires scale > 0
    ensures a < b <==> a * scale < b * scale
    ensures a <= b <==> a * scale <= b * scale
  {}

  /** The buffer of a documented region is too small for the product to overflow inside it. */
  lemma {:induction false} SmallProducts(r: Region, length: nat, bytes: nat)
    requires Documented(r, length, bytes)
    ensures length * r.scale < 0x1_0000_0000_0000
  {
    var n := BucketsFor(length, r.scale);
    assert n * bytes >= n * 2;
    assert length * r.scale <= n * FULL_SCALE;
  }

  lemma {:induction false} RoundUp(p: nat, q: nat)
    ensures p / FULL_SCALE < (q + FULL_SCALE - 1) / FULL_SCALE <==>
            p < (q + FULL_SCALE - 1) / FULL_SCALE * FULL_SCALE
    ensures p < q ==> p / FULL_SCALE < (q + FULL_SCALE - 1) / FULL_SCALE
    ensures q <= (q + FULL_SCALE - 1) / FULL_SCALE * FULL_SCALE
    ensures q == (q + FULL_SCALE - 1) / FULL_SCALE * FULL_SCALE <==> q % FULL_SCALE == 0
  {}

  lemma {:induction false} RegionBucket(r: Region, length: nat, bytes: nat, address: nat)
    requires Documented(r, length, bytes) && r.off <= address < r.off + length
    requires !(r.off == 0 && r.scale == 2)
    ensures Bucket(r, address) == (address - r.off) * r.scale / FULL_SCALE
    ensures (address - r.off) * r.scale < length * r.scale
  {
    SmallProducts(r, length, bytes);
    TimesLess(address - r.off, length, r.scale);
    SmallMod((address - r.off) * r.scale);
  }

  lemma {:induction false} SmallMod(p: nat)
    requires p < ADDRESSES
    ensures p % ADDRESSES == p
  {}

  lemma {:induction false} FirstBucketExists(length: nat, scale: nat)
    requires length > 0 && scale > 0
    ensures BucketsFor(length, scale) > 0
  {
    TimesLess(0, length, scale);
    RoundUp(0, length * scale);
  }

  /** Every address of the region has a bucket inside the buffer. */
  lemma {:induction false} RegionIsCounted(r: Region, length: nat, bytes: nat, address: nat)
    requires Documented(r, length, bytes) && r.off <= address < r.off + length
    ensures Counted(r, bytes, address)
    ensures Bucket(r, address) < BucketsFor(length, r.scale)
    ensures !(r.off == 0 && r.scale == 2) ==> Bucket(r, address) == (address - r.off) * r.scale / FULL_SCALE
  {
    if r.off == 0 && r.scale == 2 {
      FirstBucketExists(length, r.scale);
    } else {
      RegionBucket(r, length, bytes, address);
      RoundUp((address - r.off) * r.scale, length * r.scale);
    }
    IndexInBuffer(Bucket(r, address), BucketsFor(length, r.scale), bytes);
  }

  /** A scale that divides 2^17 gives one bucket to each so many addresses in a row: one for 131072,
      two for 65536, four for 32768, eight for 16384. */
  lemma {:induction false} AddressesPerBucket(r: Region, length: nat, bytes: nat, address: nat, n: nat)
    requires Documented(r, length, bytes) && r.off <= address < r.off + length
    requires !(r.off == 0 && r.scale == 2) && n > 0 && n * r.scale == FULL_SCALE
    ensures Bucket(r, address) == (address - r.off) / n
  {
    RegionBucket(r, length, bytes, address);
    CancelScale(address - r.off, n, r.scale);
  }

  lemma {:induction false} CancelScale(d: nat, n: nat, scale: nat)
    requires n > 0 && scale > 0
    ensures n * scale > 0 && d * scale / (n * scale) == d / n
  {
    var q, rest := d / n, d % n;
    assert d * scale == q * (n * scale) + rest * scale;
    TimesLess(rest, n, scale);
    QuotientIs(d * scale, n * scale, q, rest * scale);
  }

  lemma {:induction false} QuotientIs(p: nat, m: nat, q: nat, rest: nat)
    requires m > 0 && p == q * m + rest && rest < m
    ensures p / m == q
  {
    var k := p / m;
    assert k * m <= p < (k + 1) * m && (q + 1) * m == q * m + m;
    TimesLess(k, q + 1, m);
    TimesLess(q, k + 1, m);
  }

  /** Scale 2 gives all addresses of a region one bucket, as documented, exactly when the region
      starts at 0 or has no more than 65536 addresses. */
  lemma {:induction false} ScaleTwoIsOneBucket(r: Region, length: nat, bytes: nat)
    requires Documented(r, length, bytes) && r.scale == 2
    ensures (forall a, b :: r.off <= a < r.off + length && r.off <= b < r.off + length ==>
               Bucket(r, a) == Bucket(r, b)) <==>
            r.off == 0 || length <= 65536
  {
    if r.off != 0 {
      forall a: nat | r.off <= a < r.off + length ensures Bucket(r, a) == (a - r.off) / 65536 {
        AddressesPerBucket(r, length, bytes, a, 65536);
      }
      if length > 65536 {
        assert Bucket(r, r.off) != Bucket(r, r.off + 65536);
      }
    }
  }

  /** The documented size of a buffer in bytes, (end - start) * (bucket size / 2) * (scale / 65536):
      exact if that comes to whole buckets, and else the least whole number of buckets above it. */
  lemma {:induction false} DocumentedSize(length: nat, scale: nat, bytes: nat)
    ensures var n := BucketsFor(length, scale);
      && (length * scale % FULL_SCALE == 0 ==> n * bytes * 2 * 65536 == length * bytes * scale)
      && length * scale <= n * FULL_SCALE
      && (n > 0 ==> (n - 1) * FULL_SCALE < length * scale)
  {
    var n := BucketsFor(length, scale);
    RoundUp(0, length * scale);
    if length * scale % FULL_SCALE == 0 {
      assert n * FULL_SCALE == length * scale;
      assert n * bytes * 2 * 65536 == n * FULL_SCALE * bytes;
      assert length * bytes * scale == length * scale * bytes;
    }
  }

  /** Higher addresses of the region never have lower buckets. */
  lemma {:induction false} BucketIsMonotone(r: Region, length: nat, bytes: nat, a: nat, b: nat)
    requires Documented(r, length, bytes) && r.off <= a <= b < r.off + length
    ensures Bucket(r, a) <= Bucket(r, b)
  {
    RegionIsCounted(r, length, bytes, a);
    RegionIsCounted(r, length, bytes, b);
    TimesLess(a - r.off, b - r.off, r.scale);
  }

  /** The product of distance and scale stays a 64-bit number. */
  predicate NoOverflow(r: Region, address: nat) {
    address >= r.off ==> (address - r.off) * r.scale < ADDRESSES
  }

  lemma {:induction false} PlainBucket(r: Region, address: nat)
    requires address >= r.off && NoOverflow(r, address) && !(r.off == 0 && r.scale == 2)
    ensures Bucket(r, address) == (address - r.off) * r.scale / FULL_SCALE
  {
    var p := (address - r.off) * r.scale;
    assert p % ADDRESSES == p;
  }

  /** Which addresses are counted at all. */
  lemma {:induction false} CountedExactly(r: Region, length: nat, bytes: nat, address: nat)
    requires Documented(r, length, bytes) && !(r.off == 0 && r.scale == 2)
    requires address >= r.off && NoOverflow(r, address)
    ensures Counted(r, bytes, address) <==>
            (address - r.off) * r.scale < BucketsFor(length, r.scale) * FULL_SCALE
  {
    PlainBucket(r, address);
    RoundUp((address - r.off) * r.scale, length * r.scale);
    IndexInBuffer(Bucket(r, address), BucketsFor(length, r.scale), bytes);
  }

  /** Every address below the limit is counted or not as it is in the region or not. */
  ghost predicate CountsRegionOnly(r: Region, length: nat, bytes: nat, limit: nat) {
    forall a: nat :: a < limit ==> (Counted(r, bytes, a) <==> r.off <= a < r.off + length)
  }

  /** What that takes: the last bucket is full, it is not the case of start 0 and scale 2, where
      every address goes to the first bucket, and no address below the limit comes round. */
  predicate TightRegion(r: Region, length: nat, limit: nat) {
    && length * r.scale % FULL_SCALE == 0
    && !(r.off == 0 && r.scale == 2)
    && (limit - 1 - r.off) * r.scale < ADDRESSES
  }

  /** The address just past a region with start 0 and scale 2 is counted. */
  lemma {:induction false} PastEndOfOneBucket(r: Region, length: nat, bytes: nat)
    requires Documented(r, length, bytes) && length > 0 && r.off == 0 && r.scale == 2
    ensures Counted(r, bytes, length)
  {
    RegionIsCounted(r, length, bytes, 0);
    assert Bucket(r, length) == Bucket(r, 0);
  }

  /** So is the address just past a region whose last bucket is not full. */
  lemma {:induction false} PastEndOfPartBucket(r: Region, length: nat, bytes: nat)
    requires Documented(r, length, bytes) && !(r.off == 0 && r.scale == 2)
    requires length * r.scale % FULL_SCALE != 0
    ensures Counted(r, bytes, r.off + length)
  {
    SmallProducts(r, length, bytes);
    RoundUp(0, length * r.scale);
    CountedExactly(r, length, bytes, r.off + length);
  }

  /** The least distance whose product with the scale no longer fits in 64 bits. */
  function TooFar(scale: nat): nat
    requires scale > 0
  {
    (ADDRESSES + scale - 1) / scale
  }

  lemma {:induction false} TooFarIs(scale: nat)
    requires scale > 0
    ensures ADDRESSES <= TooFar(scale) * scale < ADDRESSES + scale
  {
    var q, p := TooFar(scale), ADDRESSES + scale - 1;
    assert p == q * scale + p % scale;
  }

  /** From there the product comes round to less than the scale, so to the first bucket. */
  lemma {:induction false} RoundToFirst(p: nat, scale: nat)
    requires ADDRESSES <= p < ADDRESSES + scale && scale <= FULL_SCALE
    ensures p % ADDRESSES / FULL_SCALE == 0
  {
    assert p % ADDRESSES == p - ADDRESSES;
  }

  /** If some address below the limit comes round, one that does is counted, and it is not in the
      region. */
  lemma {:induction false} ComesRound(r: Region, length: nat, bytes: nat, limit: nat) returns (a: nat)
    requires Documented(r, length, bytes) && length > 0 && !(r.off == 0 && r.scale == 2)
    requires r.off < limit && (limit - 1 - r.off) * r.scale >= ADDRESSES
    ensures r.off + length <= a < limit && Counted(r, bytes, a)
  {
    var d := TooFar(r.scale);
    a := r.off + d;
    TooFarIs(r.scale);
    SmallProducts(r, length, bytes);
    TimesLess(length, d, r.scale);
    LeastTooFar(limit - 1 - r.off, r.scale);
    RoundToFirst(d * r.scale, r.scale);
    FirstBucketExists(length, r.scale);
    IndexInBuffer(0, BucketsFor(length, r.scale), bytes);
    assert Bucket(r, a) == d * r.scale % ADDRESSES / FULL_SCALE;
  }

  lemma {:induction false} LeastTooFar(d: nat, scale: nat)
    requires scale > 0 && d * scale >= ADDRESSES
    ensures TooFar(scale) <= d
  {
    TooFarIs(scale);
    var q := TooFar(scale);
    assert (q - 1) * scale == q * scale - scale;
    TimesLess(q - 1, d, scale);
  }

  /** Conversely no product below the limit comes round if the largest does not. */
  lemma {:induction false} NoneComesRound(r: Region, limit: nat, a: nat)
    requires r.off <= a < limit && (limit - 1 - r.off) * r.scale < ADDRESSES && r.scale > 0
    ensures NoOverflow(r, a)
  {
    TimesLess(a - r.off, limit - 1 - r.off, r.scale);
  }

  lemma {:induction false} FullBuckets(r: Region, length: nat, bytes: nat, a: nat)
    requires Documented(r, length, bytes) && !(r.off == 0 && r.scale == 2)
    requires length * r.scale % FULL_SCALE == 0 && NoOverflow(r, a)
    ensures Counted(r, bytes, a) <==> r.off <= a < r.off + length
  {
    if a >= r.off {
      CountedExactly(r, length, bytes, a);
      RoundUp(0, length * r.scale);
      TimesLess(a - r.off, length, r.scale);
    }
  }

  /** Even a full buffer counts addresses far from its region when the product comes round: here
      2^48 addresses above the start. */
  lemma {:induction false} FarSampleIsCounted()
    ensures var r := Region(4096, 2, 0x1_0000);
      Documented(r, 2, 2) && 2 * r.scale % FULL_SCALE == 0 && Counted(r, 2, 4096 + 0x1_0000_0000_0000)
  {}

  /** Over all addresses below any limit, samples outside the region are kept out, and those inside
      counted, exactly when the region is tight. */
  lemma {:induction false} OnlyRegionIsCounted(r: Region, length: nat, bytes: nat, limit: nat)
    requires Documented(r, length, bytes) && length > 0 && r.off + length < limit <= ADDRESSES
    ensures CountsRegionOnly(r, length, bytes, limit) <==> TightRegion(r, length, limit)
  {
    if r.off == 0 && r.scale == 2 {
      PastEndOfOneBucket(r, length, bytes);
    } else if length * r.scale % FULL_SCALE != 0 {
      PastEndOfPartBucket(r, length, bytes);
    } else if (limit - 1 - r.off) * r.scale >= ADDRESSES {
      var a := ComesRound(r, length, bytes, limit);
      assert !(Counted(r, bytes, a) <==> r.off <= a < r.off + length);
    } else {
      forall a: nat | a < limit ensures Counted(r, bytes, a) <==> r.off <= a < r.off + length {
        if a >= r.off { NoneComesRound(r, limit, a); }
        FullBuckets(r, length, bytes, a);
      }
    }
  }

  /** The usual end of user space. */
  const USER_SPACE: nat := 0x8000_0000_0000

  /** Below it nothing comes round, whatever the scale: a region is tight exactly if its buckets are
      full and it is not the one-bucket case at address 0. */
  lemma {:induction false} TightInUserSpace(r: Region, length: nat)
    requires ScaleOk(r.scale)
    ensures TightRegion(r, length, USER_SPACE) <==>
            length * r.scale % FULL_SCALE == 0 && !(r.off == 0 && r.scale == 2)
  {}

  // ---------------------------------------------------------------- runs of samples

  /** The buckets a run of samples changes. */
  function HitsBy(r: Region, bytes: nat, samples: seq<nat>): (ks: seq<int>)
    ensures |ks| == |samples| && forall i :: 0 <= i < |ks| ==> ks[i] == HitBy(r, bytes, samples[i])
  {
    seq(|samples|, i requires 0 <= i < |samples| => HitBy(r, bytes, samples[i]))
  }

  function BumpedAll(buf: seq<nat>, ks: seq<int>, capacity: nat): (after: seq<nat>)
    ensures |after| == |buf|
  {
    if ks == [] then buf else Bumped(BumpedAll(buf, ks[..|ks| - 1], capacity), ks[|ks| - 1], capacity)
  }

  /** How often bucket k is changed, and how often it wraps around to 0. */
  function Hits(ks: seq<int>, k: nat): nat {
    if ks == [] then 0 else Hits(ks[..|ks| - 1], k) + if ks[|ks| - 1] == k then 1 else 0
  }

  function Wraps(buf: seq<nat>, ks: seq<int>, capacity: nat, k: nat): nat
    requires k < |buf|
  {
    if ks == [] then 0
    else
      var before := ks[..|ks| - 1];
      Wraps(buf, before, capacity, k) +
      if ks[|ks| - 1] == k && BumpedAll(buf, before, capacity)[k] + 1 == capacity then 1 else 0
  }

  /** Each bucket holds the number of samples that fell into it, on top of what it held before,
      less a whole capacity for each wrap: the count modulo the capacity. */
  lemma {:induction false} BucketCountsHits(buf: seq<nat>, ks: seq<int>, capacity: nat, k: nat)
    requires capacity > 0 && k < |buf| && buf[k] < capacity
    ensures BumpedAll(buf, ks, capacity)[k] < capacity
    ensures BumpedAll(buf, ks, capacity)[k] + Wraps(buf, ks, capacity, k) * capacity == buf[k] + Hits(ks, k)
    decreases |ks|
  {
    if ks != [] {
      var before := ks[..|ks| - 1];
      BucketCountsHits(buf, before, capacity, k);
      OneMoreTimes(Wraps(buf, before, capacity, k), capacity);
    }
  }

  lemma {:induction false} OneMoreTimes(a: nat, c: nat)
    ensures (a + 1) * c == a * c + c
  {}

  function Sum(buf: seq<nat>): nat {
    if buf == [] then 0 else Sum(buf[..|buf| - 1]) + buf[|buf| - 1]
  }

  lemma {:induction false} SumUpdate(buf: seq<nat>, k: nat, v: nat)
    requires k < |buf|
    ensures Sum(buf[k := v]) + buf[k] == Sum(buf) + v
  {
    var n := |buf| - 1;
    if k < n {
      assert buf[k := v][..n] == buf[..n][k := v];
      SumUpdate(buf[..n], k, v);
    } else {
      assert buf[k := v][..n] == buf[..n];
    }
  }

  /** The samples that change some bucket, and the wraps of all buckets. */
  function AllHits(ks: seq<int>): nat {
    if ks == [] then 0 else AllHits(ks[..|ks| - 1]) + if ks[|ks| - 1] >= 0 then 1 else 0
  }

  function AllWraps(buf: seq<nat>, ks: seq<int>, capacity: nat): nat {
    if ks == [] then 0
    else
      var before, k := ks[..|ks| - 1], ks[|ks| - 1];
      AllWraps(buf, before, capacity) +
      if 0 <= k < |buf| && BumpedAll(buf, before, capacity)[k] + 1 == capacity then 1 else 0
  }

  /** The sum of all buckets grows by one for each counted sample, less a whole capacity for each
      time a bucket wraps; until one does it grows by exactly the number of counted samples. */
  lemma {:induction false} SumCountsSamples(buf: seq<nat>, ks: seq<int>, capacity: nat)
    requires capacity > 0 && forall i :: 0 <= i < |ks| ==> ks[i] < |buf|
    ensures Sum(BumpedAll(buf, ks, capacity)) + AllWraps(buf, ks, capacity) * capacity == Sum(buf) + AllHits(ks)
    decreases |ks|
  {
    if ks != [] {
      var before, k := ks[..|ks| - 1], ks[|ks| - 1];
      SumCountsSamples(buf, before, capacity);
      var mid := BumpedAll(buf, before, capacity);
      if k >= 0 { SumUpdate(mid, k, Next(mid[k], capacity)); }
      OneMoreTimes(AllWraps(buf, before, capacity), capacity);
    }
  }

  lemma {:induction false} HitsInBuffer(buf: seq<nat>, r: Region, bytes: nat, samples: seq<nat>)
    requires Holds(buf, r, bytes)
    ensures forall i :: 0 <= i < |samples| ==> HitsBy(r, bytes, samples)[i] < |buf|
  {
    forall i | 0 <= i < |samples| ensures HitBy(r, bytes, samples[i]) < |buf| {
      if Counted(r, bytes, samples[i]) { IndexInBuffer(Bucket(r, samples[i]), |buf|, bytes); }
    }
  }

  /** How many of the samples lie in the region. */
  function InRegion(r: Region, length: nat, samples: seq<nat>): nat {
    if samples == [] then 0
    else
      var a := samples[|samples| - 1];
      InRegion(r, length, samples[..|samples| - 1]) + if r.off <= a < r.off + length then 1 else 0
  }

  /** How many of the samples are counted although they do not lie in the region. */
  function Strays(r: Region, length: nat, bytes: nat, samples: seq<nat>): nat {
    if samples == [] then 0
    else
      var a := samples[|samples| - 1];
      Strays(r, length, bytes, samples[..|samples| - 1]) +
      if Counted(r, bytes, a) && !(r.off <= a < r.off + length) then 1 else 0
  }

  /** For any documented region the counted samples are those in the region and the strays. */
  lemma {:induction false} CountedAreInRegionOrStray(r: Region, length: nat, bytes: nat, samples: seq<nat>)
    requires Documented(r, length, bytes)
    ensures AllHits(HitsBy(r, bytes, samples)) == InRegion(r, length, samples) + Strays(r, length, bytes, samples)
    decreases |samples|
  {
    if samples != [] {
      var before, a := samples[..|samples| - 1], samples[|samples| - 1];
      CountedAreInRegionOrStray(r, length, bytes, before);
      assert HitsBy(r, bytes, samples)[..|before|] == HitsBy(r, bytes, before);
      if r.off <= a < r.off + length { RegionIsCounted(r, length, bytes, a); }
    }
  }

  /** A run of samples at addresses below the limit. */
  predicate AreBelow(samples: seq<nat>, limit: nat) {
    forall i :: 0 <= i < |samples| ==> samples[i] < limit
  }

  lemma {:induction false} NoStrays(r: Region, length: nat, bytes: nat, limit: nat, samples: seq<nat>)
    requires CountsRegionOnly(r, length, bytes, limit) && AreBelow(samples, limit)
    ensures Strays(r, length, bytes, samples) == 0
    decreases |samples|
  {
    if samples != [] {
      NoStrays(r, length, bytes, limit, samples[..|samples| - 1]);
    }
  }

  ghost predicate CountsEachRun(r: Region, length: nat, bytes: nat, limit: nat) {
    forall samples: seq<nat> :: AreBelow(samples, limit) ==>
      AllHits(HitsBy(r, bytes, samples)) == InRegion(r, length, samples)
  }

  /** In every run below the limit the counted samples are as many as those in the region, exactly
      when the region is tight. */
  lemma {:induction false} RunsCountRegionOnly(r: Region, length: nat, bytes: nat, limit: nat)
    requires Documented(r, length, bytes) && length > 0 && r.off + length < limit <= ADDRESSES
    ensures CountsEachRun(r, length, bytes, limit) <==> TightRegion(r, length, limit)
  {
    OnlyRegionIsCounted(r, length, bytes, limit);
    if TightRegion(r, length, limit) {
      forall samples: seq<nat> | AreBelow(samples, limit)
        ensures AllHits(HitsBy(r, bytes, samples)) == InRegion(r, length, samples)
      {
        CountedAreInRegionOrStray(r, length, bytes, samples);
        NoStrays(r, length, bytes, limit, samples);
      }
    } else {
      var a: nat :| a < limit && !(Counted(r, bytes, a) <==> r.off <= a < r.off + length);
      if r.off <= a < r.off + length { RegionIsCounted(r, length, bytes, a); }
      CountedAreInRegionOrStray(r, length, bytes, [a]);
      assert [a][..0] == [] && AreBelow([a], limit);
    }
  }

  /** The sum of the histogram grows by the samples in the region and the strays, less a whole
      capacity for each time a bucket wraps; in a run below a limit for which the region is tight
      there are no strays. */
  lemma {:induction false} HistogramCountsRegion(buf: seq<nat>, r: Region, length: nat, bytes: nat, samples: seq<nat>)
    requires Holds(buf, r, bytes) && Documented(r, length, bytes)
    ensures var ks := HitsBy(r, bytes, samples);
      Sum(BumpedAll(buf, ks, Capacity(bytes))) + AllWraps(buf, ks, Capacity(bytes)) * Capacity(bytes) ==
      Sum(buf) + InRegion(r, length, samples) + Strays(r, length, bytes, samples)
    ensures forall limit: nat ::
      length > 0 && r.off + length < limit <= ADDRESSES && TightRegion(r, length, limit) && AreBelow(samples, limit) ==>
      Strays(r, length, bytes, samples) == 0
  {
    CountedAreInRegionOrStray(r, length, bytes, samples);
    HitsInBuffer(buf, r, bytes, samples);
    SumCountsSamples(buf, HitsBy(r, bytes, samples), Capacity(bytes));
    forall limit: nat
      | length > 0 && r.off + length < limit <= ADDRESSES && TightRegion(r, length, limit) && AreBelow(samples, limit)
      ensures Strays(r, length, bytes, samples) == 0
    {
      OnlyRegionIsCounted(r, length, bytes, limit);
      NoStrays(r, length, bytes, limit, samples);
    }
  }

  /** For any documented region, samples that all lie in it are all counted. */
  lemma {:induction false} RegionSamplesAreCounted(r: Region, length: nat, bytes: nat, samples: seq<nat>)
    requires Documented(r, length, bytes)
    requires forall i :: 0 <= i < |samples| ==> r.off <= samples[i] < r.off + length
    ensures AllHits(HitsBy(r, bytes, samples)) == |samples|
    decreases |samples|
  {
    if samples != [] {
      var before := samples[..|samples| - 1];
      RegionSamplesAreCounted(r, length, bytes, before);
      assert HitsBy(r, bytes, samples)[..|before|] == HitsBy(r, bytes, before);
      RegionIsCounted(r, length, bytes, samples[|samples| - 1]);
    }
  }

  // ---------------------------------------------------------------- several regions

  /** The region can be chosen for this address: its start is not 0 and lies strictly below. */
  predicate Below(r: Region, pc: nat) {
    0 < r.off < pc
  }

  /** The first region with the greatest non-zero start strictly below pc, else region 0. */
  ghost predicate IsBest(regions: seq<Region>, pc: nat, best: nat) {
    if exists i :: 0 <= i < |regions| && Below(regions[i], pc)
    then && best < |regions| && Below(regions[best], pc)
         && (forall i :: 0 <= i < |regions| && Below(regions[i], pc) ==> regions[i].off <= regions[best].off)
         && (forall i :: 0 <= i < best && Below(regions[i], pc) ==> regions[i].off < regions[best].off)
    else best == 0
  }

  /** There is one such region. */
  function BestRegion(regions: seq<Region>, pc: nat): (best: nat)
    requires regions != []
    ensures best < |regions| && IsBest(regions, pc, best)
  {
    if |regions| == 1 then 0
    else
      var n := |regions| - 1;
      var b := BestRegion(regions[..n], pc);
      assert forall i :: 0 <= i < n ==> regions[..n][i] == regions[i];
      if Below(regions[n], pc) && (!Below(regions[b], pc) || regions[n].off > regions[b].off) then n else b
  }

  lemma {:induction false} BestIsUnique(regions: seq<Region>, pc: nat, a: nat, b: nat)
    requires IsBest(regions, pc, a) && IsBest(regions, pc, b)
    ensures a == b
  {}

  /** The loop of _papi_hwi_dispatch_profile that picks the region. */
  method ChooseRegion(regions: seq<Region>, pc: nat) returns (best: nat)
    requires regions != []
    ensures best == BestRegion(regions, pc)
  {
    var bestIndex, bestOffset := -1, 0;
    for i := 0 to |regions|
      invariant -1 <= bestIndex < i
      invariant bestIndex == -1 ==> bestOffset == 0 && forall k :: 0 <= k < i ==> !Below(regions[k], pc)
      invariant bestIndex >= 0 ==> Below(regions[bestIndex], pc) && regions[bestIndex].off == bestOffset
      invariant bestIndex >= 0 ==> forall k :: 0 <= k < i && Below(regions[k], pc) ==> regions[k].off <= bestOffset
      invariant bestIndex >= 0 ==>
        forall k :: 0 <= k < bestIndex && Below(regions[k], pc) ==> regions[k].off < bestOffset
    {
      var offset := regions[i].off;
      if offset < pc && offset > bestOffset {
        bestIndex := i;
        bestOffset := offset;
      }
    }
    if bestIndex == -1 {
      bestIndex := 0;
    }
    BestIsUnique(regions, pc, bestIndex, BestRegion(regions, pc));
    return bestIndex;
  }

  /** The address lies in a region of this length. */
  predicate Inside(r: Region, length: nat, pc: nat) {
    r.off <= pc < r.off + length
  }

  /** No address lies in two regions. */
  ghost predicate Disjoint(regions: seq<Region>, lengths: seq<nat>) {
    && |lengths| == |regions|
    && (forall i :: 0 <= i < |lengths| ==> lengths[i] > 0)
    && (forall i, j, a: nat | 0 <= i < |regions| && 0 <= j < |regions| && i != j ::
          Inside(regions[i], lengths[i], a) ==> !Inside(regions[j], lengths[j], a))
  }

  /** With regions that do not overlap, the sample goes to the region it lies in exactly when it
      is past that region's start and the start is not 0, or when the region is the first and no
      other can be chosen. */
  lemma {:induction false} RegionFound(regions: seq<Region>, lengths: seq<nat>, pc: nat, i: nat, best: nat)
    requires Disjoint(regions, lengths) && i < |regions| && Inside(regions[i], lengths[i], pc)
    requires IsBest(regions, pc, best) && best < |regions|
    ensures best == i <==>
            || Below(regions[i], pc)
            || (i == 0 && forall j :: 0 <= j < |regions| ==> !Below(regions[j], pc))
  {
    if Below(regions[i], pc) && best != i {
      var a := regions[best].off;
      assert Inside(regions[i], lengths[i], a) && Inside(regions[best], lengths[best], a);
    }
  }

  /** A sample exactly at the start of the second of two adjacent regions goes to the first. */
  lemma {:induction false} StartGoesElsewhere()
    ensures var regions := [Region(4096, 512, 0x1_0000), Region(4352, 512, 0x1_0000)];
      Inside(regions[1], 256, 4352) && IsBest(regions, 4352, 0)
  {
    var regions := [Region(4096, 512, 0x1_0000), Region(4352, 512, 0x1_0000)];
    assert Below(regions[0], 4352) && !Below(regions[1], 4352);
  }

  /** src/extras.c, _papi_hwi_dispatch_profile: the sample goes into the buffer of the chosen
      region and into no other. */
  method DispatchProfile(regions: seq<Region>, bufs: seq<array<nat>>, flags: set<ProfFlag>, pc: nat)
    returns (best: nat)
    requires regions != [] && |bufs| == |regions|
    requires forall i :: 0 <= i < |bufs| ==> Holds(bufs[i][..], regions[i], BucketBytes(flags))
    modifies bufs
    ensures best == BestRegion(regions, pc)
    ensures bufs[best][..] == Bumped(old(bufs[best][..]), HitBy(regions[best], BucketBytes(flags), pc),
                                     Capacity(BucketBytes(flags)))
    ensures forall i :: 0 <= i < |bufs| && bufs[i] != bufs[best] ==> bufs[i][..] == old(bufs[i][..])
  {
    best := ChooseRegion(regions, pc);
    PosixProfil(pc, regions[best], bufs[best], flags);
  }
}
