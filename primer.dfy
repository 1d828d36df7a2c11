/** The integer part of a HyperLogLog sketch: 2^n_bits buckets, each holding
    the largest "position of the leftmost one" seen among the hashes whose top
    n_bits select it. */
module Primer {
  import opened Ints

  const BITSET_CAPACITY: nat := 64

  /** Largest bucket-bit count for which `1 << n_bits`, computed as a 32-bit
      signed integer, is a positive bucket count. */
  const MAX_N_BITS: nat := 30

  function Max(a: u64, b: u64): u64
  {
    if a >= b then a else b
  }

  /** `compute_binary`: a hash is its own bit pattern. */
  function ComputeBinary(hash: u64): u64
  {
    hash
  }

  /** Bit `j` of `x`: `(x >> j) & 1`. */
  function Bit(x: nat, j: nat): nat
  {
    ShiftRight(x, j) % 2
  }

  /** The zero bits of `x` met when scanning down from bit `i - 1` until the
      first one bit (or until bit 0 is passed). */
  function LeadingZerosBelow(x: nat, i: nat): (z: nat)
    ensures z <= i
  {
    if i == 0 then 0
    else if Bit(x, i - 1) == 1 then 0
    else 1 + LeadingZerosBelow(x, i - 1)
  }

  /** `u64::leading_zeros`. */
  function LeadingZeros(x: u64): nat
  {
    LeadingZerosBelow(x, BITSET_CAPACITY)
  }

  /** Below 2^(j+1), bit `j` is set exactly from 2^j upwards. */
  lemma TopBit(x: nat, j: nat)
    requires x < 2 * Pow2(j)
    ensures Bit(x, j) == if x >= Pow2(j) then 1 else 0
  {
    ShiftRightBelow(x, j, 2);
    if x >= Pow2(j) {
      ShiftRightAtLeast(x, j, 1);
    } else {
      ShiftRightBelow(x, j, 1);
    }
  }

  /** Scanning from bit `i - 1` of a value below 2^i stops exactly at its
      highest one bit. */
  lemma {:induction false} LeadingZerosBelowBitLength(x: nat, i: nat)
    requires x < Pow2(i)
    ensures x == 0 ==> LeadingZerosBelow(x, i) == i
    ensures x > 0 ==> (LeadingZerosBelow(x, i) < i &&
                       Pow2(i - LeadingZerosBelow(x, i) - 1) <= x < Pow2(i - LeadingZerosBelow(x, i)))
  {
    if i > 0 {
      TopBit(x, i - 1);
      if x < Pow2(i - 1) {
        LeadingZerosBelowBitLength(x, i - 1);
      }
    }
  }

  /** `position_of_leftmost_one`: 64 minus the leading zeros, i.e. the bit
      length of `bset`: 0 for 0, otherwise the `r` with 2^(r-1) <= bset < 2^r. */
  function PositionOfLeftmostOne(bset: u64): (r: u64)
    ensures r <= BITSET_CAPACITY
    ensures r == 0 <==> bset == 0
    ensures bset > 0 ==> Pow2(r - 1) <= bset < Pow2(r)
  {
    Pow2SixtyFour();
    LeadingZerosBelowBitLength(bset, BITSET_CAPACITY);
    BITSET_CAPACITY - LeadingZeros(bset)
  }

  /** The value `add_elem` offers to a bucket for a hash. */
  function Rank(hash: u64): u64
  {
    PositionOfLeftmostOne(ComputeBinary(hash))
  }

  /** The top `nBits` bits of the hash, which is always a valid index into
      2^nBits buckets; with no bucket bits it is 0, the one bucket there is.
      This is what `hash >> (64 - n_bits)` is meant to compute. */
  function BucketIndex(hash: u64, nBits: nat): (i: nat)
    requires nBits <= BITSET_CAPACITY
    ensures i < Pow2(nBits)
    ensures i * Pow2(BITSET_CAPACITY - nBits) <= hash < (i + 1) * Pow2(BITSET_CAPACITY - nBits)
  {
    var low := BITSET_CAPACITY - nBits;
    Pow2SixtyFour();
    Pow2Add(nBits, low);
    assert nBits + low == BITSET_CAPACITY;
    assert hash < Pow2(nBits) * Pow2(low);
    ShiftRightBelow(hash, low, Pow2(nBits));
    ShiftRightBracket(hash, low);
    ShiftRight(hash, low)
  }

  datatype Option<T> = None | Some(value: T)

  /** `hash >> (64 - n_bits)` as written: Rust treats a shift of a `u64` by
      64 or more bits as an overflow (a panic, `None` here); a shorter shift
      drops the low bits. */
  function ShiftedIndexAsWritten(hash: u64, nBits: nat): (r: Option<nat>)
    requires nBits <= BITSET_CAPACITY
    ensures r.None? <==> nBits == 0
    ensures r.Some? ==> r.value == BucketIndex(hash, nBits)
  {
    var amount := BITSET_CAPACITY - nBits;
    if amount >= BITSET_CAPACITY then None else Some(ShiftRight(hash, amount))
  }

  /** With `n_bits == 0` the sketch has one bucket, yet computing its index
      overflows the shift for every hash. */
  lemma ZeroBitsIndexOverflows(hash: u64)
    ensures ShiftedIndexAsWritten(hash, 0).None?
    ensures BucketIndex(hash, 0) == 0
  {
  }

  /** A sketch of `nBits` bucket bits: one bucket per value of the top bits. */
  predicate Sized(buckets: seq<u64>, nBits: nat)
  {
    nBits <= BITSET_CAPACITY && |buckets| == Pow2(nBits)
  }

  /** The bucket array after `add_elem` of an element with this hash. */
  function Update(buckets: seq<u64>, nBits: nat, hash: u64): (r: seq<u64>)
    requires Sized(buckets, nBits)
    ensures Sized(r, nBits)
  {
    var i := BucketIndex(hash, nBits);
    buckets[i := Max(buckets[i], Rank(hash))]
  }

  /** The bucket array after adding the hashes `hs` in order. */
  function AddAll(buckets: seq<u64>, nBits: nat, hs: seq<u64>): (r: seq<u64>)
    requires Sized(buckets, nBits)
    ensures Sized(r, nBits)
  {
    if hs == [] then buckets
    else Update(AddAll(buckets, nBits, hs[..|hs| - 1]), nBits, hs[|hs| - 1])
  }

  function Zeros(n: nat): (z: seq<u64>)
    ensures |z| == n
    ensures forall i :: 0 <= i < n ==> z[i] == 0
  {
    seq(n, _ => 0)
  }

  /** One update touches only the bucket the hash selects; that bucket becomes
      the larger of its old value and the hash's rank, so no bucket shrinks and
      buckets bounded by 64 stay bounded by 64. */
  lemma UpdateChangesOneBucket(buckets: seq<u64>, nBits: nat, hash: u64)
    requires Sized(buckets, nBits)
    ensures forall j :: 0 <= j < |buckets| && j != BucketIndex(hash, nBits) ==>
              Update(buckets, nBits, hash)[j] == buckets[j]
    ensures forall j :: 0 <= j < |buckets| ==> buckets[j] <= Update(buckets, nBits, hash)[j]
    ensures Rank(hash) <= Update(buckets, nBits, hash)[BucketIndex(hash, nBits)]
    ensures forall j :: 0 <= j < |buckets| ==> Update(buckets, nBits, hash)[j] in {buckets[j], Rank(hash)}
    ensures (forall j :: 0 <= j < |buckets| ==> buckets[j] <= BITSET_CAPACITY) ==>
              forall j :: 0 <= j < |buckets| ==> Update(buckets, nBits, hash)[j] <= BITSET_CAPACITY
  {
  }

  /** Adding the same hash again changes nothing. */
  lemma UpdateIdempotent(buckets: seq<u64>, nBits: nat, hash: u64)
    requires Sized(buckets, nBits)
    ensures Update(Update(buckets, nBits, hash), nBits, hash) == Update(buckets, nBits, hash)
  {
  }

  /** Two additions in either order leave the same buckets. */
  lemma UpdateCommutes(buckets: seq<u64>, nBits: nat, h1: u64, h2: u64)
    requires Sized(buckets, nBits)
    ensures Update(Update(buckets, nBits, h1), nBits, h2) == Update(Update(buckets, nBits, h2), nBits, h1)
  {
  }

  /** `v` is the largest of `base` and the ranks of those hashes of `hs` that
      select bucket `j`. */
  ghost predicate IsBucketMax(v: u64, base: u64, hs: seq<u64>, nBits: nat, j: nat)
    requires nBits <= BITSET_CAPACITY
  {
    && base <= v
    && (forall h :: h in hs && BucketIndex(h, nBits) == j ==> Rank(h) <= v)
    && (v == base || exists h :: h in hs && BucketIndex(h, nBits) == j && Rank(h) == v)
  }

  /** After adding `hs`, every bucket holds the maximum of its starting value
      and the ranks of the hashes in `hs` that select it. */
  lemma {:induction false} AddAllBucket(buckets: seq<u64>, nBits: nat, hs: seq<u64>, j: nat)
    requires Sized(buckets, nBits) && j < |buckets|
    ensures IsBucketMax(AddAll(buckets, nBits, hs)[j], buckets[j], hs, nBits, j)
  {
    if hs != [] {
      var init, last := hs[..|hs| - 1], hs[|hs| - 1];
      var before := AddAll(buckets, nBits, init);
      AddAllBucket(buckets, nBits, init, j);
      UpdateChangesOneBucket(before, nBits, last);
      assert hs == init + [last];
      var v := AddAll(buckets, nBits, hs)[j];
      if BucketIndex(last, nBits) == j {
        assert v == Max(before[j], Rank(last));
      } else {
        assert v == before[j];
      }
      assert forall h :: h in hs ==> h in init || h == last;
      forall h | h in init
        ensures h in hs
      {
      }
    }
  }

  /** Two values that both are the bucket maximum for the same elements are
      equal. */
  lemma BucketMaxUnique(v: u64, w: u64, base: u64, hs: seq<u64>, gs: seq<u64>, nBits: nat, j: nat)
    requires nBits <= BITSET_CAPACITY
    requires forall h :: h in hs <==> h in gs
    requires IsBucketMax(v, base, hs, nBits, j) && IsBucketMax(w, base, gs, nBits, j)
    ensures v == w
  {
  }

  /** The buckets depend only on WHICH hashes were added: not on their order
      and not on how often each was repeated. */
  lemma AddAllSameElements(buckets: seq<u64>, nBits: nat, hs: seq<u64>, gs: seq<u64>)
    requires Sized(buckets, nBits)
    requires forall h :: h in hs <==> h in gs
    ensures AddAll(buckets, nBits, hs) == AddAll(buckets, nBits, gs)
  {
    var a, b := AddAll(buckets, nBits, hs), AddAll(buckets, nBits, gs);
    forall j | 0 <= j < |buckets|
      ensures a[j] == b[j]
    {
      AddAllBucket(buckets, nBits, hs, j);
      AddAllBucket(buckets, nBits, gs, j);
      BucketMaxUnique(a[j], b[j], buckets[j], hs, gs, nBits, j);
    }
  }

  /** Consequences for insertion sequences: a reordering leaves the buckets
      as they were (any repeat of an element already added is covered by
      `AddAllSameElements`). */
  lemma AddAllPermutation(buckets: seq<u64>, nBits: nat, hs: seq<u64>, gs: seq<u64>)
    requires Sized(buckets, nBits)
    requires multiset(hs) == multiset(gs)
    ensures AddAll(buckets, nBits, hs) == AddAll(buckets, nBits, gs)
  {
    forall h
      ensures h in hs <==> h in gs
    {
      assert h in hs <==> h in multiset(hs);
      assert h in gs <==> h in multiset(gs);
    }
    AddAllSameElements(buckets, nBits, hs, gs);
  }

  /** Inserting the last hash again at once changes nothing. */
  lemma AddAllRepeat(buckets: seq<u64>, nBits: nat, hs: seq<u64>, hash: u64)
    requires Sized(buckets, nBits)
    ensures AddAll(buckets, nBits, hs + [hash, hash]) == AddAll(buckets, nBits, hs + [hash])
  {
    var once := hs + [hash];
    var twice := hs + [hash, hash];
    assert twice[..|twice| - 1] == once;
    assert once[..|once| - 1] == hs;
    UpdateIdempotent(AddAll(buckets, nBits, hs), nBits, hash);
  }

  /** Starting from zero buckets, every bucket stays within [0, 64]. */
  lemma {:induction false} AddAllBounded(nBits: nat, hs: seq<u64>)
    requires nBits <= BITSET_CAPACITY
    ensures forall j :: 0 <= j < Pow2(nBits) ==> AddAll(Zeros(Pow2(nBits)), nBits, hs)[j] <= BITSET_CAPACITY
  {
    if hs != [] {
      AddAllBounded(nBits, hs[..|hs| - 1]);
      UpdateChangesOneBucket(AddAll(Zeros(Pow2(nBits)), nBits, hs[..|hs| - 1]), nBits, hs[|hs| - 1]);
    }
  }

  /** The sketch object. The hash of an element is supplied as `hasher`; the
      ghost `inserted` records the hashes added so far, and `Valid` ties the
      buckets to folding them into zero buckets. */
  class HyperLogLog<K> {
    const hasher: K -> u64
    var nBits: u16
    var buckets: array<u64>
    var cardinality: nat
    ghost var inserted: seq<u64>

    ghost predicate Valid()
      reads this, buckets
    {
      && nBits <= MAX_N_BITS
      && buckets.Length == Pow2(nBits)
      && buckets[..] == AddAll(Zeros(buckets.Length), nBits, inserted)
    }

    /** `HyperLogLog::new`: 2^nBits zero buckets and a zero estimate. */
    constructor New(nBits: int, hasher: K -> u64)
      requires 0 <= nBits <= MAX_N_BITS
      ensures Valid() && fresh(buckets)
      ensures this.nBits == nBits && this.hasher == hasher
      ensures buckets.Length == Pow2(nBits)
      ensures forall i :: 0 <= i < buckets.Length ==> buckets[i] == 0
      ensures cardinality == 0 && inserted == []
    {
      this.hasher := hasher;
      this.nBits := nBits;
      buckets := new u64[Pow2(nBits)](_ => 0);
      cardinality := 0;
      inserted := [];
    }

    /** `get_cardinality`: the estimate last stored. */
    method GetCardinality() returns (c: nat)
      ensures c == cardinality
    {
      c := cardinality;
    }

    /** `add_elem`: raises the bucket selected by the top `nBits` bits of the
        element's hash to the hash's bit length, if that is larger. Nothing
        else changes: not the bucket count, not the stored estimate. The index
        is the intended `BucketIndex`, also for `nBits == 0` (see
        `ShiftedIndexAsWritten`). */
    method AddElem(val: K)
      requires Valid()
      modifies buckets, this`inserted
      ensures Valid() && buckets == old(buckets)
      ensures buckets[..] == Update(old(buckets[..]), nBits, hasher(val))
      ensures inserted == old(inserted) + [hasher(val)]
      ensures nBits == old(nBits) && cardinality == old(cardinality)
    {
      ghost var before := buckets[..];
      var hash := hasher(val);
      var binary := ComputeBinary(hash);
      var leadingZeroes := PositionOfLeftmostOne(binary);
      var index := BucketIndex(hash, nBits);
      buckets[index] := Max(buckets[index], leadingZeroes);
      assert buckets[..] == Update(before, nBits, hash);
      inserted := inserted + [hash];
      assert inserted[..|inserted| - 1] == old(inserted);
    }
  }

  /** A client in the manner of the unit tests: a fresh sketch reports zero,
      and adding an element a second time leaves every bucket as it was. */
  method RepeatedInsertClient(hasher: string -> u64)
  {
    var obj := new HyperLogLog<string>.New(1, hasher);
    var c := obj.GetCardinality();
    assert c == 0;
    obj.AddElem("Andy");
    var once := obj.buckets[..];
    obj.AddElem("Andy");
    UpdateIdempotent(once, 1, hasher("Andy"));
    assert obj.buckets[..] == once;
    c := obj.GetCardinality();
    assert c == 0;
  }
}
