/** Finding a slot of a hash page by its one-byte hash: the linear scan and the word-parallel one. */
module HashProbes {
  import opened Bytes
  import opened Bits

  /** Bytes compared at once, and bits of the mask a comparison yields. */
  const SIMD_WIDTH := 32

  /** The comparison of a block with the needle in every position: bit i is set where byte i equals it. */
  function EqMask(block: seq<Byte>, needle: Byte): nat {
    if |block| == 0 then 0
    else (if block[0] == needle then 1 else 0) + 2 * EqMask(block[1..], needle)
  }

  lemma {:induction false} EqMaskBit(block: seq<Byte>, needle: Byte, i: nat)
    ensures Bit(EqMask(block, needle), i) <==> i < |block| && block[i] == needle
  {
    if |block| == 0 {
      ZeroHasNoBit(i);
    } else if i > 0 {
      EqMaskBit(block[1..], needle, i - 1);
    }
  }

  // ---- scans ----

  /** Position i of the hash array holds the hash, and slot i the key. */
  ghost predicate MatchAt(hashes: seq<Byte>, keys: seq<Key>, hash: Byte, key: Key, i: nat)
    requires |hashes| == |keys|
  {
    i < |keys| && hashes[i] == hash && keys[i] == key
  }

  /** The first match, or -1 if there is none. */
  ghost predicate FirstMatch(hashes: seq<Byte>, keys: seq<Key>, hash: Byte, key: Key, index: int)
    requires |hashes| == |keys|
  {
    && -1 <= index < |keys|
    && (index >= 0 ==> MatchAt(hashes, keys, hash, key, index))
    && forall i: nat | i < (if index < 0 then |keys| else index) :: !MatchAt(hashes, keys, hash, key, i)
  }

  /** Both scans return the same index, for every page, because what they promise determines it. */
  lemma FirstMatchUnique(hashes: seq<Byte>, keys: seq<Key>, hash: Byte, key: Key, a: int, b: int)
    requires |hashes| == |keys|
    requires FirstMatch(hashes, keys, hash, key, a) && FirstMatch(hashes, keys, hash, key, b)
    ensures a == b
  {
    if a >= 0 { assert MatchAt(hashes, keys, hash, key, a); }
    if b >= 0 { assert MatchAt(hashes, keys, hash, key, b); }
  }

  method FindIndexNoSimd(hashes: seq<Byte>, keys: seq<Key>, hash: Byte, key: Key) returns (index: int)
    requires |hashes| == |keys|
    ensures FirstMatch(hashes, keys, hash, key, index)
  {
    for i := 0 to |keys|
      invariant forall j: nat | j < i :: !MatchAt(hashes, keys, hash, key, j)
    {
      if hashes[i] == hash && |key| == |keys[i]| && keys[i] == key {
        return i;
      }
    }
    return -1;
  }

  ghost predicate HasHash(page: seq<Byte>, base: nat, hash: Byte, p: nat) {
    base + p < |page| && page[base + p] == hash
  }

  /** Bit i of a mask for position at announces position at + i: it is in the block, holds the hash and is not yet dealt with. */
  ghost predicate AnnouncedAt(page: seq<Byte>, base: nat, matches: nat, hash: Byte, at: nat, end: nat, next: nat, i: nat) {
    Bit(matches, i) <==> at + i < end && next <= at + i && HasHash(page, base, hash, at + i)
  }

  ghost predicate Announces(page: seq<Byte>, base: nat, matches: nat, hash: Byte, at: nat, end: nat, next: nat) {
    forall i: nat :: AnnouncedAt(page, base, matches, hash, at, end, next, i)
  }

  /** No position from lo to hi holds the hash. */
  ghost predicate NoneHas(page: seq<Byte>, base: nat, hash: Byte, lo: nat, hi: nat) {
    forall p: nat | lo <= p < hi :: !HasHash(page, base, hash, p)
  }

  /** A fresh block announces all its matches from at on. */
  lemma BlockAnnounces(page: seq<Byte>, base: nat, start: nat, hash: Byte, at: nat)
    requires start <= at <= start + SIMD_WIDTH && base + start + SIMD_WIDTH <= |page|
    ensures Announces(page, base, Shr(EqMask(page[base + start..base + start + SIMD_WIDTH], hash), at - start), hash, at, start + SIMD_WIDTH, at)
  {
    var block := page[base + start..base + start + SIMD_WIDTH];
    var matches, end := Shr(EqMask(block, hash), at - start), start + SIMD_WIDTH;
    forall i: nat ensures AnnouncedAt(page, base, matches, hash, at, end, at, i) {
      ShiftBit(EqMask(block, hash), at - start, i);
      EqMaskBit(block, hash, i + at - start);
    }
  }

  lemma NextBit(page: seq<Byte>, base: nat, matches: nat, hash: Byte, at: nat, end: nat, next: nat, zeros: nat, i: nat)
    requires at <= next && Announces(page, base, matches, hash, at, end, next)
    requires Bit(matches, zeros)
    ensures Shr(matches, zeros) > 0
    ensures AnnouncedAt(page, base, Shr(matches, zeros) - 1, hash, at + zeros, end, at + zeros + 1, i)
  {
    ShiftBit(matches, zeros, 0);
    ClearsLowest(Shr(matches, zeros), i);
    ShiftBit(matches, zeros, i);
    assert AnnouncedAt(page, base, matches, hash, at, end, next, i + zeros);
    assert AnnouncedAt(page, base, matches, hash, at, end, next, zeros);
  }

  /** Where a mask has no bit the block has no hash. */
  lemma NoBitNoHash(page: seq<Byte>, base: nat, matches: nat, hash: Byte, at: nat, end: nat, next: nat, zeros: nat)
    requires at <= next && Announces(page, base, matches, hash, at, end, next)
    requires at + zeros <= end && forall i | 0 <= i < zeros :: !Bit(matches, i)
    ensures NoneHas(page, base, hash, next, at + zeros)
  {
    forall p: nat | next <= p < at + zeros ensures !HasHash(page, base, hash, p) {
      assert AnnouncedAt(page, base, matches, hash, at, end, next, p - at);
    }
  }

  /** Shifting the mask to its lowest bit and subtracting one moves on to the position after it; a mask
      without a bit is done with the block. */
  lemma MaskStep(page: seq<Byte>, base: nat, matches: nat, hash: Byte, at: nat, end: nat, next: nat, zeros: nat)
    requires at <= next <= at + 1 && at < end <= at + SIMD_WIDTH && Announces(page, base, matches, hash, at, end, next)
    requires zeros == CountTrailingZeros(matches, SIMD_WIDTH)
    ensures zeros == SIMD_WIDTH ==> NoneHas(page, base, hash, next, end)
    ensures zeros < SIMD_WIDTH ==> at + zeros < end && next <= at + zeros && HasHash(page, base, hash, at + zeros)
    ensures zeros < SIMD_WIDTH ==> NoneHas(page, base, hash, next, at + zeros) && Shr(matches, zeros) > 0
    ensures zeros < SIMD_WIDTH ==> Announces(page, base, Shr(matches, zeros) - 1, hash, at + zeros, end, at + zeros + 1)
  {
    TrailingZerosAre(matches, SIMD_WIDTH);
    if zeros == SIMD_WIDTH {
      NoBitNoHash(page, base, matches, hash, at, end, next, end - at);
    } else {
      assert AnnouncedAt(page, base, matches, hash, at, end, next, zeros);
      NoBitNoHash(page, base, matches, hash, at, end, next, zeros);
      NextBit(page, base, matches, hash, at, end, next, zeros, 0);
      var matches', at', next' := Shr(matches, zeros) - 1, at + zeros, at + zeros + 1;
      forall i: nat ensures AnnouncedAt(page, base, matches', hash, at', end, next', i) {
        NextBit(page, base, matches, hash, at, end, next, zeros, i);
      }
    }
  }

  /** No match among the first n. */
  ghost predicate NoneBefore(hashes: seq<Byte>, keys: seq<Key>, hash: Byte, key: Key, n: int)
    requires |hashes| == |keys|
  {
    forall i: nat | i < n :: !MatchAt(hashes, keys, hash, key, i)
  }

  /** Positions without the hash have no match. */
  lemma PassBy(page: seq<Byte>, base: nat, misalign: nat, keys: seq<Key>, hash: Byte, key: Key, next: nat, end: nat)
    requires misalign <= next && base + misalign + |keys| <= |page|
    requires NoneBefore(page[base + misalign..base + misalign + |keys|], keys, hash, key, next - misalign)
    requires NoneHas(page, base, hash, next, end)
    ensures NoneBefore(page[base + misalign..base + misalign + |keys|], keys, hash, key, end - misalign)
  {
    var hashes := page[base + misalign..base + misalign + |keys|];
    forall i: nat | i < end - misalign ensures !MatchAt(hashes, keys, hash, key, i) {
      if next - misalign <= i < |keys| {
        assert !HasHash(page, base, hash, misalign + i);
      }
    }
  }

  ghost predicate Aligned(n: nat) {
    n % SIMD_WIDTH == 0
  }

  /** Aligned blocks: rounding down finds the block, and the next one is inside what is aligned too. */
  lemma AlignDown(haystack: nat, shift: nat, size: nat)
    requires Aligned(haystack) && haystack <= shift < haystack + SIMD_WIDTH
    ensures shift - shift % SIMD_WIDTH == haystack && Aligned(haystack + SIMD_WIDTH)
    ensures Aligned(size) && haystack + SIMD_WIDTH < size ==> haystack + SIMD_WIDTH + SIMD_WIDTH <= size
  {
  }

  lemma AlignBase(hashOffset: nat, size: nat)
    requires Aligned(size) && hashOffset < size
    ensures Aligned(size - (hashOffset - hashOffset % SIMD_WIDTH))
    ensures hashOffset - hashOffset % SIMD_WIDTH + SIMD_WIDTH <= size
    ensures Aligned(0)
  {
  }

  /** The scan of the hash array at hashOffset of the page, a block of aligned bytes at a time. The first
      block starts before the array when that is not aligned; positions count from there. */
  method FindIndexSimd(page: seq<Byte>, hashOffset: nat, keys: seq<Key>, hash: Byte, key: Key) returns (index: int)
    requires Aligned(|page|) && hashOffset + |keys| <= |page| && hashOffset < |page|
    ensures FirstMatch(page[hashOffset..hashOffset + |keys|], keys, hash, key, index)
  {
    AlignBase(hashOffset, |page|);
    var misalign := hashOffset % SIMD_WIDTH;
    var base: nat := hashOffset - misalign;
    var haystack: nat := 0;
    var shift: nat := misalign;
    var matches: nat := Shr(EqMask(page[base..base + SIMD_WIDTH], hash), shift);
    BlockAnnounces(page, base, 0, hash, shift);
    var limit := shift + |keys|;
    ghost var next: nat := shift;
    while shift < limit
      invariant Aligned(haystack) && haystack <= shift < haystack + SIMD_WIDTH <= |page| - base
      invariant misalign <= shift <= next <= shift + 1
      invariant Announces(page, base, matches, hash, shift, haystack + SIMD_WIDTH, next)
      invariant NoneBefore(page[hashOffset..hashOffset + |keys|], keys, hash, key, next - misalign)
      decreases 2 * limit - shift - next
    {
      var zeros := CountTrailingZeros(matches, SIMD_WIDTH);
      MaskStep(page, base, matches, hash, shift, haystack + SIMD_WIDTH, next, zeros);
      if zeros == SIMD_WIDTH {
        AlignDown(haystack, shift, |page| - base);
        shift := shift - shift % SIMD_WIDTH + SIMD_WIDTH;
        PassBy(page, base, misalign, keys, hash, key, next, shift);
        if shift >= limit {
          return -1;
        }
        haystack := haystack + SIMD_WIDTH;
        matches := EqMask(page[base + haystack..base + haystack + SIMD_WIDTH], hash);
        BlockAnnounces(page, base, haystack, hash, shift);
        next := shift;
      } else {
        shift := shift + zeros;
        matches := Shr(matches, zeros) - 1;
        PassBy(page, base, misalign, keys, hash, key, next, shift);
        next := shift + 1;
        if shift >= limit {
          return -1;
        }
        var element := shift - misalign;
        if |keys[element]| == |key| && keys[element] == key {
          return element;
        }
      }
    }
    return -1;
  }
}
