/** kv_psort: quicksort that only goes where a target range is not in order yet. */
module PartialSort {
  import opened Hiding
  import opened Bytes

  /** A pointer to a key with its value. */
  datatype Kv = Kv(key: Key, value: seq<Byte>)

  function Compare(a: Kv, b: Kv): (c: int)
    ensures c < 0 <==> Less(a.key, b.key)
    ensures c > 0 <==> Less(b.key, a.key)
    ensures c == 0 <==> a.key == b.key
  {
    LessTotal(a.key, b.key);
    var c := Memcmp(a.key, b.key);
    if c != 0 then c else if |a.key| < |b.key| then -1 else if |a.key| > |b.key| then 1 else 0
  }

  ghost predicate AtMost(s: seq<Kv>, i: nat, j: nat) {
    i < |s| && j < |s| && LessEq(s[i].key, s[j].key)
  }

  /** s' holds the same elements as s, and those outside lo to hi in their old places. Unfolded only where PermutedNow
      is mentioned. */
  ghost predicate Permuted(s: seq<Kv>, s': seq<Kv>, lo: nat, hi: nat) {
    forall u: Unfold :: PermutedNow(u, s, s', lo, hi)
  }

  ghost predicate PermutedNow(u: Unfold, s: seq<Kv>, s': seq<Kv>, lo: nat, hi: nat) {
    && lo <= hi <= |s| == |s'| && s'[..lo] == s[..lo] && s'[hi..] == s[hi..]
    && multiset(s'[lo..hi]) == multiset(s[lo..hi])
  }

  lemma PermutedIs(s: seq<Kv>, s': seq<Kv>, lo: nat, hi: nat)
    ensures Permuted(s, s', lo, hi) <==> PermutedNow(Unfold, s, s', lo, hi)
  {
    forall u: Unfold ensures PermutedNow(Unfold, s, s', lo, hi) ==> PermutedNow(u, s, s', lo, hi) {}
  }

  lemma PermutedTrans(s: seq<Kv>, s': seq<Kv>, s'': seq<Kv>, lo: nat, hi: nat)
    requires Permuted(s, s', lo, hi) && Permuted(s', s'', lo, hi)
    ensures Permuted(s, s'', lo, hi)
  {
    PermutedIs(s, s', lo, hi);
    PermutedIs(s', s'', lo, hi);
    PermutedIs(s, s'', lo, hi);
  }

  /** A permutation of a part is one of the whole. */
  lemma PermutedWider(s: seq<Kv>, s': seq<Kv>, l: nat, h: nat, lo: nat, hi: nat)
    requires Permuted(s, s', l, h) && lo <= l && h <= hi <= |s|
    ensures Permuted(s, s', lo, hi)
  {
    PermutedIs(s, s', l, h);
    Parts(s, lo, l, h, hi);
    Parts(s', lo, l, h, hi);
    assert s'[..lo] == s'[..l][..lo] == s[..l][..lo] == s[..lo];
    assert s'[lo..l] == s'[..l][lo..] == s[..l][lo..] == s[lo..l];
    assert s'[h..hi] == s'[h..][..hi - h] == s[h..][..hi - h] == s[h..hi];
    assert s'[hi..] == s'[h..][hi - h..] == s[h..][hi - h..] == s[hi..];
    PermutedIs(s, s', lo, hi);
  }

  lemma Parts(s: seq<Kv>, lo: nat, l: nat, h: nat, hi: nat)
    requires lo <= l <= h <= hi <= |s|
    ensures multiset(s[lo..hi]) == multiset(s[lo..l]) + multiset(s[l..h]) + multiset(s[h..hi])
  {
    assert s[lo..hi] == s[lo..l] + s[l..h] + s[h..hi];
  }

  /** Every element of the part was in the part before. */
  lemma CameFrom(s: seq<Kv>, s': seq<Kv>, lo: nat, hi: nat, i: nat) returns (j: nat)
    requires Permuted(s, s', lo, hi) && lo <= i < hi
    ensures hi <= |s| == |s'| && lo <= j < hi && s[j] == s'[i]
  {
    PermutedIs(s, s', lo, hi);
    assert s'[i] == s'[lo..hi][i - lo];
    assert s'[i] in multiset(s'[lo..hi]);
    assert s'[i] in s[lo..hi];
    var k :| 0 <= k < hi - lo && s[lo..hi][k] == s'[i];
    j := lo + k;
  }

  lemma StaysPut(s: seq<Kv>, s': seq<Kv>, lo: nat, hi: nat, i: nat)
    requires Permuted(s, s', lo, hi) && i < |s| && (i < lo || hi <= i)
    ensures |s'| == |s| && s'[i] == s[i]
  {
    PermutedIs(s, s', lo, hi);
    if i < lo { assert s'[i] == s'[..lo][i] == s[..lo][i]; } else { assert s'[i] == s'[hi..][i - hi] == s[hi..][i - hi]; }
  }

  lemma SwapPermutes(s: seq<Kv>, i: nat, j: nat, lo: nat, hi: nat)
    requires lo <= i < hi <= |s| && lo <= j < hi
    ensures Permuted(s, s[i := s[j]][j := s[i]], lo, hi)
  {
    var s', p := s[i := s[j]][j := s[i]], s[lo..hi];
    assert s'[lo..hi] == p[i - lo := p[j - lo]][j - lo := p[i - lo]];
    assert s'[..lo] == s[..lo] && s'[hi..] == s[hi..];
    PermutedIs(s, s', lo, hi);
  }

  // ---- the partial order that is left ----

  /** Positions from lo to hi are in order with respect to those in the target range. */
  ghost predicate Settled(s: seq<Kv>, lo: nat, hi: nat, tlo: nat, thi: nat) {
    forall i: nat, j: nat | lo <= i < j < hi && (tlo <= i <= thi || tlo <= j <= thi) :: AtMost(s, i, j)
  }

  /** Everything before c is at most what is at c, everything after at least. */
  ghost predicate Partitioned(s: seq<Kv>, lo: nat, c: nat, hi: nat) {
    && lo <= c < hi <= |s|
    && (forall i: nat | lo <= i < c :: AtMost(s, i, c))
    && (forall i: nat | c < i < hi :: AtMost(s, c, i))
  }

  /** Sorting on either side of a pivot keeps the partition. */
  lemma PartitionKept(s: seq<Kv>, s': seq<Kv>, lo: nat, c: nat, hi: nat, l: nat, h: nat)
    requires Partitioned(s, lo, c, hi) && Permuted(s, s', l, h) && lo <= l && h <= hi && (h <= c || c < l)
    ensures Partitioned(s', lo, c, hi)
  {
    StaysPut(s, s', l, h, c);
    forall i: nat | lo <= i < hi && i != c ensures if i < c then AtMost(s', i, c) else AtMost(s', c, i) {
      var j := i;
      if l <= i < h { j := CameFrom(s, s', l, h, i); } else { StaysPut(s, s', l, h, i); }
      assert if j < c then AtMost(s, j, c) else AtMost(s, c, j);
    }
  }

  /** Once both sides are settled, the whole is. */
  lemma SidesSettled(s: seq<Kv>, lo: nat, c: nat, hi: nat, tlo: nat, thi: nat)
    requires Partitioned(s, lo, c, hi)
    requires c <= tlo || Settled(s, lo, c, tlo, thi)
    requires c >= thi || Settled(s, c + 1, hi, tlo, thi)
    ensures Settled(s, lo, hi, tlo, thi)
  {
    forall i: nat, j: nat | lo <= i < j < hi && (tlo <= i <= thi || tlo <= j <= thi) ensures AtMost(s, i, j) {
      if i < c < j {
        assert AtMost(s, i, c) && AtMost(s, c, j);
        LessEqTrans(s[i].key, s[c].key, s[j].key);
      }
    }
  }

  /** What happens on one side does not unsettle the other. */
  lemma SettledKept(s: seq<Kv>, s': seq<Kv>, lo: nat, hi: nat, l: nat, h: nat, tlo: nat, thi: nat)
    requires Settled(s, lo, hi, tlo, thi) && Permuted(s, s', l, h) && hi <= l && hi <= |s|
    ensures Settled(s', lo, hi, tlo, thi)
  {
    forall i: nat, j: nat | lo <= i < j < hi && (tlo <= i <= thi || tlo <= j <= thi) ensures AtMost(s', i, j) {
      assert AtMost(s, i, j);
      StaysPut(s, s', l, h, i);
      StaysPut(s, s', l, h, j);
    }
  }

  // ---- the algorithm ----

  method Exchange(kvs: array<Kv>, i: nat, j: nat, ghost lo: nat, ghost hi: nat)
    requires lo <= i < hi <= kvs.Length && lo <= j < hi
    modifies kvs
    ensures kvs[..] == old(kvs[..])[i := old(kvs[j])][j := old(kvs[i])] && Permuted(old(kvs[..]), kvs[..], lo, hi)
  {
    SwapPermutes(kvs[..], i, j, lo, hi);
    if i != j {
      var tmp := kvs[i];
      kvs[i] := kvs[j];
      kvs[j] := tmp;
    }
    assert kvs[..] == old(kvs[..])[i := old(kvs[j])][j := old(kvs[i])];
  }

  /** The next element from the left that is not below the pivot; it stops at hi in any case. */
  method ScanUp(kvs: array<Kv>, lo: nat, hi: nat, from: nat) returns (i: nat)
    requires lo <= from < hi < kvs.Length
    ensures from < i <= hi && (i == hi || !Less(kvs[i].key, kvs[lo].key))
    ensures forall k | from < k < i :: Less(kvs[k].key, kvs[lo].key)
  {
    i := from + 1;
    while Compare(kvs[i], kvs[lo]) < 0 && i < hi
      invariant from < i <= hi && forall k | from < k < i :: Less(kvs[k].key, kvs[lo].key)
      decreases hi - i
    {
      i := i + 1;
    }
  }

  /** The next element from the right that is not above the pivot; the pivot itself stops the search. */
  method ScanDown(kvs: array<Kv>, lo: nat, from: nat) returns (j: nat)
    requires lo < from <= kvs.Length
    ensures lo <= j < from && LessEq(kvs[j].key, kvs[lo].key)
    ensures forall k | j < k < from :: Less(kvs[lo].key, kvs[k].key)
  {
    j := from - 1;
    while Compare(kvs[j], kvs[lo]) > 0
      invariant lo <= j < from && forall k | j < k < from :: Less(kvs[lo].key, kvs[k].key)
      decreases j
    {
      LessTotal(kvs[lo].key, kvs[lo].key);
      j := j - 1;
    }
    LessTotal(kvs[j].key, kvs[lo].key);
  }

  /** While partitioning: the pivot is at lo, everything up to i is at most the pivot, everything from j on at least. */
  ghost predicate Parting(s: seq<Kv>, lo: nat, hi: nat, i: nat, j: nat) {
    && lo <= i < j <= hi + 1 <= |s| && i < hi
    && (forall k: nat | lo < k <= i :: AtMost(s, k, lo))
    && (forall k: nat | j <= k <= hi :: AtMost(s, lo, k))
  }

  lemma ExchangeParts(s: seq<Kv>, s': seq<Kv>, lo: nat, hi: nat, i0: nat, j0: nat, i: nat, j: nat)
    requires Parting(s, lo, hi, i0, j0) && i0 < i < j < j0 && s' == s[i := s[j]][j := s[i]]
    requires (forall k | i0 < k < i :: Less(s[k].key, s[lo].key)) && !Less(s[i].key, s[lo].key)
    requires (forall k | j < k < j0 :: Less(s[lo].key, s[k].key)) && LessEq(s[j].key, s[lo].key)
    ensures Parting(s', lo, hi, i, j)
  {
    LessTotal(s[i].key, s[lo].key);
    forall k: nat | lo < k <= i ensures AtMost(s', k, lo) {
      if k <= i0 { assert AtMost(s, k, lo); }
    }
    forall k: nat | j <= k <= hi ensures AtMost(s', lo, k) {
      if k >= j0 { assert AtMost(s, lo, k); }
    }
  }

  lemma PivotPlaced(s: seq<Kv>, s': seq<Kv>, lo: nat, hi: nat, i0: nat, j0: nat, i: nat, j: nat)
    requires Parting(s, lo, hi, i0, j0) && i0 < i <= hi && lo <= j < j0 && j <= i && s' == s[lo := s[j]][j := s[lo]]
    requires forall k | i0 < k < i :: Less(s[k].key, s[lo].key)
    requires (forall k | j < k < j0 :: Less(s[lo].key, s[k].key)) && LessEq(s[j].key, s[lo].key)
    ensures Partitioned(s', lo, j, hi + 1)
  {
    forall k: nat | lo <= k < j ensures AtMost(s', k, j) {
      if lo < k <= i0 { assert AtMost(s, k, lo); }
    }
    forall k: nat | j < k < hi + 1 ensures AtMost(s', j, k) {
      if k >= j0 { assert AtMost(s, lo, k); }
    }
  }

  /** Puts a pivot in its place: smaller elements before it, larger ones behind. */
  method Partition(kvs: array<Kv>, lo: nat, hi: nat) returns (c: nat)
    requires lo < hi < kvs.Length
    modifies kvs
    ensures Permuted(old(kvs[..]), kvs[..], lo, hi + 1) && Partitioned(kvs[..], lo, c, hi + 1)
  {
    ghost var s0 := kvs[..];
    Exchange(kvs, lo, (lo + hi) / 2, lo, hi + 1);
    var i: nat, j: nat := lo, hi + 1;
    var met := false;
    while !met
      invariant Permuted(s0, kvs[..], lo, hi + 1)
      invariant if met then Partitioned(kvs[..], lo, j, hi + 1) else Parting(kvs[..], lo, hi, i, j)
      decreases j, !met
    {
      ghost var s := kvs[..];
      met, i, j := NextExchange(kvs, lo, hi, i, j);
      PermutedTrans(s0, s, kvs[..], lo, hi + 1);
    }
    c := j;
  }

  /** Both scans, and the exchange of what they found; once they meet, the pivot goes where they did. */
  method NextExchange(kvs: array<Kv>, lo: nat, hi: nat, i0: nat, j0: nat) returns (met: bool, i: nat, j: nat)
    requires hi < kvs.Length && Parting(kvs[..], lo, hi, i0, j0)
    modifies kvs
    ensures Permuted(old(kvs[..]), kvs[..], lo, hi + 1) && j < j0
    ensures if met then Partitioned(kvs[..], lo, j, hi + 1) else Parting(kvs[..], lo, hi, i, j)
  {
    i := ScanUp(kvs, lo, hi, i0);
    j := ScanDown(kvs, lo, j0);
    met := i >= j;
    if met {
      PlacePivot(kvs, lo, hi, i0, j0, i, j);
    } else {
      ExchangePair(kvs, lo, hi, i0, j0, i, j);
    }
  }

  /** Where the scans have stopped. */
  ghost predicate Scanned(s: seq<Kv>, lo: nat, hi: nat, i0: nat, j0: nat, i: nat, j: nat) {
    && i0 < i <= hi < |s| && lo <= j < j0 <= |s| && (i == hi || !Less(s[i].key, s[lo].key)) && LessEq(s[j].key, s[lo].key)
    && (forall k | i0 < k < i :: Less(s[k].key, s[lo].key))
    && (forall k | j < k < j0 :: Less(s[lo].key, s[k].key))
  }

  method PlacePivot(kvs: array<Kv>, lo: nat, hi: nat, ghost i0: nat, ghost j0: nat, ghost i: nat, j: nat)
    requires hi < kvs.Length && Parting(kvs[..], lo, hi, i0, j0) && Scanned(kvs[..], lo, hi, i0, j0, i, j) && j <= i
    modifies kvs
    ensures Permuted(old(kvs[..]), kvs[..], lo, hi + 1) && Partitioned(kvs[..], lo, j, hi + 1)
  {
    ghost var s := kvs[..];
    Exchange(kvs, lo, j, lo, hi + 1);
    PivotPlaced(s, kvs[..], lo, hi, i0, j0, i, j);
  }

  method ExchangePair(kvs: array<Kv>, lo: nat, hi: nat, ghost i0: nat, ghost j0: nat, i: nat, j: nat)
    requires hi < kvs.Length && Parting(kvs[..], lo, hi, i0, j0) && Scanned(kvs[..], lo, hi, i0, j0, i, j) && i < j
    modifies kvs
    ensures Permuted(old(kvs[..]), kvs[..], lo, hi + 1) && Parting(kvs[..], lo, hi, i, j)
  {
    ghost var s := kvs[..];
    Exchange(kvs, i, j, lo, hi + 1);
    ExchangeParts(s, kvs[..], lo, hi, i0, j0, i, j);
  }

  /** kv_psort_rec: sorts from lo to hi as far as the target range is concerned. */
  method SortRange(kvs: array<Kv>, lo: nat, hi: int, tlo: nat, thi: nat)
    requires hi < kvs.Length && lo <= hi + 1
    modifies kvs
    ensures Permuted(old(kvs[..]), kvs[..], lo, hi + 1) && Settled(kvs[..], lo, hi + 1, tlo, thi)
    decreases hi + 1 - lo, 1
  {
    if lo >= hi {
      PermutedIs(kvs[..], kvs[..], lo, hi + 1);
      return;
    }
    ghost var s0 := kvs[..];
    var c := Partition(kvs, lo, hi);
    ghost var s1 := kvs[..];
    SortLeft(kvs, lo, c, hi, tlo, thi);
    PermutedTrans(s0, s1, kvs[..], lo, hi + 1);
    ghost var s2 := kvs[..];
    SortRight(kvs, lo, c, hi, tlo, thi);
    PermutedTrans(s0, s2, kvs[..], lo, hi + 1);
    SidesSettled(kvs[..], lo, c, hi + 1, tlo, thi);
  }

  /** Before the pivot, if the target range begins there. */
  method SortLeft(kvs: array<Kv>, lo: nat, c: nat, hi: nat, tlo: nat, thi: nat)
    requires hi < kvs.Length && Partitioned(kvs[..], lo, c, hi + 1)
    modifies kvs
    ensures Permuted(old(kvs[..]), kvs[..], lo, hi + 1) && Partitioned(kvs[..], lo, c, hi + 1)
    ensures c <= tlo || Settled(kvs[..], lo, c, tlo, thi)
    decreases hi + 1 - lo, 0
  {
    ghost var s := kvs[..];
    if c > tlo {
      SortRange(kvs, lo, c - 1, tlo, thi);
      SideDone(s, kvs[..], lo, c, hi + 1, lo, c);
    } else {
      PermutedIs(s, s, lo, hi + 1);
    }
  }

  /** Behind the pivot, if the target range ends there. */
  method SortRight(kvs: array<Kv>, lo: nat, c: nat, hi: nat, tlo: nat, thi: nat)
    requires hi < kvs.Length && Partitioned(kvs[..], lo, c, hi + 1) && (c <= tlo || Settled(kvs[..], lo, c, tlo, thi))
    modifies kvs
    ensures Permuted(old(kvs[..]), kvs[..], lo, hi + 1) && Partitioned(kvs[..], lo, c, hi + 1)
    ensures (c <= tlo || Settled(kvs[..], lo, c, tlo, thi)) && (c >= thi || Settled(kvs[..], c + 1, hi + 1, tlo, thi))
    decreases hi + 1 - lo, 0
  {
    ghost var s := kvs[..];
    if c < thi {
      SortRange(kvs, c + 1, hi, tlo, thi);
      SideDone(s, kvs[..], lo, c, hi + 1, c + 1, hi + 1);
      if c > tlo { SettledKept(s, kvs[..], lo, c, c + 1, hi + 1, tlo, thi); }
    } else {
      PermutedIs(s, s, lo, hi + 1);
    }
  }

  /** Sorting one side permutes the whole range and keeps the partition. */
  lemma SideDone(s: seq<Kv>, s': seq<Kv>, lo: nat, c: nat, hi: nat, l: nat, h: nat)
    requires Partitioned(s, lo, c, hi) && Permuted(s, s', l, h) && lo <= l && h <= hi && (h <= c || c < l)
    ensures Partitioned(s', lo, c, hi) && Permuted(s, s', lo, hi)
  {
    PartitionKept(s, s', lo, c, hi, l, h);
    PermutedWider(s, s', l, h, lo, hi);
  }

  // ---- against a full sort ----

  ghost predicate FullySorted(s: seq<Kv>) {
    forall i: nat, j: nat | i < j < |s| :: AtMost(s, i, j)
  }

  /** How many elements are below a key, or at most it. */
  ghost predicate Counts(e: Kv, k: Key, orEqual: bool) {
    if orEqual then LessEq(e.key, k) else Less(e.key, k)
  }

  ghost function Count(s: seq<Kv>, k: Key, orEqual: bool): nat {
    if s == [] then 0 else Count(s[1..], k, orEqual) + if Counts(s[0], k, orEqual) then 1 else 0
  }

  lemma {:induction false} CountWithout(s: seq<Kv>, i: nat, k: Key, orEqual: bool)
    requires i < |s|
    ensures Count(s, k, orEqual) == Count(s[..i] + s[i + 1..], k, orEqual) + if Counts(s[i], k, orEqual) then 1 else 0
  {
    if i == 0 {
      assert s[..0] + s[1..] == s[1..];
    } else {
      CountWithout(s[1..], i - 1, k, orEqual);
      assert (s[..i] + s[i + 1..])[1..] == s[1..][..i - 1] + s[1..][i..];
    }
  }

  lemma RestsAgree(s: seq<Kv>, r: seq<Kv>, i: nat)
    requires s != [] && i < |r| && r[i] == s[0] && multiset(s) == multiset(r)
    ensures multiset(s[1..]) == multiset(r[..i] + r[i + 1..])
  {
    var rest := r[..i] + r[i + 1..];
    assert multiset(s) == multiset{s[0]} + multiset(s[1..]) by { assert s == [s[0]] + s[1..]; }
    assert multiset(r) == multiset{r[i]} + multiset(rest) by { assert r == r[..i] + [r[i]] + r[i + 1..]; }
    assert multiset(s[1..]) == multiset(s) - multiset{s[0]} && multiset(rest) == multiset(r) - multiset{r[i]};
  }

  /** The count does not depend on the order. */
  lemma {:induction false} CountPermuted(s: seq<Kv>, r: seq<Kv>, k: Key, orEqual: bool)
    requires multiset(s) == multiset(r)
    ensures Count(s, k, orEqual) == Count(r, k, orEqual)
    decreases |s|
  {
    if s == [] {
      assert |multiset(r)| == 0;
    } else {
      assert s[0] in multiset(r);
      var i :| 0 <= i < |r| && r[i] == s[0];
      CountWithout(r, i, k, orEqual);
      RestsAgree(s, r, i);
      CountPermuted(s[1..], r[..i] + r[i + 1..], k, orEqual);
    }
  }

  /** At least n elements count when the first n do; at most n when none from n on does. */
  lemma {:induction false} CountBounds(s: seq<Kv>, n: nat, k: Key, orEqual: bool)
    requires n <= |s|
    ensures (forall i | 0 <= i < n :: Counts(s[i], k, orEqual)) ==> Count(s, k, orEqual) >= n
    ensures (forall i | n <= i < |s| :: !Counts(s[i], k, orEqual)) ==> Count(s, k, orEqual) <= n
  {
    if s != [] {
      if n > 0 {
        CountBounds(s[1..], n - 1, k, orEqual);
        assert (forall i | 0 <= i < n :: Counts(s[i], k, orEqual)) ==> forall i | 0 <= i < n - 1 :: Counts(s[1..][i], k, orEqual);
        assert (forall i | n <= i < |s| :: !Counts(s[i], k, orEqual)) ==> forall i | n - 1 <= i < |s[1..]| :: !Counts(s[1..][i], k, orEqual);
      } else {
        CountBounds(s[1..], 0, k, orEqual);
        assert (forall i | 0 <= i < |s| :: !Counts(s[i], k, orEqual)) ==> forall i | 0 <= i < |s[1..]| :: !Counts(s[1..][i], k, orEqual);
      }
    }
  }

  /** Two arrangements of the same elements that are both in order around a position have equal keys there. */
  lemma KeyNotAbove(s: seq<Kv>, r: seq<Kv>, p: nat)
    requires multiset(s) == multiset(r) && p < |s| && p < |r|
    requires (forall i: nat | i < p :: AtMost(s, i, p)) && forall j: nat | p < j < |r| :: AtMost(r, p, j)
    ensures LessEq(r[p].key, s[p].key)
  {
    var k := s[p].key;
    LessTotal(r[p].key, k);
    if Less(k, r[p].key) {
      forall i | 0 <= i < p + 1 ensures Counts(s[i], k, true) { if i < p { assert AtMost(s, i, p); } }
      CountBounds(s, p + 1, k, true);
      forall j | p <= j < |r| ensures !Counts(r[j], k, true) {
        if j > p { assert AtMost(r, p, j); }
        LessEqTrans(k, r[p].key, r[j].key);
        LessTotal(k, r[j].key);
      }
      CountBounds(r, p, k, true);
      CountPermuted(s, r, k, true);
    }
  }

  /** In the target range stand exactly the keys a full sort would put there. */
  lemma SettledIsSorted(s: seq<Kv>, r: seq<Kv>, tlo: nat, thi: nat, p: nat)
    requires multiset(s) == multiset(r) && |s| == |r| && FullySorted(r) && Settled(s, 0, |s|, tlo, thi) && tlo <= p <= thi < |s|
    ensures s[p].key == r[p].key
  {
    assert forall i: nat | i < p :: AtMost(s, i, p) && AtMost(r, i, p);
    assert forall j: nat | p < j < |s| :: AtMost(s, p, j) && AtMost(r, p, j);
    KeyNotAbove(s, r, p);
    KeyNotAbove(r, s, p);
    LessTotal(s[p].key, r[p].key);
  }

  ghost predicate SameKeys(s: seq<Kv>, r: seq<Kv>, tlo: nat, thi: nat) {
    tlo <= thi < |s| == |r| && forall p | tlo <= p <= thi :: s[p].key == r[p].key
  }

  /** Every full sort of the elements has the same keys in the target range. */
  ghost predicate AsSorted(s: seq<Kv>, was: seq<Kv>, tlo: nat, thi: nat) {
    forall r: seq<Kv> | FullySorted(r) && multiset(r) == multiset(was) :: SameKeys(s, r, tlo, thi)
  }

  lemma SettledAsSorted(s: seq<Kv>, was: seq<Kv>, tlo: nat, thi: nat)
    requires multiset(s) == multiset(was) && |s| == |was| && Settled(s, 0, |s|, tlo, thi) && tlo <= thi < |s|
    ensures AsSorted(s, was, tlo, thi)
  {
    forall r: seq<Kv> | FullySorted(r) && multiset(r) == multiset(was) ensures SameKeys(s, r, tlo, thi) {
      assert |multiset(r)| == |r| && |multiset(was)| == |was|;
      forall p | tlo <= p <= thi ensures s[p].key == r[p].key {
        SettledIsSorted(s, r, tlo, thi, p);
      }
    }
  }

  /** kv_psort: permutes the pointers so that the target range holds what a full sort would put there. */
  method Sort(kvs: array<Kv>, nr: nat, tlo: nat, thi: nat)
    requires tlo <= thi < nr <= kvs.Length
    modifies kvs
    ensures Permuted(old(kvs[..]), kvs[..], 0, nr) && Settled(kvs[..], 0, nr, tlo, thi)
    ensures AsSorted(kvs[..nr], old(kvs[..nr]), tlo, thi)
  {
    SortRange(kvs, 0, nr - 1, tlo, thi);
    ghost var s, was := kvs[..nr], old(kvs[..nr]);
    PermutedIs(old(kvs[..]), kvs[..], 0, nr);
    assert s == kvs[..][0..nr] && was == old(kvs[..])[0..nr];
    forall i: nat, j: nat | 0 <= i < j < nr && (tlo <= i <= thi || tlo <= j <= thi) ensures AtMost(s, i, j) {
      assert AtMost(kvs[..], i, j);
    }
    SettledAsSorted(s, was, tlo, thi);
  }
}
