/** Keys of one length as array indices: the last four bytes as a number, 32 bits wide. */
module DenseKeys {
  import opened Hiding
  import opened Bytes
  import opened Layout
  import opened Nodes
  import opened BigEndian

  /** sizeof(NumericPart) */
  const NUMERIC_BYTES := 4

  const TWO_TO_THE_32 := 0x1_0000_0000

  /** A sum or difference in 32 bits. */
  function Word32(x: int): nat {
    x % TWO_TO_THE_32
  }

  function NumericPartLen(fullKeyLen: nat): nat {
    if fullKeyLen < NUMERIC_BYTES then fullKeyLen else NUMERIC_BYTES
  }

  function NumericPrefixLength(fullKeyLen: nat): nat {
    fullKeyLen - NumericPartLen(fullKeyLen)
  }

  /** The bytes all keys of the array share: a key's, filled up with zeros. */
  function NumericPrefix(key: Key, fullKeyLen: nat): Key {
    Pad(key, fullKeyLen)[..NumericPrefixLength(fullKeyLen)]
  }

  /** n is the number in the last four of fullKeyLen bytes of a key, cut off or filled up with zeros. Unfolded only
      where NumberNow is mentioned. */
  ghost predicate HasNumber(key: Key, fullKeyLen: nat, n: nat) {
    forall u: Unfold :: NumberNow(u, key, fullKeyLen, n)
  }

  ghost predicate NumberNow(u: Unfold, key: Key, fullKeyLen: nat, n: nat) {
    n == Big(Pad(key, fullKeyLen)[NumericPrefixLength(fullKeyLen)..])
  }

  ghost function Numeric(key: Key, fullKeyLen: nat): (n: nat)
    ensures HasNumber(key, fullKeyLen, n)
  {
    assert HasNumber(key, fullKeyLen, Big(Pad(key, fullKeyLen)[NumericPrefixLength(fullKeyLen)..]));
    var n: nat :| HasNumber(key, fullKeyLen, n);
    n
  }

  lemma NumericIs(key: Key, fullKeyLen: nat)
    ensures Numeric(key, fullKeyLen) == Big(Pad(key, fullKeyLen)[NumericPrefixLength(fullKeyLen)..])
  {
    assert NumberNow(Unfold, key, fullKeyLen, Numeric(key, fullKeyLen));
  }

  // ---- big-endian numbers ----

  lemma {:induction false} BigOfBytes(n: nat, x: nat)
    ensures Pow256(n) > 0 && Big(BigBytes(n, x)) == x % Pow256(n)
  {
    if n > 0 {
      BigOfBytes(n - 1, x / 256);
      assert BigBytes(n, x)[..n - 1] == BigBytes(n - 1, x / 256);
      LastDigit(x, Pow256(n - 1));
    }
  }

  lemma LastDigit(x: nat, p: nat)
    requires p > 0
    ensures 256 * p > 0 && x % (256 * p) == x / 256 % p * 256 + x % 256
  {
    var y := x / 256;
    var q, r := y / p, y % p;
    assert y == p * q + r;
    assert x == 256 * p * q + (r * 256 + x % 256) by {
      assert x == 256 * y + x % 256;
      assert 256 * (p * q + r) == 256 * (p * q) + 256 * r;
      assert 256 * (p * q) == 256 * p * q;
    }
    ModuloIs(x, 256 * p, q, r * 256 + x % 256);
  }

  lemma ModuloIs(x: nat, d: nat, q: nat, r: nat)
    requires r < d && x == d * q + r
    ensures x % d == r
  {
    var q', r' := x / d, x % d;
    assert x == d * q' + r';
    MulMonotone(d, q' + 1, q);
    MulMonotone(d, q + 1, q');
    assert d * (q' + 1) == d * q' + d && d * (q + 1) == d * q + d;
  }

  /** Reducing by a multiple first changes nothing. */
  lemma ModuloTwice(x: nat, d: nat, m: nat)
    requires d > 0 && m > 0
    ensures d * m > 0 && x % (d * m) % d == x % d
  {
    MulMonotone(d, 1, m);
    var q, r := Divided(x, d * m);
    var q', r' := Divided(r, d);
    TwoSteps(x, d, m, q, r, q', r');
    ModuloIs(x, d, m * q + q', r');
  }

  lemma Divided(x: nat, d: nat) returns (q: nat, r: nat)
    requires d > 0
    ensures x == d * q + r && r == x % d < d
  {
    q, r := x / d, x % d;
  }

  lemma TwoSteps(x: nat, d: nat, m: nat, q: nat, r: nat, q': nat, r': nat)
    requires x == d * m * q + r && r == d * q' + r'
    ensures x == d * (m * q + q') + r'
  {
    assert d * (m * q + q') == d * (m * q) + d * q';
    assert d * (m * q) == d * m * q;
  }

  lemma {:induction false} LastOfLast(m: nat, n: nat, x: nat)
    requires n <= m
    ensures BigBytes(m, x)[m - n..] == BigBytes(n, x)
  {
    if n > 0 {
      LastOfLast(m - 1, n - 1, x / 256);
      assert BigBytes(m, x)[m - n..] == BigBytes(m - 1, x / 256)[(m - 1) - (n - 1)..] + [x % 256];
    }
  }

  // ---- getNumericPart ----

  /** The last four bytes of a key as a number, fewer if it is shorter. */
  function Tail(key: Key): Key {
    if |key| < 4 then key else key[|key| - 4..]
  }

  /** x << 8 * bytes in 32 bits, for less than 32 bits */
  function ShiftLeft(x: nat, bytes: nat): nat {
    match bytes
    case 0 => x % TWO_TO_THE_32
    case 1 => x * 0x100 % TWO_TO_THE_32
    case 2 => x * 0x1_0000 % TWO_TO_THE_32
    case _ => x * 0x100_0000 % TWO_TO_THE_32
  }

  lemma ShiftLeftIs(x: nat, bytes: nat)
    requires bytes < 4
    ensures ShiftLeft(x, bytes) == x * Pow256(bytes) % TWO_TO_THE_32
  {
    assert Pow256(1) == 0x100;
    assert Pow256(2) == 0x1_0000;
    assert Pow256(3) == 0x100_0000;
  }

  /** The bytes loaded, by length: at most the last four, the first the most significant. */
  function LoadTail(key: Key): nat {
    var k: seq<int> := key;
    match |k|
    case 0 => 0
    case 1 => k[0]
    case 2 => k[0] * 0x100 + k[1]
    case 3 => (k[0] * 0x100 + k[1]) * 0x100 + k[2]
    case n => ((k[n - 4] * 0x100 + k[n - 3]) * 0x100 + k[n - 2]) * 0x100 + k[n - 1]
  }

  /** DenseNode::getNumericPart */
  function GetNumericPart(key: Key, targetLength: nat): nat {
    var cut := if |key| > targetLength then key[..targetLength] else key;
    if |cut| + NUMERIC_BYTES <= targetLength then 0 else ShiftLeft(LoadTail(cut), targetLength - |cut|)
  }

  lemma LoadTailIs(key: Key)
    ensures LoadTail(key) == Big(Tail(key))
  {
    var t := Tail(key);
    var b: seq<int> := t;
    assert t == t[..|t|];
    if |t| > 0 { assert Big(t[..1]) == b[0] by { assert t[..1][..0] == []; } }
    if |t| > 1 { assert Big(t[..2]) == b[0] * 0x100 + b[1] by { assert t[..2][..1] == t[..1]; } }
    if |t| > 2 { assert Big(t[..3]) == (b[0] * 0x100 + b[1]) * 0x100 + b[2] by { assert t[..3][..2] == t[..2]; } }
    if |t| > 3 { assert Big(t[..4]) == ((b[0] * 0x100 + b[1]) * 0x100 + b[2]) * 0x100 + b[3] by { assert t[..4][..3] == t[..3]; } }
  }

  /** The last four bytes of a big-endian number are its value modulo 2 to the 32. */
  lemma LastFour(t: seq<Byte>)
    ensures Big(t) % TWO_TO_THE_32 == Big(if |t| < 4 then t else t[|t| - 4..])
  {
    assert Pow256(4) == TWO_TO_THE_32;
    if |t| < 4 {
      BigBound(t);
      Pow256Monotone(|t|, 4);
    } else {
      var hi, lo := t[..|t| - 4], t[|t| - 4..];
      assert t == hi + lo;
      BigSum(hi, lo);
      BigBound(lo);
    }
  }

  /** The shifted number is that of the last four bytes of the padded key. */
  lemma ShiftedTail(k: Key, d: nat)
    requires d < 4
    ensures var t := Tail(k) + Zeros(d);
      ShiftLeft(Big(Tail(k)), d) == Big(if |t| < 4 then t else t[|t| - 4..])
  {
    var t := Tail(k) + Zeros(d);
    BigSum(Tail(k), Zeros(d));
    BigZeros(d);
    ShiftLeftIs(Big(Tail(k)), d);
    LastFour(t);
  }

  lemma {:induction false} Pow256Monotone(m: nat, n: nat)
    requires m <= n
    ensures 0 < Pow256(m) <= Pow256(n)
    decreases n
  {
    if m < n {
      Pow256Monotone(m, n - 1);
    } else if m > 0 {
      Pow256Monotone(m - 1, m - 1);
    }
  }

  lemma PaddedTail(key: Key, targetLength: nat)
    ensures var cut := if |key| > targetLength then key[..targetLength] else key;
            var d := targetLength - |cut|;
            var last := Pad(key, targetLength)[NumericPrefixLength(targetLength)..];
      && (d >= 4 ==> last == Zeros(4))
      && (d < 4 ==> var t := Tail(cut) + Zeros(d); last == if |t| < 4 then t else t[|t| - 4..])
  {
    var cut := if |key| > targetLength then key[..targetLength] else key;
    assert Pad(key, targetLength) == cut + Zeros(targetLength - |cut|);
  }

  /** getNumericPart, with its cases and its shift in 32 bits, reads the last four bytes of the padded key. */
  lemma GetNumericPartIs(key: Key, targetLength: nat)
    ensures GetNumericPart(key, targetLength) == Numeric(key, targetLength) < TWO_TO_THE_32
  {
    NumericIs(key, targetLength);
    if |key| + NUMERIC_BYTES <= targetLength {
      PaddedTail(key, targetLength);
      BigZeros(4);
    } else {
      LoadedPart(key, targetLength);
    }
  }

  lemma LoadedPart(key: Key, targetLength: nat)
    requires |key| + NUMERIC_BYTES > targetLength
    ensures GetNumericPart(key, targetLength) == Big(Pad(key, targetLength)[NumericPrefixLength(targetLength)..]) < TWO_TO_THE_32
  {
    var cut := if |key| > targetLength then key[..targetLength] else key;
    PaddedTail(key, targetLength);
    LoadTailIs(cut);
    ShiftedTail(cut, targetLength - |cut|);
  }

  // ---- order ----

  /** A key of the full length is its numeric prefix followed by its number. */
  lemma KeyParts(k: Key)
    ensures NumericPrefix(k, |k|) == k[..NumericPrefixLength(|k|)] && Numeric(k, |k|) == Big(k[NumericPrefixLength(|k|)..])
    ensures Numeric(k, |k|) < Pow256(NumericPartLen(|k|))
  {
    NumericIs(k, |k|);
    assert Pad(k, |k|) == k;
    BigBound(k[NumericPrefixLength(|k|)..]);
  }

  /** Two byte strings of the full length with one numeric prefix compare like their numbers. */
  lemma NumericOrder(a: Key, b: Key)
    requires |a| == |b| && a[..NumericPrefixLength(|a|)] == b[..NumericPrefixLength(|a|)]
    ensures Less(a, b) <==> Numeric(a, |a|) < Numeric(b, |a|)
    ensures a == b <==> Numeric(a, |a|) == Numeric(b, |a|)
  {
    var n := NumericPrefixLength(|a|);
    KeyParts(a);
    KeyParts(b);
    BigOrder(a[n..], b[n..]);
    PrefixShift(a[..n], a[n..], b[n..]);
    assert a == a[..n] + a[n..] && b == b[..n] + b[n..];
  }

  /** Filling a shorter string up with zeros gives the least string of the full length above it. */
  lemma PaddedLess(s: Key, k: Key)
    requires |s| < |k|
    ensures Less(s, k) <==> LessEq(Pad(s, |k|), k)
  {
    var c := CommonPrefix(s, k);
    assert Pad(k, |k|) == k;
    if c < |s| {
      PadBytes(s, |k|);
      assert Pad(s, |k|)[..c] == s[..c] == k[..c] && Pad(s, |k|)[c] == s[c];
      CommonPrefixIs(Pad(s, |k|), k, c);
    } else {
      assert s == s[..c] && s <= k;
      PadPrefix(s, k, |k|);
    }
  }

  /** Cutting a string that is at least as long off keeps the order, except that what it becomes equal to was less. */
  lemma CutLess(s: Key, k: Key)
    requires |s| >= |k|
    ensures Less(s, k) <==> Less(s[..|k|], k)
  {
    var t := s[..|k|];
    var c := CommonPrefix(t, k);
    assert t[..c] == s[..c];
    if c < |k| {
      CommonPrefixIs(s, k, c);
    } else {
      assert t == k[..c] == k;
      LessTotal(t, k);
      PrefixLess(s, |k|);
      LessTotal(s, k);
    }
  }

  /** The least number of a key of the full length above a key. */
  function LeastNumber(key: Key, targetLength: nat): nat {
    GetNumericPart(key, targetLength) + if |key| >= targetLength then 1 else 0
  }

  /** DenseNode::leastGreaterKey: that number in 32 bits. */
  function LeastGreaterKey(key: Key, targetLength: nat): nat {
    Word32(LeastNumber(key, targetLength))
  }

  /** The assertion of leastGreaterKey fails. */
  predicate SumWraps(key: Key, targetLength: nat) {
    GetNumericPart(key, targetLength) == TWO_TO_THE_32 - 1
  }

  /** Then the key is as long as the array's keys or longer, and the sum wraps to 0; otherwise it does not wrap. */
  lemma OverflowIs(key: Key, targetLength: nat)
    ensures LeastNumber(key, targetLength) <= TWO_TO_THE_32
    ensures SumWraps(key, targetLength) <==> LeastNumber(key, targetLength) == TWO_TO_THE_32
    ensures LeastGreaterKey(key, targetLength) == if SumWraps(key, targetLength) then 0 else LeastNumber(key, targetLength)
    ensures SumWraps(key, targetLength) ==> |key| >= targetLength
  {
    GetNumericPartIs(key, targetLength);
    if |key| < targetLength && targetLength < |key| + 4 {
      ShiftedIsEven(LoadTail(key), targetLength - |key|);
    }
  }

  lemma ShiftedIsEven(x: nat, bytes: nat)
    requires bytes > 0
    ensures ShiftLeft(x, bytes) % 2 == 0
  {
    EvenRest(x * 0x100, x * 0x80);
    EvenRest(x * 0x1_0000, x * 0x8000);
    EvenRest(x * 0x100_0000, x * 0x80_0000);
  }

  lemma EvenRest(y: nat, half: nat)
    requires y == 2 * half
    ensures y % TWO_TO_THE_32 % 2 == 0
  {
    assert y % TWO_TO_THE_32 == 2 * (half - 0x8000_0000 * (y / TWO_TO_THE_32));
  }

  /** Among the keys of the full length with the same numeric prefix, those above a key of any length are those
      whose number is at least its least number. */
  lemma LeastNumberIs(s: Key, k: Key)
    requires NumericPrefix(s, |k|) == k[..NumericPrefixLength(|k|)]
    ensures Less(s, k) <==> LeastNumber(s, |k|) <= Numeric(k, |k|)
  {
    NumericIs(s, |k|);
    NumericIs(Pad(s, |k|), |k|);
    var p := Pad(s, |k|);
    PadBytes(s, |k|);
    GetNumericPartIs(s, |k|);
    assert Pad(p, |k|) == p;
    NumericOrder(p, k);
    LessTotal(p, k);
    if |s| < |k| {
      PaddedLess(s, k);
    } else {
      CutLess(s, k);
    }
  }

  /** leastGreaterKey is what it is named for, for each of these keys, exactly when its sum does not wrap. */
  lemma LeastGreaterKeyIs(s: Key, k: Key)
    requires NumericPrefix(s, |k|) == k[..NumericPrefixLength(|k|)]
    ensures (Less(s, k) <==> LeastGreaterKey(s, |k|) <= Numeric(k, |k|)) <==> !SumWraps(s, |k|)
  {
    LeastNumberIs(s, k);
    OverflowIs(s, |k|);
    GetNumericPartIs(k, |k|);
  }

  /** The first number a scan from a key needs. */
  function FirstNumber(key: Key, targetLength: nat): int {
    LeastNumber(key, targetLength) - if |key| == targetLength then 1 else 0
  }

  /** Among those keys, the ones at or above a key are those whose number is at least its first number. */
  lemma FirstNumberIs(s: Key, k: Key)
    requires NumericPrefix(s, |k|) == k[..NumericPrefixLength(|k|)]
    ensures LessEq(s, k) <==> FirstNumber(s, |k|) <= Numeric(k, |k|)
  {
    NumericIs(s, |k|);
    if |s| == |k| {
      GetNumericPartIs(s, |k|);
      assert Pad(s, |k|) == s;
      NumericOrder(s, k);
      NumericOrder(k, s);
      LessTotal(s, k);
    } else {
      LeastNumberIs(s, k);
    }
  }

  /** The first index of range_lookup1, computed in 32 bits. */
  function FirstIndex(key: Key, targetLength: nat, arrayStart: nat): nat {
    Word32(LeastGreaterKey(key, targetLength) - (if |key| == targetLength then 1 else 0) - arrayStart)
  }

  /** The start key is longer than the array's keys, its number is the largest there is, and the array starts at 0. */
  predicate WrapsToStart(key: Key, targetLength: nat, arrayStart: nat) {
    SumWraps(key, targetLength) && |key| != targetLength && arrayStart == 0
  }

  /** Then the first index wraps to 0; otherwise it is the first number's, whether or not the sum wraps on the way. */
  lemma FirstIndexIs(key: Key, targetLength: nat, arrayStart: nat)
    requires arrayStart <= FirstNumber(key, targetLength)
    ensures FirstIndex(key, targetLength, arrayStart)
         == if WrapsToStart(key, targetLength, arrayStart) then 0 else FirstNumber(key, targetLength) - arrayStart
    ensures WrapsToStart(key, targetLength, arrayStart) <==> FirstNumber(key, targetLength) - arrayStart == TWO_TO_THE_32
  {
    OverflowIs(key, targetLength);
  }

  // ---- keys as indices ----

  lemma SmallWord(x: nat)
    requires x < TWO_TO_THE_32
    ensures Word32(x) == x
  {
  }

  /** DenseNode::restoreKey: the prefix of the lower fence and the last bytes of a 32-bit sum. */
  function RestoreKey(arrayStart: nat, fullKeyLen: nat, prefix: Key, index: nat): (k: Key)
    requires NumericPrefixLength(fullKeyLen) <= |prefix|
    ensures |k| == fullKeyLen
  {
    var n := NumericPartLen(fullKeyLen);
    prefix[..fullKeyLen - n] + BigBytes(4, Word32(arrayStart + index))[4 - n..]
  }

  lemma RestoredParts(arrayStart: nat, fullKeyLen: nat, prefix: Key, index: nat)
    requires NumericPrefixLength(fullKeyLen) <= |prefix|
    ensures var k := RestoreKey(arrayStart, fullKeyLen, prefix, index); var p := NumericPrefixLength(fullKeyLen);
      k[..p] == prefix[..p] && k[p..] == BigBytes(NumericPartLen(fullKeyLen), Word32(arrayStart + index))
  {
    LastOfLast(4, NumericPartLen(fullKeyLen), Word32(arrayStart + index));
  }

  /** The number modulo what the bytes can hold does not depend on a wrap in 32 bits. */
  lemma WordModulo(x: nat, n: nat)
    requires n <= 4
    ensures Pow256(n) > 0 && Word32(x) % Pow256(n) == x % Pow256(n)
  {
    SmallPowers();
    match n
    case 0 => ModuloTwice(x, 1, TWO_TO_THE_32);
    case 1 => ModuloTwice(x, 0x100, 0x100_0000);
    case 2 => ModuloTwice(x, 0x1_0000, 0x1_0000);
    case 3 => ModuloTwice(x, 0x100_0000, 0x100);
    case 4 => ModuloTwice(x, TWO_TO_THE_32, 1);
  }

  lemma SmallPowers()
    ensures Pow256(0) == 1 && Pow256(1) == 0x100 && Pow256(2) == 0x1_0000 && Pow256(3) == 0x100_0000 && Pow256(4) == TWO_TO_THE_32
  {
    assert Pow256(2) == 0x1_0000;
  }

  lemma Reduced(x: nat, d: nat)
    requires d > 0
    ensures x % d == x <==> x < d
  {
  }

  /** The restored key has the array's numeric prefix and the number arrayStart + index modulo what its last bytes
      can hold; so it has that number exactly when the bytes can hold it. */
  lemma RestoreKeyIs(arrayStart: nat, fullKeyLen: nat, prefix: Key, index: nat)
    requires NumericPrefixLength(fullKeyLen) <= |prefix|
    ensures var k := RestoreKey(arrayStart, fullKeyLen, prefix, index); var p := Pow256(NumericPartLen(fullKeyLen));
      && k[..NumericPrefixLength(fullKeyLen)] == prefix[..NumericPrefixLength(fullKeyLen)]
      && p > 0 && Numeric(k, fullKeyLen) == (arrayStart + index) % p
      && (Numeric(k, fullKeyLen) == arrayStart + index <==> arrayStart + index < p)
  {
    RestoredParts(arrayStart, fullKeyLen, prefix, index);
    KeyParts(RestoreKey(arrayStart, fullKeyLen, prefix, index));
    NumberOfWord(arrayStart + index, NumericPartLen(fullKeyLen));
  }

  lemma NumberOfWord(x: nat, n: nat)
    requires n <= 4
    ensures Pow256(n) > 0 && Big(BigBytes(n, Word32(x))) == x % Pow256(n)
    ensures Big(BigBytes(n, Word32(x))) == x <==> x < Pow256(n)
  {
    BigOfBytes(n, Word32(x));
    WordModulo(x, n);
    Reduced(x, Pow256(n));
  }

  datatype KeyIndex = Index(i: nat) | WrongLen | NotNumericRange | SlightlyTooLarge | FarTooLarge

  /** DenseNode::keyToIndex of a key above the lower fence that shares the fences' prefix. */
  function KeyToIndex(lower: Key, prefixLength: nat, fullKeyLen: nat, arrayStart: nat, slotCount: nat, key: Key): KeyIndex
    requires prefixLength <= |key| && NumericPrefixLength(fullKeyLen) <= |lower|
  {
    if |key| != fullKeyLen then WrongLen
    else if prefixLength + NUMERIC_BYTES < fullKeyLen
         && lower[prefixLength..fullKeyLen - NUMERIC_BYTES] != key[prefixLength..fullKeyLen - NUMERIC_BYTES] then NotNumericRange
    else IndexOfNumber(GetNumericPart(key, fullKeyLen), arrayStart, slotCount)
  }

  function IndexOfNumber(numericPart: nat, arrayStart: nat, slotCount: nat): KeyIndex {
    var index := Word32(numericPart - arrayStart);
    if index < slotCount then Index(index)
    else if index < slotCount + slotCount / 2 then SlightlyTooLarge
    else FarTooLarge
  }

  lemma IndexOfNumberIs(n: nat, start: nat, slotCount: nat)
    requires start <= n < TWO_TO_THE_32
    ensures var r := IndexOfNumber(n, start, slotCount);
      && (r.Index? <==> n - start < slotCount) && (r.Index? ==> r.i == n - start)
      && (r.SlightlyTooLarge? <==> slotCount <= n - start < slotCount + slotCount / 2)
      && !r.NotNumericRange? && !r.WrongLen?
  {
    SmallWord(n - start);
  }

  /** Numbers of the keys in the array's range. */
  lemma NumberInRange(lower: Key, key: Key)
    requires NumericPrefixLength(|key|) <= |lower| && Less(lower, key)
    requires key[..NumericPrefixLength(|key|)] == lower[..NumericPrefixLength(|key|)]
    ensures LeastNumber(lower, |key|) <= Numeric(key, |key|) == GetNumericPart(key, |key|) < TWO_TO_THE_32
  {
    PadStarts(lower, |key|);
    LeastNumberIs(lower, key);
    GetNumericPartIs(key, |key|);
  }

  /** The number is the index: keyToIndex returns it exactly for the keys of the full length with the array's
      numeric prefix whose number is below the end of the array. */
  lemma KeyToIndexIs(lower: Key, prefixLength: nat, fullKeyLen: nat, slotCount: nat, key: Key)
    requires prefixLength <= |key| && prefixLength <= |lower| && NumericPrefixLength(fullKeyLen) <= |lower|
    requires lower[..prefixLength] == key[..prefixLength] && (|key| == fullKeyLen ==> Less(lower, key))
    ensures var start := LeastNumber(lower, fullKeyLen);
            var inRange := |key| == fullKeyLen && key[..NumericPrefixLength(fullKeyLen)] == lower[..NumericPrefixLength(fullKeyLen)];
            var r := KeyToIndex(lower, prefixLength, fullKeyLen, start, slotCount, key);
      && (inRange ==> start <= Numeric(key, fullKeyLen) < TWO_TO_THE_32)
      && (r.Index? <==> inRange && Numeric(key, fullKeyLen) - start < slotCount)
      && (r.Index? ==> r.i == Numeric(key, fullKeyLen) - start)
      && (r.SlightlyTooLarge? <==> inRange && slotCount <= Numeric(key, fullKeyLen) - start < slotCount + slotCount / 2)
      && (r.NotNumericRange? <==> |key| == fullKeyLen && !inRange)
      && (r.WrongLen? <==> |key| != fullKeyLen)
  {
    if |key| == fullKeyLen {
      SamePrefix(lower, prefixLength, key);
      if key[..NumericPrefixLength(fullKeyLen)] == lower[..NumericPrefixLength(fullKeyLen)] {
        NumberInRange(lower, key);
        IndexOfNumberIs(Numeric(key, fullKeyLen), LeastNumber(lower, fullKeyLen), slotCount);
      }
    }
  }

  lemma PadStarts(s: Key, n: nat)
    requires NumericPrefixLength(n) <= |s|
    ensures NumericPrefix(s, n) == s[..NumericPrefixLength(n)]
  {
    PadBytes(s, n);
  }

  /** Comparing the bytes after the shared prefix compares the whole numeric prefix. */
  lemma SamePrefix(lower: Key, prefixLength: nat, key: Key)
    requires prefixLength <= |key| && prefixLength <= |lower| && NumericPrefixLength(|key|) <= |lower|
    requires lower[..prefixLength] == key[..prefixLength]
    ensures var n := NumericPrefixLength(|key|);
      lower[..n] == key[..n] <==>
        !(prefixLength + NUMERIC_BYTES < |key| && lower[prefixLength..|key| - NUMERIC_BYTES] != key[prefixLength..|key| - NUMERIC_BYTES])
  {
    var n := NumericPrefixLength(|key|);
    if prefixLength + NUMERIC_BYTES < |key| {
      assert lower[..n] == lower[..prefixLength] + lower[prefixLength..n];
      assert key[..n] == key[..prefixLength] + key[prefixLength..n];
      if lower[..n] == key[..n] {
        assert lower[prefixLength..n] == lower[..n][prefixLength..];
        assert key[prefixLength..n] == key[..n][prefixLength..];
      }
    } else {
      assert lower[..n] == lower[..prefixLength][..n];
      assert key[..n] == key[..prefixLength][..n];
    }
  }

  /** What restoreKey makes of an index: the key of the number modulo what the last bytes can hold. It is above the
      lower fence, and keyToIndex leads back from it, exactly when the number fits; an index whose number wraps
      gives a key at or below the lower fence, or one with a lower index. */
  lemma IndexOfRestored(lower: Key, prefixLength: nat, fullKeyLen: nat, slotCount: nat, index: nat)
    requires prefixLength <= |lower| && prefixLength <= fullKeyLen && NumericPrefixLength(fullKeyLen) <= |lower|
    requires index < slotCount
    ensures var start := LeastNumber(lower, fullKeyLen);
            var k := RestoreKey(start, fullKeyLen, lower, index);
            var r := KeyToIndex(lower, prefixLength, fullKeyLen, start, slotCount, k);
            var p := Pow256(NumericPartLen(fullKeyLen));
      && (Less(lower, k) && r == Index(index) <==> start + index < p)
      && p > 0 && (Less(lower, k) <==> (start + index) % p >= start)
      && (Less(lower, k) ==> r == Index((start + index) % p - start))
  {
    var start := LeastNumber(lower, fullKeyLen);
    var k := RestoreKey(start, fullKeyLen, lower, index);
    RestoreKeyIs(start, fullKeyLen, lower, index);
    PadStarts(lower, fullKeyLen);
    LeastNumberIs(lower, k);
    GetNumericPartIs(k, fullKeyLen);
    RestoredIndex(lower, prefixLength, fullKeyLen, start, slotCount, k);
    IndexModulo(start, slotCount, index, Numeric(k, fullKeyLen), Pow256(NumericPartLen(fullKeyLen)));
  }

  lemma IndexModulo(start: nat, slotCount: nat, index: nat, n: nat, p: nat)
    requires index < slotCount && p > 0 && n == (start + index) % p < TWO_TO_THE_32
    ensures n >= start ==> IndexOfNumber(n, start, slotCount) == Index(n - start)
    ensures start + index < p ==> n == start + index
    ensures n >= start && n - start == index ==> start + index < p
  {
    Reduced(start + index, p);
    Shrinks(start + index, p);
    if n >= start { IndexOfNumberIs(n, start, slotCount); }
  }

  lemma Shrinks(x: nat, d: nat)
    requires d > 0
    ensures x % d <= x
  {
  }

  /** A key with the array's numeric prefix gets the index of its number. */
  lemma RestoredIndex(lower: Key, prefixLength: nat, fullKeyLen: nat, start: nat, slotCount: nat, k: Key)
    requires prefixLength <= |lower| && prefixLength <= fullKeyLen == |k| && NumericPrefixLength(fullKeyLen) <= |lower|
    requires k[..NumericPrefixLength(fullKeyLen)] == lower[..NumericPrefixLength(fullKeyLen)]
    ensures KeyToIndex(lower, prefixLength, fullKeyLen, start, slotCount, k) == IndexOfNumber(GetNumericPart(k, fullKeyLen), start, slotCount)
  {
    var n := NumericPrefixLength(fullKeyLen);
    if prefixLength + NUMERIC_BYTES < fullKeyLen {
      assert lower[prefixLength..n] == lower[..n][prefixLength..];
      assert k[prefixLength..n] == k[..n][prefixLength..];
    }
  }

  /** restoreKey undoes keyToIndex on every key that has an index. */
  lemma RestoredOfIndex(lower: Key, prefixLength: nat, fullKeyLen: nat, slotCount: nat, key: Key)
    requires prefixLength <= |key| && prefixLength <= |lower| && NumericPrefixLength(fullKeyLen) <= |lower|
    requires lower[..prefixLength] == key[..prefixLength] && Less(lower, key)
    requires KeyToIndex(lower, prefixLength, fullKeyLen, LeastNumber(lower, fullKeyLen), slotCount, key).Index?
    ensures var start := LeastNumber(lower, fullKeyLen);
            var i := KeyToIndex(lower, prefixLength, fullKeyLen, start, slotCount, key).i;
      RestoreKey(start, fullKeyLen, lower, i) == key && start + i < Pow256(NumericPartLen(fullKeyLen))
  {
    var start := LeastNumber(lower, fullKeyLen);
    KeyToIndexIs(lower, prefixLength, fullKeyLen, slotCount, key);
    var i := KeyToIndex(lower, prefixLength, fullKeyLen, start, slotCount, key).i;
    KeyParts(key);
    RestoreKeyIs(start, fullKeyLen, lower, i);
    NumericOrder(RestoreKey(start, fullKeyLen, lower, i), key);
  }

  /** The number of a whole key is that of its page's prefix plus that of the rest: no carry between them. */
  lemma NumericSplits(prefix: Key, rest: Key)
    ensures GetNumericPart(prefix, |prefix| + |rest|) + GetNumericPart(rest, |rest|) == Numeric(prefix + rest, |prefix| + |rest|)
  {
    GetNumericPartIs(prefix, |prefix| + |rest|);
    GetNumericPartIs(rest, |rest|);
    NumbersAdd(prefix, rest);
  }

  lemma NumbersAdd(prefix: Key, rest: Key)
    ensures Numeric(prefix, |prefix| + |rest|) + Numeric(rest, |rest|) == Numeric(prefix + rest, |prefix| + |rest|)
  {
    PaddedNumber(prefix, rest);
    KeyParts(rest);
    KeyParts(prefix + rest);
    if |rest| >= 4 {
      LastOfLong(prefix, rest);
      LastOfLong(prefix, Zeros(|rest|));
      LastZeros(|rest|);
    } else {
      NumericOfShort(prefix, rest);
    }
  }

  lemma PaddedNumber(prefix: Key, rest: Key)
    ensures var n := |prefix| + |rest|; Numeric(prefix, n) == Big((prefix + Zeros(|rest|))[NumericPrefixLength(n)..])
  {
    NumericIs(prefix, |prefix| + |rest|);
    assert Pad(prefix, |prefix| + |rest|) == prefix + Zeros(|rest|);
  }

  lemma LastZeros(n: nat)
    requires n >= 4
    ensures Big(Zeros(n)[n - 4..]) == 0
  {
    assert Zeros(n)[n - 4..] == Zeros(4);
    BigZeros(4);
  }

  lemma LastOfLong(prefix: Key, rest: Key)
    requires |rest| >= 4
    ensures (prefix + rest)[|prefix| + |rest| - 4..] == rest[|rest| - 4..]
  {
  }

  lemma NumericOfShort(prefix: Key, rest: Key)
    requires |rest| < 4
    ensures var np := NumericPrefixLength(|prefix| + |rest|);
      Big((prefix + Zeros(|rest|))[np..]) + Big(rest) == Big((prefix + rest)[np..])
  {
    var np := NumericPrefixLength(|prefix| + |rest|);
    DropFromFirst(prefix, rest, np);
    DropFromFirst(prefix, Zeros(|rest|), np);
    SumOfParts(prefix[np..], rest);
  }

  lemma DropFromFirst(a: Key, b: Key, n: nat)
    requires n <= |a|
    ensures (a + b)[n..] == a[n..] + b
  {
  }

  lemma SumOfParts(a: Key, b: Key)
    ensures Big(a + Zeros(|b|)) + Big(b) == Big(a + b)
  {
    BigSum(a, b);
    BigSum(a, Zeros(|b|));
    BigZeros(|b|);
  }
}
