/** The contents of a dense page: a cell for every number of an interval, and how many cells a page has room for. */
module DenseCells {
  import opened Hiding
  import opened Bytes
  import opened Layout
  import opened Nodes
  import opened BigEndian
  import opened DenseKeys
  import opened Separators

  // ---- room ----

  const WORD_BITS := 64

  const WORD_BYTES := 8

  /** Where the bitmap starts. */
  type MaskOffset = n: nat | 4 * n <= sizes.leaf witness 0

  const maskOffset: MaskOffset

  /** DenseNode::maskWordCount */
  function MaskWords(slotCount: nat): nat {
    (slotCount + WORD_BITS - 1) / WORD_BITS
  }

  function CellBytes(valLen: nat, count: nat): nat {
    if count == 0 then 0 else CellBytes(valLen, count - 1) + valLen
  }

  /** Bitmap words and value cells of that many slots end before the fences. */
  ghost predicate SlotsFit(count: nat, valLen: nat, fencesStart: nat) {
    maskOffset + MaskWords(count) * WORD_BYTES + CellBytes(valLen, count) <= fencesStart
  }

  /** That many slots fit, and no more. */
  ghost predicate IsMost(count: nat, valLen: nat, fencesStart: nat) {
    SlotsFit(count, valLen, fencesStart) && forall more: nat | more > count :: !SlotsFit(more, valLen, fencesStart)
  }

  lemma {:induction false} CellBytesIs(valLen: nat, count: nat)
    ensures CellBytes(valLen, count) == count * valLen
  {
    if count > 0 {
      CellBytesIs(valLen, count - 1);
      assert count * valLen == (count - 1) * valLen + valLen;
    }
  }

  lemma {:induction false} CellBytesMonotone(valLen: nat, m: nat, n: nat)
    requires m <= n
    ensures CellBytes(valLen, m) <= CellBytes(valLen, n)
    ensures m < n ==> CellBytes(valLen, m) + valLen <= CellBytes(valLen, n)
    decreases n
  {
    if m < n {
      CellBytesMonotone(valLen, m, n - 1);
    }
  }

  /** More cells than the first guess of computeSlotCount never fit. */
  /** The largest number of slots, by bytes: a bitmap word of eight bytes for every 64 slots, and the values. */
  lemma MostIs(count: nat, valLen: nat, fencesStart: nat)
    requires IsMost(count, valLen, fencesStart)
    ensures maskOffset + (count + 63) / 64 * 8 + count * valLen <= fencesStart
            < maskOffset + (count + 64) / 64 * 8 + (count + 1) * valLen
  {
    CellBytesIs(valLen, count);
    CellBytesIs(valLen, count + 1);
    assert !SlotsFit(count + 1, valLen, fencesStart);
  }

  lemma GuessIsEnough(count: nat, valLen: nat, fencesStart: nat)
    requires count > FirstGuess(valLen, fencesStart)
    ensures !SlotsFit(count, valLen, fencesStart)
  {
    CellBytesIs(valLen, count);
    var d := valLen * 8 + 1;
    if count * d <= fencesStart * 8 {
      assert d * count == count * d;
      DivideBound(fencesStart * 8, d, count);
    }
    assert count * d == count * (valLen * 8) + count;
    assert count * (valLen * 8) == count * valLen * 8;
  }

  /** No larger number of slots fits. Unfolded only where NoMoreNow is mentioned. */
  ghost predicate NoMore(count: nat, valLen: nat, fencesStart: nat) {
    forall u: Unfold :: NoMoreNow(u, count, valLen, fencesStart)
  }

  ghost predicate NoMoreNow(u: Unfold, count: nat, valLen: nat, fencesStart: nat) {
    forall more: nat | more > count :: !SlotsFit(more, valLen, fencesStart)
  }

  function Quotient(x: nat, d: nat): nat
    requires d > 0
  {
    x / d
  }

  function FirstGuess(valLen: nat, fencesStart: nat): nat {
    Quotient(fencesStart * 8, valLen * 8 + 1)
  }

  lemma NoneAboveGuess(valLen: nat, fencesStart: nat)
    ensures NoMore(FirstGuess(valLen, fencesStart), valLen, fencesStart)
  {
    var count := FirstGuess(valLen, fencesStart);
    forall more: nat | more > count ensures !SlotsFit(more, valLen, fencesStart) {
      GuessIsEnough(more, valLen, fencesStart);
    }
    assert NoMoreNow(Unfold, count, valLen, fencesStart);
  }

  lemma OneLess(count: nat, valLen: nat, fencesStart: nat)
    requires maskOffset <= fencesStart && NoMore(count, valLen, fencesStart) && !SlotsFit(count, valLen, fencesStart)
    ensures count > 0 && NoMore(count - 1, valLen, fencesStart)
  {
    assert NoMoreNow(Unfold, count, valLen, fencesStart);
    assert NoMoreNow(Unfold, count - 1, valLen, fencesStart);
  }

  lemma MostFound(count: nat, valLen: nat, fencesStart: nat)
    requires NoMore(count, valLen, fencesStart) && SlotsFit(count, valLen, fencesStart)
    ensures IsMost(count, valLen, fencesStart)
  {
    assert NoMoreNow(Unfold, count, valLen, fencesStart);
  }

  /** The first guess reckons with a bit and a value for each slot. */
  method Guess(valLen: nat, fencesStart: nat) returns (count: nat)
    ensures NoMore(count, valLen, fencesStart) && count <= 8 * fencesStart && (valLen > 0 ==> count <= fencesStart)
  {
    NoneAboveGuess(valLen, fencesStart);
    GuessBound(valLen, fencesStart);
    count := FirstGuess(valLen, fencesStart);
  }

  method DoFit(count: nat, valLen: nat, fencesStart: nat) returns (fit: bool)
    ensures fit <==> SlotsFit(count, valLen, fencesStart)
  {
    var maskSize := MaskWords(count) * WORD_BYTES;
    fit := maskOffset + maskSize + CellBytes(valLen, count) <= fencesStart;
  }

  /** DenseNode::computeSlotCount: the largest number of slots whose bitmap words and value cells fit. */
  method ComputeSlotCount(valLen: nat, fencesStart: nat) returns (count: nat)
    requires maskOffset <= fencesStart
    ensures IsMost(count, valLen, fencesStart)
    ensures count <= 8 * fencesStart && (valLen > 0 ==> count <= fencesStart)
  {
    count := Guess(valLen, fencesStart);
    while true
      invariant NoMore(count, valLen, fencesStart)
      invariant count <= 8 * fencesStart && (valLen > 0 ==> count <= fencesStart)
      decreases count
    {
      var fit := DoFit(count, valLen, fencesStart);
      if fit {
        MostFound(count, valLen, fencesStart);
        return;
      }
      OneLess(count, valLen, fencesStart);
      count := count - 1;
    }
  }

  lemma GuessBound(valLen: nat, fencesStart: nat)
    ensures FirstGuess(valLen, fencesStart) <= 8 * fencesStart
    ensures valLen > 0 ==> FirstGuess(valLen, fencesStart) <= fencesStart
  {
    QuotientBound(fencesStart * 8, valLen * 8 + 1);
  }

  lemma QuotientBound(x: nat, d: nat)
    requires d > 0
    ensures x / d <= x
    ensures d >= 8 ==> x / d * 8 <= x
  {
    var q := x / d;
    assert q * d <= x;
    MulMonotone(q, 1, d);
    if d >= 8 {
      MulMonotone(q, 8, d);
    }
  }

  // ---- contents ----

  /** The array starts at the least number of a key above the lower fence. Unfolded only where StartNow is
      mentioned. */
  ghost predicate IsStart(start: nat, lower: Key, fullKeyLen: nat) {
    forall u: Unfold :: StartNow(u, start, lower, fullKeyLen)
  }

  ghost predicate StartNow(u: Unfold, start: nat, lower: Key, fullKeyLen: nat) {
    start == LeastNumber(lower, fullKeyLen)
  }

  /** k is restoreKey of an index. Unfolded only where RestoredNow is mentioned. */
  ghost predicate Restored(k: Key, start: nat, fullKeyLen: nat, lower: Key, i: nat) {
    forall u: Unfold :: RestoredNow(u, k, start, fullKeyLen, lower, i)
  }

  ghost predicate RestoredNow(u: Unfold, k: Key, start: nat, fullKeyLen: nat, lower: Key, i: nat) {
    NumericPrefixLength(fullKeyLen) <= |lower| && k == RestoreKey(start, fullKeyLen, lower, i)
  }

  ghost function KeyOf(start: nat, fullKeyLen: nat, lower: Key, i: nat): (k: Key)
    requires NumericPrefixLength(fullKeyLen) <= |lower|
    ensures Restored(k, start, fullKeyLen, lower, i) && |k| == fullKeyLen
  {
    assert Restored(RestoreKey(start, fullKeyLen, lower, i), start, fullKeyLen, lower, i);
    var k :| Restored(k, start, fullKeyLen, lower, i) && |k| == fullKeyLen;
    k
  }

  /** A dense page: fences, the length all its keys have, and for each number from start on a value or none. */
  datatype Dense = Dense(lower: Key, upper: Key, fullKeyLen: nat, start: nat, cells: seq<Option<seq<Byte>>>)
  {
    predicate Present(i: nat) {
      i < |cells| && cells[i].Some?
    }

    /** The lower fence determines the keys' numeric prefix and the least number, which fits 32 bits. */
    ghost predicate Sized() {
      NumericPrefixLength(fullKeyLen) <= |lower| && start < TWO_TO_THE_32 && IsStart(start, lower, fullKeyLen)
    }

    ghost function KeyAt(i: nat): (k: Key)
      requires NumericPrefixLength(fullKeyLen) <= |lower|
    {
      KeyOf(start, fullKeyLen, lower, i)
    }

    /** The number of a cell in use fits the key's last bytes. */
    ghost predicate Fitting(i: nat) {
      Present(i) ==> start + i < Pow256(NumericPartLen(fullKeyLen))
    }

    ghost predicate Ok() {
      Sized() && forall i | 0 <= i < |cells| :: Fitting(i)
    }

    /** The entries with indices from lo to hi, in order. */
    ghost function EntriesIn(lo: nat, hi: nat): seq<Entry>
      requires NumericPrefixLength(fullKeyLen) <= |lower|
    {
      if hi <= lo then []
      else EntriesIn(lo, hi - 1) + if Present(hi - 1) then [Entry(KeyAt(hi - 1), cells[hi - 1].value)] else []
    }

    ghost function Entries(): seq<Entry>
      requires NumericPrefixLength(fullKeyLen) <= |lower|
    {
      EntriesIn(0, |cells|)
    }

    ghost predicate InCell(e: Entry, i: nat)
      requires NumericPrefixLength(fullKeyLen) <= |lower|
    {
      Present(i) && e == Entry(KeyAt(i), cells[i].value)
    }

    /** Keys the array can hold: of the full length, with its numeric prefix, above the lower fence. */
    ghost predicate InArray(k: Key) {
      && |k| == fullKeyLen && NumericPrefixLength(fullKeyLen) <= |lower| && Less(lower, k)
      && k[..NumericPrefixLength(fullKeyLen)] == lower[..NumericPrefixLength(fullKeyLen)]
    }

    /** What lookup finds: the value in the cell of the key's number. */
    ghost function Answer(k: Key): Option<seq<Byte>> {
      var i := Numeric(k, fullKeyLen) - start;
      if InArray(k) && 0 <= i < |cells| then cells[i] else None
    }
  }

  lemma KeyAtRestores(d: Dense, i: nat)
    requires NumericPrefixLength(d.fullKeyLen) <= |d.lower|
    ensures d.KeyAt(i) == RestoreKey(d.start, d.fullKeyLen, d.lower, i)
  {
    assert RestoredNow(Unfold, d.KeyAt(i), d.start, d.fullKeyLen, d.lower, i);
  }

  /** The keys of the cells in use are keys of the array, one for each number. */
  lemma KeyAtIs(d: Dense, i: nat)
    requires d.Ok() && d.Present(i)
    ensures d.InArray(d.KeyAt(i)) && Numeric(d.KeyAt(i), d.fullKeyLen) == d.start + i
  {
    KeyAtRestores(d, i);
    assert d.Fitting(i);
    var k := d.KeyAt(i);
    RestoreKeyIs(d.start, d.fullKeyLen, d.lower, i);
    PadStarts(d.lower, d.fullKeyLen);
    assert StartNow(Unfold, d.start, d.lower, d.fullKeyLen);
    LeastNumberIs(d.lower, k);
  }

  lemma KeyAtOrder(d: Dense, i: nat, j: nat)
    requires d.Ok() && d.Present(i) && d.Present(j)
    ensures Less(d.KeyAt(i), d.KeyAt(j)) <==> i < j
    ensures d.KeyAt(i) == d.KeyAt(j) <==> i == j
  {
    KeyAtIs(d, i);
    KeyAtIs(d, j);
    NumericOrder(d.KeyAt(i), d.KeyAt(j));
  }

  /** A key of the array is the key of its number. */
  lemma KeyOfNumber(d: Dense, k: Key, i: nat)
    requires d.Sized() && d.InArray(k) && i < |d.cells| && Numeric(k, d.fullKeyLen) == d.start + i
    ensures k == d.KeyAt(i) && d.start + i < Pow256(NumericPartLen(d.fullKeyLen))
  {
    KeyAtRestores(d, i);
    KeyParts(k);
    RestoreKeyIs(d.start, d.fullKeyLen, d.lower, i);
    NumericOrder(d.KeyAt(i), k);
  }

  lemma {:induction false} EntriesMember(d: Dense, lo: nat, hi: nat, e: Entry)
    requires NumericPrefixLength(d.fullKeyLen) <= |d.lower|
    ensures e in d.EntriesIn(lo, hi) <==> exists i: nat :: lo <= i < hi && d.InCell(e, i)
    decreases hi
  {
    if lo < hi {
      EntriesMember(d, lo, hi - 1, e);
      if d.InCell(e, hi - 1) {
        assert e in d.EntriesIn(lo, hi);
      }
    }
  }

  /** Which cell an entry is in. */
  lemma CellOf(d: Dense, lo: nat, hi: nat, j: nat) returns (i: nat)
    requires NumericPrefixLength(d.fullKeyLen) <= |d.lower| && j < |d.EntriesIn(lo, hi)|
    ensures lo <= i < hi && d.InCell(d.EntriesIn(lo, hi)[j], i)
  {
    EntriesMember(d, lo, hi, d.EntriesIn(lo, hi)[j]);
    i :| lo <= i < hi && d.InCell(d.EntriesIn(lo, hi)[j], i);
  }

  /** The entries of a dense page are strictly sorted. */
  lemma {:induction false} EntriesSorted(d: Dense, lo: nat, hi: nat)
    requires d.Ok()
    ensures Sorted(d.EntriesIn(lo, hi))
    decreases hi
  {
    if lo < hi {
      EntriesSorted(d, lo, hi - 1);
      var es, before := d.EntriesIn(lo, hi), d.EntriesIn(lo, hi - 1);
      forall a, b | 0 <= a < b < |es| ensures InOrder(es, a, b) {
        if b < |before| {
          assert InOrder(before, a, b);
        } else {
          var i := CellOf(d, lo, hi - 1, a);
          KeyAtOrder(d, i, hi - 1);
        }
      }
    }
  }

  lemma AnswerIsEntry(d: Dense, k: Key)
    requires d.Ok() && d.Answer(k).Some?
    ensures Entry(k, d.Answer(k).value) in d.Entries()
  {
    var i: nat := Numeric(k, d.fullKeyLen) - d.start;
    KeyOfNumber(d, k, i);
    var e := Entry(k, d.cells[i].value);
    assert d.InCell(e, i);
    EntriesMember(d, 0, |d.cells|, e);
  }

  lemma EntryCell(d: Dense, e: Entry) returns (i: nat)
    requires d.Ok() && e in d.Entries()
    ensures d.InArray(e.key) && Numeric(e.key, d.fullKeyLen) == d.start + i && i < |d.cells| && d.cells[i] == Some(e.payload)
  {
    EntriesMember(d, 0, |d.cells|, e);
    i :| i < |d.cells| && d.InCell(e, i);
    KeyAtIs(d, i);
  }

  lemma EntryIsAnswer(d: Dense, e: Entry)
    requires d.Ok() && e in d.Entries()
    ensures d.Answer(e.key) == Some(e.payload)
  {
    var i := EntryCell(d, e);
  }

  /** Looking a key up by its number finds what the sorted entries have for it. */
  lemma DenseAnswers(d: Dense, k: Key)
    requires d.Ok()
    ensures Sorted(d.Entries()) && Nodes.Lookup(d.Entries(), k) == d.Answer(k)
  {
    EntriesSorted(d, 0, |d.cells|);
    LookupIs(d.Entries(), k);
    var es := d.Entries();
    if d.Answer(k).Some? {
      AnswerIsEntry(d, k);
      var j :| 0 <= j < |es| && es[j] == Entry(k, d.Answer(k).value);
    } else if Nodes.Lookup(es, k).Some? {
      EntryIsAnswer(d, Entry(k, Nodes.Lookup(es, k).value));
    }
  }

  /** Entries depend only on the cells in their range. */
  lemma {:induction false} EntriesSame(d: Dense, d': Dense, lo: nat, hi: nat)
    requires NumericPrefixLength(d.fullKeyLen) <= |d.lower| && d'.lower == d.lower && d'.fullKeyLen == d.fullKeyLen && d'.start == d.start
    requires forall i: nat | lo <= i < hi :: SameCell(d, d', i)
    ensures d'.EntriesIn(lo, hi) == d.EntriesIn(lo, hi)
    decreases hi
  {
    if lo < hi {
      assert SameCell(d, d', hi - 1);
      EntriesSame(d, d', lo, hi - 1);
    }
  }

  ghost predicate SameCell(d: Dense, d': Dense, i: nat) {
    && (d'.Present(i) <==> d.Present(i))
    && (d.Present(i) ==> d'.cells[i] == d.cells[i])
  }

  lemma {:induction false} NonePresent(d: Dense, lo: nat, mid: nat, hi: nat)
    requires NumericPrefixLength(d.fullKeyLen) <= |d.lower| && mid <= hi
    requires forall i: nat | mid <= i < hi :: !d.Present(i)
    ensures d.EntriesIn(lo, hi) == d.EntriesIn(lo, mid) || hi <= lo
    ensures hi > lo ==> d.EntriesIn(lo, hi) == d.EntriesIn(lo, mid)
    decreases hi
  {
    if mid < hi && lo < hi {
      NonePresent(d, lo, mid, hi - 1);
    }
  }

  lemma {:induction false} EntriesConcat(d: Dense, lo: nat, mid: nat, hi: nat)
    requires NumericPrefixLength(d.fullKeyLen) <= |d.lower| && lo <= mid <= hi
    ensures d.EntriesIn(lo, hi) == d.EntriesIn(lo, mid) + d.EntriesIn(mid, hi)
    decreases hi
  {
    if mid < hi {
      EntriesConcat(d, lo, mid, hi - 1);
    }
  }

  /** out lists, in order and each once, exactly the entries at or above a start key. */
  ghost predicate ListsFrom(d: Dense, s: Key, out: seq<Entry>)
    requires NumericPrefixLength(d.fullKeyLen) <= |d.lower|
  {
    Sorted(out) && forall e :: ListedFrom(d, s, out, e)
  }

  ghost predicate ListedFrom(d: Dense, s: Key, out: seq<Entry>, e: Entry)
    requires NumericPrefixLength(d.fullKeyLen) <= |d.lower|
  {
    e in out <==> e in d.Entries() && LessEq(s, e.key)
  }

  /** A scan from a start key owes exactly the entries from its first number on. */
  lemma NumbersOwed(d: Dense, s: Key, first: nat)
    requires d.Ok() && NumericPrefix(s, d.fullKeyLen) == d.lower[..NumericPrefixLength(d.fullKeyLen)]
    requires first == FirstNumber(s, d.fullKeyLen) - d.start
    ensures ListsFrom(d, s, d.EntriesIn(first, |d.cells|))
  {
    var out := d.EntriesIn(first, |d.cells|);
    EntriesSorted(d, first, |d.cells|);
    forall e ensures ListedFrom(d, s, out, e) {
      EntriesMember(d, first, |d.cells|, e);
      if e in d.Entries() {
        var i := EntryCell(d, e);
        FirstNumberIs(s, e.key);
        KeyOfNumber(d, e.key, i);
        assert d.InCell(e, i);
        ScanCell(d, e, i, first);
      } else if e in out {
        ScanPart(d, first, e);
      }
    }
  }

  /** The cells from the index on that range_lookup1 computes in 32 bits hold what a scan from the start key owes,
      unless that index wraps to 0: then nothing is owed, and they hold all entries. */
  lemma ScanOwes(d: Dense, s: Key)
    requires d.Ok() && d.fullKeyLen > 0 && (d.lower == [] || Less(d.lower, s))
    requires NumericPrefix(s, d.fullKeyLen) == d.lower[..NumericPrefixLength(d.fullKeyLen)]
    ensures var out := d.EntriesIn(FirstIndex(s, d.fullKeyLen, d.start), |d.cells|);
      && (ListsFrom(d, s, out) <==> !WrapsToStart(s, d.fullKeyLen, d.start) || d.Entries() == [])
      && (WrapsToStart(s, d.fullKeyLen, d.start) ==> out == d.Entries() && ListsFrom(d, s, []))
  {
    FirstAfterStart(d, s);
    FirstIndexIs(s, d.fullKeyLen, d.start);
    var first: nat := FirstNumber(s, d.fullKeyLen) - d.start;
    NumbersOwed(d, s, first);
    if WrapsToStart(s, d.fullKeyLen, d.start) {
      NoneBeyond(d, first);
      OneList(d, s, d.Entries(), []);
    }
  }

  /** No cell in use has a number of 33 bits. */
  lemma NoneBeyond(d: Dense, first: nat)
    requires d.Ok() && first >= TWO_TO_THE_32
    ensures d.EntriesIn(first, |d.cells|) == []
  {
    forall i: nat | first <= i < |d.cells| ensures !d.Present(i) {
      assert d.Fitting(i);
      Pow256Monotone(NumericPartLen(d.fullKeyLen), 4);
      SmallPowers();
    }
    if first < |d.cells| {
      NonePresent(d, first, first, |d.cells|);
      assert d.EntriesIn(first, first) == [];
    }
  }

  /** Two lists of what a scan owes have the same elements. */
  lemma OneList(d: Dense, s: Key, a: seq<Entry>, b: seq<Entry>)
    requires NumericPrefixLength(d.fullKeyLen) <= |d.lower| && ListsFrom(d, s, b) && b == []
    ensures ListsFrom(d, s, a) ==> a == []
  {
    if a != [] {
      assert ListedFrom(d, s, b, a[0]);
      assert a[0] in a && !ListedFrom(d, s, a, a[0]);
    }
  }

  /** Being listed from first on is having a number from first on. */
  lemma ScanCell(d: Dense, e: Entry, i: nat, first: nat)
    requires d.Ok() && d.InCell(e, i)
    ensures e in d.EntriesIn(first, |d.cells|) <==> first <= i
  {
    EntriesMember(d, first, |d.cells|, e);
    if e in d.EntriesIn(first, |d.cells|) {
      var j: nat :| first <= j < |d.cells| && d.InCell(e, j);
      KeyAtOrder(d, i, j);
    }
  }

  lemma ScanPart(d: Dense, first: nat, e: Entry)
    requires d.Ok() && e in d.EntriesIn(first, |d.cells|)
    ensures e in d.Entries()
  {
    EntriesMember(d, first, |d.cells|, e);
    EntriesMember(d, 0, |d.cells|, e);
  }

  /** A start key above the lower fence outside the array's numeric prefix is above all its entries. */
  lemma OutOfRangeOwesNothing(d: Dense, s: Key)
    requires d.Ok() && (d.lower == [] || Less(d.lower, s)) && NumericPrefix(s, d.fullKeyLen) != d.lower[..NumericPrefixLength(d.fullKeyLen)]
    ensures ListsFrom(d, s, [])
  {
    forall e ensures ListedFrom(d, s, [], e) {
      if e in d.Entries() {
        var i := EntryCell(d, e);
        OutOfPrefix(d.lower, s, e.key);
        LessTotal(e.key, s);
      }
    }
  }

  /** A string between the lower fence and a key of the array has the numeric prefix. */
  lemma InPrefix(lower: Key, s: Key, k: Key)
    requires NumericPrefixLength(|k|) <= |lower| && (lower == [] || Less(lower, s)) && LessEq(s, k)
    requires k[..NumericPrefixLength(|k|)] == lower[..NumericPrefixLength(|k|)]
    ensures NumericPrefix(s, |k|) == lower[..NumericPrefixLength(|k|)]
  {
    var n := NumericPrefixLength(|k|);
    CommonPrefixAtLeast(lower, k, n);
    EmptyLeast(s);
    BetweenSharesPrefix(lower, s, k, n);
    PadBytes(s, |k|);
  }

  lemma OutOfPrefix(lower: Key, s: Key, k: Key)
    requires NumericPrefixLength(|k|) <= |lower| && (lower == [] || Less(lower, s))
    requires k[..NumericPrefixLength(|k|)] == lower[..NumericPrefixLength(|k|)]
    requires NumericPrefix(s, |k|) != lower[..NumericPrefixLength(|k|)]
    ensures Less(k, s)
  {
    LessTotal(k, s);
    if LessEq(s, k) {
      InPrefix(lower, s, k);
    }
  }

  /** First numbers of start keys above the lower fence are at or after the start. */
  lemma FirstAfterStart(d: Dense, s: Key)
    requires d.Sized() && d.fullKeyLen > 0 && (d.lower == [] || Less(d.lower, s))
    requires NumericPrefix(s, d.fullKeyLen) == d.lower[..NumericPrefixLength(d.fullKeyLen)]
    ensures d.start <= FirstNumber(s, d.fullKeyLen)
  {
    if d.lower == [] {
      EmptyStart(d, s);
      return;
    }
    NumericIs(s, d.fullKeyLen);
    NumericIs(d.lower, d.fullKeyLen);
    NumericIs(Pad(s, d.fullKeyLen), d.fullKeyLen);
    NumericIs(Pad(d.lower, d.fullKeyLen), d.fullKeyLen);
    var f := d.fullKeyLen;
    assert StartNow(Unfold, d.start, d.lower, d.fullKeyLen);
    GetNumericPartIs(s, f);
    GetNumericPartIs(d.lower, f);
    var p, q := Pad(s, f), Pad(d.lower, f);
    PadBytes(s, f);
    PadBytes(d.lower, f);
    PadStarts(d.lower, f);
    assert Pad(p, f) == p && Pad(q, f) == q;
    NumericOrder(p, q);
    NumericOrder(q, p);
    PadMonotone(d.lower, s, f);
  }

  lemma EmptyStart(d: Dense, s: Key)
    requires d.Sized() && d.fullKeyLen > 0 && d.lower == []
    ensures d.start == 0 <= FirstNumber(s, d.fullKeyLen)
  {
    assert StartNow(Unfold, d.start, d.lower, d.fullKeyLen);
    GetNumericPartIs([], d.fullKeyLen);
    NumericIs([], d.fullKeyLen);
    var z := Zeros(d.fullKeyLen);
    assert Pad([], d.fullKeyLen) == z;
    assert z[NumericPrefixLength(d.fullKeyLen)..] == Zeros(NumericPartLen(d.fullKeyLen));
    BigZeros(NumericPartLen(d.fullKeyLen));
  }

  lemma PadMonotone(a: Key, b: Key, n: nat)
    requires Less(a, b)
    ensures LessEq(Pad(a, n), Pad(b, n))
    ensures |b| <= n <= |a| ==> Less(Pad(a, n), Pad(b, n))
  {
    var c := CommonPrefix(a, b);
    var x, y := Pad(a, n), Pad(b, n);
    PadBytes(a, n);
    PadBytes(b, n);
    LessTotal(x, y);
    if c < n && c < |a| {
      assert x[..c] == a[..c] == b[..c] == y[..c] && x[c] == a[c] && y[c] == b[c];
      CommonPrefixIs(x, y, c);
    } else if c == |a| && c <= n {
      assert a == a[..c] && a <= b;
      PadPrefix(a, b, n);
    } else {
      assert x == a[..n] && y == b[..n] && a[..n] == a[..c][..n] && b[..n] == b[..c][..n];
    }
  }
}
