/** What a range scan reports: the caller's buffer and callback, and the entries a scan owes. */
module Scans {
  import opened Hiding
  import opened Bytes
  import opened Nodes

  /** The scan's callback: it sees each key in the caller's buffer and decides from all it has seen whether to go on. */
  class Visitor {
    const more: seq<Entry> -> bool
    var seen: seq<Entry>

    constructor (more: seq<Entry> -> bool)
      ensures this.more == more && seen == []
    {
      this.more := more;
      seen := [];
    }

    method Visit(keyOut: array<Byte>, keyLen: nat, payload: seq<Byte>) returns (go: bool)
      requires keyLen <= keyOut.Length
      modifies this`seen
      ensures seen == old(seen) + [Entry(keyOut[..keyLen], payload)]
      ensures go == more(seen)
    {
      seen := seen + [Entry(keyOut[..keyLen], payload)];
      go := more(seen);
    }
  }

  /** memcpy into the buffer. */
  method CopyTo(buf: array<Byte>, off: nat, bytes: seq<Byte>)
    requires off + |bytes| <= buf.Length
    modifies buf
    ensures buf[off..off + |bytes|] == bytes
    ensures buf[..off] == old(buf[..off])
  {
    var i := 0;
    while i < |bytes|
      invariant 0 <= i <= |bytes|
      invariant buf[off..off + i] == bytes[..i]
      invariant buf[..off] == old(buf[..off])
    {
      buf[off + i] := bytes[i];
      i := i + 1;
    }
  }

  /** Completes a fence key whose first p bytes the buffer holds already, and appends a zero byte. */
  method WriteHop(buf: array<Byte>, fence: Key, p: nat)
    requires p <= |fence| < buf.Length && buf[..p] == fence[..p]
    modifies buf
    ensures buf[..|fence| + 1] == fence + [0]
  {
    CopyTo(buf, p, fence[p..]);
    assert fence == fence[..p] + fence[p..];
    assert buf[..|fence|] == buf[..p] + buf[p..p + |fence[p..]|];
    buf[|fence|] := 0;
    assert buf[..|fence| + 1] == buf[..|fence|] + [buf[|fence|]];
  }

  /** Starting from seen, the callback wanted to go on after every entry of es but the last, and after that one
      exactly if the scan was not stopped. */
  ghost predicate Answered(more: seq<Entry> -> bool, seen: seq<Entry>, es: seq<Entry>, stopped: bool) {
    && (forall j | 0 < j < |es| :: GoesOn(more, seen, es, j))
    && (stopped <==> |es| > 0 && !GoesOn(more, seen, es, |es|))
  }

  ghost predicate GoesOn(more: seq<Entry> -> bool, seen: seq<Entry>, es: seq<Entry>, j: nat)
    requires j <= |es|
  {
    more(seen + es[..j])
  }

  lemma AnsweredNext(more: seq<Entry> -> bool, seen: seq<Entry>, es: seq<Entry>, e: Entry, stopped: bool)
    requires Answered(more, seen, es, false) && stopped == !more(seen + es + [e])
    ensures Answered(more, seen, es + [e], stopped)
  {
    var all := es + [e];
    forall j | 0 < j <= |es| ensures GoesOn(more, seen, all, j) {
      assert all[..j] == es[..j];
      if j < |es| { assert GoesOn(more, seen, es, j); } else { assert es[..j] == es; }
    }
    assert all[..|all|] == all && seen + all == seen + es + [e];
  }

  lemma AnsweredThen(more: seq<Entry> -> bool, seen: seq<Entry>, a: seq<Entry>, b: seq<Entry>, stopped: bool)
    requires Answered(more, seen, a, false) && Answered(more, seen + a, b, stopped)
    ensures Answered(more, seen, a + b, stopped)
  {
    var all := a + b;
    forall j | 0 < j <= |all| && (j < |all| || b == []) ensures GoesOn(more, seen, all, j) {
      if j <= |a| {
        assert all[..j] == a[..j];
        if j < |a| { assert GoesOn(more, seen, a, j); } else { assert a[..j] == a; }
      } else {
        assert seen + all[..j] == seen + a + b[..j - |a|];
        assert GoesOn(more, seen + a, b, j - |a|);
      }
    }
    assert seen + all[..|all|] == seen + a + b[..|b|];
  }

  /** After es has been shown, now is all the callback has seen; unfolded only where Shows is mentioned. */
  ghost predicate Shown(more: seq<Entry> -> bool, seen: seq<Entry>, now: seq<Entry>, es: seq<Entry>, stopped: bool) {
    forall u: Unfold :: Shows(u, more, seen, now, es, stopped)
  }

  ghost predicate Shows(u: Unfold, more: seq<Entry> -> bool, seen: seq<Entry>, now: seq<Entry>, es: seq<Entry>, stopped: bool) {
    now == seen + es && Answered(more, seen, es, stopped)
  }

  lemma ShownNothing(more: seq<Entry> -> bool, seen: seq<Entry>)
    ensures Shown(more, seen, seen, [], false)
  {
    forall u: Unfold ensures Shows(u, more, seen, seen, [], false) {}
  }

  lemma ShownNext(more: seq<Entry> -> bool, seen: seq<Entry>, now: seq<Entry>, es: seq<Entry>, e: Entry, stopped: bool)
    requires Shown(more, seen, now, es, false) && stopped == !more(now + [e])
    ensures Shown(more, seen, now + [e], es + [e], stopped)
  {
    assert Shows(Unfold, more, seen, now, es, false);
    AnsweredNext(more, seen, es, e, stopped);
    forall u: Unfold ensures Shows(u, more, seen, now + [e], es + [e], stopped) {}
  }

  lemma ShownThen(more: seq<Entry> -> bool, seen: seq<Entry>, mid: seq<Entry>, now: seq<Entry>, a: seq<Entry>, b: seq<Entry>, stopped: bool)
    requires Shown(more, seen, mid, a, false) && Shown(more, mid, now, b, stopped)
    ensures Shown(more, seen, now, a + b, stopped)
  {
    assert Shows(Unfold, more, seen, mid, a, false) && Shows(Unfold, more, mid, now, b, stopped);
    AnsweredThen(more, seen, a, b, stopped);
    forall u: Unfold ensures Shows(u, more, seen, now, a + b, stopped) {}
  }

  /** out is es[lo..hi], or those entries in reverse when down; unfolded only where IsPart is mentioned. */
  ghost predicate Part(out: seq<Entry>, es: seq<Entry>, lo: nat, hi: nat, down: bool) {
    forall want | IsPart(want, es, lo, hi, down) :: out == want
  }

  ghost predicate IsPart(want: seq<Entry>, es: seq<Entry>, lo: nat, hi: nat, down: bool) {
    lo <= hi <= |es| && want == if down then Reversed(es[lo..hi]) else es[lo..hi]
  }

  lemma PartIs(out: seq<Entry>, es: seq<Entry>, lo: nat, hi: nat, down: bool)
    requires lo <= hi <= |es|
    ensures Part(out, es, lo, hi, down) <==> out == if down then Reversed(es[lo..hi]) else es[lo..hi]
  {
    assert IsPart(if down then Reversed(es[lo..hi]) else es[lo..hi], es, lo, hi, down);
  }

  lemma PartNothing(es: seq<Entry>, i: nat, down: bool)
    requires i <= |es|
    ensures Part([], es, i, i, down)
  {
    PartIs([], es, i, i, down);
  }

  lemma PartUp(out: seq<Entry>, es: seq<Entry>, lo: nat, hi: nat)
    requires lo <= hi < |es| && Part(out, es, lo, hi, false)
    ensures Part(out + [es[hi]], es, lo, hi + 1, false)
  {
    PartIs(out, es, lo, hi, false);
    PartIs(out + [es[hi]], es, lo, hi + 1, false);
  }

  lemma PartDown(out: seq<Entry>, es: seq<Entry>, lo: nat, hi: nat)
    requires lo < hi <= |es| && Part(out, es, lo + 1, hi, true)
    ensures Part(out + [es[lo]], es, lo, hi, true)
  {
    PartIs(out, es, lo + 1, hi, true);
    PartIs(out + [es[lo]], es, lo, hi, true);
    ReversedSlice(es, lo, hi);
  }

  // ---- what a scan owes ----

  /** The keys a scan is responsible for: from start on, up to end when there is one. */
  ghost predicate InReach(start: Key, end: Option<Key>, k: Key) {
    LessEq(start, k) && (end.Some? ==> LessEq(k, end.value))
  }

  ghost predicate Owed(m: map<Key, seq<Byte>>, es: seq<Entry>, start: Key, end: Option<Key>, k: Key, v: seq<Byte>) {
    Entry(k, v) in es <==> k in m && m[k] == v && InReach(start, end, k)
  }

  /** es lists exactly the entries of m in reach, in ascending order, each once. */
  ghost predicate Ascends(m: map<Key, seq<Byte>>, es: seq<Entry>, start: Key, end: Option<Key>) {
    Sorted(es) && forall k, v :: Owed(m, es, start, end, k, v)
  }

  /** Ascending lists are determined by their entries: a scan has no freedom in what it reports. */
  lemma {:induction false} AscendsUnique(m: map<Key, seq<Byte>>, a: seq<Entry>, b: seq<Entry>, start: Key, end: Option<Key>)
    requires Ascends(m, a, start, end) && Ascends(m, b, start, end)
    ensures a == b
  {
    forall k, v ensures SameEntry(a, b, k, v) {
      assert Owed(m, a, start, end, k, v) && Owed(m, b, start, end, k, v);
    }
    SortedUnique(a, b);
  }

  ghost predicate SameEntry(a: seq<Entry>, b: seq<Entry>, k: Key, v: seq<Byte>) {
    Entry(k, v) in a <==> Entry(k, v) in b
  }

  lemma {:induction false} SortedUnique(a: seq<Entry>, b: seq<Entry>)
    requires Sorted(a) && Sorted(b) && forall k, v :: SameEntry(a, b, k, v)
    ensures a == b
  {
    EmptyTogether(a, b);
    if a != [] {
      forall k, v ensures SameEntry(b, a, k, v) { assert SameEntry(a, b, k, v); }
      FirstIsLeast(a, b);
      FirstIsLeast(b, a);
      LessTotal(a[0].key, b[0].key);
      SameFirst(a, b);
      var a', b' := a[1..], b[1..];
      SortedSlice(a, 1, |a|);
      SortedSlice(b, 1, |b|);
      assert a[1..|a|] == a' && b[1..|b|] == b';
      forall k, v ensures SameEntry(a', b', k, v) {
        RestHas(a, k, v);
        RestHas(b, k, v);
        assert SameEntry(a, b, k, v);
      }
      SortedUnique(a', b');
      assert a == [a[0]] + a' && b == [b[0]] + b';
    }
  }

  lemma EmptyTogether(a: seq<Entry>, b: seq<Entry>)
    requires forall k, v :: SameEntry(a, b, k, v)
    ensures a == [] <==> b == []
  {
    assert a != [] ==> SameEntry(a, b, a[0].key, a[0].payload) && a[0] in a;
    assert b != [] ==> SameEntry(a, b, b[0].key, b[0].payload) && b[0] in b;
  }

  lemma RestHas(a: seq<Entry>, k: Key, v: seq<Byte>)
    requires Sorted(a) && a != []
    ensures Entry(k, v) in a[1..] <==> Entry(k, v) in a && Entry(k, v) != a[0]
  {
    assert a == [a[0]] + a[1..];
    forall i | 1 <= i < |a| ensures a[i] != a[0] {
      assert InOrder(a, 0, i);
      LessTotal(a[0].key, a[0].key);
    }
  }

  /** The first key of a sorted list is at most the first of any list it contains. */
  lemma FirstIsLeast(a: seq<Entry>, b: seq<Entry>)
    requires Sorted(a) && a != [] && b != [] && forall k, v :: SameEntry(a, b, k, v)
    ensures LessEq(a[0].key, b[0].key)
  {
    assert SameEntry(a, b, b[0].key, b[0].payload);
    var i :| 0 <= i < |a| && a[i] == b[0];
    if i > 0 { assert InOrder(a, 0, i); }
  }

  lemma SameFirst(a: seq<Entry>, b: seq<Entry>)
    requires Sorted(a) && Sorted(b) && a != [] && b != [] && forall k, v :: SameEntry(a, b, k, v)
    requires a[0].key == b[0].key
    ensures a[0] == b[0]
  {
    assert SameEntry(a, b, b[0].key, b[0].payload);
    forall i | 0 < i < |a| ensures a[i].key != a[0].key { DistinctKeys(a, i, 0); }
  }

  // ---- descending ----

  ghost predicate Falling(es: seq<Entry>) {
    forall i, j | 0 <= i < j < |es| :: InOrder(es, j, i)
  }

  /** Where a descending range ends below. */
  datatype Floor = NoFloor | AtLeast(key: Key) | MoreThan(key: Key)

  ghost predicate AboveFloor(end: Floor, k: Key) {
    match end
    case NoFloor => true
    case AtLeast(e) => LessEq(e, k)
    case MoreThan(e) => Less(e, k)
  }

  /** The keys a descending scan is responsible for. */
  ghost predicate InReachDown(start: Key, end: Floor, k: Key) {
    LessEq(k, start) && AboveFloor(end, k)
  }

  ghost predicate OwedDown(m: map<Key, seq<Byte>>, es: seq<Entry>, start: Key, end: Floor, k: Key, v: seq<Byte>) {
    Entry(k, v) in es <==> k in m && m[k] == v && InReachDown(start, end, k)
  }

  /** es lists exactly the entries of m in reach, in descending order, each once. */
  ghost predicate Descends(m: map<Key, seq<Byte>>, es: seq<Entry>, start: Key, end: Floor) {
    Falling(es) && forall k, v :: OwedDown(m, es, start, end, k, v)
  }

  ghost function Reversed<T>(s: seq<T>): (r: seq<T>)
    ensures |r| == |s|
    ensures forall i {:trigger r[i]} | 0 <= i < |s| :: r[i] == s[|s| - 1 - i]
  {
    seq(|s|, i requires 0 <= i < |s| => s[|s| - 1 - i])
  }

  lemma ReversedHas<T>(s: seq<T>, x: T)
    ensures x in Reversed(s) <==> x in s
  {
    if x in s {
      var i :| 0 <= i < |s| && s[i] == x;
      assert Reversed(s)[|s| - 1 - i] == x;
    }
  }

  lemma ReversedSlice<T>(s: seq<T>, lo: nat, hi: nat)
    requires lo < hi <= |s|
    ensures Reversed(s[lo..hi]) == Reversed(s[lo + 1..hi]) + [s[lo]]
  {
  }
}
