/** Why hopping from leaf to leaf by fence keys reports every entry of a range exactly once. */
module TreeScans {
  import opened Bytes
  import opened Nodes
  import opened Updates
  import opened Trees
  import opened Scans

  /** A leaf holds exactly the map's entries for the keys it covers. */
  lemma LeafHolds(t: Tree, m: map<Key, seq<Byte>>, a: Address, k: Key, v: seq<Byte>)
    requires WellFormed(t) && Answers(t, m) && Covers(t, a, k) && t.nodes[a].isLeaf
    ensures Entry(k, v) in t.nodes[a].entries <==> k in m && m[k] == v
  {
    LeafIs(t, a, k);
    assert AnswersAt(t, m, k);
    LookupHas(t.nodes[a].entries, k, v);
  }

  /** The hop key above a leaf leads to the leaf that begins there, past any leaf with an empty range. */
  lemma NextLeaf(t: Tree, a: Address, k: Key, u: Key, b: Address)
    requires WellFormed(t) && Covers(t, a, k) && t.nodes[a].isLeaf && t.nodes[a].upper == u != []
    requires Covers(t, b, u + [0]) && t.nodes[b].isLeaf
    ensures t.nodes[b].lower == u && LessEq(k, u)
  {
    var lower := t.nodes[b].lower;
    NothingBetween(u, lower);
    LessTotal(u, u + [0]);
    if lower != u {
      // then b covers u as a does, but a ends at u
      if t.nodes[b].upper != [] { LessEqTrans(u, u + [0], t.nodes[b].upper); }
      if t.nodes[a].lower != [] { LessEqTrans(t.nodes[a].lower, k, u); }
      LeafIs(t, b, u);
      LeafIs(t, a, u);
    }
  }

  /** What is below u followed by a zero byte is at most u. */
  lemma NothingBetween(u: Key, k: Key)
    ensures Less(k, u + [0]) ==> LessEq(k, u)
    ensures Less(u, u + [0]) && !LessEq(u + [0], u)
  {
    ZeroSuccessor(u, k);
    LessTotal(u, k);
    LessTotal(k, u + [0]);
    LessTotal(u, u + [0]);
  }

  // ---- ascending ----

  /** The keys a hop still has to report: from the start key on at first, then those above the last fence. */
  ghost predicate Ahead(prev: Option<Key>, start: Key, k: Key) {
    if prev.None? then LessEq(start, k) else Less(prev.value, k)
  }

  ghost predicate UpTo(end: Option<Key>, k: Key) {
    end.Some? ==> LessEq(k, end.value)
  }

  /** The search key of a hop. */
  function SearchKey(prev: Option<Key>, start: Key): Key {
    if prev.None? then start else prev.value + [0]
  }

  /** Everything reported so far: nothing, or all entries from the start key up to the last fence. */
  ghost predicate Reported(m: map<Key, seq<Byte>>, es: seq<Entry>, start: Key, prev: Option<Key>) {
    if prev.None? then es == [] else prev.value != [] && LessEq(start, prev.value) && Ascends(m, es, start, prev)
  }

  /** Where the reported part of a leaf ends: at the leaf's upper fence, or at its last reported entry. */
  ghost predicate IsEnd(n: Node, to: nat, end: Option<Key>) {
    && to <= |n.entries|
    && ((end == (if n.upper == [] then None else Some(n.upper)) && to == |n.entries|)
        || (to > 0 && end == Some(n.entries[to - 1].key)))
  }

  /** The slot a hop starts at in its leaf. */
  ghost predicate IsStart(n: Node, prev: Option<Key>, start: Key, from: nat) {
    if prev.None? then IsLowerBound(n.entries, start, from) else from == 0 && n.lower == prev.value
  }

  /** The entries of a leaf from the start slot on are those with keys ahead. */
  lemma StartsAt(n: Node, prev: Option<Key>, start: Key, from: nat, i: nat)
    requires Ordered(n) && IsStart(n, prev, start, from) && i < |n.entries| && (prev.Some? ==> prev.value != [])
    ensures from <= i <==> Ahead(prev, start, n.entries[i].key)
  {
    LessTotal(start, n.entries[i].key);
    assert Within(n.lower, n.upper, n.entries[i].key);
  }

  lemma EndsAt(n: Node, to: nat, end: Option<Key>, i: nat)
    requires Ordered(n) && IsEnd(n, to, end) && i < |n.entries|
    ensures i < to <==> UpTo(end, n.entries[i].key)
  {
    assert Within(n.lower, n.upper, n.entries[i].key);
    if to > 0 && end == Some(n.entries[to - 1].key) {
      LessTotal(n.entries[i].key, n.entries[to - 1].key);
      if i < to - 1 { assert InOrder(n.entries, i, to - 1); } else if to - 1 < i { assert InOrder(n.entries, to - 1, i); }
    }
  }

  /** Keys ahead of a hop and up to its end are the leaf's. */
  lemma HopCovers(t: Tree, a: Address, prev: Option<Key>, start: Key, from: nat, to: nat, end: Option<Key>, k: Key)
    requires WellFormed(t) && Covers(t, a, SearchKey(prev, start)) && IsStart(t.nodes[a], prev, start, from)
    requires IsEnd(t.nodes[a], to, end) && Ahead(prev, start, k) && UpTo(end, k)
    ensures Covers(t, a, k)
  {
    var n := t.nodes[a];
    assert NodeOk(t, a);
    if n.lower != [] && prev.None? { LessEqTrans(n.lower, start, k); }
    if n.upper != [] && end.value != n.upper {
      assert Within(n.lower, n.upper, n.entries[to - 1].key);
      LessEqTrans(k, n.entries[to - 1].key, n.upper);
    }
  }

  /** What a hop reports: exactly the map's entries ahead of it and up to its end. */
  lemma HopOwed(t: Tree, m: map<Key, seq<Byte>>, a: Address, prev: Option<Key>, start: Key, from: nat, to: nat, end: Option<Key>,
                k: Key, v: seq<Byte>)
    requires WellFormed(t) && Answers(t, m) && Covers(t, a, SearchKey(prev, start)) && t.nodes[a].isLeaf
    requires IsStart(t.nodes[a], prev, start, from) && IsEnd(t.nodes[a], to, end) && from <= to && (prev.Some? ==> prev.value != [])
    ensures Entry(k, v) in t.nodes[a].entries[from..to] <==> k in m && m[k] == v && Ahead(prev, start, k) && UpTo(end, k)
  {
    var n := t.nodes[a];
    assert NodeOk(t, a);
    forall i | 0 <= i < |n.entries|
      ensures from <= i < to <==> Ahead(prev, start, n.entries[i].key) && UpTo(end, n.entries[i].key)
    {
      StartsAt(n, prev, start, from, i);
      EndsAt(n, to, end, i);
    }
    if Ahead(prev, start, k) && UpTo(end, k) {
      HopCovers(t, a, prev, start, from, to, end, k);
      LeafHolds(t, m, a, k, v);
    }
    InSlice(n.entries, from, to, Entry(k, v));
  }

  lemma InSlice<T>(xs: seq<T>, from: nat, to: nat, x: T)
    requires from <= to <= |xs|
    ensures x in xs[from..to] <==> exists i :: from <= i < to && xs[i] == x
  {
    forall i | from <= i < to && xs[i] == x ensures x in xs[from..to] { assert xs[from..to][i - from] == x; }
  }

  /** One hop extends the report up to its end. */
  lemma HopReports(t: Tree, m: map<Key, seq<Byte>>, a: Address, es: seq<Entry>, prev: Option<Key>, start: Key,
                   from: nat, to: nat, end: Option<Key>, out: seq<Entry>)
    requires WellFormed(t) && Answers(t, m) && Covers(t, a, SearchKey(prev, start)) && t.nodes[a].isLeaf
    requires IsStart(t.nodes[a], prev, start, from) && IsEnd(t.nodes[a], to, end) && from <= to
    requires Reported(m, es, start, prev) && out == t.nodes[a].entries[from..to]
    requires end.Some? && prev.Some? ==> LessEq(prev.value, end.value)
    ensures Ascends(m, es + out, start, end)
  {
    forall k, v ensures Owed(m, es + out, start, end, k, v) {
      HopOwed(t, m, a, prev, start, from, to, end, k, v);
      if prev.Some? {
        assert Owed(m, es, start, prev, k, v);
        LessTotal(prev.value, k);
        if Less(prev.value, k) { LessEqTrans(start, prev.value, k); }
        if LessEq(k, prev.value) && end.Some? { LessEqTrans(k, prev.value, end.value); }
      }
    }
    assert NodeOk(t, a);
    forall i, j | 0 <= i < j < |es + out| ensures InOrder(es + out, i, j) {
      HopSorted(t.nodes[a], m, es, prev, start, from, to, out, i, j);
    }
  }

  lemma HopSorted(n: Node, m: map<Key, seq<Byte>>, es: seq<Entry>, prev: Option<Key>, start: Key,
                  from: nat, to: nat, out: seq<Entry>, i: nat, j: nat)
    requires Ordered(n) && IsStart(n, prev, start, from) && from <= to <= |n.entries|
    requires Reported(m, es, start, prev) && out == n.entries[from..to] && i < j < |es + out|
    ensures InOrder(es + out, i, j)
  {
    if j < |es| {
      assert InOrder(es, i, j);
    } else if i < |es| {
      assert Owed(m, es, start, prev, es[i].key, es[i].payload);
      assert es[i] in es;
      assert Within(n.lower, n.upper, n.entries[from + j - |es|].key);
      LessEqTrans(es[i].key, prev.value, n.entries[from + j - |es|].key);
    } else {
      assert InOrder(n.entries, from + i - |es|, from + j - |es|);
    }
  }

  /** The last fence is the upper fence of a leaf with keys of its own. */
  ghost predicate LeadsOn(t: Tree, prev: Option<Key>) {
    prev.Some? ==> exists a, k :: EndsLeaf(t, a, k, prev.value)
  }

  ghost predicate EndsLeaf(t: Tree, a: Address, k: Key, u: Key) {
    Covers(t, a, k) && t.nodes[a].isLeaf && t.nodes[a].upper == u != []
  }

  /** So the next hop enters its leaf at the lower fence. */
  lemma LeadsTo(t: Tree, prev: Option<Key>, b: Address)
    requires WellFormed(t) && LeadsOn(t, prev) && (prev.Some? ==> Covers(t, b, prev.value + [0]) && t.nodes[b].isLeaf)
    ensures prev.Some? ==> t.nodes[b].lower == prev.value
  {
    if prev.Some? {
      var a, k :| EndsLeaf(t, a, k, prev.value);
      NextLeaf(t, a, k, prev.value, b);
    }
  }

  /** After a hop: the report is complete, or complete up to the leaf's upper fence, or, if the callback stopped the
      scan, up to the last entry it saw. */
  lemma HopEnds(t: Tree, m: map<Key, seq<Byte>>, a: Address, es: seq<Entry>, prev: Option<Key>, start: Key,
                from: nat, to: nat, out: seq<Entry>, go: bool)
    requires WellFormed(t) && Answers(t, m) && Covers(t, a, SearchKey(prev, start)) && t.nodes[a].isLeaf
    requires IsStart(t.nodes[a], prev, start, from) && from <= to <= |t.nodes[a].entries| && Reported(m, es, start, prev)
    requires out == t.nodes[a].entries[from..to] && (if go then to == |t.nodes[a].entries| else to > from)
    ensures !go ==> es + out != [] && Ascends(m, es + out, start, Some((es + out)[|es + out| - 1].key))
    ensures go && t.nodes[a].upper == [] ==> Ascends(m, es + out, start, None)
    ensures go && t.nodes[a].upper != [] ==> Reported(m, es + out, start, Some(t.nodes[a].upper)) && LeadsOn(t, Some(t.nodes[a].upper))
  {
    var n := t.nodes[a];
    assert NodeOk(t, a);
    if !go {
      StartsAt(n, prev, start, from, to - 1);
      assert (es + out)[|es + out| - 1] == n.entries[to - 1];
      HopReports(t, m, a, es, prev, start, from, to, Some(n.entries[to - 1].key), out);
    } else if n.upper == [] {
      HopReports(t, m, a, es, prev, start, from, to, None, out);
    } else {
      assert EndsLeaf(t, a, SearchKey(prev, start), n.upper);
      if prev.Some? {
        NothingBetween(prev.value, prev.value);
        LessEqTrans(prev.value, prev.value + [0], n.upper);
        LessEqTrans(start, prev.value, n.upper);
      }
      HopReports(t, m, a, es, prev, start, from, to, Some(n.upper), out);
    }
  }

  // ---- the buffer ----

  lemma BufferFits(n: Node, m: nat, length: nat)
    requires KeysAtMost(n, m) && m <= length && CommonPrefix(n.lower, n.upper) <= |n.lower|
    ensures forall i | 0 <= i < |n.entries| :: |n.entries[i].key| <= length
    ensures |FencePrefix(n.lower, n.upper)| <= length
  {
    forall i | 0 <= i < |n.entries| ensures |n.entries[i].key| <= length { assert EntryAtMost(n, i, m); }
  }

  lemma BufferStartsWith(prefix: Key, key: Key, buf: seq<Byte>)
    requires prefix <= key && |key| <= |buf| && buf[..|key|] == key
    ensures buf[..|prefix|] == prefix
  {
    assert buf[..|prefix|] == buf[..|key|][..|prefix|];
  }

  lemma FenceHasPrefix(n: Node)
    ensures FencePrefix(n.lower, n.upper) <= n.upper
    ensures FencePrefix(n.lower, n.upper) == n.upper[..|FencePrefix(n.lower, n.upper)|]
  {
  }

  /** The pages a scan has not passed: those that end at or above its search key. */
  ghost function Unpassed(t: Tree, k: Key): set<Address> {
    set a | a in t.nodes && EndsAtOrAbove(t.nodes[a], k)
  }

  ghost predicate EndsAtOrAbove(n: Node, k: Key) {
    n.upper == [] || LessEq(k, n.upper)
  }

  lemma HopPasses(t: Tree, a: Address, k: Key)
    requires Covers(t, a, k) && t.nodes[a].upper != []
    ensures Unpassed(t, t.nodes[a].upper + [0]) < Unpassed(t, k)
  {
    var u := t.nodes[a].upper;
    NothingBetween(u, u);
    forall b | b in Unpassed(t, u + [0]) ensures b in Unpassed(t, k) {
      if t.nodes[b].upper != [] {
        LessEqTrans(u, u + [0], t.nodes[b].upper);
        LessEqTrans(k, u, t.nodes[b].upper);
      }
    }
    assert a in Unpassed(t, k) && a !in Unpassed(t, u + [0]);
  }

  // ---- descending ----

  /** Where the reported part of a leaf ends below: at the leaf's lower fence, or at its last reported entry. */
  ghost predicate IsFloor(n: Node, from: nat, end: Floor) {
    && from <= |n.entries|
    && ((end == (if n.lower == [] then NoFloor else MoreThan(n.lower)) && from == 0)
        || (from < |n.entries| && end == AtLeast(n.entries[from].key)))
  }

  /** The entries of a leaf up to top are those with keys up to s. */
  ghost predicate IsTop(n: Node, s: Key, top: nat) {
    top <= |n.entries| && forall i | 0 <= i < |n.entries| :: LessEq(n.entries[i].key, s) <==> i < top
  }

  lemma FloorAt(n: Node, from: nat, end: Floor, i: nat)
    requires Ordered(n) && IsFloor(n, from, end) && i < |n.entries|
    ensures from <= i <==> AboveFloor(end, n.entries[i].key)
  {
    assert Within(n.lower, n.upper, n.entries[i].key);
    if from < |n.entries| && end == AtLeast(n.entries[from].key) {
      LessTotal(n.entries[i].key, n.entries[from].key);
      if i < from { assert InOrder(n.entries, i, from); } else if from < i { assert InOrder(n.entries, from, i); }
    }
  }

  lemma HopCoversDown(t: Tree, a: Address, s: Key, from: nat, end: Floor, k: Key)
    requires WellFormed(t) && Covers(t, a, s) && IsFloor(t.nodes[a], from, end) && LessEq(k, s) && AboveFloor(end, k)
    ensures Covers(t, a, k)
  {
    var n := t.nodes[a];
    assert NodeOk(t, a);
    if n.upper != [] { LessEqTrans(k, s, n.upper); }
    if n.lower != [] && end != MoreThan(n.lower) {
      assert Within(n.lower, n.upper, n.entries[from].key);
      LessEqTrans(n.lower, n.entries[from].key, k);
    }
  }

  lemma HopOwedDown(t: Tree, m: map<Key, seq<Byte>>, a: Address, s: Key, from: nat, top: nat, end: Floor, k: Key, v: seq<Byte>)
    requires WellFormed(t) && Answers(t, m) && Covers(t, a, s) && t.nodes[a].isLeaf
    requires IsTop(t.nodes[a], s, top) && IsFloor(t.nodes[a], from, end) && from <= top
    ensures Entry(k, v) in Reversed(t.nodes[a].entries[from..top]) <==> k in m && m[k] == v && LessEq(k, s) && AboveFloor(end, k)
  {
    var n := t.nodes[a];
    assert NodeOk(t, a);
    forall i | 0 <= i < |n.entries|
      ensures from <= i < top <==> LessEq(n.entries[i].key, s) && AboveFloor(end, n.entries[i].key)
    {
      FloorAt(n, from, end, i);
    }
    if LessEq(k, s) && AboveFloor(end, k) {
      HopCoversDown(t, a, s, from, end, k);
      LeafHolds(t, m, a, k, v);
    }
    InSlice(n.entries, from, top, Entry(k, v));
    ReversedHas(n.entries[from..top], Entry(k, v));
  }

  /** One hop down extends the report of all keys above s to its own end. */
  lemma HopReportsDown(t: Tree, m: map<Key, seq<Byte>>, a: Address, es: seq<Entry>, start: Key, s: Key,
                       from: nat, top: nat, end: Floor, out: seq<Entry>)
    requires WellFormed(t) && Answers(t, m) && Covers(t, a, s) && t.nodes[a].isLeaf && LessEq(s, start)
    requires IsTop(t.nodes[a], s, top) && IsFloor(t.nodes[a], from, end) && from <= top
    requires Descends(m, es, start, MoreThan(s)) && out == Reversed(t.nodes[a].entries[from..top])
    requires end.NoFloor? || LessEq(end.key, s)
    ensures Descends(m, es + out, start, end)
  {
    forall k, v ensures OwedDown(m, es + out, start, end, k, v) {
      HopOwedDown(t, m, a, s, from, top, end, k, v);
      assert OwedDown(m, es, start, MoreThan(s), k, v);
      LessTotal(s, k);
      if LessEq(k, s) { LessEqTrans(k, s, start); }
      if Less(s, k) && !end.NoFloor? { LessEqTrans(end.key, s, k); }
    }
    assert NodeOk(t, a);
    forall i, j | 0 <= i < j < |es + out| ensures InOrder(es + out, j, i) {
      HopFalling(t.nodes[a], m, es, start, s, from, top, out, i, j);
    }
  }

  lemma HopFalling(n: Node, m: map<Key, seq<Byte>>, es: seq<Entry>, start: Key, s: Key,
                   from: nat, top: nat, out: seq<Entry>, i: nat, j: nat)
    requires Ordered(n) && IsTop(n, s, top) && from <= top
    requires Descends(m, es, start, MoreThan(s)) && out == Reversed(n.entries[from..top]) && i < j < |es + out|
    ensures InOrder(es + out, j, i)
  {
    if j < |es| {
      assert InOrder(es, j, i);
    } else {
      var j' := top - 1 - (j - |es|);
      assert (es + out)[j] == n.entries[j'];
      if i < |es| {
        assert OwedDown(m, es, start, MoreThan(s), es[i].key, es[i].payload);
        assert es[i] in es;
        LessEqTrans(n.entries[j'].key, s, es[i].key);
      } else {
        assert InOrder(n.entries, j', top - 1 - (i - |es|));
      }
    }
  }

  lemma DescendsNothing(m: map<Key, seq<Byte>>, start: Key)
    ensures Descends(m, [], start, MoreThan(start))
  {
    forall k, v ensures OwedDown(m, [], start, MoreThan(start), k, v) {
      LessTotal(start, k);
      LessTotal(k, k);
    }
  }

  lemma FenceFits(t: Tree, a: Address)
    requires WellFormed(t) && a in t.nodes
    ensures |t.nodes[a].lower| <= t.longest
  {
    assert NodeOk(t, a);
  }

  /** After a hop down: the report is complete, or complete down to the leaf's lower fence, or, if the callback stopped
      the scan, down to the last entry it saw. */
  lemma HopEndsDown(t: Tree, m: map<Key, seq<Byte>>, a: Address, es: seq<Entry>, start: Key, s: Key,
                    from: nat, top: nat, out: seq<Entry>, go: bool)
    requires WellFormed(t) && Answers(t, m) && Covers(t, a, s) && t.nodes[a].isLeaf && LessEq(s, start)
    requires IsTop(t.nodes[a], s, top) && from <= top && out == Reversed(t.nodes[a].entries[from..top])
    requires Descends(m, es, start, MoreThan(s)) && (if go then from == 0 else from < top)
    ensures !go ==> es + out != [] && Descends(m, es + out, start, AtLeast((es + out)[|es + out| - 1].key))
    ensures go && t.nodes[a].lower == [] ==> Descends(m, es + out, start, NoFloor)
    ensures go && t.nodes[a].lower != [] ==> Descends(m, es + out, start, MoreThan(t.nodes[a].lower))
  {
    var n := t.nodes[a];
    assert NodeOk(t, a);
    if !go {
      assert (es + out)[|es + out| - 1] == n.entries[from];
      HopReportsDown(t, m, a, es, start, s, from, top, AtLeast(n.entries[from].key), out);
    } else {
      HopReportsDown(t, m, a, es, start, s, from, top, if n.lower == [] then NoFloor else MoreThan(n.lower), out);
    }
  }

  /** The pages a descending scan has not passed: those that begin below its search key. */
  ghost function UnpassedDown(t: Tree, s: Key): set<Address> {
    set a | a in t.nodes && BeginsBelow(t.nodes[a], s)
  }

  ghost predicate BeginsBelow(n: Node, s: Key) {
    n.lower == [] || Less(n.lower, s)
  }

  lemma HopPassesDown(t: Tree, a: Address, s: Key)
    requires Covers(t, a, s) && t.nodes[a].lower != []
    ensures UnpassedDown(t, t.nodes[a].lower) < UnpassedDown(t, s) && Less(t.nodes[a].lower, s)
  {
    var l := t.nodes[a].lower;
    forall b | b in UnpassedDown(t, l) ensures b in UnpassedDown(t, s) {
      if t.nodes[b].lower != [] { LessTrans(t.nodes[b].lower, l, s); }
    }
    LessTotal(l, l);
    assert a in UnpassedDown(t, s) && a !in UnpassedDown(t, l);
  }
}
