/** Why insert's split-and-retry ends: a measure of the pages on the key's path that every split lowers. */
module Potentials {
  import opened Bytes
  import opened Nodes
  import opened Separators
  import opened Trees
  import opened TreeSteps

  /** Entries of the page d steps down the path of k. */
  ghost function CountAt(t: Tree, k: Key, d: nat): nat {
    if At(t, k, d) in t.nodes then |t.nodes[At(t, k, d)].entries| else 0
  }

  /** Entries of the first d pages on the path. */
  ghost function InnerSum(t: Tree, k: Key, d: nat): nat {
    if d == 0 then 0 else InnerSum(t, k, d - 1) + CountAt(t, k, d - 1)
  }

  /** k goes to the last child of the page d steps down. */
  ghost predicate GoesLast(t: Tree, k: Key, d: nat) {
    At(t, k, d) in t.nodes && IsLowerBound(t.nodes[At(t, k, d)].entries, k, CountAt(t, k, d))
  }

  /** The leaf's last key is not its upper fence. */
  ghost predicate Slack(n: Node) {
    n.entries == [] || n.entries[|n.entries| - 1].key != n.upper
  }

  ghost function Flag(b: bool): nat {
    if b then 3 else 0
  }

  ghost function Potential(t: Tree, k: Key): nat
    requires t.root in t.level
  {
    var h := t.level[t.root];
    9 * CountAt(t, k, h) + 2 * InnerSum(t, k, h)
    + Flag(h == 0 || GoesLast(t, k, h - 1))
    + Flag(At(t, k, h) in t.nodes && Slack(t.nodes[At(t, k, h)]))
  }

  // ---- a new root ----

  lemma {:induction false} RootPath(t: Tree, r: Address, k: Key, d: nat)
    requires WellFormed(t) && r !in t.nodes && r != 0 && d <= t.level[t.root] && WellFormed(RootStep(t, r))
    ensures At(RootStep(t, r), k, d + 1) == At(t, k, d) && At(t, k, d) in t.nodes
  {
    PathOk(t, k, d);
    Located(RootStep(t, r), At(t, k, d), k);
  }

  lemma {:induction false} RootSum(t: Tree, r: Address, k: Key, d: nat)
    requires WellFormed(t) && r !in t.nodes && r != 0 && d <= t.level[t.root] && WellFormed(RootStep(t, r))
    ensures InnerSum(RootStep(t, r), k, d + 1) == InnerSum(t, k, d)
  {
    var t' := RootStep(t, r);
    if d == 0 {
      assert CountAt(t', k, 0) == 0;
      assert InnerSum(t', k, 0) == 0;
    } else {
      RootSum(t, r, k, d - 1);
      RootPath(t, r, k, d - 1);
    }
  }

  /** Putting an empty root on top does not change the measure. */
  lemma RootPotential(t: Tree, r: Address, k: Key)
    requires WellFormed(t) && r !in t.nodes && r != 0 && WellFormed(RootStep(t, r))
    ensures Potential(RootStep(t, r), k) == Potential(t, k)
  {
    var h := t.level[t.root];
    RootPath(t, r, k, h);
    RootSum(t, r, k, h);
    if h > 0 {
      RootPath(t, r, k, h - 1);
    } else {
      assert GoesLast(RootStep(t, r), k, 0);
    }
  }

  // ---- a split ----

  /** The half that k goes to. */
  ghost function HalfFor(a: Address, left: Address, sep: Key, k: Key): Address {
    if LessEq(k, sep) then left else a
  }

  lemma OnPath(t: Tree, a: Address, k: Key, d: nat)
    requires WellFormed(t) && Covers(t, a, k) && a in t.level && t.level[a] + d == t.level[t.root]
    ensures At(t, k, d) == a
  {
    Located(t, a, k);
  }

  lemma PathAt(t: Tree, k: Key, d: nat)
    requires WellFormed(t) && d <= t.level[t.root]
    ensures At(t, k, d) in t.level && t.level[At(t, k, d)] + d == t.level[t.root] && Covers(t, At(t, k, d), k)
  {
    PathOk(t, k, d);
  }

  /** Pages other than the one that splits stay on the paths they were on. */
  lemma SplitPathElsewhere(t: Tree, a: Address, slot: nat, sep: Key, left: Address, i0: nat, k: Key, d: nat)
    requires Splitting(t, a, slot, left, i0) && WellFormed(SplitAt(t, a, slot, sep, left, i0))
    requires d <= t.level[t.root] && t.level[a] + d != t.level[t.root]
    ensures At(t, k, d) in t.nodes && At(t, k, d) != a && At(SplitAt(t, a, slot, sep, left, i0), k, d) == At(t, k, d)
  {
    PathAt(t, k, d);
    OnPath(SplitAt(t, a, slot, sep, left, i0), At(t, k, d), k, d);
  }

  /** Where the page splits the path continues in the half that covers the key. */
  lemma SplitPathHere(t: Tree, a: Address, slot: nat, sep: Key, left: Address, i0: nat, k: Key, d: nat)
    requires Splitting(t, a, slot, left, i0) && WellFormed(SplitAt(t, a, slot, sep, left, i0)) && Covers(t, a, k)
    requires sep != [] && t.level[a] + d == t.level[t.root]
    ensures At(t, k, d) == a && At(SplitAt(t, a, slot, sep, left, i0), k, d) == HalfFor(a, left, sep, k)
  {
    OnPath(t, a, k, d);
    LessTotal(k, sep);
    OnPath(SplitAt(t, a, slot, sep, left, i0), HalfFor(a, left, sep, k), k, d);
  }

  /** Entries at depth d change like in a split of the page below depth dp by which it has delta fewer. */
  ghost predicate CountStep(t: Tree, t': Tree, k: Key, d: nat, dp: nat, delta: int) {
    CountAt(t', k, d) == CountAt(t, k, d) + (if d == dp then 1 else if d == dp + 1 then -delta else 0)
  }

  lemma {:induction false} SumStep(t: Tree, t': Tree, k: Key, d: nat, dp: nat, delta: int)
    requires forall j: nat | j < d :: CountStep(t, t', k, j, dp, delta)
    ensures InnerSum(t', k, d) == InnerSum(t, k, d) + (if d > dp then 1 else 0) - (if d > dp + 1 then delta else 0)
  {
    if d > 0 {
      SumStep(t, t', k, d - 1, dp, delta);
      assert CountStep(t, t', k, d - 1, dp, delta);
    }
  }

  lemma SplitCount(t: Tree, a: Address, slot: nat, sep: Key, left: Address, i0: nat, k: Key, d: nat, dp: nat)
    requires Splitting(t, a, slot, left, i0) && WellFormed(SplitAt(t, a, slot, sep, left, i0)) && Covers(t, a, k) && sep != []
    requires d <= t.level[t.root] && t.level[a] + dp + 1 == t.level[t.root]
    requires At(t, k, dp) == t.parent[a]
    ensures var t' := SplitAt(t, a, slot, sep, left, i0);
      CountStep(t, t', k, d, dp, |t.nodes[a].entries| - |t'.nodes[HalfFor(a, left, sep, k)].entries|)
  {
    if d == dp + 1 {
      SplitPathHere(t, a, slot, sep, left, i0, k, d);
    } else {
      SplitPathElsewhere(t, a, slot, sep, left, i0, k, d);
      if d != dp {
        PathAt(t, k, d);
      }
    }
  }

  lemma ParentOnPath(t: Tree, a: Address, k: Key, dp: nat)
    requires WellFormed(t) && Covers(t, a, k) && a in t.level && t.level[a] + dp + 1 == t.level[t.root]
    ensures a in t.parent && At(t, k, dp) == t.parent[a] && t.parent[a] in t.nodes && Sorted(t.nodes[t.parent[a]].entries)
    ensures At(t, k, dp + 1) == a
  {
    OnPath(t, a, k, dp + 1);
    PathOk(t, k, dp);
    RouteOk(t, At(t, k, dp), k);
  }

  /** Entries of the path's inner pages after a split. */
  lemma SplitInnerSum(t: Tree, a: Address, slot: nat, sep: Key, left: Address, i0: nat, k: Key, d: nat, dp: nat)
    requires Splitting(t, a, slot, left, i0) && WellFormed(SplitAt(t, a, slot, sep, left, i0)) && Covers(t, a, k) && sep != []
    requires d <= t.level[t.root] && t.level[a] + dp + 1 == t.level[t.root]
    ensures var t' := SplitAt(t, a, slot, sep, left, i0);
      InnerSum(t', k, d) == InnerSum(t, k, d) + (if d > dp then 1 else 0)
        - (if d > dp + 1 then |t.nodes[a].entries| - |t'.nodes[HalfFor(a, left, sep, k)].entries| else 0)
  {
    var t' := SplitAt(t, a, slot, sep, left, i0);
    var delta := |t.nodes[a].entries| - |t'.nodes[HalfFor(a, left, sep, k)].entries|;
    ParentOnPath(t, a, k, dp);
    forall j: nat | j < d ensures CountStep(t, t', k, j, dp, delta) {
      SplitCount(t, a, slot, sep, left, i0, k, j, dp);
    }
    SumStep(t, t', k, d, dp, delta);
  }

  /** Flags and leaf entries of a potential, given the path's last two pages. */
  ghost function LeafPart(leaf: Node, last: bool): nat {
    9 * |leaf.entries| + Flag(last) + Flag(Slack(leaf))
  }

  lemma PotentialIs(t: Tree, k: Key, leaf: Address)
    requires t.root in t.level && At(t, k, t.level[t.root]) == leaf && leaf in t.nodes
    ensures var h := t.level[t.root];
      Potential(t, k) == LeafPart(t.nodes[leaf], h == 0 || GoesLast(t, k, h - 1)) + 2 * InnerSum(t, k, h)
  {
  }

  /** A leaf of two entries splits with an empty right half; its left half is then cut tight by the separator,
      and is not the parent's last child. */
  lemma TightLeaf(t: Tree, a: Address, sep: Key, left: Address, i0: nat, k: Key)
    requires CanSplit(t, a, 1, sep, left, i0) && t.nodes[a].isLeaf && |t.nodes[a].entries| == 2
    requires Covers(t, a, k) && sep == t.nodes[a].entries[1].key
    ensures !Slack(SplitLeft(t.nodes[a], 1, sep)) && SplitLeft(t.nodes[a], 1, sep).entries == t.nodes[a].entries
    ensures Slack(t.nodes[a]) || IsLowerBound(t.nodes[t.parent[a]].entries, k, |t.nodes[t.parent[a]].entries|)
    ensures LessEq(k, sep) ==> !IsLowerBound(InsertEntry(t.nodes[t.parent[a]], Entry(sep, EncodePtr(left))).entries, k,
                                             |t.nodes[t.parent[a]].entries| + 1)
  {
    var p := t.nodes[t.parent[a]];
    assert SplitLeft(t.nodes[a], 1, sep).entries == t.nodes[a].entries;
    if !Slack(t.nodes[a]) {
      var i := PlaceOf(t, a, k);
      assert HasChildIndex(t, t.parent[a], i);
      assert ChildOk(t, t.parent[a], i);
    }
    assert InsertEntry(p, Entry(sep, EncodePtr(left))).entries[i0].key == sep;
    LessTotal(k, sep);
  }

  /** Measures of two trees of one height whose paths' sums differ by diff. */
  lemma PotentialDiff(t: Tree, t': Tree, k: Key, h: nat, leaf: Address, leaf': Address, diff: int)
    requires t.root in t.level && t'.root in t'.level && t.level[t.root] == t'.level[t'.root] == h > 0
    requires At(t, k, h) == leaf && leaf in t.nodes && At(t', k, h) == leaf' && leaf' in t'.nodes
    requires InnerSum(t', k, h) == InnerSum(t, k, h) + diff
    ensures Potential(t', k) - LeafPart(t'.nodes[leaf'], GoesLast(t', k, h - 1))
         == Potential(t, k) - LeafPart(t.nodes[leaf], GoesLast(t, k, h - 1)) + 2 * diff
  {
    PotentialIs(t, k, leaf);
    PotentialIs(t', k, leaf');
  }

  /** The measure before and after a leaf splits. */
  lemma LeafSplitPotential(t: Tree, a: Address, slot: nat, sep: Key, left: Address, i0: nat, k: Key)
    requires Splitting(t, a, slot, left, i0) && WellFormed(SplitAt(t, a, slot, sep, left, i0)) && Covers(t, a, k)
    requires t.level[a] == 0 < t.level[t.root] && sep != []
    ensures var t' := SplitAt(t, a, slot, sep, left, i0); var h := t.level[t.root];
      Potential(t', k) - LeafPart(t'.nodes[HalfFor(a, left, sep, k)], GoesLast(t', k, h - 1))
      == Potential(t, k) - LeafPart(t.nodes[a], GoesLast(t, k, h - 1)) + 2
  {
    var t' := SplitAt(t, a, slot, sep, left, i0);
    var h := t.level[t.root];
    SplitPathHere(t, a, slot, sep, left, i0, k, h);
    SplitInnerSum(t, a, slot, sep, left, i0, k, h, h - 1);
    PotentialDiff(t, t', k, h, a, HalfFor(a, left, sep, k), 1);
  }

  /** What a split does to the leaf's part of the measure. */
  lemma LeafPartLowers(n: Node, half: Node, last: bool, last': bool)
    requires |half.entries| < |n.entries| || (|half.entries| == |n.entries| && !Slack(half) && !last' && (Slack(n) || last))
    ensures LeafPart(half, last') + 2 < LeafPart(n, last)
  {
  }

  lemma TightSplit(t: Tree, a: Address, sep: Key, left: Address, i0: nat, k: Key, d: nat)
    requires Splitting(t, a, 1, left, i0) && WellFormed(SplitAt(t, a, 1, sep, left, i0)) && Covers(t, a, k)
    requires t.level[a] == 0 && d + 1 == t.level[t.root]
    requires var p := t.nodes[t.parent[a]];
      !IsLowerBound(Inserted(p.entries, i0, Entry(sep, EncodePtr(left))), k, |p.entries| + 1)
    ensures IsLowerBound(t.nodes[t.parent[a]].entries, k, |t.nodes[t.parent[a]].entries|) ==> GoesLast(t, k, d)
    ensures !GoesLast(SplitAt(t, a, 1, sep, left, i0), k, d)
  {
    ParentOnPath(t, a, k, d);
    SplitPathElsewhere(t, a, 1, sep, left, i0, k, d);
  }

  lemma HalfSmaller(n: Node, slot: nat, sep: Key)
    requires slot + 1 < |n.entries| && n.isLeaf
    ensures |SplitLeft(n, slot, sep).entries| < |n.entries| && |SplitRight(n, slot, sep).entries| < |n.entries|
  {
  }

  lemma LeafSplitSums(t: Tree, a: Address, slot: nat, sep: Key, left: Address, i0: nat, k: Key, d: nat)
    requires Splitting(t, a, slot, left, i0) && WellFormed(SplitAt(t, a, slot, sep, left, i0)) && Covers(t, a, k)
    requires t.level[a] == 0 && d + 1 == t.level[t.root] && sep != []
    requires var t' := SplitAt(t, a, slot, sep, left, i0); var n, half := t.nodes[a], t'.nodes[HalfFor(a, left, sep, k)];
      |half.entries| < |n.entries|
      || (|half.entries| == |n.entries| && !Slack(half) && !GoesLast(t', k, d) && (Slack(n) || GoesLast(t, k, d)))
    ensures Potential(SplitAt(t, a, slot, sep, left, i0), k) < Potential(t, k)
  {
    var t' := SplitAt(t, a, slot, sep, left, i0);
    LeafSplitPotential(t, a, slot, sep, left, i0, k);
    LeafPartLowers(t.nodes[a], t'.nodes[HalfFor(a, left, sep, k)], GoesLast(t, k, d), GoesLast(t', k, d));
  }

  lemma LeafSplitLowers(t: Tree, a: Address, slot: nat, sep: Key, left: Address, i0: nat, k: Key)
    requires CanSplit(t, a, slot, sep, left, i0) && WellFormed(SplitAt(t, a, slot, sep, left, i0)) && Covers(t, a, k)
    requires t.nodes[a].isLeaf && t.level[a] == 0 < t.level[t.root] && sep != []
    requires slot + 1 < |t.nodes[a].entries| || (|t.nodes[a].entries| == 2 && slot == 1 && sep == t.nodes[a].entries[1].key)
    ensures Potential(SplitAt(t, a, slot, sep, left, i0), k) < Potential(t, k)
  {
    var d := t.level[t.root] - 1;
    var n := t.nodes[a];
    if slot + 1 < |n.entries| {
      HalfSmaller(n, slot, sep);
    } else if LessEq(k, sep) {
      TightLeaf(t, a, sep, left, i0, k);
      TightSplit(t, a, sep, left, i0, k, d);
    }
    LeafSplitSums(t, a, slot, sep, left, i0, k, d);
  }

  /** The right half's last child is the page's last child. */
  lemma LastOfRight(n: Node, slot: nat, sep: Key, k: Key)
    requires Ordered(n) && SplitsAt(n, slot, sep) && Less(sep, k)
    requires var r := SplitRight(n, slot, sep); IsLowerBound(r.entries, k, |r.entries|)
    ensures IsLowerBound(n.entries, k, |n.entries|)
  {
    SplitSeparates(n, slot, sep);
    SplitOrder(n, slot, sep);
    forall i | 0 <= i < |n.entries| ensures Less(n.entries[i].key, k) {
      if i <= slot {
        LessEqTrans(n.entries[i].key, sep, k);
      } else {
        assert n.entries[i] == SplitRight(n, slot, sep).entries[i - slot - 1];
      }
    }
  }

  lemma LastHigher(t: Tree, a: Address, slot: nat, sep: Key, left: Address, i0: nat, k: Key, d: nat)
    requires Splitting(t, a, slot, left, i0) && WellFormed(SplitAt(t, a, slot, sep, left, i0))
    requires d + 1 == t.level[t.root] && t.level[a] > 1
    ensures GoesLast(SplitAt(t, a, slot, sep, left, i0), k, d) <==> GoesLast(t, k, d)
  {
    SplitPathElsewhere(t, a, slot, sep, left, i0, k, d);
    PathAt(t, k, d);
  }

  lemma LastHere(t: Tree, a: Address, slot: nat, sep: Key, left: Address, i0: nat, k: Key, d: nat)
    requires Splitting(t, a, slot, left, i0) && WellFormed(SplitAt(t, a, slot, sep, left, i0)) && Covers(t, a, k) && sep != []
    requires d + 1 == t.level[t.root] && t.level[a] == 1 && Less(sep, k)
    requires Ordered(t.nodes[a]) && SplitsAt(t.nodes[a], slot, sep)
    ensures GoesLast(SplitAt(t, a, slot, sep, left, i0), k, d) ==> GoesLast(t, k, d)
  {
    SplitPathHere(t, a, slot, sep, left, i0, k, d);
    LessTotal(k, sep);
    if GoesLast(SplitAt(t, a, slot, sep, left, i0), k, d) {
      LastOfRight(t.nodes[a], slot, sep, k);
    }
  }

  lemma LastAfterSplit(t: Tree, a: Address, slot: nat, sep: Key, left: Address, i0: nat, k: Key)
    requires Splitting(t, a, slot, left, i0) && WellFormed(SplitAt(t, a, slot, sep, left, i0)) && Covers(t, a, k)
    requires SplitsAt(t.nodes[a], slot, sep)
    requires !t.nodes[a].isLeaf && 0 < t.level[a] < t.level[t.root] && sep != []
    ensures GoesLast(SplitAt(t, a, slot, sep, left, i0), k, t.level[t.root] - 1) && !LessEq(k, sep)
        ==> GoesLast(t, k, t.level[t.root] - 1)
  {
    if t.level[a] > 1 {
      LastHigher(t, a, slot, sep, left, i0, k, t.level[t.root] - 1);
    } else if !LessEq(k, sep) {
      LessTotal(k, sep);
      assert NodeOk(t, a);
      LastHere(t, a, slot, sep, left, i0, k, t.level[t.root] - 1);
    }
  }

  /** Leaves are untouched when an inner page splits. */
  lemma LeafUntouched(t: Tree, a: Address, slot: nat, sep: Key, left: Address, i0: nat, k: Key)
    requires Splitting(t, a, slot, left, i0) && WellFormed(SplitAt(t, a, slot, sep, left, i0)) && 0 < t.level[a]
    ensures var t' := SplitAt(t, a, slot, sep, left, i0); var h := t.level[t.root];
      At(t', k, h) == At(t, k, h) && At(t, k, h) in t.nodes && t'.nodes[At(t, k, h)] == t.nodes[At(t, k, h)]
  {
    var h := t.level[t.root];
    PathAt(t, k, h);
    SplitPathElsewhere(t, a, slot, sep, left, i0, k, h);
  }

  /** The measure before and after an inner page splits: the leaf's part only changes by the flag of its place. */
  lemma InnerSplitPotential(t: Tree, a: Address, slot: nat, sep: Key, left: Address, i0: nat, k: Key, leaf: Address, h: nat)
    requires Splitting(t, a, slot, left, i0) && WellFormed(SplitAt(t, a, slot, sep, left, i0)) && Covers(t, a, k)
    requires 0 < t.level[a] < h == t.level[t.root] && sep != [] && leaf == At(t, k, h)
    ensures var t' := SplitAt(t, a, slot, sep, left, i0);
      leaf in t.nodes && leaf in t'.nodes && t.nodes[leaf] == t'.nodes[leaf] && At(t', k, h) == leaf
      && InnerSum(t', k, h) == InnerSum(t, k, h) + 1 + |t'.nodes[HalfFor(a, left, sep, k)].entries| - |t.nodes[a].entries|
  {
    LeafUntouched(t, a, slot, sep, left, i0, k);
    SplitInnerSum(t, a, slot, sep, left, i0, k, h, h - t.level[a] - 1);
  }

  lemma SumLowers(t: Tree, t': Tree, k: Key, h: nat, leaf: Address, diff: int)
    requires t.root in t.level && t'.root in t'.level && t.level[t.root] == t'.level[t'.root] == h > 0
    requires leaf in t.nodes && leaf in t'.nodes && t.nodes[leaf] == t'.nodes[leaf] && At(t, k, h) == leaf == At(t', k, h)
    requires InnerSum(t', k, h) == InnerSum(t, k, h) + diff
    requires diff <= -2 || (diff <= -1 && (GoesLast(t', k, h - 1) ==> GoesLast(t, k, h - 1)))
    ensures Potential(t', k) < Potential(t, k)
  {
    PotentialDiff(t, t', k, h, leaf, leaf, diff);
  }

  lemma InnerHalves(n: Node, slot: nat, sep: Key)
    requires !n.isLeaf && |n.entries| >= 4 && slot == |n.entries| / 2 - 1
    ensures |SplitLeft(n, slot, sep).entries| - |n.entries| <= -3
    ensures |SplitRight(n, slot, sep).entries| - |n.entries| <= -2
  {
  }

  lemma InnerSplitSums(t: Tree, a: Address, slot: nat, sep: Key, left: Address, i0: nat, k: Key, h: nat)
    requires Splitting(t, a, slot, left, i0) && WellFormed(SplitAt(t, a, slot, sep, left, i0)) && Covers(t, a, k)
    requires !t.nodes[a].isLeaf && 0 < t.level[a] < h == t.level[t.root] && sep != []
    requires |t.nodes[a].entries| >= 4 && slot == |t.nodes[a].entries| / 2 - 1
    requires GoesLast(SplitAt(t, a, slot, sep, left, i0), k, h - 1) && !LessEq(k, sep) ==> GoesLast(t, k, h - 1)
    ensures Potential(SplitAt(t, a, slot, sep, left, i0), k) < Potential(t, k)
  {
    var t' := SplitAt(t, a, slot, sep, left, i0);
    InnerHalves(t.nodes[a], slot, sep);
    InnerSplitPotential(t, a, slot, sep, left, i0, k, At(t, k, h), h);
    SumLowers(t, t', k, h, At(t, k, h), 1 + |t'.nodes[HalfFor(a, left, sep, k)].entries| - |t.nodes[a].entries|);
  }

  lemma InnerSplitLowers(t: Tree, a: Address, slot: nat, sep: Key, left: Address, i0: nat, k: Key)
    requires CanSplit(t, a, slot, sep, left, i0) && WellFormed(SplitAt(t, a, slot, sep, left, i0)) && Covers(t, a, k)
    requires !t.nodes[a].isLeaf && 0 < t.level[a] < t.level[t.root] && sep != []
    requires |t.nodes[a].entries| >= 4 && slot == |t.nodes[a].entries| / 2 - 1
    ensures Potential(SplitAt(t, a, slot, sep, left, i0), k) < Potential(t, k)
  {
    LastAfterSplit(t, a, slot, sep, left, i0, k);
    InnerSplitSums(t, a, slot, sep, left, i0, k, t.level[t.root]);
  }
}
