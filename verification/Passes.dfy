/** An insert as its passes see it: the pages on the key's path without their child pointers, and the number of free
    addresses. Whether the insert is refused, now or after some splits, is a matter of these alone. */
module Passes {
  import opened Hiding
  import opened Bytes
  import opened Layout
  import opened Nodes
  import opened Separators
  import opened Trees
  import opened TreeSteps
  import opened Potentials
  import opened Splits

  /** An inner page without its child pointers. */
  ghost function Blank(n: Node): Node {
    if n.isLeaf then n else n.(entries := BlankEntries(n.entries), upperChild := 0)
  }

  ghost function BlankEntries(es: seq<Entry>): (bs: seq<Entry>)
    ensures |bs| == |es| && forall i | 0 <= i < |es| :: bs[i] == Entry(es[i].key, EncodePtr(0))
  {
    seq(|es|, i requires 0 <= i < |es| => Entry(es[i].key, EncodePtr(0)))
  }

  /** The pages from the leaf up to the root. */
  datatype Path = Path(pages: seq<Node>, free: nat)

  // ---- what a pass does to the path ----

  /** The page a split of page i goes to. */
  ghost function Above(p: Path, i: nat): Node {
    if i + 1 < |p.pages| then p.pages[i + 1] else RootNode(0)
  }

  /** What splitNodeWithParent comes to. */
  ghost function VerdictOn(p: Path, i: nat): SplitOutcome
    requires i < |p.pages|
  {
    var n, par := p.pages[i], Above(p, i);
    if |n.entries| < 2 then Failed
    else if AsksTooMuch(n, par) then ParentFull
    else if p.free <= (if i + 1 < |p.pages| then 0 else 1) || Unusable(n, par) then Failed
    else Split
  }

  ghost predicate BlockedOn(p: Path, i: nat)
    requires i < |p.pages|
    decreases |p.pages| - i
  {
    match VerdictOn(p, i)
    case Split => false
    case Failed => true
    case ParentFull => i + 1 < |p.pages| && BlockedOn(p, i + 1)
  }

  /** The half of page i that the key goes to takes its place, and the page above gets the separator. */
  ghost function SplitOn(p: Path, i: nat, k: Key): Path {
    if i + 1 < |p.pages| && p.free > 0 && Sorted(p.pages[i + 1].entries) && exists info :: Picked(p.pages[i], info) then
      var n := p.pages[i];
      var info :| Picked(n, info);
      var sep := SepKey(n.entries, info);
      var half := if LessEq(k, sep) then SplitLeft(n, info.slot, sep) else SplitRight(n, info.slot, sep);
      Path(p.pages[i := Blank(half)][i + 1 := InsertEntry(p.pages[i + 1], Entry(sep, EncodePtr(0)))], p.free - 1)
    else p
  }

  ghost function Rooted(p: Path): Path {
    if p.free > 0 then Path(p.pages + [RootNode(0)], p.free - 1) else p
  }

  /** One pass splits page i or, when the page above is full, that one instead, and so on up. */
  ghost function PassOn(p: Path, i: nat, k: Key): Path
    requires i < |p.pages|
    decreases |p.pages| - i
  {
    match VerdictOn(p, i)
    case ParentFull => if i + 1 < |p.pages| then PassOn(p, i + 1, k) else p
    case _ => SplitOn(if i + 1 < |p.pages| then p else Rooted(p), i, k)
  }

  /** The leaf has no room, n passes split something, and then nothing can be split. */
  ghost predicate RefusedAfter(n: nat, p: Path, k: Key, payload: nat) {
    && |p.pages| > 0 && SpaceNeeded(p.pages[0], |k|, payload) > FreeAfterCompaction(p.pages[0])
    && (BlockedOn(p, 0) <==> n == 0)
    && (n > 0 ==> RefusedAfter(n - 1, PassOn(p, 0, k), k, payload))
  }

  // ---- the path in a tree ----

  ghost function FreeSet(t: Tree): set<int> {
    set x | 0 < x < 0x1_0000_0000_0000_0000 && x !in t.nodes
  }

  /** The page at that height on the key's path. */
  ghost function PageOn(t: Tree, k: Key, level: nat): Node {
    if t.root in t.level && level <= t.level[t.root] && At(t, k, t.level[t.root] - level) in t.nodes
    then Blank(t.nodes[At(t, k, t.level[t.root] - level)]) else RootNode(0)
  }

  ghost function PathLength(t: Tree): nat {
    if t.root in t.level then t.level[t.root] + 1 else 0
  }

  /** p is the path of a key. Unfolded only where IsPathNow is mentioned. */
  ghost predicate IsPath(t: Tree, k: Key, p: Path) {
    forall u: Unfold :: IsPathNow(u, t, k, p)
  }

  ghost predicate IsPathNow(u: Unfold, t: Tree, k: Key, p: Path) {
    && |p.pages| == PathLength(t) && p.free == |FreeSet(t)|
    && forall i | 0 <= i < |p.pages| :: p.pages[i] == PageOn(t, k, i)
  }

  ghost function PathOf(t: Tree, k: Key): (p: Path)
    ensures IsPath(t, k, p)
  {
    var q := Path(seq(PathLength(t), i requires 0 <= i < PathLength(t) => PageOn(t, k, i)), |FreeSet(t)|);
    assert IsPath(t, k, q) by { forall u: Unfold ensures IsPathNow(u, t, k, q) {} }
    var p :| IsPath(t, k, p);
    p
  }

  lemma PathUnique(t: Tree, k: Key, p: Path, q: Path)
    requires IsPath(t, k, p) && IsPath(t, k, q)
    ensures p == q
  {
    assert IsPathNow(Unfold, t, k, p) && IsPathNow(Unfold, t, k, q);
    SamePath(p, q);
  }

  /** An insert of that size into this tree will be refused, at once or after some splits. */
  ghost predicate Doomed(t: Tree, k: Key, payload: nat) {
    exists n: nat :: RefusedAfter(n, PathOf(t, k), k, payload)
  }

  /** Unfolded only where PassesNow is mentioned. */
  ghost predicate Passes(p: Path, q: Path, i: nat, k: Key) {
    forall u: Unfold :: PassesNow(u, p, q, i, k)
  }

  ghost predicate PassesNow(u: Unfold, p: Path, q: Path, i: nat, k: Key) {
    i < |p.pages| && q == PassOn(p, i, k)
  }

  /** One pass from the page at a has led from t to t', as far as the key's path shows. Unfolded only where PassedNow is
      mentioned. */
  ghost predicate Passed(t: Tree, t': Tree, a: Address, k: Key) {
    forall u: Unfold :: PassedNow(u, t, t', a, k)
  }

  ghost predicate PassedNow(u: Unfold, t: Tree, t': Tree, a: Address, k: Key) {
    a in t.level && Passes(PathOf(t, k), PathOf(t', k), t.level[a], k)
  }

  /** A split of the page at a has. */
  ghost predicate HasSplit(t: Tree, t': Tree, a: Address, k: Key) {
    forall u: Unfold :: HasSplitNow(u, t, t', a, k)
  }

  ghost predicate HasSplitNow(u: Unfold, t: Tree, t': Tree, a: Address, k: Key) {
    a in t.level && PathOf(t', k) == SplitOn(PathOf(t, k), t.level[a], k)
  }

  // ---- pages without child pointers ----

  lemma {:induction false} BlankSize(es: seq<Entry>, prefix: nat, n: nat)
    requires n <= |es| && forall i | 0 <= i < |es| :: |es[i].payload| == CHILD_BYTES
    ensures SizeUpTo(BlankEntries(es), prefix, n) == SizeUpTo(es, prefix, n)
  {
    if n > 0 { BlankSize(es, prefix, n - 1); }
  }

  /** Order, room and separators do not depend on child pointers. */
  lemma BlankSame(n: Node, m: nat)
    requires KeysAtMost(n, m)
    ensures Blank(n).isLeaf == n.isLeaf && Blank(n).lower == n.lower && Blank(n).upper == n.upper && |Blank(n).entries| == |n.entries|
    ensures forall i | 0 <= i < |n.entries| :: Blank(n).entries[i].key == n.entries[i].key
    ensures FreeAfterCompaction(Blank(n)) == FreeAfterCompaction(n)
    ensures Sorted(Blank(n).entries) <==> Sorted(n.entries)
  {
    if !n.isLeaf {
      forall i | 0 <= i < |n.entries| ensures |n.entries[i].payload| == CHILD_BYTES { assert EntryAtMost(n, i, m); }
      BlankSize(n.entries, PrefixLength(n), |n.entries|);
    }
    SameOrder(n.entries, Blank(n).entries);
    SameOrder(Blank(n).entries, n.entries);
  }

  lemma SameOrder(es: seq<Entry>, es': seq<Entry>)
    requires |es'| == |es| && forall i | 0 <= i < |es| :: es'[i].key == es[i].key
    ensures Sorted(es) ==> Sorted(es')
  {
    if Sorted(es) {
      forall i, j | 0 <= i < j < |es'| ensures InOrder(es', i, j) { assert InOrder(es, i, j); }
    }
  }

  lemma BlankPicked(n: Node, info: SeparatorInfo)
    ensures Picked(Blank(n), info) <==> Picked(n, info)
    ensures Picked(n, info) ==> SepKey(Blank(n).entries, info) == SepKey(n.entries, info)
  {
  }

  lemma BlankHasKey(n: Node, k: Key)
    ensures HasKey(Blank(n), k) <==> HasKey(n, k)
  {
    if HasKey(n, k) {
      var i :| 0 <= i < |n.entries| && n.entries[i].key == k;
      assert Blank(n).entries[i].key == k;
    }
    if HasKey(Blank(n), k) {
      var i :| 0 <= i < |n.entries| && Blank(n).entries[i].key == k;
      assert n.entries[i].key == k;
    }
  }

  lemma BlankAsks(n: Node, par: Node, m: nat)
    requires KeysAtMost(par, m)
    ensures AsksTooMuch(Blank(n), Blank(par)) <==> AsksTooMuch(n, par)
  {
    BlankSame(par, m);
    forall info ensures Picked(Blank(n), info) <==> Picked(n, info) { BlankPicked(n, info); }
  }

  lemma BlankUnusable(n: Node, par: Node)
    ensures Unusable(Blank(n), Blank(par)) <==> Unusable(n, par)
  {
    forall info ensures BadSeparator(Blank(n), Blank(par), info) <==> BadSeparator(n, par, info) {
      if n.isLeaf && Picked(n, info) { BlankHasKey(par, SepKey(n.entries, info)); }
    }
  }

  // ---- free addresses ----

  lemma FreeIs(t: Tree)
    ensures OutOfAddresses(t) <==> |FreeSet(t)| == 0
    ensures NearlyOut(t) <==> |FreeSet(t)| <= 1
  {
    var s := FreeSet(t);
    forall x: Address ensures IsFree(t, x) <==> x in s {}
    if |s| > 0 {
      var x :| x in s;
      assert IsFree(t, x) && |s - {x}| == |s| - 1;
      if |s| > 1 {
        var y :| y in s - {x};
        assert IsFree(t, y);
      } else {
        forall y: Address | IsFree(t, y) ensures y == x { assert y in s && y !in s - {x}; }
      }
    }
  }

  lemma FreeTaken(t: Tree, t': Tree, x: Address)
    requires IsFree(t, x) && t'.nodes.Keys == t.nodes.Keys + {x}
    ensures |FreeSet(t')| == |FreeSet(t)| - 1
  {
    assert FreeSet(t') == FreeSet(t) - {x};
  }

  // ---- the tree and its path ----

  lemma OnThePath(t: Tree, a: Address, k: Key, p: Path)
    requires WellFormed(t) && Covers(t, a, k) && IsPath(t, k, p)
    ensures a in t.level && t.level[a] < |p.pages| && p.pages[t.level[a]] == Blank(t.nodes[a])
    ensures t.level[a] + 1 == |p.pages| <==> a == t.root
  {
    assert IsPathNow(Unfold, t, k, p);
    Located(t, a, k);
    PlaceIs(t, a);
  }

  /** The page above covers the key too. */
  lemma ParentCovers(t: Tree, a: Address, k: Key)
    requires WellFormed(t) && Covers(t, a, k) && a != t.root
    ensures a in t.level && a in t.parent && t.parent[a] in t.level && t.level[t.parent[a]] == t.level[a] + 1
    ensures Covers(t, t.parent[a], k) && ParentOf(t, a) == t.nodes[t.parent[a]]
  {
    ParentAbove(t, a);
    var _ := PlaceOf(t, a, k);
  }

  lemma AboveIs(t: Tree, a: Address, k: Key, p: Path)
    requires WellFormed(t) && Covers(t, a, k) && IsPath(t, k, p)
    ensures a in t.level && Above(p, t.level[a]) == Blank(ParentOf(t, a))
  {
    OnThePath(t, a, k, p);
    if a == t.root {
      assert BlankEntries([]) == [];
    } else {
      ParentCovers(t, a, k);
      OnThePath(t, t.parent[a], k, p);
    }
  }

  lemma ParentSized(t: Tree, a: Address)
    requires WellFormed(t) && a in t.nodes
    ensures KeysAtMost(ParentOf(t, a), t.longest)
  {
    if a != t.root {
      ParentAbove(t, a);
      assert NodeOk(t, t.parent[a]);
    }
  }

  lemma FreeOnPath(t: Tree, k: Key, p: Path)
    requires IsPath(t, k, p)
    ensures (OutOfAddresses(t) <==> p.free == 0) && (NearlyOut(t) <==> p.free <= 1)
  {
    assert IsPathNow(Unfold, t, k, p);
    FreeIs(t);
  }

  lemma VerdictAlong(t: Tree, a: Address, k: Key, p: Path)
    requires WellFormed(t) && Covers(t, a, k) && IsPath(t, k, p)
    ensures a in t.level && t.level[a] < |p.pages| && VerdictOn(p, t.level[a]) == Verdict(t, a)
    ensures t.level[a] + 1 == |p.pages| <==> a == t.root
  {
    OnThePath(t, a, k, p);
    AboveIs(t, a, k, p);
    ParentSized(t, a);
    BlankAsks(t.nodes[a], ParentOf(t, a), t.longest);
    BlankUnusable(t.nodes[a], ParentOf(t, a));
    FreeOnPath(t, k, p);
  }

  lemma {:induction false} BlockedAlong(t: Tree, a: Address, k: Key, p: Path)
    requires WellFormed(t) && Covers(t, a, k) && IsPath(t, k, p)
    ensures a in t.level && t.level[a] < |p.pages| && (BlockedOn(p, t.level[a]) <==> Blocked(t, a))
    decreases if a in t.level && t.level[a] < |p.pages| then |p.pages| - t.level[a] else 0
  {
    VerdictAlong(t, a, k, p);
    if Verdict(t, a).ParentFull? && a != t.root {
      ParentCovers(t, a, k);
      BlockedAlong(t, t.parent[a], k, p);
    }
  }

  /** Refusing at once is being blocked with no room in the leaf. */
  lemma RefusesSame(t: Tree, k: Key, payload: nat)
    requires WellFormed(t)
    ensures Refuses(t, k, payload) <==> RefusedAfter(0, PathOf(t, k), k, payload)
  {
    LeafOk(t, k);
    LeafOnPath(t, LeafFor(t, k), k);
    BlockedAlong(t, LeafFor(t, k), k, PathOf(t, k));
  }

  /** The first page of the path is the leaf. */
  lemma LeafOnPath(t: Tree, a: Address, k: Key)
    requires WellFormed(t) && Covers(t, a, k) && t.nodes[a].isLeaf
    ensures a in t.level && t.level[a] == 0 && |PathOf(t, k).pages| > 0 && PathOf(t, k).pages[0] == t.nodes[a]
  {
    PlaceIs(t, a);
    OnThePath(t, a, k, PathOf(t, k));
  }

  // ---- passes ----

  /** After a pass that splits something the rest is what counts. */
  lemma DoomedAfter(t: Tree, t': Tree, a: Address, k: Key, payload: nat)
    requires WellFormed(t) && Covers(t, a, k) && t.nodes[a].isLeaf && Passed(t, t', a, k)
    requires !HasRoom(t, a, k, payload) && !Blocked(t, a)
    ensures Doomed(t, k, payload) <==> Doomed(t', k, payload)
  {
    LeafOnPath(t, a, k);
    BlockedAlong(t, a, k, PathOf(t, k));
    assert PassedNow(Unfold, t, t', a, k);
    var p, p' := PathOf(t, k), PathOf(t', k);
    assert PassesNow(Unfold, p, p', 0, k);
    if Doomed(t, k, payload) {
      var n: nat :| RefusedAfter(n, p, k, payload);
      assert RefusedAfter(n - 1, p', k, payload);
    }
    if Doomed(t', k, payload) {
      var n: nat :| RefusedAfter(n, p', k, payload);
      assert RefusedAfter(n + 1, p, k, payload);
    }
  }

  lemma DoomedNow(t: Tree, k: Key, payload: nat)
    requires Refuses(t, k, payload)
    ensures Doomed(t, k, payload)
  {
    RefusesSame(t, k, payload);
  }

  lemma NotDoomed(t: Tree, a: Address, k: Key, payload: nat)
    requires WellFormed(t) && Covers(t, a, k) && t.nodes[a].isLeaf && HasRoom(t, a, k, payload)
    ensures !Doomed(t, k, payload)
  {
    LeafOnPath(t, a, k);
  }

  lemma PassedHere(t: Tree, t': Tree, a: Address, k: Key)
    requires WellFormed(t) && Covers(t, a, k) && a != t.root && Verdict(t, a).Split? && HasSplit(t, t', a, k)
    ensures Passed(t, t', a, k)
  {
    VerdictAlong(t, a, k, PathOf(t, k));
    assert HasSplitNow(Unfold, t, t', a, k);
    PassHere(PathOf(t, k), PathOf(t', k), t.level[a], k);
    forall u: Unfold ensures PassedNow(u, t, t', a, k) {}
  }

  lemma PassHere(p: Path, q: Path, i: nat, k: Key)
    requires i < |p.pages| && VerdictOn(p, i).Split? && q == SplitOn(if i + 1 < |p.pages| then p else Rooted(p), i, k)
    ensures Passes(p, q, i, k)
  {
    forall u: Unfold ensures PassesNow(u, p, q, i, k) {}
  }

  lemma PassedAbove(t: Tree, t': Tree, a: Address, k: Key)
    requires WellFormed(t) && Covers(t, a, k) && a != t.root && Verdict(t, a).ParentFull?
    requires a in t.parent && Passed(t, t', t.parent[a], k)
    ensures Passed(t, t', a, k)
  {
    VerdictAlong(t, a, k, PathOf(t, k));
    ParentCovers(t, a, k);
    assert PassedNow(Unfold, t, t', t.parent[a], k);
    PassUp(PathOf(t, k), PathOf(t', k), t.level[a], k);
    forall u: Unfold ensures PassedNow(u, t, t', a, k) {}
  }

  lemma PassUp(p: Path, q: Path, i: nat, k: Key)
    requires i + 1 < |p.pages| && VerdictOn(p, i).ParentFull? && Passes(p, q, i + 1, k)
    ensures Passes(p, q, i, k)
  {
    assert PassesNow(Unfold, p, q, i + 1, k);
    forall u: Unfold ensures PassesNow(u, p, q, i, k) {}
  }

  lemma PassedRoot(t: Tree, r: Address, t': Tree, k: Key)
    requires WellFormed(t) && IsFree(t, r) && t.root in t.level && WellFormed(RootStep(t, r))
    requires Covers(t, t.root, k) && Verdict(t, t.root).Split? && HasSplit(RootStep(t, r), t', t.root, k)
    ensures Passed(t, t', t.root, k)
  {
    VerdictAlong(t, t.root, k, PathOf(t, k));
    RootedPath(t, r, k);
    assert HasSplitNow(Unfold, RootStep(t, r), t', t.root, k);
    PassHere(PathOf(t, k), PathOf(t', k), t.level[t.root], k);
    forall u: Unfold ensures PassedNow(u, t, t', t.root, k) {}
  }

  lemma RootedPage(t: Tree, r: Address, k: Key, i: nat)
    requires WellFormed(t) && IsFree(t, r) && t.root in t.level && WellFormed(RootStep(t, r)) && i <= t.level[t.root]
    ensures PageOn(RootStep(t, r), k, i) == PageOn(t, k, i)
  {
    var d := t.level[t.root] - i;
    RootPath(t, r, k, d);
    var x, t' := At(t, k, d), RootStep(t, r);
    PageIs(t, k, i, x, d);
    PageIs(t', k, i, x, d + 1);
  }

  lemma RootedPath(t: Tree, r: Address, k: Key)
    requires WellFormed(t) && IsFree(t, r) && t.root in t.level && WellFormed(RootStep(t, r))
    ensures PathOf(RootStep(t, r), k) == Rooted(PathOf(t, k))
  {
    var p, t' := PathOf(t, k), RootStep(t, r);
    assert IsPathNow(Unfold, t, k, p);
    FreeTaken(t, t', r);
    forall i: nat | i <= t.level[t.root] ensures PageOn(t', k, i) == PageOn(t, k, i) { RootedPage(t, r, k, i); }
    TopPage(t, r, k);
    assert IsPath(t', k, Rooted(p)) by { forall u: Unfold ensures IsPathNow(u, t', k, Rooted(p)) {} }
    PathUnique(t', k, PathOf(t', k), Rooted(p));
  }

  lemma TopPage(t: Tree, r: Address, k: Key)
    requires t.root in t.level && r !in t.nodes
    ensures PageOn(RootStep(t, r), k, t.level[t.root] + 1) == RootNode(0)
  {
    assert BlankEntries([]) == [];
  }

  // ---- a split ----

  lemma BlankHalf(n: Node, info: SeparatorInfo, k: Key)
    requires Picked(n, info)
    ensures var sep := SepKey(n.entries, info);
      && SepKey(Blank(n).entries, info) == sep
      && Blank(SplitLeft(Blank(n), info.slot, sep)) == Blank(SplitLeft(n, info.slot, sep))
      && Blank(SplitRight(Blank(n), info.slot, sep)) == Blank(SplitRight(n, info.slot, sep))
  {
    BlankPicked(n, info);
    var sep := SepKey(n.entries, info);
    if !n.isLeaf {
      var l, l' := Blank(SplitLeft(n, info.slot, sep)), Blank(SplitLeft(Blank(n), info.slot, sep));
      assert l.entries == l'.entries;
      var r, r' := Blank(SplitRight(n, info.slot, sep)), Blank(SplitRight(Blank(n), info.slot, sep));
      assert r.entries == r'.entries;
    }
  }

  lemma BlankInserted(n: Node, sep: Key, left: Address, i0: nat, m: nat)
    requires !n.isLeaf && KeysAtMost(n, m) && Sorted(n.entries) && i0 == LowerBound(n.entries, sep)
    ensures Sorted(Blank(n).entries)
    ensures Blank(n.(entries := Inserted(n.entries, i0, Entry(sep, EncodePtr(left))))) == InsertEntry(Blank(n), Entry(sep, EncodePtr(0)))
  {
    BlankSame(n, m);
    LowerBoundUnique(Blank(n).entries, sep, i0, LowerBound(Blank(n).entries, sep));
    assert BlankEntries(Inserted(n.entries, i0, Entry(sep, EncodePtr(left)))) == Inserted(BlankEntries(n.entries), i0, Entry(sep, EncodePtr(0)));
  }

  /** What SplitOn does for the separator findSeparator picks. */
  lemma SplitOnIs(p: Path, p': Path, l: nat, n: Node, par: Node, info: SeparatorInfo, k: Key)
    requires |p'.pages| == |p.pages| > l + 1 && p.free == p'.free + 1 && Sorted(Blank(par).entries) && Picked(n, info)
    requires p.pages[l] == Blank(n) && p.pages[l + 1] == Blank(par)
    requires var sep := SepKey(n.entries, info);
      && p'.pages[l] == Blank(if LessEq(k, sep) then SplitLeft(n, info.slot, sep) else SplitRight(n, info.slot, sep))
      && p'.pages[l + 1] == InsertEntry(Blank(par), Entry(sep, EncodePtr(0)))
    requires forall i | 0 <= i < |p.pages| && i != l && i != l + 1 :: p'.pages[i] == p.pages[i]
    ensures p' == SplitOn(p, l, k)
  {
    BlankHalf(n, info, k);
    BlankPicked(n, info);
    forall other | Picked(p.pages[l], other) ensures other == info { PickedUnique(p.pages[l], other, info); }
    SamePath(p', SplitOn(p, l, k));
  }

  /** t' is t with the page at a on the path split by info. Unfolded only where DividesNow is mentioned. */
  ghost predicate Divides(t: Tree, t': Tree, a: Address, info: SeparatorInfo, left: Address, i0: nat, k: Key) {
    forall u: Unfold :: DividesNow(u, t, t', a, info, left, i0, k)
  }

  ghost predicate DividesNow(u: Unfold, t: Tree, t': Tree, a: Address, info: SeparatorInfo, left: Address, i0: nat, k: Key) {
    && WellFormed(t) && WellFormed(t') && Covers(t, a, k) && Picked(t.nodes[a], info) && SepKey(t.nodes[a].entries, info) != []
    && CanSplit(t, a, info.slot, SepKey(t.nodes[a].entries, info), left, i0) && IsFree(t, left)
    && t' == SplitAt(t, a, info.slot, SepKey(t.nodes[a].entries, info), left, i0)
  }

  /** Heights stay. */
  lemma DividedLevels(t: Tree, t': Tree, a: Address, info: SeparatorInfo, left: Address, i0: nat, k: Key) returns (h: nat, l: nat)
    requires Divides(t, t', a, info, left, i0, k)
    ensures t.root in t.level && t'.root in t'.level && h == t.level[t.root] == t'.level[t'.root]
    ensures a in t.level && a in t.nodes && l == t.level[a] < h
    ensures a in t.parent && t.parent[a] in t.nodes && Picked(t.nodes[a], info)
  {
    assert DividesNow(Unfold, t, t', a, info, left, i0, k);
    h, l := t.level[t.root], t.level[a];
    PlaceIs(t, a);
  }

  lemma PageIs(t: Tree, k: Key, i: nat, x: Address, d: nat)
    requires t.root in t.level && i + d == t.level[t.root] && At(t, k, d) == x && x in t.nodes
    ensures PageOn(t, k, i) == Blank(t.nodes[x])
  {
  }

  lemma HalfAt(t: Tree, t': Tree, a: Address, info: SeparatorInfo, left: Address, i0: nat, k: Key, d: nat)
    requires Divides(t, t', a, info, left, i0, k) && a in t.level && t.root in t.level && t.level[a] + d == t.level[t.root]
    ensures a in t.nodes && Picked(t.nodes[a], info)
    ensures var n := t.nodes[a]; var sep := SepKey(n.entries, info); var x := HalfFor(a, left, sep, k);
      At(t', k, d) == x && x in t'.nodes
      && t'.nodes[x] == if LessEq(k, sep) then SplitLeft(n, info.slot, sep) else SplitRight(n, info.slot, sep)
  {
    assert DividesNow(Unfold, t, t', a, info, left, i0, k);
    SplitPathHere(t, a, info.slot, SepKey(t.nodes[a].entries, info), left, i0, k, d);
  }

  lemma HalfOnPath(t: Tree, t': Tree, a: Address, info: SeparatorInfo, left: Address, i0: nat, k: Key)
    requires Divides(t, t', a, info, left, i0, k)
    ensures a in t.level && a in t.nodes && Picked(t.nodes[a], info)
    ensures var n := t.nodes[a]; var sep := SepKey(n.entries, info);
      PageOn(t', k, t.level[a]) == Blank(if LessEq(k, sep) then SplitLeft(n, info.slot, sep) else SplitRight(n, info.slot, sep))
  {
    var h, l := DividedLevels(t, t', a, info, left, i0, k);
    var d: nat := h - l;
    HalfAt(t, t', a, info, left, i0, k, d);
    PageIs(t', k, l, HalfFor(a, left, SepKey(t.nodes[a].entries, info), k), d);
  }

  lemma ParentAt(t: Tree, t': Tree, a: Address, info: SeparatorInfo, left: Address, i0: nat, k: Key, d: nat)
    requires Divides(t, t', a, info, left, i0, k) && a in t.level && t.root in t.level && t.level[a] + d + 1 == t.level[t.root]
    ensures a in t.nodes && Picked(t.nodes[a], info) && a in t.parent && t.parent[a] in t.nodes
    ensures var sep := SepKey(t.nodes[a].entries, info); var p := t.parent[a]; var n := t.nodes[p];
      && At(t', k, d) == p && p in t'.nodes && Sorted(n.entries) && i0 == LowerBound(n.entries, sep) && !n.isLeaf && KeysAtMost(n, t.longest)
      && t'.nodes[p] == n.(entries := Inserted(n.entries, i0, Entry(sep, EncodePtr(left))))
  {
    assert DividesNow(Unfold, t, t', a, info, left, i0, k);
    assert NodeOk(t, t.parent[a]);
    SplitPathElsewhere(t, a, info.slot, SepKey(t.nodes[a].entries, info), left, i0, k, d);
    ParentOnPath(t, a, k, d);
  }

  lemma ParentChanged(t: Tree, t': Tree, a: Address, info: SeparatorInfo, left: Address, i0: nat, k: Key, d: nat)
    requires Divides(t, t', a, info, left, i0, k) && a in t.level && t.root in t.level && t.level[a] + d + 1 == t.level[t.root]
    ensures a in t.nodes && Picked(t.nodes[a], info) && a in t.parent && t.parent[a] in t.nodes && t.parent[a] in t'.nodes
    ensures At(t', k, d) == t.parent[a] && Sorted(Blank(t.nodes[t.parent[a]]).entries)
    ensures Blank(t'.nodes[t.parent[a]])
         == InsertEntry(Blank(t.nodes[t.parent[a]]), Entry(SepKey(t.nodes[a].entries, info), EncodePtr(0)))
  {
    ParentAt(t, t', a, info, left, i0, k, d);
    BlankInserted(t.nodes[t.parent[a]], SepKey(t.nodes[a].entries, info), left, i0, t.longest);
  }

  lemma ParentOnThePath(t: Tree, t': Tree, a: Address, info: SeparatorInfo, left: Address, i0: nat, k: Key)
    requires Divides(t, t', a, info, left, i0, k)
    ensures a in t.level && a in t.nodes && Picked(t.nodes[a], info)
    ensures a in t.parent && t.parent[a] in t.nodes && Sorted(Blank(t.nodes[t.parent[a]]).entries)
    ensures PageOn(t', k, t.level[a] + 1)
         == InsertEntry(Blank(t.nodes[t.parent[a]]), Entry(SepKey(t.nodes[a].entries, info), EncodePtr(0)))
  {
    var h, l := DividedLevels(t, t', a, info, left, i0, k);
    var d: nat := h - l - 1;
    ParentChanged(t, t', a, info, left, i0, k, d);
    PageIs(t', k, l + 1, t.parent[a], d);
  }

  lemma OtherAt(t: Tree, t': Tree, a: Address, info: SeparatorInfo, left: Address, i0: nat, k: Key, d: nat)
    requires Divides(t, t', a, info, left, i0, k) && a in t.level && t.root in t.level && d <= t.level[t.root]
    requires t.level[a] + d != t.level[t.root] && t.level[a] + d + 1 != t.level[t.root]
    ensures At(t', k, d) == At(t, k, d) && At(t, k, d) in t.nodes && At(t, k, d) in t'.nodes
    ensures t'.nodes[At(t, k, d)] == t.nodes[At(t, k, d)]
  {
    assert DividesNow(Unfold, t, t', a, info, left, i0, k);
    SplitPathElsewhere(t, a, info.slot, SepKey(t.nodes[a].entries, info), left, i0, k, d);
    PathAt(t, k, d);
    assert t.level[t.parent[a]] == t.level[a] + 1;
  }

  lemma OthersOnPath(t: Tree, t': Tree, a: Address, info: SeparatorInfo, left: Address, i0: nat, k: Key, i: nat)
    requires Divides(t, t', a, info, left, i0, k) && i < PathLength(t) && (a in t.level ==> i != t.level[a] && i != t.level[a] + 1)
    ensures PageOn(t', k, i) == PageOn(t, k, i)
  {
    var h, l := DividedLevels(t, t', a, info, left, i0, k);
    var d: nat := h - i;
    OtherAt(t, t', a, info, left, i0, k, d);
    var x := At(t, k, d);
    PageIs(t', k, i, x, d);
    PageIs(t, k, i, x, d);
  }

  lemma FreeAfterSplit(t: Tree, t': Tree, a: Address, info: SeparatorInfo, left: Address, i0: nat, k: Key)
    requires Divides(t, t', a, info, left, i0, k)
    ensures PathOf(t', k).free == PathOf(t, k).free - 1
  {
    assert DividesNow(Unfold, t, t', a, info, left, i0, k);
    FreeTaken(t, t', left);
    assert IsPathNow(Unfold, t, k, PathOf(t, k)) && IsPathNow(Unfold, t', k, PathOf(t', k));
  }

  /** The page and its parent on the path. */
  lemma BeforeSplit(t: Tree, t': Tree, a: Address, info: SeparatorInfo, left: Address, i0: nat, k: Key)
    requires Divides(t, t', a, info, left, i0, k)
    ensures a in t.level && a in t.nodes && a in t.parent && t.parent[a] in t.nodes && t.level[a] + 1 < |PathOf(t, k).pages|
    ensures PathOf(t, k).pages[t.level[a]] == Blank(t.nodes[a]) && PathOf(t, k).pages[t.level[a] + 1] == Blank(t.nodes[t.parent[a]])
  {
    assert DividesNow(Unfold, t, t', a, info, left, i0, k);
    PlaceIs(t, a);
    OnThePath(t, a, k, PathOf(t, k));
    AboveIs(t, a, k, PathOf(t, k));
  }

  /** The pages of the new path. */
  lemma AfterSplit(t: Tree, t': Tree, a: Address, info: SeparatorInfo, left: Address, i0: nat, k: Key)
    requires Divides(t, t', a, info, left, i0, k)
    ensures a in t.level && t.level[a] + 1 < |PathOf(t, k).pages| == |PathOf(t', k).pages|
    ensures PathOf(t', k).pages[t.level[a]] == PageOn(t', k, t.level[a]) && PathOf(t', k).pages[t.level[a] + 1] == PageOn(t', k, t.level[a] + 1)
    ensures forall i | 0 <= i < |PathOf(t, k).pages| && i != t.level[a] && i != t.level[a] + 1 :: PathOf(t', k).pages[i] == PathOf(t, k).pages[i]
  {
    var h, l := DividedLevels(t, t', a, info, left, i0, k);
    var p, p' := PathOf(t, k), PathOf(t', k);
    assert IsPathNow(Unfold, t, k, p) && IsPathNow(Unfold, t', k, p');
    forall i | 0 <= i < |p.pages| && i != l && i != l + 1 ensures p'.pages[i] == p.pages[i] {
      OthersOnPath(t, t', a, info, left, i0, k, i);
    }
  }

  /** The path after a page on it has split. */
  lemma SplitOnPath(t: Tree, t': Tree, a: Address, info: SeparatorInfo, left: Address, i0: nat, k: Key)
    requires Divides(t, t', a, info, left, i0, k)
    ensures HasSplit(t, t', a, k)
  {
    BeforeSplit(t, t', a, info, left, i0, k);
    FreeAfterSplit(t, t', a, info, left, i0, k);
    HalfOnPath(t, t', a, info, left, i0, k);
    ParentOnThePath(t, t', a, info, left, i0, k);
    AfterSplit(t, t', a, info, left, i0, k);
    SplitOnIs(PathOf(t, k), PathOf(t', k), t.level[a], t.nodes[a], t.nodes[t.parent[a]], info, k);
    forall u: Unfold ensures HasSplitNow(u, t, t', a, k) {}
  }

  lemma HasSplitBy(t: Tree, t': Tree, a: Address, info: SeparatorInfo, left: Address, i0: nat, k: Key)
    requires WellFormed(t) && WellFormed(t') && Covers(t, a, k) && Picked(t.nodes[a], info) && SepKey(t.nodes[a].entries, info) != []
    requires CanSplit(t, a, info.slot, SepKey(t.nodes[a].entries, info), left, i0) && IsFree(t, left)
    requires t' == SplitAt(t, a, info.slot, SepKey(t.nodes[a].entries, info), left, i0)
    ensures HasSplit(t, t', a, k)
  {
    forall u: Unfold ensures DividesNow(u, t, t', a, info, left, i0, k) {}
    SplitOnPath(t, t', a, info, left, i0, k);
  }

  /** The tree after the page at a is split by the separator picked, as seen from outside and on a key's path. */
  lemma PickedSplit(t: Tree, a: Address, info: SeparatorInfo, left: Address, k: Key, m: map<Key, seq<Byte>>) returns (t': Tree)
    requires WellFormed(t) && Answers(t, m) && Covers(t, a, k) && a != t.root && IsFree(t, left)
    requires Picked(t.nodes[a], info) && !TooFew(t.nodes[a])
    requires t.nodes[a].isLeaf ==> Fits(SplitLeft(t.nodes[a], info.slot, SepKey(t.nodes[a].entries, info)))
    requires a in t.parent && t.parent[a] in t.nodes
    requires var n := t.nodes[t.parent[a]]; var sep := SepKey(t.nodes[a].entries, info);
      && SpaceNeeded(n, |sep|, CHILD_BYTES) <= FreeAfterCompaction(n)
      && forall i | 0 <= i < |n.entries| :: n.entries[i].key != sep
    ensures WellFormed(t') && Answers(t', m) && t'.root == t.root && t'.longest == t.longest
    ensures Potential(t', k) < Potential(t, k) && HasSplit(t, t', a, k)
    ensures var n, p, par, sep := t.nodes[a], t.parent[a], t.nodes[t.parent[a]], SepKey(t.nodes[a].entries, info);
      Sorted(par.entries) && t'.nodes == t.nodes[left := SplitLeft(n, info.slot, sep)][a := SplitRight(n, info.slot, sep)]
                                                [p := InsertEntry(par, Entry(sep, EncodePtr(left)))]
  {
    var i0;
    t', i0 := PageSplit(t, a, info, left, k, m);
    HasSplitBy(t, t', a, info, left, i0, k);
  }

  lemma SamePath(p: Path, q: Path)
    requires |p.pages| == |q.pages| && p.free == q.free && forall i | 0 <= i < |p.pages| :: p.pages[i] == q.pages[i]
    ensures p == q
  {
  }
}
