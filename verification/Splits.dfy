/** From what the pages say to what a split of the tree needs, and when a split cannot be done. */
module Splits {
  import opened Bytes
  import opened Layout
  import opened Nodes
  import opened Images
  import opened Separators
  import opened Updates
  import opened Trees
  import opened TreeSteps
  import opened Potentials

  /** A page has room for an entry exactly when the page with it fits. */
  lemma InsertFits(n: Node, e: Entry)
    requires Ordered(n)
    ensures FreeAfterCompaction(InsertEntry(n, e)) == FreeAfterCompaction(n) - SpaceNeeded(n, |e.key|, |e.payload|)
  {
    StoredSizeInsert(n.entries, LowerBound(n.entries, e.key), e, PrefixLength(n));
    assert SlotBytes(|n.entries| + 1) == SlotBytes(|n.entries|) + sizes.slot;
  }

  /** A page that holds too few entries to be split. */
  ghost predicate TooFew(n: Node) {
    |n.entries| < if n.isLeaf then 2 else 4
  }

  /** The separator of a leaf hits an assertion of splitNode: the left half would not hold it as its upper fence, or
      the parent has it already. */
  ghost predicate BadSeparator(n: Node, parent: Node, info: SeparatorInfo) {
    && Picked(n, info) && n.isLeaf && info.slot < |n.entries|
    && var sep := SepKey(n.entries, info);
      !Fits(SplitLeft(n, info.slot, sep)) || HasKey(parent, sep)
  }

  ghost predicate HasKey(n: Node, k: Key) {
    exists i :: 0 <= i < |n.entries| && n.entries[i].key == k
  }

  /** splitNode hits an assertion: too few entries, or a bad separator. */
  ghost predicate Unusable(n: Node, parent: Node) {
    TooFew(n) || exists info :: BadSeparator(n, parent, info)
  }

  /** The parent has no room for the separator. */
  ghost predicate AsksTooMuch(n: Node, parent: Node) {
    exists info :: Picked(n, info) && SpaceNeeded(parent, info.length, CHILD_BYTES) > FreeAfterCompaction(parent)
  }

  ghost predicate IsFree(t: Tree, x: Address) {
    x != 0 && x !in t.nodes
  }

  ghost predicate OutOfAddresses(t: Tree) {
    forall x: Address :: !IsFree(t, x)
  }

  /** At most one address is free: not enough for a new root and a split. */
  ghost predicate NearlyOut(t: Tree) {
    forall x: Address, y: Address | IsFree(t, x) && IsFree(t, y) :: x == y
  }

  /** The page a split of a goes to: a new root when a is the root itself. */
  ghost function ParentOf(t: Tree, a: Address): Node {
    if a != t.root && a in t.parent && t.parent[a] in t.nodes then t.nodes[t.parent[a]] else RootNode(a)
  }

  /** There is no memory for the pages a split of a needs. */
  ghost predicate NoMemory(t: Tree, a: Address) {
    if a == t.root then NearlyOut(t) else OutOfAddresses(t)
  }

  datatype SplitOutcome =
    | Split
    | ParentFull   // the parent must split first
    | Failed       // an assertion or abort of the split was hit

  /** What splitNodeWithParent comes to. */
  ghost function Verdict(t: Tree, a: Address): SplitOutcome
    requires a in t.nodes
  {
    var n, par := t.nodes[a], ParentOf(t, a);
    if |n.entries| < 2 then Failed
    else if AsksTooMuch(n, par) then ParentFull
    else if NoMemory(t, a) || Unusable(n, par) then Failed
    else Split
  }

  lemma ParentAbove(t: Tree, a: Address)
    requires WellFormed(t) && a in t.nodes && a != t.root
    ensures a in t.level && t.root in t.level && a in t.parent && t.parent[a] in t.nodes && t.parent[a] in t.level
    ensures t.level[a] + 1 == t.level[t.parent[a]] <= t.level[t.root] && ParentOf(t, a) == t.nodes[t.parent[a]]
  {
    assert NodeOk(t, a);
    var p := t.parent[a];
    assert NodeOk(t, p);
    var i: nat :| IsChildAt(t.nodes[p], i, a);
    assert HasChildIndex(t, p, i);
    assert ChildOk(t, p, i);
  }

  ghost function Height(t: Tree, a: Address): nat {
    if t.root in t.level && a in t.level && t.level[a] <= t.level[t.root] then t.level[t.root] - t.level[a] else 0
  }

  /** Splitting a fails: it cannot be split itself or, when its parent is full, the parent cannot, and so on up. */
  ghost predicate Blocked(t: Tree, a: Address)
    requires WellFormed(t) && a in t.nodes
    decreases Height(t, a)
  {
    match Verdict(t, a)
    case Split => false
    case Failed => true
    case ParentFull => a != t.root && (ParentAbove(t, a); Blocked(t, t.parent[a]))
  }

  ghost predicate HasRoom(t: Tree, a: Address, k: Key, payload: nat)
    requires a in t.nodes
  {
    SpaceNeeded(t.nodes[a], |k|, payload) <= FreeAfterCompaction(t.nodes[a])
  }

  /** An insert stops at an assertion or abort() at once: its leaf has no room and splitting it fails. */
  ghost predicate Refuses(t: Tree, k: Key, payload: nat) {
    WellFormed(t) && (LeafOk(t, k); !HasRoom(t, LeafFor(t, k), k, payload) && Blocked(t, LeafFor(t, k)))
  }

  // ---- what refuses ----

  /** No room for an entry of length m, child pointer included. */
  ghost predicate Full(n: Node, m: nat) {
    FreeAfterCompaction(n) < sizes.slot + m + (if n.isLeaf then 0 else CHILD_BYTES)
  }

  /** A page on the key's path without room for an entry of length m that cannot be split. */
  ghost predicate StuckAt(t: Tree, a: Address, k: Key, m: nat) {
    Covers(t, a, k) && Full(t.nodes[a], m) && (NoMemory(t, a) || Unusable(t.nodes[a], ParentOf(t, a)))
  }

  /** A fresh root has room for any separator. */
  lemma FreshRootHasRoom(n: Node, child: Address, m: nat)
    requires PageOk(n, m) && m <= MaxKVSize()
    ensures !AsksTooMuch(n, RootNode(child))
  {
    EmptyRootFits(child);
    forall info | Picked(n, info)
      ensures SpaceNeeded(RootNode(child), info.length, CHILD_BYTES) <= FreeAfterCompaction(RootNode(child))
    {
      assert EntryAtMost(n, info.Source(), m);
    }
  }

  /** A page that refuses a separator is full. */
  lemma ParentIsFull(t: Tree, a: Address, m: nat)
    requires WellFormed(t) && a in t.nodes && a != t.root && t.longest <= m && AsksTooMuch(t.nodes[a], ParentOf(t, a))
    ensures Full(ParentOf(t, a), m)
  {
    ParentAbove(t, a);
    assert NodeOk(t, a) && NodeOk(t, t.parent[a]);
    var info :| Picked(t.nodes[a], info) && SpaceNeeded(ParentOf(t, a), info.length, CHILD_BYTES) > FreeAfterCompaction(ParentOf(t, a));
    assert EntryAtMost(t.nodes[a], info.Source(), t.longest);
  }

  lemma {:induction false} BlockedIsStuck(t: Tree, a: Address, k: Key, m: nat)
    requires WellFormed(t) && Covers(t, a, k) && Full(t.nodes[a], m) && t.longest <= m && Blocked(t, a)
    ensures exists b :: StuckAt(t, b, k, m)
    decreases Height(t, a)
  {
    if Verdict(t, a).ParentFull? {
      ParentAbove(t, a);
      ParentIsFull(t, a, m);
      var i := PlaceOf(t, a, k);
      BlockedIsStuck(t, t.parent[a], k, m);
    } else {
      assert StuckAt(t, a, k, m);
    }
  }

  /** A refused insert has a page on its key's path that cannot be split. */
  lemma RefusalIsStuck(t: Tree, k: Key, payload: nat, m: nat)
    requires Refuses(t, k, payload) && |k| + payload <= m && t.longest <= m
    ensures exists b :: StuckAt(t, b, k, m)
  {
    LeafOk(t, k);
    BlockedIsStuck(t, LeafFor(t, k), k, m);
  }

  /** The separator findSeparator picks decides the split; an inner page's is always new to its parent. */
  lemma SplitDecides(t: Tree, a: Address, info: SeparatorInfo)
    requires WellFormed(t) && a in t.nodes && a != t.root && Picked(t.nodes[a], info)
    ensures Chosen(t.nodes[a], info) && info.slot < |t.nodes[a].entries|
    ensures var n, par := t.nodes[a], ParentOf(t, a);
      AsksTooMuch(n, par) <==> SpaceNeeded(par, info.length, CHILD_BYTES) > FreeAfterCompaction(par)
    ensures var n, par, sep := t.nodes[a], ParentOf(t, a), SepKey(t.nodes[a].entries, info);
      Unusable(n, par) <==> TooFew(n) || (n.isLeaf && !Fits(SplitLeft(n, info.slot, sep)))
                            || HasKey(par, sep)
  {
    var n, par := t.nodes[a], ParentOf(t, a);
    ParentAbove(t, a);
    forall other | Picked(n, other) ensures other == info {
      PickedUnique(n, other, info);
    }
    if !TooFew(n) {
      SplitUsable(t, a, info);
      if !n.isLeaf { SeparatorFresh(t, a, info); }
    }
    assert n.isLeaf ==> (BadSeparator(n, par, info) <==> exists other :: BadSeparator(n, par, other));
  }

  /** What the parent and the count of entries say about the separator that is picked. */
  lemma PickedParts(n: Node, par: Node, info: SeparatorInfo, e: Entry)
    requires Ordered(n) && Fits(n) && Ordered(par) && Fits(par) && Picked(n, info)
    requires e.key == SepKey(n.entries, info) && |e.payload| == CHILD_BYTES
    ensures AsksTooMuch(n, par) <==> !Fits(InsertEntry(par, e))
    ensures info.slot < |n.entries| && (TooFew(n) <==> info.slot == 0)
    ensures info.slot > 0 ==> Fits(SplitRight(n, info.slot, e.key)) && (!n.isLeaf ==> Fits(SplitLeft(n, info.slot, e.key)))
  {
    InsertFits(par, e);
    forall other | Picked(n, other) ensures other == info { PickedUnique(n, other, info); }
    if info.slot > 0 {
      ChosenSplits(n, info);
      RightHalfFits(n, info.slot, e.key);
      if !n.isLeaf { InnerLeftHalfFits(n, info.slot, e.key); }
    }
  }

  /** What splitNodeWithParent comes to for a page below the root, by the pages the split would leave: it splits if and
      only if both halves and the parent with the separator fit their pages, the left half is not empty, the separator is
      new to the parent and an address is free; the parent counts as full if it does not fit with the separator. */
  lemma VerdictIs(t: Tree, a: Address, info: SeparatorInfo, e: Entry)
    requires WellFormed(t) && a in t.nodes && a != t.root && Picked(t.nodes[a], info)
    requires info.Source() < |t.nodes[a].entries| && info.length <= |t.nodes[a].entries[info.Source()].key|
    requires e.key == t.nodes[a].entries[info.Source()].key[..info.length] && |e.payload| == CHILD_BYTES
    ensures a in t.parent && t.parent[a] in t.nodes && Sorted(t.nodes[t.parent[a]].entries) && info.slot < |t.nodes[a].entries|
    ensures Verdict(t, a).ParentFull? <==> FreeAfterCompaction(InsertEntry(t.nodes[t.parent[a]], e)) < 0
    ensures Verdict(t, a).Split? <==>
      var n, par := t.nodes[a], t.nodes[t.parent[a]];
      && info.slot > 0 && FreeAfterCompaction(SplitLeft(n, info.slot, e.key)) >= 0
      && FreeAfterCompaction(SplitRight(n, info.slot, e.key)) >= 0 && FreeAfterCompaction(InsertEntry(par, e)) >= 0
      && (forall i | 0 <= i < |par.entries| :: par.entries[i].key != e.key)
      && exists x: Address :: x != 0 && x !in t.nodes
  {
    ParentAbove(t, a);
    assert NodeOk(t, a) && NodeOk(t, t.parent[a]);
    PickedParts(t.nodes[a], ParentOf(t, a), info, e);
    SplitDecides(t, a, info);
    assert OutOfAddresses(t) <==> !exists x: Address :: x != 0 && x !in t.nodes by { MemoryIs(t); }
  }

  lemma MemoryIs(t: Tree)
    ensures OutOfAddresses(t) <==> !exists x: Address :: x != 0 && x !in t.nodes
    ensures NearlyOut(t) <==> !exists x: Address, y: Address :: x != y && x != 0 && y != 0 && x !in t.nodes && y !in t.nodes
  {
    if x: Address :| x != 0 && x !in t.nodes { assert IsFree(t, x); }
    if x: Address, y: Address :| x != y && x != 0 && y != 0 && x !in t.nodes && y !in t.nodes { assert IsFree(t, x) && IsFree(t, y); }
    if !OutOfAddresses(t) { var x: Address :| IsFree(t, x); }
    if !NearlyOut(t) { var x: Address, y: Address :| IsFree(t, x) && IsFree(t, y) && x != y; }
  }

  /** The root gets an empty parent first, which always has room, so two free addresses are needed. */
  lemma RootVerdictIs(t: Tree, info: SeparatorInfo)
    requires WellFormed(t) && Picked(t.nodes[t.root], info)
    requires var n := t.nodes[t.root]; info.Source() < |n.entries| && info.length <= |n.entries[info.Source()].key|
    ensures info.slot < |t.nodes[t.root].entries| && !Verdict(t, t.root).ParentFull?
    ensures Verdict(t, t.root).Split? <==>
      var n, sep := t.nodes[t.root], t.nodes[t.root].entries[info.Source()].key[..info.length];
      && info.slot > 0 && FreeAfterCompaction(SplitLeft(n, info.slot, sep)) >= 0 && FreeAfterCompaction(SplitRight(n, info.slot, sep)) >= 0
      && exists x: Address, y: Address :: x != y && x != 0 && y != 0 && x !in t.nodes && y !in t.nodes
  {
    var n, par := t.nodes[t.root], RootNode(t.root);
    assert NodeOk(t, t.root);
    EmptyRootFits(t.root);
    FreshRootHasRoom(n, t.root, t.longest);
    PickedParts(n, par, info, Entry(SepKey(n.entries, info), EncodePtr(0)));
    UsableBelow(n, t.root, info);
    MemoryIs(t);
  }

  lemma UsableBelow(n: Node, root: Address, info: SeparatorInfo)
    requires Picked(n, info) && info.slot < |n.entries|
    ensures Unusable(n, RootNode(root)) <==> TooFew(n) || (n.isLeaf && !Fits(SplitLeft(n, info.slot, SepKey(n.entries, info))))
  {
    forall other | Picked(n, other) ensures other == info { PickedUnique(n, other, info); }
    assert n.isLeaf ==> (BadSeparator(n, RootNode(root), info) <==> exists other :: BadSeparator(n, RootNode(root), other));
  }

  /** A refused insert may have left a new root behind, above the same pages. */
  ghost predicate SameBelow(t: Tree, t': Tree) {
    t' == t || (t.root in t.level && exists r :: r != 0 && r !in t.nodes && t' == RootStep(t, r))
  }

  lemma RootNeedsMemory(t: Tree)
    requires WellFormed(t) && OutOfAddresses(t)
    ensures Blocked(t, t.root)
  {
    assert NodeOk(t, t.root);
    FreshRootHasRoom(t.nodes[t.root], t.root, t.longest);
  }

  /** A new root above a blocked root changes nothing about it, and does not block one that can split. */
  lemma RootBlocked(t: Tree, r: Address)
    requires WellFormed(t) && IsFree(t, r) && t.root in t.level
    ensures WellFormed(RootStep(t, r)) && (Blocked(t, t.root) <==> Blocked(RootStep(t, r), t.root))
    ensures Verdict(RootStep(t, r), t.root) != ParentFull
  {
    var t', a := RootStep(t, r), t.root;
    RootStepOk(t, r);
    assert NodeOk(t, a);
    FreshRootHasRoom(t.nodes[a], a, t.longest);
    assert ParentOf(t, a) == ParentOf(t', a) == RootNode(a);
    assert NearlyOut(t) <==> OutOfAddresses(t') by {
      assert forall x :: IsFree(t', x) <==> IsFree(t, x) && x != r;
    }
  }

  /** A page below a full, blocked parent stays blocked. */
  lemma BlockedBelow(t: Tree, t': Tree, a: Address)
    requires WellFormed(t) && WellFormed(t') && SameBelow(t, t') && a in t.nodes && a != t.root
    requires Verdict(t, a).ParentFull? && a in t.parent && t.parent[a] in t'.nodes && Blocked(t', t.parent[a])
    ensures a in t'.nodes && Blocked(t', a)
  {
    ParentAbove(t, a);
    ParentAbove(t', a);
    assert ParentOf(t', a) == ParentOf(t, a);
  }

  /** The leaf for a key and its room are the same below a new root. */
  lemma StillRefuses(t: Tree, t': Tree, k: Key, payload: nat)
    requires WellFormed(t) && WellFormed(t') && SameBelow(t, t') && (LeafOk(t, k); true)
    requires !HasRoom(t, LeafFor(t, k), k, payload) && LeafFor(t, k) in t'.nodes && Blocked(t', LeafFor(t, k))
    ensures Refuses(t', k, payload)
  {
    LeafOk(t, k);
    LeafOk(t', k);
    LeafIs(t', LeafFor(t, k), k);
  }

  /** The page's value once a separator is chosen and its parent has room for it. */
  lemma SplitReady(t: Tree, a: Address, info: SeparatorInfo, left: Address) returns (i0: nat)
    requires WellFormed(t) && a in t.nodes && a != t.root && left !in t.nodes && left != 0
    requires Chosen(t.nodes[a], info) && !TooFew(t.nodes[a])
    requires t.nodes[a].isLeaf ==> Fits(SplitLeft(t.nodes[a], info.slot, SepKey(t.nodes[a].entries, info)))
    requires a in t.parent && t.parent[a] in t.nodes
    requires var n := t.nodes[t.parent[a]]; var sep := SepKey(t.nodes[a].entries, info);
      && SpaceNeeded(n, |sep|, CHILD_BYTES) <= FreeAfterCompaction(n)
      && forall i | 0 <= i < |n.entries| :: n.entries[i].key != sep
    ensures CanSplit(t, a, info.slot, SepKey(t.nodes[a].entries, info), left, i0)
  {
    var n, sep := t.nodes[a], SepKey(t.nodes[a].entries, info);
    SplitUsable(t, a, info);
    i0 := PlaceOf(t, a, sep);
    InsertFits(t.nodes[t.parent[a]], Entry(sep, EncodePtr(left)));
    forall b | b in t.nodes ensures b in t.parent { assert NodeOk(t, b); }
  }

  /** The separator is one the page can be split at, its own fences cover it, and the right half fits. */
  lemma SplitUsable(t: Tree, a: Address, info: SeparatorInfo)
    requires WellFormed(t) && a in t.nodes && Chosen(t.nodes[a], info) && !TooFew(t.nodes[a])
    ensures var n, sep := t.nodes[a], SepKey(t.nodes[a].entries, info);
      && Ordered(n) && SplitsAt(n, info.slot, sep) && Covers(t, a, sep) && sep != [] && |sep| <= t.longest
      && Fits(SplitRight(n, info.slot, sep)) && (!n.isLeaf ==> Fits(SplitLeft(n, info.slot, sep)))
      && (info.slot + 1 < |n.entries| || (n.isLeaf && |n.entries| == 2 && info.slot == 1 && sep == n.entries[1].key))
  {
    var n, sep := t.nodes[a], SepKey(t.nodes[a].entries, info);
    assert NodeOk(t, a);
    ChosenSplits(n, info);
    SplitSeparates(n, info.slot, sep);
    RightHalfFits(n, info.slot, sep);
    if !n.isLeaf { InnerLeftHalfFits(n, info.slot, sep); }
    assert EntryAtMost(n, info.slot, t.longest);
    if info.slot + 1 >= |n.entries| {
      assert info.Source() == 1;
      assert sep == n.entries[1].key;
    }
  }

  /** A separator with entries on both sides is new to the parent. */
  lemma SeparatorFresh(t: Tree, a: Address, info: SeparatorInfo)
    requires WellFormed(t) && a in t.nodes && a != t.root && Chosen(t.nodes[a], info) && !TooFew(t.nodes[a])
    requires a in t.parent && t.parent[a] in t.nodes && info.slot + 1 < |t.nodes[a].entries|
    ensures forall i | 0 <= i < |t.nodes[t.parent[a]].entries| ::
      t.nodes[t.parent[a]].entries[i].key != SepKey(t.nodes[a].entries, info)
  {
    var n, p, sep := t.nodes[a], t.parent[a], SepKey(t.nodes[a].entries, info);
    SplitUsable(t, a, info);
    var i0 := PlaceOf(t, a, sep);
    assert HasChildIndex(t, p, i0);
    assert ChildOk(t, p, i0);
    SplitSeparates(n, info.slot, sep);
    assert Within(n.lower, n.upper, n.entries[info.slot + 1].key);
    if i0 < |t.nodes[p].entries| {
      assert n.upper != [] by { assert EntryAtMost(t.nodes[p], i0, t.longest); }
      LessEqTrans(sep, n.entries[info.slot + 1].key, n.upper);
    }
    LessTotal(sep, sep);
    AbsentAt(t.nodes[p].entries, sep, i0);
  }

  /** The separator belongs to the parent's key range. */
  lemma ParentReady(t: Tree, a: Address, info: SeparatorInfo)
    requires WellFormed(t) && a in t.nodes && a != t.root && Chosen(t.nodes[a], info) && !TooFew(t.nodes[a])
    requires a in t.parent && t.parent[a] in t.nodes
    ensures var n, par, sep := t.nodes[a], t.nodes[t.parent[a]], SepKey(t.nodes[a].entries, info);
      && a != t.parent[a] && Ordered(n) && SplitsAt(n, info.slot, sep) && Sorted(par.entries)
      && FencePrefix(par.lower, par.upper) <= sep && |sep| == info.length
      && Fits(SplitRight(n, info.slot, sep)) && (!n.isLeaf ==> Fits(SplitLeft(n, info.slot, sep)))
  {
    var par, sep := t.nodes[t.parent[a]], SepKey(t.nodes[a].entries, info);
    SplitUsable(t, a, info);
    var i0 := PlaceOf(t, a, sep);
    WithinSharesPrefix(par.lower, par.upper, sep);
  }

  /** A split keeps the tree and its answers, and lowers the measure of every key the page covered. */
  lemma SplitDone(t: Tree, a: Address, info: SeparatorInfo, left: Address, i0: nat, k: Key)
    requires WellFormed(t) && a in t.nodes && Chosen(t.nodes[a], info) && !TooFew(t.nodes[a])
    requires CanSplit(t, a, info.slot, SepKey(t.nodes[a].entries, info), left, i0) && Covers(t, a, k)
    ensures var t' := SplitAt(t, a, info.slot, SepKey(t.nodes[a].entries, info), left, i0);
      WellFormed(t') && SameAnswers(t, t') && Potential(t', k) < Potential(t, k)
  {
    var n, sep := t.nodes[a], SepKey(t.nodes[a].entries, info);
    SplitUsable(t, a, info);
    SplitOk(t, a, info.slot, sep, left, i0);
    SplitAnswers(t, a, info.slot, sep, left, i0);
    PlaceIs(t, a);
    if n.isLeaf {
      LeafSplitLowers(t, a, info.slot, sep, left, i0, k);
    } else {
      InnerSplitLowers(t, a, info.slot, sep, left, i0, k);
    }
  }

  /** The tree after a page split, as seen from outside. */
  lemma PageSplit(t: Tree, a: Address, info: SeparatorInfo, left: Address, k: Key, m: map<Key, seq<Byte>>) returns (t': Tree, i0: nat)
    requires WellFormed(t) && Answers(t, m) && Covers(t, a, k) && a != t.root && left !in t.nodes && left != 0
    requires Chosen(t.nodes[a], info) && !TooFew(t.nodes[a])
    requires t.nodes[a].isLeaf ==> Fits(SplitLeft(t.nodes[a], info.slot, SepKey(t.nodes[a].entries, info)))
    requires a in t.parent && t.parent[a] in t.nodes
    requires var n := t.nodes[t.parent[a]]; var sep := SepKey(t.nodes[a].entries, info);
      && SpaceNeeded(n, |sep|, CHILD_BYTES) <= FreeAfterCompaction(n)
      && forall i | 0 <= i < |n.entries| :: n.entries[i].key != sep
    ensures WellFormed(t') && Answers(t', m) && t'.root == t.root && t'.longest == t.longest
    ensures Potential(t', k) < Potential(t, k)
    ensures CanSplit(t, a, info.slot, SepKey(t.nodes[a].entries, info), left, i0)
    ensures t' == SplitAt(t, a, info.slot, SepKey(t.nodes[a].entries, info), left, i0) && SepKey(t.nodes[a].entries, info) != []
    ensures var n, p, par, sep := t.nodes[a], t.parent[a], t.nodes[t.parent[a]], SepKey(t.nodes[a].entries, info);
      Sorted(par.entries) && t'.nodes == t.nodes[left := SplitLeft(n, info.slot, sep)][a := SplitRight(n, info.slot, sep)]
                                                [p := InsertEntry(par, Entry(sep, EncodePtr(left)))]
  {
    i0 := SplitReady(t, a, info, left);
    SplitUsable(t, a, info);
    SplitDone(t, a, info, left, i0, k);
    t' := SplitAt(t, a, info.slot, SepKey(t.nodes[a].entries, info), left, i0);
    AnswersKept(t, t', m);
  }

  /** The tree after an entry goes into the leaf for its key. */
  lemma LeafInserted(t: Tree, a: Address, e: Entry, longest: nat, m: map<Key, seq<Byte>>) returns (t': Tree)
    requires WellFormed(t) && Answers(t, m) && t.root in t.level && a == LeafFor(t, e.key) && Covers(t, a, e.key) && t.nodes[a].isLeaf
    requires t.longest <= longest <= MaxKVSize() && |e.key| + |e.payload| <= longest
    requires SpaceNeeded(t.nodes[a], |e.key|, |e.payload|) <= FreeAfterCompaction(t.nodes[a])
    requires forall i | 0 <= i < |t.nodes[a].entries| :: t.nodes[a].entries[i].key != e.key
    ensures WellFormed(t') && Answers(t', m[e.key := e.payload]) && t'.root == t.root && t'.longest == longest
    ensures Sorted(t.nodes[a].entries) && t'.nodes == t.nodes[a := InsertEntry(t.nodes[a], e)]
  {
    assert NodeOk(t, a);
    InsertOrdered(t.nodes[a], e);
    InsertFits(t.nodes[a], e);
    LeafInsertAtMost(t.nodes[a], e, t.longest, longest);
    LeafStepOk(t, a, InsertEntry(t.nodes[a], e).entries, longest);
    InsertAnswers(t, a, e, longest, m);
    t' := LeafStep(t, a, InsertEntry(t.nodes[a], e).entries, longest);
  }

  lemma LeafInsertAtMost(n: Node, e: Entry, m: nat, m': nat)
    requires Sorted(n.entries) && n.isLeaf && KeysAtMost(n, m) && m <= m' && |e.key| + |e.payload| <= m'
    ensures KeysAtMost(InsertEntry(n, e), m')
  {
    var n', pos := InsertEntry(n, e), LowerBound(n.entries, e.key);
    forall i | 0 <= i < |n'.entries| ensures EntryAtMost(n', i, m') {
      if i != pos { assert EntryAtMost(n, if i < pos then i else i - 1, m); }
    }
  }

  /** A key the map lacks is in no entry of its leaf, and the other way round. */
  lemma AbsentFromLeaf(t: Tree, a: Address, k: Key, m: map<Key, seq<Byte>>)
    requires WellFormed(t) && Answers(t, m) && t.root in t.level && a == LeafFor(t, k) && Covers(t, a, k)
    ensures k in m <==> exists i :: 0 <= i < |t.nodes[a].entries| && t.nodes[a].entries[i].key == k
  {
    assert NodeOk(t, a) && AnswersAt(t, m, k);
    LookupIs(t.nodes[a].entries, k);
  }

  // ---- remove ----

  /** The tree after an entry leaves its leaf. */
  lemma LeafRemoved(t: Tree, a: Address, pos: nat, k: Key, m: map<Key, seq<Byte>>) returns (t': Tree)
    requires WellFormed(t) && Answers(t, m) && t.root in t.level && a == LeafFor(t, k) && Covers(t, a, k) && t.nodes[a].isLeaf
    requires pos < |t.nodes[a].entries| && t.nodes[a].entries[pos].key == k
    ensures WellFormed(t') && Answers(t', m - {k}) && t'.root == t.root && t'.parent == t.parent && t'.longest == t.longest
    ensures t'.nodes == t.nodes[a := RemoveAt(t.nodes[a], pos)] && Removal(t, t', a, k)
  {
    assert NodeOk(t, a);
    RemoveOrdered(t.nodes[a], pos);
    RemovedAtMost(t.nodes[a], pos, t.longest);
    RemoveFits(t.nodes[a], pos);
    LeafStepOk(t, a, RemoveAt(t.nodes[a], pos).entries, t.longest);
    RemoveAnswers(t, a, pos, m);
    t' := LeafStep(t, a, RemoveAt(t.nodes[a], pos).entries, t.longest);
    assert RemovedFrom(t, t', a, pos, k);
  }

  /** The entry for k leaves the leaf at a. */
  ghost predicate Removal(t: Tree, t': Tree, a: Address, k: Key) {
    exists pos: nat :: RemovedFrom(t, t', a, pos, k)
  }

  ghost predicate RemovedFrom(t: Tree, t': Tree, a: Address, pos: nat, k: Key) {
    && a in t.nodes && pos < |t.nodes[a].entries| && t.nodes[a].entries[pos].key == k
    && t' == LeafStep(t, a, RemoveAt(t.nodes[a], pos).entries, t.longest)
  }

  /** The leaf still hangs where it did. */
  lemma StillHangs(t: Tree, t': Tree, a: Address, k: Key, p: Address, pos: nat)
    requires WellFormed(t) && WellFormed(t') && Removal(t, t', a, k) && t.nodes[a].isLeaf && HangsAt(t, a, p, pos)
    ensures a in t'.nodes && t'.nodes[a].isLeaf && HangsAt(t', a, p, pos) && t'.root == t.root
  {
    PlaceIs(t, a);
  }

  /** Both leaves are underfull, the parent has an entry for the right one, and they fit one page with its separator
      counted twice. */
  ghost predicate Merges(t: Tree, a: Address, right: Address, pos: nat) {
    && Merging(t, a, right, pos) && pos + 1 < |t.nodes[t.parent[a]].entries|
    && FreeAfterCompaction(t.nodes[a]) >= UnderFullSize(true) && FreeAfterCompaction(t.nodes[right]) >= UnderFullSize(true)
    && 2 * |t.nodes[a].upper| <= FreeAfterCompaction(Merge(t.nodes[a], t.nodes[right]))
  }

  /** What a removal from the leaf at a makes of the tree: the leaf goes into its right neighbour when they merge. */
  ghost predicate Tidied(t: Tree, t': Tree, a: Address) {
    || (t' == t && forall right, pos: nat :: !Merges(t, a, right, pos))
    || (exists right, pos: nat :: Merges(t, a, right, pos) && t' == MergeAt(t, a, right, pos))
  }

  /** A leaf that is not underfull, or has no neighbour that is, stays. */
  lemma NoMerge(t: Tree, a: Address, p: Address, pos: nat)
    requires WellFormed(t) && a in t.nodes && t.nodes[a].isLeaf && HangsAt(t, a, p, pos)
    requires a == t.root || FreeAfterCompaction(t.nodes[a]) < UnderFullSize(true) || |t.nodes[p].entries| <= pos + 1
             || !Merges(t, a, ChildAt(t.nodes[p], pos + 1), pos)
    ensures Tidied(t, t, a)
  {
    forall right, pos': nat ensures !Merges(t, a, right, pos') {
      if Merges(t, a, right, pos') && pos' != pos {
        DistinctChildren(t, p, pos, pos');
      }
    }
  }

  /** For a leaf that hangs below a parent: it is gone after the removal exactly if the parent has an entry for its right
      neighbour, a quarter of both pages is free, and the two fit one page with the fence between them counted twice. */
  lemma TidiedIs(t: Tree, t': Tree, a: Address, p: Address, pos: nat)
    requires WellFormed(t) && a in t.nodes && t.nodes[a].isLeaf && a != t.root && HangsAt(t, a, p, pos) && Tidied(t, t', a)
    ensures p in t.nodes && pos <= |t.nodes[p].entries|
    ensures a !in t'.nodes <==>
      && pos + 1 < |t.nodes[p].entries|
      && var l, right := t.nodes[a], ChildAt(t.nodes[p], pos + 1);
         && right in t.nodes && 4 * FreeAfterCompaction(l) > sizes.leaf - 4 && 4 * FreeAfterCompaction(t.nodes[right]) > sizes.leaf - 4
         && 2 * |l.upper| <= FreeAfterCompaction(Merge(l, t.nodes[right]))
    ensures a in t'.nodes ==> t' == t
  {
    assert NodeOk(t, a) && NodeOk(t, p);
    if t' != t {
      var right, i: nat :| Merges(t, a, right, i) && t' == MergeAt(t, a, right, i);
      if i != pos { DistinctChildren(t, p, i, pos); }
      MergingFacts(t, a, right, pos);
    } else if pos + 1 < |t.nodes[p].entries| {
      NeighbourOf(t, a, p, pos);
      assert !Merges(t, a, ChildAt(t.nodes[p], pos + 1), pos);
    }
  }

  lemma NeighbourOf(t: Tree, a: Address, p: Address, pos: nat)
    requires WellFormed(t) && a in t.nodes && t.nodes[a].isLeaf && a != t.root && HangsAt(t, a, p, pos)
    requires pos + 1 < |t.nodes[p].entries|
    ensures Merging(t, a, ChildAt(t.nodes[p], pos + 1), pos)
  {
    assert NodeOk(t, a) && NodeOk(t, p) && HasChildIndex(t, p, pos) && HasChildIndex(t, p, pos + 1);
    assert ChildOk(t, p, pos) && ChildOk(t, p, pos + 1) && NodeOk(t, ChildAt(t.nodes[p], pos + 1));
    forall b | b in t.nodes ensures b in t.parent { assert NodeOk(t, b); }
  }

  /** Neighbouring leaves below one parent, and that a merged page has room for their outer fences. */
  lemma MergeReady(t: Tree, a: Address, right: Address, pos: nat)
    requires Merging(t, a, right, pos)
    ensures var l, r, p := t.nodes[a], t.nodes[right], t.parent[a];
      && a != right && a != p && p != right && Ordered(l) && Ordered(r) && l.upper == r.lower != []
      && sizes.header + |l.lower| + |r.upper| <= PageSize(true) && pos < |t.nodes[p].entries|
  {
    MergingFacts(t, a, right, pos);
    assert NodeOk(t, a) && NodeOk(t, right);
  }

  /** The tree after the leaf at a merged into the one to its right. */
  lemma LeavesMerged(t: Tree, a: Address, right: Address, pos: nat, m: map<Key, seq<Byte>>) returns (t': Tree)
    requires Merging(t, a, right, pos) && Fits(Merge(t.nodes[a], t.nodes[right])) && Answers(t, m)
    requires pos < |t.nodes[t.parent[a]].entries|
    ensures WellFormed(t') && Answers(t', m) && t'.root == t.root && t'.longest == t.longest
    ensures t' == MergeAt(t, a, right, pos)
    ensures t'.nodes == (t.nodes - {a})[right := Merge(t.nodes[a], t.nodes[right])][t.parent[a] := RemoveAt(t.nodes[t.parent[a]], pos)]
  {
    MergeReady(t, a, right, pos);
    MergeOrdered(t.nodes[a], t.nodes[right]);
    MergeOk(t, a, right, pos);
    MergeAnswers(t, a, right, pos);
    t' := MergeAt(t, a, right, pos);
    AnswersKept(t, t', m);
  }

  /** Children pos and pos + 1 of a page just above the leaves can merge. */
  lemma NeighboursMerge(t: Tree, a: Address, p: Address, pos: nat, right: Address)
    requires WellFormed(t) && a in t.nodes && t.nodes[a].isLeaf && a != t.root && HangsAt(t, a, p, pos)
    requires pos + 1 <= |t.nodes[p].entries| && IsChildAt(t.nodes[p], pos + 1, right)
    ensures Merging(t, a, right, pos) && right in t.nodes && t.nodes[right].isLeaf
  {
    PlaceIs(t, a);
    assert HasChildIndex(t, p, pos) && HasChildIndex(t, p, pos + 1);
    assert ChildOk(t, p, pos) && ChildOk(t, p, pos + 1);
    PlaceIs(t, right);
    forall b | b in t.nodes ensures b in t.parent { assert NodeOk(t, b); }
  }
}
