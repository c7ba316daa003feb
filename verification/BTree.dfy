/** The B-tree over a pool of slotted pages. */
module BTrees {
  import opened Hiding
  import opened Bytes
  import opened Layout
  import opened Nodes
  import opened Separators
  import opened Pages
  import opened Trees
  import opened TreeSteps
  import opened Potentials
  import opened Splits
  import opened Passes
  import opened Scans
  import opened TreeScans

  datatype PassOutcome =
    | Inserted
    | Again        // a page has split; descend again
    | Aborted

  class BTree {
    var root: Address
    /** The pages allocated, by address. */
    var pages: map<Address, BTreeNode>
    /** What the pages stand for. */
    ghost var t: Tree
    /** The map the tree represents. */
    ghost var contents: map<Key, seq<Byte>>

    /** p is in order and stands for n; unfolded only where Holds is mentioned. */
    static ghost predicate IsPage(p: BTreeNode, n: Node)
      reads p
    {
      forall u: Unfold :: Holds(u, p, n)
    }

    static ghost predicate Holds(u: Unfold, p: BTreeNode, n: Node)
      reads p
    {
      p.Valid() && p.View() == n
    }

    ghost predicate PageAt(a: Address)
      reads `pages, `t, pages.Values
    {
      a in pages && a in t.nodes && IsPage(pages[a], t.nodes[a])
    }

    static ghost predicate Apart(pages: map<Address, BTreeNode>, a: Address, b: Address) {
      a in pages && b in pages && (a != b ==> pages[a] != pages[b])
    }

    /** Each address has its own page object, which holds the node the tree value has there. */
    ghost predicate Linked()
      reads `root, `pages, `t, pages.Values
    {
      && t.root == root && pages.Keys == t.nodes.Keys
      && (forall a, b {:trigger Apart(pages, a, b)} | a in pages && b in pages :: Apart(pages, a, b))
      && (forall a {:trigger PageAt(a)} | a in pages :: PageAt(a))
    }

    ghost predicate Valid()
      reads this, pages.Values
    {
      Linked() && WellFormed(t) && Answers(t, contents)
    }

    constructor ()
      ensures Valid() && contents == map[] && fresh(pages.Values)
    {
      var leaf := new BTreeNode(true);
      root, pages := 1, map[1 := leaf];
      t := EmptyTree();
      contents := map[];
      new;
      assert IsPage(pages[1], t.nodes[1]);
      assert PageAt(1);
      EmptyTreeOk();
    }

    // ---- descent ----

    /** One step down from an inner page. */
    method LookupInner(a: Address, key: Key) returns (pos: nat, child: Address)
      requires Linked() && WellFormed(t) && Covers(t, a, key) && !t.nodes[a].isLeaf
      ensures Sorted(t.nodes[a].entries) && pos == LowerBound(t.nodes[a].entries, key) && IsChildAt(t.nodes[a], pos, child)
    {
      assert NodeOk(t, a) && PageAt(a) && Holds(Unfold, pages[a], t.nodes[a]);
      var node := pages[a];
      WithinSharesPrefix(node.lowerKey, node.upperKey, key);
      pos := node.LookupInnerIndex(key);
      child := node.ChildAtIndex(pos);
    }

    /** Whether the page at a is an inner page. */
    method IsInner(a: Address) returns (b: bool)
      requires Linked() && a in t.nodes
      ensures b == !t.nodes[a].isLeaf
    {
      assert PageAt(a) && Holds(Unfold, pages[a], t.nodes[a]);
      b := !pages[a].isLeaf;
    }

    /** Down to the leaf for key; parent is 0 when the leaf is the root, otherwise the leaf is its child pos. */
    method Descend(key: Key) returns (node: Address, parent: Address, pos: nat)
      requires Linked() && WellFormed(t)
      ensures Covers(t, node, key) && t.nodes[node].isLeaf && t.root in t.level && node == LeafFor(t, key)
      ensures HangsAt(t, node, parent, pos)
    {
      node, parent, pos := root, 0, 0;
      ghost var d := 0;
      PathOk(t, key, 0);
      var inner := IsInner(node);
      while inner
        invariant 0 <= d && Reached(t, key, d, node) && inner == !t.nodes[node].isLeaf
        invariant HangsAt(t, node, parent, pos)
        decreases t.level[node]
      {
        parent := node;
        pos, node := LookupInner(parent, key);
        StepDown(t, key, d, parent, pos, node);
        d := d + 1;
        inner := IsInner(node);
      }
    }

    // ---- lookup ----

    method Lookup(key: Key) returns (r: Option<seq<Byte>>)
      requires Valid()
      ensures r == Get(contents, key)
    {
      var a, _, _ := Descend(key);
      assert NodeOk(t, a) && PageAt(a) && Holds(Unfold, pages[a], t.nodes[a]) && AnswersAt(t, contents, key);
      var node := pages[a];
      WithinSharesPrefix(node.lowerKey, node.upperKey, key);
      var pos, found := node.LowerBound(key);
      LowerBoundUnique(node.entries, key, pos, LowerBound(node.entries, key));
      if !found {
        return None;
      }
      node.SlotIsEntry(pos);
      r := Some(node.GetPayload(pos));
    }

    // ---- insert ----

    /** The parent's room and the leaf's fit, as splitNode's assertions check them. */
    ghost predicate ReadyToSplit(a: Address, p: Address, info: SeparatorInfo)
      reads this
    {
      && a in t.nodes && a != t.root && p in t.nodes && a in t.parent && p == t.parent[a]
      && Picked(t.nodes[a], info) && !TooFew(t.nodes[a])
      && SpaceNeeded(t.nodes[p], info.length, CHILD_BYTES) <= FreeAfterCompaction(t.nodes[p])
      && (t.nodes[a].isLeaf ==> Fits(SplitLeft(t.nodes[a], info.slot, SepKey(t.nodes[a].entries, info))))
    }

    /** Every page except those at s holds its node. */
    ghost predicate LinkedExcept(s: set<Address>)
      reads `root, `pages, `t, pages.Values
    {
      && t.root == root && pages.Keys == t.nodes.Keys && s <= pages.Keys
      && (forall b, c {:trigger Apart(pages, b, c)} | b in pages && c in pages :: Apart(pages, b, c))
      && (forall b {:trigger PageAt(b)} | b in pages && b !in s :: PageAt(b))
    }

    /** Pages whose contents did not change are linked as before. */
    lemma Restored(s: set<Address>)
      requires LinkedExcept(s) && forall b | b in s :: PageAt(b)
      ensures Linked()
    {
      forall b | b in pages ensures PageAt(b) {}
    }

    /** Splits the page object at a; the tree value does not follow yet. */
    method SplitPages(a: Address, p: Address, info: SeparatorInfo, left: Address, ghost n: Node, ghost par: Node) returns (ok: bool, nodeLeft: BTreeNode)
      requires Linked() && a in pages && p in pages && a != p && n == t.nodes[a] && par == t.nodes[p]
      requires Ordered(n) && Chosen(n, info) && SplitsAt(n, info.slot, SepKey(n.entries, info))
      requires Fits(SplitLeft(n, info.slot, SepKey(n.entries, info))) && Fits(SplitRight(n, info.slot, SepKey(n.entries, info)))
      requires Sorted(par.entries) && FencePrefix(par.lower, par.upper) <= SepKey(n.entries, info)
      requires SpaceNeeded(par, info.length, CHILD_BYTES) <= FreeAfterCompaction(par)
      modifies pages[a], pages[p]
      ensures LinkedExcept({a, p}) && fresh(nodeLeft)
      ensures ok <==> forall i | 0 <= i < |par.entries| :: par.entries[i].key != SepKey(n.entries, info)
      ensures ok ==> IsPage(nodeLeft, SplitLeft(n, info.slot, SepKey(n.entries, info)))
      ensures ok ==> IsPage(pages[a], SplitRight(n, info.slot, SepKey(n.entries, info)))
      ensures ok ==> IsPage(pages[p], InsertEntry(par, Entry(SepKey(n.entries, info), EncodePtr(left))))
      ensures !ok ==> IsPage(pages[a], n) && IsPage(pages[p], par)
    {
      assert PageAt(a) && PageAt(p) && Apart(pages, a, p);
      assert Holds(Unfold, pages[a], n) && Holds(Unfold, pages[p], par);
      ghost var sep := SepKey(n.entries, info);
      var sepKey := pages[a].GetSep(info);
      ok, nodeLeft := pages[a].SplitNode(pages[p], info.slot, sepKey, left);
      forall b | b in pages && b != a && b != p ensures PageAt(b) {
        assert old(PageAt(b)) && Apart(pages, a, b) && Apart(pages, p, b);
      }
    }

    /** The tree value follows the page at a. */
    ghost method Follow(a: Address, next: Tree)
      requires LinkedExcept({a}) && next.root == root && a in next.nodes && next.nodes == t.nodes[a := next.nodes[a]]
      requires IsPage(pages[a], next.nodes[a])
      modifies this`t
      ensures Linked() && t == next
    {
      t := next;
      forall b | b in pages ensures PageAt(b) {
        if b != a { assert old(PageAt(b)); }
      }
    }

    /** Registers the new page at left and lets the tree value follow the two pages that changed. */
    method Relink(a: Address, p: Address, left: Address, nodeLeft: BTreeNode, ghost next: Tree)
      requires LinkedExcept({a, p}) && left !in pages && nodeLeft !in pages.Values
      requires next.root == root && left in next.nodes && a in next.nodes && p in next.nodes
      requires next.nodes == t.nodes[left := next.nodes[left]][a := next.nodes[a]][p := next.nodes[p]]
      requires IsPage(nodeLeft, next.nodes[left]) && IsPage(pages[a], next.nodes[a]) && IsPage(pages[p], next.nodes[p])
      modifies this`pages, this`t
      ensures Linked() && t == next && pages.Values <= old(pages.Values) + {nodeLeft}
    {
      ghost var was := pages;
      pages := pages[left := nodeLeft];
      t := next;
      forall o | o in pages.Values ensures o in was.Values + {nodeLeft} {
        var b :| b in pages && pages[b] == o;
        if b != left { assert was[b] in was.Values; }
      }
      forall b, c | b in pages && c in pages ensures Apart(pages, b, c) {
        if b in was && c in was { assert Apart(was, b, c); }
        assert was[a] in was.Values;
        if b in was { assert was[b] in was.Values; }
        if c in was { assert was[c] in was.Values; }
      }
      forall b | b in pages ensures PageAt(b) {
        if b in was && b != a && b != p { assert old(PageAt(b)); }
      }
    }

    /** Splits the page at a by the chosen separator into a new page at left and itself, unless its parent has the
        separator already. */
    method SplitInto(a: Address, p: Address, info: SeparatorInfo, left: Address, ghost key: Key) returns (ok: bool)
      requires Valid() && ReadyToSplit(a, p, info) && left != 0 && left !in pages && Covers(t, a, key)
      modifies this, pages.Values
      ensures Valid() && contents == old(contents) && fresh(pages.Values - old(pages.Values))
      ensures ok <==> !HasKey(old(t).nodes[p], SepKey(old(t).nodes[a].entries, info))
      ensures ok ==> t.root == old(t).root && t.longest == old(t).longest && Potential(t, key) < Potential(old(t), key)
      ensures ok ==> HasSplit(old(t), t, a, key)
      ensures !ok ==> t == old(t) && pages == old(pages)
    {
      ghost var t0, n, par := t, t.nodes[a], t.nodes[p];
      ParentReady(t, a, info);
      assert pages[a] in pages.Values && pages[p] in pages.Values;
      var nodeLeft;
      ok, nodeLeft := SplitPages(a, p, info, left, n, par);
      if ok {
        ghost var next := PickedSplit(t0, a, info, left, key, contents);
        Relink(a, p, left, nodeLeft, next);
      } else {
        assert PageAt(a) && PageAt(p);
        Restored({a, p});
      }
    }

    /** Asks the page at p for space; it may be compacted but stands for the same node. */
    method RequestRoom(p: Address, length: nat) returns (ok: bool)
      requires Linked() && p in pages && !t.nodes[p].isLeaf
      modifies pages[p]
      ensures Linked()
      ensures ok <==> SpaceNeeded(t.nodes[p], length, CHILD_BYTES) <= FreeAfterCompaction(t.nodes[p])
    {
      assert PageAt(p) && Holds(Unfold, pages[p], t.nodes[p]);
      var par := pages[p];
      Images.Basics(par.ImageOf(par.count));
      ok := par.RequestSpaceFor(sizes.slot + length - par.prefixLength + CHILD_BYTES);
      assert IsPage(par, t.nodes[p]);
      forall b | b in pages && b != p ensures PageAt(b) {
        assert old(PageAt(b)) && Apart(pages, b, p);
      }
      Restored({p});
    }

    /** splitNodeWithParent: splits the page at a if its parent has room for the separator. */
    method SplitWithParent(a: Address, p: Address, ghost key: Key) returns (r: SplitOutcome)
      requires Valid() && Covers(t, a, key) && a != t.root && a in t.parent && p == t.parent[a] && p in t.nodes && !t.nodes[p].isLeaf
      modifies this, pages.Values
      ensures Valid() && contents == old(contents) && fresh(pages.Values - old(pages.Values))
      ensures t.root == old(t).root && t.longest == old(t).longest
      ensures r == Verdict(old(t), a) && (r.Split? ==> HasSplit(old(t), t, a, key))
      ensures if r.Split? then Potential(t, key) < Potential(old(t), key) else t == old(t)
    {
      assert NodeOk(t, a);
      var few := HasFewerThan(a, 2);
      if few {
        return Failed;
      }
      var info := FindSeparator(a);
      SplitDecides(t, a, info);
      var room := RequestRoom(p, info.length);
      if !room {
        return ParentFull;
      }
      var fits := SplitAssertions(a, info);
      if !fits {
        return Failed;
      }
      r := SplitIfMemory(a, p, info, key);
    }

    /** Takes an address for the left half and splits; a page out of entries or memory or with a bad separator fails. */
    method SplitIfMemory(a: Address, p: Address, info: SeparatorInfo, ghost key: Key) returns (r: SplitOutcome)
      requires Valid() && Covers(t, a, key) && ReadyToSplit(a, p, info)
      modifies this, pages.Values
      ensures Valid() && contents == old(contents) && fresh(pages.Values - old(pages.Values))
      ensures t.root == old(t).root && t.longest == old(t).longest && !r.ParentFull?
      ensures r.Failed? <==> OutOfAddresses(old(t)) || HasKey(old(t).nodes[p], SepKey(old(t).nodes[a].entries, info))
      ensures if r.Split? then Potential(t, key) < Potential(old(t), key) else t == old(t)
      ensures r.Split? ==> HasSplit(old(t), t, a, key)
    {
      if left: Address :| left != 0 && left !in pages {
        assert IsFree(t, left);
        var ok := SplitInto(a, p, info, left, key);
        r := if ok then Split else Failed;
      } else {
        assert forall x :: x in pages <==> x in t.nodes;
        r := Failed;
      }
    }

    method HasFewerThan(a: Address, n: nat) returns (few: bool)
      requires Linked() && a in pages
      ensures few <==> |t.nodes[a].entries| < n
    {
      assert PageAt(a) && Holds(Unfold, pages[a], t.nodes[a]);
      Images.Basics(pages[a].ImageOf(pages[a].count));
      few := pages[a].count < n;
    }

    method FindSeparator(a: Address) returns (info: SeparatorInfo)
      requires Linked() && a in pages && Sorted(t.nodes[a].entries) && |t.nodes[a].entries| > 1
      ensures Picked(t.nodes[a], info)
    {
      assert PageAt(a) && Holds(Unfold, pages[a], t.nodes[a]);
      Images.Basics(pages[a].ImageOf(pages[a].count));
      info := pages[a].FindSeparator();
    }

    /** The assertions splitNode makes before it moves anything: the separator's slot is not the first, and the
        left half of a leaf fits. */
    method SplitAssertions(a: Address, info: SeparatorInfo) returns (ok: bool)
      requires Linked() && a in pages && Ordered(t.nodes[a]) && Chosen(t.nodes[a], info) && |t.nodes[a].entries| > 1
      ensures ok <==> (if t.nodes[a].isLeaf then Fits(SplitLeft(t.nodes[a], info.slot, SepKey(t.nodes[a].entries, info)))
                       else !TooFew(t.nodes[a]))
    {
      assert PageAt(a) && Holds(Unfold, pages[a], t.nodes[a]);
      var node := pages[a];
      Images.Basics(node.ImageOf(node.count));
      if !node.isLeaf {
        return info.slot > 0;
      }
      var sep := node.GetSep(info);
      ok := node.LeftHalfFits(info.slot, sep);
    }

    /** makeRoot: a new inner page above the root at a. */
    method MakeRoot(a: Address, ghost key: Key) returns (ok: bool, r: Address)
      requires Valid() && a == root
      modifies this
      ensures Valid() && contents == old(contents) && fresh(pages.Values - old(pages.Values))
      ensures ok ==> old(t).root in old(t).level && IsFree(old(t), r) && t == RootStep(old(t), r)
      ensures ok ==> Potential(t, key) == Potential(old(t), key)
      ensures !ok ==> t == old(t) && OutOfAddresses(t)
    {
      if x: Address :| x != 0 && x !in pages {
        ok, r := true, x;
        assert IsFree(t, r);
        var ptr := new BTreeNode(false);
        ptr.upper := a;
        RootStepOk(t, r);
        RootStepAnswers(t, r);
        AnswersKept(t, RootStep(t, r), contents);
        RootPotential(t, r, key);
        assert IsPage(ptr, RootNode(a));
        Register(r, ptr, RootStep(t, r));
      } else {
        assert forall x :: x in pages <==> x in t.nodes;
        ok, r := false, 0;
      }
    }

    /** Registers a new page as the root; the tree value follows. */
    method Register(r: Address, page: BTreeNode, ghost next: Tree)
      requires Linked() && r !in pages && page !in pages.Values
      requires next.root == r && r in next.nodes && next.nodes == t.nodes[r := next.nodes[r]] && IsPage(page, next.nodes[r])
      modifies this`pages, this`root, this`t
      ensures Linked() && t == next && pages.Values <= old(pages.Values) + {page}
    {
      ghost var was := pages;
      pages, root := pages[r := page], r;
      t := next;
      forall b | b in pages ensures PageAt(b) {
        if b != r { assert old(PageAt(b)); }
      }
      forall b, c | b in pages && c in pages ensures Apart(pages, b, c) {
        if b in was && c in was { assert Apart(was, b, c); }
        if b in was { assert was[b] in was.Values; }
        if c in was { assert was[c] in was.Values; }
      }
      NewValues(was, r, page);
    }

    static lemma NewValues(was: map<Address, BTreeNode>, r: Address, p: BTreeNode)
      ensures was[r := p].Values <= was.Values + {p}
    {
      forall o | o in was[r := p].Values ensures o in was.Values + {p} {
        var b :| b in was[r := p] && was[r := p][b] == o;
        if b != r { assert was[b] in was.Values; }
      }
    }

    ghost function Depth(a: Address): int
      reads this
    {
      if t.root in t.level && a in t.level then t.level[t.root] as int - t.level[a] else 0
    }

    /** Splits the page at a, below parent if that is not 0. When the parent is full it is split instead, or its
        own parent, and so on up; in any case one page on the key's path has split. */
    method SplitNode(a: Address, parent: Address, key: Key) returns (ok: bool)
      requires Valid() && Covers(t, a, key)
      requires if a == t.root then parent == 0 else a in t.parent && parent == t.parent[a] && parent in t.nodes && parent != 0
      modifies this, pages.Values
      ensures Valid() && contents == old(contents) && fresh(pages.Values - old(pages.Values)) && t.longest == old(t).longest
      ensures ok <==> !Blocked(old(t), a)
      ensures ok ==> Potential(t, key) < Potential(old(t), key) && Passed(old(t), t, a, key)
      ensures !ok ==> SameBelow(old(t), t) && a in t.nodes && Blocked(t, a)
      decreases Depth(a), 1
    {
      PlaceIs(t, a);
      if parent == 0 {
        ok := SplitRoot(a, key);
      } else {
        PlaceIs(t, parent);
        ok := SplitBelow(a, parent, key);
      }
    }

    /** Splits the root below a new one, which has room for any separator. */
    method SplitRoot(a: Address, key: Key) returns (ok: bool)
      requires Valid() && Covers(t, a, key) && a == t.root
      modifies this, pages.Values
      ensures Valid() && contents == old(contents) && fresh(pages.Values - old(pages.Values)) && t.longest == old(t).longest
      ensures ok <==> !Blocked(old(t), a)
      ensures ok ==> Potential(t, key) < Potential(old(t), key) && Passed(old(t), t, a, key)
      ensures !ok ==> SameBelow(old(t), t) && a in t.nodes && Blocked(t, a)
    {
      ghost var t0 := t;
      var p;
      ok, p := MakeRoot(a, key);
      if !ok {
        RootNeedsMemory(t);
        return;
      }
      RootBlocked(t0, p);
      ghost var v := pages.Values;
      var r := SplitWithParent(a, p, key);
      ok := r.Split?;
      if ok { PassedRoot(t0, p, t, key); }
      assert pages.Values - old(pages.Values) <= (pages.Values - v) + (v - old(pages.Values));
    }

    /** Splits the page at a below p, or first something above when p is full. */
    method SplitBelow(a: Address, p: Address, key: Key) returns (ok: bool)
      requires Valid() && Covers(t, a, key)
      requires a != t.root && a in t.parent && p == t.parent[a] && p in t.nodes && !t.nodes[p].isLeaf
      modifies this, pages.Values
      ensures Valid() && contents == old(contents) && fresh(pages.Values - old(pages.Values)) && t.longest == old(t).longest
      ensures ok <==> !Blocked(old(t), a)
      ensures ok ==> Potential(t, key) < Potential(old(t), key) && Passed(old(t), t, a, key)
      ensures !ok ==> SameBelow(old(t), t) && a in t.nodes && Blocked(t, a)
      decreases Depth(a), 0, 1
    {
      ghost var t0, v0 := t, pages.Values;
      var r := SplitWithParent(a, p, key);
      match r {
        case Split => ok := true; PassedHere(t0, t, a, key);
        case Failed => ok := false;
        case ParentFull =>
          ghost var v := pages.Values;
          ok := SplitAbove(a, p, key);
          Grown(v0, v, pages.Values);
      }
    }

    /** The pages added in two steps. */
    static lemma Grown(v: set<BTreeNode>, v': set<BTreeNode>, v'': set<BTreeNode>)
      ensures v'' - v <= (v'' - v') + (v' - v)
    {
    }

    /** Splits the full parent of a, or something above it. */
    method SplitAbove(a: Address, p: Address, key: Key) returns (ok: bool)
      requires Valid() && Covers(t, a, key) && a != t.root && Verdict(t, a).ParentFull?
      requires a in t.parent && p == t.parent[a] && p in t.nodes && !t.nodes[p].isLeaf
      modifies this, pages.Values
      ensures Valid() && contents == old(contents) && fresh(pages.Values - old(pages.Values)) && t.longest == old(t).longest
      ensures ok <==> !Blocked(old(t), a)
      ensures ok ==> Potential(t, key) < Potential(old(t), key) && Passed(old(t), t, a, key)
      ensures !ok ==> SameBelow(old(t), t) && a in t.nodes && Blocked(t, a)
      decreases Depth(a), 0, 0
    {
      ghost var t0 := t;
      var _ := PlaceOf(t, a, key);
      ok := EnsureSpace(p, key);
      if ok { PassedAbove(t0, t, a, key); } else { BlockedBelow(t0, t, a); }
    }

    /** Descends from the root to toSplit and returns the page above it, 0 for the root. */
    method FindParent(toSplit: Address, key: Key) returns (parent: Address)
      requires Linked() && WellFormed(t) && Covers(t, toSplit, key) && !t.nodes[toSplit].isLeaf
      ensures exists pos: nat :: HangsAt(t, toSplit, parent, pos)
    {
      var node := root;
      parent := 0;
      ghost var d, pos: nat := 0, 0;
      ghost var depth := DepthOf(t, toSplit, key);
      PathOk(t, key, 0);
      var inner := IsInner(node);
      while inner && node != toSplit
        invariant 0 <= d <= depth && Reached(t, key, d, node) && inner == !t.nodes[node].isLeaf
        invariant HangsAt(t, node, parent, pos)
        decreases t.level[node]
      {
        parent := node;
        var i;
        i, node := LookupInner(parent, key);
        StepDown(t, key, d, parent, i, node);
        d, pos := d + 1, i;
        inner := IsInner(node);
      }
    }

    /** Finds the parent of the page to split by descending from the root again, then splits. */
    method EnsureSpace(toSplit: Address, key: Key) returns (ok: bool)
      requires Valid() && Covers(t, toSplit, key) && !t.nodes[toSplit].isLeaf
      modifies this, pages.Values
      ensures Valid() && contents == old(contents) && fresh(pages.Values - old(pages.Values)) && t.longest == old(t).longest
      ensures ok <==> !Blocked(old(t), toSplit)
      ensures ok ==> Potential(t, key) < Potential(old(t), key) && Passed(old(t), t, toSplit, key)
      ensures !ok ==> SameBelow(old(t), t) && toSplit in t.nodes && Blocked(t, toSplit)
      decreases Depth(toSplit), 2
    {
      var parent := FindParent(toSplit, key);
      if toSplit != t.root { PlaceIs(t, parent); }
      ok := SplitNode(toSplit, parent, key);
    }

    /** Inserts into the page object at a; the tree value does not follow yet. */
    method InsertInPage(a: Address, key: Key, payload: seq<Byte>, ghost n: Node) returns (ok: bool)
      requires Linked() && a in pages && n == t.nodes[a] && Ordered(n) && FencePrefix(n.lower, n.upper) <= key
      requires forall i | 0 <= i < |n.entries| :: n.entries[i].key != key
      modifies pages[a]
      ensures LinkedExcept({a})
      ensures ok <==> SpaceNeeded(n, |key|, |payload|) <= FreeAfterCompaction(n)
      ensures IsPage(pages[a], if ok then InsertEntry(n, Entry(key, payload)) else n)
    {
      assert PageAt(a) && Holds(Unfold, pages[a], n);
      var r := pages[a].Insert(key, payload);
      ok := r == Stored;
      forall b | b in pages && b != a ensures PageAt(b) {
        assert old(PageAt(b)) && Apart(pages, b, a);
      }
    }

    /** Inserts into the leaf at a. */
    method InsertInLeaf(a: Address, key: Key, payload: seq<Byte>, ghost m: nat) returns (ok: bool)
      requires Valid() && t.root in t.level && a == LeafFor(t, key) && Covers(t, a, key) && t.nodes[a].isLeaf && key !in contents
      requires t.longest <= m <= MaxKVSize() && |key| + |payload| <= m
      modifies this`t, this`contents, pages[a]
      ensures Valid() && root == old(root) && pages == old(pages)
      ensures contents == if ok then old(contents)[key := payload] else old(contents)
      ensures ok <==> HasRoom(old(t), a, key, |payload|)
      ensures if ok then t.longest == m else t == old(t)
    {
      assert NodeOk(t, a);
      ghost var n := t.nodes[a];
      AbsentFromLeaf(t, a, key, contents);
      WithinSharesPrefix(n.lower, n.upper, key);
      ok := InsertInPage(a, key, payload, n);
      if ok {
        ghost var next := LeafInserted(t, a, Entry(key, payload), m, contents);
        Follow(a, next);
        contents := contents[key := payload];
      } else {
        assert PageAt(a);
        Restored({a});
      }
    }

    /** One descent of an insert: into the leaf if it has room, otherwise some page on the key's path splits. */
    method InsertOnce(key: Key, payload: seq<Byte>, ghost m: nat) returns (r: PassOutcome)
      requires Valid() && key !in contents && t.longest <= m <= MaxKVSize() && |key| + |payload| <= m
      modifies this, pages.Values
      ensures Valid() && fresh(pages.Values - old(pages.Values))
      ensures contents == if r.Inserted? then old(contents)[key := payload] else old(contents)
      ensures t.longest == if r.Inserted? then m else old(t).longest
      ensures r.Again? ==> Potential(t, key) < Potential(old(t), key)
      ensures r.Again? ==> (Doomed(old(t), key, |payload|) <==> Doomed(t, key, |payload|))
      ensures r.Inserted? ==> !Doomed(old(t), key, |payload|)
      ensures r.Aborted? <==> Refuses(old(t), key, |payload|)
      ensures r.Aborted? ==> Refuses(t, key, |payload|)
    {
      ghost var t0 := t;
      var node, parent, _ := Descend(key);
      if node != t.root { PlaceIs(t, parent); }
      LeafOk(t, key);
      var ok := InsertInLeaf(node, key, payload, m);
      if ok {
        NotDoomed(t0, node, key, |payload|);
        return Inserted;
      }
      ok := SplitNode(node, parent, key);
      r := if ok then Again else Aborted;
      if ok { DoomedAfter(t0, t, node, key, |payload|); } else { StillRefuses(t0, t, key, |payload|); }
    }

    /** Inserts a key the tree does not hold, splitting full pages on its path one at a time and starting over. False
        means an assertion or abort() stopped it, which the pages on the key's path decide beforehand; the tree it
        leaves refuses the entry, so that trying again is no use. */
    method InsertImpl(key: Key, payload: seq<Byte>) returns (ok: bool)
      requires Valid() && |key| + |payload| <= MaxKVSize() && key !in contents
      modifies this, pages.Values
      ensures Valid() && fresh(pages.Values - old(pages.Values))
      ensures contents == if ok then old(contents)[key := payload] else old(contents)
      ensures t.longest == if ok then Longest(old(t).longest, |key| + |payload|) else old(t).longest
      ensures ok <==> !Doomed(old(t), key, |payload|)
      ensures !ok ==> Refuses(t, key, |payload|)
      decreases Potential(t, key)
    {
      ghost var m := Longest(t.longest, |key| + |payload|);
      var r := InsertOnce(key, payload, m);
      match r {
        case Inserted => ok := true;
        case Again => ok := InsertImpl(key, payload);
        case Aborted => ok := false; DoomedNow(old(t), key, |payload|);
      }
    }

    // ---- remove ----

    /** Removes the entry from the page object at a; the tree value does not follow yet. */
    method RemoveFromPage(a: Address, key: Key, ghost n: Node) returns (removed: bool, ghost i: nat)
      requires Linked() && a in pages && n == t.nodes[a] && Ordered(n) && FencePrefix(n.lower, n.upper) <= key
      modifies pages[a]
      ensures LinkedExcept({a})
      ensures removed <==> exists j :: 0 <= j < |n.entries| && n.entries[j].key == key
      ensures removed ==> i < |n.entries| && n.entries[i].key == key && IsPage(pages[a], RemoveAt(n, i))
      ensures !removed ==> IsPage(pages[a], n)
    {
      assert PageAt(a) && Holds(Unfold, pages[a], n);
      var node := pages[a];
      removed := node.Remove(key);
      i := 0;
      if removed {
        i :| 0 <= i < |n.entries| && n.entries[i].key == key && node.View() == RemoveAt(n, i);
      }
      forall b | b in pages && b != a ensures PageAt(b) {
        assert old(PageAt(b)) && Apart(pages, b, a);
      }
    }

    /** Removes the entry from the leaf at a. */
    method RemoveFromLeaf(a: Address, key: Key) returns (removed: bool)
      requires Valid() && t.root in t.level && a == LeafFor(t, key) && Covers(t, a, key) && t.nodes[a].isLeaf
      modifies this`t, this`contents, pages[a]
      ensures Valid() && root == old(root) && pages == old(pages) && contents == old(contents) - {key}
      ensures removed <==> key in old(contents)
      ensures if removed then Removal(old(t), t, a, key) else t == old(t)
      ensures t.longest == old(t).longest
    {
      assert NodeOk(t, a);
      ghost var n := t.nodes[a];
      AbsentFromLeaf(t, a, key, contents);
      WithinSharesPrefix(n.lower, n.upper, key);
      ghost var i;
      removed, i := RemoveFromPage(a, key, n);
      if removed {
        ghost var next := LeafRemoved(t, a, i, key, contents);
        Follow(a, next);
        contents := contents - {key};
      } else {
        Restored({a});
        assert contents == contents - {key};
      }
    }

    /** Whether a leaf has so much free space that it may merge. */
    method IsUnderfull(a: Address) returns (b: bool)
      requires Linked() && a in pages && t.nodes[a].isLeaf
      ensures b <==> FreeAfterCompaction(t.nodes[a]) >= UnderFullSize(true)
    {
      assert PageAt(a) && Holds(Unfold, pages[a], t.nodes[a]);
      pages[a].SpaceIsExact();
      b := pages[a].FreeSpaceAfterCompaction() >= UnderFullSize(true);
    }

    /** The sibling to the right when the parent has an entry for it. */
    method RightNeighbour(p: Address, pos: nat) returns (found: bool, right: Address)
      requires Linked() && p in pages && pos <= |t.nodes[p].entries|
      ensures found <==> |t.nodes[p].entries| >= 2 && pos + 1 < |t.nodes[p].entries|
      ensures found ==> IsChildAt(t.nodes[p], pos + 1, right)
    {
      assert PageAt(p) && Holds(Unfold, pages[p], t.nodes[p]);
      var parent := pages[p];
      Images.Basics(parent.ImageOf(parent.count));
      found, right := parent.count >= 2 && pos + 1 < parent.count, 0;
      if found {
        right := parent.ChildAtIndex(pos + 1);
      }
    }

    /** Merges the page objects of two leaves; the tree value does not follow yet. */
    method MergePages(a: Address, p: Address, pos: nat, right: Address, ghost l: Node, ghost r: Node, ghost par: Node) returns (merged: bool)
      requires Linked() && a in pages && p in pages && right in pages && a != p && a != right && p != right
      requires l == t.nodes[a] && r == t.nodes[right] && par == t.nodes[p] && l.isLeaf && r.isLeaf
      requires Ordered(l) && Ordered(r) && l.upper == r.lower != [] && pos < |par.entries|
      requires sizes.header + |l.lower| + |r.upper| <= PageSize(true)
      modifies pages[p], pages[right]
      ensures LinkedExcept({p, right})
      ensures merged <==> 2 * |l.upper| <= FreeAfterCompaction(Merge(l, r))
      ensures IsPage(pages[p], if merged then RemoveAt(par, pos) else par)
      ensures IsPage(pages[right], if merged then Merge(l, r) else r)
    {
      assert PageAt(a) && PageAt(p) && PageAt(right) && Apart(pages, a, p) && Apart(pages, a, right) && Apart(pages, p, right);
      assert Holds(Unfold, pages[a], l) && Holds(Unfold, pages[p], par) && Holds(Unfold, pages[right], r);
      Images.Basics(pages[p].ImageOf(pages[p].count));
      merged := pages[a].MergeNodes(pos, pages[p], pages[right]);
      forall b | b in pages && b != p && b != right ensures PageAt(b) {
        assert old(PageAt(b)) && Apart(pages, b, p) && Apart(pages, b, right);
      }
    }

    /** Merges the leaf at a into its right neighbour and frees it, if they fit one page. */
    method MergeLeaves(a: Address, p: Address, pos: nat, right: Address) returns (merged: bool)
      requires Valid() && Merging(t, a, right, pos) && p == t.parent[a]
      modifies this`pages, this`t, pages[p], pages[right]
      ensures Valid() && root == old(root) && pages.Values <= old(pages.Values) && t.longest == old(t).longest
      ensures merged <==> 2 * |old(t).nodes[a].upper| <= FreeAfterCompaction(Merge(old(t).nodes[a], old(t).nodes[right]))
      ensures t == if merged then MergeAt(old(t), a, right, pos) else old(t)
      ensures pages == if merged then old(pages) - {a} else old(pages)
    {
      MergeReady(t, a, right, pos);
      merged := MergePages(a, p, pos, right, t.nodes[a], t.nodes[right], t.nodes[p]);
      if merged {
        ghost var next := LeavesMerged(t, a, right, pos, contents);
        Dealloc(a, p, right, next);
      } else {
        assert PageAt(p) && PageAt(right);
        Restored({p, right});
      }
    }

    /** Frees the page at a; the tree value follows the two pages that changed. */
    method Dealloc(a: Address, p: Address, right: Address, ghost next: Tree)
      requires LinkedExcept({p, right}) && a in pages && a != p && a != right && p != right && next.root == root
      requires p in next.nodes && right in next.nodes
      requires next.nodes == (t.nodes - {a})[right := next.nodes[right]][p := next.nodes[p]]
      requires IsPage(pages[p], next.nodes[p]) && IsPage(pages[right], next.nodes[right])
      modifies this`pages, this`t
      ensures Linked() && t == next && pages == old(pages) - {a} && pages.Values <= old(pages.Values)
    {
      ghost var was := pages;
      pages := pages - {a};
      t := next;
      forall b, c | b in pages && c in pages ensures Apart(pages, b, c) {
        assert Apart(was, b, c);
      }
      forall b | b in pages ensures PageAt(b) {
        if b != p && b != right { assert old(PageAt(b)); }
      }
      forall o | o in pages.Values ensures o in was.Values {
        var b :| b in pages && pages[b] == o;
        assert was[b] in was.Values;
      }
    }

    /** Merges the underfull leaf at a with its right neighbour if that is underfull too and they fit one page. */
    method MergeWithRight(a: Address, p: Address, pos: nat)
      requires Valid() && a in t.nodes && t.nodes[a].isLeaf && a != t.root && HangsAt(t, a, p, pos) && p in t.nodes
      requires FreeAfterCompaction(t.nodes[a]) >= UnderFullSize(true)
      modifies this`pages, this`t, pages.Values
      ensures Valid() && root == old(root) && pages.Values <= old(pages.Values) && t.longest == old(t).longest
      ensures Tidied(old(t), t, a)
    {
      var found, right := RightNeighbour(p, pos);
      if found {
        NeighboursMerge(t, a, p, pos, right);
        var underfull := IsUnderfull(right);
        if underfull {
          var merged := MergeLeaves(a, p, pos, right);
          if merged { return; }
        }
      }
      NoMerge(t, a, p, pos);
    }

    /** Removes the entry for key; its leaf may then go into its right neighbour. */
    method RemoveImpl(key: Key) returns (removed: bool)
      requires Valid()
      modifies this, pages.Values
      ensures Valid() && root == old(root) && pages.Values <= old(pages.Values) && t.longest == old(t).longest
      ensures contents == old(contents) - {key}
      ensures removed <==> key in old(contents)
      ensures !removed ==> t == old(t)
      ensures removed && old(t).root in old(t).level ==> exists t1 ::
        Removal(old(t), t1, LeafFor(old(t), key), key) && Tidied(t1, t, LeafFor(old(t), key))
    {
      ghost var t0 := t;
      var node, parent, pos := Descend(key);
      removed := RemoveFromLeaf(node, key);
      if !removed {
        return;
      }
      StillHangs(t0, t, node, key, parent, pos);
      ghost var t1 := t;
      Tidy(node, parent, pos);
      assert Removal(t0, t1, node, key) && Tidied(t1, t, node);
    }

    /** Merges the leaf at a away if it is underfull and can. */
    method Tidy(a: Address, p: Address, pos: nat)
      requires Valid() && a in t.nodes && t.nodes[a].isLeaf && HangsAt(t, a, p, pos)
      modifies this`pages, this`t, pages.Values
      ensures Valid() && root == old(root) && pages.Values <= old(pages.Values) && t.longest == old(t).longest
      ensures contents == old(contents) && Tidied(old(t), t, a)
    {
      if a != t.root { PlaceIs(t, p); }
      var underfull := IsUnderfull(a);
      if underfull && p != 0 {
        MergeWithRight(a, p, pos);
      } else {
        NoMerge(t, a, p, pos);
      }
    }

    // ---- scans ----

    /** The buffer is long enough for any key of the tree and one byte more. */
    static ghost predicate Roomy(keyOut: array<Byte>) {
      keyOut.Length > MaxKVSize()
    }

    /** Scans the leaf at a, which covers the key the buffer starts with. */
    method ScanLeaf(a: Address, leafKey: Option<Key>, keyOut: array<Byte>, v: Visitor, ghost prev: Option<Key>, ghost start: Key)
      returns (go: bool, ghost out: seq<Entry>, ghost from: nat, ghost to: nat)
      requires Linked() && WellFormed(t) && Covers(t, a, SearchKey(prev, start)) && Roomy(keyOut)
      requires |SearchKey(prev, start)| <= keyOut.Length && keyOut[..|SearchKey(prev, start)|] == SearchKey(prev, start)
      requires leafKey == if prev.None? then Some(start) else None
      requires prev.Some? ==> t.nodes[a].lower == prev.value
      modifies keyOut, v`seen
      ensures Shown(v.more, old(v.seen), v.seen, out, !go)
      ensures IsStart(t.nodes[a], prev, start, from) && from <= to <= |t.nodes[a].entries| && out == t.nodes[a].entries[from..to]
      ensures if go then to == |t.nodes[a].entries| else to > from
      ensures IsPage(pages[a], t.nodes[a]) && pages[a].BufferHolds(keyOut)
    {
      assert NodeOk(t, a) && PageAt(a) && Holds(Unfold, pages[a], t.nodes[a]);
      var node := pages[a];
      ghost var n := t.nodes[a];
      WithinSharesPrefix(n.lower, n.upper, SearchKey(prev, start));
      BufferFits(n, t.longest, keyOut.Length);
      BufferStartsWith(FencePrefix(n.lower, n.upper), SearchKey(prev, start), keyOut[..]);
      from := node.FirstSlot(leafKey);
      go, out, to := node.RangeLookup(leafKey, keyOut, v);
      PartIs(out, n.entries, from, to, false);
    }

    /** Turns the buffer into the hop key: the leaf's upper fence and a zero byte. */
    method HopUp(a: Address, keyOut: array<Byte>) returns (keyLen: nat)
      requires Linked() && WellFormed(t) && a in t.nodes && Roomy(keyOut)
      requires IsPage(pages[a], t.nodes[a]) && pages[a].BufferHolds(keyOut)
      modifies keyOut
      ensures keyLen <= keyOut.Length && keyOut[..keyLen] == t.nodes[a].upper + [0]
    {
      assert NodeOk(t, a) && Holds(Unfold, pages[a], t.nodes[a]);
      var node := pages[a];
      var _, upper := node.GetFences();
      Images.PrefixIsShared(node.ImageOf(node.count));
      FenceHasPrefix(t.nodes[a]);
      WriteHop(keyOut, upper, node.prefixLength);
      keyLen := |upper| + 1;
    }

    /** One hop of an ascending scan; es has been reported before. The buffer then holds the next hop's key, unless the
        callback stopped the scan. */
    method Hop(keyLen: nat, leafKey: Option<Key>, keyOut: array<Byte>, v: Visitor,
               ghost prev: Option<Key>, ghost start: Key, ghost es: seq<Entry>, ghost seen: seq<Entry>)
      returns (go: bool, nextLen: nat, ghost all: seq<Entry>, ghost fence: Key)
      requires Valid() && Roomy(keyOut) && keyLen <= keyOut.Length && keyOut[..keyLen] == SearchKey(prev, start)
      requires leafKey == (if prev.None? then Some(start) else None) && LeadsOn(t, prev)
      requires Reported(contents, es, start, prev) && Shown(v.more, seen, v.seen, es, false)
      modifies keyOut, v`seen
      ensures Shown(v.more, seen, v.seen, all, !go)
      ensures !go ==> all != [] && Ascends(contents, all, start, Some(all[|all| - 1].key))
      ensures go ==> nextLen <= keyOut.Length && keyOut[..nextLen] == fence + [0] && nextLen == |fence| + 1
      ensures go && fence == [] ==> Ascends(contents, all, start, None)
      ensures go && fence != [] ==> Reported(contents, all, start, Some(fence)) && LeadsOn(t, Some(fence))
      ensures go && fence != [] ==> Unpassed(t, fence + [0]) < Unpassed(t, SearchKey(prev, start))
    {
      ghost var now := v.seen;
      var node, _, _ := Descend(keyOut[..keyLen]);
      LeadsTo(t, prev, node);
      ghost var out, from, to;
      go, out, from, to := ScanLeaf(node, leafKey, keyOut, v, prev, start);
      all, fence, nextLen := es + out, t.nodes[node].upper, 0;
      ShownThen(v.more, seen, now, v.seen, es, out, !go);
      HopEnds(t, contents, node, es, prev, start, from, to, out, go);
      if go {
        nextLen := HopUp(node, keyOut);
        if fence != [] { HopPasses(t, node, SearchKey(prev, start)); }
      }
    }

    /** Reports the entries with keys from startKey on, in ascending order. */
    method RangeLookupImpl(startKey: Key, keyOut: array<Byte>, v: Visitor) returns (ghost all: seq<Entry>, ghost stopped: bool)
      requires Valid() && |startKey| <= keyOut.Length && Roomy(keyOut)
      modifies keyOut, v`seen
      ensures Shown(v.more, old(v.seen), v.seen, all, stopped)
      ensures stopped ==> all != [] && Ascends(contents, all, startKey, Some(all[|all| - 1].key))
      ensures !stopped ==> Ascends(contents, all, startKey, None)
    {
      var keyLen, leafKey, go := |startKey|, Some(startKey), true;
      CopyTo(keyOut, 0, startKey);
      assert keyOut[..keyLen] == keyOut[0..0 + keyLen];
      ghost var prev: Option<Key> := None;
      all := [];
      ShownNothing(v.more, v.seen);
      while true
        invariant 0 <= keyLen <= keyOut.Length && keyOut[..keyLen] == SearchKey(prev, startKey)
        invariant leafKey == if prev.None? then Some(startKey) else None
        invariant Reported(contents, all, startKey, prev) && LeadsOn(t, prev)
        invariant Shown(v.more, old(v.seen), v.seen, all, false)
        decreases Unpassed(t, SearchKey(prev, startKey))
      {
        ghost var fence;
        go, keyLen, all, fence := Hop(keyLen, leafKey, keyOut, v, prev, startKey, all, old(v.seen));
        stopped := !go;
        if !go {
          return;
        }
        leafKey := None;
        if keyLen == 1 {
          break;
        }
        prev := Some(fence);
      }
    }

    /** Scans the leaf at a, which covers key, from key downwards. */
    method ScanLeafDesc(a: Address, key: Key, keyOut: array<Byte>, v: Visitor)
      returns (go: bool, ghost out: seq<Entry>, ghost from: nat, ghost top: nat)
      requires Linked() && WellFormed(t) && Covers(t, a, key) && Roomy(keyOut) && |key| <= keyOut.Length
      modifies keyOut, v`seen
      ensures Shown(v.more, old(v.seen), v.seen, out, !go)
      ensures IsTop(t.nodes[a], key, top) && from <= top && out == Reversed(t.nodes[a].entries[from..top])
      ensures if go then from == 0 else from < top
    {
      assert NodeOk(t, a) && PageAt(a) && Holds(Unfold, pages[a], t.nodes[a]);
      ghost var n := t.nodes[a];
      WithinSharesPrefix(n.lower, n.upper, key);
      BufferFits(n, t.longest, keyOut.Length);
      go, out, from, top := pages[a].RangeLookupDesc(key, keyOut, v);
      PartIs(out, n.entries, from, top, true);
    }

    method LowerFence(a: Address) returns (lower: Key)
      requires Linked() && a in pages
      ensures lower == t.nodes[a].lower
    {
      assert PageAt(a) && Holds(Unfold, pages[a], t.nodes[a]);
      var upper;
      lower, upper := pages[a].GetFences();
    }

    /** Reports the entries with keys up to startKey, in descending order. */
    method RangeLookupDescImpl(startKey: Key, keyOut: array<Byte>, v: Visitor) returns (ghost all: seq<Entry>, ghost stopped: bool)
      requires Valid() && |startKey| <= keyOut.Length && Roomy(keyOut)
      modifies keyOut, v`seen
      ensures Shown(v.more, old(v.seen), v.seen, all, stopped)
      ensures stopped ==> all != [] && Descends(contents, all, startKey, AtLeast(all[|all| - 1].key))
      ensures !stopped ==> Descends(contents, all, startKey, NoFloor)
    {
      var key := startKey;
      all := [];
      ShownNothing(v.more, v.seen);
      DescendsNothing(contents, startKey);
      while true
        invariant |key| <= keyOut.Length && LessEq(key, startKey)
        invariant Descends(contents, all, startKey, MoreThan(key))
        invariant Shown(v.more, old(v.seen), v.seen, all, false)
        decreases UnpassedDown(t, key)
      {
        ghost var es, now := all, v.seen;
        var node, _, _ := Descend(key);
        ghost var out, from, top;
        var go;
        go, out, from, top := ScanLeafDesc(node, key, keyOut, v);
        all := es + out;
        ShownThen(v.more, old(v.seen), now, v.seen, es, out, !go);
        HopEndsDown(t, contents, node, es, startKey, key, from, top, out, go);
        if !go {
          stopped := true;
          return;
        }
        var lower := LowerFence(node);
        if |lower| == 0 {
          break;
        }
        HopPassesDown(t, node, key);
        LessEqTrans(lower, key, startKey);
        FenceFits(t, node);
        key := lower;
      }
      stopped := false;
    }
  }

  function Longest(a: nat, b: nat): nat {
    if a < b then b else a
  }
}
