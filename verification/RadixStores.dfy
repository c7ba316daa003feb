/** The radix tree's nodes by address, and the tree they stand for. */
module RadixStores {
  import opened Hiding
  import opened Bytes
  import opened RadixTree
  import opened RadixNodes

  /** The key of the tuple a leaf pointer names. */
  const loadKey: Ptr -> Key

  /** The nodes, the path each ends at, and the leaf pointer of each key. */
  datatype Store = Store(nodes: map<Ptr, NodeView>, place: map<Ptr, Key>, leaf: map<Key, Ptr>)

  /** isLeaf: a pointer with its lowest bit set names a tuple. */
  predicate IsLeaf(p: Ptr) {
    p % 2 == 1
  }

  predicate IsNodePtr(p: Ptr) {
    p != 0 && !IsLeaf(p)
  }

  function MakeLeaf(tid: Ptr): Ptr {
    2 * tid + 1
  }

  function LeafKey(p: Ptr): Key {
    loadKey(p / 2)
  }

  // ---- representation ----

  /** The node or leaf at p, reached by path, stands for a. As a node ends at the place recorded for it, no node
      stands for two parts of a tree. */
  ghost predicate Rep(s: Store, p: Ptr, a: Art, path: Key)
    requires Shape(a)
    decreases a
  {
    match a
    case Leaf(k) => IsLeaf(p) && LeafKey(p) == k && k in s.leaf && s.leaf[k] == p
    case Inner(kind, n, pre, ch) =>
      && IsNodePtr(p) && p in s.nodes && p in s.place && s.place[p] == path + FullPrefix(a, path)
      && var v := s.nodes[p];
      && v.kind == kind && v.prefixLength == n && v.prefix == pre && v.children.Keys == ch.Keys
      && forall b | b in ch :: Rep(s, v.children[b], ch[b], path + FullPrefix(a, path) + [b])
  }

  /** Unfolded only where HoldsNow is mentioned. */
  ghost predicate Holds(s: Store, p: Ptr, a: Art, path: Key) {
    forall u: Unfold :: HoldsNow(u, s, p, a, path)
  }

  ghost predicate HoldsNow(u: Unfold, s: Store, p: Ptr, a: Art, path: Key) {
    Ok(a, path) && Rep(s, p, a, path)
  }

  lemma HoldsIs(s: Store, p: Ptr, a: Art, path: Key)
    ensures Holds(s, p, a, path) <==> Ok(a, path) && Rep(s, p, a, path)
  {
    assert Holds(s, p, a, path) ==> HoldsNow(Unfold, s, p, a, path);
  }

  /** Where an inner node's compressed path ends; its children continue from there. */
  ghost function Stem(a: Art, path: Key): Key
    requires Shape(a) && a.Inner?
  {
    path + FullPrefix(a, path)
  }

  lemma LeafHeld(s: Store, p: Ptr, a: Art, path: Key)
    requires Holds(s, p, a, path)
    ensures if a.Leaf? then IsLeaf(p) else IsNodePtr(p)
    ensures a.Leaf? ==> LeafKey(p) == a.key && a.key in s.leaf && s.leaf[a.key] == p && KeySet(a) == {a.key}
  {
    HoldsIs(s, p, a, path);
  }

  lemma NodeHeld(s: Store, p: Ptr, a: Art, path: Key)
    requires Holds(s, p, a, path) && a.Inner?
    ensures Shape(a) && |FullPrefix(a, path)| == a.prefixLength && a.prefix == Take(FullPrefix(a, path), MAX_PREFIX)
    ensures CountOk(a.kind, |a.children|) && Stem(a, path) == path + FullPrefix(a, path)
    ensures p in s.nodes && p in s.place && s.place[p] == Stem(a, path)
    ensures var v := s.nodes[p];
      v == NodeView(a.kind, a.prefixLength, a.prefix, v.children) && v.children.Keys == a.children.Keys && |v.children| == |a.children|
  {
    HoldsIs(s, p, a, path);
    var v := s.nodes[p];
    assert |v.children.Keys| == |v.children| && |a.children.Keys| == |a.children|;
  }

  lemma ChildHeld(s: Store, p: Ptr, a: Art, path: Key, b: Byte)
    requires Holds(s, p, a, path) && a.Inner? && b in a.children
    ensures Shape(a) && p in s.nodes && b in s.nodes[p].children
    ensures Holds(s, s.nodes[p].children[b], a.children[b], Stem(a, path) + [b])
  {
    HoldsIs(s, p, a, path);
    HoldsIs(s, s.nodes[p].children[b], a.children[b], Stem(a, path) + [b]);
  }

  // ---- frames ----

  /** Node r is in both stores and the same. */
  ghost predicate Same(s: Store, s': Store, r: Ptr) {
    && r in s.nodes && r in s.place && r in s'.nodes && r in s'.place
    && s'.nodes[r] == s.nodes[r] && s'.place[r] == s.place[r]
  }

  /** Nodes that end below path are the same. */
  ghost predicate SameBelow(s: Store, s': Store, path: Key) {
    forall r {:trigger Same(s, s', r)} | r in s.nodes && r in s.place && path <= s.place[r] :: Same(s, s', r)
  }

  /** Nodes that end elsewhere are the same. */
  ghost predicate SameOutside(s: Store, s': Store, path: Key) {
    forall r {:trigger Same(s, s', r)} | r in s.nodes && r in s.place && !(path <= s.place[r]) :: Same(s, s', r)
  }

  ghost predicate SameLeaf(s: Store, s': Store, k: Key) {
    k in s.leaf ==> k in s'.leaf && s'.leaf[k] == s.leaf[k]
  }

  ghost predicate SameLeaves(s: Store, s': Store, ks: set<Key>) {
    forall k | k in ks :: SameLeaf(s, s', k)
  }

  lemma {:induction false} RepFrame(s: Store, s': Store, p: Ptr, a: Art, path: Key)
    requires Ok(a, path) && Rep(s, p, a, path) && SameBelow(s, s', path) && SameLeaves(s, s', KeySet(a))
    ensures Rep(s', p, a, path)
    decreases a
  {
    if a.Inner? {
      var stem := path + FullPrefix(a, path);
      assert Same(s, s', p);
      forall b | b in a.children ensures Rep(s', s'.nodes[p].children[b], a.children[b], stem + [b]) {
        assert KeySet(a.children[b]) <= KeySet(a);
        BelowMore(s, s', path, stem + [b]);
        RepFrame(s, s', s.nodes[p].children[b], a.children[b], stem + [b]);
      }
    } else {
      assert SameLeaf(s, s', a.key);
    }
  }

  lemma BelowMore(s: Store, s': Store, path: Key, longer: Key)
    requires SameBelow(s, s', path) && path <= longer
    ensures SameBelow(s, s', longer)
  {
    forall r | r in s.nodes && r in s.place && longer <= s.place[r] ensures Same(s, s', r) {
      PrefixOf(path, longer, s.place[r]);
    }
  }

  lemma HoldsFrame(s: Store, s': Store, p: Ptr, a: Art, path: Key)
    requires Holds(s, p, a, path) && SameBelow(s, s', path) && SameLeaves(s, s', KeySet(a))
    ensures Holds(s', p, a, path)
  {
    HoldsIs(s, p, a, path);
    RepFrame(s, s', p, a, path);
    HoldsIs(s', p, a, path);
  }

  /** Paths that part after a common stem lead to different nodes. */
  lemma OutsideIsBelow(s: Store, s': Store, stem: Key, b: Byte, c: Byte)
    requires SameOutside(s, s', stem + [b]) && b != c
    ensures SameBelow(s, s', stem + [c])
  {
    forall r | r in s.nodes && r in s.place && stem + [c] <= s.place[r] ensures Same(s, s', r) {
      assert (stem + [c])[|stem|] == c && (stem + [b])[|stem|] == b;
      assert s.place[r][|stem|] == c;
    }
  }

  lemma OutsideMore(s: Store, s': Store, path: Key, longer: Key)
    requires SameOutside(s, s', longer) && path <= longer
    ensures SameOutside(s, s', path)
  {
    forall r | r in s.nodes && r in s.place && !(path <= s.place[r]) ensures Same(s, s', r) {
      if longer <= s.place[r] { PrefixOf(path, longer, s.place[r]); }
    }
  }

  lemma PrefixOf(a: Key, b: Key, c: Key)
    requires a <= b <= c
    ensures a <= c
  {
    assert c[..|b|][..|a|] == c[..|a|];
  }

  lemma OutsideTrans(s: Store, s': Store, s'': Store, path: Key)
    requires SameOutside(s, s', path) && SameOutside(s', s'', path)
    ensures SameOutside(s, s'', path)
  {
    forall r | r in s.nodes && r in s.place && !(path <= s.place[r]) ensures Same(s, s'', r) {
      assert Same(s, s', r);
      assert Same(s', s'', r);
    }
  }

  // ---- building ----

  ghost predicate ChildHeldAt(s: Store, cs: map<Byte, Ptr>, ch: map<Byte, Art>, stem: Key, b: Byte) {
    b in cs && b in ch && Holds(s, cs[b], ch[b], stem + [b])
  }

  ghost predicate ChildrenHeld(s: Store, cs: map<Byte, Ptr>, ch: map<Byte, Art>, stem: Key) {
    cs.Keys == ch.Keys && forall b | b in ch :: ChildHeldAt(s, cs, ch, stem, b)
  }

  /** A node over children that stand for parts of a tree. */
  lemma BuildHeld(s: Store, p: Ptr, kind: Kind, path: Key, full: Key, cs: map<Byte, Ptr>, ch: map<Byte, Art>)
    requires CountOk(kind, |ch|) && ChildrenHeld(s, cs, ch, path + full) && IsNodePtr(p)
    requires p in s.nodes && p in s.place && s.place[p] == path + full
    requires s.nodes[p] == NodeView(kind, |full|, Take(full, MAX_PREFIX), cs)
    ensures Holds(s, p, Inner(kind, |full|, Take(full, MAX_PREFIX), ch), path)
  {
    var a := Inner(kind, |full|, Take(full, MAX_PREFIX), ch);
    forall b | b in ch ensures Ok(ch[b], path + full + [b]) && Rep(s, cs[b], ch[b], path + full + [b]) {
      assert ChildHeldAt(s, cs, ch, path + full, b);
      HoldsIs(s, cs[b], ch[b], path + full + [b]);
    }
    BuildOk(kind, path, full, ch);
    HoldsIs(s, p, a, path);
  }

  lemma ChildrenAreHeld(s: Store, p: Ptr, a: Art, path: Key)
    requires Holds(s, p, a, path) && a.Inner?
    ensures Shape(a) && p in s.nodes && ChildrenHeld(s, s.nodes[p].children, a.children, Stem(a, path))
  {
    NodeHeld(s, p, a, path);
    forall b | b in a.children ensures ChildHeldAt(s, s.nodes[p].children, a.children, Stem(a, path), b) {
      ChildHeld(s, p, a, path, b);
    }
  }

  /** Children keep standing for their parts when nothing below the stem changed. */
  lemma ChildrenFrame(s: Store, s': Store, cs: map<Byte, Ptr>, ch: map<Byte, Art>, stem: Key)
    requires ChildrenHeld(s, cs, ch, stem) && forall b | b in ch :: SameBelow(s, s', stem + [b]) && SameLeaves(s, s', KeySet(ch[b]))
    ensures ChildrenHeld(s', cs, ch, stem)
  {
    forall b | b in ch ensures ChildHeldAt(s', cs, ch, stem, b) {
      assert ChildHeldAt(s, cs, ch, stem, b);
      HoldsFrame(s, s', cs[b], ch[b], stem + [b]);
    }
  }

  // ---- store updates ----

  function WithNode(s: Store, p: Ptr, v: NodeView, place: Key): Store {
    s.(nodes := s.nodes[p := v], place := s.place[p := place])
  }

  /** The node at p is replaced by one at q. */
  function Moved(s: Store, p: Ptr, q: Ptr, v: NodeView, place: Key): Store {
    s.(nodes := (s.nodes - {p})[q := v], place := (s.place - {p})[q := place])
  }

  function Without(s: Store, p: Ptr): Store {
    s.(nodes := s.nodes - {p}, place := s.place - {p})
  }

  function WithLeaf(s: Store, k: Key, p: Ptr): Store {
    s.(leaf := s.leaf[k := p])
  }

  /** Changing, moving or dropping a node that ends at a place leaves nodes that end elsewhere the same. */
  lemma MovedOutside(s: Store, p: Ptr, q: Ptr, v: NodeView, place: Key, path: Key)
    requires p in s.place && path <= s.place[p] && (q == p || q !in s.nodes)
    ensures SameOutside(s, Moved(s, p, q, v, place), path) && SameOutside(s, Without(s, p), path)
  {
    var s' := Moved(s, p, q, v, place);
    forall r | r in s.nodes && r in s.place && !(path <= s.place[r]) ensures Same(s, s', r) && Same(s, Without(s, p), r) {}
  }

  lemma MovedBelow(s: Store, p: Ptr, q: Ptr, v: NodeView, place: Key, path: Key)
    requires p in s.place && !(path <= s.place[p]) && (q == p || q !in s.nodes)
    ensures SameBelow(s, Moved(s, p, q, v, place), path) && SameBelow(s, Without(s, p), path)
  {
    var s' := Moved(s, p, q, v, place);
    forall r | r in s.nodes && r in s.place && path <= s.place[r] ensures Same(s, s', r) && Same(s, Without(s, p), r) {}
  }

  lemma AddedSame(s: Store, q: Ptr, v: NodeView, place: Key, path: Key)
    requires q !in s.nodes
    ensures SameBelow(s, WithNode(s, q, v, place), path) && SameOutside(s, WithNode(s, q, v, place), path)
  {
    var s' := WithNode(s, q, v, place);
    forall r | r in s.nodes && r in s.place ensures Same(s, s', r) {}
  }

  // ---- inserting ----

  /** A node with two children. */
  lemma PairHeld(s: Store, q: Ptr, path: Key, full: Key, x: Byte, p1: Ptr, a1: Art, y: Byte, p2: Ptr, a2: Art)
    requires x != y && Holds(s, p1, a1, path + full + [x]) && Holds(s, p2, a2, path + full + [y]) && IsNodePtr(q)
    requires q in s.nodes && q in s.place && s.place[q] == path + full
    requires s.nodes[q] == NodeView(Node4, |full|, Take(full, MAX_PREFIX), map[x := p1, y := p2])
    ensures Holds(s, q, Inner(Node4, |full|, Take(full, MAX_PREFIX), map[x := a1, y := a2]), path)
  {
    PairSize(x, a1, y, a2);
    var cs, ch := map[x := p1, y := p2], map[x := a1, y := a2];
    forall b | b in ch ensures ChildHeldAt(s, cs, ch, path + full, b) {}
    BuildHeld(s, q, Node4, path, full, cs, ch);
  }

  lemma NewLeafHeld(s: Store, path: Key, key: Key, tid: Ptr)
    requires path <= key && loadKey(tid) == key && key in s.leaf && s.leaf[key] == MakeLeaf(tid)
    ensures Holds(s, MakeLeaf(tid), Leaf(key), path)
  {
    HoldsIs(s, MakeLeaf(tid), Leaf(key), path);
  }

  /** A leaf stands for its key below any path the key spells. */
  lemma LeafAnywhere(s: Store, s': Store, p: Ptr, a: Art, path: Key, path': Key)
    requires Holds(s, p, a, path) && a.Leaf? && path' <= a.key && s'.leaf == s.leaf
    ensures Holds(s', p, a, path')
  {
    HoldsIs(s, p, a, path);
    HoldsIs(s', p, a, path');
  }

  lemma AddedHeld(s: Store, q: Ptr, v: NodeView, place: Key, p: Ptr, a: Art, path: Key)
    requires q !in s.nodes && Holds(s, p, a, path)
    ensures Holds(WithNode(s, q, v, place), p, a, path)
  {
    AddedSame(s, q, v, place, path);
    HoldsFrame(s, WithNode(s, q, v, place), p, a, path);
  }

  /** A node changed where it ends, and a new one was added. */
  lemma CutOutside(s: Store, s1: Store, s2: Store, p: Ptr, v: NodeView, q: Ptr, v': NodeView, place: Key, path: Key)
    requires p in s.place && path <= s.place[p] && s1 == WithNode(s, p, v, s.place[p])
    requires q !in s1.nodes && s2 == WithNode(s1, q, v', place)
    ensures SameOutside(s, s2, path)
  {
    assert s1 == Moved(s, p, p, v, s.place[p]);
    MovedOutside(s, p, p, v, s.place[p], path);
    AddedSame(s1, q, v', place, path);
    OutsideTrans(s, s1, s2, path);
  }

  /** The node at p with its compressed path cut after pos bytes and one more. */
  ghost function CutView(v: NodeView, pos: nat, rest: seq<Byte>): NodeView
    requires pos < v.prefixLength
  {
    v.(prefixLength := v.prefixLength - pos - 1, prefix := rest)
  }

  lemma CutHeld(s: Store, s': Store, p: Ptr, a: Art, path: Key, pos: nat, rest: seq<Byte>)
    requires Holds(s, p, a, path) && a.Inner? && Shape(a) && |FullPrefix(a, path)| == a.prefixLength && pos < a.prefixLength
    requires rest == Take(FullPrefix(a, path)[pos + 1..], MAX_PREFIX)
    requires p in s.nodes && s.nodes[p].prefixLength == a.prefixLength && p in s.place
    requires s' == WithNode(s, p, CutView(s.nodes[p], pos, rest), s.place[p])
    ensures var full := FullPrefix(a, path);
      Holds(s', p, a.(prefixLength := a.prefixLength - pos - 1, prefix := rest), path + full[..pos] + [full[pos]])
  {
    var full, stem := FullPrefix(a, path), Stem(a, path);
    NodeHeld(s, p, a, path);
    ChildrenAreHeld(s, p, a, path);
    LeafHeld(s, p, a, path);
    CutParts(path, full, pos);
    forall b | b in a.children ensures SameBelow(s, s', stem + [b]) && SameLeaves(s, s', KeySet(a.children[b])) {
      NodeChangedBelow(s, s', p, s.nodes[p], stem, b);
    }
    ChildrenFrame(s, s', s.nodes[p].children, a.children, stem);
    BuildHeld(s', p, a.kind, path + full[..pos] + [full[pos]], full[pos + 1..], s.nodes[p].children, a.children);
  }

  /** A node's own change is not seen below its children. */
  lemma NodeChangedBelow(s: Store, s': Store, p: Ptr, v: NodeView, stem: Key, b: Byte)
    requires p in s.nodes && p in s.place && s.place[p] == stem
    requires forall r | r in s.nodes && r in s.place && r != p :: Same(s, s', r)
    ensures SameBelow(s, s', stem + [b])
  {
  }

  // ---- one child of a node changes ----

  /** Node p, or the one at q in its stead, with other children. */
  lemma NodeRebuilt(s: Store, s': Store, p: Ptr, q: Ptr, a: Art, path: Key, kind: Kind, cs: map<Byte, Ptr>, ch: map<Byte, Art>)
    requires Holds(s, p, a, path) && a.Inner? && Shape(a) && CountOk(kind, |ch|) && IsNodePtr(q)
    requires ChildrenHeld(s', cs, ch, Stem(a, path)) && q in s'.nodes && q in s'.place && s'.place[q] == Stem(a, path)
    requires s'.nodes[q] == NodeView(kind, a.prefixLength, a.prefix, cs)
    ensures Holds(s', q, a.(kind := kind, children := ch), path)
  {
    NodeHeld(s, p, a, path);
    BuildHeld(s', q, kind, path, FullPrefix(a, path), cs, ch);
  }

  /** Child b is now c at q; the others have not changed. */
  lemma ChildPut(s: Store, s': Store, cs: map<Byte, Ptr>, ch: map<Byte, Art>, stem: Key, b: Byte, q: Ptr, c: Art)
    requires ChildrenHeld(s, cs, ch, stem) && Holds(s', q, c, stem + [b])
    requires forall d | d in ch && d != b :: SameBelow(s, s', stem + [d]) && SameLeaves(s, s', KeySet(ch[d]))
    ensures ChildrenHeld(s', cs[b := q], ch[b := c], stem)
  {
    var ch' := ch[b := c];
    forall d | d in ch' ensures ChildHeldAt(s', cs[b := q], ch', stem, d) {
      if d != b {
        assert ChildHeldAt(s, cs, ch, stem, d);
        HoldsFrame(s, s', cs[d], ch[d], stem + [d]);
      }
    }
  }

  /** Child b is gone. */
  lemma ChildDropped(s: Store, s': Store, cs: map<Byte, Ptr>, ch: map<Byte, Art>, stem: Key, b: Byte)
    requires ChildrenHeld(s, cs, ch, stem)
    requires forall d | d in ch && d != b :: SameBelow(s, s', stem + [d]) && SameLeaves(s, s', KeySet(ch[d]))
    ensures ChildrenHeld(s', cs - {b}, ch - {b}, stem)
  {
    forall d | d in ch - {b} ensures ChildHeldAt(s', cs - {b}, ch - {b}, stem, d) {
      assert ChildHeldAt(s, cs, ch, stem, d);
      HoldsFrame(s, s', cs[d], ch[d], stem + [d]);
    }
  }

  /** The child below b was replaced by one at c; the node itself has not changed. */
  lemma BelowPut(s: Store, s1: Store, p: Ptr, a: Art, path: Key, b: Byte, c: Ptr, ac: Art)
    requires Holds(s, p, a, path) && a.Inner? && Shape(a) && b in a.children
    requires SameOutside(s, s1, Stem(a, path) + [b]) && s1.leaf == s.leaf && Holds(s1, c, ac, Stem(a, path) + [b])
    ensures Same(s, s1, p) && ChildrenHeld(s1, s1.nodes[p].children[b := c], a.children[b := ac], Stem(a, path))
  {
    var stem := Stem(a, path);
    NodeHeld(s, p, a, path);
    assert !(stem + [b] <= stem);
    assert Same(s, s1, p);
    ChildrenAreHeld(s, p, a, path);
    forall d | d in a.children && d != b ensures SameBelow(s, s1, stem + [d]) && SameLeaves(s, s1, KeySet(a.children[d])) {
      OutsideIsBelow(s, s1, stem, b, d);
    }
    ChildPut(s, s1, s.nodes[p].children, a.children, stem, b, c, ac);
  }

  /** Then its slot was written. */
  lemma SlotWritten(s: Store, s': Store, p: Ptr, v: NodeView, stem: Key, ch: map<Byte, Art>)
    requires p in s.nodes && p in s.place && s.place[p] == stem && s' == WithNode(s, p, v, stem)
    requires ChildrenHeld(s, v.children, ch, stem)
    ensures ChildrenHeld(s', v.children, ch, stem)
  {
    forall d | d in ch ensures SameBelow(s, s', stem + [d]) && SameLeaves(s, s', KeySet(ch[d])) {
      forall r | r in s.nodes && r in s.place && stem + [d] <= s.place[r] ensures Same(s, s', r) {}
    }
    ChildrenFrame(s, s', v.children, ch, stem);
  }

  lemma BelowReplaced(s: Store, s1: Store, s2: Store, p: Ptr, a: Art, path: Key, b: Byte, c: Ptr, ac: Art)
    requires Holds(s, p, a, path) && a.Inner? && Shape(a) && b in a.children && CountOk(a.kind, |a.children|)
    requires SameOutside(s, s1, Stem(a, path) + [b]) && s1.leaf == s.leaf && Holds(s1, c, ac, Stem(a, path) + [b])
    requires p in s1.nodes && p in s1.place
    requires s2 == WithNode(s1, p, s1.nodes[p].(children := s1.nodes[p].children[b := c]), s1.place[p])
    ensures Holds(s2, p, a.(children := a.children[b := ac]), path)
  {
    NodeHeld(s, p, a, path);
    LeafHeld(s, p, a, path);
    BelowPut(s, s1, p, a, path, b, c, ac);
    var v, ch := s2.nodes[p], a.children[b := ac];
    SlotWritten(s1, s2, p, v, Stem(a, path), ch);
    assert ch.Keys == a.children.Keys && |ch.Keys| == |ch| && |a.children.Keys| == |a.children|;
    NodeRebuilt(s, s2, p, p, a, path, a.kind, v.children, ch);
  }

  lemma ReplacedOutside(s: Store, s1: Store, s2: Store, p: Ptr, v: NodeView, stem: Key, b: Byte, path: Key)
    requires SameOutside(s, s1, stem + [b]) && p in s1.nodes && p in s1.place && s1.place[p] == stem && path <= stem
    requires s2 == WithNode(s1, p, v, stem)
    ensures SameOutside(s, s2, path)
  {
    PrefixOf(path, stem, stem + [b]);
    OutsideMore(s, s1, path, stem + [b]);
    assert s2 == Moved(s1, p, p, v, stem);
    MovedOutside(s1, p, p, v, stem, path);
    OutsideTrans(s, s1, s2, path);
  }

  /** A leaf was added below b, the node perhaps replaced by a larger one at q. */
  lemma LeafAdded(s: Store, s': Store, p: Ptr, q: Ptr, a: Art, path: Key, b: Byte, key: Key, tid: Ptr)
    requires Holds(s, p, a, path) && a.Inner? && Shape(a) && b !in a.children && CountOk(a.kind, |a.children|)
    requires Stem(a, path) + [b] <= key && loadKey(tid) == key && key in s.leaf && s.leaf[key] == MakeLeaf(tid)
    requires p in s.nodes && p in s.place && IsNodePtr(q) && (q == p || q !in s.nodes)
    requires var v := s.nodes[p];
      s' == Moved(s, p, q, NodeView(Grown(v.kind, |v.children|), v.prefixLength, v.prefix, v.children[b := MakeLeaf(tid)]), s.place[p])
    ensures Holds(s', q, a.(kind := Grown(a.kind, |a.children|), children := a.children[b := Leaf(key)]), path)
    ensures SameOutside(s, s', path)
  {
    var stem, v := Stem(a, path), s.nodes[p];
    NodeHeld(s, p, a, path);
    ChildrenAreHeld(s, p, a, path);
    NewLeafHeld(s', stem + [b], key, tid);
    forall d | d in a.children && d != b ensures SameBelow(s, s', stem + [d]) && SameLeaves(s, s', KeySet(a.children[d])) {
      MovedBelow(s, p, q, s'.nodes[q], stem, stem + [d]);
    }
    ChildPut(s, s', v.children, a.children, stem, b, MakeLeaf(tid), Leaf(key));
    GrownOk(a.kind, a.children, b, Leaf(key));
    NodeRebuilt(s, s', p, q, a, path, Grown(a.kind, |a.children|), v.children[b := MakeLeaf(tid)], a.children[b := Leaf(key)]);
    MovedOutside(s, p, q, s'.nodes[q], stem, path);
  }

  // ---- erasing ----

  /** A child was dropped, the node perhaps replaced by a smaller one at q. */
  lemma LeafDropped(s: Store, s': Store, p: Ptr, q: Ptr, a: Art, path: Key, b: Byte)
    requires Holds(s, p, a, path) && a.Inner? && Shape(a) && b in a.children && CountOk(a.kind, |a.children|)
    requires !(a.kind.Node4? && |a.children| == 2)
    requires p in s.nodes && p in s.place && IsNodePtr(q) && (q == p || q !in s.nodes)
    requires var v := s.nodes[p];
      s' == Moved(s, p, q, NodeView(Shrunk(v.kind, |v.children|), v.prefixLength, v.prefix, v.children - {b}), s.place[p])
    ensures Holds(s', q, a.(kind := Shrunk(a.kind, |a.children|), children := a.children - {b}), path)
    ensures SameOutside(s, s', path)
  {
    var stem, v := Stem(a, path), s.nodes[p];
    NodeHeld(s, p, a, path);
    ChildrenAreHeld(s, p, a, path);
    forall d | d in a.children && d != b ensures SameBelow(s, s', stem + [d]) && SameLeaves(s, s', KeySet(a.children[d])) {
      MovedBelow(s, p, q, s'.nodes[q], stem, stem + [d]);
    }
    ChildDropped(s, s', v.children, a.children, stem, b);
    ShrunkOk(a.kind, a.children, b);
    NodeRebuilt(s, s', p, q, a, path, Shrunk(a.kind, |a.children|), v.children - {b}, a.children - {b});
    MovedOutside(s, p, q, s'.nodes[q], stem, path);
  }

  /** A node gives way to a leaf, its last child. */
  lemma LeafUp(s: Store, s': Store, p: Ptr, a: Art, path: Key, o: Byte)
    requires Holds(s, p, a, path) && a.Inner? && Shape(a) && o in a.children && a.children[o].Leaf?
    requires p in s.nodes && o in s.nodes[p].children && s'.leaf == s.leaf
    ensures Holds(s', s.nodes[p].children[o], a.children[o], path)
  {
    NodeHeld(s, p, a, path);
    ChildHeld(s, p, a, path, o);
    var c, l := s.nodes[p].children[o], a.children[o];
    HoldsIs(s, c, l, Stem(a, path) + [o]);
    PrefixOf(path, Stem(a, path) + [o], l.key);
    HoldsIs(s', c, l, path);
  }

  /** A node gives way to an inner node, its last child, which takes over the path. */
  lemma NodeUp(s: Store, s': Store, p: Ptr, a: Art, path: Key, o: Byte)
    requires Holds(s, p, a, path) && a.Inner? && Shape(a) && o in a.children && a.children[o].Inner?
    requires |a.prefix| == Min(a.prefixLength, MAX_PREFIX) && p in s.nodes && o in s.nodes[p].children
    requires var q := s.nodes[p].children[o];
      && p != q && q in s.nodes && q in s.place && q in s'.nodes && q in s'.place && s'.place[q] == s.place[q] && s'.leaf == s.leaf
      && s'.nodes[q] == JoinedView(s.nodes[p], o, s.nodes[q])
      && forall r | r in s.nodes && r in s.place && r != p && r != q :: Same(s, s', r)
    ensures Holds(s', s.nodes[p].children[o], Collapse(a, o), path)
  {
    NodeHeld(s, p, a, path);
    ChildHeld(s, p, a, path, o);
    Joined(s, s', p, s.nodes[p].children[o], s.nodes[p], a.children[o], path, FullPrefix(a, path), o);
  }

  lemma Joined(s: Store, s': Store, p: Ptr, q: Ptr, v: NodeView, c: Art, path: Key, full: Key, o: Byte)
    requires c.Inner? && Holds(s, q, c, path + full + [o]) && p != q && p in s.nodes && p in s.place && s.place[p] == path + full
    requires v.prefixLength == |full| && v.prefix == Take(full, MAX_PREFIX)
    requires q in s.nodes && q in s.place && q in s'.nodes && q in s'.place && s'.place[q] == s.place[q] && s'.leaf == s.leaf
    requires s'.nodes[q] == JoinedView(v, o, s.nodes[q])
    requires forall r | r in s.nodes && r in s.place && r != p && r != q :: Same(s, s', r)
    ensures |c.prefix| == Min(c.prefixLength, MAX_PREFIX) && |v.prefix| == Min(v.prefixLength, MAX_PREFIX)
    ensures Holds(s', q, Inner(c.kind, |full| + 1 + c.prefixLength, JoinedPrefix(|full|, v.prefix, o, c.prefix), c.children), path)
  {
    NodeHeld(s, q, c, path + full + [o]);
    LeafHeld(s, q, c, path + full + [o]);
    var full', stem := FullPrefix(c, path + full + [o]), Stem(c, path + full + [o]);
    JoinedChildren(s, s', p, q, c, path + full + [o], path + full);
    JoinedIs(full, o, full');
    assert path + (full + [o] + full') == stem;
    BuildHeld(s', q, c.kind, path, full + [o] + full', s.nodes[q].children, c.children);
  }

  lemma JoinedChildren(s: Store, s': Store, p: Ptr, q: Ptr, c: Art, path: Key, above: Key)
    requires c.Inner? && Holds(s, q, c, path) && p in s.nodes && p in s.place && s.place[p] == above && |above| < |path|
    requires forall r | r in s.nodes && r in s.place && r != p && r != q :: Same(s, s', r)
    requires s'.leaf == s.leaf
    ensures Shape(c) && q in s.nodes && ChildrenHeld(s', s.nodes[q].children, c.children, Stem(c, path))
  {
    NodeHeld(s, q, c, path);
    ChildrenAreHeld(s, q, c, path);
    var stem := Stem(c, path);
    forall d | d in c.children ensures SameBelow(s, s', stem + [d]) && SameLeaves(s, s', KeySet(c.children[d])) {
      forall r | r in s.nodes && r in s.place && stem + [d] <= s.place[r] ensures Same(s, s', r) {
        assert r != p && r != q;
      }
    }
    ChildrenFrame(s, s', s.nodes[q].children, c.children, stem);
  }

  /** What concatenating the prefixes makes of a node's last child. */
  function JoinedView(v: NodeView, o: Byte, below: NodeView): NodeView {
    below.(prefixLength := v.prefixLength + 1 + below.prefixLength,
           prefix := if |v.prefix| == Min(v.prefixLength, MAX_PREFIX) then JoinedPrefix(v.prefixLength, v.prefix, o, below.prefix) else [])
  }

  /** Nothing outside path changes when a node below it is moved, its child joined, and the node deleted. */
  ghost predicate OnlyTwo(s: Store, s': Store, p: Ptr, q: Ptr) {
    s'.leaf == s.leaf && forall r | r in s.nodes && r in s.place && r != p && r != q :: Same(s, s', r)
  }

  lemma TwoOutside(s: Store, s': Store, p: Ptr, q: Ptr, path: Key)
    requires OnlyTwo(s, s', p, q) && p in s.place && path <= s.place[p] && (q in s.place ==> path <= s.place[q])
    ensures SameOutside(s, s', path)
  {
    forall r | r in s.nodes && r in s.place && !(path <= s.place[r]) ensures Same(s, s', r) {}
  }

  /** A node is not its own child. */
  lemma ChildApart(s: Store, p: Ptr, a: Art, path: Key, o: Byte)
    requires Holds(s, p, a, path) && a.Inner? && Shape(a) && o in a.children && a.children[o].Inner?
    requires p in s.nodes && o in s.nodes[p].children
    ensures var q := s.nodes[p].children[o];
      q != p && q in s.nodes && q in s.place && p in s.place && path <= s.place[p] && path <= s.place[q] && IsNodePtr(q)
      && s.nodes[q].prefix == a.children[o].prefix
      && |s.nodes[q].prefix| == Min(s.nodes[q].prefixLength, MAX_PREFIX)
  {
    NodeHeld(s, p, a, path);
    ChildHeld(s, p, a, path, o);
    var q := s.nodes[p].children[o];
    NodeHeld(s, q, a.children[o], Stem(a, path) + [o]);
    LeafHeld(s, q, a.children[o], Stem(a, path) + [o]);
    PrefixOf(path, Stem(a, path) + [o], s.place[q]);
    assert |s.place[q]| > |s.place[p]|;
  }

  /** A Node4 gave way to its last child, a leaf. */
  lemma CollapsedToLeaf(s: Store, s': Store, p: Ptr, a: Art, path: Key, o: Byte)
    requires Holds(s, p, a, path) && a.Inner? && Shape(a) && o in a.children && |a.prefix| == Min(a.prefixLength, MAX_PREFIX)
    requires p in s.nodes && o in s.nodes[p].children && a.children[o].Leaf? && OnlyTwo(s, s', p, p)
    ensures Holds(s', s.nodes[p].children[o], Collapse(a, o), path) && SameOutside(s, s', path)
  {
    NodeHeld(s, p, a, path);
    LeafUp(s, s', p, a, path, o);
    TwoOutside(s, s', p, p, path);
  }

  /** A Node4 gave way to its last child, an inner node. */
  lemma CollapsedToNode(s: Store, s': Store, p: Ptr, a: Art, path: Key, o: Byte)
    requires Holds(s, p, a, path) && a.Inner? && Shape(a) && o in a.children && |a.prefix| == Min(a.prefixLength, MAX_PREFIX)
    requires p in s.nodes && o in s.nodes[p].children && a.children[o].Inner?
    requires var q := s.nodes[p].children[o];
      && OnlyTwo(s, s', p, q) && q in s.nodes && q in s.place && q in s'.nodes && q in s'.place
      && s'.place[q] == s.place[q] && s'.nodes[q] == JoinedView(s.nodes[p], o, s.nodes[q])
    ensures Holds(s', s.nodes[p].children[o], Collapse(a, o), path) && SameOutside(s, s', path)
  {
    NodeHeld(s, p, a, path);
    ChildApart(s, p, a, path, o);
    NodeUp(s, s', p, a, path, o);
    TwoOutside(s, s', p, s.nodes[p].children[o], path);
  }
}
