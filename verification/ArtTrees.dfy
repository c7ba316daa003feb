/** The adaptive radix tree over node objects by address: insert, erase and lookup. */
module ArtTrees {
  import opened Hiding
  import opened Bytes
  import Nodes
  import opened RadixTree
  import opened RadixNodes
  import opened RadixStores
  import opened Sets

  lemma {:induction false} Bound(ps: set<Ptr>) returns (m: Ptr)
    ensures forall p | p in ps :: p <= m
    decreases |ps|
  {
    m := 0;
    if p :| p in ps {
      var r := Bound(ps - {p});
      m := if r < p then p else r;
      forall x | x in ps ensures x <= m {
        if x != p { assert x in ps - {p}; }
      }
    }
  }

  /** There always is a free address. */
  lemma FreeAddress(ps: set<Ptr>)
    ensures exists q: Ptr :: IsNodePtr(q) && q !in ps
  {
    var m := Bound(ps);
    assert IsNodePtr(2 * m + 2) && 2 * m + 2 !in ps;
  }

  class ArtTree {
    /** The root's address, 0 for an empty tree. */
    var root: Ptr
    var nodes: map<Ptr, Node>
    /** What the nodes' layouts stand for, and the tree they make up. */
    ghost var s: Store
    ghost var tree: Nodes.Option<Art>

    /** n is in order and stands for v; unfolded only where NodeIs is mentioned. */
    static ghost predicate IsNode(n: Node, v: NodeView)
      reads n
    {
      forall u: Unfold :: NodeIs(u, n, v)
    }

    static ghost predicate NodeIs(u: Unfold, n: Node, v: NodeView)
      reads n
    {
      n.Valid() && n.View() == v
    }

    ghost predicate NodeAt(p: Ptr)
      reads `nodes, `s, nodes.Values
    {
      p in nodes && p in s.nodes && IsNode(nodes[p], s.nodes[p])
    }

    static ghost predicate Apart(nodes: map<Ptr, Node>, p: Ptr, q: Ptr) {
      p in nodes && q in nodes && (p != q ==> nodes[p] != nodes[q])
    }

    ghost predicate Linked()
      reads `nodes, `s, nodes.Values
    {
      && nodes.Keys == s.nodes.Keys == s.place.Keys
      && (forall p, q {:trigger Apart(nodes, p, q)} | p in nodes && q in nodes :: Apart(nodes, p, q))
      && (forall p {:trigger NodeAt(p)} | p in nodes :: NodeAt(p))
    }

    ghost predicate Valid()
      reads this, nodes.Values
    {
      Linked() && if root == 0 then tree.None? else tree.Some? && Holds(s, root, tree.value, [])
    }

    /** The stored keys, each with its tuple. */
    ghost function Contents(): map<Key, Ptr>
      reads `tree, `s
    {
      ContentsOf(tree, s.leaf)
    }

    static ghost function ContentsOf(t: Nodes.Option<Art>, leaf: map<Key, Ptr>): map<Key, Ptr> {
      map k | k in Stored(t) :: if k in leaf then leaf[k] / 2 else 0
    }

    constructor ()
      ensures Valid() && Contents() == map[] && fresh(nodes.Values)
    {
      root, nodes := 0, map[];
      s, tree := Store(map[], map[], map[]), Nodes.None;
    }

    // ---- reading nodes ----

    method FindChild(p: Ptr, b: Byte, ghost a: Art, ghost path: Key) returns (c: Ptr)
      requires Linked() && Holds(s, p, a, path) && a.Inner?
      ensures c != 0 <==> b in a.children
      ensures c != 0 ==> Shape(a) && p in s.nodes && b in s.nodes[p].children && c == s.nodes[p].children[b]
                         && Holds(s, c, a.children[b], Stem(a, path) + [b])
    {
      NodeHeld(s, p, a, path);
      assert NodeAt(p) && NodeIs(Unfold, nodes[p], s.nodes[p]);
      c := nodes[p].FindChild(b);
      if b in a.children {
        ChildHeld(s, p, a, path, b);
        LeafHeld(s, c, a.children[b], Stem(a, path) + [b]);
      }
    }

    /** minimum: the key of the leftmost leaf. */
    method MinimumKey(p: Ptr, ghost a: Art, ghost path: Key) returns (k: Key)
      requires Linked() && Holds(s, p, a, path)
      ensures Shape(a) && k == Minimum(a)
      decreases a
    {
      LeafHeld(s, p, a, path);
      HoldsIs(s, p, a, path);
      if IsLeaf(p) {
        return LeafKey(p);
      }
      var c;
      ghost var b;
      c, b := FirstChild(p, a, path);
      k := MinimumKey(c, a.children[b], Stem(a, path) + [b]);
    }

    /** The child with the least byte. */
    method FirstChild(p: Ptr, ghost a: Art, ghost path: Key) returns (c: Ptr, ghost b: Byte)
      requires Linked() && Holds(s, p, a, path) && a.Inner?
      ensures Shape(a) && b in a.children && (exists d | d in a.children :: 0 <= d) && b == FirstByte(a.children, 0)
      ensures Holds(s, c, a.children[b], Stem(a, path) + [b])
    {
      NodeHeld(s, p, a, path);
      assert NodeAt(p) && NodeIs(Unfold, nodes[p], s.nodes[p]);
      c := nodes[p].FirstChild();
      b :| b in nodes[p].children && nodes[p].children[b] == c && forall d | d in nodes[p].children :: b <= d;
      assert b in a.children && 0 <= b;
      ChildHeld(s, p, a, path, b);
    }

    method PrefixOfNode(p: Ptr, ghost a: Art, ghost path: Key) returns (n: nat, prefix: seq<Byte>)
      requires Linked() && Holds(s, p, a, path) && a.Inner?
      ensures n == a.prefixLength && prefix == a.prefix
    {
      NodeHeld(s, p, a, path);
      assert NodeAt(p) && NodeIs(Unfold, nodes[p], s.nodes[p]);
      n, prefix := nodes[p].prefixLength, nodes[p].prefix;
    }

    /** Number of bytes of the node's compressed path that the key matches; bytes the node does not store are read
        from the leftmost key below. */
    method PrefixMismatch(p: Ptr, key: Key, depth: nat, ghost a: Art, ghost path: Key) returns (pos: nat, n: nat)
      requires Linked() && Holds(s, p, a, path) && LeadsTo(a, path, key) && a.Inner? && |path| == depth
      ensures n == a.prefixLength && Shape(a) && |FullPrefix(a, path)| == n && Spells(key, depth, FullPrefix(a, path), pos)
      ensures depth + pos < |key|
      ensures pos < n ==> key[depth + pos] != FullPrefix(a, path)[pos]
    {
      var prefix;
      n, prefix := PrefixOfNode(p, a, path);
      NodeStores(a, path, key);
      ghost var full := FullPrefix(a, path);
      pos := MatchStored(a, path, key, depth, n, prefix);
      if n > MAX_PREFIX && pos == MAX_PREFIX {
        var minKey := MinimumKey(p, a, path);
        while pos < n
          invariant pos <= n && Spells(key, depth, full, pos) && depth + pos < |key|
        {
          if key[depth + pos] != minKey[depth + pos] {
            return;
          }
          pos := pos + 1;
          SpellsOn(a, path, key, pos);
        }
      }
    }

    /** Compares the key with the bytes the node stores. */
    method MatchStored(ghost a: Art, ghost path: Key, key: Key, depth: nat, n: nat, prefix: seq<Byte>) returns (pos: nat)
      requires LeadsTo(a, path, key) && a.Inner? && |path| == depth && n == a.prefixLength && prefix == a.prefix
      ensures Shape(a) && |FullPrefix(a, path)| == n && Spells(key, depth, FullPrefix(a, path), pos)
      ensures depth + pos < |key| && pos <= Min(n, MAX_PREFIX)
      ensures pos < Min(n, MAX_PREFIX) ==> key[depth + pos] != FullPrefix(a, path)[pos]
    {
      NodeStores(a, path, key);
      ghost var full := FullPrefix(a, path);
      pos := 0;
      SpellsOn(a, path, key, 0);
      while pos < Min(n, MAX_PREFIX)
        invariant pos <= Min(n, MAX_PREFIX) && Spells(key, depth, full, pos) && depth + pos < |key|
      {
        if key[depth + pos] != prefix[pos] {
          return;
        }
        pos := pos + 1;
        SpellsOn(a, path, key, pos);
      }
    }

    // ---- lookup ----

    /** lookupPessimistic finds exactly the stored keys: the leaf pointer of the key's tuple, or null. */
    method LookupPessimistic(key: Key) returns (p: Ptr)
      requires Valid() && PrefixFree(Stored(tree) + {key})
      ensures p == if key in Contents() then MakeLeaf(Contents()[key]) else 0
    {
      if root == 0 {
        return 0;
      }
      RootLeads(s, root, tree.value, key);
      p := Find(root, key, tree.value);
    }

    /** Descends from the root. */
    method Find(top: Ptr, key: Key, ghost t: Art) returns (p: Ptr)
      requires Linked() && Holds(s, top, t, []) && LeadsTo(t, [], key)
      ensures if key in KeySet(t) then key in s.leaf && p == s.leaf[key] && IsLeaf(p) else p == 0
    {
      p := top;
      var depth := 0;
      ghost var a, path: Key := t, [];
      LeafHeld(s, p, a, path);
      while !IsLeaf(p)
        invariant Holds(s, p, a, path) && IsLeaf(p) == a.Leaf? && |path| == depth && LeadsTo(a, path, key)
        invariant key in KeySet(a) <==> key in KeySet(t)
        decreases a
      {
        var pos, n := PrefixMismatch(p, key, depth, a, path);
        if pos != n {
          Misses(a, path, key, pos);
          return 0;
        }
        Step(a, path, key);
        depth := depth + n;
        var c := FindChild(p, key[depth], a, path);
        if c == 0 {
          return 0;
        }
        p := c;
        path := NextPath(path, key, depth);
        a := a.children[key[depth]];
        LeafHeld(s, p, a, path);
        depth := depth + 1;
      }
      p := CheckLeaf(p, key, depth, a, path);
    }

    /** The leaf the descent has reached, if its key is the one looked for. */
    method CheckLeaf(leaf: Ptr, key: Key, depth: nat, ghost a: Art, ghost path: Key) returns (p: Ptr)
      requires Holds(s, leaf, a, path) && a.Leaf? && LeadsTo(a, path, key) && |path| == depth
      ensures if key in KeySet(a) then key in s.leaf && p == s.leaf[key] == leaf && IsLeaf(p) else p == 0
    {
      LeafHeld(s, leaf, a, path);
      AtLeaf(a, path, key);
      var m := LeafMatches(LeafKey(leaf), key, depth, path);
      p := if m then leaf else 0;
    }

    static lemma RootLeads(s: Store, root: Ptr, t: Art, key: Key)
      requires Holds(s, root, t, []) && PrefixFree(KeySet(t) + {key})
      ensures LeadsTo(t, [], key)
    {
      HoldsIs(s, root, t, []);
      forall u: Unfold ensures Leads(u, t, [], key) {}
    }

    // ---- changing nodes ----

    /** Every node except the one at p is as the store says. */
    ghost predicate LinkedExcept(p: Ptr)
      reads `nodes, `s, nodes.Values
    {
      && nodes.Keys == s.nodes.Keys == s.place.Keys && p in nodes
      && (forall q, r {:trigger Apart(nodes, q, r)} | q in nodes && r in nodes :: Apart(nodes, q, r))
      && (forall q {:trigger NodeAt(q)} | q in nodes && q != p :: NodeAt(q))
    }

    /** The store follows the node at p. */
    ghost method Follow(p: Ptr, v: NodeView)
      requires LinkedExcept(p) && IsNode(nodes[p], v)
      modifies this`s
      ensures Linked() && s == WithNode(old(s), p, v, old(s).place[p])
    {
      s := WithNode(s, p, v, s.place[p]);
      forall q | q in nodes ensures NodeAt(q) {
        if q != p { assert old(NodeAt(q)); }
      }
    }

    static lemma ValuesOf(was: map<Ptr, Node>, now: map<Ptr, Node>, q: Ptr, n: Node)
      requires forall r | r in now && r != q :: r in was && now[r] == was[r]
      requires q in now ==> now[q] == n
      ensures now.Values <= was.Values + {n}
    {
      forall o | o in now.Values ensures o in was.Values + {n} {
        var r :| r in now && now[r] == o;
        if r != q { assert was[r] in was.Values; }
      }
    }

    /** A new node at q; the one at p, if it is another, is deleted. */
    method Relocate(p: Ptr, q: Ptr, n: Node, ghost v: NodeView, ghost place: Key)
      requires LinkedExcept(p) && q !in nodes && n !in nodes.Values && IsNode(n, v)
      modifies this`nodes, this`s
      ensures Linked() && s == Moved(old(s), p, q, v, place) && nodes.Values <= old(nodes.Values) + {n}
    {
      ghost var was := nodes;
      nodes := (nodes - {p})[q := n];
      s := Moved(s, p, q, v, place);
      ValuesOf(was, nodes, q, n);
      forall r, r' | r in nodes && r' in nodes ensures Apart(nodes, r, r') {
        if r in was { assert was[r] in was.Values; }
        if r' in was { assert was[r'] in was.Values; }
        if r in was && r' in was { assert Apart(was, r, r'); }
      }
      forall r | r in nodes ensures NodeAt(r) {
        if r != q { assert old(NodeAt(r)); }
      }
    }

    /** A new node at q. */
    method Register(q: Ptr, n: Node, ghost v: NodeView, ghost place: Key)
      requires Linked() && q !in nodes && n !in nodes.Values && IsNode(n, v)
      modifies this`nodes, this`s
      ensures Linked() && s == WithNode(old(s), q, v, place) && nodes.Values <= old(nodes.Values) + {n}
    {
      ghost var was := nodes;
      nodes := nodes[q := n];
      s := WithNode(s, q, v, place);
      ValuesOf(was, nodes, q, n);
      forall r, r' | r in nodes && r' in nodes ensures Apart(nodes, r, r') {
        if r in was { assert was[r] in was.Values; }
        if r' in was { assert was[r'] in was.Values; }
        if r in was && r' in was { assert Apart(was, r, r'); }
      }
      forall r | r in nodes ensures NodeAt(r) {
        if r != q { assert old(NodeAt(r)); }
      }
    }

    /** Deletes the node at p. */
    method Delete(p: Ptr)
      requires Linked() && p in nodes
      modifies this`nodes, this`s
      ensures Linked() && s == Without(old(s), p) && nodes.Values <= old(nodes.Values)
    {
      ghost var was := nodes;
      nodes := nodes - {p};
      s := Without(s, p);
      ValuesOf(was, nodes, p, was[p]);
      assert was[p] in was.Values;
      forall r, r' | r in nodes && r' in nodes ensures Apart(nodes, r, r') {
        assert Apart(was, r, r');
      }
      forall r | r in nodes ensures NodeAt(r) {
        assert old(NodeAt(r));
      }
    }

    /** Adds a child; a full node is replaced by a larger one at another address. */
    method AddChild(p: Ptr, b: Byte, c: Ptr) returns (q: Ptr)
      requires Linked() && p in nodes && IsNodePtr(p) && b !in s.nodes[p].children && c != 0
      modifies this`nodes, this`s, nodes[p]
      ensures Linked() && fresh(nodes.Values - old(nodes.Values)) && IsNodePtr(q) && (q == p || q !in old(s).nodes)
      ensures var v := old(s).nodes[p];
        s == Moved(old(s), p, q, NodeView(Grown(v.kind, |v.children|), v.prefixLength, v.prefix, v.children[b := c]), old(s).place[p])
    {
      assert NodeAt(p) && NodeIs(Unfold, nodes[p], s.nodes[p]);
      ghost var v := s.nodes[p];
      ghost var next := NodeView(Grown(v.kind, |v.children|), v.prefixLength, v.prefix, v.children[b := c]);
      var node := nodes[p].Insert(b, c);
      forall r | r in nodes && r != p ensures NodeAt(r) {
        assert old(NodeAt(r)) && Apart(nodes, r, p);
      }
      assert IsNode(node, next);
      q := Settle(p, node, next);
    }

    /** Drops a child; a node that has become small is replaced by a smaller one at another address. */
    method RemoveChild(p: Ptr, b: Byte) returns (q: Ptr)
      requires Linked() && p in nodes && IsNodePtr(p) && b in s.nodes[p].children && CountOk(s.nodes[p].kind, |s.nodes[p].children|)
      modifies this`nodes, this`s, nodes[p]
      ensures Linked() && fresh(nodes.Values - old(nodes.Values)) && IsNodePtr(q) && (q == p || q !in old(s).nodes)
      ensures var v := old(s).nodes[p];
        s == Moved(old(s), p, q, NodeView(Shrunk(v.kind, |v.children|), v.prefixLength, v.prefix, v.children - {b}), old(s).place[p])
    {
      assert NodeAt(p) && NodeIs(Unfold, nodes[p], s.nodes[p]);
      ghost var v := s.nodes[p];
      ghost var next := NodeView(Shrunk(v.kind, |v.children|), v.prefixLength, v.prefix, v.children - {b});
      var node := nodes[p].Erase(b);
      forall r | r in nodes && r != p ensures NodeAt(r) {
        assert old(NodeAt(r)) && Apart(nodes, r, p);
      }
      assert IsNode(node, next);
      q := Settle(p, node, next);
    }

    /** The node in the stead of the one at p, which is the same object or a new one. */
    method Settle(p: Ptr, node: Node, ghost next: NodeView) returns (q: Ptr)
      requires LinkedExcept(p) && IsNodePtr(p) && (node == nodes[p] || node !in nodes.Values) && IsNode(node, next)
      modifies this`nodes, this`s
      ensures Linked() && nodes.Values <= old(nodes.Values) + {node} && IsNodePtr(q)
      ensures if node == old(nodes[p]) then q == p else q !in old(s).nodes
      ensures s == Moved(old(s), p, q, next, old(s).place[p])
    {
      if node == nodes[p] {
        q := p;
        ghost var s0 := s;
        Follow(p, next);
        assert s == Moved(s0, p, p, next, s0.place[p]);
      } else {
        FreeAddress(nodes.Keys);
        q :| IsNodePtr(q) && q !in nodes.Keys;
        Relocate(p, q, node, next, s.place[p]);
      }
    }

    /** Writes the slot of a child. */
    method SetChild(p: Ptr, b: Byte, c: Ptr)
      requires Linked() && p in nodes && b in s.nodes[p].children && c != 0
      modifies this`s, nodes[p]
      ensures Linked() && s == WithNode(old(s), p, old(s).nodes[p].(children := old(s).nodes[p].children[b := c]), old(s).place[p])
    {
      assert NodeAt(p) && NodeIs(Unfold, nodes[p], s.nodes[p]);
      ghost var v := s.nodes[p].(children := s.nodes[p].children[b := c]);
      nodes[p].SetChild(b, c);
      forall r | r in nodes && r != p ensures NodeAt(r) {
        assert old(NodeAt(r)) && Apart(nodes, r, p);
      }
      assert IsNode(nodes[p], v);
      Follow(p, v);
    }

    /** A Node4 over two children at a new address. */
    method NewPair(n: nat, prefix: seq<Byte>, x: Byte, p1: Ptr, y: Byte, p2: Ptr, ghost place: Key) returns (q: Ptr)
      requires Linked() && x != y && p1 != 0 && p2 != 0
      modifies this`nodes, this`s
      ensures Linked() && fresh(nodes.Values - old(nodes.Values)) && IsNodePtr(q) && q !in old(s).nodes
      ensures s == WithNode(old(s), q, NodeView(Node4, n, prefix, map[x := p1, y := p2]), place)
    {
      var node := Pair(n, prefix, x, p1, y, p2);
      FreeAddress(nodes.Keys);
      q :| IsNodePtr(q) && q !in nodes.Keys;
      forall r | r in nodes ensures NodeAt(r) {
        assert old(NodeAt(r));
      }
      Register(q, node, NodeView(Node4, n, prefix, map[x := p1, y := p2]), place);
    }

    static method Pair(n: nat, prefix: seq<Byte>, x: Byte, p1: Ptr, y: Byte, p2: Ptr) returns (node: Node)
      requires x != y && p1 != 0 && p2 != 0
      ensures fresh(node) && IsNode(node, NodeView(Node4, n, prefix, map[x := p1, y := p2]))
    {
      node := new Node(Node4);
      node.prefixLength, node.prefix := n, prefix;
      node := node.Insert(x, p1);
      node := node.Insert(y, p2);
      assert node.View() == NodeView(Node4, n, prefix, map[x := p1, y := p2]);
    }

    /** The node at p keeps only what is left of its compressed path. */
    method CutPrefix(p: Ptr, pos: nat, rest: seq<Byte>)
      requires Linked() && p in nodes && pos < s.nodes[p].prefixLength
      modifies this`s, nodes[p]
      ensures Linked() && s == WithNode(old(s), p, CutView(old(s).nodes[p], pos, rest), old(s).place[p])
    {
      assert NodeAt(p) && NodeIs(Unfold, nodes[p], s.nodes[p]);
      ghost var v := CutView(s.nodes[p], pos, rest);
      nodes[p].prefixLength := nodes[p].prefixLength - pos - 1;
      nodes[p].prefix := rest;
      forall r | r in nodes && r != p ensures NodeAt(r) {
        assert old(NodeAt(r)) && Apart(nodes, r, p);
      }
      assert IsNode(nodes[p], v);
      Follow(p, v);
    }

    // ---- insert ----

    /** A leaf where another already is: a new node above both, holding the bytes they share. */
    method SplitLeaf(p: Ptr, key: Key, tid: Ptr, depth: nat, ghost a: Art, ghost path: Key) returns (q: Ptr, ghost a': Art)
      requires Linked() && Holds(s, p, a, path) && LeadsTo(a, path, key) && |path| == depth && a.Leaf? && key !in KeySet(a)
      requires loadKey(tid) == key && key in s.leaf && s.leaf[key] == MakeLeaf(tid)
      modifies this`nodes, this`s
      ensures Linked() && fresh(nodes.Values - old(nodes.Values)) && s.leaf == old(s).leaf
      ensures Holds(s, q, a', path) && KeySet(a') == KeySet(a) + {key} && q != 0 && SameOutside(old(s), s, path)
    {
      ghost var s0 := s;
      LeafHeld(s, p, a, path);
      AtLeaf(a, path, key);
      var existingKey := LeafKey(p);
      var n := SharedBytes(existingKey, key, depth, path);
      var x, y, full := existingKey[depth + n], key[depth + n], key[depth..depth + n];
      q := NewPair(n, Take(full, MAX_PREFIX), x, p, y, MakeLeaf(tid), path + full);
      a' := LeafPair(a, key, depth, n);
      LeafSplit(s0, s, p, q, key, tid, n, full, a, path);
    }

    /** The new node above both leaves. */
    static lemma LeafSplit(s0: Store, s: Store, p: Ptr, q: Ptr, key: Key, tid: Ptr, n: nat, full: Key, a: Art, path: Key)
      requires Holds(s0, p, a, path) && a.Leaf? && path <= key && |path| + n < |key| && |path| + n < |a.key|
      requires a.key[..|path| + n] == key[..|path| + n] && a.key[|path| + n] != key[|path| + n] && full == key[|path|..|path| + n]
      requires loadKey(tid) == key && key in s0.leaf && s0.leaf[key] == MakeLeaf(tid) && IsNodePtr(q) && q !in s0.nodes
      requires s == WithNode(s0, q, NodeView(Node4, n, Take(full, MAX_PREFIX),
                                             map[a.key[|path| + n] := p, key[|path| + n] := MakeLeaf(tid)]), path + full)
      ensures Holds(s, q, LeafPair(a, key, |path|, n), path) && SameOutside(s0, s, path)
      ensures KeySet(LeafPair(a, key, |path|, n)) == KeySet(a) + {key}
    {
      var x, y := a.key[|path| + n], key[|path| + n];
      HoldsIs(s0, p, a, path);
      LeafPairOk(a, key, |path|, path, n);
      LeafAnywhere(s0, s, p, a, path, path + full + [x]);
      NewLeafHeld(s, path + full + [y], key, tid);
      PairHeld(s, q, path, full, x, p, a, y, MakeLeaf(tid), Leaf(key));
      AddedSame(s0, q, s.nodes[q], path + full, path);
    }

    /** The byte after the first pos of a node's compressed path, and what the node stores of the rest: from its own
        bytes while it holds the whole path, from the leftmost key below otherwise. */
    method RestOfPrefix(p: Ptr, depth: nat, pos: nat, ghost a: Art, ghost path: Key) returns (b: Byte, rest: seq<Byte>)
      requires Linked() && Holds(s, p, a, path) && a.Inner? && |path| == depth && pos < a.prefixLength
      ensures Shape(a) && |FullPrefix(a, path)| == a.prefixLength
      ensures b == FullPrefix(a, path)[pos] && rest == Take(FullPrefix(a, path)[pos + 1..], MAX_PREFIX)
    {
      HoldsIs(s, p, a, path);
      AfterCutIs(a, path, pos);
      var n, prefix := PrefixOfNode(p, a, path);
      if n < MAX_PREFIX {
        b, rest := prefix[pos], prefix[pos + 1..];
      } else {
        var minKey := MinimumKey(p, a, path);
        b, rest := minKey[depth + pos], Take(minKey[depth + pos + 1..], Min(n - pos - 1, MAX_PREFIX));
      }
    }

    /** A key that leaves the compressed path after pos bytes: a new node takes the path up to there. */
    method BreakPrefix(p: Ptr, key: Key, tid: Ptr, depth: nat, pos: nat, ghost a: Art, ghost path: Key) returns (q: Ptr, ghost a': Art)
      requires Linked() && Holds(s, p, a, path) && LeadsTo(a, path, key) && |path| == depth && a.Inner? && key !in KeySet(a)
      requires Shape(a) && pos < a.prefixLength == |FullPrefix(a, path)| && depth + pos < |key|
      requires Spells(key, depth, FullPrefix(a, path), pos) && key[depth + pos] != FullPrefix(a, path)[pos]
      requires loadKey(tid) == key && key in s.leaf && s.leaf[key] == MakeLeaf(tid)
      modifies this`nodes, this`s, nodes.Values
      ensures Linked() && fresh(nodes.Values - old(nodes.Values)) && s.leaf == old(s).leaf
      ensures Holds(s, q, a', path) && KeySet(a') == KeySet(a) + {key} && q != 0 && SameOutside(old(s), s, path)
    {
      ghost var s0, stem := s, FullPrefix(a, path)[..pos];
      NodeHeld(s, p, a, path);
      LeafHeld(s, p, a, path);
      assert nodes[p] in nodes.Values;
      var n, prefix := PrefixOfNode(p, a, path);
      var b, rest := RestOfPrefix(p, depth, pos, a, path);
      CutPrefix(p, pos, rest);
      ghost var s1 := s;
      q := NewPair(pos, prefix[..Min(pos, MAX_PREFIX)], b, p, key[depth + pos], MakeLeaf(tid), path + stem);
      a' := Broken(a, path, key, pos);
      PrefixBroken(s0, s1, s, p, q, a, path, key, tid, pos);
    }

    static lemma PrefixBroken(s0: Store, s1: Store, s2: Store, p: Ptr, q: Ptr, a: Art, path: Key, key: Key, tid: Ptr, pos: nat)
      requires Holds(s0, p, a, path) && LeadsTo(a, path, key) && a.Inner? && Shape(a)
      requires pos < a.prefixLength == |FullPrefix(a, path)| && |path| + pos < |key|
      requires Spells(key, |path|, FullPrefix(a, path), pos) && key[|path| + pos] != FullPrefix(a, path)[pos]
      requires loadKey(tid) == key && key in s0.leaf && s0.leaf[key] == MakeLeaf(tid) && IsNodePtr(q) && q !in s1.nodes
      requires p in s0.nodes && p in s0.place && s0.nodes[p].prefixLength == a.prefixLength && |a.prefix| == Min(a.prefixLength, MAX_PREFIX)
      requires var full := FullPrefix(a, path);
        && s1 == WithNode(s0, p, CutView(s0.nodes[p], pos, Take(full[pos + 1..], MAX_PREFIX)), s0.place[p])
        && s2 == WithNode(s1, q, NodeView(Node4, pos, a.prefix[..Min(pos, MAX_PREFIX)],
                                          map[full[pos] := p, key[|path| + pos] := MakeLeaf(tid)]), path + full[..pos])
      ensures Holds(s2, q, Broken(a, path, key, pos), path) && SameOutside(s0, s2, path)
      ensures KeySet(Broken(a, path, key, pos)) == KeySet(a) + {key}
    {
      var full := FullPrefix(a, path);
      NodeHeld(s0, p, a, path);
      CutHeld(s0, s1, p, a, path, pos, Take(full[pos + 1..], MAX_PREFIX));
      BrokenOk(a, path, key, pos);
      BrokenHeld(s1, s2, p, q, a, path, key, tid, pos);
      CutOutside(s0, s1, s2, p, s1.nodes[p], q, s2.nodes[q], path + full[..pos], path);
    }

    /** The new node above the cut one and the new leaf. */
    static lemma BrokenHeld(s1: Store, s2: Store, p: Ptr, q: Ptr, a: Art, path: Key, key: Key, tid: Ptr, pos: nat)
      requires LeadsTo(a, path, key) && a.Inner? && Shape(a) && pos < a.prefixLength == |FullPrefix(a, path)| && |path| + pos < |key|
      requires Spells(key, |path|, FullPrefix(a, path), pos) && key[|path| + pos] != FullPrefix(a, path)[pos]
      requires loadKey(tid) == key && key in s1.leaf && s1.leaf[key] == MakeLeaf(tid) && IsNodePtr(q) && q !in s1.nodes
      requires var full := FullPrefix(a, path); var rest := Take(full[pos + 1..], MAX_PREFIX);
        && Holds(s1, p, a.(prefixLength := a.prefixLength - pos - 1, prefix := rest), path + full[..pos] + [full[pos]])
        && a.prefix == Take(full, MAX_PREFIX)
        && s2 == WithNode(s1, q, NodeView(Node4, pos, a.prefix[..Min(pos, MAX_PREFIX)],
                                          map[full[pos] := p, key[|path| + pos] := MakeLeaf(tid)]), path + full[..pos])
      ensures Holds(s2, q, Broken(a, path, key, pos), path)
    {
      var full := FullPrefix(a, path);
      var stem, node := full[..pos], a.(prefixLength := a.prefixLength - pos - 1, prefix := Take(full[pos + 1..], MAX_PREFIX));
      AddedHeld(s1, q, s2.nodes[q], path + stem, p, node, path + stem + [full[pos]]);
      assert Leads(Unfold, a, path, key);
      LeafFits(path, full, key, pos);
      NewLeafHeld(s2, path + stem + [key[|path| + pos]], key, tid);
      assert a.prefix[..Min(pos, MAX_PREFIX)] == Take(stem, MAX_PREFIX);
      PairHeld(s2, q, path, stem, full[pos], p, node, key[|path| + pos], MakeLeaf(tid), Leaf(key));
    }

    /** Inserts a key below p; q takes p's place. */
    method InsertInto(p: Ptr, key: Key, tid: Ptr, depth: nat, ghost a: Art, ghost path: Key) returns (q: Ptr, ghost a': Art)
      requires Linked() && Holds(s, p, a, path) && LeadsTo(a, path, key) && |path| == depth && key !in KeySet(a)
      requires loadKey(tid) == key && key in s.leaf && s.leaf[key] == MakeLeaf(tid)
      modifies this`nodes, this`s, nodes.Values
      ensures Linked() && fresh(nodes.Values - old(nodes.Values)) && s.leaf == old(s).leaf
      ensures Holds(s, q, a', path) && KeySet(a') == KeySet(a) + {key} && q != 0 && SameOutside(old(s), s, path)
      decreases a, 1
    {
      LeafHeld(s, p, a, path);
      if IsLeaf(p) {
        q, a' := SplitLeaf(p, key, tid, depth, a, path);
        return;
      }
      var pos, n := PrefixMismatch(p, key, depth, a, path);
      if pos != n {
        q, a' := BreakPrefix(p, key, tid, depth, pos, a, path);
        return;
      }
      Step(a, path, key);
      var child := FindChild(p, key[depth + n], a, path);
      if child != 0 {
        a' := InsertBelow(p, child, key, tid, depth + n, a, path);
        q := p;
      } else {
        q, a' := AddLeaf(p, key, tid, depth + n, a, path);
      }
    }

    /** Inserts below a child and writes its slot. */
    method InsertBelow(p: Ptr, child: Ptr, key: Key, tid: Ptr, d: nat, ghost a: Art, ghost path: Key) returns (ghost a': Art)
      requires Linked() && Holds(s, p, a, path) && LeadsTo(a, path, key) && a.Inner? && key !in KeySet(a)
      requires d == |path| + a.prefixLength < |key| && Shape(a) && key[d] in a.children && Stem(a, path) + [key[d]] <= key
      requires Holds(s, child, a.children[key[d]], Stem(a, path) + [key[d]]) && key !in KeySet(a.children[key[d]])
      requires LeadsTo(a.children[key[d]], NextPath(path, key, d), key) && NextPath(path, key, d) == Stem(a, path) + [key[d]]
      requires loadKey(tid) == key && key in s.leaf && s.leaf[key] == MakeLeaf(tid)
      modifies this`nodes, this`s, nodes.Values
      ensures Linked() && fresh(nodes.Values - old(nodes.Values)) && s.leaf == old(s).leaf
      ensures Holds(s, p, a', path) && KeySet(a') == KeySet(a) + {key} && p != 0 && SameOutside(old(s), s, path)
      decreases a, 0
    {
      ghost var s0, stem := s, Stem(a, path);
      var b := key[d];
      LeafHeld(s, p, a, path);
      var c;
      ghost var ac;
      c, ac := InsertInto(child, key, tid, d + 1, a.children[b], stem + [b]);
      a' := Reattach(s0, p, b, c, a, path, ac);
      ChildReplaced(a, path, key, b, ac);
    }

    /** Stores the new pointer to a child below which something has changed. */
    method Reattach(ghost s0: Store, p: Ptr, b: Byte, c: Ptr, ghost a: Art, ghost path: Key, ghost ac: Art) returns (ghost a': Art)
      requires Linked() && Holds(s0, p, a, path) && a.Inner? && Shape(a) && b in a.children && c != 0
      requires SameOutside(s0, s, Stem(a, path) + [b]) && s.leaf == s0.leaf && Holds(s, c, ac, Stem(a, path) + [b])
      modifies this`s, nodes.Values
      ensures Linked() && s.leaf == s0.leaf && a' == a.(children := a.children[b := ac])
      ensures Holds(s, p, a', path) && SameOutside(s0, s, path) && Ok(ac, Stem(a, path) + [b])
    {
      ghost var s1 := s;
      NodeHeld(s0, p, a, path);
      LeafHeld(s0, p, a, path);
      BelowPut(s0, s1, p, a, path, b, c, ac);
      HoldsIs(s1, c, ac, Stem(a, path) + [b]);
      assert nodes[p] in nodes.Values;
      SetChild(p, b, c);
      a' := a.(children := a.children[b := ac]);
      BelowReplaced(s0, s1, s, p, a, path, b, c, ac);
      ReplacedOutside(s0, s1, s, p, s.nodes[p], Stem(a, path), b, path);
    }

    /** Adds a leaf to a node. */
    method AddLeaf(p: Ptr, key: Key, tid: Ptr, d: nat, ghost a: Art, ghost path: Key) returns (q: Ptr, ghost a': Art)
      requires Linked() && Holds(s, p, a, path) && LeadsTo(a, path, key) && a.Inner? && key !in KeySet(a)
      requires d == |path| + a.prefixLength < |key| && Shape(a) && key[d] !in a.children && Stem(a, path) + [key[d]] <= key
      requires loadKey(tid) == key && key in s.leaf && s.leaf[key] == MakeLeaf(tid)
      modifies this`nodes, this`s, nodes.Values
      ensures Linked() && fresh(nodes.Values - old(nodes.Values)) && s.leaf == old(s).leaf
      ensures Holds(s, q, a', path) && KeySet(a') == KeySet(a) + {key} && q != 0 && SameOutside(old(s), s, path)
    {
      ghost var s0 := s;
      NodeHeld(s, p, a, path);
      LeafHeld(s, p, a, path);
      assert nodes[p] in nodes.Values;
      q := AddChild(p, key[d], MakeLeaf(tid));
      a' := a.(kind := Grown(a.kind, |a.children|), children := a.children[key[d] := Leaf(key)]);
      ChildAdded(a, path, key, key[d]);
      LeafAdded(s0, s, p, q, a, path, key[d], key, tid);
    }

    /** The store learns the tuple of a key that is not in the tree. */
    ghost method Record(key: Key, tid: Ptr)
      requires Valid() && key !in Stored(tree)
      modifies this`s
      ensures Valid() && s == WithLeaf(old(s), key, MakeLeaf(tid))
    {
      ghost var s0 := s;
      s := WithLeaf(s, key, MakeLeaf(tid));
      forall p | p in nodes ensures NodeAt(p) { assert old(NodeAt(p)); }
      if root != 0 {
        forall r | r in s0.nodes && r in s0.place && [] <= s0.place[r] ensures Same(s0, s, r) {}
        HoldsFrame(s0, s, root, tree.value, []);
      }
    }

    /** Inserts a key the tree does not hold. */
    method Insert(key: Key, tid: Ptr)
      requires Valid() && key !in Stored(tree) && PrefixFree(Stored(tree) + {key}) && loadKey(tid) == key
      modifies this, nodes.Values
      ensures Valid() && fresh(nodes.Values - old(nodes.Values)) && Contents() == old(Contents())[key := tid]
      ensures Stored(tree) == old(Stored(tree)) + {key}
    {
      ghost var s0, tree0 := s, tree;
      Record(key, tid);
      if root == 0 {
        root, tree := MakeLeaf(tid), Nodes.Some(Leaf(key));
        NewLeafHeld(s, [], key, tid);
      } else {
        InsertBelowRoot(key, tid);
      }
      ContentsWith(tree0, tree, s0.leaf, s.leaf, key, tid);
    }

    method InsertBelowRoot(key: Key, tid: Ptr)
      requires Valid() && root != 0 && key !in Stored(tree) && PrefixFree(Stored(tree) + {key})
      requires loadKey(tid) == key && key in s.leaf && s.leaf[key] == MakeLeaf(tid)
      modifies this, nodes.Values
      ensures Valid() && fresh(nodes.Values - old(nodes.Values)) && s.leaf == old(s).leaf
      ensures Stored(tree) == old(Stored(tree)) + {key}
    {
      RootLeads(s, root, tree.value, key);
      ghost var a;
      root, a := InsertInto(root, key, tid, 0, tree.value, []);
      tree := Nodes.Some(a);
    }

    static lemma ContentsWith(t: Nodes.Option<Art>, t': Nodes.Option<Art>, leaf: map<Key, Ptr>, leaf': map<Key, Ptr>, key: Key, tid: Ptr)
      requires Stored(t') == Stored(t) + {key} && leaf' == leaf[key := MakeLeaf(tid)]
      ensures ContentsOf(t', leaf') == ContentsOf(t, leaf)[key := tid]
    {
    }

    // ---- erase ----

    /** Whether the node at p is a Node4 with a single child. */
    method IsOneWay(p: Ptr) returns (one: bool)
      requires Linked() && p in nodes
      ensures one <==> s.nodes[p].kind.Node4? && |s.nodes[p].children| == 1
    {
      assert NodeAt(p) && NodeIs(Unfold, nodes[p], s.nodes[p]);
      one := nodes[p].kind.Node4? && nodes[p].count == 1;
    }

    /** The only child of a node. */
    method OnlyChild(p: Ptr) returns (c: Ptr)
      requires Linked() && p in nodes && |s.nodes[p].children| == 1
      ensures forall o | o in s.nodes[p].children :: s.nodes[p].children[o] == c
    {
      assert NodeAt(p) && NodeIs(Unfold, nodes[p], s.nodes[p]);
      c := nodes[p].FirstChild();
      OneValue(s.nodes[p].children, c);
    }

    static lemma OneValue(m: map<Byte, Ptr>, c: Ptr)
      requires |m| == 1 && exists b :: b in m && m[b] == c
      ensures forall o | o in m :: m[o] == c
    {
      var b :| b in m && m[b] == c;
      assert |m.Keys| == |m|;
      forall o | o in m ensures o == b {
        if o != b { SubsetSize({b, o}, m.Keys); }
      }
    }

    /** Hands the path of the one-way node at p down to its child at c and deletes the node. */
    method Concatenate(p: Ptr, c: Ptr, ghost o: Byte)
      requires Linked() && p in nodes && c in nodes && p != c && s.nodes[p].kind.Node4? && |s.nodes[p].children| == 1
      requires o in s.nodes[p].children && |s.nodes[p].prefix| == Min(s.nodes[p].prefixLength, MAX_PREFIX)
      requires |s.nodes[c].prefix| == Min(s.nodes[c].prefixLength, MAX_PREFIX)
      modifies this`nodes, this`s, nodes[c]
      ensures Linked() && nodes.Values <= old(nodes.Values)
      ensures s == Without(WithNode(old(s), c, JoinedView(old(s).nodes[p], o, old(s).nodes[c]), old(s).place[c]), p)
    {
      assert NodeAt(p) && NodeAt(c) && Apart(nodes, p, c);
      assert NodeIs(Unfold, nodes[p], s.nodes[p]) && NodeIs(Unfold, nodes[c], s.nodes[c]);
      ghost var v := JoinedView(s.nodes[p], o, s.nodes[c]);
      nodes[p].ConcatenatePrefix(nodes[c]);
      forall r | r in nodes && r != c ensures NodeAt(r) {
        assert old(NodeAt(r)) && Apart(nodes, r, c);
      }
      assert IsNode(nodes[c], v);
      Follow(c, v);
      Delete(p);
    }

    /** Deletes the leaf below b: the node shrinks at the fixed counts, and gives way when one child is left. */
    method DropLeaf(p: Ptr, b: Byte, ghost key: Key, ghost a: Art, ghost path: Key) returns (q: Ptr, ghost a': Art)
      requires Linked() && Holds(s, p, a, path) && a.Inner? && b in a.children && KeySet(a.children[b]) == {key}
      modifies this`nodes, this`s, nodes.Values
      ensures Linked() && fresh(nodes.Values - old(nodes.Values)) && s.leaf == old(s).leaf
      ensures Holds(s, q, a', path) && KeySet(a') == KeySet(a) - {key} && q != 0 && SameOutside(old(s), s, path)
    {
      NodeHeld(s, p, a, path);
      HoldsIs(s, p, a, path);
      EraseChildOk(a, path, b, key);
      a' := EraseChild(a, b);
      q := Dropped(p, b, a, path);
      Heard(s, q, a', path);
    }

    method Dropped(p: Ptr, b: Byte, ghost a: Art, ghost path: Key) returns (q: Ptr)
      requires Linked() && Holds(s, p, a, path) && a.Inner? && Shape(a) && b in a.children
      requires CountOk(a.kind, |a.children|) && |a.prefix| == Min(a.prefixLength, MAX_PREFIX)
      modifies this`nodes, this`s, nodes.Values
      ensures Linked() && fresh(nodes.Values - old(nodes.Values)) && s.leaf == old(s).leaf
      ensures Holds(s, q, EraseChild(a, b), path) && SameOutside(old(s), s, path)
    {
      ghost var s0 := s;
      NodeHeld(s, p, a, path);
      LeafHeld(s, p, a, path);
      assert nodes[p] in nodes.Values;
      q := RemoveChild(p, b);
      DroppedSize(s0.nodes[p].children, b);
      DroppedSize(a.children, b);
      var one := IsOneWay(q);
      if one {
        q := GiveWay(s0, p, q, b, a, path);
      } else {
        LeafDropped(s0, s, p, q, a, path, b);
      }
    }

    static lemma Heard(s: Store, q: Ptr, a: Art, path: Key)
      requires Holds(s, q, a, path)
      ensures q != 0
    {
      LeafHeld(s, q, a, path);
    }

    static lemma DroppedSize<T>(m: map<Byte, T>, b: Byte)
      requires b in m
      ensures |m - {b}| == |m| - 1
    {
      assert (m - {b}).Keys == m.Keys - {b};
      assert |(m - {b}).Keys| == |m - {b}| && |m.Keys| == |m|;
    }

    /** The one-way node at q, which was at p before it lost child b, gives way to its child. */
    method GiveWay(ghost s0: Store, ghost p: Ptr, q: Ptr, ghost b: Byte, ghost a: Art, ghost path: Key) returns (c: Ptr)
      requires Linked() && Holds(s0, p, a, path) && a.Inner? && b in a.children && Shape(a) && a.kind.Node4? && |a.children| == 2
      requires |a.prefix| == Min(a.prefixLength, MAX_PREFIX) && p in s0.nodes && p in s0.place && (q == p || q !in s0.nodes)
      requires s0.nodes[p] == NodeView(Node4, a.prefixLength, a.prefix, s0.nodes[p].children) && s0.nodes[p].children.Keys == a.children.Keys
      requires s == Moved(s0, p, q, s0.nodes[p].(children := s0.nodes[p].children - {b}), s0.place[p])
      modifies this`nodes, this`s, nodes.Values
      ensures Linked() && nodes.Values <= old(nodes.Values) && s.leaf == old(s).leaf
      ensures CountOk(a.kind, |a.children|) && Holds(s, c, EraseChild(a, b), path) && SameOutside(s0, s, path)
    {
      DroppedSize(a.children, b);
      DroppedSize(s0.nodes[p].children, b);
      ghost var rest := a.children - {b};
      NonEmpty(rest);
      ghost var o := FirstByte(rest, 0);
      c := OnlyChild(q);
      assert o in s.nodes[q].children && c == s0.nodes[p].children[o];
      Raise(s0, p, q, c, o, a, path);
    }

    static lemma OkHeld(s: Store, p: Ptr, a: Art, path: Key)
      requires Holds(s, p, a, path)
      ensures Ok(a, path)
    {
      HoldsIs(s, p, a, path);
    }

    /** Deletes the one-way node at q; its child at c, if it is a node, takes over its path. */
    method Raise(ghost s0: Store, ghost p: Ptr, q: Ptr, c: Ptr, ghost o: Byte, ghost a: Art, ghost path: Key)
      requires Linked() && Holds(s0, p, a, path) && a.Inner? && o in a.children && Shape(a)
      requires |a.prefix| == Min(a.prefixLength, MAX_PREFIX) && p in s0.nodes && p in s0.place && (q == p || q !in s0.nodes)
      requires o in s0.nodes[p].children && c == s0.nodes[p].children[o] && q in s.nodes && o in s.nodes[q].children
      requires s.nodes[q].kind.Node4? && |s.nodes[q].children| == 1
      requires s.nodes[q].prefixLength == a.prefixLength == s0.nodes[p].prefixLength && s.nodes[q].prefix == a.prefix == s0.nodes[p].prefix
      requires s == Moved(s0, p, q, s.nodes[q], s0.place[p])
      modifies this`nodes, this`s, nodes.Values
      ensures Linked() && nodes.Values <= old(nodes.Values) && s.leaf == old(s).leaf
      ensures Holds(s, c, Collapse(a, o), path) && SameOutside(s0, s, path)
    {
      ChildHeld(s0, p, a, path, o);
      LeafHeld(s0, c, a.children[o], Stem(a, path) + [o]);
      if IsLeaf(c) {
        Delete(q);
        CollapsedToLeaf(s0, s, p, a, path, o);
      } else {
        ChildApart(s0, p, a, path, o);
        assert nodes[c] in nodes.Values;
        Concatenate(q, c, o);
        CollapsedToNode(s0, s, p, a, path, o);
      }
    }

    /** Deletes a key below the inner node at p, if it is there; q takes p's place. */
    method EraseFrom(p: Ptr, key: Key, depth: nat, ghost a: Art, ghost path: Key) returns (q: Ptr, ghost a': Art)
      requires Linked() && Holds(s, p, a, path) && LeadsTo(a, path, key) && |path| == depth && a.Inner?
      modifies this`nodes, this`s, nodes.Values
      ensures Linked() && fresh(nodes.Values - old(nodes.Values)) && s.leaf == old(s).leaf
      ensures Holds(s, q, a', path) && KeySet(a') == KeySet(a) - {key} && q != 0 && SameOutside(old(s), s, path)
      decreases a, 1
    {
      q, a' := p, a;
      LeafHeld(s, p, a, path);
      var pos, n := PrefixMismatch(p, key, depth, a, path);
      if pos != n {
        Misses(a, path, key, pos);
        return;
      }
      Step(a, path, key);
      var child := FindChild(p, key[depth + n], a, path);
      if child == 0 {
        return;
      }
      LeafHeld(s, child, a.children[key[depth + n]], NextPath(path, key, depth + n));
      if IsLeaf(child) {
        q, a' := EraseLeaf(p, child, key, depth + n, a, path);
      } else {
        a' := EraseBelow(p, child, key, depth + n, a, path);
      }
    }

    /** The leaf below the key's byte goes if it is the key's. */
    method EraseLeaf(p: Ptr, child: Ptr, key: Key, d: nat, ghost a: Art, ghost path: Key) returns (q: Ptr, ghost a': Art)
      requires Linked() && Holds(s, p, a, path) && LeadsTo(a, path, key) && a.Inner? && Shape(a) && p != 0
      requires d == |path| + a.prefixLength < |key| && key[d] in a.children && a.children[key[d]].Leaf?
      requires Holds(s, child, a.children[key[d]], NextPath(path, key, d))
      requires LeadsTo(a.children[key[d]], NextPath(path, key, d), key)
      requires key in KeySet(a) <==> key in KeySet(a.children[key[d]])
      modifies this`nodes, this`s, nodes.Values
      ensures Linked() && fresh(nodes.Values - old(nodes.Values)) && s.leaf == old(s).leaf
      ensures Holds(s, q, a', path) && KeySet(a') == KeySet(a) - {key} && q != 0 && SameOutside(old(s), s, path)
    {
      var found := CheckLeaf(child, key, d + 1, a.children[key[d]], NextPath(path, key, d));
      LeafHeld(s, child, a.children[key[d]], NextPath(path, key, d));
      if found != 0 {
        q, a' := DropLeaf(p, key[d], key, a, path);
      } else {
        q, a' := p, a;
      }
    }

    /** Deletes below a child and writes its slot. */
    method EraseBelow(p: Ptr, child: Ptr, key: Key, d: nat, ghost a: Art, ghost path: Key) returns (ghost a': Art)
      requires Linked() && Holds(s, p, a, path) && LeadsTo(a, path, key) && a.Inner?
      requires d == |path| + a.prefixLength < |key| && Shape(a) && key[d] in a.children && a.children[key[d]].Inner?
      requires Holds(s, child, a.children[key[d]], Stem(a, path) + [key[d]])
      requires LeadsTo(a.children[key[d]], NextPath(path, key, d), key) && NextPath(path, key, d) == Stem(a, path) + [key[d]]
      modifies this`nodes, this`s, nodes.Values
      ensures Linked() && fresh(nodes.Values - old(nodes.Values)) && s.leaf == old(s).leaf
      ensures Holds(s, p, a', path) && KeySet(a') == KeySet(a) - {key} && SameOutside(old(s), s, path)
      decreases a, 0
    {
      ghost var s0, stem := s, Stem(a, path);
      var b := key[d];
      OkHeld(s, p, a, path);
      var c;
      ghost var ac;
      c, ac := EraseFrom(child, key, d + 1, a.children[b], stem + [b]);
      LeafHeld(s, c, ac, stem + [b]);
      a' := Reattach(s0, p, b, c, a, path, ac);
      ChildErased(a, path, key, b, ac);
    }

    /** Deletes the key, if the tree holds it. */
    method Erase(key: Key)
      requires Valid() && PrefixFree(Stored(tree) + {key})
      modifies this, nodes.Values
      ensures Valid() && fresh(nodes.Values - old(nodes.Values)) && Contents() == old(Contents()) - {key}
      ensures Stored(tree) == old(Stored(tree)) - {key}
    {
      ghost var tree0 := tree;
      if root != 0 {
        LeafHeld(s, root, tree.value, []);
        if IsLeaf(root) {
          EraseRootLeaf(key);
        } else {
          EraseBelowRoot(key);
        }
      }
      ContentsWithout(tree0, tree, s.leaf, key);
    }

    method EraseRootLeaf(key: Key)
      requires Valid() && tree.Some? && root != 0 && tree.value.Leaf? && PrefixFree(Stored(tree) + {key})
      modifies this`root, this`tree
      ensures Valid() && Stored(tree) == old(Stored(tree)) - {key}
    {
      LeafHeld(s, root, tree.value, []);
      RootLeads(s, root, tree.value, key);
      var found := CheckLeaf(root, key, 0, tree.value, []);
      if found != 0 {
        root, tree := 0, Nodes.None;
      }
    }

    method EraseBelowRoot(key: Key)
      requires Valid() && tree.Some? && root != 0 && tree.value.Inner? && PrefixFree(Stored(tree) + {key})
      modifies this, nodes.Values
      ensures Valid() && fresh(nodes.Values - old(nodes.Values)) && s.leaf == old(s).leaf
      ensures Stored(tree) == old(Stored(tree)) - {key}
    {
      RootLeads(s, root, tree.value, key);
      ghost var a;
      root, a := EraseFrom(root, key, 0, tree.value, []);
      tree := Nodes.Some(a);
    }

    static lemma ContentsWithout(t: Nodes.Option<Art>, t': Nodes.Option<Art>, leaf: map<Key, Ptr>, key: Key)
      requires Stored(t') == Stored(t) - {key}
      ensures ContentsOf(t', leaf) == ContentsOf(t, leaf) - {key}
    {
    }
  }
}
