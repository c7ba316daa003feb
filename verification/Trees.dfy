/** The B-tree as a value: pages by address, with the invariants that tie parents to children. */
module Trees {
  import opened Bytes
  import opened Layout
  import opened Nodes

  /** The pages by address, the root's address, each page's height above the leaves, each page's parent,
      and a bound on all key and payload lengths. */
  datatype Tree = Tree(root: Address, nodes: map<Address, Node>, level: map<Address, nat>, parent: map<Address, Address>, longest: nat)

  // ---- children ----

  function ChildAt(n: Node, i: nat): Address
    requires i <= |n.entries|
  {
    if i == |n.entries| then n.upperChild else DecodePtr(n.entries[i].payload)
  }

  /** The neighbouring separators of child i, the node's own fences at the ends. */
  function LowerOf(n: Node, i: nat): Key
    requires i <= |n.entries|
  {
    if i == 0 then n.lower else n.entries[i - 1].key
  }

  function UpperOf(n: Node, i: nat): Key
    requires i <= |n.entries|
  {
    if i == |n.entries| then n.upper else n.entries[i].key
  }

  ghost predicate HasChild(n: Node, c: Address) {
    exists i: nat :: IsChildAt(n, i, c)
  }

  ghost predicate IsChildAt(n: Node, i: nat, c: Address) {
    i <= |n.entries| && ChildAt(n, i) == c
  }

  // ---- the invariant ----

  ghost predicate KeysAtMost(n: Node, m: nat) {
    && |n.lower| <= m && |n.upper| <= m
    && forall i | 0 <= i < |n.entries| :: EntryAtMost(n, i, m)
  }

  /** Leaf entries are bounded by key and payload together, inner ones by the key; an inner payload is a pointer. */
  ghost predicate EntryAtMost(n: Node, i: nat, m: nat)
    requires i < |n.entries|
  {
    if n.isLeaf then |n.entries[i].key| + |n.entries[i].payload| <= m
    else 0 < |n.entries[i].key| <= m && |n.entries[i].payload| == CHILD_BYTES
  }

  ghost predicate PageOk(n: Node, m: nat) {
    Ordered(n) && Fits(n) && KeysAtMost(n, m)
  }

  /** A page's place: the root is unbounded, every other page is a child of the parent recorded for it. */
  ghost predicate PlaceOk(t: Tree, a: Address) {
    && a in t.nodes && a in t.level && a in t.parent && t.root in t.level && a != 0
    && (t.nodes[a].isLeaf <==> t.level[a] == 0)
    && (a == t.root ==> t.nodes[a].lower == [] && t.nodes[a].upper == [])
    && (a != t.root ==> t.level[a] < t.level[t.root] && t.parent[a] in t.nodes && !t.nodes[t.parent[a]].isLeaf
                        && HasChild(t.nodes[t.parent[a]], a))
  }

  ghost predicate NodeOk(t: Tree, a: Address) {
    a in t.nodes && PageOk(t.nodes[a], t.longest) && PlaceOk(t, a)
  }

  /** Child i of a is one level below, belongs to no other page, and its fences are the neighbouring separators. */
  ghost predicate ChildOk(t: Tree, a: Address, i: nat) {
    && a in t.nodes && i <= |t.nodes[a].entries|
    && var c := ChildAt(t.nodes[a], i);
      && c in t.nodes && c in t.level && a in t.level && c in t.parent
      && t.level[c] + 1 == t.level[a] && t.parent[c] == a && c != t.root
      && t.nodes[c].lower == LowerOf(t.nodes[a], i) && t.nodes[c].upper == UpperOf(t.nodes[a], i)
  }

  ghost predicate HasChildIndex(t: Tree, a: Address, i: nat) {
    a in t.nodes && !t.nodes[a].isLeaf && i <= |t.nodes[a].entries|
  }

  ghost predicate WellFormed(t: Tree) {
    && t.root in t.nodes && t.root in t.level && t.longest <= MaxKVSize()
    && (forall a {:trigger NodeOk(t, a)} | a in t.nodes :: NodeOk(t, a))
    && (forall a, i: nat {:trigger ChildOk(t, a, i)} | HasChildIndex(t, a, i) :: ChildOk(t, a, i))
  }

  lemma PlaceIs(t: Tree, a: Address)
    requires WellFormed(t) && a in t.nodes
    ensures PlaceOk(t, a)
  {
    assert NodeOk(t, a);
  }

  // ---- descent ----

  /** The child an inner page sends k to. */
  ghost function ChildFor(n: Node, k: Key): Address
    requires Sorted(n.entries)
  {
    ChildAt(n, LowerBound(n.entries, k))
  }

  /** The page reached after d steps down from the root. */
  ghost function At(t: Tree, k: Key, d: nat): Address {
    if d == 0 then t.root
    else
      var a := At(t, k, d - 1);
      if a in t.nodes && Sorted(t.nodes[a].entries) then ChildFor(t.nodes[a], k) else a
  }

  ghost predicate Covers(t: Tree, a: Address, k: Key) {
    a in t.nodes && Within(t.nodes[a].lower, t.nodes[a].upper, k)
  }

  /** k lies between the separators around its child. */
  lemma ChildCovers(n: Node, k: Key, i: nat)
    requires Within(n.lower, n.upper, k) && IsLowerBound(n.entries, k, i)
    ensures Within(LowerOf(n, i), UpperOf(n, i), k)
  {
  }

  lemma RouteOk(t: Tree, a: Address, k: Key)
    requires WellFormed(t) && Covers(t, a, k) && !t.nodes[a].isLeaf
    ensures NodeOk(t, a) && var c := ChildFor(t.nodes[a], k);
      c in t.nodes && NodeOk(t, c) && t.level[c] + 1 == t.level[a] && t.parent[c] == a && Covers(t, c, k)
  {
    assert NodeOk(t, a);
    var i := LowerBound(t.nodes[a].entries, k);
    assert HasChildIndex(t, a, i);
    assert ChildOk(t, a, i);
    ChildCovers(t.nodes[a], k, i);
    assert NodeOk(t, ChildFor(t.nodes[a], k));
  }

  /** Every step of the descent stays on pages that cover the key. */
  lemma {:induction false} PathOk(t: Tree, k: Key, d: nat)
    requires WellFormed(t) && d <= t.level[t.root]
    ensures NodeOk(t, At(t, k, d)) && t.level[At(t, k, d)] == t.level[t.root] - d && Covers(t, At(t, k, d), k)
  {
    if d == 0 {
      assert NodeOk(t, t.root);
    } else {
      PathOk(t, k, d - 1);
      RouteOk(t, At(t, k, d - 1), k);
    }
  }

  /** parent and pos say where node hangs: parent is 0 for the root. */
  ghost predicate HangsAt(t: Tree, node: Address, parent: Address, pos: nat) {
    if node == t.root then parent == 0
    else parent in t.nodes && node in t.parent && parent == t.parent[node] && IsChildAt(t.nodes[parent], pos, node)
  }

  /** node is the page d steps down the path of k. */
  ghost predicate Reached(t: Tree, k: Key, d: nat, node: Address) {
    && node == At(t, k, d) && Covers(t, node, k) && node in t.level && t.root in t.level
    && t.level[node] + d == t.level[t.root] && (t.nodes[node].isLeaf <==> t.level[node] == 0)
  }

  lemma StepDown(t: Tree, k: Key, d: nat, node: Address, pos: nat, child: Address)
    requires WellFormed(t) && Reached(t, k, d, node) && !t.nodes[node].isLeaf
    requires Sorted(t.nodes[node].entries) && pos == LowerBound(t.nodes[node].entries, k) && IsChildAt(t.nodes[node], pos, child)
    ensures Reached(t, k, d + 1, child) && child != t.root && HangsAt(t, child, node, pos)
  {
    RouteOk(t, node, k);
    assert HasChildIndex(t, node, pos);
    assert ChildOk(t, node, pos);
  }

  /** A page covering k whose parent is p is the child p sends k to. */
  lemma ChildOfCovers(n: Node, k: Key, i: nat)
    requires Ordered(n) && i <= |n.entries|
    requires Within(LowerOf(n, i), UpperOf(n, i), k)
    requires forall j | 0 <= j < |n.entries| :: n.entries[j].key != []
    ensures IsLowerBound(n.entries, k, i) && Within(n.lower, n.upper, k)
  {
    if i > 0 {
      AllBelow(n.entries, k, i - 1);
      assert Within(n.lower, n.upper, n.entries[i - 1].key);
      if n.lower != [] { LessTrans(n.lower, n.entries[i - 1].key, k); }
    }
    if i < |n.entries| {
      AllAbove(n.entries, k, i);
      assert Within(n.lower, n.upper, n.entries[i].key);
      if n.upper != [] { LessEqTrans(k, n.entries[i].key, n.upper); }
    }
  }

  /** The descent for a key reaches every page that covers it: pages of one level never overlap. */
  lemma {:induction false} Located(t: Tree, a: Address, k: Key)
    requires WellFormed(t) && Covers(t, a, k)
    ensures NodeOk(t, a) && t.level[a] <= t.level[t.root] && At(t, k, t.level[t.root] - t.level[a]) == a
    decreases if NodeOk(t, a) then t.level[t.root] - t.level[a] else 0
  {
    assert NodeOk(t, a);
    if a != t.root {
      var p := t.parent[a];
      assert NodeOk(t, p);
      var i: nat :| IsChildAt(t.nodes[p], i, a);
      assert HasChildIndex(t, p, i);
      assert ChildOk(t, p, i);
      forall j | 0 <= j < |t.nodes[p].entries| ensures t.nodes[p].entries[j].key != [] {
        assert EntryAtMost(t.nodes[p], j, t.longest);
      }
      ChildOfCovers(t.nodes[p], k, i);
      Located(t, p, k);
      LowerBoundUnique(t.nodes[p].entries, k, i, LowerBound(t.nodes[p].entries, k));
    }
  }

  /** How far down the path of k a page covering it is: not a leaf's depth unless it is one. */
  lemma DepthOf(t: Tree, a: Address, k: Key) returns (d: nat)
    requires WellFormed(t) && Covers(t, a, k)
    ensures At(t, k, d) == a && a in t.level && t.level[a] + d == t.level[t.root] && (t.nodes[a].isLeaf <==> t.level[a] == 0)
  {
    Located(t, a, k);
    d := t.level[t.root] - t.level[a];
  }

  // ---- contents ----

  ghost function LeafFor(t: Tree, k: Key): Address
    requires t.root in t.level
  {
    At(t, k, t.level[t.root])
  }

  lemma LeafOk(t: Tree, k: Key)
    requires WellFormed(t)
    ensures NodeOk(t, t.root) && NodeOk(t, LeafFor(t, k)) && t.nodes[LeafFor(t, k)].isLeaf && Covers(t, LeafFor(t, k), k)
  {
    assert NodeOk(t, t.root);
    PathOk(t, k, t.level[t.root]);
  }

  /** The leaf for a key is the only leaf that covers it. */
  lemma LeafIs(t: Tree, a: Address, k: Key)
    requires WellFormed(t) && Covers(t, a, k) && t.nodes[a].isLeaf
    ensures t.root in t.level && LeafFor(t, k) == a
  {
    Located(t, a, k);
  }

  ghost function Get(m: map<Key, seq<Byte>>, k: Key): Option<seq<Byte>> {
    if k in m then Some(m[k]) else None
  }

  ghost predicate AnswersAt(t: Tree, m: map<Key, seq<Byte>>, k: Key) {
    && t.root in t.level && LeafFor(t, k) in t.nodes && Sorted(t.nodes[LeafFor(t, k)].entries)
    && Lookup(t.nodes[LeafFor(t, k)].entries, k) == Get(m, k)
  }

  /** Looking any key up in its leaf answers like the map. */
  ghost predicate Answers(t: Tree, m: map<Key, seq<Byte>>) {
    forall k: Key :: AnswersAt(t, m, k)
  }
}
