/** The adaptive radix tree as a value: path compression with only nine stored prefix bytes, insert, erase, lookup. */
module RadixTree {
  import opened Hiding
  import opened Bytes
  import opened Nodes

  /** Bytes of a compressed path a node stores; the rest is read from a key below. */
  const MAX_PREFIX := 9

  datatype Kind = Node4 | Node16 | Node48 | Node256

  /** A leaf stands for its tuple, whose key loadKey reads. An inner node keeps at most nine bytes of its path. */
  datatype Art = Leaf(key: Key) | Inner(kind: Kind, prefixLength: nat, prefix: seq<Byte>, children: map<Byte, Art>)

  function Min(a: nat, b: nat): nat {
    if a < b then a else b
  }

  function Take(k: Key, n: nat): Key {
    if n <= |k| then k[..n] else k
  }

  // ---- shape ----

  /** Sizes a node of each kind may have between operations: growth happens when full, shrinking at fixed counts. */
  predicate CountOk(kind: Kind, n: nat) {
    match kind
    case Node4 => 2 <= n <= 4
    case Node16 => 4 <= n <= 16
    case Node48 => 13 <= n <= 48
    case Node256 => 38 <= n <= 256
  }

  ghost predicate Shape(t: Art) {
    t.Inner? ==> CountOk(t.kind, |t.children|) && forall b | b in t.children :: Shape(t.children[b])
  }

  /** The least byte from n on with a child. */
  function FirstByte(ch: map<Byte, Art>, n: Byte): (b: Byte)
    requires exists b | b in ch :: n <= b
    ensures b in ch && n <= b && forall c | c in ch && n <= c :: b <= c
    decreases 256 - n
  {
    if n in ch then n else FirstByte(ch, n + 1)
  }

  /** The key of the leftmost leaf. */
  function Minimum(t: Art): Key
    requires Shape(t)
  {
    match t
    case Leaf(k) => k
    case Inner(_, _, _, ch) =>
      NonEmpty(ch);
      Minimum(ch[FirstByte(ch, 0)])
  }

  lemma NonEmpty(ch: map<Byte, Art>)
    requires |ch| > 0
    ensures exists b :: b in ch && 0 <= b
  {
    assert |ch.Keys| == |ch|;
    var b :| b in ch.Keys;
  }

  ghost function KeySet(t: Art): set<Key> {
    match t
    case Leaf(k) => {k}
    case Inner(_, _, _, ch) => set b, k | b in ch && k in KeySet(ch[b]) :: k
  }

  /** The whole compressed path of an inner node that is reached by path, as its leftmost key spells it. */
  ghost function FullPrefix(t: Art, path: Key): Key
    requires Shape(t) && t.Inner?
  {
    Take(Drop(Minimum(t), |path|), t.prefixLength)
  }

  function Drop(k: Key, n: nat): Key {
    if n <= |k| then k[n..] else []
  }

  /** Every key below starts with path; a node stores the first nine bytes of its compressed path; the next byte
      leads to the child. */
  ghost predicate Ok(t: Art, path: Key) {
    Shape(t) &&
    match t
    case Leaf(k) => path <= k
    case Inner(_, n, p, ch) =>
      var full := FullPrefix(t, path);
      |full| == n && p == Take(full, MAX_PREFIX) && forall b | b in ch :: Ok(ch[b], path + full + [b])
  }

  ghost predicate Disjoint(a: Key, b: Key) {
    a <= b || b <= a ==> a == b
  }

  /** No key is a proper prefix of another. */
  ghost predicate PrefixFree(ks: set<Key>) {
    forall a, b {:trigger Disjoint(a, b)} | a in ks && b in ks :: Disjoint(a, b)
  }

  // ---- keys below a node ----

  lemma {:induction false} KeysStart(t: Art, path: Key, k: Key)
    requires Ok(t, path) && k in KeySet(t)
    ensures path <= k
    decreases t
  {
    if t.Inner? {
      var b :| b in t.children && k in KeySet(t.children[b]);
      KeysStart(t.children[b], path + FullPrefix(t, path) + [b], k);
      assert path <= path + FullPrefix(t, path) + [b];
    }
  }

  /** A key below an inner node spells the node's path and then the byte of the child it is below. */
  lemma KeysBelow(t: Art, path: Key, k: Key)
    requires Ok(t, path) && t.Inner? && k in KeySet(t)
    ensures var d := |path| + t.prefixLength;
      |FullPrefix(t, path)| == t.prefixLength && d < |k| && k[..d] == path + FullPrefix(t, path) && k[d] in t.children && k in KeySet(t.children[k[d]])
  {
    var full := FullPrefix(t, path);
    var b :| b in t.children && k in KeySet(t.children[b]);
    KeysStart(t.children[b], path + full + [b], k);
    var d := |path| + t.prefixLength;
    assert (path + full + [b])[d] == b && (path + full + [b])[..d] == path + full;
    assert k[..d + 1] == path + full + [b];
    assert k[d] == k[..d + 1][d] && k[..d] == k[..d + 1][..d];
  }

  lemma {:induction false} MinimumIn(t: Art)
    requires Shape(t)
    ensures Minimum(t) in KeySet(t)
  {
    if t.Inner? {
      NonEmpty(t.children);
      MinimumIn(t.children[FirstByte(t.children, 0)]);
    }
  }

  /** A key of a set without prefixes that starts another one is that one. */
  lemma NoPrefix(ks: set<Key>, a: Key, b: Key)
    requires PrefixFree(ks) && a in ks && b in ks && |a| <= |b| && forall i | 0 <= i < |a| :: a[i] == b[i]
    ensures a == b
  {
    assert a == b[..|a|];
    assert Disjoint(a, b);
  }

  /** The leftmost key spells the compressed path. */
  lemma MinimumSpells(t: Art, path: Key)
    requires Ok(t, path) && t.Inner?
    ensures var d, full := |path| + t.prefixLength, FullPrefix(t, path);
      |full| == t.prefixLength && d < |Minimum(t)| && Minimum(t)[..d] == path + full
      && forall i | 0 <= i < t.prefixLength :: Minimum(t)[|path| + i] == full[i]
  {
    MinimumIn(t);
    KeysBelow(t, path, Minimum(t));
    var d, full := |path| + t.prefixLength, FullPrefix(t, path);
    forall i | 0 <= i < t.prefixLength ensures Minimum(t)[|path| + i] == full[i] {
      assert Minimum(t)[..d][|path| + i] == (path + full)[|path| + i];
    }
  }

  /** The key's bytes so far lead to t, and it is no prefix of a key below and has none there as a prefix; unfolded
      only where Leads is mentioned. */
  ghost predicate LeadsTo(t: Art, path: Key, key: Key) {
    forall u: Unfold :: Leads(u, t, path, key)
  }

  ghost predicate Leads(u: Unfold, t: Art, path: Key, key: Key) {
    Ok(t, path) && PrefixFree(KeySet(t) + {key}) && path <= key
  }

  /** What an inner node on the key's way stores. */
  lemma NodeStores(t: Art, path: Key, key: Key)
    requires LeadsTo(t, path, key) && t.Inner?
    ensures Shape(t) && |FullPrefix(t, path)| == t.prefixLength && t.prefix == Take(FullPrefix(t, path), MAX_PREFIX)
    ensures |path| + t.prefixLength < |Minimum(t)| && |path| <= |key|
    ensures forall i | 0 <= i < t.prefixLength :: Minimum(t)[|path| + i] == FullPrefix(t, path)[i]
  {
    assert Leads(Unfold, t, path, key);
    MinimumSpells(t, path);
  }

  /** From depth on the key spells the first pos bytes of full. */
  ghost predicate Spells(key: Key, depth: nat, full: Key, pos: nat) {
    depth + pos <= |key| && pos <= |full| && forall i | 0 <= i < pos :: key[depth + i] == full[i]
  }

  lemma SpellsIs(path: Key, key: Key, full: Key, pos: nat)
    requires path <= key && Spells(key, |path|, full, pos)
    ensures path + full[..pos] <= key
  {
    forall i | 0 <= i < |path| + pos ensures (path + full[..pos])[i] == key[i] {
      if i < |path| { assert key[..|path|][i] == path[i]; } else { assert key[|path| + (i - |path|)] == full[i - |path|]; }
    }
  }

  /** A key that spells part of a node's path goes on after it. */
  lemma SpellsOn(t: Art, path: Key, key: Key, pos: nat)
    requires LeadsTo(t, path, key) && t.Inner? && Shape(t)
    requires Spells(key, |path|, FullPrefix(t, path), pos)
    ensures |path| + pos < |key|
  {
    assert Leads(Unfold, t, path, key);
    MinimumIn(t);
    MinimumSpells(t, path);
    if |key| == |path| + pos {
      KeysStart(t, path, Minimum(t));
      forall i | 0 <= i < |key| ensures key[i] == Minimum(t)[i] {
        if i < |path| { assert path[i] == key[i] == Minimum(t)[i]; } else { assert key[|path| + (i - |path|)] == FullPrefix(t, path)[i - |path|]; }
      }
      NoPrefix(KeySet(t) + {key}, key, Minimum(t));
    }
  }

  // ---- lookup ----

  /** Compares what is left of the key with the leaf's. */
  method LeafMatches(leafKey: Key, key: Key, depth: nat, ghost path: Key) returns (matches: bool)
    requires Disjoint(leafKey, key) && path <= key && path <= leafKey && |path| == depth
    ensures matches <==> leafKey == key
  {
    var i := depth;
    assert forall j | 0 <= j < depth :: leafKey[j] == path[j] == key[j];
    while i < |key|
      invariant depth <= i <= |key| && i <= |leafKey| && forall j | 0 <= j < i :: leafKey[j] == key[j]
    {
      StaysInside(leafKey, key, i);
      if leafKey[i] != key[i] {
        return false;
      }
      i := i + 1;
    }
    assert key == leafKey[..i];
    return true;
  }

  /** Where two keys agree, the one does not end before the other unless they are equal. */
  lemma StaysInside(leafKey: Key, key: Key, i: nat)
    requires Disjoint(leafKey, key) && i < |key| && i <= |leafKey| && forall j | 0 <= j < i :: leafKey[j] == key[j]
    ensures i < |leafKey|
  {
    if leafKey != key { NotPrefixes(leafKey, key, i); }
  }

  /** A key that is in a node's tree is in the child its next byte leads to. */
  lemma InChild(t: Art, path: Key, key: Key)
    requires Ok(t, path) && t.Inner? && |FullPrefix(t, path)| == t.prefixLength
    requires path + FullPrefix(t, path) <= key && |path| + t.prefixLength < |key|
    ensures var b := key[|path| + t.prefixLength];
      key in KeySet(t) <==> b in t.children && key in KeySet(t.children[b])
  {
    if key in KeySet(t) { KeysBelow(t, path, key); }
  }

  /** A key in the tree matches every compressed path on its way. */
  lemma KeysMatch(t: Art, path: Key, key: Key, pos: nat)
    requires Ok(t, path) && t.Inner? && |FullPrefix(t, path)| == t.prefixLength && pos < t.prefixLength && key in KeySet(t)
    ensures |path| + pos < |key| && key[|path| + pos] == FullPrefix(t, path)[pos]
  {
    KeysBelow(t, path, key);
    assert key[..|path| + t.prefixLength][|path| + pos] == (path + FullPrefix(t, path))[|path| + pos];
  }

  lemma PathGrows(path: Key, full: Key, key: Key)
    requires path + full <= key && |path| + |full| < |key|
    ensures key[..|path| + |full| + 1] == path + full + [key[|path| + |full|]]
  {
  }

  lemma ChildLeads(t: Art, path: Key, key: Key, b: Byte, next: Key)
    requires LeadsTo(t, path, key) && t.Inner? && Shape(t) && b in t.children
    requires next == path + FullPrefix(t, path) + [b] && next <= key
    ensures LeadsTo(t.children[b], next, key)
  {
    assert Leads(Unfold, t, path, key);
    var below := KeySet(t.children[b]);
    assert below <= KeySet(t);
    forall x, y | x in below + {key} && y in below + {key} ensures Disjoint(x, y) {}
    forall u: Unfold ensures Leads(u, t.children[b], next, key) {}
  }

  /** A key that matches the whole compressed path is below the child its next byte leads to, or nowhere. */
  lemma Step(t: Art, path: Key, key: Key)
    requires LeadsTo(t, path, key) && t.Inner? && Shape(t) && |path| + t.prefixLength < |key|
    requires Spells(key, |path|, FullPrefix(t, path), t.prefixLength)
    ensures var d := |path| + t.prefixLength;
      && (key in KeySet(t) <==> key[d] in t.children && key in KeySet(t.children[key[d]]))
      && (key[d] in t.children ==> LeadsTo(t.children[key[d]], NextPath(path, key, d), key))
      && NextPath(path, key, d) == path + FullPrefix(t, path) + [key[d]] && path + FullPrefix(t, path) + [key[d]] <= key
  {
    assert Leads(Unfold, t, path, key);
    var full, d := FullPrefix(t, path), |path| + t.prefixLength;
    SpellsIs(path, key, full, t.prefixLength);
    assert full[..t.prefixLength] == full;
    PathGrows(path, full, key);
    InChild(t, path, key);
    if key[d] in t.children {
      ChildLeads(t, path, key, key[d], NextPath(path, key, d));
    }
  }

  lemma AtLeaf(t: Art, path: Key, key: Key)
    requires LeadsTo(t, path, key) && t.Leaf?
    ensures Disjoint(t.key, key) && path <= t.key && path <= key
  {
    assert Leads(Unfold, t, path, key);
  }

  ghost function NextPath(path: Key, key: Key, depth: nat): (next: Key)
    requires depth < |key|
    ensures |next| == depth + 1 && next <= key
  {
    key[..depth + 1]
  }

  lemma Misses(t: Art, path: Key, key: Key, pos: nat)
    requires LeadsTo(t, path, key) && t.Inner? && Shape(t) && pos < t.prefixLength == |FullPrefix(t, path)|
    requires |path| + pos < |key| && key[|path| + pos] != FullPrefix(t, path)[pos]
    ensures key !in KeySet(t)
  {
    assert Leads(Unfold, t, path, key);
    if key in KeySet(t) { KeysMatch(t, path, key, pos); }
  }

  // ---- building nodes ----

  ghost predicate ChildrenOk(ch: map<Byte, Art>, stem: Key) {
    forall b | b in ch :: Ok(ch[b], stem + [b])
  }

  lemma ChildrenAreOk(t: Art, path: Key)
    requires Ok(t, path) && t.Inner?
    ensures ChildrenOk(t.children, path + FullPrefix(t, path)) && |FullPrefix(t, path)| == t.prefixLength
    ensures t.prefix == Take(FullPrefix(t, path), MAX_PREFIX) && CountOk(t.kind, |t.children|)
  {
  }

  lemma MinimumBelow(t: Art, path: Key)
    requires Ok(t, path)
    ensures path <= Minimum(t)
  {
    MinimumIn(t);
    KeysStart(t, path, Minimum(t));
  }

  lemma TakeMiddle(path: Key, full: Key, rest: Key)
    ensures Take(Drop(path + full + rest, |path|), |full|) == full
  {
    assert Drop(path + full + rest, |path|) == full + rest;
  }

  /** An inner node over children that continue its path is in order. */
  lemma BuildOk(kind: Kind, path: Key, full: Key, ch: map<Byte, Art>)
    requires CountOk(kind, |ch|) && ChildrenOk(ch, path + full)
    ensures Ok(Inner(kind, |full|, Take(full, MAX_PREFIX), ch), path)
    ensures FullPrefix(Inner(kind, |full|, Take(full, MAX_PREFIX), ch), path) == full
  {
    var t := Inner(kind, |full|, Take(full, MAX_PREFIX), ch);
    assert Shape(t);
    NonEmpty(ch);
    var b := FirstByte(ch, 0);
    MinimumBelow(ch[b], path + full + [b]);
    var min := Minimum(t);
    assert min == path + full + min[|path + full|..];
    TakeMiddle(path, full, min[|path + full|..]);
  }

  lemma KeySetWith(kind: Kind, n: nat, p: seq<Byte>, ch: map<Byte, Art>, b: Byte, c: Art, key: Key)
    requires KeySet(c) == (if b in ch then KeySet(ch[b]) else {}) + {key}
    ensures KeySet(Inner(kind, n, p, ch[b := c])) == KeySet(Inner(kind, n, p, ch)) + {key}
  {
    var t', t := Inner(kind, n, p, ch[b := c]), Inner(kind, n, p, ch);
    forall k ensures k in KeySet(t') <==> k in KeySet(t) + {key} {
      if k in KeySet(t) {
        var d :| d in ch && k in KeySet(ch[d]);
        assert d in ch[b := c] && k in KeySet(ch[b := c][d]);
      }
      assert b in ch[b := c] && KeySet(ch[b := c][b]) == KeySet(c);
    }
  }

  lemma KeySetPair(kind: Kind, n: nat, p: seq<Byte>, a: Byte, x: Art, b: Byte, y: Art)
    requires a != b
    ensures KeySet(Inner(kind, n, p, map[a := x, b := y])) == KeySet(x) + KeySet(y)
  {
    var ch := map[a := x, b := y];
    assert ch[a] == x && ch[b] == y;
    forall k ensures k in KeySet(Inner(kind, n, p, ch)) <==> k in KeySet(x) + KeySet(y) {
      if k in KeySet(x) { assert a in ch && k in KeySet(ch[a]); }
      if k in KeySet(y) { assert b in ch && k in KeySet(ch[b]); }
    }
  }

  // ---- insert ----

  /** The kind a node has after one more child: full nodes grow to the next kind. */
  function Grown(kind: Kind, count: nat): Kind {
    match kind
    case Node4 => if count < 4 then Node4 else Node16
    case Node16 => if count < 16 then Node16 else Node48
    case Node48 => if count < 48 then Node48 else Node256
    case Node256 => Node256
  }

  lemma {:induction false} FewBytes(s: set<Byte>, n: nat)
    requires n <= 256 && forall b | b in s :: b < n
    ensures |s| <= n
  {
    if n > 0 {
      var r := s - {n - 1};
      FewBytes(r, n - 1);
      assert s <= r + {n - 1};
      assert |s| <= |r + {n - 1}|;
    } else {
      assert s == {};
    }
  }

  lemma GrownOk(kind: Kind, ch: map<Byte, Art>, b: Byte, c: Art)
    requires CountOk(kind, |ch|) && b !in ch
    ensures |ch[b := c]| == |ch| + 1 && CountOk(Grown(kind, |ch|), |ch| + 1)
  {
    assert ch[b := c].Keys == ch.Keys + {b};
    assert |ch[b := c].Keys| == |ch[b := c]| && |ch.Keys| == |ch|;
    FewBytes(ch[b := c].Keys, 256);
  }

  /** The bytes a stored key and a new one share from depth on. */
  method SharedBytes(existingKey: Key, key: Key, depth: nat, ghost path: Key) returns (n: nat)
    requires Disjoint(existingKey, key) && existingKey != key && path <= key && path <= existingKey && |path| == depth
    ensures depth + n < |key| && depth + n < |existingKey| && existingKey[..depth + n] == key[..depth + n]
    ensures existingKey[depth + n] != key[depth + n]
  {
    n := 0;
    assert forall i | 0 <= i < depth :: existingKey[i] == path[i] == key[i];
    NotPrefixes(existingKey, key, depth);
    while existingKey[depth + n] == key[depth + n]
      invariant 0 <= n && depth + n < |key| && depth + n < |existingKey|
      invariant forall i | 0 <= i < depth + n :: existingKey[i] == key[i]
      decreases |key| - n
    {
      n := n + 1;
      NotPrefixes(existingKey, key, depth + n);
    }
  }

  /** A leaf where another already is: a new node above both, holding the bytes they share. */
  ghost function LeafPair(t: Art, key: Key, depth: nat, n: nat): Art
    requires t.Leaf? && depth + n < |key| && depth + n < |t.key|
  {
    Inner(Node4, n, Take(key[depth..depth + n], MAX_PREFIX), map[t.key[depth + n] := t, key[depth + n] := Leaf(key)])
  }

  lemma LeafPairOk(t: Art, key: Key, depth: nat, path: Key, n: nat)
    requires Ok(t, path) && t.Leaf? && path <= key && |path| == depth
    requires depth + n < |key| && depth + n < |t.key| && t.key[..depth + n] == key[..depth + n] && t.key[depth + n] != key[depth + n]
    ensures Ok(LeafPair(t, key, depth, n), path) && KeySet(LeafPair(t, key, depth, n)) == KeySet(t) + {key}
    ensures var full := key[depth..depth + n];
      path + full + [t.key[depth + n]] <= t.key && path + full + [key[depth + n]] <= key
  {
    var a, b, full := t.key[depth + n], key[depth + n], key[depth..depth + n];
    assert path + full + [a] <= t.key by { assert t.key[..depth + n + 1] == key[..depth + n] + [a]; }
    assert path + full + [b] <= key;
    PairOk(path, full, a, t, b, Leaf(key));
    KeySetPair(Node4, n, Take(full, MAX_PREFIX), a, t, b, Leaf(key));
  }

  /** Two different keys that agree so far, neither a prefix of the other, both go on. */
  lemma NotPrefixes(a: Key, b: Key, n: nat)
    requires Disjoint(a, b) && a != b && n <= |a| && n <= |b| && forall i | 0 <= i < n :: a[i] == b[i]
    ensures n < |a| && n < |b|
  {
    assert n == |a| ==> a <= b;
    assert n == |b| ==> b <= a;
  }

  lemma PairSize(a: Byte, x: Art, b: Byte, y: Art)
    requires a != b
    ensures |map[a := x, b := y]| == 2
  {
    var ch := map[a := x, b := y];
    assert ch.Keys == {a, b} && |ch.Keys| == |ch|;
  }

  lemma PairChildren(stem: Key, a: Byte, x: Art, b: Byte, y: Art)
    requires a != b && Ok(x, stem + [a]) && Ok(y, stem + [b])
    ensures ChildrenOk(map[a := x, b := y], stem)
  {
  }

  lemma PairOk(path: Key, full: Key, a: Byte, x: Art, b: Byte, y: Art)
    requires a != b && Ok(x, path + full + [a]) && Ok(y, path + full + [b])
    ensures Ok(Inner(Node4, |full|, Take(full, MAX_PREFIX), map[a := x, b := y]), path)
  {
    PairSize(a, x, b, y);
    PairChildren(path + full, a, x, b, y);
    BuildOk(Node4, path, full, map[a := x, b := y]);
  }

  lemma CutParts(path: Key, full: Key, pos: nat)
    requires pos < |full|
    ensures path + full[..pos] + [full[pos]] + full[pos + 1..] == path + full
  {
  }

  /** A node whose path was cut after pos bytes and one more is in order below them. */
  lemma CutOk(t: Art, path: Key, pos: nat, rest: seq<Byte>)
    requires Ok(t, path) && t.Inner? && |FullPrefix(t, path)| == t.prefixLength && pos < t.prefixLength
    requires rest == Take(FullPrefix(t, path)[pos + 1..], MAX_PREFIX)
    ensures var full := FullPrefix(t, path);
      Ok(t.(prefixLength := t.prefixLength - pos - 1, prefix := rest), path + full[..pos] + [full[pos]])
      && KeySet(t.(prefixLength := t.prefixLength - pos - 1, prefix := rest)) == KeySet(t)
  {
    var full := FullPrefix(t, path);
    ChildrenAreOk(t, path);
    CutParts(path, full, pos);
    BuildOk(t.kind, path + full[..pos] + [full[pos]], full[pos + 1..], t.children);
  }

  /** The bytes of a node's compressed path after pos, as break-up stores them: from the node while it holds the whole
      path, from the leftmost key below otherwise. */
  function AfterCut(t: Art, depth: nat, pos: nat): (Byte, seq<Byte>)
    requires Shape(t) && t.Inner? && pos < t.prefixLength && |t.prefix| == Min(t.prefixLength, MAX_PREFIX)
    requires depth + t.prefixLength < |Minimum(t)|
  {
    if t.prefixLength < MAX_PREFIX then (t.prefix[pos], t.prefix[pos + 1..])
    else
      var minKey := Minimum(t);
      (minKey[depth + pos], Take(minKey[depth + pos + 1..], Min(t.prefixLength - pos - 1, MAX_PREFIX)))
  }

  lemma AfterCutIs(t: Art, path: Key, pos: nat)
    requires Ok(t, path) && t.Inner? && pos < t.prefixLength
    ensures |FullPrefix(t, path)| == t.prefixLength && |t.prefix| == Min(t.prefixLength, MAX_PREFIX) && |path| + t.prefixLength < |Minimum(t)|
    ensures var full := FullPrefix(t, path);
      AfterCut(t, |path|, pos) == (full[pos], Take(full[pos + 1..], MAX_PREFIX))
  {
    MinimumSpells(t, path);
    if t.prefixLength >= MAX_PREFIX {
      CutLong(t, |path|, FullPrefix(t, path), pos);
    } else {
      assert t.prefix == FullPrefix(t, path);
    }
  }

  /** The stored bytes do not reach to the end of the path: the rest comes from the leftmost key. */
  lemma CutLong(t: Art, depth: nat, full: seq<Byte>, pos: nat)
    requires Shape(t) && t.Inner? && pos < t.prefixLength == |full| && |t.prefix| == Min(t.prefixLength, MAX_PREFIX) <= t.prefixLength
    requires t.prefixLength >= MAX_PREFIX && depth + t.prefixLength < |Minimum(t)|
    requires forall i | 0 <= i < |full| :: Minimum(t)[depth + i] == full[i]
    ensures AfterCut(t, depth, pos) == (full[pos], Take(full[pos + 1..], MAX_PREFIX))
  {
    SameTail(Minimum(t), full, depth, pos);
  }

  /** What follows the cut, taken from a key or from the path it starts with. */
  lemma SameTail(k: Key, full: seq<Byte>, depth: nat, pos: nat)
    requires pos < |full| && depth + |full| < |k| && forall i | 0 <= i < |full| :: k[depth + i] == full[i]
    ensures Take(k[depth + pos + 1..], Min(|full| - pos - 1, MAX_PREFIX)) == Take(full[pos + 1..], MAX_PREFIX)
  {
    var n := Min(|full| - pos - 1, MAX_PREFIX);
    assert k[depth + pos + 1..][..n] == full[pos + 1..][..n];
    assert full[pos + 1..][..|full[pos + 1..]|] == full[pos + 1..];
  }

  /** A key that leaves the compressed path after pos bytes: a new node takes the path up to there, the old one the rest. */
  ghost function Broken(t: Art, path: Key, key: Key, pos: nat): Art
    requires Shape(t) && t.Inner? && pos < t.prefixLength == |FullPrefix(t, path)| && |path| + pos < |key|
  {
    var full := FullPrefix(t, path);
    Inner(Node4, pos, Take(full[..pos], MAX_PREFIX),
          map[full[pos] := t.(prefixLength := t.prefixLength - pos - 1, prefix := Take(full[pos + 1..], MAX_PREFIX)),
              key[|path| + pos] := Leaf(key)])
  }

  lemma BrokenOk(t: Art, path: Key, key: Key, pos: nat)
    requires LeadsTo(t, path, key) && t.Inner? && Shape(t)
    requires pos < t.prefixLength == |FullPrefix(t, path)| && |path| + pos < |key|
    requires Spells(key, |path|, FullPrefix(t, path), pos) && key[|path| + pos] != FullPrefix(t, path)[pos]
    ensures Ok(Broken(t, path, key, pos), path) && KeySet(Broken(t, path, key, pos)) == KeySet(t) + {key}
  {
    assert Leads(Unfold, t, path, key);
    var full := FullPrefix(t, path);
    var b, rest := full[pos], Take(full[pos + 1..], MAX_PREFIX);
    CutOk(t, path, pos, rest);
    var node := t.(prefixLength := t.prefixLength - pos - 1, prefix := rest);
    LeafFits(path, full, key, pos);
    PairOk(path, full[..pos], b, node, key[|path| + pos], Leaf(key));
    KeySetPair(Node4, pos, Take(full[..pos], MAX_PREFIX), b, node, key[|path| + pos], Leaf(key));
  }

  lemma LeafFits(path: Key, full: Key, key: Key, pos: nat)
    requires path <= key && Spells(key, |path|, full, pos) && |path| + pos < |key|
    ensures Ok(Leaf(key), path + full[..pos] + [key[|path| + pos]])
  {
    SpellsIs(path, key, full, pos);
    PathGrows(path, full[..pos], key);
  }

  /** Replaces or adds the child for a byte. */
  lemma WithChildOk(t: Art, path: Key, b: Byte, c: Art, kind: Kind)
    requires Ok(t, path) && t.Inner? && |FullPrefix(t, path)| == t.prefixLength
    requires Ok(c, path + FullPrefix(t, path) + [b]) && CountOk(kind, |t.children[b := c]|)
    ensures Ok(t.(kind := kind, children := t.children[b := c]), path)
  {
    var full := FullPrefix(t, path);
    ChildrenAreOk(t, path);
    BuildOk(kind, path, full, t.children[b := c]);
  }

  lemma ChildReplaced(t: Art, path: Key, key: Key, b: Byte, c: Art)
    requires LeadsTo(t, path, key) && t.Inner? && Shape(t) && b in t.children
    requires Ok(c, path + FullPrefix(t, path) + [b]) && KeySet(c) == KeySet(t.children[b]) + {key}
    ensures Ok(t.(children := t.children[b := c]), path) && KeySet(t.(children := t.children[b := c])) == KeySet(t) + {key}
  {
    assert Leads(Unfold, t, path, key);
    assert t.children[b := c].Keys == t.children.Keys;
    assert |t.children[b := c].Keys| == |t.children[b := c]| && |t.children.Keys| == |t.children|;
    WithChildOk(t, path, b, c, t.kind);
    KeySetWith(t.kind, t.prefixLength, t.prefix, t.children, b, c, key);
  }

  lemma ChildAdded(t: Art, path: Key, key: Key, b: Byte)
    requires LeadsTo(t, path, key) && t.Inner? && Shape(t) && b !in t.children
    requires path + FullPrefix(t, path) + [b] <= key
    ensures var t' := t.(kind := Grown(t.kind, |t.children|), children := t.children[b := Leaf(key)]);
      Ok(t', path) && KeySet(t') == KeySet(t) + {key}
  {
    assert Leads(Unfold, t, path, key);
    GrownOk(t.kind, t.children, b, Leaf(key));
    WithChildOk(t, path, b, Leaf(key), Grown(t.kind, |t.children|));
    KeySetWith(t.kind, t.prefixLength, t.prefix, t.children, b, Leaf(key), key);
  }

  ghost function Stored(root: Option<Art>): set<Key> {
    if root.None? then {} else KeySet(root.value)
  }

  // ---- erase ----

  /** The kind a node of count children has after it loses one: nodes shrink at fixed counts. */
  function Shrunk(kind: Kind, count: nat): Kind {
    match kind
    case Node4 => Node4
    case Node16 => if count - 1 == 3 then Node4 else Node16
    case Node48 => if count - 1 == 12 then Node16 else Node48
    case Node256 => if count - 1 == 37 then Node48 else Node256
  }

  lemma ShrunkOk(kind: Kind, ch: map<Byte, Art>, b: Byte)
    requires CountOk(kind, |ch|) && b in ch
    ensures |ch - {b}| == |ch| - 1
    ensures !(kind.Node4? && |ch| == 2) ==> CountOk(Shrunk(kind, |ch|), |ch| - 1)
  {
    assert (ch - {b}).Keys == ch.Keys - {b};
    assert |(ch - {b}).Keys| == |ch - {b}| && |ch.Keys| == |ch|;
  }

  /** The stored bytes of two compressed paths and the byte between them. */
  function JoinedPrefix(n: nat, p: seq<Byte>, b: Byte, childPrefix: seq<Byte>): seq<Byte>
    requires |p| == Min(n, MAX_PREFIX)
  {
    if n < MAX_PREFIX
    then p + [b] + Take(childPrefix, MAX_PREFIX - n - 1)
    else p
  }

  lemma JoinedIs(full: Key, b: Byte, childFull: Key)
    ensures JoinedPrefix(|full|, Take(full, MAX_PREFIX), b, Take(childFull, MAX_PREFIX)) == Take(full + [b] + childFull, MAX_PREFIX)
  {
    var all := full + [b] + childFull;
    var n := |full|;
    if n < MAX_PREFIX {
      var rest := MAX_PREFIX - n - 1;
      assert Take(full, MAX_PREFIX) == full;
      assert Take(Take(childFull, MAX_PREFIX), rest) == Take(childFull, rest);
      assert full + [b] + Take(childFull, rest) == Take(all, MAX_PREFIX);
    } else {
      assert full[..MAX_PREFIX] == all[..MAX_PREFIX];
    }
  }

  /** A node left with one child gives way to it; an inner child takes over the path. */
  function Collapse(t: Art, b: Byte): Art
    requires t.Inner? && b in t.children && |t.prefix| == Min(t.prefixLength, MAX_PREFIX)
  {
    var c := t.children[b];
    if c.Leaf? then c
    else Inner(c.kind, t.prefixLength + 1 + c.prefixLength, JoinedPrefix(t.prefixLength, t.prefix, b, c.prefix), c.children)
  }

  lemma JoinedOk(kind: Kind, path: Key, full: Key, b: Byte, childFull: Key, ch: map<Byte, Art>)
    requires CountOk(kind, |ch|) && ChildrenOk(ch, path + full + [b] + childFull)
    ensures Ok(Inner(kind, |full| + 1 + |childFull|, JoinedPrefix(|full|, Take(full, MAX_PREFIX), b, Take(childFull, MAX_PREFIX)), ch), path)
  {
    JoinedIs(full, b, childFull);
    assert path + full + [b] + childFull == path + (full + [b] + childFull);
    BuildOk(kind, path, full + [b] + childFull, ch);
  }

  lemma CollapseOk(t: Art, path: Key, b: Byte)
    requires Ok(t, path) && t.Inner? && b in t.children
    ensures |t.prefix| == Min(t.prefixLength, MAX_PREFIX)
    ensures Ok(Collapse(t, b), path) && KeySet(Collapse(t, b)) == KeySet(t.children[b])
  {
    var full, c := FullPrefix(t, path), t.children[b];
    if c.Inner? {
      ChildrenAreOk(c, path + full + [b]);
      JoinedOk(c.kind, path, full, b, FullPrefix(c, path + full + [b]), c.children);
    } else {
      assert path <= path + full + [b];
    }
  }

  /** Keys below other children are not touched by removing one that leaf key is the only key of. */
  lemma KeySetWithout(t: Art, path: Key, b: Byte, key: Key, kind: Kind)
    requires Ok(t, path) && t.Inner? && b in t.children && KeySet(t.children[b]) == {key}
    ensures KeySet(t.(kind := kind, children := t.children - {b})) == KeySet(t) - {key}
  {
    var t' := t.(kind := kind, children := t.children - {b});
    forall k | k in KeySet(t') ensures k in KeySet(t) - {key} {
      var d :| d in t'.children && k in KeySet(t'.children[d]);
      OnlyBelow(t, path, d, k);
      if k == key { OnlyBelow(t, path, b, key); }
    }
    forall k | k in KeySet(t) && k != key ensures k in KeySet(t') {
      var d :| d in t.children && k in KeySet(t.children[d]);
      assert d in t'.children && k in KeySet(t'.children[d]);
    }
  }

  /** A key is below one child only: the one its byte leads to. */
  lemma OnlyBelow(t: Art, path: Key, b: Byte, k: Key)
    requires Ok(t, path) && t.Inner? && b in t.children && k in KeySet(t.children[b])
    ensures |path| + t.prefixLength < |k| && k[|path| + t.prefixLength] == b && k in KeySet(t)
  {
    var full := FullPrefix(t, path);
    KeysStart(t.children[b], path + full + [b], k);
    assert (path + full + [b])[|path| + t.prefixLength] == b;
  }

  lemma WithoutChildOk(t: Art, path: Key, b: Byte)
    requires Ok(t, path) && t.Inner? && b in t.children && !(t.kind.Node4? && |t.children| == 2)
    ensures Ok(t.(kind := Shrunk(t.kind, |t.children|), children := t.children - {b}), path)
  {
    ShrunkOk(t.kind, t.children, b);
    ChildrenAreOk(t, path);
    BuildOk(Shrunk(t.kind, |t.children|), path, FullPrefix(t, path), t.children - {b});
  }

  /** Drops the leaf below b from a node: it shrinks at the fixed counts, and gives way when one child is left. */
  function EraseChild(t: Art, b: Byte): Art
    requires t.Inner? && b in t.children && CountOk(t.kind, |t.children|) && |t.prefix| == Min(t.prefixLength, MAX_PREFIX)
  {
    ShrunkOk(t.kind, t.children, b);
    var rest := t.children - {b};
    if t.kind.Node4? && |rest| == 1 then
      NonEmpty(rest);
      Collapse(t, FirstByte(rest, 0))
    else t.(kind := Shrunk(t.kind, |t.children|), children := rest)
  }

  lemma OneLeft(t: Art, b: Byte, o: Byte)
    requires t.Inner? && b in t.children && |t.children| == 2 && o in t.children && o != b
    ensures KeySet(t.(children := t.children - {b})) == KeySet(t.children[o])
  {
    var t' := t.(children := t.children - {b});
    assert t.children.Keys == {b, o} by {
      assert |t.children.Keys| == |t.children|;
      assert |t.children.Keys - {b, o}| == 0;
    }
    forall k ensures k in KeySet(t') <==> k in KeySet(t.children[o]) {
      if k in KeySet(t.children[o]) { assert o in t'.children && k in KeySet(t'.children[o]); }
    }
  }

  lemma EraseChildOk(t: Art, path: Key, b: Byte, key: Key)
    requires Ok(t, path) && t.Inner? && b in t.children && KeySet(t.children[b]) == {key}
    ensures CountOk(t.kind, |t.children|) && |t.prefix| == Min(t.prefixLength, MAX_PREFIX)
    ensures Ok(EraseChild(t, b), path) && KeySet(EraseChild(t, b)) == KeySet(t) - {key}
  {
    ChildrenAreOk(t, path);
    ShrunkOk(t.kind, t.children, b);
    var rest := t.children - {b};
    if t.kind.Node4? && |rest| == 1 {
      NonEmpty(rest);
      var o := FirstByte(rest, 0);
      CollapseOk(t, path, o);
      OneLeft(t, b, o);
      KeySetWithout(t, path, b, key, t.kind);
    } else {
      WithoutChildOk(t, path, b);
      KeySetWithout(t, path, b, key, Shrunk(t.kind, |t.children|));
    }
  }

  lemma ChildErased(t: Art, path: Key, key: Key, b: Byte, c: Art)
    requires Ok(t, path) && t.Inner? && b in t.children && |path| + t.prefixLength < |key| && key[|path| + t.prefixLength] == b
    requires Ok(c, path + FullPrefix(t, path) + [b]) && KeySet(c) == KeySet(t.children[b]) - {key}
    ensures Ok(t.(children := t.children[b := c]), path) && KeySet(t.(children := t.children[b := c])) == KeySet(t) - {key}
  {
    var t' := t.(children := t.children[b := c]);
    assert t'.children.Keys == t.children.Keys;
    assert |t'.children.Keys| == |t'.children| && |t.children.Keys| == |t.children|;
    WithChildOk(t, path, b, c, t.kind);
    KeySetReplaced(t, t', path, key, b);
  }

  lemma KeySetReplaced(t: Art, t': Art, path: Key, key: Key, b: Byte)
    requires Ok(t, path) && t.Inner? && b in t.children && |path| + t.prefixLength < |key| && key[|path| + t.prefixLength] == b
    requires t'.Inner? && t'.children.Keys == t.children.Keys && KeySet(t'.children[b]) == KeySet(t.children[b]) - {key}
    requires forall d | d in t.children && d != b :: t'.children[d] == t.children[d]
    ensures KeySet(t') == KeySet(t) - {key}
  {
    forall k | k in KeySet(t') ensures k in KeySet(t) - {key} {
      var d :| d in t'.children && k in KeySet(t'.children[d]);
      if d != b { OnlyBelow(t, path, d, k); }
    }
    OthersKept(t, t', key, b);
  }

  lemma OthersKept(t: Art, t': Art, key: Key, b: Byte)
    requires t.Inner? && t'.Inner? && b in t.children && t'.children.Keys == t.children.Keys
    requires KeySet(t'.children[b]) == KeySet(t.children[b]) - {key}
    requires forall d | d in t.children && d != b :: t'.children[d] == t.children[d]
    ensures KeySet(t) - {key} <= KeySet(t')
  {
    forall k | k in KeySet(t) && k != key ensures k in KeySet(t') {
      var d :| d in t.children && k in KeySet(t.children[d]);
      assert d in t'.children && k in KeySet(t'.children[d]);
    }
  }
}
