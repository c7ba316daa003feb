/** The four node layouts of the radix tree, each a map from the next key byte to a child pointer. */
module RadixNodes {
  import opened Bytes
  import opened Images
  import opened RadixTree
  import opened Sets

  /** A child pointer; 0 is null. */
  type Ptr = nat

  /** childIndex entry of a byte without a child. */
  const EMPTY := 48

  function Slots(kind: Kind): nat {
    match kind
    case Node4 => 4
    case Node16 => 16
    case Node48 => 48
    case Node256 => 256
  }

  /** Flips the sign bit, so that comparing as signed bytes orders the unsigned originals. */
  function FlipSign(b: Byte): Byte {
    if b < 128 then b + 128 else b - 128
  }

  function Signed(b: Byte): int {
    if b < 128 then b else b - 256
  }

  lemma FlippedOrder(a: Byte, b: Byte)
    ensures Signed(FlipSign(a)) < Signed(FlipSign(b)) <==> a < b
    ensures FlipSign(FlipSign(a)) == a
    ensures FlipSign(a) == FlipSign(b) <==> a == b
  {
  }

  /** A byte as a list stores it. */
  function Plain(flip: bool, b: Byte): Byte {
    if flip then FlipSign(b) else b
  }

  // ---- what the layouts stand for ----

  ghost predicate ListEntry(flip: bool, key: seq<Byte>, child: seq<Ptr>, i: nat, m: map<Byte, Ptr>)
    requires i < |key| == |child|
  {
    var b := Plain(flip, key[i]);
    b in m && m[b] == child[i] != 0
  }

  ghost predicate ListOrder(flip: bool, key: seq<Byte>, i: nat, j: nat)
    requires i < |key| && j < |key|
  {
    Plain(flip, key[i]) < Plain(flip, key[j])
  }

  ghost predicate ListHas(flip: bool, key: seq<Byte>, count: nat, b: Byte)
    requires count <= |key|
  {
    exists i :: 0 <= i < count && Plain(flip, key[i]) == b
  }

  /** Node4 and Node16: the bytes in use ascending, each with its child. */
  ghost predicate ListIs(flip: bool, key: seq<Byte>, child: seq<Ptr>, count: nat, m: map<Byte, Ptr>) {
    && count <= |key| == |child|
    && (forall i, j | 0 <= i < j < count :: ListOrder(flip, key, i, j))
    && (forall i | 0 <= i < count :: ListEntry(flip, key, child, i, m))
    && (forall b | b in m :: ListHas(flip, key, count, b))
  }

  ghost predicate IndexEntry(index: seq<nat>, child: seq<Ptr>, b: Byte, m: map<Byte, Ptr>)
    requires |index| == 256 && |child| == 48
  {
    && index[b] <= EMPTY && (index[b] != EMPTY <==> b in m)
    && (b in m ==> m[b] == child[index[b]] != 0)
  }

  ghost predicate IndexDistinct(index: seq<nat>, b: Byte, c: Byte)
    requires |index| == 256
  {
    index[b] == index[c] != EMPTY ==> b == c
  }

  ghost predicate Owned(index: seq<nat>, child: seq<Ptr>, i: nat)
    requires |index| == 256 && i < |child|
  {
    child[i] != 0 ==> exists b: Byte :: index[b] == i
  }

  /** Node48: each byte's entry names its child's slot; no two share one, and every slot in use is named. */
  ghost predicate IndexIs(index: seq<nat>, child: seq<Ptr>, m: map<Byte, Ptr>) {
    && |index| == 256 && |child| == 48
    && (forall b: Byte :: IndexEntry(index, child, b, m))
    && (forall b: Byte, c: Byte :: IndexDistinct(index, b, c))
    && (forall i | 0 <= i < 48 :: Owned(index, child, i))
  }

  ghost predicate DirectEntry(child: seq<Ptr>, b: Byte, m: map<Byte, Ptr>)
    requires |child| == 256
  {
    (child[b] != 0 <==> b in m) && (b in m ==> m[b] == child[b])
  }

  /** Node256: one slot a byte. */
  ghost predicate DirectIs(child: seq<Ptr>, m: map<Byte, Ptr>) {
    |child| == 256 && forall b: Byte :: DirectEntry(child, b, m)
  }

  // ---- lists ----

  lemma ListInsert(flip: bool, key: seq<Byte>, child: seq<Ptr>, count: nat, m: map<Byte, Ptr>, pos: nat, b: Byte, p: Ptr,
                   key': seq<Byte>, child': seq<Ptr>)
    requires ListIs(flip, key, child, count, m) && b !in m && p != 0 && pos <= count < |key|
    requires forall i | 0 <= i < pos :: Plain(flip, key[i]) < b
    requires pos < count ==> b < Plain(flip, key[pos])
    requires key' == MovedUp(key, pos, count)[pos := Plain(flip, b)] && child' == MovedUp(child, pos, count)[pos := p]
    ensures ListIs(flip, key', child', count + 1, m[b := p])
  {
    FlippedOrder(b, b);
    var m' := m[b := p];
    forall i | 0 <= i < count + 1 ensures ListEntry(flip, key', child', i, m') {
      if i != pos { assert ListEntry(flip, key, child, if i < pos then i else i - 1, m); }
    }
    forall i, j | 0 <= i < j < count + 1 ensures ListOrder(flip, key', i, j) {
      if i != pos && j != pos {
        assert ListOrder(flip, key, if i < pos then i else i - 1, if j < pos then j else j - 1);
      } else if i == pos && pos < j - 1 {
        assert ListOrder(flip, key, pos, j - 1);
      }
    }
    forall c | c in m' ensures ListHas(flip, key', count + 1, c) {
      if c == b {
        assert Plain(flip, key'[pos]) == b;
      } else {
        assert ListHas(flip, key, count, c);
        var i :| 0 <= i < count && Plain(flip, key[i]) == c;
        assert Plain(flip, key'[if i < pos then i else i + 1]) == c;
      }
    }
  }

  lemma ListErase(flip: bool, key: seq<Byte>, child: seq<Ptr>, count: nat, m: map<Byte, Ptr>, pos: nat,
                  key': seq<Byte>, child': seq<Ptr>)
    requires ListIs(flip, key, child, count, m) && pos < count
    requires key' == MovedDown(key, pos, count) && child' == MovedDown(child, pos, count)
    ensures ListIs(flip, key', child', count - 1, m - {Plain(flip, key[pos])})
  {
    var b := Plain(flip, key[pos]);
    forall i | 0 <= i < count - 1 ensures ListEntry(flip, key', child', i, m - {b}) {
      var i' := if i < pos then i else i + 1;
      assert ListEntry(flip, key, child, i', m);
      if i < pos { assert ListOrder(flip, key, i, pos); } else { assert ListOrder(flip, key, pos, i + 1); }
    }
    forall i, j | 0 <= i < j < count - 1 ensures ListOrder(flip, key', i, j) {
      assert ListOrder(flip, key, if i < pos then i else i + 1, if j < pos then j else j + 1);
    }
    forall c | c in m - {b} ensures ListHas(flip, key', count - 1, c) {
      assert ListHas(flip, key, count, c);
      var i :| 0 <= i < count && Plain(flip, key[i]) == c;
      assert Plain(flip, key'[if i < pos then i else i - 1]) == c;
    }
  }

  /** A list in another kind of node: same order, bytes flipped or not. */
  lemma ListRecoded(flip: bool, key: seq<Byte>, child: seq<Ptr>, count: nat, m: map<Byte, Ptr>,
                    flip': bool, key': seq<Byte>, child': seq<Ptr>)
    requires ListIs(flip, key, child, count, m) && count <= |key'| == |child'|
    requires forall i | 0 <= i < count :: Plain(flip', key'[i]) == Plain(flip, key[i]) && child'[i] == child[i]
    ensures ListIs(flip', key', child', count, m)
  {
    forall i | 0 <= i < count ensures ListEntry(flip', key', child', i, m) { assert ListEntry(flip, key, child, i, m); }
    forall i, j | 0 <= i < j < count ensures ListOrder(flip', key', i, j) { assert ListOrder(flip, key, i, j); }
    forall c | c in m ensures ListHas(flip', key', count, c) {
      assert ListHas(flip, key, count, c);
      var i :| 0 <= i < count && Plain(flip, key[i]) == c;
      assert Plain(flip', key'[i]) == c;
    }
  }

  lemma ListReplace(flip: bool, key: seq<Byte>, child: seq<Ptr>, count: nat, m: map<Byte, Ptr>, pos: nat, b: Byte, p: Ptr)
    requires ListIs(flip, key, child, count, m) && pos < count && Plain(flip, key[pos]) == b && p != 0
    ensures ListIs(flip, key, child[pos := p], count, m[b := p])
  {
    var child', m' := child[pos := p], m[b := p];
    forall i | 0 <= i < count ensures ListEntry(flip, key, child', i, m') {
      assert ListEntry(flip, key, child, i, m);
      if i < pos { assert ListOrder(flip, key, i, pos); }
      if i > pos { assert ListOrder(flip, key, pos, i); }
    }
    forall c | c in m' ensures ListHas(flip, key, count, c) {
      if c != b { assert ListHas(flip, key, count, c); }
    }
  }

  lemma ReplacedSize(m: map<Byte, Ptr>, b: Byte, p: Ptr)
    requires b in m
    ensures |m[b := p]| == |m|
  {
    assert m[b := p].Keys == m.Keys;
    assert |m[b := p].Keys| == |m[b := p]| && |m.Keys| == |m|;
  }

  // ---- the index ----

  lemma IndexInsert(index: seq<nat>, child: seq<Ptr>, m: map<Byte, Ptr>, pos: nat, b: Byte, p: Ptr)
    requires IndexIs(index, child, m) && b !in m && p != 0 && pos < 48 && child[pos] == 0
    ensures IndexIs(index[b := pos], child[pos := p], m[b := p])
  {
    var index', child', m' := index[b := pos], child[pos := p], m[b := p];
    assert IndexEntry(index, child, b, m);
    forall c: Byte ensures IndexEntry(index', child', c, m') { assert IndexEntry(index, child, c, m); }
    forall c: Byte, d: Byte ensures IndexDistinct(index', c, d) {
      assert IndexDistinct(index, c, d) && IndexEntry(index, child, c, m) && IndexEntry(index, child, d, m);
    }
    forall i | 0 <= i < 48 ensures Owned(index', child', i) {
      assert Owned(index, child, i);
      if i == pos {
        assert index'[b] == i;
      } else if child[i] != 0 {
        var c: Byte :| index[c] == i;
        assert index'[c] == i;
      }
    }
  }

  lemma IndexReplace(index: seq<nat>, child: seq<Ptr>, m: map<Byte, Ptr>, b: Byte, p: Ptr)
    requires IndexIs(index, child, m) && b in m && p != 0
    ensures index[b] < 48 && IndexIs(index, child[index[b] := p], m[b := p])
  {
    assert IndexEntry(index, child, b, m);
    var child', m' := child[index[b] := p], m[b := p];
    forall c: Byte ensures IndexEntry(index, child', c, m') {
      assert IndexEntry(index, child, c, m) && IndexDistinct(index, b, c);
    }
    forall i | 0 <= i < 48 ensures Owned(index, child', i) {
      assert Owned(index, child, i);
    }
  }

  lemma IndexErase(index: seq<nat>, child: seq<Ptr>, m: map<Byte, Ptr>, b: Byte)
    requires IndexIs(index, child, m) && b in m
    ensures index[b] < 48 && IndexIs(index[b := EMPTY], child[index[b] := 0], m - {b})
  {
    assert IndexEntry(index, child, b, m);
    var index', child', m' := index[b := EMPTY], child[index[b] := 0], m - {b};
    forall c: Byte ensures IndexEntry(index', child', c, m') {
      assert IndexEntry(index, child, c, m) && IndexDistinct(index, b, c);
    }
    forall c: Byte, d: Byte ensures IndexDistinct(index', c, d) { assert IndexDistinct(index, c, d); }
    forall i | 0 <= i < 48 ensures Owned(index', child', i) {
      assert Owned(index, child, i);
      if child'[i] != 0 {
        var c: Byte :| index[c] == i;
        assert index'[c] == i;
      }
    }
  }

  /** As many slots in use as bytes: with fewer than 48 children some slot is free. */
  lemma {:induction false} OwnersOf(index: seq<nat>, child: seq<Ptr>, m: map<Byte, Ptr>, n: nat) returns (owners: set<Byte>)
    requires IndexIs(index, child, m) && n <= 48 && forall i | 0 <= i < n :: child[i] != 0
    ensures |owners| == n && owners <= m.Keys && forall b | b in owners :: index[b] < n
  {
    owners := {};
    if n > 0 {
      owners := OwnersOf(index, child, m, n - 1);
      assert Owned(index, child, n - 1);
      var b: Byte :| index[b] == n - 1;
      assert IndexEntry(index, child, b, m);
      assert b !in owners;
      owners := owners + {b};
    }
  }

  lemma FullIndex(index: seq<nat>, child: seq<Ptr>, m: map<Byte, Ptr>)
    requires IndexIs(index, child, m) && forall i | 0 <= i < 48 :: child[i] != 0
    ensures |m| >= 48
  {
    var owners := OwnersOf(index, child, m, 48);
    SubsetSize(owners, m.Keys);
    assert |m.Keys| == |m|;
  }

  lemma FreeSlot(index: seq<nat>, child: seq<Ptr>, m: map<Byte, Ptr>)
    requires IndexIs(index, child, m) && |m| < 48
    ensures exists i :: 0 <= i < 48 && child[i] == 0
  {
    if forall i | 0 <= i < 48 :: child[i] != 0 { FullIndex(index, child, m); }
  }

  // ---- conversions ----

  /** While a list's bytes are entered into an index: the first n are there. */
  ghost predicate Entered(key: seq<Byte>, n: nat, index: seq<nat>) {
    && |index| == 256 && n <= |key|
    && (forall b: Byte :: EnteredByte(key, n, index, b))
    && (forall i | 0 <= i < n :: index[FlipSign(key[i])] == i)
  }

  ghost predicate EnteredByte(key: seq<Byte>, n: nat, index: seq<nat>, b: Byte)
    requires |index| == 256 && n <= |key|
  {
    index[b] == EMPTY || (index[b] < n && FlipSign(key[index[b]]) == b)
  }

  lemma EnterNext(key: seq<Byte>, child: seq<Ptr>, count: nat, m: map<Byte, Ptr>, n: nat, index: seq<nat>)
    requires ListIs(true, key, child, count, m) && Entered(key, n, index) && n < count <= 16
    ensures Entered(key, n + 1, index[FlipSign(key[n]) := n])
  {
    var index' := index[FlipSign(key[n]) := n];
    var n' := n + 1;
    forall b: Byte ensures EnteredByte(key, n', index', b) { assert EnteredByte(key, n, index, b); }
    forall i | 0 <= i < n + 1 ensures index'[FlipSign(key[i])] == i {
      if i < n { assert ListOrder(true, key, i, n); }
    }
  }

  lemma EnteredIs(key: seq<Byte>, child: seq<Ptr>, count: nat, m: map<Byte, Ptr>, index: seq<nat>, child': seq<Ptr>)
    requires ListIs(true, key, child, count, m) && Entered(key, count, index) && count <= 16
    requires |child'| == 48 && forall i | 0 <= i < 48 :: child'[i] == if i < count then child[i] else 0
    ensures IndexIs(index, child', m)
  {
    forall b: Byte ensures IndexEntry(index, child', b, m) {
      assert EnteredByte(key, count, index, b);
      if index[b] != EMPTY {
        assert ListEntry(true, key, child, index[b], m);
      }
      if b in m {
        assert ListHas(true, key, count, b);
      }
    }
    forall b: Byte, c: Byte ensures IndexDistinct(index, b, c) {
      assert EnteredByte(key, count, index, b) && EnteredByte(key, count, index, c);
    }
    forall i | 0 <= i < 48 ensures Owned(index, child', i) {
      if i < count { assert index[FlipSign(key[i])] == i; }
    }
  }

  /** The children of the bytes below n. */
  ghost function Below(m: map<Byte, Ptr>, n: nat): map<Byte, Ptr> {
    map b: Byte | b in m && b < n :: m[b]
  }

  lemma OneMore(m: map<Byte, Ptr>, b: Byte, p: Ptr)
    requires b !in m
    ensures |m[b := p]| == |m| + 1
  {
    assert m[b := p].Keys == m.Keys + {b};
    assert |m[b := p].Keys| == |m[b := p]| && |m.Keys| == |m|;
  }

  lemma OneLess(m: map<Byte, Ptr>, b: Byte)
    requires b in m
    ensures |m - {b}| == |m| - 1
  {
    assert (m - {b}).Keys == m.Keys - {b};
    assert |(m - {b}).Keys| == |m - {b}| && |m.Keys| == |m|;
  }

  lemma BelowNext(m: map<Byte, Ptr>, n: Byte)
    ensures n !in Below(m, n)
    ensures Below(m, n + 1) == if n in m then Below(m, n)[n := m[n]] else Below(m, n)
  {
  }

  lemma BelowSize(m: map<Byte, Ptr>, n: nat)
    ensures |Below(m, n)| <= |m|
  {
    assert |Below(m, n).Keys| == |Below(m, n)| && |m.Keys| == |m|;
    SubsetSize(Below(m, n).Keys, m.Keys);
  }

  lemma BelowAll(m: map<Byte, Ptr>)
    ensures Below(m, 0) == map[] && Below(m, 256) == m
  {
  }

  /** Indexed children from b on move into a direct array. */
  ghost predicate Spread(index: seq<nat>, child: seq<Ptr>, n: nat, direct: seq<Ptr>)
    requires |index| == 256 && |child| == 48
  {
    |direct| == 256 && forall b: Byte :: direct[b] == if b < n && index[b] < 48 then child[index[b]] else 0
  }

  lemma SpreadIs(index: seq<nat>, child: seq<Ptr>, m: map<Byte, Ptr>, direct: seq<Ptr>)
    requires IndexIs(index, child, m) && Spread(index, child, 256, direct)
    ensures DirectIs(direct, m)
  {
    forall b: Byte ensures DirectEntry(direct, b, m) { assert IndexEntry(index, child, b, m); }
  }

  /** What a node's layout stands for. */
  datatype NodeView = NodeView(kind: Kind, prefixLength: nat, prefix: seq<Byte>, children: map<Byte, Ptr>)

  class Node {
    var kind: Kind
    var count: nat
    var prefixLength: nat
    var prefix: seq<Byte>
    /** Node4 and Node16: the bytes in use, ascending; Node16 stores them with the sign bit flipped. */
    var key: seq<Byte>
    /** Node48: for each byte the slot of its child. */
    var childIndex: seq<nat>
    var child: seq<Ptr>
    /** The map from bytes to children the layout stands for. */
    ghost var children: map<Byte, Ptr>

    ghost predicate Layout()
      reads this
    {
      match kind
      case Node4 => ListIs(false, key, child, count, children) && |key| == 4
      case Node16 => ListIs(true, key, child, count, children) && |key| == 16
      case Node48 => IndexIs(childIndex, child, children)
      case Node256 => DirectIs(child, children)
    }

    ghost predicate Valid()
      reads this
    {
      Layout() && count == |children| <= Slots(kind)
    }

    ghost function View(): NodeView
      reads this
    {
      NodeView(kind, prefixLength, prefix, children)
    }

    ghost predicate SamePrefix(n: nat, p: seq<Byte>)
      reads this
    {
      prefixLength == n && prefix == p
    }

    /** A node without children. */
    constructor (kind: Kind)
      ensures Valid() && this.kind == kind && children == map[] && SamePrefix(0, [])
      ensures child == seq(Slots(kind), _ => 0) && childIndex == seq(256, _ => EMPTY)
    {
      this.kind, count, prefixLength, prefix := kind, 0, 0, [];
      key := seq(if kind.Node4? then 4 else 16, _ => 0);
      childIndex := seq(256, _ => EMPTY);
      child := seq(Slots(kind), _ => 0);
      children := map[];
    }

    /** The child for a byte, null if there is none. */
    method FindChild(b: Byte) returns (p: Ptr)
      requires Valid()
      ensures p == if b in children then children[b] else 0
    {
      match kind {
        case Node4 => p := FindInList(false, b);
        case Node16 => p := FindInList(true, b);
        case Node48 =>
          assert IndexEntry(childIndex, child, b, children);
          p := if childIndex[b] != EMPTY then child[childIndex[b]] else 0;
        case Node256 =>
          assert DirectEntry(child, b, children);
          p := child[b];
      }
    }

    method FindInList(flip: bool, b: Byte) returns (p: Ptr)
      requires ListIs(flip, key, child, count, children)
      ensures p == if b in children then children[b] else 0
    {
      FlippedOrder(b, b);
      for i := 0 to count
        invariant forall j | 0 <= j < i :: Plain(flip, key[j]) != b
      {
        if key[i] == Plain(flip, b) {
          assert ListEntry(flip, key, child, i, children);
          return child[i];
        }
        FlippedOrder(key[i], Plain(flip, b));
      }
      assert b in children ==> ListHas(flip, key, count, b);
      p := 0;
    }

    /** The child with the least byte. */
    method FirstChild() returns (p: Ptr)
      requires Valid() && count > 0
      ensures exists b :: b in children && children[b] == p && forall c | c in children :: b <= c
    {
      match kind {
        case Node4 => p := FirstOfList(false);
        case Node16 => p := FirstOfList(true);
        case Node48 =>
          SomeChild();
          var pos: int := 0;
          while childIndex[pos] == EMPTY
            invariant 0 <= pos < 256 && forall c: Byte | c < pos :: c !in children
            decreases 256 - pos
          {
            assert IndexEntry(childIndex, child, pos, children);
            pos := pos + 1;
          }
          assert IndexEntry(childIndex, child, pos, children);
          p := child[childIndex[pos]];
        case Node256 =>
          SomeChild();
          var pos: int := 0;
          while child[pos] == 0
            invariant 0 <= pos < 256 && forall c: Byte | c < pos :: c !in children
            decreases 256 - pos
          {
            assert DirectEntry(child, pos, children);
            pos := pos + 1;
          }
          assert DirectEntry(child, pos, children);
          p := child[pos];
      }
    }

    // ---- a child's slot ----

    /** Writes the slot findChild found for a byte. */
    method SetChild(b: Byte, p: Ptr)
      requires Valid() && b in children && p != 0
      modifies this`child, this`children
      ensures Valid() && View() == old(View()).(children := old(children)[b := p])
    {
      ReplacedSize(children, b, p);
      match kind {
        case Node4 => SetInList(false, b, p);
        case Node16 => SetInList(true, b, p);
        case Node48 =>
          IndexReplace(childIndex, child, children, b, p);
          child := child[childIndex[b] := p];
          children := children[b := p];
        case Node256 =>
          ghost var child', children' := child[b := p], children[b := p];
          forall c: Byte ensures DirectEntry(child', c, children') { assert DirectEntry(child, c, children); }
          child := child[b := p];
          children := children[b := p];
      }
    }

    method SetInList(flip: bool, b: Byte, p: Ptr)
      requires ListIs(flip, key, child, count, children) && b in children && p != 0
      modifies this`child, this`children
      ensures ListIs(flip, key, child, count, children) && children == old(children)[b := p]
    {
      var pos := PlaceOf(flip, b);
      ListReplace(flip, key, child, count, children, pos, b, p);
      child := child[pos := p];
      children := children[b := p];
    }

    lemma SomeChild()
      requires |children| > 0
      ensures exists b :: b in children
    {
      assert |children.Keys| == |children|;
    }

    method FirstOfList(flip: bool) returns (p: Ptr)
      requires ListIs(flip, key, child, count, children) && count > 0
      ensures exists b :: b in children && children[b] == p && forall c | c in children :: b <= c
    {
      p := child[0];
      assert ListEntry(flip, key, child, 0, children);
      forall c | c in children ensures Plain(flip, key[0]) <= c {
        assert ListHas(flip, key, count, c);
        var i :| 0 <= i < count && Plain(flip, key[i]) == c;
        if i > 0 { assert ListOrder(flip, key, 0, i); }
      }
    }

    // ---- insert ----

    /** Adds a child for a byte that has none; a full node is replaced by one of the next kind. */
    method Insert(b: Byte, p: Ptr) returns (node: Node)
      requires Valid() && b !in children && p != 0
      modifies this
      ensures node.Valid() && node.children == old(children)[b := p] && node.kind == Grown(old(kind), old(count))
      ensures node.kind == match old(kind)
        case Node4 => if |old(children)| < 4 then Node4 else Node16
        case Node16 => if |old(children)| < 16 then Node16 else Node48
        case Node48 => if |old(children)| < 48 then Node48 else Node256
        case Node256 => Node256
      ensures node.SamePrefix(old(prefixLength), old(prefix)) && (node == this || fresh(node))
    {
      OneMore(children, b, p);
      match kind {
        case Node4 => node := InsertNode4(b, p);
        case Node16 => node := InsertNode16(b, p);
        case Node48 => node := InsertNode48(b, p);
        case Node256 =>
          InsertNode256(b, p);
          node := this;
      }
    }

    method InsertNode4(b: Byte, p: Ptr) returns (node: Node)
      requires Valid() && kind.Node4? && b !in children && p != 0 && |children[b := p]| == count + 1
      modifies this
      ensures node.Valid() && node.children == old(children)[b := p] && node.kind == Grown(Node4, old(count))
      ensures node.SamePrefix(old(prefixLength), old(prefix)) && (node == this || fresh(node))
    {
      if count < 4 {
        var pos := 0;
        while pos < count && key[pos] < b
          invariant 0 <= pos <= count && forall i | 0 <= i < pos :: key[i] < b
        {
          pos := pos + 1;
        }
        if pos < count { assert ListEntry(false, key, child, pos, children); }
        InsertAt(false, pos, b, p);
        node := this;
      } else {
        var grown := Grow4();
        node := grown.InsertNode16(b, p);
      }
    }

    /** memmove of the bytes and children from pos on, then the new entry. */
    method InsertAt(flip: bool, pos: nat, b: Byte, p: Ptr)
      requires ListIs(flip, key, child, count, children) && b !in children && p != 0 && pos <= count < |key|
      requires |children[b := p]| == |children| + 1 && count == |children|
      requires forall i | 0 <= i < pos :: Plain(flip, key[i]) < b
      requires pos < count ==> b < Plain(flip, key[pos])
      modifies this`key, this`child, this`count, this`children
      ensures ListIs(flip, key, child, count, children) && count == old(count) + 1 == |children| && |key| == |old(key)|
      ensures children == old(children)[b := p]
    {
      ListInsert(flip, key, child, count, children, pos, b, p,
                 MovedUp(key, pos, count)[pos := Plain(flip, b)], MovedUp(child, pos, count)[pos := p]);
      key := MovedUp(key, pos, count)[pos := Plain(flip, b)];
      child := MovedUp(child, pos, count)[pos := p];
      count := count + 1;
      children := children[b := p];
    }

    method CopyPrefix(dst: Node)
      requires dst != this
      modifies dst`prefixLength, dst`prefix
      ensures dst.SamePrefix(prefixLength, prefix)
    {
      dst.prefixLength, dst.prefix := prefixLength, prefix;
    }

    /** A full Node4 as a Node16: the bytes with the sign bit flipped. */
    method Grow4() returns (node: Node)
      requires Valid() && kind.Node4? && count == 4
      ensures fresh(node) && node.Valid() && node.kind == Node16 && node.children == children && node.SamePrefix(prefixLength, prefix)
    {
      node := new Node(Node16);
      CopyPrefix(node);
      node.count := 4;
      node.key := [FlipSign(key[0]), FlipSign(key[1]), FlipSign(key[2]), FlipSign(key[3])] + node.key[4..];
      node.child := child + node.child[4..];
      node.children := children;
      forall i | 0 <= i < 4 ensures Plain(true, node.key[i]) == key[i] { FlippedOrder(key[i], key[i]); }
      ListRecoded(false, key, child, 4, children, true, node.key, node.child);
    }

    method InsertNode16(b: Byte, p: Ptr) returns (node: Node)
      requires Valid() && kind.Node16? && b !in children && p != 0 && |children[b := p]| == count + 1
      modifies this
      ensures node.Valid() && node.children == old(children)[b := p] && node.kind == Grown(Node16, old(count))
      ensures node.SamePrefix(old(prefixLength), old(prefix)) && (node == this || fresh(node))
    {
      if count < 16 {
        var pos := PlaceInNode16(b);
        InsertAt(true, pos, b, p);
        node := this;
      } else {
        var grown := Grow16();
        node := grown.InsertNode48(b, p);
      }
    }

    /** The first entry whose byte, compared as a signed byte with its sign flipped, is above b. */
    method PlaceInNode16(b: Byte) returns (pos: nat)
      requires ListIs(true, key, child, count, children) && b !in children
      ensures pos <= count && (forall i | 0 <= i < pos :: FlipSign(key[i]) < b) && (pos < count ==> b < FlipSign(key[pos]))
    {
      var flipped := FlipSign(b);
      pos := 0;
      while pos < count && !(Signed(flipped) < Signed(key[pos]))
        invariant pos <= count && forall i | 0 <= i < pos :: FlipSign(key[i]) < b
      {
        FlippedOrder(b, FlipSign(key[pos]));
        FlippedOrder(key[pos], key[pos]);
        assert ListEntry(true, key, child, pos, children);
        pos := pos + 1;
      }
      if pos < count {
        FlippedOrder(b, FlipSign(key[pos]));
        FlippedOrder(key[pos], key[pos]);
      }
    }

    /** Where each byte of a Node16 has its child. */
    method IndexOfList() returns (index: seq<nat>)
      requires ListIs(true, key, child, count, children) && count <= 16
      ensures Entered(key, count, index)
    {
      index := seq(256, _ => EMPTY);
      for i: nat := 0 to count
        invariant Entered(key, i, index)
      {
        EnterNext(key, child, count, children, i, index);
        index := index[FlipSign(key[i]) := i];
      }
    }

    /** A full Node16 as a Node48: each byte's entry names its child's old place. */
    method Grow16() returns (node: Node)
      requires Valid() && kind.Node16? && count == 16
      ensures fresh(node) && node.Valid() && node.kind == Node48 && node.children == children && node.SamePrefix(prefixLength, prefix)
      ensures node.count == count
    {
      node := new Node(Node48);
      node.child := child + node.child[16..];
      var index := IndexOfList();
      node.childIndex := index;
      CopyPrefix(node);
      node.count := count;
      node.children := children;
      EnteredIs(key, child, count, children, index, node.child);
    }

    method InsertNode48(b: Byte, p: Ptr) returns (node: Node)
      requires Valid() && kind.Node48? && b !in children && p != 0 && |children[b := p]| == count + 1
      modifies this
      ensures node.Valid() && node.children == old(children)[b := p] && node.kind == Grown(Node48, old(count))
      ensures node.SamePrefix(old(prefixLength), old(prefix)) && (node == this || fresh(node))
    {
      if count < 48 {
        FreeSlot(childIndex, child, children);
        var pos := count;
        if child[pos] != 0 {
          pos := 0;
          while child[pos] != 0
            invariant 0 <= pos < 48 && forall i | 0 <= i < pos :: child[i] != 0
            decreases 48 - pos
          {
            pos := pos + 1;
          }
        }
        IndexInsert(childIndex, child, children, pos, b, p);
        child := child[pos := p];
        childIndex := childIndex[b := pos];
        count := count + 1;
        children := children[b := p];
        node := this;
      } else {
        node := Grow48();
        node.InsertNode256(b, p);
      }
    }

    /** A full Node48 as a Node256: each child in the slot of its byte. */
    method Grow48() returns (node: Node)
      requires Valid() && kind.Node48?
      ensures fresh(node) && node.Valid() && node.kind == Node256 && node.children == children && node.SamePrefix(prefixLength, prefix)
      ensures node.count == count
    {
      node := new Node(Node256);
      var direct: seq<Ptr> := node.child;
      for b := 0 to 256
        invariant Spread(childIndex, child, b, direct)
      {
        assert IndexEntry(childIndex, child, b, children);
        if childIndex[b] != EMPTY {
          direct := direct[b := child[childIndex[b]]];
        }
      }
      SpreadIs(childIndex, child, children, direct);
      node.child, node.count := direct, count;
      CopyPrefix(node);
      node.children := children;
    }

    method InsertNode256(b: Byte, p: Ptr)
      requires Layout() && count == |children| && kind.Node256? && b !in children && p != 0 && |children[b := p]| == count + 1
      modifies this
      ensures Valid() && children == old(children)[b := p] && kind == Node256
      ensures SamePrefix(old(prefixLength), old(prefix))
    {
      AtMost256(children[b := p]);
      ghost var child', children' := child[b := p], children[b := p];
      forall c: Byte ensures DirectEntry(child', c, children') { assert DirectEntry(child, c, children); }
      count := count + 1;
      child := child[b := p];
      children := children[b := p];
    }

    // ---- erase ----

    /** Drops the child for a byte; a node that has become small is replaced by one of the kind before. */
    method Erase(b: Byte) returns (node: Node)
      requires Valid() && b in children && CountOk(kind, count)
      modifies this
      ensures node.Valid() && node.children == old(children) - {b} && node.kind == Shrunk(old(kind), old(count))
      ensures node.kind == match old(kind)
        case Node4 => Node4
        case Node16 => if |node.children| == 3 then Node4 else Node16
        case Node48 => if |node.children| == 12 then Node16 else Node48
        case Node256 => if |node.children| == 37 then Node48 else Node256
      ensures node.SamePrefix(old(prefixLength), old(prefix)) && (node == this || fresh(node))
    {
      OneLess(children, b);
      match kind {
        case Node4 =>
          EraseFromList(false, b);
          node := this;
        case Node16 =>
          EraseFromList(true, b);
          node := this;
          if count == 3 {
            node := Shrink16();
          }
        case Node48 =>
          EraseFromIndex(b);
          node := this;
          if count == 12 {
            node := Shrink48();
          }
        case Node256 =>
          EraseDirect(b);
          node := this;
          if count == 37 {
            node := Shrink256();
          }
      }
    }

    /** The entry of a byte that has one. */
    method PlaceOf(flip: bool, b: Byte) returns (pos: nat)
      requires ListIs(flip, key, child, count, children) && b in children
      ensures pos < count && Plain(flip, key[pos]) == b
    {
      assert ListHas(flip, key, count, b);
      pos := 0;
      while Plain(flip, key[pos]) != b
        invariant pos < count && forall i | 0 <= i < pos :: Plain(flip, key[i]) != b
        decreases count - pos
      {
        pos := pos + 1;
      }
    }

    /** memmove of the bytes and children after the entry. */
    method EraseFromList(flip: bool, b: Byte)
      requires ListIs(flip, key, child, count, children) && b in children && |children - {b}| == count - 1
      modifies this`key, this`child, this`count, this`children
      ensures ListIs(flip, key, child, count, children) && |key| == |old(key)|
      ensures children == old(children) - {b} && count == |children| == old(count) - 1
    {
      var pos := PlaceOf(flip, b);
      var bytes, kids := MovedDown(key, pos, count), MovedDown(child, pos, count);
      ListErase(flip, key, child, count, children, pos, bytes, kids);
      key, child := bytes, kids;
      count := count - 1;
      children := children - {b};
    }

    method EraseFromIndex(b: Byte)
      requires IndexIs(childIndex, child, children) && b in children && |children - {b}| == count - 1
      modifies this`childIndex, this`child, this`count, this`children
      ensures IndexIs(childIndex, child, children) && children == old(children) - {b} && count == |children| == old(count) - 1
    {
      IndexErase(childIndex, child, children, b);
      child := child[childIndex[b] := 0];
      childIndex := childIndex[b := EMPTY];
      count := count - 1;
      children := children - {b};
    }

    method EraseDirect(b: Byte)
      requires DirectIs(child, children) && b in children && |children - {b}| == count - 1
      modifies this`child, this`count, this`children
      ensures DirectIs(child, children) && children == old(children) - {b} && count == |children| == old(count) - 1
    {
      ghost var child', children' := child[b := 0], children - {b};
      forall c: Byte ensures DirectEntry(child', c, children') { assert DirectEntry(child, c, children); }
      child := child[b := 0];
      count := count - 1;
      children := children - {b};
    }

    /** A Node16 with three children as a Node4. */
    method Shrink16() returns (node: Node)
      requires Valid() && kind.Node16? && count == 3
      ensures fresh(node) && node.Valid() && node.kind == Node4 && node.children == children && node.SamePrefix(prefixLength, prefix)
    {
      node := new Node(Node4);
      node.count := count;
      CopyPrefix(node);
      node.key := [FlipSign(key[0]), FlipSign(key[1]), FlipSign(key[2]), FlipSign(key[3])];
      node.child := child[..4];
      node.children := children;
      ListRecoded(true, key, child, 3, children, false, node.key, node.child);
    }

    /** The bytes of a Node48 in ascending order, sign bits flipped, with their children. */
    method ListOfIndex() returns (keys: seq<Byte>, kids: seq<Ptr>, n: nat)
      requires IndexIs(childIndex, child, children) && |children| <= 12
      ensures ListIs(true, keys, kids, n, children) && |keys| == 16 && n == |children|
    {
      keys, kids, n := seq(16, _ => 0), seq(16, _ => 0), 0;
      BelowAll(children);
      for b := 0 to 256
        invariant n <= 12 && |keys| == 16 && n == |Below(children, b)|
        invariant ListIs(true, keys, kids, n, Below(children, b))
      {
        BelowNext(children, b);
        BelowSize(children, b + 1);
        assert IndexEntry(childIndex, child, b, children);
        if childIndex[b] != EMPTY {
          OneMore(Below(children, b), b, children[b]);
          AppendToList(keys, kids, n, Below(children, b), b, children[b]);
          keys := keys[n := FlipSign(b)];
          kids := kids[n := child[childIndex[b]]];
          n := n + 1;
        }
      }
    }

    static lemma AppendToList(keys: seq<Byte>, kids: seq<Ptr>, n: nat, m: map<Byte, Ptr>, b: Byte, p: Ptr)
      requires ListIs(true, keys, kids, n, m) && n < |keys| && b !in m && p != 0 && forall c | c in m :: c < b
      ensures ListIs(true, keys[n := FlipSign(b)], kids[n := p], n + 1, m[b := p])
    {
      forall i | 0 <= i < n ensures Plain(true, keys[i]) < b { assert ListEntry(true, keys, kids, i, m); }
      assert MovedUp(keys, n, n) == keys && MovedUp(kids, n, n) == kids;
      ListInsert(true, keys, kids, n, m, n, b, p, keys[n := FlipSign(b)], kids[n := p]);
    }

    /** A Node48 with twelve children as a Node16. */
    method Shrink48() returns (node: Node)
      requires Valid() && kind.Node48? && count == 12
      ensures fresh(node) && node.Valid() && node.kind == Node16 && node.children == children && node.SamePrefix(prefixLength, prefix)
    {
      var keys, kids, n := ListOfIndex();
      node := new Node(Node16);
      CopyPrefix(node);
      node.key, node.child, node.count := keys, kids, n;
      node.children := children;
    }

    /** The children of a Node256 packed into slots, in byte order. */
    method IndexOfDirect() returns (index: seq<nat>, kids: seq<Ptr>, n: nat)
      requires DirectIs(child, children) && |children| < 48
      ensures IndexIs(index, kids, children) && n == |children|
    {
      index, kids, n := seq(256, _ => EMPTY), seq(48, _ => 0), 0;
      BelowAll(children);
      for b := 0 to 256
        invariant n < 48 && n == |Below(children, b)|
        invariant IndexIs(index, kids, Below(children, b)) && forall i | n <= i < 48 :: kids[i] == 0
      {
        BelowNext(children, b);
        BelowSize(children, b + 1);
        assert DirectEntry(child, b, children);
        if child[b] != 0 {
          OneMore(Below(children, b), b, children[b]);
          IndexInsert(index, kids, Below(children, b), n, b, children[b]);
          index := index[b := n];
          kids := kids[n := child[b]];
          n := n + 1;
        }
      }
    }

    /** A Node256 with 37 children as a Node48. */
    method Shrink256() returns (node: Node)
      requires Valid() && kind.Node256? && count == 37
      ensures fresh(node) && node.Valid() && node.kind == Node48 && node.children == children && node.SamePrefix(prefixLength, prefix)
    {
      var index, kids, n := IndexOfDirect();
      node := new Node(Node48);
      CopyPrefix(node);
      node.childIndex, node.child, node.count := index, kids, n;
      node.children := children;
    }

    /** A node left with one child hands its path and that child's byte down to it. */
    method ConcatenatePrefix(only: Node)
      requires only != this && Valid() && only.Valid() && kind.Node4? && count == 1
      requires |prefix| == Min(prefixLength, MAX_PREFIX) && |only.prefix| == Min(only.prefixLength, MAX_PREFIX)
      modifies only`prefix, only`prefixLength
      ensures only.Valid() && only.prefixLength == prefixLength + 1 + old(only.prefixLength)
      ensures only.prefix == JoinedPrefix(prefixLength, prefix, key[0], old(only.prefix))
      ensures forall b | b in children :: b == key[0]
    {
      var l1, joined := prefixLength, prefix;
      if l1 < MAX_PREFIX {
        joined := joined + [key[0]];
        l1 := l1 + 1;
      }
      if l1 < MAX_PREFIX {
        var l2 := Min(only.prefixLength, MAX_PREFIX - l1);
        joined := joined + only.prefix[..l2];
        l1 := l1 + l2;
      }
      only.prefix := joined[..Min(l1, MAX_PREFIX)];
      only.prefixLength := only.prefixLength + prefixLength + 1;
      forall b | b in children ensures b == key[0] { assert ListHas(false, key, count, b); }
    }
  }

  lemma AtMost256(m: map<Byte, Ptr>)
    ensures |m| <= 256
  {
    assert |m.Keys| == |m|;
    FewBytes(m.Keys, 256);
  }
}
