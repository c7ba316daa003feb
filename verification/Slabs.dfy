/** The slab allocator with its free stack, as one thread uses it (the unsafe operations). */
module Slabs {
  import opened Hiding

  type Addr = nat

  /** Addresses have 48 bits; the stack's word keeps one above a 16-bit sequence number. */
  const ADDRESSES := 0x1_0000_0000_0000

  const SEQUENCES := 0x1_0000

  const OBJ0_OFFSET := 64

  const CELL_BYTES := 8

  /** astk_ptr and astk_m1_unsafe, on words of 64 bits */
  function StackPtr(m: nat): Addr {
    m / SEQUENCES
  }

  function StackWord(p: Addr): nat {
    p * SEQUENCES % (ADDRESSES * SEQUENCES)
  }

  lemma StackRoundTrip(p: Addr)
    requires p < ADDRESSES
    ensures StackPtr(StackWord(p)) == p
  {
  }

  // ---- sizes ----

  /** n & (n - 1) is zero */
  predicate PowerOfTwo(n: nat)
    requires n > 0
  {
    n == 1 || (n % 2 == 0 && PowerOfTwo(n / 2))
  }

  function Pow2(k: nat): nat {
    if k == 0 then 1 else 2 * Pow2(k - 1)
  }

  ghost predicate IsPow2(n: nat) {
    exists k: nat :: n == Pow2(k)
  }

  lemma {:induction false} PowerOfTwoIs(n: nat)
    requires n > 0
    ensures PowerOfTwo(n) <==> IsPow2(n)
  {
    if n == 1 {
      assert n == Pow2(0);
    } else {
      PowerOfTwoIs(n / 2);
      if PowerOfTwo(n) {
        var k: nat :| n / 2 == Pow2(k);
        assert n == Pow2(k + 1);
      }
      if IsPow2(n) {
        var k: nat :| n == Pow2(k);
        assert k > 0 && n / 2 == Pow2(k - 1);
      }
    }
  }

  predicate SizesOk(objSize: nat, blkSize: nat) {
    && objSize > 0 && objSize % CELL_BYTES == 0 && blkSize >= 4096 && PowerOfTwo(blkSize)
    && FirstOffset(objSize) + objSize <= blkSize
  }

  function FirstOffset(objSize: nat): (r: nat)
    requires objSize > 0
    ensures objSize >= CELL_BYTES ==> r >= CELL_BYTES
  {
    if PowerOfTwo(objSize) then objSize else OBJ0_OFFSET
  }

  /** slab_check_sizes: 0 on failure, otherwise where a block's first object starts: objects of a power of two start at
      their own size, others at 64. The sizes are good if objects are whole words, the block is a power of two of at least
      4096 bytes and one object fits. */
  function CheckSizes(objSize: nat, blkSize: nat): (r: nat)
    ensures r != 0 <==>
      && objSize > 0 && objSize % 8 == 0 && blkSize >= 4096 && IsPow2(blkSize)
      && (if IsPow2(objSize) then objSize else 64) + objSize <= blkSize
    ensures r != 0 ==> r == (if IsPow2(objSize) then objSize else 64)
    ensures r != 0 <==> SizesOk(objSize, blkSize)
    ensures r != 0 ==> r == FirstOffset(objSize) && r >= CELL_BYTES
  {
    assert objSize > 0 && blkSize > 0 ==> (PowerOfTwo(objSize) <==> IsPow2(objSize)) && (PowerOfTwo(blkSize) <==> IsPow2(blkSize)) by {
      if objSize > 0 && blkSize > 0 {
        PowerOfTwoIs(objSize);
        PowerOfTwoIs(blkSize);
      }
    }
    if objSize == 0 || objSize % CELL_BYTES != 0 || blkSize < 4096 || !PowerOfTwo(blkSize) then 0
    else
      var obj0Offset := FirstOffset(objSize);
      if obj0Offset >= blkSize || blkSize - obj0Offset < objSize then 0 else obj0Offset
  }

  /** A block's geometry: where its objects start, how many there are, how long each is. */
  datatype Geometry = Geometry(objSize: nat, blkSize: nat, first: nat, count: nat)
  {
    ghost predicate Ok() {
      objSize >= CELL_BYTES && first >= CELL_BYTES && count >= 1 && first + Span(count) <= blkSize
    }

    /** Bytes of n objects. */
    function Span(n: nat): nat {
      if n == 0 then 0 else Span(n - 1) + objSize
    }

    function ObjectAt(block: Addr, i: nat): Addr {
      block + first + Span(i)
    }

    ghost function Objects(block: Addr): (r: seq<Addr>)
      ensures |r| == count && forall i | 0 <= i < count :: r[i] == ObjectAt(block, i)
    {
      seq(count, i requires 0 <= i < count => ObjectAt(block, i))
    }

    ghost function AllObjects(blocks: seq<Addr>): seq<Addr> {
      if blocks == [] then [] else Objects(blocks[0]) + AllObjects(blocks[1..])
    }

    /** x is an object of the block. */
    ghost predicate IsObject(block: Addr, x: Addr) {
      exists i: nat :: i < count && x == ObjectAt(block, i)
    }
  }

  lemma {:induction false} SpanIs(g: Geometry, n: nat)
    ensures g.Span(n) == n * g.objSize
  {
    if n > 0 {
      SpanIs(g, n - 1);
      assert n * g.objSize == (n - 1) * g.objSize + g.objSize;
    }
  }

  lemma {:induction false} SpanGrows(g: Geometry, m: nat, n: nat)
    requires m <= n
    ensures g.Span(m) <= g.Span(n) && (m < n ==> g.Span(m) + g.objSize <= g.Span(n))
    decreases n
  {
    if m < n { SpanGrows(g, m, n - 1); }
  }

  /** As many objects as fit: slab_init_internal's division. */
  lemma GeometryOk(objSize: nat, blkSize: nat)
    requires SizesOk(objSize, blkSize)
    ensures var g := Geometry(objSize, blkSize, FirstOffset(objSize), (blkSize - FirstOffset(objSize)) / objSize);
      g.Ok() && g.first + g.Span(g.count + 1) > blkSize
  {
    var room := blkSize - FirstOffset(objSize);
    var g := Geometry(objSize, blkSize, FirstOffset(objSize), room / objSize);
    SpanIs(g, g.count);
    SpanIs(g, g.count + 1);
    QuotientBounds(room, objSize);
  }

  lemma QuotientBounds(room: nat, d: nat)
    requires 0 < d <= room
    ensures 1 <= room / d && room / d * d <= room < (room / d + 1) * d
  {
    var q := room / d;
    assert room == d * q + room % d;
    assert (q + 1) * d == q * d + d;
  }

  // ---- blocks and objects ----

  ghost predicate Apart(g: Geometry, a: Addr, b: Addr) {
    a != b ==> a + g.blkSize <= b || b + g.blkSize <= a
  }

  /** Blocks of memory that do not overlap. */
  ghost predicate Blocks(g: Geometry, blocks: set<Addr>) {
    && (forall b | b in blocks :: 0 < b && b + g.blkSize < ADDRESSES)
    && (forall a, b {:trigger Apart(g, a, b)} | a in blocks && b in blocks :: Apart(g, a, b))
  }

  /** x is an object of one of the blocks. */
  ghost predicate ObjectOf(g: Geometry, blocks: set<Addr>, x: Addr) {
    exists b :: b in blocks && g.IsObject(b, x)
  }

  /** An object lies inside its block, behind the word that chains the blocks. */
  lemma Inside(g: Geometry, b: Addr, x: Addr)
    requires g.Ok() && g.IsObject(b, x)
    ensures b + CELL_BYTES <= x && x + g.objSize <= b + g.blkSize
  {
    var i: nat :| i < g.count && x == g.ObjectAt(b, i);
    SpanGrows(g, i, g.count);
  }

  /** Objects of one block are whole object lengths apart. */
  lemma ObjectsApart(g: Geometry, b: Addr, x: Addr, y: Addr)
    requires g.Ok() && g.IsObject(b, x) && g.IsObject(b, y) && x != y
    ensures x + g.objSize <= y || y + g.objSize <= x
  {
    var i: nat :| i < g.count && x == g.ObjectAt(b, i);
    var j: nat :| j < g.count && y == g.ObjectAt(b, j);
    if i < j { SpanGrows(g, i, j); } else { SpanGrows(g, j, i); }
  }

  /** Different objects do not overlap, whichever blocks they are in, and none touches a block's own word. */
  lemma Separate(g: Geometry, blocks: set<Addr>, x: Addr, y: Addr)
    requires g.Ok() && Blocks(g, blocks) && ObjectOf(g, blocks, x)
    ensures 0 < x && x + g.objSize < ADDRESSES
    ensures ObjectOf(g, blocks, y) && x != y ==> x + g.objSize <= y || y + g.objSize <= x
    ensures y in blocks ==> y + CELL_BYTES <= x || x + g.objSize <= y
  {
    var a :| a in blocks && g.IsObject(a, x);
    Inside(g, a, x);
    if ObjectOf(g, blocks, y) && x != y {
      var b :| b in blocks && g.IsObject(b, y);
      Inside(g, b, y);
      assert Apart(g, a, b);
      if a == b { ObjectsApart(g, a, x, y); }
    }
    if y in blocks { assert Apart(g, a, y); }
  }

  /** An address is an object of one block at most. */
  lemma OneBlock(g: Geometry, blocks: set<Addr>, a: Addr, b: Addr, x: Addr)
    requires g.Ok() && Blocks(g, blocks) && a in blocks && b in blocks && g.IsObject(a, x) && g.IsObject(b, x)
    ensures a == b
  {
    Inside(g, a, x);
    Inside(g, b, x);
    assert Apart(g, a, b);
  }

  lemma ObjectsAre(g: Geometry, b: Addr, x: Addr)
    ensures x in g.Objects(b) <==> g.IsObject(b, x)
  {
    if x in g.Objects(b) {
      var i :| 0 <= i < g.count && g.Objects(b)[i] == x;
      assert x == g.ObjectAt(b, i);
    }
    if g.IsObject(b, x) {
      var i: nat :| i < g.count && x == g.ObjectAt(b, i);
      assert g.Objects(b)[i] == x;
    }
  }

  lemma {:induction false} AllObjectsAre(g: Geometry, blocks: seq<Addr>, x: Addr)
    ensures x in g.AllObjects(blocks) <==> exists b :: b in blocks && g.IsObject(b, x)
  {
    if blocks != [] {
      AllObjectsAre(g, blocks[1..], x);
      ObjectsAre(g, blocks[0], x);
      assert forall b :: b in blocks <==> b == blocks[0] || b in blocks[1..];
    }
  }

  lemma {:induction false} AllObjectsCount(g: Geometry, blocks: seq<Addr>)
    ensures |g.AllObjects(blocks)| == |blocks| * g.count
  {
    if blocks != [] {
      AllObjectsCount(g, blocks[1..]);
      assert |blocks| * g.count == |blocks[1..]| * g.count + g.count;
    }
  }

  /** An element whose places are all the same is there once at most. */
  lemma {:induction false} Once(xs: seq<Addr>, x: Addr)
    requires forall i, j | 0 <= i < |xs| && 0 <= j < |xs| && xs[i] == x && xs[j] == x :: i == j
    ensures multiset(xs)[x] <= 1
  {
    if xs != [] {
      Once(xs[1..], x);
      assert xs == [xs[0]] + xs[1..];
      assert multiset(xs)[x] == multiset([xs[0]])[x] + multiset(xs[1..])[x];
      if xs[0] == x {
        assert x !in xs[1..] by {
          forall i | 0 <= i < |xs| - 1 ensures xs[1..][i] != x { assert xs[i + 1] == xs[1..][i]; }
        }
      }
    }
  }

  lemma ObjectsOnce(g: Geometry, b: Addr, x: Addr)
    requires g.Ok()
    ensures multiset(g.Objects(b))[x] <= 1
  {
    var xs := g.Objects(b);
    forall i, j | 0 <= i < |xs| && 0 <= j < |xs| && xs[i] == x && xs[j] == x ensures i == j {
      if i < j { SpanGrows(g, i, j); } else if j < i { SpanGrows(g, j, i); }
    }
    Once(xs, x);
  }

  lemma NotAgain(blocks: set<Addr>, b: Addr, rest: seq<Addr>)
    requires multiset{b} + multiset(rest) <= multiset(blocks)
    ensures b !in rest
  {
    assert b in rest ==> (multiset{b} + multiset(rest))[b] >= 2;
  }

  /** No object is there twice. */
  lemma {:induction false} AllObjectsOnce(g: Geometry, blocks: set<Addr>, active: seq<Addr>, x: Addr)
    requires g.Ok() && Blocks(g, blocks) && multiset(active) <= multiset(blocks)
    ensures multiset(g.AllObjects(active))[x] <= 1
  {
    if active != [] {
      var b, rest := active[0], active[1..];
      assert active == [b] + rest;
      assert multiset(active) == multiset{b} + multiset(rest);
      AllObjectsOnce(g, blocks, rest, x);
      ObjectsOnce(g, b, x);
      ObjectsAre(g, b, x);
      AllObjectsAre(g, rest, x);
      assert multiset(g.AllObjects(active)) == multiset(g.Objects(b)) + multiset(g.AllObjects(rest));
      NotAgain(blocks, b, rest);
      if x in g.Objects(b) && x in g.AllObjects(rest) {
        var c :| c in rest && g.IsObject(c, x);
        assert b in multiset(active) && c in multiset(rest);
        OneBlock(g, blocks, b, c, x);
      }
    }
  }

  // ---- chains of cells ----

  ghost predicate Link(next: map<Addr, Addr>, xs: seq<Addr>, end: Addr, i: nat)
    requires i < |xs|
  {
    xs[i] != 0 && xs[i] in next && next[xs[i]] == if i + 1 < |xs| then xs[i + 1] else end
  }

  /** From head the words lead through xs to end. */
  ghost predicate Chain(next: map<Addr, Addr>, head: Addr, xs: seq<Addr>, end: Addr) {
    head == (if xs == [] then end else xs[0]) && forall i | 0 <= i < |xs| :: Link(next, xs, end, i)
  }

  lemma ChainFrame(next: map<Addr, Addr>, next': map<Addr, Addr>, head: Addr, xs: seq<Addr>, end: Addr)
    requires Chain(next, head, xs, end) && forall x | x in xs && x in next :: x in next' && next'[x] == next[x]
    ensures Chain(next', head, xs, end)
  {
    forall i | 0 <= i < |xs| ensures Link(next', xs, end, i) { assert Link(next, xs, end, i); }
  }

  lemma ChainTail(next: map<Addr, Addr>, head: Addr, xs: seq<Addr>)
    requires Chain(next, head, xs, 0)
    ensures head == 0 <==> xs == []
    ensures xs != [] ==> xs == [head] + xs[1..] && head in next && Chain(next, next[head], xs[1..], 0)
  {
    if xs != [] {
      assert Link(next, xs, 0, 0);
      forall i | 0 <= i < |xs| - 1 ensures Link(next, xs[1..], 0, i) { assert Link(next, xs, 0, i + 1); }
    }
  }

  lemma ChainJoin(next: map<Addr, Addr>, head: Addr, xs: seq<Addr>, mid: Addr, ys: seq<Addr>)
    requires Chain(next, head, xs, mid) && Chain(next, mid, ys, 0)
    ensures Chain(next, head, xs + ys, 0)
  {
    var all := xs + ys;
    forall i | 0 <= i < |all| ensures Link(next, all, 0, i) {
      if i < |xs| { assert Link(next, xs, mid, i); } else { assert Link(next, ys, 0, i - |xs|); }
    }
  }

  /** A cell in front of a chain. */
  lemma ChainPush(next: map<Addr, Addr>, head: Addr, xs: seq<Addr>, x: Addr)
    requires Chain(next, head, xs, 0) && x != 0 && x !in xs
    ensures Chain(next[x := head], x, [x] + xs, 0)
  {
    ChainFrame(next, next[x := head], head, xs, 0);
    assert Link(next[x := head], [x], head, 0);
    ChainJoin(next[x := head], x, [x], head, xs);
  }

  // ---- free and allocated objects ----

  /** Every object of the active blocks is free or allocated, exactly once. Unfolded only where Accounted is mentioned. */
  ghost predicate Balanced(g: Geometry, blocks: set<Addr>, active: seq<Addr>, free: seq<Addr>, used: set<Addr>) {
    forall u: Unfold :: Accounted(u, g, blocks, active, free, used)
  }

  ghost predicate Accounted(u: Unfold, g: Geometry, blocks: set<Addr>, active: seq<Addr>, free: seq<Addr>, used: set<Addr>) {
    && multiset(free) + multiset(used) == multiset(g.AllObjects(active))
    && multiset(active) <= multiset(blocks)
  }

  lemma BalancedIs(g: Geometry, blocks: set<Addr>, active: seq<Addr>, free: seq<Addr>, used: set<Addr>)
    ensures Balanced(g, blocks, active, free, used) <==> Accounted(Unfold, g, blocks, active, free, used)
  {
    forall u: Unfold ensures Accounted(Unfold, g, blocks, active, free, used) ==> Accounted(u, g, blocks, active, free, used) {}
  }

  /** What the balance means for one address: it is not both free and allocated, nor free twice, and it is one of the
      two exactly if it is an object of an active block. */
  lemma OneOrOther(g: Geometry, blocks: set<Addr>, active: seq<Addr>, free: seq<Addr>, used: set<Addr>, x: Addr)
    requires g.Ok() && Blocks(g, blocks) && Balanced(g, blocks, active, free, used)
    ensures !(x in free && x in used) && multiset(free)[x] <= 1
    ensures x in free || x in used <==> exists b :: b in active && g.IsObject(b, x)
    ensures x in free || x in used ==> ObjectOf(g, blocks, x)
  {
    BalancedIs(g, blocks, active, free, used);
    AllObjectsOnce(g, blocks, active, x);
    AllObjectsAre(g, active, x);
    assert (multiset(free) + multiset(used))[x] == multiset(free)[x] + multiset(used)[x];
    assert x in g.AllObjects(active) <==> x in multiset(g.AllObjects(active));
    assert x in free <==> x in multiset(free);
    if exists b :: b in active && g.IsObject(b, x) {
      var b :| b in active && g.IsObject(b, x);
      assert b in multiset(active);
    }
  }

  /** The numbers: as many objects as the active blocks have are free or allocated. */
  lemma Balance(g: Geometry, blocks: set<Addr>, active: seq<Addr>, free: seq<Addr>, used: set<Addr>)
    requires Balanced(g, blocks, active, free, used)
    ensures |free| + |used| == |active| * g.count
  {
    BalancedIs(g, blocks, active, free, used);
    AllObjectsCount(g, active);
    assert |multiset(free) + multiset(used)| == |free| + |used|;
    assert |multiset(g.AllObjects(active))| == |g.AllObjects(active)|;
  }

  lemma Taken(g: Geometry, blocks: set<Addr>, active: seq<Addr>, free: seq<Addr>, used: set<Addr>)
    requires Balanced(g, blocks, active, free, used) && free != [] && free[0] !in used
    ensures Balanced(g, blocks, active, free[1..], used + {free[0]})
  {
    BalancedIs(g, blocks, active, free, used);
    BalancedIs(g, blocks, active, free[1..], used + {free[0]});
    assert free == [free[0]] + free[1..];
    assert multiset(used + {free[0]}) == multiset(used) + multiset{free[0]};
  }

  lemma Returned(g: Geometry, blocks: set<Addr>, active: seq<Addr>, free: seq<Addr>, used: set<Addr>, x: Addr)
    requires Balanced(g, blocks, active, free, used) && x in used
    ensures Balanced(g, blocks, active, [x] + free, used - {x})
  {
    BalancedIs(g, blocks, active, free, used);
    BalancedIs(g, blocks, active, [x] + free, used - {x});
    assert multiset(used) == multiset(used - {x}) + multiset{x};
    assert multiset([x] + free) == multiset{x} + multiset(free);
  }

  lemma BlockAdded(g: Geometry, blocks: set<Addr>, active: seq<Addr>, free: seq<Addr>, used: set<Addr>, b: Addr)
    requires Balanced(g, blocks, active, free, used) && multiset{b} + multiset(active) <= multiset(blocks)
    ensures Balanced(g, blocks, [b] + active, g.Objects(b) + free, used)
  {
    BalancedIs(g, blocks, active, free, used);
    BalancedIs(g, blocks, [b] + active, g.Objects(b) + free, used);
    assert ([b] + active)[1..] == active;
    assert g.AllObjects([b] + active) == g.Objects(b) + g.AllObjects(active);
  }

  lemma NothingLeft(g: Geometry, blocks: set<Addr>)
    ensures Balanced(g, blocks, [], [], {})
  {
    BalancedIs(g, blocks, [], [], {});
  }

  // ---- the allocator ----

  class Slab {
    const g: Geometry
    /** The free stack: the first free object's address above a sequence number. */
    var magic: nat
    var headActive: Addr
    var headBackup: Addr
    var nrReady: nat
    /** The words of memory through which blocks and free objects are chained. */
    var next: map<Addr, Addr>
    /** The pages the system will hand out; none left means it is out of memory. */
    var core: seq<Addr>

    /** All blocks there will ever be, those in use, those waiting; free and allocated objects. */
    ghost const blocks: set<Addr>
    ghost var active: seq<Addr>
    ghost var backup: seq<Addr>
    ghost var free: seq<Addr>
    ghost var used: set<Addr>

    ghost predicate Valid()
      reads this
    {
      Holding(multiset{})
    }

    /** All is well, with some blocks in hand that are in no list. */
    ghost predicate Holding(hand: multiset<Addr>)
      reads this
    {
      && g.Ok() && Blocks(g, blocks) && hand + multiset(active) + multiset(backup) + multiset(core) == multiset(blocks)
      && Chain(next, headActive, active, 0) && Chain(next, headBackup, backup, 0) && Chain(next, StackPtr(magic), free, 0)
      && Balanced(g, blocks, active, free, used) && nrReady == |free|
    }

    /** slab_create with sizes that slab_check_sizes accepts; core are pages the system keeps apart from each other. */
    constructor (objSize: nat, blkSize: nat, core: seq<Addr>, ghost blocks: set<Addr>)
      requires CheckSizes(objSize, blkSize) != 0 && multiset(core) == multiset(blocks)
      requires Blocks(Geometry(objSize, blkSize, FirstOffset(objSize), (blkSize - FirstOffset(objSize)) / objSize), blocks)
      ensures Valid() && used == {} && free == [] && active == [] && backup == []
      ensures g.objSize == objSize && g.blkSize == blkSize && g.first + g.Span(g.count + 1) > blkSize
    {
      var obj0Offset := CheckSizes(objSize, blkSize);
      GeometryOk(objSize, blkSize);
      g := Geometry(objSize, blkSize, obj0Offset, (blkSize - obj0Offset) / objSize);
      magic, headActive, headBackup, nrReady, next, this.core := 0, 0, 0, 0, map[], core;
      this.blocks, active, backup, free, used := blocks, [], [], [], {};
      NothingLeft(Geometry(objSize, blkSize, obj0Offset, (blkSize - obj0Offset) / objSize), blocks);
    }

    // ---- blocks ----

    /** Chains a block's objects, the last one to top. */
    method ChainObjects(next: map<Addr, Addr>, block: Addr, top: Addr) returns (mem: map<Addr, Addr>)
      requires g.Ok() && 0 < block
      ensures Chain(mem, g.ObjectAt(block, 0), g.Objects(block), top)
      ensures forall x | x in next && !g.IsObject(block, x) :: x in mem && mem[x] == next[x]
    {
      mem := next;
      var iter, i := g.ObjectAt(block, 0), 1;
      while i < g.count
        invariant 1 <= i <= g.count && iter == g.ObjectAt(block, i - 1)
        invariant forall k: nat | k < i - 1 :: g.ObjectAt(block, k) in mem && mem[g.ObjectAt(block, k)] == g.ObjectAt(block, k + 1)
        invariant forall x | x in next && !g.IsObject(block, x) :: x in mem && mem[x] == next[x]
      {
        forall k: nat | k < i - 1 ensures g.ObjectAt(block, k) != iter { SpanGrows(g, k, i - 1); }
        mem := mem[iter := g.ObjectAt(block, i)];
        iter := g.ObjectAt(block, i);
        i := i + 1;
      }
      forall k: nat | k < i - 1 ensures g.ObjectAt(block, k) != iter { SpanGrows(g, k, i - 1); }
      mem := mem[iter := top];
      forall k | 0 <= k < g.count ensures Link(mem, g.Objects(block), top, k) {
        assert g.Objects(block)[k] == g.ObjectAt(block, k);
      }
    }

    lemma HeaderIn(hand: multiset<Addr>, b: Addr)
      requires Holding(hand) && (b in hand || b in active || b in backup || b in core)
      ensures b in blocks && 0 < b
    {
      var all := hand + multiset(active) + multiset(backup) + multiset(core);
      assert b in hand || b in multiset(active) || b in multiset(backup) || b in multiset(core);
      assert b in all;
    }

    /** A block in hand is in no list, and neither it nor its objects are on the way of a chain. */
    lemma InHand(b: Addr)
      requires Holding(multiset{b})
      ensures b in blocks && b !in active && b !in backup && b !in core && multiset{b} + multiset(active) <= multiset(blocks)
      ensures 0 < b < ADDRESSES && 0 < g.ObjectAt(b, 0) < ADDRESSES && !g.IsObject(b, b)
    {
      HeaderIn(multiset{b}, b);
      var all := multiset{b} + multiset(active) + multiset(backup) + multiset(core);
      assert all[b] <= 1;
      assert b in active ==> b in multiset(active);
      assert b in backup ==> b in multiset(backup);
      assert b in core ==> b in multiset(core);
      assert g.IsObject(b, g.ObjectAt(b, 0));
      Inside(g, b, g.ObjectAt(b, 0));
      if g.IsObject(b, b) { Inside(g, b, b); }
    }

    lemma OutsideBlock(b: Addr, x: Addr)
      requires Holding(multiset{b}) && (x in active || x in backup || x in free)
      ensures !g.IsObject(b, x) && x != b
    {
      InHand(b);
      OneOrOther(g, blocks, active, free, used, x);
      if x in free {
        Separate(g, blocks, x, b);
        if g.IsObject(b, x) {
          var a :| a in active && g.IsObject(a, x);
          HeaderIn(multiset{b}, a);
          OneBlock(g, blocks, a, b, x);
        }
      } else {
        HeaderIn(multiset{b}, x);
        if g.IsObject(b, x) {
          assert ObjectOf(g, blocks, x);
          Separate(g, blocks, x, x);
        }
      }
    }

    /** slab_add: the block in hand becomes active, its objects go on the free stack. */
    method Add(block: Addr)
      requires Holding(multiset{block})
      modifies this`magic, this`headActive, this`nrReady, this`next, this`active, this`free
      ensures Valid() && active == [block] + old(active) && free == g.Objects(block) + old(free)
    {
      InHand(block);
      ghost var next1 := next[block := headActive];
      var base := g.ObjectAt(block, 0);
      var mem := ChainObjects(next[block := headActive], block, StackPtr(magic));
      ChainsKept(block, next1, mem);
      BlockAdded(g, blocks, active, free, used, block);
      StackRoundTrip(base);
      next, headActive := mem, block;
      magic, nrReady := StackWord(base), nrReady + g.count;
      active, free := [block] + active, g.Objects(block) + free;
    }

    /** The chains after a block was put in front of the active ones and its objects in front of the free ones. */
    lemma ChainsKept(block: Addr, next1: map<Addr, Addr>, mem: map<Addr, Addr>)
      requires Holding(multiset{block}) && next1 == next[block := headActive]
      requires Chain(mem, g.ObjectAt(block, 0), g.Objects(block), StackPtr(magic))
      requires forall x | x in next1 && !g.IsObject(block, x) :: x in mem && mem[x] == next1[x]
      ensures Chain(mem, block, [block] + active, 0) && Chain(mem, headBackup, backup, 0)
      ensures Chain(mem, g.ObjectAt(block, 0), g.Objects(block) + free, 0)
    {
      InHand(block);
      forall x | x in active || x in backup || x in free ensures !g.IsObject(block, x) && x != block { OutsideBlock(block, x); }
      ChainPush(next, headActive, active, block);
      ChainFrame(next1, mem, block, [block] + active, 0);
      ChainFrame(next, mem, headBackup, backup, 0);
      ChainFrame(next, mem, StackPtr(magic), free, 0);
      ChainJoin(mem, g.ObjectAt(block, 0), g.Objects(block), StackPtr(magic), free);
    }

    /** slab_expand: a block that waits, or a new one from the system. */
    method Expand() returns (ok: bool)
      requires Valid()
      modifies this
      ensures Valid() && used == old(used) && (ok <==> old(backup) != [] || old(core) != [])
      ensures !ok ==> active == old(active) && free == old(free) && backup == old(backup) && core == old(core)
      ensures old(backup) != [] ==> active == [old(backup)[0]] + old(active) && backup == old(backup)[1..] && core == old(core)
      ensures old(backup) == [] && old(core) != [] ==>
        active == [old(core)[0]] + old(active) && backup == [] && core == old(core)[1..]
      ensures ok ==> active != [] && free == g.Objects(active[0]) + old(free) && |free| > old(|free|)
    {
      var block := TakeBlock();
      ok := block != 0;
      if ok {
        Add(block);
        assert free == g.Objects(block) + old(free) && active == [block] + old(active) && active[0] == block;
      }
    }

    /** The first waiting block, or else one of the system's; null when there is neither. */
    method TakeBlock() returns (block: Addr)
      requires Valid()
      modifies this`headBackup, this`backup, this`core
      ensures block == 0 <==> old(backup) == [] && old(core) == []
      ensures block == 0 ==> Valid() && backup == old(backup) && core == old(core)
      ensures block != 0 ==> Holding(multiset{block})
      ensures old(backup) != [] ==> block == old(backup)[0] && backup == old(backup)[1..] && core == old(core)
      ensures old(backup) == [] && old(core) != [] ==> block == old(core)[0] && backup == [] && core == old(core)[1..]
    {
      ChainTail(next, headBackup, backup);
      block := headBackup;
      if block != 0 {
        headBackup := next[block];
        backup := backup[1..];
        assert multiset([block] + backup) == multiset{block} + multiset(backup);
      } else if core != [] {
        block := core[0];
        HeaderIn(multiset{}, block);
        assert core == [block] + core[1..];
        core := core[1..];
        assert multiset([block] + core) == multiset{block} + multiset(core);
      }
    }

    /** slab_reserve_unsafe: makes at least nr objects ready. */
    method Reserve(nr: nat) returns (ok: bool)
      requires Valid()
      modifies this
      ensures Valid() && used == old(used) && (ok <==> |free| >= nr)
      ensures !ok ==> backup == [] && core == []
    {
      while nrReady < nr
        invariant Valid() && used == old(used)
        decreases |backup| + |core|
      {
        var more := Expand();
        if !more {
          ChainTail(next, headBackup, backup);
          return false;
        }
      }
      ok := true;
    }

    // ---- objects ----

    /** slab_alloc_unsafe: an object that was not allocated, the one freed last if any is ready; null only when the system
        has no memory left. */
    method Alloc() returns (p: Addr)
      requires Valid()
      modifies this
      ensures Valid()
      ensures p == 0 <==> old(free) == [] && old(backup) == [] && old(core) == []
      ensures p == 0 ==> used == old(used) && free == old(free)
      ensures p != 0 ==> p !in old(used) && used == old(used) + {p} && ObjectOf(g, blocks, p)
      ensures old(free) != [] ==>
        p == old(free)[0] && free == old(free)[1..] && active == old(active) && backup == old(backup) && core == old(core)
    {
      ChainTail(next, StackPtr(magic), free);
      p := StackPtr(magic);
      if p == 0 {
        var more := Expand();
        if !more {
          return;
        }
      }
      p := Pop();
    }

    /** astk_pop_unsafe on a stack that is not empty. */
    method Pop() returns (p: Addr)
      requires Valid() && free != []
      modifies this`magic, this`nrReady, this`free, this`used
      ensures Valid() && p == old(free)[0] != 0 && free == old(free)[1..] && p !in old(used) && used == old(used) + {p}
      ensures ObjectOf(g, blocks, p)
    {
      ChainTail(next, StackPtr(magic), free);
      p := StackPtr(magic);
      OneOrOther(g, blocks, active, free, used, p);
      Taken(g, blocks, active, free, used);
      NextInRange();
      magic := StackWord(next[p]);
      nrReady := nrReady - 1;
      free, used := free[1..], used + {p};
    }

    /** The second free object's address fits the stack's word. */
    lemma NextInRange()
      requires Valid() && free != []
      ensures free[0] in next && StackPtr(StackWord(next[free[0]])) == next[free[0]]
    {
      assert Link(next, free, 0, 0);
      if |free| > 1 {
        OneOrOther(g, blocks, active, free, used, free[1]);
        Separate(g, blocks, free[1], free[1]);
      }
      StackRoundTrip(next[free[0]]);
    }

    /** slab_free_unsafe */
    method Free(p: Addr)
      requires Valid() && p in used
      modifies this`magic, this`nrReady, this`next, this`free, this`used
      ensures Valid() && used == old(used) - {p} && free == [p] + old(free)
    {
      UsedApart(p, p);
      Returned(g, blocks, active, free, used, p);
      forall x | x in active || x in backup || x in free ensures x != p { UsedApart(p, x); }
      ChainFrame(next, next[p := StackPtr(magic)], headActive, active, 0);
      ChainFrame(next, next[p := StackPtr(magic)], headBackup, backup, 0);
      ChainPush(next, StackPtr(magic), free, p);
      StackRoundTrip(p);
      next := next[p := StackPtr(magic)];
      magic := StackWord(p);
      nrReady := nrReady + 1;
      free, used := [p] + free, used - {p};
    }

    /** An allocated object touches no block's own word and no free object. */
    lemma UsedApart(p: Addr, x: Addr)
      requires Valid() && p in used
      ensures 0 < p < ADDRESSES && ObjectOf(g, blocks, p)
      ensures x in active || x in backup ==> x + CELL_BYTES <= p || p + g.objSize <= x
      ensures x in free ==> x + g.objSize <= p || p + g.objSize <= x
    {
      OneOrOther(g, blocks, active, free, used, p);
      OneOrOther(g, blocks, active, free, used, x);
      Separate(g, blocks, p, x);
      if x in active || x in backup { HeaderIn(multiset{}, x); }
    }

    /** A client writes somewhere in an object it has allocated: the allocator does not notice. */
    method ClientWrites(p: Addr, at: Addr, value: Addr)
      requires Valid() && p in used && p <= at < p + g.objSize
      modifies this`next
      ensures Valid()
    {
      forall x | x in active || x in backup || x in free ensures x != at { UsedApart(p, x); }
      ChainFrame(next, next[at := value], headActive, active, 0);
      ChainFrame(next, next[at := value], headBackup, backup, 0);
      ChainFrame(next, next[at := value], StackPtr(magic), free, 0);
      next := next[at := value];
    }

    /** slab_get_nalloc: counts the blocks, then takes away the free objects: what is left are the allocated ones. */
    method GetNalloc() returns (n: int)
      requires Valid()
      ensures n == |used|
    {
      var blockCount := Length(headActive, active);
      n := blockCount * g.count;
      var freeCount := Length(StackPtr(magic), free);
      n := n - freeCount;
      Balance(g, blocks, active, free, used);
    }

    /** Follows a chain to its end. */
    method Length(head: Addr, ghost xs: seq<Addr>) returns (n: nat)
      requires Chain(next, head, xs, 0)
      ensures n == |xs|
    {
      var iter := head;
      n := 0;
      ghost var rest := xs;
      while iter != 0
        invariant Chain(next, iter, rest, 0) && n + |rest| == |xs|
        decreases |rest|
      {
        ChainTail(next, iter, rest);
        iter := next[iter];
        rest := rest[1..];
        n := n + 1;
      }
      ChainTail(next, iter, rest);
    }

    /** slab_free_all: nothing is allocated any more, and every active block waits to be used again. */
    method FreeAll()
      requires Valid()
      modifies this
      ensures Valid() && used == {} && free == [] && active == [] && backup == old(active) + old(backup) && core == old(core)
    {
      var mem, head := JoinActive();
      next, headBackup, headActive := mem, head, 0;
      magic, nrReady := 0, 0;
      assert multiset(active + backup) == multiset(active) + multiset(backup);
      NothingLeft(g, blocks);
      backup, active, free, used := active + backup, [], [], {};
    }

    /** The active blocks chained in front of the waiting ones. */
    method JoinActive() returns (mem: map<Addr, Addr>, head: Addr)
      requires Valid()
      ensures Chain(mem, head, active + backup, 0)
    {
      mem, head := next, headBackup;
      ChainTail(next, headActive, active);
      if headActive != 0 {
        var last := LastOf(headActive, active);
        mem, head := next[last := headBackup], headActive;
        ActiveJoined(last, mem);
      } else {
        assert active + backup == backup;
      }
    }

    method LastOf(head: Addr, ghost xs: seq<Addr>) returns (last: Addr)
      requires Chain(next, head, xs, 0) && head != 0
      ensures xs != [] && last == xs[|xs| - 1]
    {
      last := head;
      ghost var i := 0;
      ChainTail(next, head, xs);
      AtEnd(next, head, xs, 0);
      while next[last] != 0
        invariant 0 <= i < |xs| && last == xs[i] && last in next && (next[last] == 0 <==> i + 1 == |xs|)
        decreases |xs| - i
      {
        AtEnd(next, head, xs, i);
        last := next[last];
        i := i + 1;
        AtEnd(next, head, xs, i);
      }
    }

    static lemma AtEnd(next: map<Addr, Addr>, head: Addr, xs: seq<Addr>, i: nat)
      requires Chain(next, head, xs, 0) && i < |xs|
      ensures xs[i] in next && (next[xs[i]] == 0 <==> i + 1 == |xs|) && (i + 1 < |xs| ==> next[xs[i]] == xs[i + 1])
    {
      assert Link(next, xs, 0, i);
      assert i + 1 < |xs| ==> Link(next, xs, 0, i + 1);
    }

    /** The active blocks' chain goes on into the waiting ones'. */
    lemma ActiveJoined(last: Addr, mem: map<Addr, Addr>)
      requires g.Ok() && Blocks(g, blocks) && multiset(active) + multiset(backup) + multiset(core) == multiset(blocks)
      requires Chain(next, headActive, active, 0) && Chain(next, headBackup, backup, 0)
      requires active != [] && last == active[|active| - 1] && mem == next[last := headBackup]
      ensures Chain(mem, headActive, active + backup, 0)
    {
      var all := multiset(active) + multiset(backup) + multiset(core);
      assert multiset(active)[last] + multiset(backup)[last] <= 1 by { assert all[last] <= 1; }
      var front := active[..|active| - 1];
      assert active == front + [last];
      assert multiset(active) == multiset(front) + multiset{last};
      assert last !in front && last !in backup;
      assert active[0] != last || |active| == 1 by { if |active| > 1 { assert active[0] == front[0]; } }
      forall i | 0 <= i < |active| ensures Link(mem, active, headBackup, i) {
        assert Link(next, active, 0, i);
        if i < |active| - 1 { assert active[i] == front[i]; }
      }
      ChainFrame(next, mem, headBackup, backup, 0);
      ChainJoin(mem, headActive, active, headBackup, backup);
    }
  }
}
