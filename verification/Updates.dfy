/** How the page operations change a page's order and what looking a key up in it finds. */
module Updates {
  import opened Bytes
  import opened Nodes
  import opened Separators

  /** Looking a key up finds a payload exactly when the page holds that entry. */
  lemma LookupHas(es: seq<Entry>, k: Key, v: seq<Byte>)
    requires Sorted(es)
    ensures Lookup(es, k) == Some(v) <==> Entry(k, v) in es
  {
    LookupIs(es, k);
    if Entry(k, v) in es {
      var i :| 0 <= i < |es| && es[i] == Entry(k, v);
      assert es[i].key == k;
    }
  }

  ghost predicate SameFor(es: seq<Entry>, es': seq<Entry>, k: Key, v: seq<Byte>) {
    Entry(k, v) in es <==> Entry(k, v) in es'
  }

  /** Pages with the same entries for a key answer alike. */
  lemma LookupSame(es: seq<Entry>, es': seq<Entry>, k: Key)
    requires Sorted(es) && Sorted(es') && forall v :: SameFor(es, es', k, v)
    ensures Lookup(es, k) == Lookup(es', k)
  {
    match Lookup(es, k) {
      case Some(v) =>
        LookupHas(es, k, v);
        assert SameFor(es, es', k, v);
        LookupHas(es', k, v);
      case None =>
        match Lookup(es', k) {
          case Some(v) =>
            LookupHas(es', k, v);
            assert SameFor(es, es', k, v);
            LookupHas(es, k, v);
          case None =>
        }
    }
  }

  // ---- insert ----

  lemma InsertedHas<T>(xs: seq<T>, pos: nat, x: T, y: T)
    requires pos <= |xs|
    ensures y in Inserted(xs, pos, x) <==> y == x || y in xs
  {
    assert xs == xs[..pos] + xs[pos..];
  }

  lemma InsertOrdered(n: Node, e: Entry)
    requires Ordered(n) && Within(n.lower, n.upper, e.key)
    requires forall i | 0 <= i < |n.entries| :: n.entries[i].key != e.key
    ensures Ordered(InsertEntry(n, e))
  {
    var pos := LowerBound(n.entries, e.key);
    var r := Inserted(n.entries, pos, e);
    forall i, j | 0 <= i < j < |r| ensures InOrder(r, i, j) {
      var i' := if i < pos then i else i - 1;
      var j' := if j < pos then j else j - 1;
      if i != pos && j != pos {
        assert InOrder(n.entries, i', j');
      }
    }
  }

  lemma LookupInserted(n: Node, e: Entry, k: Key)
    requires Ordered(n) && Ordered(InsertEntry(n, e))
    ensures Lookup(InsertEntry(n, e).entries, k) == if k == e.key then Some(e.payload) else Lookup(n.entries, k)
  {
    var es := InsertEntry(n, e).entries;
    var pos := LowerBound(n.entries, e.key);
    if k == e.key {
      InsertedHas(n.entries, pos, e, e);
      LookupHas(es, k, e.payload);
    } else {
      forall v ensures SameFor(es, n.entries, k, v) {
        InsertedHas(n.entries, pos, e, Entry(k, v));
      }
      LookupSame(es, n.entries, k);
    }
  }

  // ---- remove ----

  lemma RemoveOrdered(n: Node, pos: nat)
    requires Ordered(n) && pos < |n.entries|
    ensures Ordered(RemoveAt(n, pos))
  {
    var r := Removed(n.entries, pos);
    forall i, j | 0 <= i < j < |r| ensures InOrder(r, i, j) {
      assert InOrder(n.entries, if i < pos then i else i + 1, if j < pos then j else j + 1);
    }
  }

  lemma RemovedHas<T>(xs: seq<T>, pos: nat, y: T)
    requires pos < |xs|
    ensures y in xs <==> y == xs[pos] || y in Removed(xs, pos)
  {
    assert xs == xs[..pos] + [xs[pos]] + xs[pos + 1..];
  }

  lemma LookupRemoved(n: Node, pos: nat, k: Key)
    requires Ordered(n) && pos < |n.entries| && Ordered(RemoveAt(n, pos))
    ensures Lookup(RemoveAt(n, pos).entries, k) == if k == n.entries[pos].key then None else Lookup(n.entries, k)
  {
    var es := RemoveAt(n, pos).entries;
    if k == n.entries[pos].key {
      forall i | 0 <= i < |es| ensures es[i].key != k {
        DistinctKeys(n.entries, if i < pos then i else i + 1, pos);
      }
      LookupIs(es, k);
    } else {
      forall v ensures SameFor(es, n.entries, k, v) {
        RemovedHas(n.entries, pos, Entry(k, v));
      }
      LookupSame(es, n.entries, k);
    }
  }

  // ---- split ----

  lemma SlicesHave<T>(xs: seq<T>, at: nat, y: T)
    requires at <= |xs|
    ensures y in xs <==> y in xs[..at] || y in xs[at..]
  {
    assert xs == xs[..at] + xs[at..];
  }

  /** After a leaf split a key up to the separator is looked up on the left, any other on the right. */
  lemma LookupSplit(n: Node, slot: nat, sep: Key, k: Key)
    requires Ordered(n) && n.isLeaf && SplitsAt(n, slot, sep)
    ensures Ordered(SplitLeft(n, slot, sep)) && Ordered(SplitRight(n, slot, sep))
    ensures Lookup((if LessEq(k, sep) then SplitLeft(n, slot, sep) else SplitRight(n, slot, sep)).entries, k) == Lookup(n.entries, k)
  {
    SplitOrdered(n, slot, sep);
    SplitSeparates(n, slot, sep);
    SplitOrder(n, slot, sep);
    LessTotal(k, sep);
    var es := (if LessEq(k, sep) then SplitLeft(n, slot, sep) else SplitRight(n, slot, sep)).entries;
    forall v ensures SameFor(es, n.entries, k, v) {
      SlicesHave(n.entries, slot + 1, Entry(k, v));
    }
    LookupSame(es, n.entries, k);
  }

  // ---- merge ----

  /** A merged leaf answers like the part the key belonged to. */
  lemma LookupMerged(l: Node, r: Node, k: Key)
    requires Ordered(l) && Ordered(r) && l.upper == r.lower != [] && Ordered(Merge(l, r))
    ensures Lookup(Merge(l, r).entries, k) == Lookup(if LessEq(k, l.upper) then l.entries else r.entries, k)
  {
    var es := if LessEq(k, l.upper) then l.entries else r.entries;
    LessTotal(k, l.upper);
    forall i | 0 <= i < |r.entries| ensures LessEq(k, l.upper) ==> r.entries[i].key != k {
      assert Within(r.lower, r.upper, r.entries[i].key);
    }
    forall i | 0 <= i < |l.entries| ensures !LessEq(k, l.upper) ==> l.entries[i].key != k {
      assert Within(l.lower, l.upper, l.entries[i].key);
    }
    forall v ensures SameFor(Merge(l, r).entries, es, k, v) {}
    LookupSame(Merge(l, r).entries, es, k);
  }
}
