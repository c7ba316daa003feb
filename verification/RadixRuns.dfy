/** Whole runs of the radix tree: it answers like a finite map from keys to tuples. */
module RadixRuns {
  import opened Bytes
  import opened RadixTree
  import opened RadixNodes
  import opened RadixStores
  import opened ArtTrees

  type Tuples = map<Key, Ptr>

  datatype Op = Insert(key: Key, tid: Ptr) | Erase(key: Key) | Lookup(key: Key)

  ghost function Apply(m: Tuples, op: Op): Tuples {
    match op
    case Insert(k, tid) => m[k := tid]
    case Erase(k) => m - {k}
    case Lookup(_) => m
  }

  /** What a lookup returns: the leaf of the key's tuple, null for a key that is not stored. */
  ghost function Answer(m: Tuples, op: Op): Ptr {
    if op.Lookup? && op.key in m then MakeLeaf(m[op.key]) else 0
  }

  ghost function After(m: Tuples, ops: seq<Op>, n: nat): Tuples
    requires n <= |ops|
  {
    if n == 0 then m else Apply(After(m, ops, n - 1), ops[n - 1])
  }

  /** The operation's key is one of ks; an insert is of an absent key, with its tuple. */
  ghost predicate Legal(m: Tuples, ops: seq<Op>, ks: set<Key>, i: nat)
    requires i < |ops|
  {
    ops[i].key in ks && (ops[i].Insert? ==> ops[i].key !in After(m, ops, i) && loadKey(ops[i].tid) == ops[i].key)
  }

  lemma SubsetPrefixFree(ks: set<Key>, some: set<Key>)
    requires PrefixFree(ks) && some <= ks
    ensures PrefixFree(some)
  {
    forall a, b | a in some && b in some ensures Disjoint(a, b) {}
  }

  method Step(tree: ArtTree, op: Op, ghost ks: set<Key>) returns (answer: Ptr)
    requires tree.Valid() && PrefixFree(ks) && tree.Contents().Keys <= ks && op.key in ks
    requires op.Insert? ==> op.key !in tree.Contents() && loadKey(op.tid) == op.key
    modifies tree, tree.nodes.Values
    ensures tree.Valid() && fresh(tree.nodes.Values - old(tree.nodes.Values))
    ensures tree.Contents() == Apply(old(tree.Contents()), op) && tree.Contents().Keys <= ks
    ensures answer == Answer(old(tree.Contents()), op)
  {
    assert tree.Contents().Keys == Stored(tree.tree);
    SubsetPrefixFree(ks, Stored(tree.tree) + {op.key});
    answer := 0;
    match op {
      case Insert(k, tid) => tree.Insert(k, tid);
      case Erase(k) => tree.Erase(k);
      case Lookup(k) => answer := tree.LookupPessimistic(k);
    }
  }

  ghost predicate AnswerAt(m: Tuples, ops: seq<Op>, answers: seq<Ptr>, i: nat)
    requires i < |answers| <= |ops|
  {
    answers[i] == Answer(After(m, ops, i), ops[i])
  }

  lemma AnswersNext(m: Tuples, ops: seq<Op>, answers: seq<Ptr>, answer: Ptr)
    requires |answers| < |ops| && forall i | 0 <= i < |answers| :: AnswerAt(m, ops, answers, i)
    requires answer == Answer(After(m, ops, |answers|), ops[|answers|])
    ensures forall i | 0 <= i <= |answers| :: AnswerAt(m, ops, answers + [answer], i)
  {
    forall i | 0 <= i < |answers| ensures AnswerAt(m, ops, answers + [answer], i) {
      assert AnswerAt(m, ops, answers, i);
    }
  }

  /** Any run of inserts of absent keys, erases and lookups of keys none of which is a prefix of another: every lookup
      finds exactly what the operations before it have left. */
  method Run(tree: ArtTree, ops: seq<Op>, ghost ks: set<Key>) returns (answers: seq<Ptr>)
    requires tree.Valid() && PrefixFree(ks) && tree.Contents().Keys <= ks
    requires forall i | 0 <= i < |ops| :: Legal(tree.Contents(), ops, ks, i)
    modifies tree, tree.nodes.Values
    ensures tree.Valid() && |answers| == |ops| && tree.Contents() == After(old(tree.Contents()), ops, |ops|)
    ensures forall i | 0 <= i < |ops| :: AnswerAt(old(tree.Contents()), ops, answers, i)
  {
    answers := [];
    ghost var m0 := tree.Contents();
    while |answers| < |ops|
      invariant |answers| <= |ops| && tree.Valid() && fresh(tree.nodes.Values - old(tree.nodes.Values))
      invariant tree.Contents() == After(m0, ops, |answers|) && tree.Contents().Keys <= ks
      invariant forall i | 0 <= i < |answers| :: AnswerAt(m0, ops, answers, i)
    {
      assert Legal(m0, ops, ks, |answers|);
      ghost var v := tree.nodes.Values;
      var answer := Step(tree, ops[|answers|], ks);
      assert tree.nodes.Values - old(tree.nodes.Values) <= (tree.nodes.Values - v) + (v - old(tree.nodes.Values));
      AnswersNext(m0, ops, answers, answer);
      answers := answers + [answer];
    }
  }
}
