/** Whole runs: the tree answers like a finite map, as DataStructureWrapper checks it against std::map. */
module Runs {
  import opened Bytes
  import opened Layout
  import opened Nodes
  import opened Trees
  import opened Splits
  import opened Passes
  import opened SmallEntries
  import opened BTrees

  type Contents = map<Key, seq<Byte>>

  datatype Op = Insert(key: Key, payload: seq<Byte>) | Remove(key: Key) | Lookup(key: Key)

  datatype Answer = Done | Removed(found: bool) | Found(payload: Option<seq<Byte>>)

  /** What the operation does to a finite map, and what it answers. */
  ghost function Apply(m: Contents, op: Op): Contents {
    match op
    case Insert(k, v) => m[k := v]
    case Remove(k) => m - {k}
    case Lookup(_) => m
  }

  ghost function Reply(m: Contents, op: Op): Answer {
    match op
    case Insert(_, _) => Done
    case Remove(k) => Removed(k in m)
    case Lookup(k) => Found(Get(m, k))
  }

  ghost function After(m: Contents, ops: seq<Op>, n: nat): Contents
    requires n <= |ops|
  {
    if n == 0 then m else Apply(After(m, ops, n - 1), ops[n - 1])
  }

  /** Inserts are of absent keys and of entries that fit the limit. */
  ghost predicate Legal(m: Contents, ops: seq<Op>, i: nat)
    requires i < |ops|
  {
    ops[i].Insert? ==> ops[i].key !in After(m, ops, i) && |ops[i].key| + |ops[i].payload| <= MaxKVSize()
  }

  ghost predicate AtMost(op: Op, m: nat) {
    op.Insert? ==> |op.key| + |op.payload| <= m
  }

  method Step(tree: BTree, op: Op) returns (ok: bool, answer: Answer)
    requires tree.Valid()
    requires op.Insert? ==> op.key !in tree.contents && |op.key| + |op.payload| <= MaxKVSize()
    modifies tree, tree.pages.Values
    ensures tree.Valid() && fresh(tree.pages.Values - old(tree.pages.Values))
    ensures ok ==> answer == Reply(old(tree.contents), op)
    ensures tree.contents == if ok then Apply(old(tree.contents), op) else old(tree.contents)
    ensures ok <==> !(op.Insert? && Doomed(old(tree.t), op.key, |op.payload|))
    ensures !ok ==> op.Insert? && Refuses(tree.t, op.key, |op.payload|)
    ensures tree.t.longest == if ok && op.Insert? then Longest(old(tree.t).longest, |op.key| + |op.payload|) else old(tree.t).longest
  {
    match op {
      case Insert(k, v) =>
        ok := tree.InsertImpl(k, v);
        answer := Done;
      case Remove(k) =>
        var removed := tree.RemoveImpl(k);
        ok, answer := true, Removed(removed);
      case Lookup(k) =>
        var found := tree.Lookup(k);
        ok, answer := true, Found(found);
    }
  }

  ghost predicate AnswerAt(m: Contents, ops: seq<Op>, answers: seq<Answer>, i: nat)
    requires i < |answers| <= |ops|
  {
    answers[i] == Reply(After(m, ops, i), ops[i])
  }

  lemma AnswersNext(m: Contents, ops: seq<Op>, answers: seq<Answer>, answer: Answer)
    requires |answers| < |ops| && forall i | 0 <= i < |answers| :: AnswerAt(m, ops, answers, i)
    requires answer == Reply(After(m, ops, |answers|), ops[|answers|])
    ensures forall i | 0 <= i <= |answers| :: AnswerAt(m, ops, answers + [answer], i)
  {
    forall i | 0 <= i < |answers| ensures AnswerAt(m, ops, answers + [answer], i) {
      assert AnswerAt(m, ops, answers, i);
    }
  }

  /** Runs the operations until one aborts: all answers are the map's. When every entry is small, only memory can
      cut the run short. */
  method Run(tree: BTree, ops: seq<Op>, ghost m: nat) returns (answers: seq<Answer>)
    requires tree.Valid() && forall i | 0 <= i < |ops| :: Legal(tree.contents, ops, i)
    requires tree.t.longest <= m && forall i | 0 <= i < |ops| :: AtMost(ops[i], m)
    modifies tree, tree.pages.Values
    ensures tree.Valid() && |answers| <= |ops|
    ensures tree.contents == After(old(tree.contents), ops, |answers|)
    ensures forall i | 0 <= i < |answers| :: AnswerAt(old(tree.contents), ops, answers, i)
    ensures |answers| < |ops| ==> ops[|answers|].Insert? && Refuses(tree.t, ops[|answers|].key, |ops[|answers|].payload|)
    ensures |answers| < |ops| && Small(m) ==> NearlyOut(tree.t)
  {
    answers := [];
    ghost var m0 := tree.contents;
    var ok := true;
    while ok && |answers| < |ops|
      invariant |answers| <= |ops| && tree.Valid() && fresh(tree.pages.Values - old(tree.pages.Values))
      invariant tree.contents == After(m0, ops, |answers|) && tree.t.longest <= m
      invariant forall i | 0 <= i < |answers| :: AnswerAt(m0, ops, answers, i)
      invariant !ok ==> |answers| < |ops| && ops[|answers|].Insert? && Refuses(tree.t, ops[|answers|].key, |ops[|answers|].payload|)
      decreases |ops| - |answers|, ok
    {
      assert Legal(m0, ops, |answers|) && AtMost(ops[|answers|], m);
      ghost var v := tree.pages.Values;
      var answer;
      ok, answer := Step(tree, ops[|answers|]);
      assert tree.pages.Values - old(tree.pages.Values) <= (tree.pages.Values - v) + (v - old(tree.pages.Values));
      if ok {
        AnswersNext(m0, ops, answers, answer);
        answers := answers + [answer];
      }
    }
    if !ok && Small(m) { SmallNeverRefuses(tree.t, ops[|answers|].key, |ops[|answers|].payload|, m); }
  }
}
