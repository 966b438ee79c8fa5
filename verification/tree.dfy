/**
 * A file tree as a map from path text to content, and what a sequence of
 * writes does to it: each write sets one path, and a later write to the
 * same path replaces the earlier one. Writes grouped in blocks of equal
 * size are numbered block by block.
 */
module Tree {
  /** One file write: the path and the content. */
  type Write = (string, string)

  /** The tree after the writes, in order, starting from `m`. */
  function Apply(m: map<string, string>, writes: seq<Write>): map<string, string>
  {
    if |writes| == 0 then m
    else Apply(m, writes[..|writes| - 1])[writes[|writes| - 1].0 := writes[|writes| - 1].1]
  }

  /** One more write sets its path. */
  lemma ApplySnoc(m: map<string, string>, writes: seq<Write>, w: Write)
    ensures Apply(m, writes + [w]) == Apply(m, writes)[w.0 := w.1]
  {
    assert (writes + [w])[..|writes|] == writes;
  }

  /** Writing `a` then `b` is writing `a + b`. */
  lemma {:induction false} ApplyAppend(m: map<string, string>, a: seq<Write>, b: seq<Write>)
    ensures Apply(m, a + b) == Apply(Apply(m, a), b)
  {
    if |b| == 0 {
      assert a + b == a;
    } else {
      var b' := b[..|b| - 1];
      assert (a + b)[..|a + b| - 1] == a + b';
      ApplyAppend(m, a, b');
    }
  }

  /** A path is in the tree exactly when it was there before or some write
      went to it. */
  lemma {:induction false} ApplyKeys(m: map<string, string>, writes: seq<Write>, path: string)
    ensures path in Apply(m, writes) <==> path in m || exists j :: 0 <= j < |writes| && writes[j].0 == path
  {
    if |writes| > 0 {
      var front := writes[..|writes| - 1];
      ApplyKeys(m, front, path);
      if exists j :: 0 <= j < |front| && front[j].0 == path {
        var j :| 0 <= j < |front| && front[j].0 == path;
        assert writes[j].0 == path;
      }
      if exists j :: 0 <= j < |writes| && writes[j].0 == path {
        var j :| 0 <= j < |writes| && writes[j].0 == path;
        if j < |front| {
          assert front[j].0 == path;
        }
      }
    }
  }

  /** A path holds the content of the last write that went to it. */
  lemma {:induction false} ApplyLastWins(m: map<string, string>, writes: seq<Write>, j: nat)
    requires j < |writes|
    requires forall l :: j < l < |writes| ==> writes[l].0 != writes[j].0
    ensures writes[j].0 in Apply(m, writes) && Apply(m, writes)[writes[j].0] == writes[j].1
  {
    var front := writes[..|writes| - 1];
    if j < |writes| - 1 {
      assert forall l :: j < l < |front| ==> front[l] == writes[l];
      ApplyLastWins(m, front, j);
    }
  }

  /** The blocks of writes one after the other. */
  function Concat(blocks: seq<seq<Write>>): seq<Write>
  {
    if |blocks| == 0 then []
    else Concat(blocks[..|blocks| - 1]) + blocks[|blocks| - 1]
  }

  /** The position of write `t` of block `i`, when every block has `count` writes. */
  function Position(i: nat, t: nat, count: nat): nat
  {
    i * count + t
  }

  /** With `count` writes in every block, write `t` of block `i` sits at
      `Position(i, t, count)`. */
  lemma {:induction false} ConcatIndex(blocks: seq<seq<Write>>, count: nat)
    requires forall b :: 0 <= b < |blocks| ==> |blocks[b]| == count
    ensures |Concat(blocks)| == |blocks| * count
    ensures forall i, t :: 0 <= i < |blocks| && 0 <= t < count ==>
      Position(i, t, count) < |blocks| * count && Concat(blocks)[Position(i, t, count)] == blocks[i][t]
  {
    var n := |blocks|;
    if n > 0 {
      var front := blocks[..n - 1];
      ConcatIndex(front, count);
      assert n * count == (n - 1) * count + count;
      forall i, t | 0 <= i < n && 0 <= t < count
        ensures Position(i, t, count) < n * count
        ensures Concat(blocks)[Position(i, t, count)] == blocks[i][t]
      {
        PositionBound(i, t, n, count);
        if i < n - 1 {
          assert front[i] == blocks[i];
        }
      }
    }
  }

  lemma PositionBound(i: nat, t: nat, n: nat, count: nat)
    requires i < n && t < count
    ensures Position(i, t, count) < n * count
    ensures i < n - 1 ==> Position(i, t, count) < (n - 1) * count
    ensures i == n - 1 ==> Position(i, t, count) == (n - 1) * count + t
  {
    assert (i + 1) * count <= n * count;
    if i < n - 1 {
      assert (i + 1) * count <= (n - 1) * count;
    }
  }

  /** Block-then-write order is the order of positions. */
  lemma PositionOrder(i: nat, t: nat, i': nat, t': nat, count: nat)
    requires t < count && t' < count
    ensures Position(i, t, count) < Position(i', t', count) <==> i < i' || (i == i' && t < t')
  {
    if i < i' {
      assert (i + 1) * count <= i' * count;
    } else if i' < i {
      assert (i' + 1) * count <= i * count;
    }
  }

  /** Every position below `n * count` is the position of one write of one block. */
  lemma PositionSplit(j: nat, count: nat, n: nat) returns (i: nat, t: nat)
    requires j < n * count
    ensures i < n && t < count && Position(i, t, count) == j
  {
    i, t := j / count, j % count;
  }

  /** A path is in the tree built from empty by the blocks exactly when
      some write of some block went to it. */
  lemma ConcatKeys(blocks: seq<seq<Write>>, count: nat, path: string)
    requires forall b :: 0 <= b < |blocks| ==> |blocks[b]| == count
    ensures path in Apply(map[], Concat(blocks)) <==>
      exists i, t :: 0 <= i < |blocks| && 0 <= t < count && blocks[i][t].0 == path
  {
    var w := Concat(blocks);
    ApplyKeys(map[], w, path);
    ConcatIndex(blocks, count);
    if exists j :: 0 <= j < |w| && w[j].0 == path {
      var j :| 0 <= j < |w| && w[j].0 == path;
      var i, t := PositionSplit(j, count, |blocks|);
      assert blocks[i][t].0 == path;
    }
    if exists i, t :: 0 <= i < |blocks| && 0 <= t < count && blocks[i][t].0 == path {
      var i, t :| 0 <= i < |blocks| && 0 <= t < count && blocks[i][t].0 == path;
      assert w[Position(i, t, count)].0 == path;
    }
  }

  /** The block and the write within it that put a path in the tree. */
  lemma ConcatKeyFrom(blocks: seq<seq<Write>>, count: nat, path: string) returns (i: nat, t: nat)
    requires forall b :: 0 <= b < |blocks| ==> |blocks[b]| == count
    requires path in Apply(map[], Concat(blocks))
    ensures i < |blocks| && t < count && blocks[i][t].0 == path
  {
    ConcatKeys(blocks, count, path);
    i, t :| 0 <= i < |blocks| && 0 <= t < count && blocks[i][t].0 == path;
  }

  /** A path holds the content of the last write, in block-then-write
      order, that went to it. */
  lemma ConcatLastWins(blocks: seq<seq<Write>>, count: nat, i: nat, t: nat)
    requires forall b :: 0 <= b < |blocks| ==> |blocks[b]| == count
    requires i < |blocks| && t < count
    requires forall i', t' :: 0 <= i' < |blocks| && 0 <= t' < count && (i < i' || (i == i' && t < t')) ==>
      blocks[i'][t'].0 != blocks[i][t].0
    ensures blocks[i][t].0 in Apply(map[], Concat(blocks))
    ensures Apply(map[], Concat(blocks))[blocks[i][t].0] == blocks[i][t].1
  {
    var w := Concat(blocks);
    var j := Position(i, t, count);
    ConcatIndex(blocks, count);
    forall l | j < l < |w| ensures w[l].0 != w[j].0 {
      var i', t' := PositionSplit(l, count, |blocks|);
      PositionOrder(i, t, i', t', count);
    }
    ApplyLastWins(map[], w, j);
  }
}
