/**
 * The Connectivity Manager as an index-based forest: `parent[i] == i` marks
 * a root (Puzzle.java:395). A ghost rank that strictly grows toward the
 * root witnesses that every parent chain ends.
 */
module UnionFind {

  /** Every parent is an index, and each step toward the root raises the rank. */
  ghost predicate Ranked(parent: seq<int>, rank: seq<nat>)
  {
    && |rank| == |parent|
    && forall i :: 0 <= i < |parent| ==>
         0 <= parent[i] < |parent| && (parent[i] != i ==> rank[parent[i]] < rank[i])
  }

  /** The root reached by following parents from `i`. */
  ghost function Root(parent: seq<int>, rank: seq<nat>, i: int): (r: int)
    requires Ranked(parent, rank) && 0 <= i < |parent|
    ensures 0 <= r < |parent| && parent[r] == r
    ensures r != i ==> parent[i] != i && rank[r] < rank[i]
    decreases rank[i]
  {
    if parent[i] == i then i else Root(parent, rank, parent[i])
  }

  /** The root of every piece, indexed by piece id. */
  ghost function RootsOf(parent: seq<int>, rank: seq<nat>): (roots: seq<int>)
    requires Ranked(parent, rank)
    ensures |roots| == |parent|
    ensures forall i :: 0 <= i < |parent| ==> roots[i] == Root(parent, rank, i)
  {
    seq(|parent|, i requires 0 <= i < |parent| => Root(parent, rank, i))
  }

  /** Resolving a root again gives the same root. */
  lemma RootIdempotent(parent: seq<int>, rank: seq<nat>, i: int)
    requires Ranked(parent, rank) && 0 <= i < |parent|
    ensures Root(parent, rank, Root(parent, rank, i)) == Root(parent, rank, i)
  {
  }

  /** A node that is its own root is a root: its parent is itself. */
  lemma RootFixed(parent: seq<int>, rank: seq<nat>, i: int)
    requires Ranked(parent, rank) && 0 <= i < |parent| && Root(parent, rank, i) == i
    ensures parent[i] == i
  {
  }

  /** The merge of two labelled groups: everything labelled like `a` takes the label of `b` (Puzzle.java:385). */
  function Join(group: seq<int>, a: int, b: int): (r: seq<int>)
    requires 0 <= a < |group| && 0 <= b < |group|
    ensures |r| == |group|
  {
    seq(|group|, i requires 0 <= i < |group| => if group[i] == group[a] then group[b] else group[i])
  }

  /**
   * After a join, two entries share a label exactly when they did before or
   * both were in one of the two merged groups; `a` and `b` share one, and
   * every label is either kept or is the label of `b`.
   */
  lemma JoinMerges(group: seq<int>, a: int, b: int)
    requires 0 <= a < |group| && 0 <= b < |group|
    ensures Join(group, a, b)[a] == Join(group, a, b)[b]
    ensures forall i, j :: 0 <= i < |group| && 0 <= j < |group| ==>
              (Join(group, a, b)[i] == Join(group, a, b)[j] <==>
                 (group[i] == group[j]
                  || ((group[i] == group[a] || group[i] == group[b]) && (group[j] == group[a] || group[j] == group[b]))))
    ensures forall i :: 0 <= i < |group| ==> Join(group, a, b)[i] == group[i] || Join(group, a, b)[i] == group[b]
  {
  }

  lemma {:induction false} CompressKeepsRoot(parent: seq<int>, rank: seq<nat>, i: int, j: int)
    requires Ranked(parent, rank) && 0 <= i < |parent| && 0 <= j < |parent|
    requires Ranked(parent[i := Root(parent, rank, i)], rank)
    ensures Root(parent[i := Root(parent, rank, i)], rank, j) == Root(parent, rank, j)
    decreases rank[j]
  {
    var p' := parent[i := Root(parent, rank, i)];
    if j == i {
      var r := Root(parent, rank, i);
      if r != i {
        assert p'[r] == r;
      }
    } else if parent[j] != j {
      CompressKeepsRoot(parent, rank, i, parent[j]);
    }
  }

  /**
   * Path compression: pointing `i` straight at its root keeps the forest
   * ranked and leaves every node's root unchanged (Puzzle.java:396).
   */
  lemma Compress(parent: seq<int>, rank: seq<nat>, i: int)
    requires Ranked(parent, rank) && 0 <= i < |parent|
    ensures Ranked(parent[i := Root(parent, rank, i)], rank)
    ensures RootsOf(parent[i := Root(parent, rank, i)], rank) == RootsOf(parent, rank)
  {
    var p' := parent[i := Root(parent, rank, i)];
    assert Ranked(p', rank);
    forall j | 0 <= j < |parent|
      ensures Root(p', rank, j) == Root(parent, rank, j)
    {
      CompressKeepsRoot(parent, rank, i, j);
    }
  }

  /** Ranks after hanging root `ra` under root `rb`: the whole tree of `ra` is lifted above `rb`. */
  ghost function LinkRank(parent: seq<int>, rank: seq<nat>, ra: int, rb: int): (rank': seq<nat>)
    requires Ranked(parent, rank) && 0 <= ra < |parent| && 0 <= rb < |parent|
    ensures |rank'| == |rank|
  {
    seq(|rank|, k requires 0 <= k < |rank| =>
      if ra != rb && Root(parent, rank, k) == ra then rank[k] + rank[rb] + 1 else rank[k])
  }

  lemma {:induction false} LinkRoot(parent: seq<int>, rank: seq<nat>, ra: int, rb: int, j: int)
    requires Ranked(parent, rank) && 0 <= ra < |parent| && 0 <= rb < |parent|
    requires parent[ra] == ra && parent[rb] == rb && ra != rb
    requires Ranked(parent[ra := rb], LinkRank(parent, rank, ra, rb))
    requires 0 <= j < |parent|
    ensures Root(parent[ra := rb], LinkRank(parent, rank, ra, rb), j)
            == if Root(parent, rank, j) == ra then rb else Root(parent, rank, j)
    decreases rank[j]
  {
    if parent[j] != j {
      LinkRoot(parent, rank, ra, rb, parent[j]);
    }
  }

  /**
   * Union of two roots (Puzzle.java:385): `parent[ra] := rb` keeps the
   * forest ranked, and the new roots are the old ones with the group of
   * `ra` merged into that of `rb`.
   */
  lemma Link(parent: seq<int>, rank: seq<nat>, ra: int, rb: int)
    requires Ranked(parent, rank) && 0 <= ra < |parent| && 0 <= rb < |parent|
    requires parent[ra] == ra && parent[rb] == rb
    ensures Ranked(parent[ra := rb], LinkRank(parent, rank, ra, rb))
    ensures RootsOf(parent[ra := rb], LinkRank(parent, rank, ra, rb)) == Join(RootsOf(parent, rank), ra, rb)
  {
    var p', rank' := parent[ra := rb], LinkRank(parent, rank, ra, rb);
    if ra == rb {
      assert p' == parent && rank' == rank;
    } else {
      forall i | 0 <= i < |p'| && p'[i] != i
        ensures rank'[p'[i]] < rank'[i]
      {
        if i != ra {
          assert Root(parent, rank, parent[i]) == Root(parent, rank, i);
        }
      }
      assert Ranked(p', rank');
      forall j | 0 <= j < |parent|
        ensures Root(p', rank', j) == Join(RootsOf(parent, rank), ra, rb)[j]
      {
        LinkRoot(parent, rank, ra, rb, j);
      }
    }
  }
}
