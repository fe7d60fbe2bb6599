/**
  The lost-commit analysis: which commits would no longer be reachable from any
  reference if the reference `refname` were moved to `movingTo`. After a few
  short-circuit rules the analysis walks from the referenced commit towards its
  parents, one frontier at a time, following only parents that nothing else keeps
  alive.
*/
module LostCommits {
  import opened Wrappers
  import opened CommitStore

  datatype LostError =
    | UnknownRef(refname: string)
    | UnknownCommit(id: Id)

  type RefIndex = map<Id, seq<string>>

  ghost predicate AllIn(pool: Pool, ids: seq<Id>)
  {
    forall i :: 0 <= i < |ids| ==> ids[i] in pool
  }

  /** A parent the walk follows: no reference names it, it is not the destination of the
      move, and it has exactly one child. */
  predicate Follows(pool: Pool, refsBySha1: RefIndex, movingTo: Option<Id>, p: Id)
    requires p in pool
  {
    p !in refsBySha1 && movingTo != Some(p) && |pool[p].children| == 1
  }

  /** The parents, in order, that the walk follows. */
  function Followed(pool: Pool, refsBySha1: RefIndex, movingTo: Option<Id>, parents: seq<Id>)
    : (r: seq<Id>)
    requires AllIn(pool, parents)
    ensures AllIn(pool, r)
    decreases |parents|
  {
    if parents == [] then []
    else
      var n := |parents| - 1;
      Followed(pool, refsBySha1, movingTo, parents[..n]) +
      (if Follows(pool, refsBySha1, movingTo, parents[n]) then [parents[n]] else [])
  }

  /** The next frontier: the followed parents of each commit of the frontier, in order. */
  function NextFrontier(pool: Pool, refsBySha1: RefIndex, movingTo: Option<Id>, frontier: seq<Id>)
    : (r: seq<Id>)
    requires Closed(pool) && AllIn(pool, frontier)
    ensures AllIn(pool, r)
    decreases |frontier|
  {
    if frontier == [] then []
    else
      var n := |frontier| - 1;
      NextFrontier(pool, refsBySha1, movingTo, frontier[..n]) +
      Followed(pool, refsBySha1, movingTo, pool[frontier[n]].parents)
  }

  /** The frontiers from `frontier` on, concatenated, until one is empty. The history is
      acyclic (`rank`), so every next frontier ranks lower and the walk ends. */
  function Walk(pool: Pool, refsBySha1: RefIndex, movingTo: Option<Id>, frontier: seq<Id>,
                ghost rank: map<Id, nat>): (r: seq<Id>)
    requires Closed(pool) && Ranked(pool, rank) && AllIn(pool, frontier)
    ensures AllIn(pool, r)
    decreases if frontier == [] then 0 else 1 + MaxRank(rank, frontier)
  {
    if frontier == [] then []
    else
      var next := NextFrontier(pool, refsBySha1, movingTo, frontier);
      NextRanksLower(pool, refsBySha1, movingTo, frontier, rank);
      frontier + Walk(pool, refsBySha1, movingTo, next, rank)
  }

  /** The commit a reference name designates: HEAD, or an entry of the refs map. */
  function Resolve(head: Id, refs: map<string, Id>, refname: string): Option<Id>
  {
    if refname == "HEAD" then Some(head)
    else if refname in refs then Some(refs[refname])
    else None
  }

  /** The number of reference names that point at `id`. */
  function RefCount(refsBySha1: RefIndex, id: Id): nat
  {
    if id in refsBySha1 then |refsBySha1[id]| else 0
  }

  /** One of the rules under which moving the reference loses nothing: the commit is the
      destination, another name still points at it, or it has descendants. */
  predicate KeptAlive(refsBySha1: RefIndex, pool: Pool, refname: string, movingTo: Option<Id>, id: Id)
    requires id in pool
  {
    movingTo == Some(id) ||
    (refname == "HEAD" && RefCount(refsBySha1, id) > 0) || RefCount(refsBySha1, id) > 1 ||
    pool[id].children != []
  }

  /** The commits that become unreferenced when `refname` moves to `movingTo`. */
  function LostCommits(head: Id, refs: map<string, Id>, refsBySha1: RefIndex, pool: Pool,
                       refname: string, movingTo: Option<Id>, ghost rank: map<Id, nat>)
    : Result<seq<Id>, LostError>
    requires Closed(pool) && Ranked(pool, rank)
  {
    match Resolve(head, refs, refname)
    case None => Failure(UnknownRef(refname))
    case Some(id) =>
      if id !in pool then Failure(UnknownCommit(id))
      else if KeptAlive(refsBySha1, pool, refname, movingTo, id) then Success([])
      else Success(Walk(pool, refsBySha1, movingTo, [id], rank))
  }

  /** Every followed parent is one of the parents and is followed. */
  lemma {:induction false} FollowedFrom(pool: Pool, refsBySha1: RefIndex, movingTo: Option<Id>,
                                        parents: seq<Id>, x: Id)
    requires AllIn(pool, parents)
    requires x in Followed(pool, refsBySha1, movingTo, parents)
    ensures x in parents && x in pool && Follows(pool, refsBySha1, movingTo, x)
    decreases |parents|
  {
    var n := |parents| - 1;
    var front := Followed(pool, refsBySha1, movingTo, parents[..n]);
    if x in front {
      FollowedFrom(pool, refsBySha1, movingTo, parents[..n], x);
      assert x in parents[..n];
    } else {
      assert x == parents[n];
    }
  }

  /** Every member of the next frontier is a followed parent of a member of the frontier. */
  lemma {:induction false} NextFrom(pool: Pool, refsBySha1: RefIndex, movingTo: Option<Id>,
                                    frontier: seq<Id>, x: Id)
    requires Closed(pool) && AllIn(pool, frontier)
    requires x in NextFrontier(pool, refsBySha1, movingTo, frontier)
    ensures x in pool && Follows(pool, refsBySha1, movingTo, x)
    ensures exists c :: c in frontier && x in pool[c].parents
    decreases |frontier|
  {
    var n := |frontier| - 1;
    var front := NextFrontier(pool, refsBySha1, movingTo, frontier[..n]);
    if x in front {
      NextFrom(pool, refsBySha1, movingTo, frontier[..n], x);
      var c :| c in frontier[..n] && x in pool[c].parents;
      assert c in frontier;
    } else {
      FollowedFrom(pool, refsBySha1, movingTo, pool[frontier[n]].parents, x);
      assert frontier[n] in frontier;
    }
  }

  lemma {:induction false} MaxRankBelow(rank: map<Id, nat>, ids: seq<Id>, bound: nat)
    requires bound > 0
    requires forall i :: 0 <= i < |ids| ==> ids[i] in rank && rank[ids[i]] < bound
    ensures MaxRank(rank, ids) < bound
    decreases |ids|
  {
    if ids != [] {
      assert forall i :: 0 <= i < |ids| - 1 ==> ids[1..][i] == ids[i + 1];
      MaxRankBelow(rank, ids[1..], bound);
    }
  }

  /** The next frontier of a non-empty frontier ranks strictly lower. */
  lemma NextRanksLower(pool: Pool, refsBySha1: RefIndex, movingTo: Option<Id>, frontier: seq<Id>,
                       rank: map<Id, nat>)
    requires Closed(pool) && Ranked(pool, rank) && AllIn(pool, frontier) && frontier != []
    ensures var next := NextFrontier(pool, refsBySha1, movingTo, frontier);
      next == [] || MaxRank(rank, next) < MaxRank(rank, frontier)
  {
    var next := NextFrontier(pool, refsBySha1, movingTo, frontier);
    if next != [] {
      forall i | 0 <= i < |next|
        ensures next[i] in rank && rank[next[i]] < MaxRank(rank, frontier)
      {
        NextFrom(pool, refsBySha1, movingTo, frontier, next[i]);
        var c :| c in frontier && next[i] in pool[c].parents;
        var k :| 0 <= k < |frontier| && frontier[k] == c;
      }
      assert rank[next[0]] < MaxRank(rank, frontier);
      MaxRankBelow(rank, next, MaxRank(rank, frontier));
    }
  }

  /** The short-circuit rules: an unknown reference name or commit is an error; otherwise the
      result is empty exactly when the commit is kept alive by one of the rules, and when the
      walk runs it starts with the commit the reference designates. */
  lemma LostCommitsOutcome(head: Id, refs: map<string, Id>, refsBySha1: RefIndex, pool: Pool,
                           refname: string, movingTo: Option<Id>, rank: map<Id, nat>)
    requires Closed(pool) && Ranked(pool, rank)
    ensures var r := LostCommits(head, refs, refsBySha1, pool, refname, movingTo, rank);
      (r == Failure(UnknownRef(refname)) <==> refname != "HEAD" && refname !in refs) &&
      (r.Failure? && r.error.UnknownCommit? <==>
        Resolve(head, refs, refname).Some? && Resolve(head, refs, refname).value !in pool)
    ensures var r := LostCommits(head, refs, refsBySha1, pool, refname, movingTo, rank);
      r.Success? ==>
        var id := Resolve(head, refs, refname).value;
        id in pool &&
        (r.value == [] <==> KeptAlive(refsBySha1, pool, refname, movingTo, id)) &&
        (r.value != [] ==> r.value[0] == id)
  {
  }

  /** Every commit found after the first one is followed — no reference names it, it is not
      the destination and it has exactly one child — and is a parent of a commit found
      before it. */
  lemma {:induction false} WalkFollowed(pool: Pool, refsBySha1: RefIndex, movingTo: Option<Id>,
                                        frontier: seq<Id>, rank: map<Id, nat>, j: nat)
    requires Closed(pool) && Ranked(pool, rank) && AllIn(pool, frontier)
    requires |frontier| <= j < |Walk(pool, refsBySha1, movingTo, frontier, rank)|
    ensures var w := Walk(pool, refsBySha1, movingTo, frontier, rank);
      Follows(pool, refsBySha1, movingTo, w[j]) &&
      exists i :: 0 <= i < j && w[j] in pool[w[i]].parents
    decreases if frontier == [] then 0 else 1 + MaxRank(rank, frontier)
  {
    var w := Walk(pool, refsBySha1, movingTo, frontier, rank);
    var next := NextFrontier(pool, refsBySha1, movingTo, frontier);
    NextRanksLower(pool, refsBySha1, movingTo, frontier, rank);
    var rest := Walk(pool, refsBySha1, movingTo, next, rank);
    assert w == frontier + rest;
    var k := j - |frontier|;
    assert w[j] == rest[k];
    if k < |next| {
      assert rest[k] == next[k];
      NextFrom(pool, refsBySha1, movingTo, frontier, next[k]);
      var c :| c in frontier && next[k] in pool[c].parents;
      var i :| 0 <= i < |frontier| && frontier[i] == c;
      assert w[i] == c;
    } else {
      WalkFollowed(pool, refsBySha1, movingTo, next, rank, k);
      var i :| 0 <= i < k && rest[k] in pool[rest[i]].parents;
      assert w[|frontier| + i] == rest[i];
    }
  }

  /** Every found commit after the first is followed and is a parent of an earlier one. */
  lemma LostCommitsFollowed(head: Id, refs: map<string, Id>, refsBySha1: RefIndex, pool: Pool,
                            refname: string, movingTo: Option<Id>, rank: map<Id, nat>)
    requires Closed(pool) && Ranked(pool, rank)
    ensures var r := LostCommits(head, refs, refsBySha1, pool, refname, movingTo, rank);
      r.Success? ==>
        AllIn(pool, r.value) &&
        forall j :: 1 <= j < |r.value| ==>
          Follows(pool, refsBySha1, movingTo, r.value[j]) &&
          exists i :: 0 <= i < j && r.value[j] in pool[r.value[i]].parents
  {
    var r := LostCommits(head, refs, refsBySha1, pool, refname, movingTo, rank);
    if r.Success? && r.value != [] {
      var id := Resolve(head, refs, refname).value;
      forall j | 1 <= j < |r.value|
        ensures Follows(pool, refsBySha1, movingTo, r.value[j]) &&
          exists i :: 0 <= i < j && r.value[j] in pool[r.value[i]].parents
      {
        WalkFollowed(pool, refsBySha1, movingTo, [id], rank, j);
      }
    }
  }

  // ---- No commit is found twice ----

  /** A followed parent occurs among the followed parents as often as among the parents. */
  lemma {:induction false} FollowedCount(pool: Pool, refsBySha1: RefIndex, movingTo: Option<Id>,
                                         parents: seq<Id>, x: Id)
    requires AllIn(pool, parents) && x in pool
    ensures multiset(Followed(pool, refsBySha1, movingTo, parents))[x]
         == if Follows(pool, refsBySha1, movingTo, x) then multiset(parents)[x] else 0
    decreases |parents|
  {
    if parents != [] {
      var n := |parents| - 1;
      FollowedCount(pool, refsBySha1, movingTo, parents[..n], x);
      assert parents == parents[..n] + [parents[n]];
    }
  }

  /** A followed commit has a single child; it is its only way into a next frontier. */
  lemma SingleChild(pool: Pool, x: Id, c: Id)
    requires ChildCounts(pool) && x in pool && c in pool && |pool[x].children| == 1
    ensures multiset(pool[c].parents)[x] == if c == pool[x].children[0] then 1 else 0
  {
    assert pool[x].children == [pool[x].children[0]];
  }

  /** A followed commit occurs in the next frontier as often as its child occurs in the
      frontier; a commit that is not followed never occurs there. */
  lemma {:induction false} NextCount(pool: Pool, refsBySha1: RefIndex, movingTo: Option<Id>,
                                     frontier: seq<Id>, x: Id)
    requires Closed(pool) && ChildCounts(pool) && AllIn(pool, frontier) && x in pool
    ensures multiset(NextFrontier(pool, refsBySha1, movingTo, frontier))[x]
         == if Follows(pool, refsBySha1, movingTo, x)
            then multiset(frontier)[pool[x].children[0]] else 0
    decreases |frontier|
  {
    if frontier != [] {
      var n := |frontier| - 1;
      var c := frontier[n];
      var front := NextFrontier(pool, refsBySha1, movingTo, frontier[..n]);
      var added := Followed(pool, refsBySha1, movingTo, pool[c].parents);
      assert NextFrontier(pool, refsBySha1, movingTo, frontier) == front + added;
      NextCount(pool, refsBySha1, movingTo, frontier[..n], x);
      FollowedCount(pool, refsBySha1, movingTo, pool[c].parents, x);
      if Follows(pool, refsBySha1, movingTo, x) {
        SingleChild(pool, x, c);
        MultisetSnoc(frontier, pool[x].children[0]);
      }
    }
  }

  /** Walks from the next frontier on contain a followed commit as often as the walk from
      the frontier contains its child. */
  lemma {:induction false} WalkCount(pool: Pool, refsBySha1: RefIndex, movingTo: Option<Id>,
                                     frontier: seq<Id>, rank: map<Id, nat>, x: Id)
    requires Closed(pool) && ChildCounts(pool) && Ranked(pool, rank) && AllIn(pool, frontier)
    requires x in pool
    ensures var next := NextFrontier(pool, refsBySha1, movingTo, frontier);
      multiset(Walk(pool, refsBySha1, movingTo, next, rank))[x]
        == if Follows(pool, refsBySha1, movingTo, x)
           then multiset(Walk(pool, refsBySha1, movingTo, frontier, rank))[pool[x].children[0]]
           else 0
    decreases if frontier == [] then 0 else 1 + MaxRank(rank, frontier)
  {
    var next := NextFrontier(pool, refsBySha1, movingTo, frontier);
    NextCount(pool, refsBySha1, movingTo, frontier, x);
    if frontier == [] {
      assert next == [];
    } else {
      NextRanksLower(pool, refsBySha1, movingTo, frontier, rank);
      var after := NextFrontier(pool, refsBySha1, movingTo, next);
      if next != [] {
        WalkCount(pool, refsBySha1, movingTo, next, rank, x);
        if Follows(pool, refsBySha1, movingTo, x) {
          var c := pool[x].children[0];
          assert multiset(Walk(pool, refsBySha1, movingTo, frontier, rank))[c]
              == multiset(frontier)[c] + multiset(Walk(pool, refsBySha1, movingTo, next, rank))[c];
        }
      }
    }
  }

  /** Every rank of the pool is bounded. */
  lemma RankBound(rank: map<Id, nat>, keys: set<Id>) returns (bound: nat)
    requires keys <= rank.Keys
    ensures forall y :: y in keys ==> rank[y] <= bound
    decreases keys
  {
    if keys == {} {
      bound := 0;
    } else {
      var y :| y in keys;
      var b := RankBound(rank, keys - {y});
      bound := if rank[y] > b then rank[y] else b;
    }
  }

  /** The only child of a commit is pooled and ranks above it. */
  lemma OnlyChild(pool: Pool, rank: map<Id, nat>, x: Id)
    requires Linked(pool) && Ranked(pool, rank)
    requires x in pool && |pool[x].children| == 1
    ensures pool[x].children[0] in pool && rank[x] < rank[pool[x].children[0]]
  {
    var c := pool[x].children[0];
    assert c in pool[x].children;
    assert multiset(pool[x].children)[c] > 0;
    assert x in pool[c].parents;
  }

  /** Each commit occurs at most once in the walk from a childless commit. */
  lemma {:induction false} WalkOnce(pool: Pool, refsBySha1: RefIndex, movingTo: Option<Id>, start: Id,
                                    rank: map<Id, nat>, bound: nat, x: Id)
    requires Closed(pool) && Linked(pool) && Ranked(pool, rank)
    requires start in pool && pool[start].children == []
    requires forall y :: y in pool ==> rank[y] <= bound
    requires x in pool
    ensures multiset(Walk(pool, refsBySha1, movingTo, [start], rank))[x] <= 1
    decreases bound - rank[x]
  {
    var next := NextFrontier(pool, refsBySha1, movingTo, [start]);
    NextRanksLower(pool, refsBySha1, movingTo, [start], rank);
    assert Walk(pool, refsBySha1, movingTo, [start], rank)
        == [start] + Walk(pool, refsBySha1, movingTo, next, rank);
    WalkCount(pool, refsBySha1, movingTo, [start], rank, x);
    if Follows(pool, refsBySha1, movingTo, x) {
      OnlyChild(pool, rank, x);
      WalkOnce(pool, refsBySha1, movingTo, start, rank, bound, pool[x].children[0]);
    }
  }

  lemma TwiceCounted(s: seq<Id>, i: nat, j: nat)
    requires i < j < |s| && s[i] == s[j]
    ensures multiset(s)[s[i]] >= 2
  {
    assert s == s[..j] + s[j..];
    assert s[i] in s[..j];
    assert s[j] in s[j..];
  }

  /** No commit is reported lost twice. */
  lemma LostCommitsDistinct(head: Id, refs: map<string, Id>, refsBySha1: RefIndex, pool: Pool,
                            refname: string, movingTo: Option<Id>, rank: map<Id, nat>)
    requires Closed(pool) && Linked(pool) && Ranked(pool, rank)
    ensures var r := LostCommits(head, refs, refsBySha1, pool, refname, movingTo, rank);
      r.Success? ==> forall i, j :: 0 <= i < j < |r.value| ==> r.value[i] != r.value[j]
  {
    var r := LostCommits(head, refs, refsBySha1, pool, refname, movingTo, rank);
    if r.Success? && r.value != [] {
      var start := Resolve(head, refs, refname).value;
      var bound := RankBound(rank, pool.Keys);
      forall i, j | 0 <= i < j < |r.value| ensures r.value[i] != r.value[j] {
        if r.value[i] == r.value[j] {
          TwiceCounted(r.value, i, j);
          WalkOnce(pool, refsBySha1, movingTo, start, rank, bound, r.value[i]);
        }
      }
    }
  }
}
