/**
  The `Repository` object of the GUI (`stupidgit_gui/git.py`) and the `Repository` of
  the older command-line front end (`stupidgit/git.py`), reduced to the state that
  `load_refs` fills in and the operations that read it: the ls-tree lookup of a
  submodule's commit and the lost-commit analysis. The output of every git command is
  an input string; the tag lookups `rev-parse <tag>^{commit}` are the map `tagCommits`
  from tag reference name to the command's output, holding the tags where it succeeded.
*/
module Repository {
  import opened Wrappers
  import opened Text
  import opened CommitStore
  import Refs
  import opened Util
  import opened LostCommits

  /** The branch the `.git/HEAD` file names, read as `load_refs` reads it. */
  method ReadHead(headFile: string) returns (branch: Option<string>)
    ensures branch == Refs.CurrentBranch(headFile)
  {
    var head := Strip(headFile);
    branch := None;
    if StartsWith(head, Refs.SymbolicHeadPrefix) {
      branch := Some(head[16..]);
    }
  }

  /** The show-ref loop of `load_refs`: every line goes into `refs` and into the table
      its prefix selects, in order. */
  method ReadShowRef(lines: seq<string>, tagCommits: map<string, string>)
    returns (t: Refs.RefTables)
    ensures t == Refs.ShowRefTables(lines, tagCommits)
  {
    var refs, branches, remoteBranches, tags := map[], map[], map[], map[];
    var i := 0;
    while i < |lines|
      invariant 0 <= i <= |lines|
      invariant Refs.RefTables(refs, branches, remoteBranches, tags) ==
        Refs.ShowRefTables(lines[..i], tagCommits)
    {
      var (commitId, refname) := Partition(lines[i], ' ');
      refs := refs[refname := commitId];
      if StartsWith(refname, Refs.HeadsPrefix) {
        branches := branches[refname[11..] := commitId];
      } else if StartsWith(refname, Refs.RemotesPrefix) {
        remoteBranches := remoteBranches[refname[13..] := commitId];
      } else if StartsWith(refname, Refs.TagsPrefix) {
        if refname in tagCommits {
          tags := tags[refname[10..] := Strip(tagCommits[refname])];
        }
      }
      assert lines[..i + 1][..i] == lines[..i];
      i := i + 1;
    }
    assert lines[..i] == lines;
    t := Refs.RefTables(refs, branches, remoteBranches, tags);
  }

  /** The show-ref loop of the older `load_refs`, which keeps no table of full names. */
  method ReadLegacyShowRef(lines: seq<string>, tagCommits: map<string, string>)
    returns (branches: map<string, Id>, remoteBranches: map<string, Id>, tags: map<string, Id>)
    ensures var t := Refs.ShowRefTables(lines, tagCommits);
      branches == t.branches && remoteBranches == t.remoteBranches && tags == t.tags
  {
    branches, remoteBranches, tags := map[], map[], map[];
    var i := 0;
    while i < |lines|
      invariant 0 <= i <= |lines|
      invariant var t := Refs.ShowRefTables(lines[..i], tagCommits);
        branches == t.branches && remoteBranches == t.remoteBranches && tags == t.tags
    {
      ShowRefStep(lines, i, tagCommits);
      var (commitId, refname) := Partition(lines[i], ' ');
      Refs.ClassifyPrefixes(refname);
      if StartsWith(refname, Refs.HeadsPrefix) {
        branches := branches[refname[11..] := commitId];
      } else if StartsWith(refname, Refs.RemotesPrefix) {
        remoteBranches := remoteBranches[refname[13..] := commitId];
      } else if StartsWith(refname, Refs.TagsPrefix) {
        if refname in tagCommits {
          tags := tags[refname[10..] := Strip(tagCommits[refname])];
        }
      }
      i := i + 1;
    }
    assert lines[..i] == lines;
  }

  /** The tables after line `i` are those before it with line `i` added. */
  lemma ShowRefStep(lines: seq<string>, i: nat, tagCommits: map<string, string>)
    requires i < |lines|
    ensures Refs.ShowRefTables(lines[..i + 1], tagCommits) ==
      Refs.AddRefLine(Refs.ShowRefTables(lines[..i], tagCommits), lines[i], tagCommits)
  {
    assert lines[..i + 1][..i] == lines[..i];
  }

  /** The walk itself: the frontiers concatenated until one is empty. */
  method FrontierWalk(pool: Pool, refsBySha1: map<Id, seq<string>>, movingTo: Option<Id>, start: Id,
                      ghost rank: map<Id, nat>)
    returns (lost: seq<Id>)
    requires Closed(pool) && Ranked(pool, rank) && start in pool
    ensures lost == Walk(pool, refsBySha1, movingTo, [start], rank)
  {
    lost := [];
    var search := [start];
    while search != []
      invariant AllIn(pool, search)
      invariant lost + Walk(pool, refsBySha1, movingTo, search, rank) ==
        Walk(pool, refsBySha1, movingTo, [start], rank)
      decreases if search == [] then 0 else 1 + MaxRank(rank, search)
    {
      var next := WalkStep(pool, refsBySha1, movingTo, search, rank);
      AppendAssoc(lost, search, Walk(pool, refsBySha1, movingTo, next, rank));
      lost := lost + search;
      search := next;
    }
  }

  lemma AppendAssoc<T>(a: seq<T>, b: seq<T>, c: seq<T>)
    ensures a + (b + c) == (a + b) + c
  {
  }

  /** One round of the walk: the frontier is reported and the next one ranks lower. */
  method WalkStep(pool: Pool, refsBySha1: map<Id, seq<string>>, movingTo: Option<Id>,
                  search: seq<Id>, ghost rank: map<Id, nat>)
    returns (next: seq<Id>)
    requires Closed(pool) && Ranked(pool, rank) && AllIn(pool, search) && search != []
    ensures AllIn(pool, next)
    ensures Walk(pool, refsBySha1, movingTo, search, rank) ==
      search + Walk(pool, refsBySha1, movingTo, next, rank)
    ensures next == [] || MaxRank(rank, next) < MaxRank(rank, search)
  {
    next := NextSearch(pool, refsBySha1, movingTo, search);
    NextRanksLower(pool, refsBySha1, movingTo, search, rank);
  }

  /** One frontier step: for each commit of the frontier in turn, the parents that no
      reference names, that are not the destination and that have exactly one child. */
  method NextSearch(pool: Pool, refsBySha1: map<Id, seq<string>>, movingTo: Option<Id>, search: seq<Id>)
    returns (next: seq<Id>)
    requires Closed(pool) && AllIn(pool, search)
    ensures next == NextFrontier(pool, refsBySha1, movingTo, search)
  {
    next := [];
    var i := 0;
    while i < |search|
      invariant 0 <= i <= |search|
      invariant next == NextFrontier(pool, refsBySha1, movingTo, search[..i])
    {
      next := AddFollowed(pool, refsBySha1, movingTo, pool[search[i]].parents, next);
      assert search[..i + 1][..i] == search[..i];
      i := i + 1;
    }
    assert search[..i] == search;
  }

  /** The parents of one commit of the frontier that the walk follows, appended in order. */
  method AddFollowed(pool: Pool, refsBySha1: map<Id, seq<string>>, movingTo: Option<Id>,
                     parents: seq<Id>, found: seq<Id>)
    returns (next: seq<Id>)
    requires AllIn(pool, parents)
    ensures next == found + Followed(pool, refsBySha1, movingTo, parents)
  {
    next := found;
    var j := 0;
    while j < |parents|
      invariant 0 <= j <= |parents|
      invariant next == found + Followed(pool, refsBySha1, movingTo, parents[..j])
    {
      var p := parents[j];
      assert parents[..j + 1][..j] == parents[..j];
      if p !in refsBySha1 && Some(p) != movingTo && |pool[p].children| == 1 {
        next := next + [p];
      }
      j := j + 1;
    }
    assert parents[..j] == parents;
  }

  class Repository {
    var head: Id
    var currentBranch: Option<string>
    var mainRef: Option<Id>
    var mainMergeRef: Option<Id>
    var refs: map<string, Id>
    var branches: map<string, Id>
    var remoteBranches: map<string, Id>
    var tags: map<string, Id>
    var refsBySha1: map<Id, seq<string>>
    var branchesBySha1: map<Id, seq<string>>
    var remoteBranchesBySha1: map<Id, seq<string>>
    var tagsBySha1: map<Id, seq<string>>

    /** The by-sha1 tables are the inverses of the tables they are built from. */
    ghost predicate Valid()
      reads this
    {
      IsInverse(refs, refsBySha1) && IsInverse(branches, branchesBySha1) &&
      IsInverse(remoteBranches, remoteBranchesBySha1) && IsInverse(tags, tagsBySha1)
    }

    /** The reference state after `load_refs` (the directory search, the config file and
        the submodule scan of the original constructor are file-system work). */
    constructor (revParseHead: string, headFile: string, mainRef: Option<Id>,
                 mainMergeRef: Option<Id>, showRef: string, tagCommits: map<string, string>)
      ensures Valid()
      ensures HeadLoaded(revParseHead, headFile, mainRef, mainMergeRef)
      ensures TablesLoaded(showRef, tagCommits)
    {
      new;
      LoadRefs(revParseHead, headFile, mainRef, mainMergeRef, showRef, tagCommits);
    }

    /** HEAD's id stripped, the branch `.git/HEAD` names, and the parent's versions of this
        submodule. */
    ghost predicate HeadLoaded(revParseHead: string, headFile: string, mainRef: Option<Id>,
                               mainMergeRef: Option<Id>)
      reads this`head, this`currentBranch, this`mainRef, this`mainMergeRef
    {
      head == Strip(revParseHead) &&
      currentBranch == Refs.CurrentBranch(headFile) &&
      this.mainRef == mainRef && this.mainMergeRef == mainMergeRef
    }

    /** The tables the show-ref lines fill in. */
    ghost predicate TablesLoaded(showRef: string, tagCommits: map<string, string>)
      reads this`refs, this`branches, this`remoteBranches, this`tags
    {
      Refs.RefTables(refs, branches, remoteBranches, tags) ==
        Refs.ShowRefTables(Split(showRef, '\n'), tagCommits)
    }

    /** `load_refs`: reads every show-ref line into `refs` and the table its prefix selects,
        then builds the inverse tables. `mainRef` and `mainMergeRef` are what the parent
        repository's `get_submodule_version` gave for HEAD and MERGE_HEAD (None for a
        top-level repository or when there is no merge in progress). */
    method LoadRefs(revParseHead: string, headFile: string, mainRef: Option<Id>,
                    mainMergeRef: Option<Id>, showRef: string, tagCommits: map<string, string>)
      modifies this
      ensures Valid()
      ensures HeadLoaded(revParseHead, headFile, mainRef, mainMergeRef)
      ensures TablesLoaded(showRef, tagCommits)
    {
      LoadHead(revParseHead, headFile, mainRef, mainMergeRef);
      LoadTables(showRef, tagCommits);
    }

    /** The HEAD part of `load_refs`. */
    method LoadHead(revParseHead: string, headFile: string, mainRef: Option<Id>,
                    mainMergeRef: Option<Id>)
      modifies this`head, this`currentBranch, this`mainRef, this`mainMergeRef
      ensures HeadLoaded(revParseHead, headFile, mainRef, mainMergeRef)
    {
      var branch := ReadHead(headFile);
      head, currentBranch := Strip(revParseHead), branch;
      this.mainRef, this.mainMergeRef := mainRef, mainMergeRef;
    }

    /** The show-ref part of `load_refs` and the inverse tables built from it. */
    method LoadTables(showRef: string, tagCommits: map<string, string>)
      modifies this`refs, this`branches, this`remoteBranches, this`tags
      modifies this`refsBySha1, this`branchesBySha1, this`remoteBranchesBySha1, this`tagsBySha1
      ensures Valid()
      ensures TablesLoaded(showRef, tagCommits)
    {
      var t := ReadShowRef(Split(showRef, '\n'), tagCommits);
      BuildInverses(t);
      refs, branches, remoteBranches, tags := t.refs, t.branches, t.remoteBranches, t.tags;
    }

    /** The inverse tables: for each id, the names that point at it. */
    method BuildInverses(t: Refs.RefTables)
      modifies this`refsBySha1, this`branchesBySha1, this`remoteBranchesBySha1, this`tagsBySha1
      ensures IsInverse(t.refs, refsBySha1) && IsInverse(t.branches, branchesBySha1)
      ensures IsInverse(t.remoteBranches, remoteBranchesBySha1) && IsInverse(t.tags, tagsBySha1)
    {
      refsBySha1 := InvertHash(t.refs);
      branchesBySha1 := InvertHash(t.branches);
      remoteBranchesBySha1 := InvertHash(t.remoteBranches);
      tagsBySha1 := InvertHash(t.tags);
    }

    /** `get_submodule_version`: the commit recorded for the submodule in the given
        `git ls-tree -z` listing of its directory, looked up by the basename of its path. */
    method GetSubmoduleVersion(listing: string, submoduleName: string)
      returns (r: Result<Option<Id>, Refs.ListingError>)
      ensures r == Refs.SubmoduleVersion(Split(listing, '\0'), Basename(submoduleName))
    {
      var entries := Split(listing, '\0');
      var name := Basename(submoduleName);
      var i := 0;
      while i < |entries|
        invariant 0 <= i <= |entries|
        invariant Refs.SubmoduleVersion(entries[i..], name) == Refs.SubmoduleVersion(entries, name)
      {
        var line := entries[i];
        if Strip(line) != "" {
          var parts := Split(line, '\t');
          if |parts| != 2 {
            return Failure(Refs.MalformedEntry(line));
          }
          if parts[1] == name {
            var meta := Split(parts[0], ' ');
            if |meta| != 3 {
              return Failure(Refs.MalformedEntry(line));
            }
            if meta[1] == "commit" {
              return Success(Some(meta[2]));
            }
          }
        }
        assert entries[i..][1..] == entries[i + 1..];
        i := i + 1;
      }
      return Success(None);
    }

    /** `get_lost_commits`: after the short-circuit rules, the frontier walk from the
        referenced commit towards its parents over the commit pool `store`. */
    method GetLostCommits(store: CommitPool, refname: string, movingTo: Option<Id>,
                          ghost rank: map<Id, nat>)
      returns (r: Result<seq<Id>, LostError>)
      requires Closed(store.commits) && Ranked(store.commits, rank)
      ensures r == LostCommits.LostCommits(head, refs, refsBySha1, store.commits, refname, movingTo, rank)
    {
      var pool := store.commits;
      var commitId: Id;
      if refname == "HEAD" {
        commitId := head;
      } else if refname in refs {
        commitId := refs[refname];
      } else {
        return Failure(UnknownRef(refname));
      }
      if commitId !in pool {
        return Failure(UnknownCommit(commitId));
      }
      if Some(commitId) == movingTo {
        return Success([]);
      }
      var headRefnum := if commitId in refsBySha1 then |refsBySha1[commitId]| else 0;
      if (refname == "HEAD" && headRefnum > 0) || headRefnum > 1 {
        return Success([]);
      }
      if pool[commitId].children != [] {
        return Success([]);
      }
      var lost := FrontierWalk(pool, refsBySha1, movingTo, commitId, rank);
      return Success(lost);
    }

  }

  /** The `Repository` of the older command-line front end: `load_refs` keeps no table of
      full reference names and no MERGE_HEAD version, and the walk for lost commits does
      not exist there. */
  class LegacyRepository {
    var head: Id
    var currentBranch: Option<string>
    var mainRef: Option<Id>
    var branches: map<string, Id>
    var remoteBranches: map<string, Id>
    var tags: map<string, Id>
    var branchesBySha1: map<Id, seq<string>>
    var remoteBranchesBySha1: map<Id, seq<string>>
    var tagsBySha1: map<Id, seq<string>>

    ghost predicate Valid()
      reads this
    {
      IsInverse(branches, branchesBySha1) &&
      IsInverse(remoteBranches, remoteBranchesBySha1) && IsInverse(tags, tagsBySha1)
    }

    /** HEAD's id stripped, the branch `.git/HEAD` names, and the parent's version of this
        submodule. */
    ghost predicate HeadLoaded(revParseHead: string, headFile: string, mainRef: Option<Id>)
      reads this`head, this`currentBranch, this`mainRef
    {
      head == Strip(revParseHead) &&
      currentBranch == Refs.CurrentBranch(headFile) &&
      this.mainRef == mainRef
    }

    /** The short-name tables agree with the GUI version's tables for the same output. */
    ghost predicate TablesLoaded(showRef: string, tagCommits: map<string, string>)
      reads this`branches, this`remoteBranches, this`tags
    {
      var t := Refs.ShowRefTables(Split(showRef, '\n'), tagCommits);
      branches == t.branches && remoteBranches == t.remoteBranches && tags == t.tags
    }

    constructor (revParseHead: string, headFile: string, mainRef: Option<Id>,
                 showRef: string, tagCommits: map<string, string>)
      ensures Valid()
      ensures HeadLoaded(revParseHead, headFile, mainRef)
      ensures TablesLoaded(showRef, tagCommits)
    {
      new;
      LoadRefs(revParseHead, headFile, mainRef, showRef, tagCommits);
    }

    /** `load_refs` of the older front end. */
    method LoadRefs(revParseHead: string, headFile: string, mainRef: Option<Id>,
                    showRef: string, tagCommits: map<string, string>)
      modifies this
      ensures Valid()
      ensures HeadLoaded(revParseHead, headFile, mainRef)
      ensures TablesLoaded(showRef, tagCommits)
    {
      var branch := ReadHead(headFile);
      head, currentBranch, this.mainRef := Strip(revParseHead), branch, mainRef;
      LoadTables(showRef, tagCommits);
    }

    /** The show-ref part of `load_refs` and the inverse tables built from it. */
    method LoadTables(showRef: string, tagCommits: map<string, string>)
      modifies this`branches, this`remoteBranches, this`tags
      modifies this`branchesBySha1, this`remoteBranchesBySha1, this`tagsBySha1
      ensures Valid()
      ensures TablesLoaded(showRef, tagCommits)
    {
      var b, rb, tg := ReadLegacyShowRef(Split(showRef, '\n'), tagCommits);
      BuildInverses(b, rb, tg);
      branches, remoteBranches, tags := b, rb, tg;
    }

    /** The inverse tables: for each id, the names that point at it. */
    method BuildInverses(b: map<string, Id>, rb: map<string, Id>, tg: map<string, Id>)
      modifies this`branchesBySha1, this`remoteBranchesBySha1, this`tagsBySha1
      ensures IsInverse(b, branchesBySha1) && IsInverse(rb, remoteBranchesBySha1)
      ensures IsInverse(tg, tagsBySha1)
    {
      branchesBySha1 := InvertHash(b);
      remoteBranchesBySha1 := InvertHash(rb);
      tagsBySha1 := InvertHash(tg);
    }
  }
}
