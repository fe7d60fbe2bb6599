/**
  The commit store of the history engine: `git log -z` records are parsed into
  commits and kept in a pool keyed by sha1. Parents and children are lists of ids
  rather than object references; the pool is the module-global dictionary the
  repository code fills, and it only grows.
*/
module CommitStore {
  import opened Wrappers
  import opened Text

  type Id = string

  datatype Commit = Commit(
    sha1: Id,
    abbrev: string,
    parents: seq<Id>,
    children: seq<Id>,
    tree: string,
    authorName: string,
    authorEmail: string,
    authorDate: string,
    shortMsg: string,
    fullMsg: string)

  type Pool = map<Id, Commit>

  /** Why a record could not be parsed: it has fewer than eight lines (the tuple unpacking
      fails), or it names a parent that the pool does not hold (the pool lookup fails). */
  datatype ParseError =
    | MalformedRecord(lineCount: nat)
    | UnknownParent(id: Id)

  /** A parsed commit together with the pool after the parents' children were extended. */
  datatype Parsed = Parsed(commit: Commit, pool: Pool)

  /** The outcome of ingesting records in order: the pool afterwards, the ids registered,
      and the error that stopped the ingestion, if any. */
  datatype Ingested = Ingested(pool: Pool, ids: seq<Id>, error: Option<ParseError>)

  /** Records of `git log -z` are separated by NUL characters. */
  const RecordSeparator: char := '\0'

  /** The `%P` field: parent ids separated by single spaces; "" for a root commit. */
  function ParentIds(field: string): seq<Id>
  {
    if field == "" then [] else Split(field, ' ')
  }

  /** The parent ids join back to the field, contain no space, and are absent exactly for
      an empty field. */
  lemma ParentIdsField(field: string)
    ensures var ids := ParentIds(field);
      Join(ids, ' ') == field &&
      (forall i :: 0 <= i < |ids| ==> ' ' !in ids[i]) &&
      (field == "" <==> ids == [])
  {
    if field != "" {
      JoinSplit(field, ' ');
    }
  }

  /** The position of the first id that the pool does not hold, or `|ids|`. */
  function FirstMissing(pool: Pool, ids: seq<Id>): (k: nat)
    ensures k <= |ids|
  {
    if ids == [] || ids[0] !in pool then 0 else 1 + FirstMissing(pool, ids[1..])
  }

  /** Every id before the position is pooled, and the id at the position is not. */
  lemma {:induction false} FirstMissingSpec(pool: Pool, ids: seq<Id>)
    ensures var k := FirstMissing(pool, ids);
      (forall j :: 0 <= j < k ==> ids[j] in pool) && (k < |ids| ==> ids[k] !in pool)
    decreases |ids|
  {
    if ids != [] && ids[0] in pool {
      FirstMissingSpec(pool, ids[1..]);
      var k := FirstMissing(pool, ids);
      forall j | 1 <= j < k ensures ids[j] in pool {
        assert ids[j] == ids[1..][j - 1];
      }
    }
  }

  /** FirstMissing is determined by its contract. */
  lemma FirstMissingIs(pool: Pool, ids: seq<Id>, k: nat)
    requires k <= |ids|
    requires forall j :: 0 <= j < k ==> ids[j] in pool
    requires k < |ids| ==> ids[k] !in pool
    ensures FirstMissing(pool, ids) == k
  {
    var m := FirstMissing(pool, ids);
    FirstMissingSpec(pool, ids);
    assert m < |ids| ==> ids[m] !in pool;
    assert k < |ids| ==> ids[k] !in pool;
  }

  /** `n` copies of `x`. */
  function Repeat(x: Id, n: nat): (r: seq<Id>)
    ensures |r| == n
    ensures forall i :: 0 <= i < n ==> r[i] == x
  {
    if n == 0 then [] else Repeat(x, n - 1) + [x]
  }

  lemma MultisetRepeat(x: Id, n: nat, y: Id)
    ensures multiset(Repeat(x, n))[y] == if y == x then n else 0
  {
    if n > 0 {
      MultisetRepeat(x, n - 1, y);
      assert multiset(Repeat(x, n)) == multiset(Repeat(x, n - 1)) + multiset{x};
    }
  }

  /** `c` with `extra` appended to its children. */
  function WithChildren(c: Commit, extra: seq<Id>): Commit
  {
    c.(children := c.children + extra)
  }

  /** `r` is `pool` with `child` appended to the children of each id of `parents`, once
      per occurrence, and nothing else changed. */
  ghost predicate ChildAdded(pool: Pool, parents: seq<Id>, child: Id, r: Pool)
  {
    r.Keys == pool.Keys &&
    forall id :: id in pool ==> r[id] == WithChildren(pool[id], Repeat(child, multiset(parents)[id]))
  }

  /** Appends `child` to the children of every id of `parents`, one parent after the other. */
  function AddChild(pool: Pool, parents: seq<Id>, child: Id): (r: Pool)
    requires forall i :: 0 <= i < |parents| ==> parents[i] in pool
    ensures r.Keys == pool.Keys
    decreases |parents|
  {
    if parents == [] then pool
    else
      var n := |parents| - 1;
      var q := AddChild(pool, parents[..n], child);
      q[parents[n] := WithChildren(q[parents[n]], [child])]
  }

  /** AddChild appends the child once per occurrence of a parent id (an id listed twice
      receives the child twice) and changes nothing else. */
  lemma {:induction false} AddChildAdds(pool: Pool, parents: seq<Id>, child: Id)
    requires forall i :: 0 <= i < |parents| ==> parents[i] in pool
    ensures ChildAdded(pool, parents, child, AddChild(pool, parents, child))
    decreases |parents|
  {
    if parents == [] {
      AddNoChild(pool, child);
    } else {
      var n := |parents| - 1;
      AddChildAdds(pool, parents[..n], child);
      AddChildStep(pool, parents, child, AddChild(pool, parents[..n], child));
    }
  }

  /** AddChild over one more parent of a list. */
  lemma AddChildPrefix(pool: Pool, parents: seq<Id>, i: nat, child: Id)
    requires i < |parents| && forall j :: 0 <= j < |parents| ==> parents[j] in pool
    ensures var q := AddChild(pool, parents[..i], child);
      parents[i] in q &&
      AddChild(pool, parents[..i + 1], child) == q[parents[i] := WithChildren(q[parents[i]], [child])]
  {
    assert parents[..i + 1][..i] == parents[..i];
  }

  lemma AddNoChild(pool: Pool, child: Id)
    ensures ChildAdded(pool, [], child, pool)
  {
    forall id | id in pool
      ensures pool[id] == WithChildren(pool[id], Repeat(child, multiset([])[id]))
    {
      assert pool[id].children + [] == pool[id].children;
    }
  }

  /** The last parent of AddChild: one more copy of the child for that parent. */
  lemma AddChildStep(pool: Pool, parents: seq<Id>, child: Id, q: Pool)
    requires parents != [] && forall i :: 0 <= i < |parents| ==> parents[i] in pool
    requires ChildAdded(pool, parents[..|parents| - 1], child, q)
    ensures ChildAdded(pool, parents, child,
                       q[parents[|parents| - 1] := WithChildren(q[parents[|parents| - 1]], [child])])
  {
    var n := |parents| - 1;
    var p := parents[n];
    var r := q[p := WithChildren(q[p], [child])];
    forall id | id in pool
      ensures r[id] == WithChildren(pool[id], Repeat(child, multiset(parents)[id]))
    {
      MultisetSnoc(parents, id);
      if id == p {
        WithChildrenSnoc(pool[id], child, multiset(parents[..n])[id]);
      }
    }
  }

  lemma MultisetSnoc(s: seq<Id>, id: Id)
    requires s != []
    ensures multiset(s)[id] == multiset(s[..|s| - 1])[id] + if id == s[|s| - 1] then 1 else 0
  {
    var n := |s| - 1;
    assert s == s[..n] + [s[n]];
  }

  lemma WithChildrenSnoc(c: Commit, child: Id, m: nat)
    ensures WithChildren(WithChildren(c, Repeat(child, m)), [child])
         == WithChildren(c, Repeat(child, m + 1))
  {
    assert c.children + Repeat(child, m) + [child] == c.children + Repeat(child, m + 1);
  }

  /** The parse of one record of `git log -z --pretty=format:%H%n%h%n%P%n%T%n%an%n%ae%n%aD%n%s%n%b`:
      eight header lines and the body. Every parent is resolved before any children list
      changes; the new commit is not registered here. */
  function ParseRecord(pool: Pool, text: string): Result<Parsed, ParseError>
  {
    var lines := Split(text, '\n');
    if |lines| < 8 then Failure(MalformedRecord(|lines|))
    else
      var ids := ParentIds(lines[2]);
      var k := FirstMissing(pool, ids);
      if k < |ids| then Failure(UnknownParent(ids[k]))
      else
        FirstMissingSpec(pool, ids);
        Success(Parsed(CommitOf(lines), AddChild(pool, ids, lines[0])))
  }

  /** A record fails as malformed exactly when it has fewer than eight lines, fails on an
      unknown parent only when some parent is missing from the pool, and otherwise gives the
      commit named by its first line, with no children, the parents of its third line, and
      the pool back-filled by `AddChild`. */
  lemma {:induction false} ParseRecordOutcome(pool: Pool, text: string)
    ensures var r := ParseRecord(pool, text);
      r.Failure? && r.error.MalformedRecord? <==> |Split(text, '\n')| < 8
    ensures var r := ParseRecord(pool, text);
      r.Success? <==>
        |Split(text, '\n')| >= 8 &&
        forall p :: p in ParentIds(Split(text, '\n')[2]) ==> p in pool
    ensures var r := ParseRecord(pool, text);
      r.Failure? && r.error.UnknownParent? ==>
        r.error.id !in pool && r.error.id in ParentIds(Split(text, '\n')[2])
    ensures var r := ParseRecord(pool, text);
      r.Success? ==>
        var c := r.value.commit;
        c.sha1 == Split(text, '\n')[0] && c.children == [] &&
        c.parents == ParentIds(Split(text, '\n')[2]) &&
        r.value.pool == AddChild(pool, c.parents, c.sha1)
  {
    var lines := Split(text, '\n');
    if |lines| >= 8 {
      FirstMissingSpec(pool, ParentIds(lines[2]));
    }
  }

  /** A parsed record leaves every parent with the new commit appended to its children, once
      for each time the record lists it, and every other commit as it was. */
  lemma ParseRecordBackfills(pool: Pool, text: string)
    ensures var r := ParseRecord(pool, text);
      r.Success? ==>
        ChildAdded(pool, r.value.commit.parents, r.value.commit.sha1, r.value.pool)
  {
    ParseRecordOutcome(pool, text);
    var r := ParseRecord(pool, text);
    if r.Success? {
      var ids := r.value.commit.parents;
      assert forall i :: 0 <= i < |ids| ==> ids[i] in ids;
      AddChildAdds(pool, ids, r.value.commit.sha1);
    }
  }

  lemma ParsedSha1(pool: Pool, text: string)
    ensures ParseRecord(pool, text).Success? ==>
      ParseRecord(pool, text).value.commit.sha1 == Split(text, '\n')[0]
    ensures ParseRecord(pool, text).Success? ==> ParseRecord(pool, text).value.pool.Keys == pool.Keys
  {
  }

  /** The commit described by the lines of a record, before any child is known. */
  function CommitOf(lines: seq<string>): Commit
    requires |lines| >= 8
  {
    Commit(lines[0], lines[1], ParentIds(lines[2]), [], lines[3], lines[4], lines[5], lines[6],
           lines[7], Join(lines[8..], '\n'))
  }

  lemma ParseRecordMissing(pool: Pool, text: string, k: nat)
    requires |Split(text, '\n')| >= 8
    requires var ids := ParentIds(Split(text, '\n')[2]);
      k < |ids| && ids[k] !in pool && forall j :: 0 <= j < k ==> ids[j] in pool
    ensures ParseRecord(pool, text) == Failure(UnknownParent(ParentIds(Split(text, '\n')[2])[k]))
  {
    FirstMissingIs(pool, ParentIds(Split(text, '\n')[2]), k);
  }

  lemma ParseRecordParsed(pool: Pool, text: string)
    requires |Split(text, '\n')| >= 8
    requires var ids := ParentIds(Split(text, '\n')[2]);
      forall j :: 0 <= j < |ids| ==> ids[j] in pool
    ensures var lines := Split(text, '\n');
      ParseRecord(pool, text)
        == Success(Parsed(CommitOf(lines), AddChild(pool, ParentIds(lines[2]), lines[0])))
  {
    var ids := ParentIds(Split(text, '\n')[2]);
    FirstMissingIs(pool, ids, |ids|);
  }

  /** Registers a parsed commit under its sha1, replacing any entry with that id. */
  function Register(p: Parsed): (pool: Pool)
    ensures pool.Keys == p.pool.Keys + {p.commit.sha1}
    ensures pool[p.commit.sha1] == p.commit
  {
    p.pool[p.commit.sha1 := p.commit]
  }

  /** Ingests records one after the other, registering each parsed commit, and stops at
      the first record that does not parse; the commits before it stay registered. */
  function Ingest(pool: Pool, texts: seq<string>): Ingested
    decreases |texts|
  {
    if texts == [] then Ingested(pool, [], None)
    else
      match ParseRecord(pool, texts[0])
      case Failure(e) => Ingested(pool, [], Some(e))
      case Success(p) =>
        var rest := Ingest(Register(p), texts[1..]);
        Ingested(rest.pool, [p.commit.sha1] + rest.ids, rest.error)
  }

  /** Ingestion registers one commit per record up to the first failure, under the sha1 on
      the record's first line, and never removes an id from the pool. */
  lemma IngestRegisters(pool: Pool, texts: seq<string>)
    ensures var g := Ingest(pool, texts);
      |g.ids| <= |texts| &&
      (g.error.None? <==> |g.ids| == |texts|) &&
      (forall i :: 0 <= i < |g.ids| ==> g.ids[i] == Split(texts[i], '\n')[0]) &&
      (forall i :: 0 <= i < |g.ids| ==> g.ids[i] in g.pool) &&
      pool.Keys <= g.pool.Keys
  {
    IngestIds(pool, texts);
    IngestGrows(pool, texts);
    IngestPools(pool, texts);
  }

  /** One id per ingested record, taken from the record's first line. */
  lemma {:induction false} IngestIds(pool: Pool, texts: seq<string>)
    ensures var g := Ingest(pool, texts);
      |g.ids| <= |texts| &&
      (g.error.None? <==> |g.ids| == |texts|) &&
      (forall i :: 0 <= i < |g.ids| ==> g.ids[i] == Split(texts[i], '\n')[0])
    decreases |texts|
  {
    if texts != [] {
      ParsedSha1(pool, texts[0]);
      var r := ParseRecord(pool, texts[0]);
      if r.Success? {
        var q := Register(r.value);
        var rest := texts[1..];
        IngestIds(q, rest);
        ConsFirstLines(r.value.commit.sha1, texts, Ingest(q, rest).ids);
      }
    }
  }

  lemma ConsFirstLines(id: Id, texts: seq<string>, ids: seq<Id>)
    requires texts != [] && id == Split(texts[0], '\n')[0] && |ids| <= |texts| - 1
    requires forall i :: 0 <= i < |ids| ==> ids[i] == Split(texts[1..][i], '\n')[0]
    ensures forall i :: 0 <= i < |[id] + ids| ==> ([id] + ids)[i] == Split(texts[i], '\n')[0]
  {
    forall i | 1 <= i < |[id] + ids| ensures ([id] + ids)[i] == Split(texts[i], '\n')[0] {
      assert texts[i] == texts[1..][i - 1];
    }
  }

  /** No id leaves the pool during ingestion. */
  lemma {:induction false} IngestGrows(pool: Pool, texts: seq<string>)
    ensures pool.Keys <= Ingest(pool, texts).pool.Keys
    decreases |texts|
  {
    if texts != [] {
      ParsedSha1(pool, texts[0]);
      var r := ParseRecord(pool, texts[0]);
      if r.Success? {
        IngestGrows(Register(r.value), texts[1..]);
      }
    }
  }

  /** Every ingested id is in the resulting pool. */
  lemma {:induction false} IngestPools(pool: Pool, texts: seq<string>)
    ensures var g := Ingest(pool, texts);
      forall i :: 0 <= i < |g.ids| ==> g.ids[i] in g.pool
    decreases |texts|
  {
    if texts != [] {
      var r := ParseRecord(pool, texts[0]);
      if r.Success? {
        var q := Register(r.value);
        IngestPools(q, texts[1..]);
        IngestGrows(q, texts[1..]);
        ConsPooled(r.value.commit.sha1, q, Ingest(q, texts[1..]));
      }
    }
  }

  lemma ConsPooled(id: Id, q: Pool, h: Ingested)
    requires id in q && q.Keys <= h.pool.Keys
    requires forall i :: 0 <= i < |h.ids| ==> h.ids[i] in h.pool
    ensures forall i :: 0 <= i < |[id] + h.ids| ==> ([id] + h.ids)[i] in h.pool
  {
  }

  lemma IngestNothing(pool: Pool, texts: seq<string>)
    requires |texts| == 0
    ensures Ingest(pool, texts) == Ingested(pool, [], None)
  {
  }

  lemma IngestFailsAt(pool: Pool, texts: seq<string>, i: nat)
    requires i < |texts| && ParseRecord(pool, texts[i]).Failure?
    ensures Ingest(pool, texts[i..]) == Ingested(pool, [], Some(ParseRecord(pool, texts[i]).error))
  {
    assert texts[i..][0] == texts[i];
  }

  lemma IngestParsesAt(pool: Pool, texts: seq<string>, i: nat)
    requires i < |texts| && ParseRecord(pool, texts[i]).Success?
    ensures var p := ParseRecord(pool, texts[i]).value;
      var rest := Ingest(Register(p), texts[i + 1..]);
      Ingest(pool, texts[i..]) == Ingested(rest.pool, [p.commit.sha1] + rest.ids, rest.error)
  {
    assert texts[i..][0] == texts[i] && texts[i..][1..] == texts[i + 1..];
  }

  /** The elements of `s` in reverse order. */
  function Reversed<T>(s: seq<T>): (r: seq<T>)
    ensures |r| == |s|
    ensures forall i :: 0 <= i < |s| ==> r[i] == s[|s| - 1 - i]
  {
    if s == [] then [] else Reversed(s[1..]) + [s[0]]
  }

  /** The text `git log` prints for a commit with the format string above. */
  function FormatRecord(c: Commit): string
  {
    Join([c.sha1, c.abbrev, Join(c.parents, ' '), c.tree, c.authorName, c.authorEmail,
          c.authorDate, c.shortMsg, c.fullMsg], '\n')
  }

  /** The header fields hold no line break and the parent ids are non-empty words. */
  predicate Printable(c: Commit)
  {
    '\n' !in c.sha1 && '\n' !in c.abbrev && '\n' !in c.tree && '\n' !in c.authorName &&
    '\n' !in c.authorEmail && '\n' !in c.authorDate && '\n' !in c.shortMsg &&
    forall i :: 0 <= i < |c.parents| ==>
      c.parents[i] != "" && ' ' !in c.parents[i] && '\n' !in c.parents[i]
  }

  /** A join of pieces free of `c`, with a separator other than `c`, is free of `c`. */
  lemma {:induction false} JoinFree(parts: seq<string>, sep: char, c: char)
    requires sep != c
    requires forall i :: 0 <= i < |parts| ==> c !in parts[i]
    ensures c !in Join(parts, sep)
    decreases |parts|
  {
    if |parts| > 1 {
      JoinFree(parts[1..], sep, c);
      JoinCons(parts, sep);
    }
  }

  /** The parent field of a printed record reads back as the parent list. */
  lemma {:induction false} ParentIdsJoin(parents: seq<Id>)
    requires forall i :: 0 <= i < |parents| ==> parents[i] != "" && ' ' !in parents[i]
    ensures ParentIds(Join(parents, ' ')) == parents
  {
    if |parents| == 1 {
      assert Join(parents, ' ') == parents[0];
    } else if |parents| > 1 {
      JoinCons(parents, ' ');
      assert Join(parents, ' ') != "";
    }
    if parents != [] {
      SplitJoin(parents, ' ');
    }
  }

  /** Parsing a printed record gives the commit back, with no children yet, and appends its
      sha1 to the children of each of its parents. */
  lemma ParseFormatted(pool: Pool, c: Commit)
    requires Printable(c)
    requires forall i :: 0 <= i < |c.parents| ==> c.parents[i] in pool
    ensures ParseRecord(pool, FormatRecord(c))
         == Success(Parsed(c.(children := []), AddChild(pool, c.parents, c.sha1)))
  {
    var field := Join(c.parents, ' ');
    JoinFree(c.parents, ' ', '\n');
    var fields := [c.sha1, c.abbrev, field, c.tree, c.authorName, c.authorEmail,
                   c.authorDate, c.shortMsg, c.fullMsg];
    SplitJoinLast(fields, '\n');
    var lines := Split(FormatRecord(c), '\n');
    assert lines == fields[..8] + Split(c.fullMsg, '\n');
    assert lines[8..] == Split(c.fullMsg, '\n');
    JoinSplit(c.fullMsg, '\n');
    ParentIdsJoin(c.parents);
    FirstMissingIs(pool, c.parents, |c.parents|);
  }

  /** The records of a log are read oldest first, and the ids come back newest first:
      when every record parses, the i-th id is the sha1 of the i-th record of the log. */
  lemma {:induction false} LogIdsNewestFirst(pool: Pool, log: string)
    ensures var records := Split(log, RecordSeparator);
      var g := Ingest(pool, Reversed(records));
      g.error.None? ==>
        |Reversed(g.ids)| == |records| &&
        forall i :: 0 <= i < |records| ==> Reversed(g.ids)[i] == Split(records[i], '\n')[0]
  {
    var records := Split(log, RecordSeparator);
    var texts := Reversed(records);
    var g := Ingest(pool, texts);
    IngestRegisters(pool, texts);
    if g.error.None? {
      forall i | 0 <= i < |records|
        ensures Reversed(g.ids)[i] == Split(records[i], '\n')[0]
      {
        assert Reversed(g.ids)[i] == g.ids[|records| - 1 - i];
        assert texts[|records| - 1 - i] == records[i];
      }
    }
  }

  /** A record that fails to parse leaves the pool as the records before it made it:
      the failing record is never registered. */
  lemma {:induction false} IngestStopsAtFailure(pool: Pool, texts: seq<string>)
    ensures var g := Ingest(pool, texts);
      g.error.Some? ==>
        |g.ids| < |texts| &&
        var h := Ingest(pool, texts[..|g.ids|]);
        h.error.None? && h.pool == g.pool &&
        ParseRecord(h.pool, texts[|g.ids|]) == Failure(g.error.value)
    decreases |texts|
  {
    var g := Ingest(pool, texts);
    IngestRegisters(pool, texts);
    if texts != [] && g.error.Some? {
      var r := ParseRecord(pool, texts[0]);
      if r.Failure? {
        IngestNothing(pool, texts[..0]);
      } else {
        var q := Register(r.value);
        IngestStopsAtFailure(q, texts[1..]);
        var n := |g.ids|;
        var front := texts[..n];
        assert front[0] == texts[0];
        assert front[1..] == texts[1..][..n - 1];
        IngestParsesAt(pool, front, 0);
        assert front[0..] == front;
        assert texts[n] == texts[1..][n - 1];
      }
    }
  }

  /** Every parent of a pooled commit is pooled. */
  ghost predicate Closed(pool: Pool)
  {
    forall c, p :: c in pool && p in pool[c].parents ==> p in pool
  }

  /** Children lists are the inverse of parent lists: every child is pooled, and a commit
      appears among the children of `p` as often as `p` appears among its parents. */
  ghost predicate Linked(pool: Pool)
  {
    ChildrenPooled(pool) && ChildCounts(pool)
  }

  ghost predicate ChildrenPooled(pool: Pool)
  {
    forall p, c :: p in pool && c in pool[p].children ==> c in pool
  }

  ghost predicate ChildCounts(pool: Pool)
  {
    forall p, c :: p in pool && c in pool ==>
      multiset(pool[p].children)[c] == multiset(pool[c].parents)[p]
  }

  /** `rank` orders the pool so that every parent ranks below its children: the history is
      acyclic. */
  ghost predicate Ranked(pool: Pool, rank: map<Id, nat>)
  {
    pool.Keys <= rank.Keys &&
    forall c, p :: c in pool && p in pool[c].parents ==> p in rank && rank[p] < rank[c]
  }

  ghost predicate WellFormed(pool: Pool)
  {
    Closed(pool) && Linked(pool) && exists rank :: Ranked(pool, rank)
  }

  /** A rank at least that of every listed id. */
  function MaxRank(rank: map<Id, nat>, ids: seq<Id>): (m: nat)
    requires forall i :: 0 <= i < |ids| ==> ids[i] in rank
    ensures forall i :: 0 <= i < |ids| ==> rank[ids[i]] <= m
  {
    if ids == [] then 0
    else
      var m := MaxRank(rank, ids[1..]);
      assert forall i :: 1 <= i < |ids| ==> ids[i] == ids[1..][i - 1];
      if rank[ids[0]] > m then rank[ids[0]] else m
  }

  /** What registering a parsed commit `c` over the pool `q` (the pool with the parents'
      children extended) starts from. */
  ghost predicate Registrable(pool: Pool, c: Commit, q: Pool)
  {
    c.sha1 !in pool && c.children == [] &&
    (forall p :: p in c.parents ==> p in pool) &&
    ChildAdded(pool, c.parents, c.sha1, q)
  }

  lemma RegisterClosed(pool: Pool, c: Commit, q: Pool)
    requires Closed(pool) && Registrable(pool, c, q)
    ensures Closed(q[c.sha1 := c])
  {
    var t := q[c.sha1 := c];
    forall x, y | x in t && y in t[x].parents ensures y in t {
      if x != c.sha1 {
        assert t[x].parents == pool[x].parents;
      }
    }
  }

  lemma RegisterChildrenPooled(pool: Pool, c: Commit, q: Pool)
    requires Linked(pool) && Registrable(pool, c, q)
    ensures ChildrenPooled(q[c.sha1 := c])
  {
    var t := q[c.sha1 := c];
    forall x, y | x in t && y in t[x].children ensures y in t {
      if x != c.sha1 && y != c.sha1 {
        var m := multiset(c.parents)[x];
        assert t[x].children == pool[x].children + Repeat(c.sha1, m);
      }
    }
  }

  lemma RegisterCounts(pool: Pool, c: Commit, q: Pool)
    requires Closed(pool) && Linked(pool) && Registrable(pool, c, q)
    ensures ChildCounts(q[c.sha1 := c])
  {
    var s := c.sha1;
    var t := q[s := c];
    forall x, y | x in t && y in t
      ensures multiset(t[x].children)[y] == multiset(t[y].parents)[x]
    {
      if x == s {
        assert x !in t[y].parents by {
          if y != s {
            assert t[y].parents == pool[y].parents;
          }
        }
      } else {
        var m := multiset(c.parents)[x];
        assert t[x].children == pool[x].children + Repeat(s, m);
        MultisetRepeat(s, m, y);
        if y == s {
          assert y !in pool[x].children;
        } else {
          assert t[y].parents == pool[y].parents;
        }
      }
    }
  }

  lemma RegisterRanked(pool: Pool, c: Commit, q: Pool, rank: map<Id, nat>)
    requires Closed(pool) && Ranked(pool, rank) && Registrable(pool, c, q)
    ensures Ranked(q[c.sha1 := c], rank[c.sha1 := MaxRank(rank, c.parents) + 1])
  {
    var s := c.sha1;
    var t := q[s := c];
    var r := rank[s := MaxRank(rank, c.parents) + 1];
    forall x, y | x in t && y in t[x].parents ensures y in r && r[y] < r[x] {
      if x == s {
        var i :| 0 <= i < |c.parents| && c.parents[i] == y;
        assert y in pool && rank[y] <= MaxRank(rank, c.parents);
      } else {
        assert t[x].parents == pool[x].parents;
        assert y in pool;
      }
    }
  }

  /** Registering a parsed record whose sha1 is new keeps the pool well formed. */
  lemma RegisterWellFormed(pool: Pool, text: string)
    requires WellFormed(pool)
    requires ParseRecord(pool, text).Success?
    requires ParseRecord(pool, text).value.commit.sha1 !in pool
    ensures WellFormed(Register(ParseRecord(pool, text).value))
  {
    ParseRecordOutcome(pool, text);
    ParseRecordBackfills(pool, text);
    var p := ParseRecord(pool, text).value;
    assert Registrable(pool, p.commit, p.pool);
    RegisterClosed(pool, p.commit, p.pool);
    RegisterChildrenPooled(pool, p.commit, p.pool);
    RegisterCounts(pool, p.commit, p.pool);
    var rank :| Ranked(pool, rank);
    RegisterRanked(pool, p.commit, p.pool, rank);
  }

  /** Ingesting records whose sha1s are new and pairwise distinct keeps the pool well formed. */
  lemma {:induction false} IngestWellFormed(pool: Pool, texts: seq<string>)
    requires WellFormed(pool)
    requires forall i :: 0 <= i < |texts| ==> Split(texts[i], '\n')[0] !in pool
    requires forall i, j :: 0 <= i < j < |texts| ==> Split(texts[i], '\n')[0] != Split(texts[j], '\n')[0]
    ensures WellFormed(Ingest(pool, texts).pool)
    decreases |texts|
  {
    if texts != [] && ParseRecord(pool, texts[0]).Success? {
      var p := ParseRecord(pool, texts[0]).value;
      RegisterWellFormed(pool, texts[0]);
      var q := Register(p);
      var rest := texts[1..];
      forall i | 0 <= i < |rest| ensures Split(rest[i], '\n')[0] !in q {
        assert rest[i] == texts[i + 1];
      }
      forall i, j | 0 <= i < j < |rest|
        ensures Split(rest[i], '\n')[0] != Split(rest[j], '\n')[0]
      {
        assert rest[i] == texts[i + 1] && rest[j] == texts[j + 1];
      }
      IngestWellFormed(q, rest);
    }
  }

  /** The pool of parsed commits. */
  class CommitPool {
    var commits: Pool

    constructor ()
      ensures commits == map[]
    {
      commits := map[];
    }

    /** Parses one record: resolves every parent, then appends the new sha1 to each parent's
        children. The new commit itself is returned, not registered. */
    method ParseGitlogOutput(text: string) returns (r: Result<Commit, ParseError>)
      modifies this
      ensures ParseRecord(old(commits), text).Success? ==>
        r == Success(ParseRecord(old(commits), text).value.commit) &&
        commits == ParseRecord(old(commits), text).value.pool
      ensures ParseRecord(old(commits), text).Failure? ==>
        r == Failure(ParseRecord(old(commits), text).error) && commits == old(commits)
    {
      var lines := Split(text, '\n');
      if |lines| < 8 {
        return Failure(MalformedRecord(|lines|));
      }
      var ids := ParentIds(lines[2]);
      var k := ResolveParents(ids);
      if k < |ids| {
        ParseRecordMissing(commits, text, k);
        return Failure(UnknownParent(ids[k]));
      }
      ParseRecordParsed(commits, text);
      AppendChild(ids, lines[0]);
      return Success(CommitOf(lines));
    }

    /** Looks every parent id up in the pool, in order, and stops at the first one missing. */
    method ResolveParents(ids: seq<Id>) returns (k: nat)
      ensures k <= |ids|
      ensures forall j :: 0 <= j < k ==> ids[j] in commits
      ensures k < |ids| ==> ids[k] !in commits
    {
      k := 0;
      while k < |ids|
        invariant k <= |ids|
        invariant forall j :: 0 <= j < k ==> ids[j] in commits
      {
        if ids[k] !in commits {
          return;
        }
        k := k + 1;
      }
    }

    /** Appends `child` to the children of each of `ids`, in order. */
    method AppendChild(ids: seq<Id>, child: Id)
      requires forall j :: 0 <= j < |ids| ==> ids[j] in commits
      modifies this
      ensures commits == AddChild(old(commits), ids, child)
    {
      var i := 0;
      while i < |ids|
        invariant 0 <= i <= |ids|
        invariant commits == AddChild(old(commits), ids[..i], child)
      {
        var p := ids[i];
        AddChildPrefix(old(commits), ids, i, child);
        commits := commits[p := WithChildren(commits[p], [child])];
        i := i + 1;
      }
      assert ids[..i] == ids;
    }

    /** Parses the output of `git log -z` oldest record first, registering each commit under
        its sha1, and returns the ids newest first. A record that does not parse stops the
        walk; the commits registered before it stay in the pool. */
    method GetLog(log: string) returns (r: Result<seq<Id>, ParseError>)
      modifies this
      ensures var g := Ingest(old(commits), Reversed(Split(log, RecordSeparator)));
        commits == g.pool &&
        (g.error.Some? ==> r == Failure(g.error.value)) &&
        (g.error.None? ==> r == Success(Reversed(g.ids)))
    {
      var oldestFirst := Reversed(Split(log, RecordSeparator));
      var ids := IngestRecords(oldestFirst);
      if ids.Failure? {
        return Failure(ids.error);
      }
      return Success(Reversed(ids.value));
    }

    /** Parses and registers records in the order given, stopping at the first that fails. */
    method IngestRecords(texts: seq<string>) returns (r: Result<seq<Id>, ParseError>)
      modifies this
      ensures var g := Ingest(old(commits), texts);
        commits == g.pool &&
        (g.error.Some? ==> r == Failure(g.error.value)) &&
        (g.error.None? ==> r == Success(g.ids))
    {
      var ids: seq<Id> := [];
      var i := 0;
      while i < |texts|
        invariant 0 <= i <= |texts|
        invariant var g := Ingest(commits, texts[i..]);
          Ingest(old(commits), texts) == Ingested(g.pool, ids + g.ids, g.error)
      {
        ghost var before := commits;
        var c := ParseGitlogOutput(texts[i]);
        if c.Failure? {
          IngestFailsAt(before, texts, i);
          return Failure(c.error);
        }
        IngestParsesAt(before, texts, i);
        commits := commits[c.value.sha1 := c.value];
        ghost var rest := Ingest(commits, texts[i + 1..]);
        assert ids + ([c.value.sha1] + rest.ids) == (ids + [c.value.sha1]) + rest.ids;
        ids := ids + [c.value.sha1];
        i := i + 1;
      }
      IngestNothing(commits, texts[i..]);
      assert ids + [] == ids;
      return Success(ids);
    }
  }
}
