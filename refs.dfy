/**
  The text parsing behind `Repository.load_refs` and `get_submodule_version`: the current
  branch named in `.git/HEAD`, the classification of `git show-ref` lines by their
  reference prefix, and the lookup of a submodule's commit in `git ls-tree -z` output.
*/
module Refs {
  import opened Wrappers
  import opened Text

  type Id = string

  const HeadsPrefix: string := "refs/heads/"
  const RemotesPrefix: string := "refs/remotes/"
  const TagsPrefix: string := "refs/tags/"
  const SymbolicHeadPrefix: string := "ref: refs/heads/"

  // ---- The current branch ----

  /** The branch `.git/HEAD` names: the text after "ref: refs/heads/" once surrounding
      whitespace is stripped, or None for a detached HEAD. */
  function CurrentBranch(headFile: string): Option<string>
  {
    var head := Strip(headFile);
    if StartsWith(head, SymbolicHeadPrefix) then Some(head[|SymbolicHeadPrefix|..]) else None
  }

  /** A branch is reported exactly when the stripped file starts with the prefix, and the
      prefix followed by the branch gives the stripped file back. */
  lemma CurrentBranchSpec(headFile: string)
    ensures CurrentBranch(headFile).Some? <==> StartsWith(Strip(headFile), SymbolicHeadPrefix)
    ensures CurrentBranch(headFile).Some? ==>
      Strip(headFile) == SymbolicHeadPrefix + CurrentBranch(headFile).value
  {
    var head := Strip(headFile);
    if StartsWith(head, SymbolicHeadPrefix) {
      assert head == head[..|SymbolicHeadPrefix|] + head[|SymbolicHeadPrefix|..];
    }
  }

  lemma StripNewline(s: string)
    requires s != [] && !IsSpace(s[0]) && !IsSpace(s[|s| - 1])
    ensures Strip(s + "\n") == s
  {
    var t := s + "\n";
    assert t[0] == s[0];
    assert TrimLeft(t) == t;
    assert t[..|t| - 1] == s;
    assert TrimRight(t) == TrimRight(s);
    assert TrimRight(s) == s;
  }

  /** The file git writes for a checked-out branch, "ref: refs/heads/<branch>\n", names that
      branch, for any branch name that does not end in whitespace. */
  lemma CurrentBranchOfRef(branch: string)
    requires branch == [] || !IsSpace(branch[|branch| - 1])
    ensures CurrentBranch(SymbolicHeadPrefix + branch + "\n") == Some(branch)
  {
    var s := SymbolicHeadPrefix + branch;
    assert s[0] == 'r';
    assert s[|s| - 1] == if branch == [] then '/' else branch[|branch| - 1];
    StripNewline(s);
    assert s[..|SymbolicHeadPrefix|] == SymbolicHeadPrefix;
    assert s[|SymbolicHeadPrefix|..] == branch;
  }

  // ---- show-ref lines ----

  datatype RefKind =
    | Branch(name: string)
    | RemoteBranch(name: string)
    | Tag(name: string)
    | OtherRef

  /** The kind of a reference name, by its first matching prefix: refs/heads/,
      refs/remotes/, then refs/tags/. */
  function Classify(refname: string): (k: RefKind)
    ensures k.Branch? ==> refname == HeadsPrefix + k.name
    ensures k.RemoteBranch? ==> refname == RemotesPrefix + k.name
    ensures k.Tag? ==> refname == TagsPrefix + k.name
    ensures k.OtherRef? <==>
      !StartsWith(refname, HeadsPrefix) && !StartsWith(refname, RemotesPrefix) &&
      !StartsWith(refname, TagsPrefix)
  {
    if StartsWith(refname, HeadsPrefix) then
      assert refname == refname[..|HeadsPrefix|] + refname[|HeadsPrefix|..];
      Branch(refname[|HeadsPrefix|..])
    else if StartsWith(refname, RemotesPrefix) then
      assert refname == refname[..|RemotesPrefix|] + refname[|RemotesPrefix|..];
      RemoteBranch(refname[|RemotesPrefix|..])
    else if StartsWith(refname, TagsPrefix) then
      assert refname == refname[..|TagsPrefix|] + refname[|TagsPrefix|..];
      Tag(refname[|TagsPrefix|..])
    else OtherRef
  }

  /** The full reference name of a branch, remote branch or tag. */
  function RefName(k: RefKind): string
    requires !k.OtherRef?
  {
    match k
    case Branch(n) => HeadsPrefix + n
    case RemoteBranch(n) => RemotesPrefix + n
    case Tag(n) => TagsPrefix + n
  }

  /** A text that differs from `p` at a position inside both does not start with `p`. */
  lemma DiffersAt(s: string, p: string, i: nat)
    requires i < |p| && i < |s| && s[i] != p[i]
    ensures !StartsWith(s, p)
  {
  }

  lemma PrefixStart(p: string, n: string)
    ensures StartsWith(p + n, p) && (p + n)[|p|..] == n
  {
    assert (p + n)[..|p|] == p;
  }

  /** The three prefixes exclude each other, so a name's kind is decided by the one prefix
      it starts with. */
  lemma ClassifyPrefixes(refname: string)
    ensures Classify(refname).Branch? <==> StartsWith(refname, HeadsPrefix)
    ensures Classify(refname).RemoteBranch? <==> StartsWith(refname, RemotesPrefix)
    ensures Classify(refname).Tag? <==> StartsWith(refname, TagsPrefix)
  {
    if StartsWith(refname, HeadsPrefix) {
      assert refname[..|HeadsPrefix|][5] == 'h';
      DiffersAt(refname, RemotesPrefix, 5);
      DiffersAt(refname, TagsPrefix, 5);
    } else if StartsWith(refname, RemotesPrefix) {
      assert refname[..|RemotesPrefix|][5] == 'r';
      DiffersAt(refname, TagsPrefix, 5);
    }
  }

  /** Classifying the full name of a branch, remote branch or tag gives it back. */
  lemma ClassifyRefName(k: RefKind)
    requires !k.OtherRef?
    ensures Classify(RefName(k)) == k
  {
    var r := RefName(k);
    match k
    case Branch(n) =>
      PrefixStart(HeadsPrefix, n);
    case RemoteBranch(n) =>
      PrefixStart(RemotesPrefix, n);
      ClassifyPrefixes(r);
    case Tag(n) =>
      PrefixStart(TagsPrefix, n);
      ClassifyPrefixes(r);
  }

  /** What `load_refs` has filled in after some show-ref lines: every reference by full
      name, and the branches, remote branches and tags by short name. */
  datatype RefTables = RefTables(
    refs: map<string, Id>,
    branches: map<string, Id>,
    remoteBranches: map<string, Id>,
    tags: map<string, Id>)

  const NoRefs := RefTables(map[], map[], map[], map[])

  /** The id and the reference name of a show-ref line "<sha1> <refname>". */
  function RefLine(line: string): (string, string)
  {
    Partition(line, ' ')
  }

  /** One show-ref line. A tag is filed under the commit `rev-parse <tag>^{commit}` printed,
      stripped; `tagCommits` holds that output for the tags where the command succeeded, and
      a tag it lacks is skipped. */
  function AddRefLine(t: RefTables, line: string, tagCommits: map<string, string>): RefTables
  {
    var (id, refname) := RefLine(line);
    var t1 := t.(refs := t.refs[refname := id]);
    match Classify(refname)
    case Branch(n) => t1.(branches := t1.branches[n := id])
    case RemoteBranch(n) => t1.(remoteBranches := t1.remoteBranches[n := id])
    case Tag(n) =>
      if refname in tagCommits then t1.(tags := t1.tags[n := Strip(tagCommits[refname])]) else t1
    case OtherRef => t1
  }

  /** The tables after the given show-ref lines, in order. */
  function ShowRefTables(lines: seq<string>, tagCommits: map<string, string>): RefTables
    decreases |lines|
  {
    if lines == [] then NoRefs
    else AddRefLine(ShowRefTables(lines[..|lines| - 1], tagCommits), lines[|lines| - 1], tagCommits)
  }

  /** The short-name tables agree with the table of full names: a branch or remote branch is
      present exactly when its full name is, with the same id, and a tag is present exactly
      when its full name is and its commit lookup succeeded. */
  ghost predicate Consistent(t: RefTables, tagCommits: map<string, string>)
  {
    Agree(t.refs, t.branches, HeadsPrefix) &&
    Agree(t.refs, t.remoteBranches, RemotesPrefix) &&
    TagsAgree(t.refs, t.tags, tagCommits)
  }

  /** `short` holds, by short name, exactly the references of `refs` named with `prefix`. */
  ghost predicate Agree(refs: map<string, Id>, short: map<string, Id>, prefix: string)
  {
    (forall n :: n in short <==> prefix + n in refs) &&
    (forall n :: n in short ==> short[n] == refs[prefix + n])
  }

  ghost predicate TagsAgree(refs: map<string, Id>, tags: map<string, Id>, tagCommits: map<string, string>)
  {
    (forall n :: n in tags <==> TagsPrefix + n in refs && TagsPrefix + n in tagCommits) &&
    (forall n :: n in tags ==> tags[n] == Strip(tagCommits[TagsPrefix + n]))
  }

  lemma AgreeUpdate(refs: map<string, Id>, short: map<string, Id>, prefix: string,
                    refname: string, id: Id)
    requires Agree(refs, short, prefix)
    ensures StartsWith(refname, prefix) ==>
      Agree(refs[refname := id], short[refname[|prefix|..] := id], prefix)
    ensures !StartsWith(refname, prefix) ==> Agree(refs[refname := id], short, prefix)
  {
    forall n ensures prefix + n == refname <==> StartsWith(refname, prefix) && n == refname[|prefix|..] {
      PrefixStart(prefix, n);
      if StartsWith(refname, prefix) {
        assert refname == prefix + refname[|prefix|..];
      }
    }
  }

  lemma TagsUpdate(refs: map<string, Id>, tags: map<string, Id>, tagCommits: map<string, string>,
                   refname: string, id: Id)
    requires TagsAgree(refs, tags, tagCommits)
    ensures StartsWith(refname, TagsPrefix) && refname in tagCommits ==>
      TagsAgree(refs[refname := id], tags[refname[|TagsPrefix|..] := Strip(tagCommits[refname])], tagCommits)
    ensures !(StartsWith(refname, TagsPrefix) && refname in tagCommits) ==>
      TagsAgree(refs[refname := id], tags, tagCommits)
  {
    forall n ensures TagsPrefix + n == refname <==>
      StartsWith(refname, TagsPrefix) && n == refname[|TagsPrefix|..]
    {
      PrefixStart(TagsPrefix, n);
      if StartsWith(refname, TagsPrefix) {
        assert refname == TagsPrefix + refname[|TagsPrefix|..];
      }
    }
  }

  lemma AddRefLineConsistent(t: RefTables, line: string, tagCommits: map<string, string>)
    requires Consistent(t, tagCommits)
    ensures Consistent(AddRefLine(t, line, tagCommits), tagCommits)
  {
    var (id, refname) := RefLine(line);
    ClassifyPrefixes(refname);
    AgreeUpdate(t.refs, t.branches, HeadsPrefix, refname, id);
    AgreeUpdate(t.refs, t.remoteBranches, RemotesPrefix, refname, id);
    TagsUpdate(t.refs, t.tags, tagCommits, refname, id);
  }

  /** Every prefix of show-ref lines leaves the tables consistent. */
  lemma {:induction false} ShowRefConsistent(lines: seq<string>, tagCommits: map<string, string>)
    ensures Consistent(ShowRefTables(lines, tagCommits), tagCommits)
    decreases |lines|
  {
    if lines != [] {
      ShowRefConsistent(lines[..|lines| - 1], tagCommits);
      AddRefLineConsistent(ShowRefTables(lines[..|lines| - 1], tagCommits), lines[|lines| - 1], tagCommits);
    }
  }

  /** The full-name table alone: each line maps its reference name to its id. */
  function RefMap(lines: seq<string>): map<string, Id>
    decreases |lines|
  {
    if lines == [] then map[]
    else
      var (id, refname) := RefLine(lines[|lines| - 1]);
      RefMap(lines[..|lines| - 1])[refname := id]
  }

  lemma {:induction false} ShowRefRefs(lines: seq<string>, tagCommits: map<string, string>)
    ensures ShowRefTables(lines, tagCommits).refs == RefMap(lines)
    decreases |lines|
  {
    if lines != [] {
      ShowRefRefs(lines[..|lines| - 1], tagCommits);
    }
  }

  /** The names in `refs` are exactly the reference names of the lines. */
  lemma ShowRefNames(lines: seq<string>, tagCommits: map<string, string>)
    ensures var t := ShowRefTables(lines, tagCommits);
      forall r :: r in t.refs <==> exists i :: 0 <= i < |lines| && RefLine(lines[i]).1 == r
  {
    ShowRefRefs(lines, tagCommits);
    RefMapNames(lines);
  }

  lemma RefMapNames(lines: seq<string>)
    ensures forall r :: r in RefMap(lines) <==> exists i :: 0 <= i < |lines| && RefLine(lines[i]).1 == r
  {
    forall r | r in RefMap(lines) ensures exists i :: 0 <= i < |lines| && RefLine(lines[i]).1 == r {
      RefMapNamed(lines, r);
    }
    forall i | 0 <= i < |lines| ensures RefLine(lines[i]).1 in RefMap(lines) {
      RefMapHas(lines, i);
    }
  }

  lemma {:induction false} RefMapNamed(lines: seq<string>, r: string)
    requires r in RefMap(lines)
    ensures exists i :: 0 <= i < |lines| && RefLine(lines[i]).1 == r
    decreases |lines|
  {
    var n := |lines| - 1;
    if RefLine(lines[n]).1 != r {
      var front := lines[..n];
      RefMapNamed(front, r);
      var i :| 0 <= i < |front| && RefLine(front[i]).1 == r;
      assert lines[i] == front[i];
    }
  }

  lemma {:induction false} RefMapHas(lines: seq<string>, i: int)
    requires 0 <= i < |lines|
    ensures RefLine(lines[i]).1 in RefMap(lines)
    decreases |lines|
  {
    var n := |lines| - 1;
    if i < n {
      var front := lines[..n];
      RefMapHas(front, i);
      assert lines[i] == front[i];
    }
  }

  /** No line after line `i` names the same reference. */
  ghost predicate LastNaming(lines: seq<string>, i: int)
    requires 0 <= i < |lines|
  {
    forall j :: i < j < |lines| ==> RefLine(lines[j]).1 != RefLine(lines[i]).1
  }

  /** A reference maps to the id of the last line that names it. */
  lemma ShowRefLast(lines: seq<string>, tagCommits: map<string, string>, i: int)
    requires 0 <= i < |lines| && LastNaming(lines, i)
    ensures var t := ShowRefTables(lines, tagCommits);
      RefLine(lines[i]).1 in t.refs && t.refs[RefLine(lines[i]).1] == RefLine(lines[i]).0
  {
    ShowRefRefs(lines, tagCommits);
    RefMapLast(lines, i);
  }

  lemma {:induction false} RefMapLast(lines: seq<string>, i: int)
    requires 0 <= i < |lines| && LastNaming(lines, i)
    ensures RefLine(lines[i]).1 in RefMap(lines) && RefMap(lines)[RefLine(lines[i]).1] == RefLine(lines[i]).0
    decreases |lines|
  {
    var n := |lines| - 1;
    var front := lines[..n];
    if i < n {
      assert lines[i] == front[i];
      assert LastNaming(front, i) by {
        forall j | i < j < |front| ensures RefLine(front[j]).1 != RefLine(front[i]).1 {
          assert front[j] == lines[j];
        }
      }
      RefMapLast(front, i);
    }
  }

  /** `show-ref` output ends with a newline, so the last piece of the split is empty and
      `refs` maps the empty name to the empty id. */
  lemma TrailingNewlineRef(output: string, tagCommits: map<string, string>)
    requires output != [] && output[|output| - 1] == '\n'
    ensures var t := ShowRefTables(Split(output, '\n'), tagCommits);
      "" in t.refs && t.refs[""] == ""
  {
    var lines := Split(output, '\n');
    SplitLastEmpty(output, '\n');
    var n := |lines| - 1;
    assert RefLine(lines[n]) == ("", "");
    ShowRefLast(lines, tagCommits, n);
  }

  // ---- ls-tree lookup of a submodule ----

  datatype ListingError =
    | MalformedEntry(line: string)

  /** One `git ls-tree -z` entry "<mode> <type> <sha1>\t<name>" names the submodule
      `name` as a commit with the given id. */
  predicate CommitEntry(line: string, name: string, sha1: Id)
  {
    var parts := Split(line, '\t');
    |parts| == 2 && parts[1] == name &&
    var meta := Split(parts[0], ' ');
    |meta| == 3 && meta[1] == "commit" && meta[2] == sha1
  }

  /** What one entry decides: go on with the next entry, or stop with a result. */
  datatype Step = Next | Stop(result: Result<Option<Id>, ListingError>)

  /** One entry of the lookup: a blank entry is skipped; an entry that does not split into
      two tab-separated parts raises; an entry for another name is skipped; for the name,
      metadata that does not split into three space-separated fields raises, type commit
      gives the id, and any other type is skipped. */
  function EntryStep(line: string, name: string): Step
  {
    if Strip(line) == "" then Next
    else
      var parts := Split(line, '\t');
      if |parts| != 2 then Stop(Failure(MalformedEntry(line)))
      else if parts[1] != name then Next
      else
        var meta := Split(parts[0], ' ');
        if |meta| != 3 then Stop(Failure(MalformedEntry(line)))
        else if meta[1] == "commit" then Stop(Success(Some(meta[2])))
        else Next
  }

  /** An entry stops the lookup with an id exactly when it is a non-blank commit entry for
      the name with that id; it never stops with None, and a failure names the entry. */
  lemma EntryStepSpec(line: string, name: string)
    ensures forall s :: EntryStep(line, name) == Stop(Success(Some(s))) <==>
      Strip(line) != "" && CommitEntry(line, name, s)
    ensures EntryStep(line, name) != Stop(Success(None))
    ensures EntryStep(line, name).Stop? && EntryStep(line, name).result.Failure? ==>
      EntryStep(line, name).result.error.line == line && Strip(line) != ""
  {
  }

  /** `get_submodule_version` on the NUL-separated entries of the listing: the first entry
      that stops the lookup decides, and None when none does. */
  function SubmoduleVersion(entries: seq<string>, name: string): Result<Option<Id>, ListingError>
    decreases |entries|
  {
    if entries == [] then Success(None)
    else
      match EntryStep(entries[0], name)
      case Next => SubmoduleVersion(entries[1..], name)
      case Stop(r) => r
  }

  /** The lookup stops at the first entry that stops it, with that entry's result. */
  lemma {:induction false} SubmoduleVersionFirst(entries: seq<string>, name: string)
    ensures SubmoduleVersion(entries, name) == Success(None) <==>
      forall i :: 0 <= i < |entries| ==> EntryStep(entries[i], name) == Next
    ensures SubmoduleVersion(entries, name) != Success(None) ==>
      exists i :: 0 <= i < |entries| && EntryStep(entries[i], name) == Stop(SubmoduleVersion(entries, name)) &&
        forall j :: 0 <= j < i ==> EntryStep(entries[j], name) == Next
    decreases |entries|
  {
    if entries != [] {
      var rest := entries[1..];
      SubmoduleVersionFirst(rest, name);
      EntryStepSpec(entries[0], name);
      StepShift(entries, name);
    }
  }

  lemma StepShift(entries: seq<string>, name: string)
    requires entries != []
    ensures forall i :: 0 <= i < |entries| - 1 ==> entries[1..][i] == entries[i + 1]
  {
  }

  /** A found id comes from the first non-blank commit entry for the name; None means no
      non-blank entry is one; a failure names a non-blank entry that did not split. */
  lemma SubmoduleVersionSpec(entries: seq<string>, name: string)
    ensures var r := SubmoduleVersion(entries, name);
      r.Success? && r.value.Some? ==>
        exists i :: 0 <= i < |entries| && Strip(entries[i]) != "" &&
          CommitEntry(entries[i], name, r.value.value) &&
          forall j, s :: 0 <= j < i && Strip(entries[j]) != "" ==> !CommitEntry(entries[j], name, s)
    ensures SubmoduleVersion(entries, name) == Success(None) ==>
      forall i, s :: 0 <= i < |entries| && Strip(entries[i]) != "" ==> !CommitEntry(entries[i], name, s)
    ensures var r := SubmoduleVersion(entries, name);
      r.Failure? ==> exists i :: 0 <= i < |entries| && entries[i] == r.error.line && Strip(entries[i]) != ""
  {
    var r := SubmoduleVersion(entries, name);
    SubmoduleVersionFirst(entries, name);
    if r == Success(None) {
      forall i, s | 0 <= i < |entries| && Strip(entries[i]) != "" ensures !CommitEntry(entries[i], name, s) {
        EntryStepSpec(entries[i], name);
      }
    } else {
      var i :| 0 <= i < |entries| && EntryStep(entries[i], name) == Stop(r) &&
        forall j :: 0 <= j < i ==> EntryStep(entries[j], name) == Next;
      EntryStepSpec(entries[i], name);
      forall j, s | 0 <= j < i && Strip(entries[j]) != "" ensures !CommitEntry(entries[j], name, s) {
        EntryStepSpec(entries[j], name);
      }
    }
  }
}
