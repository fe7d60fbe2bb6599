/**
  `Repository.get_status` and `Repository.get_unified_status`: the tables from file name
  to one-letter status built from the NUL-separated output of `git diff --name-status -z`
  (status and file name alternating) and `git ls-files --others --exclude-standard -z`.
*/
module Status {
  import opened Text

  const Added: string := "A"
  const Modified: string := "M"
  const Deleted: string := "D"
  const Copied: string := "C"
  const Renamed: string := "R"
  const Unmerged: string := "U"
  const TypeChanged: string := "T"
  const Untracked: string := "N"
  const Broken: string := "B"
  const Unknown: string := "X"

  type StatusTable = map<string, string>

  /** The status of the `i`-th pair of a name-status listing. */
  function StatusAt(changes: seq<string>, i: nat): string
    requires 2 * i + 1 < |changes|
  {
    changes[2 * i]
  }

  /** The file name of the `i`-th pair of a name-status listing. */
  function FileAt(changes: seq<string>, i: nat): string
    requires 2 * i + 1 < |changes|
  {
    changes[2 * i + 1]
  }

  /** The first `n` pairs merged into `table`: a file seen for the first time takes its
      status, and a file seen again is overwritten only by the unmerged status. */
  function MergeChanges(table: StatusTable, changes: seq<string>, n: nat): StatusTable
    requires 2 * n <= |changes|
  {
    if n == 0 then table
    else
      var prev := MergeChanges(table, changes, n - 1);
      var status, file := StatusAt(changes, n - 1), FileAt(changes, n - 1);
      if file !in prev || status == Unmerged then prev[file := status] else prev
  }

  /** The untracked names added: a non-empty name not yet in the table is untracked. */
  function AddUntracked(table: StatusTable, names: seq<string>): StatusTable
  {
    if names == [] then table
    else
      var prev := AddUntracked(table, names[..|names| - 1]);
      var name := names[|names| - 1];
      if name != "" && name !in prev then prev[name := Untracked] else prev
  }

  /** Whether the staged table keeps pair `i`: it is not unmerged, or its file has no
      unstaged entry. */
  predicate KeepsStaged(unstaged: StatusTable, changes: seq<string>, i: nat)
    requires 2 * i + 1 < |changes|
  {
    StatusAt(changes, i) != Unmerged || FileAt(changes, i) !in unstaged
  }

  /** The staged table after the first `n` pairs of `git diff --cached`. */
  function MergeStaged(unstaged: StatusTable, changes: seq<string>, n: nat): StatusTable
    requires 2 * n <= |changes|
  {
    if n == 0 then map[]
    else
      var prev := MergeStaged(unstaged, changes, n - 1);
      if KeepsStaged(unstaged, changes, n - 1) then
        prev[FileAt(changes, n - 1) := StatusAt(changes, n - 1)]
      else prev
  }

  /** The unstaged table of `get_status`, and the table of `get_unified_status`. */
  function WorkingTable(diff: string, others: string): StatusTable
  {
    var changes := Split(diff, '\0');
    AddUntracked(MergeChanges(map[], changes, |changes| / 2), Split(others, '\0'))
  }

  /** `get_status`: the unstaged table from `git diff --name-status -z` and the untracked
      listing, and the staged table from `git diff --cached --name-status -z`. */
  method GetStatus(diff: string, others: string, cached: string)
    returns (unstaged: StatusTable, staged: StatusTable)
    ensures unstaged == WorkingTable(diff, others)
    ensures var changes := Split(cached, '\0');
      staged == MergeStaged(unstaged, changes, |changes| / 2)
  {
    unstaged := ReadChanges(map[], Split(diff, '\0'));
    unstaged := ReadUntracked(unstaged, Split(others, '\0'));
    var changes := Split(cached, '\0');
    staged := map[];
    var i := 0;
    while i < |changes| / 2
      invariant 0 <= i <= |changes| / 2
      invariant staged == MergeStaged(unstaged, changes, i)
    {
      var status, filename := changes[2 * i], changes[2 * i + 1];
      if status != Unmerged || filename !in unstaged {
        staged := staged[filename := status];
      }
      i := i + 1;
    }
  }

  /** `get_unified_status`: one table from `git diff HEAD --name-status -z` and the
      untracked listing. */
  method GetUnifiedStatus(diff: string, others: string) returns (unified: StatusTable)
    ensures unified == WorkingTable(diff, others)
  {
    unified := ReadChanges(map[], Split(diff, '\0'));
    unified := ReadUntracked(unified, Split(others, '\0'));
  }

  /** The pair loop shared by both operations. */
  method ReadChanges(table: StatusTable, changes: seq<string>) returns (r: StatusTable)
    ensures r == MergeChanges(table, changes, |changes| / 2)
  {
    r := table;
    var i := 0;
    while i < |changes| / 2
      invariant 0 <= i <= |changes| / 2
      invariant r == MergeChanges(table, changes, i)
    {
      var status, filename := changes[2 * i], changes[2 * i + 1];
      if filename !in r || status == Unmerged {
        r := r[filename := status];
      }
      i := i + 1;
    }
  }

  /** The untracked loop shared by both operations. */
  method ReadUntracked(table: StatusTable, names: seq<string>) returns (r: StatusTable)
    ensures r == AddUntracked(table, names)
  {
    r := table;
    var i := 0;
    while i < |names|
      invariant 0 <= i <= |names|
      invariant r == AddUntracked(table, names[..i])
    {
      var filename := names[i];
      assert names[..i + 1][..i] == names[..i];
      if filename != "" && filename !in r {
        r := r[filename := Untracked];
      }
      i := i + 1;
    }
    assert names[..i] == names;
  }

  // ---- What the tables mean ----

  /** Some pair among the first `n` names `file`. */
  ghost predicate Named(changes: seq<string>, n: nat, file: string)
    requires 2 * n <= |changes|
  {
    exists i :: 0 <= i < n && FileAt(changes, i) == file
  }

  /** Some pair among the first `n` marks `file` unmerged. */
  ghost predicate NamedUnmerged(changes: seq<string>, n: nat, file: string)
    requires 2 * n <= |changes|
  {
    exists i :: 0 <= i < n && FileAt(changes, i) == file && StatusAt(changes, i) == Unmerged
  }

  /** Pair `i` is the first among the first `n` to name its file. */
  ghost predicate FirstNaming(changes: seq<string>, n: nat, i: nat)
    requires 2 * n <= |changes| && i < n
  {
    forall j :: 0 <= j < i ==> FileAt(changes, j) != FileAt(changes, i)
  }

  /** Merging pairs into an empty table lists exactly the named files; a file marked
      unmerged by any pair is unmerged; any other file keeps the status of the first pair
      that names it. */
  lemma {:induction false} MergeChangesSpec(changes: seq<string>, n: nat, file: string)
    requires 2 * n <= |changes|
    ensures file in MergeChanges(map[], changes, n) <==> Named(changes, n, file)
    ensures NamedUnmerged(changes, n, file) ==> MergeChanges(map[], changes, n)[file] == Unmerged
    ensures forall i :: (0 <= i < n && FileAt(changes, i) == file && FirstNaming(changes, n, i) &&
      !NamedUnmerged(changes, n, file)) ==> MergeChanges(map[], changes, n)[file] == StatusAt(changes, i)
  {
    if n > 0 {
      var k := n - 1;
      MergeChangesSpec(changes, k, file);
      var prev := MergeChanges(map[], changes, k);
      if FileAt(changes, k) == file {
        assert Named(changes, n, file);
      } else {
        if Named(changes, n, file) {
          var i :| 0 <= i < n && FileAt(changes, i) == file;
          assert i < k;
        }
        if NamedUnmerged(changes, n, file) {
          var i :| 0 <= i < n && FileAt(changes, i) == file && StatusAt(changes, i) == Unmerged;
          assert NamedUnmerged(changes, k, file);
        }
      }
      forall i | 0 <= i < n && FileAt(changes, i) == file && FirstNaming(changes, n, i) &&
        !NamedUnmerged(changes, n, file)
        ensures MergeChanges(map[], changes, n)[file] == StatusAt(changes, i)
      {
        if i < k {
          assert FirstNaming(changes, k, i);
          assert Named(changes, k, file);
          assert !NamedUnmerged(changes, k, file);
        } else {
          assert FirstNaming(changes, n, k);
          assert !Named(changes, k, file);
        }
      }
    }
  }

  /** Only the first `2 * n` elements matter: an odd element left over at the end of the
      listing is ignored. */
  lemma {:induction false} MergeChangesPrefix(table: StatusTable, changes: seq<string>, extra: seq<string>, n: nat)
    requires 2 * n <= |changes|
    ensures MergeChanges(table, changes + extra, n) == MergeChanges(table, changes, n)
  {
    if n > 0 {
      MergeChangesPrefix(table, changes, extra, n - 1);
      assert (changes + extra)[2 * (n - 1)] == changes[2 * (n - 1)];
      assert (changes + extra)[2 * (n - 1) + 1] == changes[2 * (n - 1) + 1];
    }
  }

  lemma TrailingElementIgnored(table: StatusTable, changes: seq<string>, last: string)
    requires |changes| % 2 == 0
    ensures MergeChanges(table, changes + [last], (|changes| + 1) / 2) ==
      MergeChanges(table, changes, |changes| / 2)
  {
    MergeChangesPrefix(table, changes, [last], |changes| / 2);
  }

  /** The untracked listing adds exactly its non-empty names that were absent, each as
      untracked, and leaves every existing entry alone. */
  lemma {:induction false} AddUntrackedSpec(table: StatusTable, names: seq<string>, file: string)
    ensures file in AddUntracked(table, names) <==> file in table || (file != "" && file in names)
    ensures file in table ==> AddUntracked(table, names)[file] == table[file]
    ensures file !in table && file in AddUntracked(table, names) ==>
      AddUntracked(table, names)[file] == Untracked
    decreases |names|
  {
    if names != [] {
      var front := names[..|names| - 1];
      AddUntrackedSpec(table, front, file);
      assert names == front + [names[|names| - 1]];
    }
  }

  /** The staged table lists exactly the files of the kept pairs, each with the status of
      the last kept pair that names it. */
  lemma {:induction false} MergeStagedSpec(unstaged: StatusTable, changes: seq<string>, n: nat, file: string)
    requires 2 * n <= |changes|
    ensures file in MergeStaged(unstaged, changes, n) <==>
      exists i :: 0 <= i < n && FileAt(changes, i) == file && KeepsStaged(unstaged, changes, i)
    ensures forall i :: (0 <= i < n && FileAt(changes, i) == file && KeepsStaged(unstaged, changes, i) &&
      (forall j :: i < j < n && FileAt(changes, j) == file ==> !KeepsStaged(unstaged, changes, j))) ==>
        MergeStaged(unstaged, changes, n)[file] == StatusAt(changes, i)
  {
    if n > 0 {
      var k := n - 1;
      MergeStagedSpec(unstaged, changes, k, file);
      if FileAt(changes, k) != file || !KeepsStaged(unstaged, changes, k) {
        if exists i :: 0 <= i < n && FileAt(changes, i) == file && KeepsStaged(unstaged, changes, i) {
          var i :| 0 <= i < n && FileAt(changes, i) == file && KeepsStaged(unstaged, changes, i);
          assert i < k;
        }
      }
    }
  }

  /** For a file named by one pair only: a staged entry that is not unmerged is kept, and an
      unmerged one is dropped when the file has an unstaged entry. */
  lemma StagedUnmergedDropped(unstaged: StatusTable, changes: seq<string>, n: nat, i: nat)
    requires 2 * n <= |changes| && i < n
    requires forall j :: 0 <= j < n && j != i ==> FileAt(changes, j) != FileAt(changes, i)
    ensures StatusAt(changes, i) != Unmerged ==>
      FileAt(changes, i) in MergeStaged(unstaged, changes, n) &&
      MergeStaged(unstaged, changes, n)[FileAt(changes, i)] == StatusAt(changes, i)
    ensures StatusAt(changes, i) == Unmerged && FileAt(changes, i) in unstaged ==>
      FileAt(changes, i) !in MergeStaged(unstaged, changes, n)
  {
    var file := FileAt(changes, i);
    MergeStagedSpec(unstaged, changes, n, file);
    assert forall j :: 0 <= j < n && FileAt(changes, j) == file ==> j == i;
  }
}
