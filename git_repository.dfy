/**
  The C++ front end's repository object (`GitRepository` in src/gitrepository.cpp): the
  status lists it fills from the output of `git diff --name-status`, `git diff --cached
  --name-status` and `git ls-files --others --exclude-standard`, and the queue that runs
  its git processes one at a time, first in first out.

  Processes are numbered in the order they are created; starting one is recorded, with
  its arguments, in `started`; the signals the object emits are recorded in `signals`.
*/
module GitRepository {
  import opened Wrappers
  import opened Text

  datatype FileStatus =
    | Added | Modified | Deleted | Copied | Renamed | Unmerged | TypeChanged | Untracked
    | Broken | Unknown

  /** `GitFileInfo`: a file name and its status. */
  datatype FileInfo = FileInfo(name: string, status: FileStatus)

  /** A queued process and the arguments it is to run with. */
  datatype GitProcess = GitProcess(process: nat, args: seq<string>)

  datatype Signal = Refreshed | GitError(exitCode: int, message: string)

  /** The one-letter status codes of `git diff --name-status`. */
  const StatusCodes: string := "AMDCRUTNB"

  /** `fileStatusByCode`: the nine known letters give their statuses, any other character
      gives `Unknown`. */
  function FileStatusByCode(code: char): (s: FileStatus)
    ensures s == Unknown <==> code !in StatusCodes
  {
    match code
    case 'A' => Added
    case 'M' => Modified
    case 'D' => Deleted
    case 'C' => Copied
    case 'R' => Renamed
    case 'U' => Unmerged
    case 'T' => TypeChanged
    case 'N' => Untracked
    case 'B' => Broken
    case _ => Unknown
  }

  /** The letter of a known status: the inverse of `FileStatusByCode`. */
  function StatusCode(s: FileStatus): (c: char)
    requires s != Unknown
    ensures c in StatusCodes
  {
    match s
    case Added => 'A'
    case Modified => 'M'
    case Deleted => 'D'
    case Copied => 'C'
    case Renamed => 'R'
    case Unmerged => 'U'
    case TypeChanged => 'T'
    case Untracked => 'N'
    case Broken => 'B'
  }

  /** Every known status is read back from its letter, and every known letter is the
      letter of the status it gives, so distinct letters give distinct statuses. */
  lemma StatusCodeRoundTrip(s: FileStatus, c: char)
    ensures s != Unknown ==> FileStatusByCode(StatusCode(s)) == s
    ensures c in StatusCodes ==> StatusCode(FileStatusByCode(c)) == c
  {
  }

  /** `output.split('\n', QString::SkipEmptyParts)`. */
  function NonEmptyLines(s: string): seq<string>
  {
    NonEmpty(Split(s, '\n'))
  }

  function NonEmpty(parts: seq<string>): (r: seq<string>)
    ensures forall x :: x in r <==> x in parts && x != ""
  {
    if parts == [] then []
    else (if parts[0] == "" then [] else [parts[0]]) + NonEmpty(parts[1..])
  }

  /** A status line that is read: longer than two characters, with a tab after the code. */
  predicate Accepted(line: string)
  {
    |line| > 2 && line[1] == '\t'
  }

  /** The entry of an accepted line: the name after the first two characters. */
  function Entry(line: string): FileInfo
    requires Accepted(line)
  {
    FileInfo(line[2..], FileStatusByCode(line[0]))
  }

  /** The entries of the accepted lines that are not unmerged, in order. */
  function Changes(lines: seq<string>): seq<FileInfo>
  {
    if lines == [] then []
    else
      var line := lines[|lines| - 1];
      Changes(lines[..|lines| - 1]) +
        (if Accepted(line) && Entry(line).status != Unmerged then [Entry(line)] else [])
  }

  /** The entries of the accepted lines that are unmerged, in order. */
  function Conflicts(lines: seq<string>): seq<FileInfo>
  {
    if lines == [] then []
    else
      var line := lines[|lines| - 1];
      Conflicts(lines[..|lines| - 1]) +
        (if Accepted(line) && Entry(line).status == Unmerged then [Entry(line)] else [])
  }

  /** Every line of the untracked listing as an untracked file. */
  function UntrackedEntries(lines: seq<string>): seq<FileInfo>
  {
    if lines == [] then []
    else UntrackedEntries(lines[..|lines| - 1]) + [FileInfo(lines[|lines| - 1], Untracked)]
  }

  /** The two status loops: each accepted line goes to the changes or, when unmerged, to
      the conflicts. */
  method ParseStatus(lines: seq<string>) returns (changes: seq<FileInfo>, conflicts: seq<FileInfo>)
    ensures changes == Changes(lines) && conflicts == Conflicts(lines)
  {
    changes, conflicts := [], [];
    var i := 0;
    while i < |lines|
      invariant i <= |lines|
      invariant changes == Changes(lines[..i]) && conflicts == Conflicts(lines[..i])
    {
      var line := lines[i];
      assert lines[..i + 1][..i] == lines[..i];
      if |line| > 2 && line[1] == '\t' {
        var status := FileStatusByCode(line[0]);
        var filename := line[2..];
        if status == Unmerged {
          conflicts := conflicts + [FileInfo(filename, Unmerged)];
        } else {
          changes := changes + [FileInfo(filename, status)];
        }
      }
      i := i + 1;
    }
    assert lines[..i] == lines;
  }

  /** The untracked loop. */
  method ParseUntracked(lines: seq<string>) returns (files: seq<FileInfo>)
    ensures files == UntrackedEntries(lines)
  {
    files := [];
    var i := 0;
    while i < |lines|
      invariant i <= |lines| && files == UntrackedEntries(lines[..i])
    {
      assert lines[..i + 1][..i] == lines[..i];
      files := files + [FileInfo(lines[i], Untracked)];
      i := i + 1;
    }
    assert lines[..i] == lines;
  }

  // ---- What the lists hold ----

  /** Some accepted line of `lines` has the entry `f`. */
  predicate Listed(lines: seq<string>, f: FileInfo)
  {
    exists i :: 0 <= i < |lines| && Accepted(lines[i]) && Entry(lines[i]) == f
  }

  /** A line listed among all but the last line is listed; a line listed is listed among
      all but the last line or is the last line. */
  lemma ListedFront(lines: seq<string>, f: FileInfo)
    requires lines != []
    ensures Listed(lines, f) <==>
      Listed(lines[..|lines| - 1], f) || (Accepted(lines[|lines| - 1]) && Entry(lines[|lines| - 1]) == f)
  {
    var k := |lines| - 1;
    var front := lines[..k];
    if Listed(lines, f) {
      var i :| 0 <= i < |lines| && Accepted(lines[i]) && Entry(lines[i]) == f;
      if i < k {
        assert Accepted(front[i]) && Entry(front[i]) == f;
      }
    }
    if Listed(front, f) {
      var i :| 0 <= i < k && Accepted(front[i]) && Entry(front[i]) == f;
      assert Accepted(lines[i]) && Entry(lines[i]) == f;
    }
  }

  /** A file is among the changes exactly when an accepted line names it with a status
      other than unmerged. */
  lemma {:induction false} ChangesSpec(lines: seq<string>, f: FileInfo)
    ensures f in Changes(lines) <==> f.status != Unmerged && Listed(lines, f)
    decreases |lines|
  {
    if lines != [] {
      ChangesSpec(lines[..|lines| - 1], f);
      ListedFront(lines, f);
    }
  }

  /** A file is among the conflicts exactly when an accepted line names it as unmerged. */
  lemma {:induction false} ConflictsSpec(lines: seq<string>, f: FileInfo)
    ensures f in Conflicts(lines) <==> f.status == Unmerged && Listed(lines, f)
    decreases |lines|
  {
    if lines != [] {
      ConflictsSpec(lines[..|lines| - 1], f);
      ListedFront(lines, f);
    }
  }

  /** Every accepted line lands in exactly one of the two lists. */
  lemma {:induction false} StatusListsPartition(lines: seq<string>)
    ensures |Changes(lines)| + |Conflicts(lines)| == AcceptedCount(lines)
    decreases |lines|
  {
    if lines != [] {
      StatusListsPartition(lines[..|lines| - 1]);
    }
  }

  function AcceptedCount(lines: seq<string>): nat
  {
    if lines == [] then 0
    else AcceptedCount(lines[..|lines| - 1]) + (if Accepted(lines[|lines| - 1]) then 1 else 0)
  }

  /** Every untracked entry is a non-empty line of the listing, with the untracked status. */
  lemma UntrackedFromOutput(output: string, f: FileInfo)
    requires f in UntrackedEntries(NonEmptyLines(output))
    ensures f.status == Untracked && f.name != "" && f.name in Split(output, '\n')
  {
    UntrackedNames(NonEmptyLines(output), f);
  }

  lemma {:induction false} UntrackedNames(lines: seq<string>, f: FileInfo)
    requires f in UntrackedEntries(lines)
    ensures f.status == Untracked && f.name in lines
    decreases |lines|
  {
    var k := |lines| - 1;
    if f != FileInfo(lines[k], Untracked) {
      UntrackedNames(lines[..k], f);
    }
  }

  /** The untracked list has one entry per line, in the same order: line `i` becomes an
      untracked file named by that line. */
  lemma {:induction false} UntrackedEntriesSpec(lines: seq<string>)
    ensures |UntrackedEntries(lines)| == |lines|
    ensures forall i :: 0 <= i < |lines| ==> UntrackedEntries(lines)[i] == FileInfo(lines[i], Untracked)
    decreases |lines|
  {
    if lines != [] {
      var k := |lines| - 1;
      UntrackedEntriesSpec(lines[..k]);
      forall i | 0 <= i < k ensures UntrackedEntries(lines)[i] == FileInfo(lines[i], Untracked) {
        assert lines[..k][i] == lines[i];
      }
    }
  }

  // ---- The repository object ----

  class Repository {
    var unstagedChanges: seq<FileInfo>
    var stagedChanges: seq<FileInfo>
    var untrackedFiles: seq<FileInfo>
    var unmergedFiles: seq<FileInfo>
    var processQueue: seq<GitProcess>
    var currentProcess: Option<nat>
    var nextProcess: nat
    var started: seq<GitProcess>
    var signals: seq<Signal>

    /** A process runs exactly while the queue is non-empty: the front of the queue, the
        last one started. The queue holds created processes in creation order, and
        processes start in creation order, each once. */
    ghost predicate Valid()
      reads this`processQueue, this`currentProcess, this`nextProcess, this`started
    {
      (currentProcess.Some? <==> processQueue != []) &&
      (processQueue != [] ==>
        currentProcess.value == processQueue[0].process &&
        started != [] && started[|started| - 1] == processQueue[0]) &&
      (forall i :: 0 <= i < |processQueue| ==> processQueue[i].process < nextProcess) &&
      (forall i, j :: 0 <= i < j < |processQueue| ==> processQueue[i].process < processQueue[j].process) &&
      (forall i :: 0 <= i < |started| ==> started[i].process < nextProcess) &&
      (forall i, j :: 0 <= i < j < |started| ==> started[i].process < started[j].process)
    }

    constructor()
      ensures Valid() && processQueue == [] && currentProcess == None && started == []
      ensures unstagedChanges == [] && stagedChanges == [] && untrackedFiles == [] &&
        unmergedFiles == [] && signals == []
    {
      unstagedChanges, stagedChanges, untrackedFiles, unmergedFiles := [], [], [], [];
      processQueue, currentProcess, nextProcess, started, signals := [], None, 0, [], [];
    }

    /** `startProcess`: a new process for `args` goes to the back of the queue, and starts
        at once when none is running. */
    method QueueProcess(args: seq<string>)
      modifies this`processQueue, this`currentProcess, this`nextProcess, this`started
      requires Valid()
      ensures Valid()
      ensures processQueue == old(processQueue) + [GitProcess(old(nextProcess), args)]
      ensures nextProcess == old(nextProcess) + 1
      ensures old(currentProcess).None? ==>
        currentProcess == Some(old(nextProcess)) && started == old(started) + [GitProcess(old(nextProcess), args)]
      ensures old(currentProcess).Some? ==>
        currentProcess == old(currentProcess) && started == old(started)
    {
      var process := nextProcess;
      nextProcess := nextProcess + 1;
      processQueue := processQueue + [GitProcess(process, args)];
      if currentProcess.None? {
        currentProcess := Some(process);
        started := started + [GitProcess(process, args)];
      }
    }

    /** `processFinished`: the front of the queue is done; the next one, if any, starts. */
    method ProcessFinished()
      modifies this`processQueue, this`currentProcess, this`started
      requires Valid() && processQueue != []
      ensures Valid()
      ensures processQueue == old(processQueue)[1..]
      ensures processQueue == [] ==> currentProcess == None && started == old(started)
      ensures processQueue != [] ==>
        currentProcess == Some(processQueue[0].process) && started == old(started) + [processQueue[0]]
    {
      processQueue := processQueue[1..];
      currentProcess := None;
      if |processQueue| > 0 {
        var newProc := processQueue[0];
        currentProcess := Some(newProc.process);
        started := started + [newProc];
      }
    }

    /** `refresh`: queue `git diff --name-status`. */
    method Refresh()
      modifies this`processQueue, this`currentProcess, this`nextProcess, this`started
      requires Valid()
      ensures Valid()
      ensures processQueue == old(processQueue) + [GitProcess(old(nextProcess), ["diff", "--name-status"])]
      ensures nextProcess == old(nextProcess) + 1
      ensures old(currentProcess).None? ==>
        currentProcess == Some(old(nextProcess)) &&
        started == old(started) + [GitProcess(old(nextProcess), ["diff", "--name-status"])]
      ensures old(currentProcess).Some? ==>
        currentProcess == old(currentProcess) && started == old(started)
    {
      QueueProcess(["diff", "--name-status"]);
    }

    /** `unstagedStatusRefreshed`: on failure the error is signalled and nothing else
        happens; otherwise the accepted lines are appended to the unmerged files or the
        unstaged changes, and `git diff --cached --name-status` is queued. */
    method UnstagedStatusRefreshed(exitCode: int, output: string, errorOutput: string)
      modifies this`unstagedChanges, this`unmergedFiles, this`signals
      modifies this`processQueue, this`currentProcess, this`nextProcess, this`started
      requires Valid()
      ensures Valid()
      ensures exitCode != 0 ==>
        signals == old(signals) + [GitError(exitCode, errorOutput)] &&
        unstagedChanges == old(unstagedChanges) && unmergedFiles == old(unmergedFiles) &&
        processQueue == old(processQueue) && currentProcess == old(currentProcess) &&
        nextProcess == old(nextProcess) && started == old(started)
      ensures exitCode == 0 ==>
        var lines := NonEmptyLines(output);
        signals == old(signals) &&
        unstagedChanges == old(unstagedChanges) + Changes(lines) &&
        unmergedFiles == old(unmergedFiles) + Conflicts(lines) &&
        processQueue == old(processQueue) + [GitProcess(old(nextProcess), ["diff", "--cached", "--name-status"])] &&
        nextProcess == old(nextProcess) + 1
      ensures exitCode == 0 && old(currentProcess).None? ==>
        currentProcess == Some(old(nextProcess)) &&
        started == old(started) + [GitProcess(old(nextProcess), ["diff", "--cached", "--name-status"])]
      ensures exitCode == 0 && old(currentProcess).Some? ==>
        currentProcess == old(currentProcess) && started == old(started)
    {
      if exitCode != 0 {
        signals := signals + [GitError(exitCode, errorOutput)];
        return;
      }
      var changes, conflicts := ParseStatus(NonEmptyLines(output));
      unmergedFiles := unmergedFiles + conflicts;
      unstagedChanges := unstagedChanges + changes;
      QueueProcess(["diff", "--cached", "--name-status"]);
    }

    /** `stagedStatusRefreshed`: the same reading, with the unmerged lines dropped, then
        the untracked listing is queued. */
    method StagedStatusRefreshed(exitCode: int, output: string, errorOutput: string)
      modifies this`stagedChanges, this`signals
      modifies this`processQueue, this`currentProcess, this`nextProcess, this`started
      requires Valid()
      ensures Valid()
      ensures exitCode != 0 ==>
        signals == old(signals) + [GitError(exitCode, errorOutput)] &&
        stagedChanges == old(stagedChanges) && processQueue == old(processQueue) &&
        currentProcess == old(currentProcess) && nextProcess == old(nextProcess) &&
        started == old(started)
      ensures exitCode == 0 ==>
        signals == old(signals) &&
        stagedChanges == old(stagedChanges) + Changes(NonEmptyLines(output)) &&
        processQueue == old(processQueue) +
          [GitProcess(old(nextProcess), ["ls-files", "--others", "--exclude-standard"])] &&
        nextProcess == old(nextProcess) + 1
      ensures exitCode == 0 && old(currentProcess).None? ==>
        currentProcess == Some(old(nextProcess)) &&
        started == old(started) + [GitProcess(old(nextProcess), ["ls-files", "--others", "--exclude-standard"])]
      ensures exitCode == 0 && old(currentProcess).Some? ==>
        currentProcess == old(currentProcess) && started == old(started)
    {
      if exitCode != 0 {
        signals := signals + [GitError(exitCode, errorOutput)];
        return;
      }
      var changes, _ := ParseStatus(NonEmptyLines(output));
      stagedChanges := stagedChanges + changes;
      QueueProcess(["ls-files", "--others", "--exclude-standard"]);
    }

    /** `untrackedStatusRefreshed`: every line is an untracked file; then `refreshed`. */
    method UntrackedStatusRefreshed(exitCode: int, output: string, errorOutput: string)
      modifies this`untrackedFiles, this`signals
      requires Valid()
      ensures Valid()
      ensures exitCode != 0 ==>
        signals == old(signals) + [GitError(exitCode, errorOutput)] && untrackedFiles == old(untrackedFiles)
      ensures exitCode == 0 ==>
        signals == old(signals) + [Refreshed] &&
        untrackedFiles == old(untrackedFiles) + UntrackedEntries(NonEmptyLines(output))
    {
      if exitCode != 0 {
        signals := signals + [GitError(exitCode, errorOutput)];
        return;
      }
      var files := ParseUntracked(NonEmptyLines(output));
      untrackedFiles := untrackedFiles + files;
      signals := signals + [Refreshed];
    }
  }
}
