# stupidgit history engine in Dafny

This project models the core of stupidgit, a small graphical front end for git. The
model covers five areas:

- **The commit store.** `git log -z` records are parsed into commits that sit in a
  module-global pool keyed by sha1. Each parent's list of children is back-filled as
  its children arrive.
- **The history graph layout** (`CreateLogGraph`). Each commit gets a row, a lane and
  a colour. Each parent-to-child edge gets a style (direct, branch or merge), a column
  and a colour. The edges are written into per-row occupancy lists, and reference
  labels are attached afterwards.
- **The lost-commit analysis.** It lists the commits that would become unreachable if a
  reference were moved.
- **The small parsers around them:**
  - the `git status` name-status tables;
  - the `git show-ref` classification and the `.git/HEAD` reading of `load_refs`;
  - the `git ls-tree` submodule lookup;
  - the `.git/config` reader `ConfigFile`;
  - `invert_hash` and the byte-counting rule of `is_binary_file`;
  - the line-style state machine of the diff viewer.
- **The C++ front end's repository object.** This covers the status-code mapping, the
  parsing of the three status listings, and the first-in-first-out queue that runs git
  processes one at a time.

Git's output enters the model as input strings. Commits, nodes and edges are values:

- parents and children are lists of sha1 ids;
- a layout node refers to its edges by value;
- an edge refers to its two nodes by row number.

Where the original updates state step by step, the model does the same:

- `CommitPool`, `CommitList`, `DiffView`, `ConfigFile`, `Repository` and
  `GitRepository.Repository` are classes whose methods change their fields;
- the loops are `while` loops with invariants;
- each loop is proved either equal to a specification function, whose properties are
  proved as lemmas, or against a postcondition that characterises its result outright.
  The lane, merge-column, collision, edge-registration and lane-freeing loops of the
  layout are of the second kind.

Files:

- `wrappers.dfy`: Option and Result.
- `text.dfy`: splitting, joining, stripping and partitioning of strings, with their
  round trips.
- `commit_store.dfy`: the commit pool, `parse_gitlog_output` and `get_log`.
- `lost_commits.dfy`: `get_lost_commits`.
- `refs.dfy`: the text parsing of `load_refs` and `get_submodule_version`.
- `repository.dfy`: the `Repository` objects of the GUI and of the older command-line
  copy.
- `status.dfy`: `get_status` and `get_unified_status`.
- `config_file.dfy`: `ConfigFile`.
- `util.dfy`: `invert_hash` and `is_binary_file`.
- `commit_list.dfy`: `CreateLogGraph` in both versions, the node kind,
  `_add_reference` and `RowNumberByCoords`.
- `diff_viewer.dfy`: `SetDiffText`.
- `git_repository.dfy`: `GitRepository` from `src/gitrepository.cpp`.

The older copies in `stupidgit/` and `ugitwx/` repeat much of this code:

- `parse_gitlog_output`, `get_log`, `get_submodule_version`, `ConfigFile` and
  `invert_hash` are the same code as in the GUI, so one member models both. The table
  cites the GUI lines.
- The older `load_refs` is `Repository.LegacyRepository`. It has no combined `refs`
  map, no `main_merge_ref` and no lost-commit walk.
- The older layout is `CommitList.LegacyCommitList`, the `Wx` version of `Layout`. Its
  merge-column search looks only at edges.

## Model

| member | source | states |
|---|---|---|
| CommitStore.ParentIdsField | stupidgit_gui/git.py:508-514 | The parent ids are the space-separated fields of the parent line, in order. Joined with spaces they give the line back, none of them contains a space, and an empty line gives no parents. |
| CommitStore.FirstMissingSpec | stupidgit_gui/git.py:510 | `FirstMissing` is the index of the first parent id absent from the pool; every id before it is present. This is the id whose lookup raises. |
| CommitStore.AddChildAdds | stupidgit_gui/git.py:511-512 | Back-filling appends the child to each parent's children once for every time that parent is listed. Every other commit is unchanged, and so is the set of ids. |
| CommitStore.AddChildPrefix | stupidgit_gui/git.py:511-512 | Back-filling the first i+1 parents is back-filling the first i, then appending the child to parent i. This is the loop's order. |
| CommitStore.ParseRecordOutcome | stupidgit_gui/git.py:501-518 | Parsing a record fails as malformed exactly when it has fewer than 8 lines. It succeeds exactly when every parent is in the pool. An unknown-parent failure names an absent parent id. On success, the commit's sha1 is line 0, its parents are the parent field's ids, its children are empty, and the pool is the `AddChild` back-fill of those parents. |
| CommitStore.ParseRecordBackfills | stupidgit_gui/git.py:508-512 | A parsed record leaves every parent with the new sha1 appended to its children, once for each time the record lists it. Every other commit is unchanged, and so is the set of ids. |
| CommitStore.ParseRecordMissing | stupidgit_gui/git.py:508-512 | The first absent parent decides the failure. The pool is not touched, because the parents are looked up before any children list changes. |
| CommitStore.ParseRecordParsed | stupidgit_gui/git.py:501-518 | When all parents are present, the result is the commit built from the eight header lines, with the message body rejoined by newlines, together with the back-filled pool. |
| CommitStore.ParseFormatted | stupidgit_gui/git.py:501-518 | Round trip: formatting a commit as a `git log` record and parsing it gives the same commit with empty children, with each parent back-filled. |
| CommitStore.ParentIdsJoin | stupidgit_gui/git.py:509 | Round trip: splitting a space-joined list of non-empty, space-free ids gives the list back. |
| CommitStore.Register | stupidgit_gui/git.py:286 | Registering a parsed commit adds its sha1 to the pool and stores the commit under it. |
| CommitStore.IngestRegisters | stupidgit_gui/git.py:283-288 | Ingesting records in order registers one commit per parsed record, each under its first line. It stops with an error exactly when a record fails. The pool only grows. |
| CommitStore.IngestStopsAtFailure | stupidgit_gui/git.py:284-288 | On a failure, the pool is exactly the pool after the records before the failing one. The failing record is never registered, and the error is that record's parse error. |
| CommitStore.LogIdsNewestFirst | stupidgit_gui/git.py:280-291 | `get_log` parses the NUL-separated records oldest first, but returns their ids in the log's own newest-first order: entry i is the sha1 of record i. |
| CommitStore.IngestWellFormed | stupidgit_gui/git.py:283-288 | Ingesting records with fresh, distinct sha1s keeps the pool well formed. Every parent is in the pool, children and parents mirror each other with multiplicity, and parents rank strictly below their children. |
| CommitStore.RegisterWellFormed | stupidgit_gui/git.py:501-518 | Registering one parsed commit under a fresh sha1 keeps the pool well formed. |
| CommitStore.CommitPool.ParseGitlogOutput | stupidgit_gui/git.py:501-518 | The pool method returns the parsed commit and leaves the back-filled pool, or returns the parse error and leaves the pool unchanged. The older copy at stupidgit/git.py:310-327 is the same code. |
| CommitStore.CommitPool.ResolveParents | stupidgit_gui/git.py:510 | The lookup loop stops at the first parent id absent from the pool. |
| CommitStore.CommitPool.AppendChild | stupidgit_gui/git.py:511-512 | The back-filling loop leaves the pool that `AddChild` specifies. |
| CommitStore.CommitPool.GetLog | stupidgit_gui/git.py:277-291 | `get_log` leaves the pool that ingesting the reversed records gives. It returns the reversed ids, or the first record's error; the older copy at stupidgit/git.py:208-222 is the same code. |
| CommitStore.CommitPool.IngestRecords | stupidgit_gui/git.py:283-288 | The registration loop is equal to `Ingest`, both in the pool and in the result. |
| CommitStore.CommitPool.constructor | stupidgit_gui/git.py:44 | The pool starts empty. |
| LostCommits.LostCommitsOutcome | stupidgit_gui/git.py:423-445 | An unknown refname fails exactly when the name is neither HEAD nor a known ref. An unknown commit fails exactly when the resolved id is not in the pool. Otherwise the result is empty exactly when a short-circuit rule holds: the ref moves to the same commit, HEAD is also named by a ref, two refs name the commit, or the commit has children. A non-empty result starts with the moved commit. |
| LostCommits.LostCommitsFollowed | stupidgit_gui/git.py:454-469 | Every later commit of the result is a parent of an earlier one that the walk follows: no ref names it, it is not the destination, and it has exactly one child. |
| LostCommits.LostCommitsDistinct | stupidgit_gui/git.py:454-469 | In a well-linked pool the result has no commit twice. |
| LostCommits.FollowedFrom | stupidgit_gui/git.py:462-465 | A parent enters the next frontier only when it is a parent of the current commit and the walk follows it. |
| LostCommits.NextFrom | stupidgit_gui/git.py:460-465 | Every commit of the next frontier is a followed parent of some commit in the current frontier. |
| LostCommits.NextRanksLower | stupidgit_gui/git.py:457-468 | Each frontier ranks strictly below the previous one, so the walk ends. |
| LostCommits.FollowedCount | stupidgit_gui/git.py:461-465 | Filtering a parent list keeps each followed id as often as it is listed, and no other id. |
| LostCommits.NextCount | stupidgit_gui/git.py:460-465 | A followed commit appears in the next frontier as often as its only child appears in the current one. |
| LostCommits.WalkCount | stupidgit_gui/git.py:457-468 | Across the rest of the walk, a followed commit appears as often as its only child appears in the walk so far. |
| LostCommits.WalkOnce | stupidgit_gui/git.py:457-468 | From a childless start, no commit appears in the walk more than once. |
| LostCommits.WalkFollowed | stupidgit_gui/git.py:457-468 | Every commit the walk adds after the start is followed and is a parent of an earlier commit of the walk. |
| Status.GetStatus | stupidgit_gui/git.py:357-380 | `get_status` returns the working table (name-status pairs merged, then untracked names added) and the staged table merged from the cached listing. |
| Status.GetUnifiedStatus | stupidgit_gui/git.py:382-397 | `get_unified_status` returns the working table of the `diff HEAD` listing and the untracked names. |
| Status.ReadChanges | stupidgit_gui/git.py:363-366 | The pair loop equals `MergeChanges` over the first `len/2` pairs. |
| Status.ReadUntracked | stupidgit_gui/git.py:369-371 | The untracked loop equals `AddUntracked`. |
| Status.MergeChangesSpec | stupidgit_gui/git.py:363-366 | A file is in the table exactly when some pair names it. A file ever listed as unmerged ends up unmerged. Otherwise it keeps the status of the first pair that names it. |
| Status.TrailingElementIgnored | stupidgit_gui/git.py:363 | A trailing odd element of the listing changes nothing. |
| Status.MergeChangesPrefix | stupidgit_gui/git.py:363-366 | Elements after the pairs read do not affect the table. |
| Status.AddUntrackedSpec | stupidgit_gui/git.py:369-371 | A file is in the result exactly when it was in the table, or is a non-empty untracked name. Existing entries keep their status, and new ones are untracked. |
| Status.MergeStagedSpec | stupidgit_gui/git.py:374-377 | A file is staged exactly when some pair names it and is kept: it is not unmerged, or it is not an unstaged file. Its status is that of the last kept pair naming it. |
| Status.StagedUnmergedDropped | stupidgit_gui/git.py:376-377 | A staged entry that is not unmerged is kept with its status. An unmerged staged entry for a file already unstaged is dropped. |
| Refs.CurrentBranchSpec | stupidgit_gui/git.py:196-203 | The current branch is present exactly when the stripped HEAD file starts with `ref: refs/heads/`, and it is the rest of that text. |
| Refs.CurrentBranchOfRef | stupidgit_gui/git.py:198-203 | A HEAD file `ref: refs/heads/<b>` plus a newline names branch `<b>`. |
| Refs.Classify | stupidgit_gui/git.py:223-231 | A refname under `refs/heads/`, `refs/remotes/` or `refs/tags/` is classified with the prefix stripped, checked in that order. Any other refname is classified as other. |
| Refs.ClassifyPrefixes | stupidgit_gui/git.py:223-231 | Each class holds exactly when the refname has that class's prefix. |
| Refs.ClassifyRefName | stupidgit_gui/git.py:223-231 | Round trip: classifying a branch, remote-branch or tag name written with its prefix gives it back. |
| Refs.ShowRefConsistent | stupidgit_gui/git.py:219-235 | After the show-ref loop, each short-name table agrees with `refs` under its prefix. The tags hold exactly the tag refs whose commit lookup succeeded, each mapped to the stripped lookup output. |
| Refs.ShowRefNames | stupidgit_gui/git.py:219-221 | Every show-ref line puts its refname into `refs`, and nothing else gets there. |
| Refs.ShowRefLast | stupidgit_gui/git.py:219-221 | The id stored for a refname is the one on the last line that names it. |
| Refs.TrailingNewlineRef | stupidgit_gui/git.py:219-221 | Output that ends in a newline leaves the entry `"" -> ""` in `refs`, from the empty last piece. |
| Refs.EntryStepSpec | stupidgit_gui/git.py:266-273 | One ls-tree entry: a blank entry is skipped. A matching `commit` entry stops the search with its sha1. An entry that does not split into the expected parts fails with that entry. |
| Refs.SubmoduleVersionFirst | stupidgit_gui/git.py:266-275 | The lookup returns None exactly when every entry is passed over. Otherwise its result is that of the first entry that stops it. |
| Refs.SubmoduleVersionSpec | stupidgit_gui/git.py:262-275 | A found sha1 belongs to the first non-blank entry that names the basename with type `commit`. None means that no such entry exists. A failure names a non-blank entry of the listing. |
| Repository.Repository.LoadRefs | stupidgit_gui/git.py:188-241 | `load_refs` stores the stripped `rev-parse HEAD` output and the branch named in `.git/HEAD`. It also stores the given main refs and the show-ref tables, and every `*_by_sha1` map is the inverse of its table. |
| Repository.Repository.constructor | stupidgit_gui/git.py:153-181 | A new repository has its refs loaded as `load_refs` loads them. |
| Repository.Repository.LoadHead | stupidgit_gui/git.py:194-216 | The HEAD part of `load_refs`. |
| Repository.Repository.LoadTables | stupidgit_gui/git.py:218-241 | The show-ref part of `load_refs` and the four inverse maps. |
| Repository.Repository.BuildInverses | stupidgit_gui/git.py:237-241 | Each `*_by_sha1` map inverts its table. |
| Repository.Repository.GetSubmoduleVersion | stupidgit_gui/git.py:262-275 | The ls-tree lookup is run on the NUL-separated listing with the basename of the submodule path. The older copy at stupidgit/git.py:193-206 is the same code. |
| Repository.Repository.GetLostCommits | stupidgit_gui/git.py:423-469 | The method's loops return exactly `LostCommits` on the repository's head, refs and inverse map. |
| Repository.ReadHead | stupidgit_gui/git.py:197-203 | Reading `.git/HEAD` gives `CurrentBranch`. |
| Repository.ReadShowRef | stupidgit_gui/git.py:219-235 | The show-ref loop builds `ShowRefTables`. |
| Repository.FrontierWalk | stupidgit_gui/git.py:454-469 | The `while search_pos` loop returns `Walk` from the moved commit. |
| Repository.WalkStep | stupidgit_gui/git.py:457-467 | One round of the loop: the walk is the frontier followed by the walk from the next frontier, which ranks lower. |
| Repository.NextSearch | stupidgit_gui/git.py:460-465 | The nested loop builds `NextFrontier`. |
| Repository.AddFollowed | stupidgit_gui/git.py:461-465 | The inner loop appends the followed parents. |
| Repository.LegacyRepository.LoadRefs | stupidgit/git.py:128-172 | The older `load_refs` stores the head, the branch and the main ref. It fills only branches, remote branches and tags, with their inverses. |
| Repository.LegacyRepository.constructor | stupidgit/git.py:93-126 | A new repository of the older copy has its refs loaded. |
| Repository.LegacyRepository.LoadTables | stupidgit/git.py:152-172 | The older show-ref loop, without a combined `refs` map. |
| Repository.LegacyRepository.BuildInverses | stupidgit/git.py:169-172 | The three inverse maps of the older copy. |
| Repository.ReadLegacyShowRef | stupidgit/git.py:153-167 | The older loop gives the same three tables as the GUI's loop. |
| ConfigFile.ConfigFile.constructor | stupidgit_gui/git.py:522-564 | The sections are those that `ParseConfig` gives for the file's lines. The older copies at stupidgit/git.py:331-373 and ugitwx/git.py:122-164 are the same code. |
| ConfigFile.ConfigFile.OptionsForSection | stupidgit_gui/git.py:573-578 | Present exactly when a section of that type and name exists. The options are those of the first such section. |
| ConfigFile.ConfigFile.GetOption | stupidgit_gui/git.py:580-585 | Present exactly when the first section of that type and name has the option, and then it is that option's value. A missing section gives None. |
| ConfigFile.ReadLine | stupidgit_gui/git.py:545-560 | One iteration of the line loop is `Step`. |
| ConfigFile.ReadHeader | stupidgit_gui/git.py:549-557 | A header line closes the open section and opens a new, empty one. |
| ConfigFile.ReadOption | stupidgit_gui/git.py:560-562 | An option line sets the key in the open section, or does nothing when no section is open. |
| ConfigFile.Span | stupidgit_gui/git.py:526-528 | The greedy run of a character class from a position: every character in it is in the class, and the next one, if any, is not. |
| ConfigFile.RootSectionSpec | stupidgit_gui/git.py:526 | `p_rootsect.match` succeeds with a name exactly when the line starts with `[`, that name, and `]`, the name being non-empty and free of `]` and whitespace. |
| ConfigFile.TypedSectionSpec | stupidgit_gui/git.py:527 | `p_sect.match` succeeds with a type and a name exactly when the line starts with `[`, the type, one or more whitespace characters, the name in double quotes, and `]`. The type is non-empty and free of `]`, `"` and whitespace; the name is non-empty and free of `"`. |
| ConfigFile.OptionLineSpec | stupidgit_gui/git.py:528 | `p_option.match` succeeds with a key and a value exactly when the line is a non-empty run of word characters, optional whitespace, `=`, optional whitespace, then the value, which does not start with whitespace. |
| ConfigFile.HeaderSpec | stupidgit_gui/git.py:543-557 | A plain header opens a section without a type and a typed header one with its type. The two patterns never both match a line, so trying the plain one first loses nothing. |
| ConfigFile.SectionsFollowHeaders | ugitwx/git.py:142-163 | The sections are titled by the header lines, in order and one per header. A section is still open at the end exactly when some header was read. |
| ConfigFile.LeadingOptionsDropped | ugitwx/git.py:157-160 | Lines before the first header do not affect the result. |
| ConfigFile.NoHeaderNoSection | stupidgit/git.py:355-372 | A file without headers gives no sections. |
| ConfigFile.LastSectionOptions | ugitwx/git.py:157-163 | The last section holds the options of the lines after its header, with a later duplicate key winning. It is appended at the end of input. |
| ConfigFile.SectionOptions | ugitwx/git.py:157-160 | The option lines of a section set its options in order. |
| ConfigFile.StepKeepsTitles | ugitwx/git.py:139-160 | A skipped line or a non-header line does not change the titles. |
| ConfigFile.FoldAppend | ugitwx/git.py:136-160 | The line loop runs over a concatenation in two parts. |
| ConfigFile.HeaderIsNoOption | stupidgit_gui/git.py:541-562 | A header line never also matches the option pattern. |
| ConfigFile.MatchingSpec | ugitwx/git.py:170-171 | `sections_for_type` lists exactly the sections of that type, as (name, options). |
| ConfigFile.MatchingAppend | ugitwx/git.py:170-171 | `sections_for_type` keeps file order. |
| ConfigFile.FirstOptions | ugitwx/git.py:173-178 | `options_for_section` is present exactly when a matching section exists, and then returns the first one's options. |
| Util.InvertHash | stupidgit_gui/util.py:36-44 | The result's keys are exactly the values of `h`, and no list is empty. Every key of `h` is listed exactly once under its value, and nothing else is listed. The older copy at stupidgit/util.py:30-38 is the same code. |
| Util.InvertStep | stupidgit_gui/util.py:40-42 | One iteration keeps the partial inverse of the keys visited so far. |
| Util.InverseSize | stupidgit/util.py:33-37 | The list lengths of an inverse sum to the number of keys of `h`. |
| Util.ListedOnce | stupidgit_gui/util.py:39-43 | The list under a value is as long as the number of keys that map to that value. |
| Util.InverseWithout | stupidgit_gui/util.py:39-43 | Removing one value from both sides keeps the inverse relation. |
| Util.WithoutValue | stupidgit_gui/util.py:39-43 | The keys of `h` that do not map to `v`, with their values. |
| Util.IsBinaryFile | stupidgit_gui/util.py:59-88 | Corrected reading: text that decodes as UTF-8 is never binary. Otherwise the file is binary when the bytes above 0x7f, or below 0x1f other than CR and LF, exceed a fifth of its length (floor). |
| Util.IsBinaryFileAsWritten | stupidgit_gui/util.py:78-88 | As written: CR and LF are counted as binary too. |
| Util.ExceedsFifth | stupidgit_gui/util.py:79-88 | The counting loop with its early return decides exactly whether the count exceeds `len/5`. |
| Util.IntendedCountsFewer | stupidgit_gui/util.py:83 | The corrected rule never counts more bytes than the written one, so it never says binary where the written one does not. |
| Util.LineTextNotBinary | stupidgit_gui/util.py:83 | Under the corrected rule, printable ASCII text with CR/LF line breaks counts no binary bytes and is never binary. |
| Util.LineBreaksCountedAsWritten | stupidgit_gui/util.py:83 | Counterexample: for `\n\nAA\xff` the written rule counts 3 > 1 and says binary. The corrected rule counts 1 and does not. |
| Util.CountIfPrefix | stupidgit_gui/util.py:81-86 | The count over a prefix never exceeds the whole count, so returning early gives the same verdict. |
| CommitList.Kind | stupidgit_gui/CommitList.py:538-545 | Merge or junction exactly when there is more than one parent, and branch or junction exactly when there is more than one child. The older copy at ugitwx/CommitList.py:215-222 is the same code. |
| CommitList.ChooseLane | stupidgit_gui/CommitList.py:94-115 | If a lane holds a child of the commit, the node takes the lowest such lane and its colour, and the lanes and the colour counter do not change. Otherwise the node takes the counter, which is incremented. Its column is then the first empty lane, or a new lane appended at the end. |
| CommitList.Collides | stupidgit_gui/CommitList.py:142-147 | The inner search loop finds a collision exactly when the column is not free. |
| CommitList.MergeColumn | stupidgit_gui/CommitList.py:137-147 | The merge search returns the lowest free column at or after its start. In a free column, no row in (child.y, node.y] holds an edge there. In the GUI version, also no row in (child.y, node.y) has its node there. |
| CommitList.SpanBound | stupidgit_gui/CommitList.py:140-147 | A column past every spanned node and row is free, so the search terminates. |
| CommitList.ChildEdge | stupidgit_gui/CommitList.py:124-147 | The edge is direct exactly when the child sits in the node's column and occupies the node's lane. It is a branch exactly when it is not direct and the child has one parent. Direct and branch edges take the child's column and colour. A merge edge takes the node's colour and the lowest free column at or after `max(node.x, child.x+1)`. |
| CommitList.Written | stupidgit_gui/CommitList.py:152-154 | Writing an edge into a row pads the row with empty entries up to its column, puts the edge there, and leaves every other entry. |
| CommitList.RegisterEdge | stupidgit_gui/CommitList.py:150-154 | Exactly the rows in (child.y, node.y] are written. |
| CommitList.RegisterGrows | stupidgit_gui/CommitList.py:150-154 | Registering never shortens a row or empties an entry. |
| CommitList.AddEdge | stupidgit_gui/CommitList.py:119-154 | The edge is appended to the node's child edges and to the child's parent edges. It satisfies its style rules and is written in every spanned row. Positions, colours and labels are unchanged. |
| CommitList.DrawEdges | stupidgit_gui/CommitList.py:117-156 | The edge loop fails exactly when some child has no node yet, naming such a child. Otherwise every child has its edge in order, each correct and registered, and `columns` is the widest of before and the new edges. |
| CommitList.FreeLanes | stupidgit_gui/CommitList.py:158-161 | A lane is emptied exactly when its occupant has as many parent edges as parents. |
| CommitList.LayoutRow | stupidgit_gui/CommitList.py:86-163 | One row of the layout: it fails exactly when a child of the commit is not yet seen. Otherwise the first y+1 rows are drawn. |
| CommitList.RowOpened | stupidgit_gui/CommitList.py:87-92 | Appending the node for commit y, with `node.y = y`, opens row y. |
| CommitList.RowClosed | stupidgit_gui/CommitList.py:117-156 | Once the row's edges are drawn, the first y+1 rows are drawn. |
| CommitList.RowsKept | stupidgit_gui/CommitList.py:150-154 | Later rows' edges never disturb the edges of finished rows, because overwriting keeps occupied entries occupied. |
| CommitList.EdgeKept | stupidgit_gui/CommitList.py:150-154 | A correct edge stays correct when rows only grow. |
| CommitList.ColumnsStep | stupidgit_gui/CommitList.py:115 | `columns` stays the largest node or edge column seen. |
| CommitList.Layout | stupidgit_gui/CommitList.py:76-163 | The whole layout fails exactly when some commit has a child that is not at or above it, naming the first such child. Otherwise each commit has its own row with `node.y` equal to its index. Every child edge is correct and registered, and `columns` is the largest column of any node or edge. |
| CommitList.HeadLabel | stupidgit_gui/CommitList.py:166-169 | HEAD is labelled with the current branch as head-branch exactly when the branch name is non-empty. Otherwise it is labelled `DETACHED HEAD`. |
| CommitList.AddReference | stupidgit_gui/CommitList.py:184-192 | A label is appended only to the row of a pooled commit that has a node. Other ids are silently dropped, and nothing else changes. |
| CommitList.AddMapReferences | stupidgit_gui/CommitList.py:176-182 | A row gains exactly the labels of the map entries, other than the skipped name, whose commit is shown in that row. |
| CommitList.AddFixedReferences | stupidgit_gui/CommitList.py:166-174 | A row gains exactly the HEAD label and the non-empty main-module references shown in it. |
| CommitList.AddReferences | stupidgit_gui/CommitList.py:165-182 | A row's labels become its earlier labels plus exactly the requested labels shown in that row. |
| CommitList.CurrentBranchOnce | stupidgit_gui/CommitList.py:166-178 | The current branch never gets a plain branch label. When its name is non-empty and HEAD is shown, it gets the head-branch label. |
| CommitList.LabelsKeepDrawing | stupidgit_gui/CommitList.py:165-192 | Attaching labels leaves the layout as drawn. |
| CommitList.CommitList.CreateLogGraph | stupidgit_gui/CommitList.py:76-182 | `CreateLogGraph` stores the layout of `Layout(Gui)` with its row index, then attaches exactly the requested labels. It fails as `Layout` fails. |
| CommitList.CommitList.constructor | stupidgit_gui/CommitList.py:58 | `SetRepo` stores the log's commits before any graph is laid out: no nodes, no rows, no columns. |
| CommitList.CommitList.RowNumberByCoords | stupidgit_gui/CommitList.py:467-473 | A row is returned exactly when 8 <= y < 16*rows + 8, and then row r covers 16(r+1)-8 <= y < 16(r+1)+8. This is `(y+8)/16 - 1` with floor division, kept inside the rows. |
| CommitList.LegacyCommitList.CreateLogGraph | ugitwx/CommitList.py:37-123 | The older layout with the edges-only merge search: it fails as `Layout` fails, and otherwise its graph is drawn. |
| CommitList.LegacyCommitList.constructor | ugitwx/CommitList.py:31 | `SetRepo` stores the log's commits before any graph is laid out: no nodes, no rows, no columns. |
| DiffViewer.DiffView.SetDiffText | stupidgit_gui/DiffViewer.py:57-115 | The view shows the lines of the text, each followed by a newline. It has one styling per line, starting where the line starts and as long as the line, with the state machine's style. A file marker sits on exactly the non-empty file-style lines. The view ends read-only. |
| DiffViewer.DiffView.Clear | stupidgit_gui/DiffViewer.py:52-55 | Clearing empties the text, the stylings and the markers, and leaves the view read-only. |
| DiffViewer.DiffView.constructor | stupidgit_gui/DiffViewer.py:26-50 | A new view is empty. |
| DiffViewer.StyleLines | stupidgit_gui/DiffViewer.py:63-113 | The line loop produces what `Shows` describes for all lines. |
| DiffViewer.StyleLine | stupidgit_gui/DiffViewer.py:76-102 | One line's branch chain is `Classify`. |
| DiffViewer.Initial | stupidgit_gui/DiffViewer.py:63-70 | Commit mode starts in the header, and diff mode outside the header; both start outside the message and any hunk. |
| DiffViewer.StyledRange | stupidgit_gui/DiffViewer.py:105-108 | The styling of line i starts at the sum of `len+1` over the earlier lines, covers exactly that line's characters, and the next line starts one past its end. |
| DiffViewer.ShownText | stupidgit_gui/DiffViewer.py:74-105 | The shown text is the input text plus one final newline. |
| DiffViewer.CommitModeAfter | stupidgit_gui/DiffViewer.py:76-84 | In commit mode, before the first blank line the state is the header. After one blank line it is the message, and after two it is neither. |
| DiffViewer.CommitLines | stupidgit_gui/DiffViewer.py:76-84 | In commit mode, every line up to and including the second blank line is commit-styled. |
| DiffViewer.AfterCommitMessage | stupidgit_gui/DiffViewer.py:81-102 | After the blank line that ends the message, lines are styled exactly as a plain diff of the remaining lines. |
| DiffViewer.DiffModeAfter | stupidgit_gui/DiffViewer.py:85-102 | In diff mode the state before line i is inside a hunk exactly when an earlier line starts with '@' and every line since starts with '+', '-', '@' or ' '. |
| DiffViewer.DiffStyles | stupidgit_gui/DiffViewer.py:85-102 | In diff mode, '@' lines are hunk-styled. Inside a hunk, '+' is add, '-' is remove and ' ' is normal. Any other line, including an empty one, and any line outside a hunk that does not start with '@', is file-styled. |
| DiffViewer.ModeAfterConcat | stupidgit_gui/DiffViewer.py:74-102 | The state machine runs over a concatenation in two parts. |
| DiffViewer.RenderedConcat | stupidgit_gui/DiffViewer.py:105 | The shown text of a concatenation is the concatenation of the shown texts. |
| GitRepository.FileStatusByCode | src/gitrepository.cpp:213-238 | A status is unknown exactly when the code is not one of `AMDCRUTNB`. |
| GitRepository.StatusCodeRoundTrip | src/gitrepository.cpp:213-238 | Round trip with the letter of each known status: distinct known letters give distinct statuses. |
| GitRepository.ParseStatus | src/gitrepository.cpp:159-170 | The status loop splits the accepted lines into changes and conflicts as `Changes` and `Conflicts` say. |
| GitRepository.ParseUntracked | src/gitrepository.cpp:204-207 | The untracked loop turns every line into an untracked entry, in order. |
| GitRepository.ChangesSpec | src/gitrepository.cpp:161-169 | An entry is a change exactly when it is not unmerged and some accepted line gives it. An accepted line is longer than two characters with a tab at index 1; its name is everything after the first two characters. |
| GitRepository.ConflictsSpec | src/gitrepository.cpp:161-166 | An entry is a conflict exactly when it is unmerged and some accepted line gives it. |
| GitRepository.StatusListsPartition | src/gitrepository.cpp:161-169 | Every accepted line lands in exactly one of the two lists. |
| GitRepository.NonEmpty | src/gitrepository.cpp:159 | Splitting with empty parts skipped keeps exactly the non-empty lines. |
| GitRepository.UntrackedFromOutput | src/gitrepository.cpp:203-207 | Every untracked entry is a non-empty line of the output, with the untracked status. |
| GitRepository.UntrackedEntriesSpec | src/gitrepository.cpp:204-206 | The untracked list has one entry per line, in order; entry `i` is an untracked file named by line `i`. |
| GitRepository.Repository.constructor | src/gitrepository.cpp:26-30 | No process is current, the queue is empty, and the lists are empty. |
| GitRepository.Repository.QueueProcess | src/gitrepository.cpp:103-121 | The new process goes to the back of the queue. When none was current, it becomes current and is started with its arguments; otherwise nothing else changes. The current process is set exactly when the queue is non-empty, and it is the front. Processes start in creation order. |
| GitRepository.Repository.ProcessFinished | src/gitrepository.cpp:123-146 | The front is popped. The new front, if any, becomes current and is started; otherwise there is no current process. The invariant is kept. |
| GitRepository.Repository.Refresh | src/gitrepository.cpp:148-151 | Queues `git diff --name-status` as `QueueProcess` does: the next process id is taken, and the process starts exactly when none was current. |
| GitRepository.Repository.UnstagedStatusRefreshed | src/gitrepository.cpp:153-175 | On a non-zero exit code, `gitError` is emitted and nothing else changes: the lists, the queue, the current process, the next id and the started processes stay as they were. Otherwise the accepted lines are appended to the unstaged changes or the unmerged files, and the staged listing is queued under the next id. It starts at once exactly when no process was current; otherwise the current process and the started list are unchanged. The staged and untracked lists are outside the method's frame. |
| GitRepository.Repository.StagedStatusRefreshed | src/gitrepository.cpp:177-196 | On a non-zero exit code, `gitError` is emitted and nothing else changes. Otherwise the same reading, with unmerged lines dropped, is appended to the staged changes. Then the untracked listing is queued under the next id, and it starts at once exactly when no process was current. The other lists are outside the method's frame. |
| GitRepository.Repository.UntrackedStatusRefreshed | src/gitrepository.cpp:198-211 | Every non-empty line is appended as an untracked file, and `refreshed` is emitted. A failure emits `gitError` only. |
| Text.IndexOf | stupidgit_gui/git.py:502 | The position of the first occurrence of the separator, or the length when there is none. No earlier character is the separator. |
| Text.Split | stupidgit_gui/git.py:502 | `str.split` on one character gives at least one piece, and no piece contains the separator. |
| Text.SplitJoin | stupidgit_gui/git.py:509 | Round trip: splitting a join of separator-free pieces gives the pieces back. |
| GitRepository.StatusCode | src/gitrepository.cpp:213-238 | The status letter of each known status is one of `AMDCRUTNB`. |
| Text.Partition | stupidgit_gui/git.py:220 | `str.partition`: the head has no separator. When the separator occurs, head, separator and tail make up the input; otherwise the tail is empty. |
| Text.StripSpec | stupidgit_gui/git.py:199 | `strip` returns the input with exactly its leading and trailing whitespace removed: the result is the slice of the input after the leading whitespace, and every character before or after that slice is whitespace. It is empty exactly for all-whitespace input, and otherwise neither end is whitespace. |
| Text.Basename | stupidgit_gui/git.py:264 | The basename is the suffix after the last '/'. |
| Text.JoinSplit | stupidgit_gui/git.py:502 | Round trip: joining the pieces of a split with its separator gives the text back. |

## Left out

- Running git is left out: `run_cmd`, `git_binary`, the `.git` directory search, `get_submodules`, `commit`, `merge_file` and `update_head`. So are the C++ `gitBinary`, `setDirectory`, `createProcess` and `commandOutput`. Their outputs are the model's input strings. The `rev-parse <tag>^{commit}` lookups of `load_refs` are a map from tag reference name to output; a failed lookup is a missing key.
- File reads (`.git/HEAD`, the config file, the file `is_binary_file` opens) are input strings. `except OSError` does not catch the Python 2 `IOError` that a failed `open` raises, so a missing file is not modelled as an error path.
- Python raises exceptions where the model returns a `Failure`: an unpacking error for a short record, a `KeyError` for an unknown parent, ref or child node. The layout's `KeyError` leaves a partly built graph in the original; the model returns the missing id and does not describe that partial graph.
- Object identity: commits, nodes and edges are values keyed by sha1 or row number. Re-ingesting a sha1 replaces the pool entry, as `commit_pool[sha1] = c` does. `get_log` returns ids rather than the commit objects, which keep receiving children in the original.
- Dictionary iteration order (`invert_hash`, the label loops over branches, remote branches and tags) is not determined. `Util.InvertHash` states the inverse without fixing the order within a list, and `CommitList.AddReferences` states a row's labels as a set, not their order.
- `CommitList.CommitList.CreateLogGraph`: repository fields are passed as a `RefSources` value and the commit pool as a parameter. The node-to-edge links are values, and edges are appended to the node lists before their style is set (the same final values).
- CommitList.Layout: states node columns, node colours and the lanes after each row only step by step, through `ChooseLane` and `FreeLanes`. It states nothing about the colour counter over the whole layout. Two choices are also stated only for each edge as it is made, in `ChildEdge` and `MergeColumn`: direct versus branch style, and taking the lowest free merge column. The `Drawn` invariant's `StyleOk` checks an edge against the style it has, not against which style the rule picks.
- CommitList.LayoutRow: carries the same per-step gap as `CommitList.Layout` for the row's node and its edges.
- CommitList.CommitList.CreateLogGraph: its `Valid()` is `Drawn`, so it carries the same gap as `CommitList.Layout`.
- CommitList.LegacyCommitList.CreateLogGraph: its `Drawn` result carries the same gap as `CommitList.Layout`.
- `DiffViewer.DiffView.SetDiffText`: positions count characters of the text; `safe_unicode` and the StyledTextCtrl byte positions are not modelled. `Clear`'s effect on the widget and the marker symbol set-up are reduced to the three fields.
- `OnPaint`, the mouse and key handlers and every other wx or Qt UI element are left out.
- `safe_unicode` and `utf8_str`, and the UTF-8 decoding test of `is_binary_file`, are left out. Decodability is a boolean input.
- The `processQueueMutex` locking and the signal connections are left out. The queue is sequential, and a slot and then `ProcessFinished` are called for the finished process, in the order the connections are made.
- Emitted signals are recorded in a `signals` list. Started processes are recorded in a `started` list, with the arguments they were started with.
- The C++ header `src/gitrepository.h` does not declare the queue members that the `.cpp` file uses; the model follows the `.cpp` file.

## Findings

| source | as written | input that shows it | evidently intended | confidence | as-written member | corrected member |
|---|---|---|---|---|---|---|
| stupidgit_gui/util.py:83 | `oc != '\r' and oc != '\n'` compares the integer `ord(c)` with one-character strings, which is always unequal in Python 2, so CR and LF bytes count as binary | a file `\n\nAA\xff` that is not valid UTF-8: the threshold is 5/5 = 1 and the count is 3, so it is reported binary | compare with `ord('\r')` and `ord('\n')`, so that line breaks are not binary characters (count 1, not binary) | not executed | Util.LineBreaksCountedAsWritten | Util.LineTextNotBinary |
