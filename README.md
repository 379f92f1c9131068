# git-fetch-history in Dafny

A model of the core of `git-fetch-history`. This is a Go service that watches one branch of a git repository. It turns every newly introduced commit into a JSON record of the files the commit touched and stores that record in a bucket. The model covers:

- **The commit summariser** (`ProcessCommit`), module `Summarizer` in `summarizer.dfy`. One commit becomes a `CommitEntry` holding a sequence of `FileEntry` records. Three policies decide the records:
  - A root commit gives one `initial` record per tree file.
  - A commit whose first parent is not an ancestor gives no records.
  - A commit whose first parent is an ancestor gives one `deleted` or `modify` record per file patch.

  The functions `Summarize` and `Summary` state what the record is. The methods `CountChunks` and `ProcessCommit` compute it with the loops and accumulators of the Go code, and are proved equal to those functions.
- **Line counting and message flattening**, module `Text` in `text.dfy`. `Split` is Go's `strings.Split(s, "\n")`: the number of pieces is the line count of a chunk. `StripNewlines` is `strings.Replace(msg, "\n", "", -1)`.
- **The object key**, module `Publisher` in `publisher.dfy`. A record is stored under `repo/branch/hash.json`. `ParseKey` reads a key back. It serves as the key's partner in the proofs.
- **The incremental frontier walk and the backfill**, module `Sync` in `sync.dfy`. The class `Tracker` owns the cursor `head` (the last observed head) and `published` (every write sent to the bucket, in order). It also keeps a ghost list `processed` of the commits handled so far. Its invariant `Valid()` says that the writes are exactly the uploads of those commits' records.
  - `Poll` is one iteration of `main`'s polling loop. It walks the whole log with the sticky `hitOldHead` flag, as the Go callback does. It processes only the commits before the old head, then moves the cursor to the new head.
  - `Backfill` is `Setup`'s walk over the references. It processes the whole log of the reference whose name equals the branch name.

The inputs that come from go-git are plain values in `git_model.dfy` (module `GitModel`):
- a commit's parent count;
- the flag `Parent(0).IsAncestor(commit)`;
- the file patches from the first parent, each with optional from/to paths and typed chunks;
- the tree files with their `file.Lines()` counts;
- the log of each reference, newest first.

Points where the program's behaviour is easy to misread:
- A commit whose first parent is not an ancestor is still published, with an empty file list: `ProcessCommit` always ends in `UploadToS3` (main.go:298-299). So `Poll` and `Backfill` issue one write per processed commit, whatever its policy.
- The walk in `main` does not stop at the old head. It visits the whole log and skips every commit from the old head onward through a sticky flag (main.go:135-150). The processed commits are still exactly the prefix before the old head (`NewCommits`).
- A chunk's line count is the number of `"\n"`-separated pieces. One added line whose chunk text ends in a newline therefore counts as 2 (`TrailingNewlineCountsExtraLine`). The scenarios `TwoCommitExample` and `MixedChunksExample` give their chunk texts without a trailing newline, so there each line counts once. `MixedChunksNewlineTerminated` repeats the mixed scenario with newline-terminated chunks, as go-git produces them, and each chunk then counts one line more.
- The backfill compares each reference's full name (as go-git reports it, for example `refs/heads/main`) with the configured branch name exactly as written (main.go:347). `BackfillCommits` does the same.

## Model

| member | source | states |
|---|---|---|
| `Text.Split` | main.go:274 | `strings.Split(s, "\n")` always returns at least one piece, so an empty chunk still has one |
| `Text.SplitLength` | main.go:274 | the number of pieces is the number of newlines plus one |
| `Text.SplitPiecesHaveNoNewline` | main.go:274 | no piece contains a newline |
| `Text.JoinSplit` | main.go:274 | joining the pieces with `"\n"` gives back the original string |
| `Text.SplitUnique` | main.go:274 | any newline-free cutting of `s` that joins back to `s` is `Split(s)`, so `Split` is fully determined by the two lemmas above |
| `Text.StripNewlines` | main.go:175 | the normalised message has no newline, and its length is the original length minus the number of newlines |
| `Text.StripNewlinesAppend` | main.go:175 | stripping a concatenation strips each part and keeps them in order, so every kept character stays in its original position relative to the others |
| `Text.StripDropsNewline` | main.go:175 | a newline between two parts is removed and nothing else changes: the stored text is the two stripped parts joined directly |
| `Text.StripWithoutNewline` | main.go:175 | a message without newlines is stored unchanged |
| `Text.StripIdempotent` | main.go:175 | normalising twice equals normalising once |
| `Text.StripKeepsOtherChars` | main.go:175 | every character other than a newline occurs as often in the stored message as in the commit message |
| `Summarizer.ChangeTypeNameInjective` | main.go:212-285 | the three change-type tags `initial`, `deleted` and `modify` are pairwise distinct, so a record's tag names its policy |
| `Summarizer.ChunkLines` | main.go:274 | a chunk contributes its newline count plus one lines |
| `Summarizer.TrailingNewlineCountsExtraLine` | main.go:274 | content ending in a newline counts one more line than the same content without it |
| `Summarizer.TallyByKind` | main.go:268-281 | the chunk walk's chunk counts are the numbers of Add and Delete chunks, and its line counts are the sums of those chunks' line counts |
| `Summarizer.LinesOfAtLeastCount` | main.go:274-279 | the lines of a kind's chunks are at least the number of those chunks |
| `Summarizer.TallyLinesAtLeastChunks` | main.go:273-280 | after the walk, lines added ≥ chunks added and lines removed ≥ chunks removed |
| `Summarizer.TallyIgnoresEqual` | main.go:271-272 | an Equal chunk anywhere in the list changes none of the four counts |
| `Summarizer.CountChunks` | main.go:265-281 | the accumulator loop computes the chunk walk. Its chunk counts are the numbers of Add and Delete chunks, and lines are at least chunks on each side |
| `Summarizer.ProcessCommit` | main.go:172-298 | the loops build exactly `Summary` of the commit: repo and branch copied from the arguments, the commit's hash, the normalised message (no newline) and the policy's file records |
| `Summarizer.RootCommitRecords` | main.go:198-221 | a root commit yields exactly one record per tree file, in tree order. Each is `initial` with 1 chunk added, 0 removed, 0 lines removed, and the file's line count as lines added |
| `Summarizer.NonAncestorSkipped` | main.go:226-235 | when the first parent is not an ancestor, the record has no file entries but is still built for the commit |
| `Summarizer.PatchEntriesAppend` | main.go:240-293 | records are appended in file-patch order: the records of a concatenation are the concatenated records |
| `Summarizer.DeletedFileRecord` | main.go:248-262 | a patch without a new side yields one `deleted` record under the old path with all counts 0, or no record when the old side is missing too |
| `Summarizer.ModifiedFileRecord` | main.go:263-291 | a patch with a new side yields one `modify` record under the new path. It counts the Add and Delete chunks and their lines, and lines ≥ chunks on each side |
| `Summarizer.PatchEntriesWellFormed` | main.go:241-293 | every record of a patch keeps the shape of its change type |
| `Summarizer.SummaryWellFormed` | main.go:198-293 | every record of every commit keeps its shape: `deleted` has all counts 0, `initial` has 1 chunk added and nothing removed, `modify` has lines ≥ chunks |
| `Summarizer.MessageNormalised` | main.go:175 | the stored message has no newline and is a fixed point of the normalisation |
| `Summarizer.MixedChunksExample` | main.go:268-281 | chunks [add 3 lines, equal, delete 2 lines, add 1 line] count 2 chunks and 4 lines added, 1 chunk and 2 lines removed |
| `Summarizer.MixedChunksNewlineTerminated` | main.go:268-281 | the same chunks ending in newlines ([add "a\nb\nc\n", equal, delete "d\ne\n", add "f\n"]) count 2 chunks and 6 lines added, 1 chunk and 3 lines removed |
| `Summarizer.TwoCommitExample` | main.go:198-291 | a root commit with `a.txt` (2 lines) and `b.txt` (1 line) gives two `initial` records. A later commit deleting `b.txt` and adding one line to `a.txt` gives a `deleted` record then a `modify` record with 1 chunk and 1 line added |
| `Publisher.ObjectKey` | main.go:66 | the key starts with the repository name and ends in `.json`, and is 7 characters longer than the three names together |
| `Publisher.ParseObjectKey` | main.go:66 | when neither the repository name nor the hash contains `/`, the key reads back as exactly the repository, branch and hash it was built from, whatever the branch name, including one with `/` |
| `Publisher.ParseFullReferenceKey` | main.go:66 | the key of a commit on the full reference name `refs/heads/main` reads back with that branch name intact |
| `Publisher.ObjectKeyInjective` | main.go:66 | within one repository and branch, two commits share a key only if their hashes are equal |
| `Sync.NewCommits` | main.go:135-150 | the commits processed in a poll are a prefix of the log, none of them is the old head, and the prefix stops only at the old head or at the end of the log |
| `Sync.NewCommitsWithoutOldHead` | main.go:135-150 | when the old head is not in the log, every commit of the log is processed |
| `Sync.FrontierExample` | main.go:135-150 | with old head H0 and log [C3, C2, C1, H0, C0], exactly C3, C2, C1 are processed, in that order |
| `Sync.OldHeadNotRepublished` | main.go:135-150 | no write of a poll goes to the old head's key |
| `Sync.BackfillWalksWholeLog` | main.go:343-364 | with one reference named after the branch, the backfill processes that reference's entire log, with no bound |
| `Sync.Tracker.constructor` | main.go:89-90 | a tracker starts for the configured repository and branch with nothing processed or published |
| `Sync.Tracker.Process` | main.go:172-189 | processing a commit appends one write, the commit's record under its `repo/branch/hash.json` key (the record built in `ProcessCommit`, uploaded at main.go:299). It leaves the cursor alone and keeps every write tied to its processed commit |
| `Sync.Tracker.ProcessAll` | main.go:355-359 | every commit of a log is processed and published, in log order, with no stop condition |
| `Sync.Tracker.Backfill` | main.go:342-364 | the backfill processes exactly the logs of the references named after the branch, in order. The cursor then becomes the head resolved afterwards (main.go:112) |
| `Sync.Tracker.Poll` | main.go:116-153 | "already up to date" changes nothing. A new head processes and publishes exactly `NewCommits(log, old head)`, newest first, and then sets the cursor to the new head |

## Left out

- Uploading to S3 (the session, `PutObject` and its ACL, encryption, content type and disposition), along with `json.Marshal`. These are foreign library calls (main.go:62-83). Only the key and the record's contents are modelled.
- The failure path of every call checked by `CheckIfError`. It logs, sleeps five minutes and exits the process (main.go:50-60). This covers `Files`, `Lines`, `Parent(0)`, `IsAncestor`, `Patch`, `Log`, `Head`, a failed pull and a failed upload. The model takes each of these calls as having succeeded.
- Reading `REPO` and `BRANCH` from the environment and panicking when either is empty (main.go:89-98). These are environment reads; the tracker receives the two names as arguments.
- SSH keys, the host-key callback, `git clone` through the shell, `PlainOpen`/`PlainClone`, `worktree.Pull` and `setupAndGetPath`. These are network, filesystem and transport code (main.go:100-107, 119-121, 157-170, 302-339). The outcome of a pull is a `PullResult` argument.
- Every `time.Sleep`, and the endless polling loop itself (main.go:86-87, 116-117). One iteration is `Poll`; the loop is a sequence of `Poll` calls.
- go-git's own computations: ancestry, patch computation, `file.Lines()`, tree iteration order and log order. Their results are inputs.
- The author's email and `Author.When.Unix()`. They are copied into the record unchanged as opaque values.
- Logging to standard output.
- Go's 64-bit `int`: the counts are unbounded naturals, since no real commit comes near overflow.
- `ParseKey` is not in the program. It is the model's reading of the key format, used only to state that the key determines its parts.
