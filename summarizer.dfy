/** `ProcessCommit`: one commit becomes a `CommitEntry` whose file records
    follow one of three policies (root commit, first parent not an ancestor,
    first parent an ancestor). The functions here say what the record is; the
    methods compute it with the loops and accumulators of the Go code. */
module Summarizer {
  import opened GitModel
  import Text

  /** The `ChangeType` of a file record, a closed set of three tags. */
  datatype ChangeType = Initial | Modify | Deleted

  /** The string each tag is written as in the published record. */
  function ChangeTypeName(t: ChangeType): string
  {
    match t
    case Initial => "initial"
    case Modify => "modify"
    case Deleted => "deleted"
  }

  /** The three tags are written as three different strings, so a published
      record's change type can be read back. */
  lemma ChangeTypeNameInjective(a: ChangeType, b: ChangeType)
    requires ChangeTypeName(a) == ChangeTypeName(b)
    ensures a == b
  {
  }

  /** `FileEntry`: one file touched by a commit. */
  datatype FileEntry = FileEntry(
    file: string,
    changeType: ChangeType,
    chunksAdded: nat,
    chunksRemoved: nat,
    linesAdded: nat,
    linesRemoved: nat)

  /** `CommitEntry`: the record published for one commit. */
  datatype CommitEntry = CommitEntry(
    repo: string,
    branch: string,
    hash: string,
    timestamp: int,
    author: string,
    message: string,
    files: seq<FileEntry>)

  // ---------------------------------------------------------------------------
  // Chunk counting

  /** Lines a chunk contributes: the length of `strings.Split(content, "\n")`. */
  function ChunkLines(c: Chunk): (n: nat)
    ensures n == Text.NewlineCount(c.content) + 1
  {
    Text.SplitLength(c.content);
    |Text.Split(c.content)|
  }

  /** The line count is not the number of lines of text: content that ends in
      a newline counts one more than the same content without it. */
  lemma TrailingNewlineCountsExtraLine(k: ChunkType, s: string)
    ensures ChunkLines(Chunk(k, s + "\n")) == ChunkLines(Chunk(k, s)) + 1
  {
    Text.NewlineCountAppend(s, "\n");
  }

  /** The four accumulators of the chunk walk. */
  datatype Tally = Tally(chunksAdded: nat, chunksRemoved: nat, linesAdded: nat, linesRemoved: nat)

  /** One step of the chunk walk: an Add or Delete chunk bumps its chunk count
      by one and its line count by the chunk's lines; an Equal chunk does nothing. */
  function CountChunk(t: Tally, c: Chunk): Tally
  {
    match c.kind
    case Equal => t
    case Add => t.(chunksAdded := t.chunksAdded + 1, linesAdded := t.linesAdded + ChunkLines(c))
    case Delete => t.(chunksRemoved := t.chunksRemoved + 1, linesRemoved := t.linesRemoved + ChunkLines(c))
  }

  /** The accumulators after walking `chunks` in order from all zeros. */
  function TallyChunks(chunks: seq<Chunk>): Tally
  {
    if chunks == [] then Tally(0, 0, 0, 0)
    else CountChunk(TallyChunks(chunks[..|chunks| - 1]), chunks[|chunks| - 1])
  }

  /** Reference definition: the number of chunks of kind `k`. */
  function CountOf(chunks: seq<Chunk>, k: ChunkType): nat
  {
    if chunks == [] then 0
    else (if chunks[0].kind == k then 1 else 0) + CountOf(chunks[1..], k)
  }

  /** Reference definition: the lines of all chunks of kind `k` together. */
  function LinesOf(chunks: seq<Chunk>, k: ChunkType): nat
  {
    if chunks == [] then 0
    else (if chunks[0].kind == k then ChunkLines(chunks[0]) else 0) + LinesOf(chunks[1..], k)
  }

  lemma {:induction false} CountOfAppend(a: seq<Chunk>, b: seq<Chunk>, k: ChunkType)
    ensures CountOf(a + b, k) == CountOf(a, k) + CountOf(b, k)
    ensures LinesOf(a + b, k) == LinesOf(a, k) + LinesOf(b, k)
  {
    if a != [] {
      CountOfAppend(a[1..], b, k);
      assert (a + b)[1..] == a[1..] + b;
    } else {
      assert a + b == b;
    }
  }

  /** The walk counts exactly the Add and Delete chunks and their lines. */
  lemma {:induction false} TallyByKind(chunks: seq<Chunk>)
    ensures TallyChunks(chunks) ==
      Tally(CountOf(chunks, Add), CountOf(chunks, Delete), LinesOf(chunks, Add), LinesOf(chunks, Delete))
  {
    if chunks != [] {
      var init, last := chunks[..|chunks| - 1], chunks[|chunks| - 1];
      TallyByKind(init);
      assert chunks == init + [last];
      CountOfAppend(init, [last], Add);
      CountOfAppend(init, [last], Delete);
    }
  }

  /** Every counted chunk has at least one line. */
  lemma {:induction false} LinesOfAtLeastCount(chunks: seq<Chunk>, k: ChunkType)
    ensures LinesOf(chunks, k) >= CountOf(chunks, k)
  {
    if chunks != [] {
      LinesOfAtLeastCount(chunks[1..], k);
    }
  }

  /** Hence lines added are at least chunks added, and the same for removals. */
  lemma {:induction false} TallyLinesAtLeastChunks(chunks: seq<Chunk>)
    ensures TallyChunks(chunks).linesAdded >= TallyChunks(chunks).chunksAdded
    ensures TallyChunks(chunks).linesRemoved >= TallyChunks(chunks).chunksRemoved
  {
    TallyByKind(chunks);
    LinesOfAtLeastCount(chunks, Add);
    LinesOfAtLeastCount(chunks, Delete);
  }

  /** An Equal chunk, wherever it stands, changes none of the counts. */
  lemma TallyIgnoresEqual(before: seq<Chunk>, content: string, after: seq<Chunk>)
    ensures TallyChunks(before + [Chunk(Equal, content)] + after) == TallyChunks(before + after)
  {
    var e := [Chunk(Equal, content)];
    TallyByKind(before + e + after);
    TallyByKind(before + after);
    forall k: ChunkType | k != Equal
      ensures CountOf(before + e + after, k) == CountOf(before + after, k)
      ensures LinesOf(before + e + after, k) == LinesOf(before + after, k)
    {
      CountOfAppend(before + e, after, k);
      CountOfAppend(before, e, k);
      CountOfAppend(before, after, k);
    }
  }

  /** The chunk loop of a modified file (the `linesadded`, `linesremoved`,
      `chunksadded`, `chunksremoved` accumulators). */
  method CountChunks(chunks: seq<Chunk>) returns (t: Tally)
    ensures t == TallyChunks(chunks)
    ensures t.chunksAdded == CountOf(chunks, Add) && t.chunksRemoved == CountOf(chunks, Delete)
    ensures t.linesAdded >= t.chunksAdded && t.linesRemoved >= t.chunksRemoved
  {
    var linesAdded: nat, linesRemoved: nat := 0, 0;
    var chunksAdded: nat, chunksRemoved: nat := 0, 0;
    for chunkIdx := 0 to |chunks|
      invariant Tally(chunksAdded, chunksRemoved, linesAdded, linesRemoved) == TallyChunks(chunks[..chunkIdx])
    {
      var chunk := chunks[chunkIdx];
      assert chunks[..chunkIdx + 1][..chunkIdx] == chunks[..chunkIdx];
      if chunk.kind == Add {
        linesAdded := linesAdded + |Text.Split(chunk.content)|;
        chunksAdded := chunksAdded + 1;
      }
      if chunk.kind == Delete {
        linesRemoved := linesRemoved + |Text.Split(chunk.content)|;
        chunksRemoved := chunksRemoved + 1;
      }
    }
    assert chunks[..|chunks|] == chunks;
    t := Tally(chunksAdded, chunksRemoved, linesAdded, linesRemoved);
    TallyByKind(chunks);
    TallyLinesAtLeastChunks(chunks);
  }

  // ---------------------------------------------------------------------------
  // File records

  /** The record of one tree file of a root commit. */
  function InitialEntry(f: TreeFile): FileEntry
  {
    FileEntry(f.name, Initial, 1, 0, f.lineCount, 0)
  }

  /** The records of a root commit's tree, appended in iteration order. */
  function InitialEntries(files: seq<TreeFile>): seq<FileEntry>
  {
    if files == [] then []
    else InitialEntries(files[..|files| - 1]) + [InitialEntry(files[|files| - 1])]
  }

  /** The records one file patch contributes: none when both sides are missing,
      a `deleted` record under the old path when the new side is missing, and
      otherwise a `modify` record under the new path with the chunk counts. */
  function PatchEntry(p: FilePatch): seq<FileEntry>
  {
    if p.to.None? && p.from.None? then []
    else if p.to.None? then [FileEntry(p.from.value, Deleted, 0, 0, 0, 0)]
    else
      var t := TallyChunks(p.chunks);
      [FileEntry(p.to.value, Modify, t.chunksAdded, t.chunksRemoved, t.linesAdded, t.linesRemoved)]
  }

  /** The records of a patch, appended in file-patch order. */
  function PatchEntries(patches: seq<FilePatch>): seq<FileEntry>
  {
    if patches == [] then []
    else PatchEntries(patches[..|patches| - 1]) + PatchEntry(patches[|patches| - 1])
  }

  /** The file records of a commit under the three policies. Only the first
      parent is consulted. */
  function Summarize(c: Commit): seq<FileEntry>
  {
    if c.numParents == 0 then InitialEntries(c.files)
    else if !c.firstParentIsAncestor then []
    else PatchEntries(c.patches)
  }

  /** The whole record of a commit. */
  function Summary(repoName: string, branchName: string, c: Commit): CommitEntry
  {
    CommitEntry(repoName, branchName, c.hash, c.authorWhen, c.authorEmail,
                Text.StripNewlines(c.message), Summarize(c))
  }

  /** `ProcessCommit` up to the upload: builds the record of `commit` with the
      loops of the Go code. */
  method ProcessCommit(repoName: string, branchName: string, commit: Commit) returns (entry: CommitEntry)
    ensures entry == Summary(repoName, branchName, commit)
    ensures entry.repo == repoName && entry.branch == branchName && entry.hash == commit.hash
    ensures '\n' !in entry.message
  {
    var message := Text.StripNewlines(commit.message);
    var fileEntries: seq<FileEntry> := [];
    if commit.numParents == 0 {
      var files := commit.files;
      for fileIdx := 0 to |files|
        invariant fileEntries == InitialEntries(files[..fileIdx])
      {
        var file := files[fileIdx];
        assert files[..fileIdx + 1][..fileIdx] == files[..fileIdx];
        fileEntries := fileEntries + [FileEntry(file.name, Initial, 1, 0, file.lineCount, 0)];
      }
      assert files[..|files|] == files;
    } else if commit.firstParentIsAncestor {
      var filePatches := commit.patches;
      for fileIdx := 0 to |filePatches|
        invariant fileEntries == PatchEntries(filePatches[..fileIdx])
      {
        var filePatch := filePatches[fileIdx];
        assert filePatches[..fileIdx + 1][..fileIdx] == filePatches[..fileIdx];
        if filePatch.to.None? && filePatch.from.None? {
          // neither side exists: no record
        } else if filePatch.to.None? {
          fileEntries := fileEntries + [FileEntry(filePatch.from.value, Deleted, 0, 0, 0, 0)];
        } else {
          var t := CountChunks(filePatch.chunks);
          fileEntries := fileEntries +
            [FileEntry(filePatch.to.value, Modify, t.chunksAdded, t.chunksRemoved, t.linesAdded, t.linesRemoved)];
        }
      }
      assert filePatches[..|filePatches|] == filePatches;
    }
    entry := CommitEntry(repoName, branchName, commit.hash, commit.authorWhen, commit.authorEmail,
                         message, fileEntries);
  }

  // ---------------------------------------------------------------------------
  // Properties of the records

  lemma {:induction false} InitialEntriesAt(files: seq<TreeFile>)
    ensures |InitialEntries(files)| == |files|
    ensures forall i :: 0 <= i < |files| ==> InitialEntries(files)[i] == InitialEntry(files[i])
  {
    if files != [] {
      InitialEntriesAt(files[..|files| - 1]);
    }
  }

  /** A root commit yields exactly one `initial` record per tree file, in tree
      order, with one added chunk, the file's line count as lines added, and
      nothing removed. */
  lemma RootCommitRecords(c: Commit)
    requires c.numParents == 0
    ensures |Summarize(c)| == |c.files|
    ensures forall i :: 0 <= i < |c.files| ==>
      Summarize(c)[i] == FileEntry(c.files[i].name, Initial, 1, 0, c.files[i].lineCount, 0)
  {
    InitialEntriesAt(c.files);
  }

  /** A commit whose first parent is not an ancestor yields no file records,
      whatever its tree and patch; its record is still built. */
  lemma NonAncestorSkipped(repoName: string, branchName: string, c: Commit)
    requires c.numParents > 0 && !c.firstParentIsAncestor
    ensures Summary(repoName, branchName, c).files == []
    ensures Summary(repoName, branchName, c).hash == c.hash
  {
  }

  /** The records of a patch are those of its parts, in order. */
  lemma {:induction false} PatchEntriesAppend(a: seq<FilePatch>, b: seq<FilePatch>)
    ensures PatchEntries(a + b) == PatchEntries(a) + PatchEntries(b)
    decreases |b|
  {
    if b == [] {
      assert a + b == a;
    } else {
      var init, last := b[..|b| - 1], b[|b| - 1];
      assert a + b == (a + init) + [last];
      assert b == init + [last];
      PatchEntriesAppend(a, init);
    }
  }

  /** A file patch without a new side but with an old one yields one `deleted`
      record under the old path with all counts zero; one with neither side
      yields none. */
  lemma DeletedFileRecord(p: FilePatch)
    requires p.to.None?
    ensures p.from.Some? ==> PatchEntries([p]) == [FileEntry(p.from.value, Deleted, 0, 0, 0, 0)]
    ensures p.from.None? ==> PatchEntries([p]) == []
  {
    assert [p][..0] == [];
  }

  /** A file patch with a new side yields one `modify` record under the new
      path, counting its Add and Delete chunks and their lines. */
  lemma ModifiedFileRecord(p: FilePatch)
    requires p.to.Some?
    ensures |PatchEntries([p])| == 1
    ensures PatchEntries([p])[0].file == p.to.value && PatchEntries([p])[0].changeType == Modify
    ensures PatchEntries([p])[0].chunksAdded == CountOf(p.chunks, Add)
    ensures PatchEntries([p])[0].chunksRemoved == CountOf(p.chunks, Delete)
    ensures PatchEntries([p])[0].linesAdded == LinesOf(p.chunks, Add)
    ensures PatchEntries([p])[0].linesRemoved == LinesOf(p.chunks, Delete)
    ensures PatchEntries([p])[0].linesAdded >= PatchEntries([p])[0].chunksAdded
    ensures PatchEntries([p])[0].linesRemoved >= PatchEntries([p])[0].chunksRemoved
  {
    assert [p][..0] == [];
    TallyByKind(p.chunks);
    TallyLinesAtLeastChunks(p.chunks);
  }

  /** The shape every record keeps: `deleted` has all counts zero; `initial`
      has one added chunk and nothing removed; `modify` has at least as many
      lines as chunks on each side. */
  predicate WellFormed(e: FileEntry)
  {
    match e.changeType
    case Deleted => e.chunksAdded == 0 && e.chunksRemoved == 0 && e.linesAdded == 0 && e.linesRemoved == 0
    case Initial => e.chunksAdded == 1 && e.chunksRemoved == 0 && e.linesRemoved == 0
    case Modify => e.linesAdded >= e.chunksAdded && e.linesRemoved >= e.chunksRemoved
  }

  lemma {:induction false} PatchEntriesWellFormed(patches: seq<FilePatch>)
    ensures forall i :: 0 <= i < |PatchEntries(patches)| ==> WellFormed(PatchEntries(patches)[i])
  {
    if patches != [] {
      var init, last := patches[..|patches| - 1], patches[|patches| - 1];
      PatchEntriesWellFormed(init);
      TallyLinesAtLeastChunks(last.chunks);
    }
  }

  /** Every record of every commit keeps the shape of its change type. */
  lemma SummaryWellFormed(c: Commit)
    ensures forall i :: 0 <= i < |Summarize(c)| ==> WellFormed(Summarize(c)[i])
  {
    if c.numParents == 0 {
      InitialEntriesAt(c.files);
    } else if c.firstParentIsAncestor {
      PatchEntriesWellFormed(c.patches);
    }
  }

  /** The stored message has no newline and normalising it again changes nothing. */
  lemma MessageNormalised(repoName: string, branchName: string, c: Commit)
    ensures '\n' !in Summary(repoName, branchName, c).message
    ensures Text.StripNewlines(Summary(repoName, branchName, c).message) == Summary(repoName, branchName, c).message
  {
    Text.StripIdempotent(c.message);
  }

  /** A patch of chunks [added 3 lines, unchanged, removed 2 lines, added 1 line]
      counts 2 chunks and 4 lines added, 1 chunk and 2 lines removed. */
  lemma MixedChunksExample()
    ensures TallyChunks([Chunk(Add, "a\nb\nc"), Chunk(Equal, "x"), Chunk(Delete, "d\ne"), Chunk(Add, "f")])
         == Tally(2, 1, 4, 2)
  {
    var cs := [Chunk(Add, "a\nb\nc"), Chunk(Equal, "x"), Chunk(Delete, "d\ne"), Chunk(Add, "f")];
    assert cs[..1] == [cs[0]] && cs[..1][..0] == [];
    assert ChunkLines(cs[0]) == 3 by {
      assert "a\nb\nc"[1..] == "\nb\nc" && "\nb\nc"[1..] == "b\nc" && "b\nc"[1..] == "\nc" && "\nc"[1..] == "c";
    }
    assert ChunkLines(cs[2]) == 2 by {
      assert "d\ne"[1..] == "\ne" && "\ne"[1..] == "e";
    }
    assert ChunkLines(cs[3]) == 1;
    assert TallyChunks(cs[..1]) == Tally(1, 0, 3, 0);
    assert cs[..2][..1] == cs[..1];
    assert TallyChunks(cs[..2]) == Tally(1, 0, 3, 0);
    assert cs[..3][..2] == cs[..2];
    assert TallyChunks(cs[..3]) == Tally(1, 1, 3, 2);
    assert cs[..3] == cs[..|cs| - 1];
  }

  /** The same diff with every chunk ending in a newline, as go-git produces
      them: each chunk counts one line more, so 6 lines are added and 3 removed. */
  lemma MixedChunksNewlineTerminated()
    ensures TallyChunks([Chunk(Add, "a\nb\nc\n"), Chunk(Equal, "x\n"), Chunk(Delete, "d\ne\n"), Chunk(Add, "f\n")])
         == Tally(2, 1, 6, 3)
  {
    var cs := [Chunk(Add, "a\nb\nc\n"), Chunk(Equal, "x\n"), Chunk(Delete, "d\ne\n"), Chunk(Add, "f\n")];
    assert ChunkLines(cs[0]) == 4 by {
      TrailingNewlineCountsExtraLine(Add, "a\nb\nc");
      assert "a\nb\nc"[1..] == "\nb\nc" && "\nb\nc"[1..] == "b\nc" && "b\nc"[1..] == "\nc" && "\nc"[1..] == "c";
    }
    assert ChunkLines(cs[2]) == 3 by {
      TrailingNewlineCountsExtraLine(Delete, "d\ne");
      assert "d\ne"[1..] == "\ne" && "\ne"[1..] == "e";
    }
    assert ChunkLines(cs[3]) == 2 by {
      TrailingNewlineCountsExtraLine(Add, "f");
    }
    assert cs[..1] == [cs[0]] && cs[..1][..0] == [];
    assert TallyChunks(cs[..1]) == Tally(1, 0, 4, 0);
    assert cs[..2][..1] == cs[..1];
    assert TallyChunks(cs[..2]) == Tally(1, 0, 4, 0);
    assert cs[..3][..2] == cs[..2];
    assert TallyChunks(cs[..3]) == Tally(1, 1, 4, 3);
    assert cs[..3] == cs[..|cs| - 1];
  }

  /** A root commit with `a.txt` (2 lines) and `b.txt` (1 line), then a commit
      that deletes `b.txt` and adds one line to `a.txt` in one added chunk. */
  lemma TwoCommitExample(root: Commit, next: Commit)
    requires root.numParents == 0 && root.files == [TreeFile("a.txt", 2), TreeFile("b.txt", 1)]
    requires next.numParents == 1 && next.firstParentIsAncestor
    requires next.patches == [
      FilePatch(Some("b.txt"), None, [Chunk(Delete, "b1")]),
      FilePatch(Some("a.txt"), Some("a.txt"), [Chunk(Equal, "a1\na2\n"), Chunk(Add, "a3")])]
    ensures Summarize(root) == [FileEntry("a.txt", Initial, 1, 0, 2, 0), FileEntry("b.txt", Initial, 1, 0, 1, 0)]
    ensures Summarize(next) == [FileEntry("b.txt", Deleted, 0, 0, 0, 0), FileEntry("a.txt", Modify, 1, 0, 1, 0)]
  {
    RootCommitRecords(root);
    var ps := next.patches;
    PatchEntriesAppend([ps[0]], [ps[1]]);
    assert ps == [ps[0]] + [ps[1]];
    DeletedFileRecord(ps[0]);
    ModifiedFileRecord(ps[1]);
    var cs := ps[1].chunks;
    assert cs[1..] == [Chunk(Add, "a3")];
    assert "a3"[1..] == "3";
  }
}
