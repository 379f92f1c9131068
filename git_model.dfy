/** What the summariser and the sync loop read from the repository. Every value
    here is the result of a go-git call (tree iteration, `file.Lines()`,
    `Parent(0)`, `IsAncestor`, `Patch`, `Log`), taken as given. */
module GitModel {

  datatype Option<+T> = None | Some(value: T)

  /** `diff.Equal`, `diff.Add` and `diff.Delete`: the kind of a patch chunk. */
  datatype ChunkType = Equal | Add | Delete

  /** One contiguous region of a file patch and its text. */
  datatype Chunk = Chunk(kind: ChunkType, content: string)

  /** One file of a patch: the paths of its two sides (`filepatch.Files()`,
      either may be absent) and its chunks in patch order. */
  datatype FilePatch = FilePatch(from: Option<string>, to: Option<string>, chunks: seq<Chunk>)

  /** A file of a commit's tree and the length of `file.Lines()` for it. */
  datatype TreeFile = TreeFile(name: string, lineCount: nat)

  /** A commit as the summariser sees it. `files` is the tree in iteration
      order (read only for a root commit); `firstParentIsAncestor` is
      `Parent(0).IsAncestor(commit)` and `patches` is the patch from `Parent(0)`
      to the commit (both read only for a commit with parents). */
  datatype Commit = Commit(
    hash: string,
    authorEmail: string,
    authorWhen: int,
    message: string,
    numParents: nat,
    files: seq<TreeFile>,
    firstParentIsAncestor: bool,
    patches: seq<FilePatch>)

  /** A reference of the clone and the log walked from its hash, newest first. */
  datatype Reference = Reference(name: string, log: seq<Commit>)
}
