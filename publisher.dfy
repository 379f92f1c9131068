/** `UploadToS3` without the transport: the object key a record is stored
    under, and the write request it becomes. */
module Publisher {
  import opened GitModel
  import Summarizer

  /** `repo/branch/hash.json`. */
  function ObjectKey(repo: string, branch: string, hash: string): (key: string)
    ensures |key| == |repo| + |branch| + |hash| + 7
    ensures key[..|repo|] == repo && key[|key| - 5..] == ".json"
  {
    repo + "/" + branch + "/" + hash + ".json"
  }

  /** One unconditional write to the bucket: the key and the record stored there. */
  datatype Put = Put(key: string, entry: Summarizer.CommitEntry)

  /** The write `UploadToS3` issues for a record. */
  function Upload(entry: Summarizer.CommitEntry): Put
  {
    Put(ObjectKey(entry.repo, entry.branch, entry.hash), entry)
  }

  /** The three parts of a key. */
  datatype KeyParts = KeyParts(repo: string, branch: string, hash: string)

  /** Position of the first `c` in `s`, or `|s|` when there is none. */
  function IndexOf(s: string, c: char): (i: nat)
    ensures i <= |s|
    ensures i < |s| ==> s[i] == c
    ensures forall j :: 0 <= j < i ==> s[j] != c
  {
    if s == [] then 0
    else if s[0] == c then 0
    else 1 + IndexOf(s[1..], c)
  }

  /** Position of the last `c` in `s`, or `-1` when there is none. */
  function LastIndexOf(s: string, c: char): (i: int)
    ensures -1 <= i < |s|
    ensures i >= 0 ==> s[i] == c
    ensures forall j :: i < j < |s| ==> s[j] != c
  {
    if s == [] then -1
    else if s[|s| - 1] == c then |s| - 1
    else LastIndexOf(s[..|s| - 1], c)
  }

  /** Reads a key back: without its `.json` suffix, the text before the first
      `/` is the repository, the text after the last `/` is the hash, and what
      lies between is the branch, which may itself hold `/` (a full reference
      name such as `refs/heads/main`). */
  function ParseKey(key: string): Option<KeyParts>
  {
    if |key| < 5 || key[|key| - 5..] != ".json" then None
    else
      var body := key[..|key| - 5];
      var i := IndexOf(body, '/');
      var j := LastIndexOf(body, '/');
      if i == |body| || j <= i then None
      else Some(KeyParts(body[..i], body[i + 1..j], body[j + 1..]))
  }

  lemma IndexOfAfterPrefix(a: string, c: char, b: string)
    requires c !in a
    ensures IndexOf(a + [c] + b, c) == |a|
  {
    var s := a + [c] + b;
    assert s[|a|] == c;
    assert forall j :: 0 <= j < |a| ==> s[j] == a[j];
  }

  lemma {:induction false} LastIndexOfBeforeSuffix(a: string, c: char, b: string)
    requires c !in b
    ensures LastIndexOf(a + [c] + b, c) == |a|
    decreases |b|
  {
    var s := a + [c] + b;
    if b != [] {
      var b' := b[..|b| - 1];
      assert s[|s| - 1] == b[|b| - 1];
      assert s[..|s| - 1] == a + [c] + b';
      assert c !in b' by { assert forall x :: x in b' ==> x in b; }
      LastIndexOfBeforeSuffix(a, c, b');
    }
  }

  /** When neither the repository name nor the hash holds a `/` (a commit hash
      is hex), the key reads back as the three names it was built from,
      whatever the branch name: `refs/heads/main` included. */
  lemma ParseObjectKey(repo: string, branch: string, hash: string)
    requires '/' !in repo && '/' !in hash
    ensures ParseKey(ObjectKey(repo, branch, hash)) == Some(KeyParts(repo, branch, hash))
  {
    var key := ObjectKey(repo, branch, hash);
    var body := repo + "/" + branch + "/" + hash;
    assert key == body + ".json";
    assert key[..|key| - 5] == body;
    assert body == repo + "/" + (branch + "/" + hash);
    IndexOfAfterPrefix(repo, '/', branch + "/" + hash);
    assert body == (repo + "/" + branch) + "/" + hash;
    LastIndexOfBeforeSuffix(repo + "/" + branch, '/', hash);
    assert body[..|repo|] == repo;
    assert body[|repo| + 1..|repo| + 1 + |branch|] == branch;
    assert body[|repo| + 1 + |branch| + 1..] == hash;
  }

  /** A branch named by its full reference name survives the round trip. */
  lemma ParseFullReferenceKey()
    ensures ParseKey(ObjectKey("r", "refs/heads/main", "h")) == Some(KeyParts("r", "refs/heads/main", "h"))
  {
    ParseObjectKey("r", "refs/heads/main", "h");
  }

  /** Within one repository and branch, distinct commits never share a key,
      so the unconditional overwrite of one never clobbers another. */
  lemma ObjectKeyInjective(repo: string, branch: string, h1: string, h2: string)
    requires ObjectKey(repo, branch, h1) == ObjectKey(repo, branch, h2)
    ensures h1 == h2
  {
    var p := repo + "/" + branch + "/";
    var k1, k2 := ObjectKey(repo, branch, h1), ObjectKey(repo, branch, h2);
    assert k1 == p + h1 + ".json" && k2 == p + h2 + ".json";
    assert |h1| == |h2|;
    assert h1 == k1[|p|..|p| + |h1|];
    assert h2 == k2[|p|..|p| + |h2|];
  }
}
