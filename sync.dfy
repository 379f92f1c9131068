/** The incremental sync loop of `main` and the backfill walk of `Setup`. The
    cursor `head` is the last observed head; `published` is every write sent
    to the bucket so far, in order. */
module Sync {
  import opened GitModel
  import Summarizer
  import Publisher

  /** The commits of `log` (newest first) strictly before the first one whose
      hash is `oldHead`: a prefix of the log, free of `oldHead`, and stopped
      only by `oldHead`. */
  function NewCommits(log: seq<Commit>, oldHead: string): (newer: seq<Commit>)
    ensures |newer| <= |log| && newer == log[..|newer|]
    ensures forall i :: 0 <= i < |newer| ==> newer[i].hash != oldHead
    ensures |newer| < |log| ==> log[|newer|].hash == oldHead
  {
    if log == [] then []
    else if log[0].hash == oldHead then []
    else [log[0]] + NewCommits(log[1..], oldHead)
  }

  /** When the old head is not in the log, every commit of the log is new. */
  lemma NewCommitsWithoutOldHead(log: seq<Commit>, oldHead: string)
    requires forall i :: 0 <= i < |log| ==> log[i].hash != oldHead
    ensures NewCommits(log, oldHead) == log
  {
  }

  /** After a pull to C3 with log [C3, C2, C1, H0, C0], exactly C3, C2, C1 are new. */
  lemma FrontierExample(c3: Commit, c2: Commit, c1: Commit, h0: Commit, c0: Commit)
    requires h0.hash !in {c3.hash, c2.hash, c1.hash}
    ensures NewCommits([c3, c2, c1, h0, c0], h0.hash) == [c3, c2, c1]
  {
    assert NewCommits([h0, c0], h0.hash) == [];
    assert [c1, h0, c0][1..] == [h0, c0];
    assert NewCommits([c1, h0, c0], h0.hash) == [c1];
    assert [c2, c1, h0, c0][1..] == [c1, h0, c0];
    assert NewCommits([c2, c1, h0, c0], h0.hash) == [c2, c1];
    assert [c3, c2, c1, h0, c0][1..] == [c2, c1, h0, c0];
  }

  /** The writes that processing `commits` in order issues. */
  function Uploads(repoName: string, branchName: string, commits: seq<Commit>): (puts: seq<Publisher.Put>)
    ensures |puts| == |commits|
  {
    seq(|commits|, i requires 0 <= i < |commits| =>
      Publisher.Upload(Summarizer.Summary(repoName, branchName, commits[i])))
  }

  lemma UploadsAppend(repoName: string, branchName: string, a: seq<Commit>, b: seq<Commit>)
    ensures Uploads(repoName, branchName, a + b) == Uploads(repoName, branchName, a) + Uploads(repoName, branchName, b)
  {
  }

  /** A poll never writes the old head's object again. */
  lemma OldHeadNotRepublished(repoName: string, branchName: string, log: seq<Commit>, oldHead: string)
    ensures forall i :: 0 <= i < |Uploads(repoName, branchName, NewCommits(log, oldHead))| ==>
      Uploads(repoName, branchName, NewCommits(log, oldHead))[i].key != Publisher.ObjectKey(repoName, branchName, oldHead)
  {
    var newer := NewCommits(log, oldHead);
    forall i | 0 <= i < |newer|
      ensures Publisher.ObjectKey(repoName, branchName, newer[i].hash) != Publisher.ObjectKey(repoName, branchName, oldHead)
    {
      if Publisher.ObjectKey(repoName, branchName, newer[i].hash) == Publisher.ObjectKey(repoName, branchName, oldHead) {
        Publisher.ObjectKeyInjective(repoName, branchName, newer[i].hash, oldHead);
      }
    }
  }

  /** The commits the backfill takes from one reference: its whole log when
      its name equals the branch name, none otherwise. */
  function ReferenceCommits(ref: Reference, branchName: string): seq<Commit>
  {
    if ref.name == branchName then ref.log else []
  }

  /** The commits the backfill processes: the logs of the references whose
      name equals the branch name, in reference order. */
  function BackfillCommits(refs: seq<Reference>, branchName: string): seq<Commit>
  {
    if refs == [] then []
    else ReferenceCommits(refs[0], branchName) + BackfillCommits(refs[1..], branchName)
  }

  lemma {:induction false} BackfillCommitsNoMatch(refs: seq<Reference>, branchName: string)
    requires forall i :: 0 <= i < |refs| ==> refs[i].name != branchName
    ensures BackfillCommits(refs, branchName) == []
  {
    if refs != [] {
      BackfillCommitsNoMatch(refs[1..], branchName);
    }
  }

  /** With exactly one reference named after the branch, the backfill walks
      that reference's whole log, with no bound. */
  lemma {:induction false} BackfillWalksWholeLog(refs: seq<Reference>, branchName: string, k: nat)
    requires k < |refs| && refs[k].name == branchName
    requires forall i :: 0 <= i < |refs| && i != k ==> refs[i].name != branchName
    ensures BackfillCommits(refs, branchName) == refs[k].log
  {
    if k == 0 {
      BackfillCommitsNoMatch(refs[1..], branchName);
    } else {
      BackfillWalksWholeLog(refs[1..], branchName, k - 1);
    }
  }

  /** What a pull reported: nothing new, or a new head. */
  datatype PullResult = AlreadyUpToDate | Pulled(newHead: string)

  class Tracker {
    const repoName: string
    const branchName: string
    /** The cursor: the last observed head. */
    var head: string
    /** Every write sent to the bucket so far, in order. */
    var published: seq<Publisher.Put>
    /** The commits whose records were published, in order. */
    ghost var processed: seq<Commit>

    /** Each write is the upload of the record of the matching processed commit. */
    ghost predicate Valid()
      reads this
    {
      published == Uploads(repoName, branchName, processed)
    }

    /** A tracker for one repository and branch, before the backfill. */
    constructor (repoName: string, branchName: string)
      ensures Valid()
      ensures this.repoName == repoName && this.branchName == branchName
      ensures head == "" && published == [] && processed == []
    {
      this.repoName := repoName;
      this.branchName := branchName;
      head := "";
      published := [];
      processed := [];
    }

    /** `ProcessCommit` with its closing `UploadToS3`: the record of `commit`
        is built and written under its key. */
    method Process(commit: Commit)
      requires Valid()
      modifies this
      ensures Valid()
      ensures head == old(head)
      ensures processed == old(processed) + [commit]
      ensures published == old(published) +
        [Publisher.Put(Publisher.ObjectKey(repoName, branchName, commit.hash),
                       Summarizer.Summary(repoName, branchName, commit))]
    {
      var entry := Summarizer.ProcessCommit(repoName, branchName, commit);
      published := published + [Publisher.Upload(entry)];
      processed := processed + [commit];
      UploadsAppend(repoName, branchName, old(processed), [commit]);
    }

    /** The inner walk of `Setup`: every commit of `log`, in order, is
        processed and published, with no stop condition. */
    method ProcessAll(log: seq<Commit>)
      requires Valid()
      modifies this
      ensures Valid()
      ensures head == old(head)
      ensures processed == old(processed) + log
    {
      for commitIdx := 0 to |log|
        invariant Valid()
        invariant head == old(head)
        invariant processed == old(processed) + log[..commitIdx]
      {
        Process(log[commitIdx]);
        assert log[..commitIdx + 1] == log[..commitIdx] + [log[commitIdx]];
      }
      assert log[..|log|] == log;
    }

    /** `Setup`'s walk over the references followed by `main` taking the
        resolved HEAD as the cursor: the whole log of each reference named
        `branchName` is processed and published, and no other commit. */
    method Backfill(refs: seq<Reference>, resolvedHead: string)
      requires Valid()
      modifies this
      ensures Valid()
      ensures head == resolvedHead
      ensures processed == old(processed) + BackfillCommits(refs, branchName)
      ensures published == old(published) + Uploads(repoName, branchName, BackfillCommits(refs, branchName))
    {
      for refIdx := 0 to |refs|
        invariant Valid()
        invariant processed + BackfillCommits(refs[refIdx..], branchName)
               == old(processed) + BackfillCommits(refs, branchName)
      {
        var ref := refs[refIdx];
        assert refs[refIdx..][1..] == refs[refIdx + 1..];
        if ref.name == branchName {
          ProcessAll(ref.log);
        }
      }
      assert refs[|refs|..] == [];
      head := resolvedHead;
      UploadsAppend(repoName, branchName, old(processed), BackfillCommits(refs, branchName));
    }

    /** One poll of `main`'s loop. On a new head, the log walked from it is
        processed up to, and not including, the first commit equal to the old
        head (a sticky flag, as in the Go callback), and the cursor moves to
        the new head. */
    method Poll(pull: PullResult, log: seq<Commit>)
      requires Valid()
      modifies this
      ensures Valid()
      ensures pull.AlreadyUpToDate? ==> head == old(head) && processed == old(processed) && published == old(published)
      ensures pull.Pulled? ==> head == pull.newHead && processed == old(processed) + NewCommits(log, old(head))
      ensures pull.Pulled? ==>
        published == old(published) + Uploads(repoName, branchName, NewCommits(log, old(head)))
    {
      if pull.Pulled? {
        ghost var newer := NewCommits(log, head);
        var hitOldHead := false;
        for commitIdx := 0 to |log|
          invariant Valid()
          invariant head == old(head)
          invariant !hitOldHead ==> commitIdx <= |newer|
          invariant !hitOldHead ==> processed == old(processed) + log[..commitIdx]
          invariant hitOldHead ==> processed == old(processed) + newer
        {
          var commit := log[commitIdx];
          if commit.hash == head {
            if !hitOldHead {
              assert log[..commitIdx] == newer;
            }
            hitOldHead := true;
          }
          if !hitOldHead {
            Process(commit);
            assert log[..commitIdx + 1] == log[..commitIdx] + [commit];
          }
        }
        if !hitOldHead {
          assert log[..|log|] == log == newer;
        }
        head := pull.newHead;
        UploadsAppend(repoName, branchName, old(processed), newer);
      }
    }
  }
}
