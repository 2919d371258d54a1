/** Sessions of commands, with the results the contracts imply. */
module Scenarios {
  import opened Wrappers
  import opened Paths
  import opened Text
  import opened Staging
  import opened History
  import opened Diffing
  import opened Repository

  /** The hash used in these sessions: content stands for its own digest. */
  function Identity(c: Content): Digest { c }

  lemma SnapshotOfOneFile(f: Path, h: Digest, working: Files)
    requires f in working && '/' !in f
    ensures TakeSnapshot([Entry(f, h)], working) == map[f := working[f]]
  {
    assert [Entry(f, h)][..0] == [];
  }

  lemma LinesOfSample()
    ensures ReadLines("a\n") == ["a\n"]
    ensures ReadLines("a\nb\n") == ["a\n", "b\n"]
    ensures LineDiff(["a\n"], ["a\n", "b\n"]) == [Added("b\n")]
  {
    assert FirstLineLength("a\n") == 2 by { assert FirstLineLength("\n") == 1; }
    assert "a\n"[..2] == "a\n" && "a\n"[2..] == [];
    assert "a\nb\n"[..2] == "a\n" && "a\nb\n"[2..] == "b\n";
    assert FirstLineLength("a\nb\n") == 2 by { assert "a\nb\n"[1..] == "\nb\n"; }
    assert FirstLineLength("b\n") == 2 by { assert FirstLineLength("\n") == 1; }
    assert "b\n"[..2] == "b\n" && "b\n"[2..] == [];
    assert ["a\n", "b\n"][|["a\n"]|..] == ["b\n"];
  }

  /** Staging a file twice leaves one entry. */
  method StageTwice() {
    var f, v := "a.txt", "a\n";
    var r := new Repo(map[f := v], Identity);
    var created := r.Init();
    var added := r.Add(f);
    assert added == NewlyStaged && r.index == [Entry(f, v)];
    added := r.Add(f);
    assert added == AlreadyStaged && r.index == [Entry(f, v)];
  }

  /**
   * In any repository, a staged file with a plain name that no later staged file shadows
   * is committed, then edited, then checked out from that commit: the working tree is
   * back where it was at commit time.
   */
  method CommitEditCheckoutRestores(r: Repo, message: string, id: CommitId, timestamp: string, i: nat, edit: Content)
    requires r.Valid() && r.initialized && id !in r.commits
    requires forall j :: 0 <= j < |r.index| ==> r.index[j].filename in r.working
    requires i < |r.index| && LastWithBasename(r.index, i) && '/' !in r.index[i].filename
    modifies r
    ensures r.Valid()
    ensures r.working == old(r.working)
    ensures r.index == [] && |r.log| == |old(r.log)| + 1 && r.log[|r.log| - 1].id == id
  {
    ghost var staged := r.index;
    var f := r.index[i].filename;
    var committed := r.Commit(message, id, timestamp);
    assert committed == Committed;
    SnapshotRestoresPlainName(staged, r.working, i);
    r.Write(f, edit);
    var restored := r.Checkout(id, f);
    assert restored;
  }

  /** A committed file is restored, byte for byte, by checking it out after an edit. */
  method CommitEditCheckout() {
    var r := CommittedOnce();
    r.Write("a.txt", "a\nb\n");
    var s := r.Status();
    assert s == Shown([]);
    var restored := r.Checkout("c1", "a.txt");
    assert restored && r.working == map["a.txt" := "a\n"];
  }

  /** A fresh repository holding `a.txt` = "a\n", staged. */
  method StagedOnce() returns (r: Repo)
    ensures fresh(r) && r.Valid() && r.initialized
    ensures r.hash == Identity
    ensures r.working == map["a.txt" := "a\n"]
    ensures r.index == [Entry("a.txt", "a\n")]
    ensures r.log == [] && r.commits == map[]
  {
    r := new Repo(map["a.txt" := "a\n"], Identity);
    var created := r.Init();
    var added := r.Add("a.txt");
  }

  /** The same repository after committing `a.txt` under id c1. */
  method CommittedOnce() returns (r: Repo)
    ensures fresh(r) && r.Valid() && r.initialized
    ensures r.hash == Identity
    ensures r.working == map["a.txt" := "a\n"]
    ensures r.index == []
    ensures r.log == [LogEntry("c1", "first", "2024-01-01 10:00:00", ["a.txt"])]
    ensures r.commits == map["c1" := map["a.txt" := "a\n"]]
  {
    r := StagedOnce();
    assert PresentPrefix(r.index, r.working) == 1 by {
      assert r.index[1..] == [];
    }
    SnapshotOfOneFile("a.txt", "a\n", r.working);
    assert Filenames(r.index) == ["a.txt"];
    var committed := r.Commit("first", "c1", "2024-01-01 10:00:00");
    assert committed == Committed;
  }

  /** The same repository after `a.txt` was edited to "a\nb\n" and staged again. */
  method CommittedThenRestaged() returns (r: Repo)
    ensures fresh(r) && r.Valid() && r.initialized
    ensures r.hash == Identity
    ensures r.working == map["a.txt" := "a\nb\n"]
    ensures r.index == [Entry("a.txt", "a\nb\n")]
    ensures r.log == [LogEntry("c1", "first", "2024-01-01 10:00:00", ["a.txt"])]
    ensures r.commits == map["c1" := map["a.txt" := "a\n"]]
  {
    r := CommittedOnce();
    r.Write("a.txt", "a\nb\n");
    var added := r.Add("a.txt");
    assert !Staged([], "a.txt");
  }

  /** An appended line shows as one addition. */
  method EditDiff() {
    var r := CommittedThenRestaged();
    LinesOfSample();
    var d := r.Diff("a.txt");
    assert d == Shown(Changes([Added("b\n")]));
  }

  /** An edit after staging shows as modified. */
  method EditStatus() {
    var r := CommittedThenRestaged();
    r.Write("a.txt", "a\n");
    var s := r.Status();
    assert Classify(r.index[0], r.working, r.hash) == Modified;
    assert r.index[1..] == [];
    assert StatusOf(r.index, r.working, r.hash) == [StatusLine("a.txt", Modified)];
    assert s == Shown([StatusLine("a.txt", Modified)]);
  }
}
