/**
 * The repository as the commands see it: the working tree, the staging index, the log
 * and the commit store, with the state-changing commands as methods.
 */
module Repository {
  import opened Wrappers
  import opened Paths
  import opened Text
  import opened Staging
  import opened History
  import opened Diffing

  datatype AddOutcome = FileNotFound | NoRepository | AlreadyStaged | NewlyStaged
  datatype CommitOutcome = NoRepository | NothingToCommit | IdTaken | SourceMissing(filename: Path) | Committed
  datatype RemoveOutcome = NoRepository | WasNotStaged | Unstaged

  /** The result of a command that only reads: it needs an initialised repository. */
  datatype Report<T> = NoRepository | Shown(value: T)

  /** What `log` shows. */
  datatype LogView = NoHistory | NoCommits | Listing(entries: seq<LogEntry>)

  class Repo {
    /** Whether `.vcs/` exists. */
    var initialized: bool
    /** The working tree: each file's path and content. */
    var working: Files
    /** `.vcs/index.json`. */
    var index: seq<Entry>
    /** `.vcs/log.json`, oldest record first. */
    var log: seq<LogEntry>
    /** `.vcs/commits/`: each commit id with its snapshot, keyed by basename. */
    var commits: map<CommitId, Files>
    /** The content hash (SHA-256 in the hexadecimal form); any function will do. */
    const hash: Content -> Digest

    ghost predicate Valid()
      reads this
    {
      (!initialized ==> index == [] && log == [] && commits == map[]) &&
      UniqueFilenames(index) &&
      LogMatchesCommits(log, commits) &&
      SnapshotKeysArePlain(commits)
    }

    /** A directory holding `working` and no repository yet. */
    constructor (working: Files, hash: Content -> Digest)
      ensures Valid() && !initialized
      ensures this.working == working && this.hash == hash
    {
      this.initialized := false;
      this.working := working;
      this.index := [];
      this.log := [];
      this.commits := map[];
      this.hash := hash;
    }

    /** `init`: creates an empty index, log and commit store unless a repository exists. */
    method Init() returns (created: bool)
      requires Valid()
      modifies this`initialized
      ensures Valid() && initialized
      ensures created == !old(initialized)
      ensures index == old(index) && log == old(log) && commits == old(commits)
      ensures created ==> index == [] && log == [] && commits == map[]
    {
      created := !initialized;
      initialized := true;
    }

    /**
     * `add f`: a missing file is reported, a name already staged is left alone, and
     * otherwise one entry with the current hash is appended.
     */
    method Add(f: Path) returns (o: AddOutcome)
      requires Valid()
      modifies this`index
      ensures Valid()
      ensures o == (if f !in working then FileNotFound
                    else if !initialized then AddOutcome.NoRepository
                    else if Staged(old(index), f) then AlreadyStaged
                    else NewlyStaged)
      ensures index == (if o == NewlyStaged then old(index) + [Entry(f, hash(working[f]))] else old(index))
    {
      if f !in working {
        return FileNotFound;
      }
      if !initialized {
        return AddOutcome.NoRepository;
      }
      var i := 0;
      while i < |index|
        invariant 0 <= i <= |index|
        invariant forall j :: 0 <= j < i ==> index[j].filename != f
      {
        if index[i].filename == f {
          assert index[i] in index;
          return AlreadyStaged;
        }
        i := i + 1;
      }
      assert !Staged(index, f);
      index := index + [Entry(f, hash(working[f]))];
      o := NewlyStaged;
    }

    /**
     * `commit message`: with nothing staged nothing happens. Otherwise a new snapshot
     * directory `id` is filled with the staged files, one by one, under their basenames;
     * then the log gains one record and the index is cleared. A staged file that has
     * disappeared stops the copying: the partial snapshot stays and nothing else changes.
     */
    method Commit(message: string, id: CommitId, timestamp: string) returns (o: CommitOutcome)
      requires Valid()
      modifies this`index, this`log, this`commits
      ensures Valid()
      ensures o == (if !initialized then CommitOutcome.NoRepository
                    else if old(index) == [] then NothingToCommit
                    else if id in old(commits) then IdTaken
                    else if PresentPrefix(old(index), working) < |old(index)| then
                      SourceMissing(old(index)[PresentPrefix(old(index), working)].filename)
                    else Committed)
      ensures o.NoRepository? || o.NothingToCommit? || o.IdTaken? ==>
        index == old(index) && log == old(log) && commits == old(commits)
      ensures o.SourceMissing? ==>
        index == old(index) && log == old(log) &&
        commits == old(commits)[id := TakeSnapshot(old(index)[..PresentPrefix(old(index), working)], working)]
      ensures o == Committed ==>
        index == [] &&
        log == old(log) + [LogEntry(id, message, timestamp, Filenames(old(index)))] &&
        commits == old(commits)[id := TakeSnapshot(old(index), working)]
    {
      if !initialized {
        return CommitOutcome.NoRepository;
      }
      if index == [] {
        return NothingToCommit;
      }
      if id in commits {
        return IdTaken;
      }
      assert forall k :: 0 <= k < |log| ==> log[k].id != id;
      var copied := CopyStaged(id);
      if copied < |index| {
        return SourceMissing(index[copied].filename);
      }
      assert index[..copied] == index;
      TakeSnapshotKeys(index, working);
      var record := LogEntry(id, message, timestamp, Filenames(index));
      AppendRecord(log, commits, record);
      log := log + [record];
      index := [];
      o := Committed;
    }

    /**
     * The copying step of `commit`: creates the snapshot directory `id` and copies the
     * staged files into it in index order, stopping at the first one that is missing.
     */
    method CopyStaged(id: CommitId) returns (copied: nat)
      requires Valid() && initialized && id !in commits
      requires forall k :: 0 <= k < |log| ==> log[k].id != id
      modifies this`commits
      ensures Valid()
      ensures copied == PresentPrefix(index, working)
      ensures commits == old(commits)[id := TakeSnapshot(index[..copied], working)]
    {
      var entries, tree := index, working;
      var snapshot: Files := map[];
      copied := 0;
      while copied < |entries|
        invariant commits == old(commits)
        invariant copied <= PresentPrefix(entries, tree)
        invariant snapshot == TakeSnapshot(entries[..copied], tree)
      {
        var src := entries[copied].filename;
        if src !in tree {
          break;
        }
        TakeSnapshotStep(entries, tree, copied);
        snapshot := snapshot[Basename(src) := tree[src]];
        copied := copied + 1;
      }
      SnapshotIsPlain(entries[..copied], tree);
      StoreSnapshot(log, commits, id, snapshot);
      commits := commits[id := snapshot];
    }

    /**
     * `remove f`: every entry named `f` leaves the index; when none does, the index is
     * left as it was and "not staged" is reported.
     */
    method Remove(f: Path) returns (o: RemoveOutcome)
      requires Valid()
      modifies this`index
      ensures Valid()
      ensures o == (if !initialized then RemoveOutcome.NoRepository
                    else if Staged(old(index), f) then Unstaged
                    else WasNotStaged)
      ensures index == (if o == Unstaged then Without(old(index), f) else old(index))
    {
      if !initialized {
        return RemoveOutcome.NoRepository;
      }
      var remaining := Without(index, f);
      WithoutKeepsLengthIff(index, f);
      WithoutUnique(index, f);
      if |remaining| == |index| {
        o := WasNotStaged;
      } else {
        index := remaining;
        o := Unstaged;
      }
    }

    /**
     * `checkout id f`: when the snapshot `id` holds the name `f`, the working file `f`
     * gets that content; otherwise nothing changes.
     */
    method Checkout(id: CommitId, f: Path) returns (restored: bool)
      requires Valid()
      modifies this`working
      ensures Valid()
      ensures restored == (id in commits && f in commits[id])
      ensures working == (if restored then old(working)[f := commits[id][f]] else old(working))
    {
      restored := id in commits && f in commits[id];
      if restored {
        working := working[f := commits[id][f]];
      }
    }

    /** A user edit outside the tool: file `f` now holds `c`. */
    method Write(f: Path, c: Content)
      requires Valid()
      modifies this`working
      ensures Valid() && working == old(working)[f := c]
    {
      working := working[f := c];
    }

    /** `status`: one classification per staged entry; nothing changes. */
    method Status() returns (o: Report<seq<StatusLine>>)
      requires Valid()
      ensures o == (if initialized then Shown(StatusOf(index, working, hash)) else Report.NoRepository)
    {
      if !initialized {
        return Report.NoRepository;
      }
      o := Shown(StatusOf(index, working, hash));
    }

    /** `diff f`: nothing changes. */
    method Diff(f: Path) returns (o: Report<DiffOutcome>)
      requires Valid()
      ensures o == (if initialized then Shown(DiffOf(index, working, log, commits, f)) else Report.NoRepository)
    {
      if !initialized {
        return Report.NoRepository;
      }
      o := Shown(DiffOf(index, working, log, commits, f));
    }

    /** `log`: the records, the latest first. */
    method ShowLog() returns (v: LogView)
      requires Valid()
      ensures !initialized <==> v == NoHistory
      ensures initialized && log == [] <==> v == NoCommits
      ensures v.Listing? ==> |v.entries| == |log| && v.entries[0] == log[|log| - 1]
      ensures v.Listing? ==> forall k :: 0 <= k < |log| ==> v.entries[k] == log[|log| - 1 - k]
    {
      if !initialized {
        return NoHistory;
      }
      if log == [] {
        return NoCommits;
      }
      v := Listing(LatestFirst(log));
    }
  }
}
