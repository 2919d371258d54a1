/**
 * The commit side of the repository: the log kept in `.vcs/log.json`, the snapshot each
 * commit copies into `.vcs/commits/<id>/`, and the searches over the log.
 */
module History {
  import opened Wrappers
  import opened Paths
  import opened Text
  import opened Staging

  type CommitId = string

  /** A directory of files: the working tree (by path) or a commit snapshot (by basename). */
  type Files = map<Path, Content>

  /** One record of the log. `files` lists the staged names in index order. */
  datatype LogEntry = LogEntry(id: CommitId, message: string, timestamp: string, files: seq<Path>)

  /** The basenames of a list of paths. */
  function Basenames(fs: seq<Path>): set<Path> {
    set f | f in fs :: Basename(f)
  }

  /** Entry `i` is the last one whose file has its basename. */
  predicate LastWithBasename(entries: seq<Entry>, i: nat)
    requires i < |entries|
  {
    forall j :: i < j < |entries| ==> Basename(entries[j].filename) != Basename(entries[i].filename)
  }

  /**
   * The snapshot that copying `entries` one after another into an empty directory leaves
   * (see TakeSnapshotKeys and TakeSnapshotValues).
   */
  function TakeSnapshot(entries: seq<Entry>, working: Files): Files
    requires forall j :: 0 <= j < |entries| ==> entries[j].filename in working
  {
    if entries == [] then map[]
    else
      var n := |entries| - 1;
      TakeSnapshot(entries[..n], working)[Basename(entries[n].filename) := working[entries[n].filename]]
  }

  /** Copying one more file extends the snapshot by that file under its basename. */
  lemma TakeSnapshotStep(entries: seq<Entry>, working: Files, i: nat)
    requires i < |entries|
    requires forall j :: 0 <= j <= i ==> entries[j].filename in working
    ensures TakeSnapshot(entries[..i + 1], working) ==
      TakeSnapshot(entries[..i], working)[Basename(entries[i].filename) := working[entries[i].filename]]
  {
    assert entries[..i + 1][..i] == entries[..i];
  }

  /** A snapshot holds exactly the basenames of the staged files. */
  lemma {:induction false} TakeSnapshotKeys(entries: seq<Entry>, working: Files)
    requires forall j :: 0 <= j < |entries| ==> entries[j].filename in working
    ensures TakeSnapshot(entries, working).Keys == Basenames(Filenames(entries))
  {
    if entries != [] {
      var n := |entries| - 1;
      TakeSnapshotKeys(entries[..n], working);
      assert Filenames(entries) == Filenames(entries[..n]) + [entries[n].filename];
    }
  }

  /**
   * Under each basename a snapshot holds the current content of the last staged file with
   * that basename: a later file overwrites an earlier one.
   */
  lemma {:induction false} TakeSnapshotValues(entries: seq<Entry>, working: Files, i: nat)
    requires forall j :: 0 <= j < |entries| ==> entries[j].filename in working
    requires i < |entries| && LastWithBasename(entries, i)
    ensures Basename(entries[i].filename) in TakeSnapshot(entries, working)
    ensures TakeSnapshot(entries, working)[Basename(entries[i].filename)] == working[entries[i].filename]
  {
    var n := |entries| - 1;
    var front := entries[..n];
    assert forall j :: 0 <= j < |front| ==> front[j] == entries[j];
    var rest := TakeSnapshot(front, working);
    assert TakeSnapshot(entries, working) == rest[Basename(entries[n].filename) := working[entries[n].filename]];
    if i < n {
      assert Basename(entries[n].filename) != Basename(entries[i].filename);
      assert LastWithBasename(front, i);
      TakeSnapshotValues(front, working, i);
    }
  }

  /** A snapshot lookup by a plain name that its last staging wrote returns that content. */
  lemma SnapshotRestoresPlainName(entries: seq<Entry>, working: Files, i: nat)
    requires forall j :: 0 <= j < |entries| ==> entries[j].filename in working
    requires i < |entries| && LastWithBasename(entries, i)
    requires '/' !in entries[i].filename
    ensures entries[i].filename in TakeSnapshot(entries, working)
    ensures TakeSnapshot(entries, working)[entries[i].filename] == working[entries[i].filename]
  {
    TakeSnapshotValues(entries, working, i);
  }

  /**
   * How many entries, from the front, name files present in the working tree: the
   * copies a commit completes before the first staged file that has disappeared.
   */
  function PresentPrefix(entries: seq<Entry>, working: Files): (k: nat)
    ensures k <= |entries|
    ensures forall j :: 0 <= j < k ==> entries[j].filename in working
    ensures k < |entries| ==> entries[k].filename !in working
  {
    if entries == [] || entries[0].filename !in working then 0
    else 1 + PresentPrefix(entries[1..], working)
  }

  /** Every snapshot key is a plain name, as basenames are. */
  predicate SnapshotKeysArePlain(commits: map<CommitId, Files>) {
    forall id, n :: id in commits && n in commits[id] ==> '/' !in n
  }

  /**
   * The log and the commit store agree: every record names a stored commit whose
   * snapshot holds exactly the basenames of the record's files, no record is empty,
   * and no id is used twice.
   */
  predicate LogMatchesCommits(log: seq<LogEntry>, commits: map<CommitId, Files>) {
    (forall k :: 0 <= k < |log| ==>
      log[k].files != [] && log[k].id in commits && commits[log[k].id].Keys == Basenames(log[k].files)) &&
    (forall i, j :: 0 <= i < j < |log| ==> log[i].id != log[j].id)
  }

  /** A snapshot's keys are plain names. */
  lemma SnapshotIsPlain(entries: seq<Entry>, working: Files)
    requires forall j :: 0 <= j < |entries| ==> entries[j].filename in working
    ensures forall n :: n in TakeSnapshot(entries, working) ==> '/' !in n
  {
    TakeSnapshotKeys(entries, working);
  }

  /** Storing a plain-named snapshot under an id no record uses keeps the store consistent. */
  lemma StoreSnapshot(log: seq<LogEntry>, commits: map<CommitId, Files>, id: CommitId, s: Files)
    requires LogMatchesCommits(log, commits) && SnapshotKeysArePlain(commits)
    requires forall k :: 0 <= k < |log| ==> log[k].id != id
    requires forall n :: n in s ==> '/' !in n
    ensures LogMatchesCommits(log, commits[id := s]) && SnapshotKeysArePlain(commits[id := s])
  {
  }

  /**
   * Appending a record for a stored snapshot that holds exactly its files' basenames,
   * under an id no earlier record uses, keeps the log and the store in agreement.
   */
  lemma AppendRecord(log: seq<LogEntry>, commits: map<CommitId, Files>, e: LogEntry)
    requires LogMatchesCommits(log, commits)
    requires e.files != [] && e.id in commits && commits[e.id].Keys == Basenames(e.files)
    requires forall k :: 0 <= k < |log| ==> log[k].id != e.id
    ensures LogMatchesCommits(log + [e], commits)
  {
  }

  /** Position in the log of the most recent record that lists `f`, if any. */
  function Baseline(log: seq<LogEntry>, f: Path): (k: Option<nat>)
    ensures k.Some? ==> k.value < |log| && f in log[k.value].files
    ensures k.Some? ==> forall j :: k.value < j < |log| ==> f !in log[j].files
    ensures k.None? ==> forall j :: 0 <= j < |log| ==> f !in log[j].files
  {
    if log == [] then None
    else if f in log[|log| - 1].files then Some(|log| - 1)
    else Baseline(log[..|log| - 1], f)
  }

  /** The log as `log` shows it: the latest record first. */
  function LatestFirst(log: seq<LogEntry>): (r: seq<LogEntry>)
    ensures |r| == |log|
    ensures forall k :: 0 <= k < |log| ==> r[k] == log[|log| - 1 - k]
  {
    if log == [] then [] else [log[|log| - 1]] + LatestFirst(log[..|log| - 1])
  }
}
