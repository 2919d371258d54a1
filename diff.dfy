/**
 * The `diff` command: a position-aligned comparison of the last committed version of
 * one staged file with its current content, line by line.
 */
module Diffing {
  import opened Wrappers
  import opened Paths
  import opened Text
  import opened Staging
  import opened History

  /** One reported line: `- line` or `+ line`. The printed text strips the line. */
  datatype Change = Removed(line: Line) | Added(line: Line)

  /** The pairs reported while walking both versions together, up to the shorter length. */
  function CommonChanges(committed: seq<Line>, current: seq<Line>): seq<Change> {
    if committed == [] || current == [] then []
    else (if committed[0] != current[0] then [Removed(committed[0]), Added(current[0])] else []) + CommonChanges(committed[1..], current[1..])
  }

  function AllAdded(lines: seq<Line>): seq<Change> {
    seq(|lines|, j requires 0 <= j < |lines| => Added(lines[j]))
  }

  function AllRemoved(lines: seq<Line>): seq<Change> {
    seq(|lines|, j requires 0 <= j < |lines| => Removed(lines[j]))
  }

  /**
   * The changes from the committed lines `committed` to the current lines `current`: the differing
   * pairs at the common positions, then the extra lines of the longer version.
   */
  function LineDiff(committed: seq<Line>, current: seq<Line>): seq<Change> {
    CommonChanges(committed, current) + Tail(committed, current)
  }

  /** The extra lines of the longer version: additions if the current one is longer, deletions if the committed one is. */
  function Tail(committed: seq<Line>, current: seq<Line>): seq<Change> {
    if |current| > |committed| then AllAdded(current[|committed|..])
    else if |committed| > |current| then AllRemoved(committed[|current|..])
    else []
  }

  // ------------------------------------------ an independent, per-position reading

  /** What one position contributes: a differing pair, a lone deletion, or a lone addition. */
  function AtPosition(committed: seq<Line>, current: seq<Line>, i: nat): seq<Change> {
    if i < |committed| && i < |current| then (if committed[i] != current[i] then [Removed(committed[i]), Added(current[i])] else [])
    else if i < |committed| then [Removed(committed[i])]
    else if i < |current| then [Added(current[i])]
    else []
  }

  /** The contributions of positions `i`, `i + 1`, ... up to the longer length, in order. */
  function PositionsFrom(committed: seq<Line>, current: seq<Line>, i: nat): seq<Change>
    decreases |committed| + |current| - i
  {
    if i >= |committed| && i >= |current| then []
    else AtPosition(committed, current, i) + PositionsFrom(committed, current, i + 1)
  }

  /** Past the end of `committed`, the positions contribute only additions. */
  lemma {:induction false} PositionsPastOld(committed: seq<Line>, current: seq<Line>, i: nat)
    requires |committed| <= i <= |current|
    ensures PositionsFrom(committed, current, i) == AllAdded(current[i..])
    decreases |current| - i
  {
    if i < |current| {
      PositionsPastOld(committed, current, i + 1);
      assert AllAdded(current[i..]) == [Added(current[i])] + AllAdded(current[i + 1..]);
    }
  }

  /** Past the end of `current`, the positions contribute only deletions. */
  lemma {:induction false} PositionsPastNew(committed: seq<Line>, current: seq<Line>, i: nat)
    requires |current| <= i <= |committed|
    ensures PositionsFrom(committed, current, i) == AllRemoved(committed[i..])
    decreases |committed| - i
  {
    if i < |committed| {
      PositionsPastNew(committed, current, i + 1);
      assert AllRemoved(committed[i..]) == [Removed(committed[i])] + AllRemoved(committed[i + 1..]);
    }
  }

  lemma {:induction false} CommonThenTail(committed: seq<Line>, current: seq<Line>, i: nat)
    requires i <= |committed| && i <= |current|
    ensures CommonChanges(committed[i..], current[i..]) + Tail(committed, current) == PositionsFrom(committed, current, i)
    decreases |committed| - i
  {
    if i == |committed| || i == |current| {
      assert committed[i..] == [] || current[i..] == [];
      if |current| >= |committed| { PositionsPastOld(committed, current, i); } else { PositionsPastNew(committed, current, i); }
    } else {
      CommonThenTail(committed, current, i + 1);
      assert committed[i..][1..] == committed[i + 1..] && current[i..][1..] == current[i + 1..];
    }
  }

  /**
   * The diff is exactly the position-by-position comparison: a `-`/`+` pair for every
   * common position whose lines differ, then one `+` or `-` for every position only the
   * longer version has, all in position order.
   */
  lemma LineDiffIsPositional(committed: seq<Line>, current: seq<Line>)
    ensures LineDiff(committed, current) == PositionsFrom(committed, current, 0)
  {
    CommonThenTail(committed, current, 0);
    assert committed[0..] == committed && current[0..] == current;
  }

  // ------------------------------------------------------------------ size and emptiness

  /** How many positions `j`, from `i` up to the shorter length, hold different lines. */
  function Mismatches(committed: seq<Line>, current: seq<Line>, i: nat): nat
    decreases |committed| - i
  {
    if i >= |committed| || i >= |current| then 0
    else (if committed[i] != current[i] then 1 else 0) + Mismatches(committed, current, i + 1)
  }

  lemma {:induction false} CommonChangesLength(committed: seq<Line>, current: seq<Line>, i: nat)
    requires i <= |committed| && i <= |current|
    ensures |CommonChanges(committed[i..], current[i..])| == 2 * Mismatches(committed, current, i)
    decreases |committed| - i
  {
    if i < |committed| && i < |current| {
      CommonChangesLength(committed, current, i + 1);
      assert committed[i..][1..] == committed[i + 1..] && current[i..][1..] == current[i + 1..];
    }
  }

  /** No mismatch from `i` on means the versions agree on every common position from `i`. */
  lemma {:induction false} NoMismatches(committed: seq<Line>, current: seq<Line>, i: nat)
    requires Mismatches(committed, current, i) == 0
    ensures forall j :: i <= j < |committed| && j < |current| ==> committed[j] == current[j]
    decreases |committed| - i
  {
    if i < |committed| && i < |current| {
      NoMismatches(committed, current, i + 1);
    }
  }

  /** The diff has two items per differing position plus one per extra line. */
  lemma DiffLength(committed: seq<Line>, current: seq<Line>)
    ensures |LineDiff(committed, current)| ==
      2 * Mismatches(committed, current, 0) + (if |current| > |committed| then |current| - |committed| else |committed| - |current|)
  {
    CommonChangesLength(committed, current, 0);
    assert committed[0..] == committed && current[0..] == current;
  }

  /** The diff is empty exactly when the two versions have the same lines. */
  lemma DiffEmptyIff(committed: seq<Line>, current: seq<Line>)
    ensures LineDiff(committed, current) == [] <==> committed == current
  {
    DiffLength(committed, current);
    if LineDiff(committed, current) == [] {
      NoMismatches(committed, current, 0);
    } else if committed == current {
      assert Mismatches(committed, current, 0) == 0 by { SameNoMismatches(committed, 0); }
    }
  }

  lemma {:induction false} SameNoMismatches(lines: seq<Line>, i: nat)
    ensures Mismatches(lines, lines, i) == 0
    decreases |lines| - i
  {
    if i < |lines| { SameNoMismatches(lines, i + 1); }
  }

  // ------------------------------------------------------------------ the command

  /** What `diff <file>` reports. */
  datatype DiffOutcome = NotStaged | MissingInWorkingTree | NoBaseline | Changes(changes: seq<Change>)

  /**
   * `diff f`: the file must be staged and present; the baseline is the latest log record
   * listing `f`, and the committed copy is looked up under the full name `f` in that
   * record's snapshot.
   */
  function DiffOf(index: seq<Entry>, working: Files, log: seq<LogEntry>, commits: map<CommitId, Files>, f: Path): (r: DiffOutcome)
    ensures r == NotStaged <==> !Staged(index, f)
    ensures r == MissingInWorkingTree <==> Staged(index, f) && f !in working
    ensures r.Changes? <==>
      Staged(index, f) && f in working && Baseline(log, f).Some? &&
      log[Baseline(log, f).value].id in commits && f in commits[log[Baseline(log, f).value].id]
    ensures r.Changes? ==>
      r.changes == LineDiff(ReadLines(commits[log[Baseline(log, f).value].id][f]), ReadLines(working[f]))
  {
    if !Staged(index, f) then NotStaged
    else if f !in working then MissingInWorkingTree
    else match Baseline(log, f)
      case None => NoBaseline
      case Some(k) =>
        var id := log[k].id;
        if id !in commits || f !in commits[id] then NoBaseline
        else Changes(LineDiff(ReadLines(commits[id][f]), ReadLines(working[f])))
  }

  /**
   * Because snapshots are keyed by basename and `diff` looks up the full name, a staged
   * file in a subdirectory never has a committed version to diff against.
   */
  lemma NestedFileHasNoBaseline(index: seq<Entry>, working: Files, log: seq<LogEntry>, commits: map<CommitId, Files>, f: Path)
    requires SnapshotKeysArePlain(commits)
    requires '/' in f
    ensures !DiffOf(index, working, log, commits, f).Changes?
  {
  }

  /** A file whose content equals its committed copy shows an empty diff. */
  lemma UnchangedFileHasEmptyDiff(index: seq<Entry>, working: Files, log: seq<LogEntry>, commits: map<CommitId, Files>, f: Path)
    requires DiffOf(index, working, log, commits, f).Changes?
    requires working[f] == commits[log[Baseline(log, f).value].id][f]
    ensures DiffOf(index, working, log, commits, f) == Changes([])
  {
    var c := working[f];
    DiffEmptyIff(ReadLines(c), ReadLines(c));
  }
}
