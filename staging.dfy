/**
 * The staging index: the ordered list of `{filename, hash}` entries kept in
 * `.vcs/index.json`, the `remove` filter over it, and the `status` report.
 */
module Staging {
  import opened Paths
  import opened Text

  type Digest = string

  /** One staged file: the name it was added under and the hash of its content then. */
  datatype Entry = Entry(filename: Path, hash: Digest)

  /** Some entry of the index carries the name `f`. */
  predicate Staged(index: seq<Entry>, f: Path) {
    exists e :: e in index && e.filename == f
  }

  /** No two entries share a name. */
  predicate UniqueFilenames(index: seq<Entry>) {
    forall i, j :: 0 <= i < j < |index| ==> index[i].filename != index[j].filename
  }

  /** The staged names, in index order. */
  function Filenames(index: seq<Entry>): seq<Path> {
    seq(|index|, i requires 0 <= i < |index| => index[i].filename)
  }

  // ---------------------------------------------------------------- remove

  /** The index with every entry named `f` left out, the others in their order. */
  function Without(index: seq<Entry>, f: Path): (r: seq<Entry>)
    ensures forall e :: e in r <==> e in index && e.filename != f
    ensures |r| <= |index|
  {
    if index == [] then []
    else if index[0].filename == f then Without(index[1..], f)
    else [index[0]] + Without(index[1..], f)
  }

  /**
   * The filter keeps the length exactly when nothing is named `f`, which is the test
   * `remove` uses to report "not staged"; in that case the index is untouched.
   */
  lemma {:induction false} WithoutKeepsLengthIff(index: seq<Entry>, f: Path)
    ensures |Without(index, f)| == |index| <==> !Staged(index, f)
    ensures !Staged(index, f) ==> Without(index, f) == index
  {
    if index != [] {
      WithoutKeepsLengthIff(index[1..], f);
      if index[0].filename == f {
        assert index[0] in index;
      } else {
        assert Staged(index[1..], f) ==> Staged(index, f) by {
          if Staged(index[1..], f) {
            var e :| e in index[1..] && e.filename == f;
            assert e in index;
          }
        }
        assert Staged(index, f) ==> Staged(index[1..], f) by {
          if Staged(index, f) {
            var e :| e in index && e.filename == f;
            assert e != index[0];
          }
        }
        assert index == [index[0]] + index[1..];
      }
    }
  }

  /** The filter distributes over concatenation: what survives keeps its relative order. */
  lemma {:induction false} WithoutAppend(a: seq<Entry>, b: seq<Entry>, f: Path)
    ensures Without(a + b, f) == Without(a, f) + Without(b, f)
  {
    if a != [] {
      assert (a + b)[0] == a[0];
      assert (a + b)[1..] == a[1..] + b;
      WithoutAppend(a[1..], b, f);
    } else {
      assert a + b == b;
    }
  }

  /** Filtering keeps the names unique, and removes exactly one entry when `f` is staged. */
  lemma {:induction false} WithoutUnique(index: seq<Entry>, f: Path)
    requires UniqueFilenames(index)
    ensures UniqueFilenames(Without(index, f))
    ensures Staged(index, f) ==> |Without(index, f)| == |index| - 1
  {
    if index != [] {
      var rest := index[1..];
      assert UniqueFilenames(rest) by {
        forall i, j | 0 <= i < j < |rest| ensures rest[i].filename != rest[j].filename {
          assert rest[i] == index[i + 1] && rest[j] == index[j + 1];
        }
      }
      WithoutUnique(rest, f);
      var r := Without(index, f);
      if index[0].filename != f {
        assert r == [index[0]] + Without(rest, f);
        forall j | 1 <= j < |r| ensures r[0].filename != r[j].filename {
          assert r[j] in Without(rest, f);
          var k :| 0 <= k < |rest| && rest[k] == r[j];
          assert rest[k] == index[k + 1];
        }
        assert Staged(index, f) ==> Staged(rest, f) by {
          if Staged(index, f) {
            var e :| e in index && e.filename == f;
            assert e != index[0];
          }
        }
      } else {
        WithoutKeepsLengthIff(rest, f);
      }
    }
  }

  // ---------------------------------------------------------------- status

  /** How a staged file compares with the working tree. */
  datatype FileState = Unchanged | Modified | Deleted

  /** One line of the `status` report. */
  datatype StatusLine = StatusLine(filename: Path, state: FileState)

  function Classify(e: Entry, working: map<Path, Content>, hash: Content -> Digest): FileState {
    if e.filename !in working then Deleted
    else if hash(working[e.filename]) != e.hash then Modified
    else Unchanged
  }

  /**
   * The `status` report: one line per staged entry, in index order, saying whether the
   * file is gone, hashes differently from when it was staged, or hashes the same.
   */
  function StatusOf(index: seq<Entry>, working: map<Path, Content>, hash: Content -> Digest): (r: seq<StatusLine>)
    ensures |r| == |index|
    ensures forall i :: 0 <= i < |r| ==> r[i].filename == index[i].filename
    ensures forall i :: 0 <= i < |r| ==>
      (r[i].state == Deleted <==> index[i].filename !in working)
    ensures forall i :: 0 <= i < |r| ==>
      (r[i].state == Modified <==> index[i].filename in working && hash(working[index[i].filename]) != index[i].hash)
    ensures forall i :: 0 <= i < |r| ==>
      (r[i].state == Unchanged <==> index[i].filename in working && hash(working[index[i].filename]) == index[i].hash)
  {
    if index == [] then []
    else [StatusLine(index[0].filename, Classify(index[0], working, hash))] + StatusOf(index[1..], working, hash)
  }
}
