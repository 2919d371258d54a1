# Mini-VCS snapshot store, modelled in Dafny

Mini-VCS (`vcs.py`) is a single-file snapshot store driven from the command line. Its
state lives in a `.vcs/` directory beside the working files:

- `index.json` is the staging index. It is an ordered list of `{filename, hash}` entries.
- `log.json` is the commit log. It is an ordered list of `{id, message, timestamp, files}` records.
- `commits/<id>/` holds one snapshot per commit. In it each staged file is copied under its basename.

This project models that state as four values: the working tree (path → content), the
index (`seq<Entry>`), the log (`seq<LogEntry>`) and the commit store
(id → (name → content)). They are the fields of the class `Repository.Repo`, together with
an `initialized` flag that says whether `.vcs/` exists. The commands that change the state
are methods of the class: `init`, `add`, `commit`, `remove` and `checkout`. The method
`Repo.Write` is not a command: it stands for a user editing a working file outside the
tool, so that sessions can change the working tree between commands. The pure parts are
functions, proved against independent readings:

- the `remove` filter;
- the `status` classification;
- the positional line `diff`;
- the baseline search over the log;
- the latest-first order of `log`.

The modules follow the program's structure:

- `Paths`: `os.path.basename` on POSIX paths.
- `Text`: `readlines()` division of content into lines, and its inverse.
- `Staging`: index entries, the `remove` filter, the `status` report.
- `History`: log records, snapshots, `PresentPrefix` for a commit that stops at a vanished file, the baseline search, the latest-first order.
- `Diffing`: the positional line diff and the `diff` command.
- `Repository`: the repository class and its commands.
- `Scenarios`: short sessions of commands whose outcomes follow from the contracts alone.

The SHA-256 hash is the class constant `hash`, which may be any function from content to
digest, so every property holds for every hash. The commit id and the timestamp
(`uuid.uuid4()` and `datetime.now()` in the source) are parameters of `Commit`.

Points where the model keeps the code's behaviour on purpose:

- A commit stores each file under its basename (vcs.py:78). A later staged file with the same basename overwrites an earlier one (`History.TakeSnapshotValues`).
- `diff` and `checkout` look a file up under its full name (vcs.py:185, vcs.py:208). In the model, names are plain strings and snapshot keys never contain `/`. So a staged name containing `/` never has a committed version to diff against (`Diffing.NestedFileHasNoBaseline`), and checking one out never restores it. In the program this holds for a name whose directory part is a real subdirectory such as `sub/a.txt`. It does not hold for a name whose directory part is `.`, such as `./a.txt` (see "## Left out").
- A commit id that already names a snapshot makes `os.makedirs` raise (vcs.py:74). The model returns `IdTaken` and changes nothing; it does not forbid the call.
- A staged file that vanished before `commit` makes `shutil.copy2` raise part-way through (vcs.py:79). The model returns `SourceMissing`. The files already copied stay in the new snapshot, and the log and the index are untouched.
- Without `.vcs/`, `add`, `commit`, `status`, `remove` and `diff` raise when they open `index.json`. The model reports `NoRepository` and changes nothing. `add` first checks that the file exists (vcs.py:39), so a missing file is reported first.

The repository's design description covers more than the code does, and the model follows
the code:

- It describes branches, HEAD, merge with conflict files, directory staging and re-staging with an updated digest. None of these exist in `vcs.py`. In the code, `add` of an already staged name is a no-op, whatever its content.
- It describes `remove .` as clearing the whole index. The code only filters out the entry named `.`.
- It takes the `diff` baseline from the current commit. The code takes the most recent log record that lists the file.

## Model

| member | source | states |
|---|---|---|
| `Paths.Basename` | vcs.py:78 | The basename holds no `/`, and a path without `/` is its own basename. |
| `Paths.BasenameSuffix` | vcs.py:78 | The basename is a suffix of the path that is either all of it or follows a `/`. |
| `Paths.BasenameIsTextAfterLastSlash` | vcs.py:78 | Any `/`-free suffix that starts the path or follows a `/` is the basename. |
| `Text.ReadLines` | vcs.py:175-176 | Lines as `readlines()` gives them: none only for empty content, each non-empty, a newline only at a line's end, and every line but the last ends in one. |
| `Text.JoinReadLines` | vcs.py:175-176 | Joining the lines gives back the content exactly. |
| `Text.ReadLinesJoin` | vcs.py:189-190 | Lines of the shape `readlines()` yields are read back unchanged from their join. |
| `Staging.Without` | vcs.py:152 | The filtered index holds exactly the entries not named `f`, and is no longer than the index. |
| `Staging.WithoutKeepsLengthIff` | vcs.py:152-159 | The length is unchanged exactly when no entry is named `f`, and then the index is unchanged. |
| `Staging.WithoutAppend` | vcs.py:152 | The filter distributes over concatenation, so the surviving entries keep their order. |
| `Staging.WithoutUnique` | vcs.py:152-158 | Filtering keeps names unique, and removes exactly one entry when `f` is staged. |
| `Staging.StatusOf` | vcs.py:133-146 | One line per entry, in index order. Each is Deleted iff the file is absent, Modified iff its hash differs from the staged one, and Unchanged iff it is equal. |
| `History.TakeSnapshotKeys` | vcs.py:76-79 | A commit snapshot holds exactly the basenames of the staged files. |
| `History.TakeSnapshotValues` | vcs.py:76-79 | Under each basename the snapshot holds the content of the last staged file with that basename. |
| `History.SnapshotRestoresPlainName` | vcs.py:76-79 | A staged file with a plain name, not shadowed by a later one, is found in the snapshot under its full name with its committed content. |
| `History.PresentPrefix` | vcs.py:76-79 | The number of copies a commit completes: every file before that point exists, and the file at that point is missing. |
| `History.SnapshotIsPlain` | vcs.py:78 | No snapshot key contains `/`. |
| `History.StoreSnapshot` | vcs.py:73-74 | Storing a plain-named snapshot under an unused id keeps the log and the store in agreement. |
| `History.AppendRecord` | vcs.py:86-96 | Appending a record for a stored snapshot of its files, under a fresh id, keeps the log and the store in agreement. |
| `History.Baseline` | vcs.py:179-183 | The result is the last log position whose record lists `f`, or none when no record does. |
| `History.LatestFirst` | vcs.py:116 | Position `k` of the listing is the record `k` places from the end of the log. |
| `Diffing.LineDiffIsPositional` | vcs.py:194-204 | The diff is the position-by-position comparison. Each differing common position gives `Removed(old)` then `Added(new)`. Past the shorter length, each position gives one addition or deletion. |
| `Diffing.DiffLength` | vcs.py:194-204 | The diff length is twice the number of differing positions plus the length difference. |
| `Diffing.DiffEmptyIff` | vcs.py:194-204 | The diff is empty exactly when the two line sequences are equal. |
| `Diffing.DiffOf` | vcs.py:161-190 | NotStaged iff no entry is named `f`. Missing iff staged but absent. Changes iff a baseline record exists whose snapshot holds the full name `f`, and then they are the line diff of the two versions. |
| `Diffing.NestedFileHasNoBaseline` | vcs.py:185 | For the model's string-keyed paths, a name containing `/` never produces changes, because snapshots are keyed by basename. In the program this is the case of a name in a real subdirectory. |
| `Diffing.UnchangedFileHasEmptyDiff` | vcs.py:189-197 | A file equal to its committed copy shows no changes. |
| `Repository.Repo.Init` | vcs.py:16-29 | Creates an empty index, log and store unless a repository exists. In that case nothing changes. |
| `Repository.Repo.Add` | vcs.py:38-62 | Reports a missing file or an already staged name and leaves the index alone. Otherwise it appends one entry `{f, hash(content)}` at the end. Names stay unique. Without a repository, once the file is found, it reports NoRepository and changes nothing. |
| `Repository.Repo.Commit` | vcs.py:64-102 | See the list below the table. |
| `Repository.Repo.CopyStaged` | vcs.py:72-79 | Copies the staged files in index order into snapshot `id` and stops at the first missing one. The new snapshot is the one those copies build. |
| `Repository.Repo.Remove` | vcs.py:148-159 | Unstaged iff some entry is named `f`, and then the index is the filter. Otherwise it reports not staged and the index is unchanged. Without a repository it reports NoRepository and changes nothing. |
| `Repository.Repo.Checkout` | vcs.py:206-215 | Restores iff snapshot `id` holds the name `f`. Then `working[f]` becomes the stored content and nothing else changes; otherwise nothing changes. |
| `Repository.Repo.Status` | vcs.py:124-146 | Changes nothing and reports the classification of every staged entry. |
| `Repository.Repo.Diff` | vcs.py:161-204 | Changes nothing and reports the diff outcome for `f`. |
| `Repository.Repo.ShowLog` | vcs.py:104-123 | Reports no history without a repository and no commits for an empty log. Otherwise it lists every record, the latest first. |
| `Scenarios.CommitEditCheckoutRestores` | vcs.py:206-215 | In any repository, take a staged file with a plain name that no later staged file shadows. Commit, edit the file, and check it out from that commit: the working tree is exactly as it was at commit time. The index ends empty and the log gains the one record with the new id. |

`Repository.Repo.Commit` states:

- On an empty index nothing changes.
- An id already in use changes nothing.
- A vanished file leaves a partial snapshot. The log and the index stay as they were.
- Otherwise the log gains exactly one record, appended last, with the fresh id and the index filenames in index order.
- Earlier records and snapshots are unchanged.
- The new snapshot maps each staged basename to that file's content.
- The index becomes empty.

The `Scenarios` module proves the outcome of short sessions from these contracts alone.
`CommitEditCheckoutRestores` is the general commit-then-checkout round trip. The others
are concrete sessions:

- Staging a file twice leaves one entry.
- A committed file edited and then checked out gets its committed content back.
- An appended line shows as a single `Added` change.
- An edit after staging shows as `Modified`.

## Left out

- `main` (vcs.py:217-256): argument parsing and dispatch, command-line glue.
- All printed text. The commands return outcome values instead. The `strip()` applied to printed diff lines (vcs.py:196-204) only affects output, so `Change` keeps the raw line.
- JSON reading and writing of `index.json` and `log.json`, and the file-system calls (`open`, `os.path.exists`, `os.makedirs`, `shutil.copy2`). The model uses maps and sequences in their place. The file metadata that `copy2` preserves is not modelled.
- `hashlib.sha256`, `uuid.uuid4` and `datetime.now`: foreign or nondeterministic calls. They become an arbitrary hash function and parameters of `Commit`. `str(uuid)[:8]` truncation is not modelled; any id is accepted.
- Diffing.NestedFileHasNoBaseline: holds only of the model's string-keyed paths. A name whose directory part is `.`, such as `./a.txt`, does get a diff in the program (see the next line).
- The repository's own files: `.vcs/` lies inside the working directory, but `working` holds only the user's files, apart from the index, log and commit store. Commands that reach the repository's own files through a path are not modelled. For example, `add .vcs/index.json` hashes the index before its own append rewrites it (vcs.py:52-60), so a later `status` reports it modified. `checkout .. index.json` builds `.vcs/commits/../index.json` (vcs.py:207-208), which exists, and copies the staging index into `./index.json` (vcs.py:214). The model would report the first file unchanged and the checkout as not restored.
- Path normalisation: paths are compared as strings, so `./a.txt` and `a.txt` are different files to the model. The program resolves them through the file system. A name with `.` segments such as `./a.txt` is staged as written, committed under its basename `a.txt`, and then found again by `diff` and `checkout`, since `commits/<id>/./a.txt` exists. So the program diffs and restores such a file, while the model reports no baseline and restores nothing. Also not modelled: `os.path.join` with an absolute or `..`-containing name, and names that denote directories.
- `Text.ReadLines`: splits on `\n` only. Python's universal-newline translation of `\r` and `\r\n` in text mode, and text decoding, are not modelled.
- Process aborts: an exception ends the process, which the model shows as an outcome with the state at that moment.
- setup.py: packaging metadata, no logic.
- Branches, HEAD, merge and conflict files, directory staging: they do not exist in `vcs.py`.
