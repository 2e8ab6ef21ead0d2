# Latest patch release per minor line

This project models the version-selection core of a small dependency-report
tool. For each dependency, the tool fetches the release tags of a repository.
It drops a leading `v` from each tag and parses the tags as semantic versions.
It then calls `LatestVersions(releases, minVersion)`. That routine sorts the
release list in place into descending order, using the `sortSemVer`
comparator. Then it makes one pass over the sorted list. The pass keeps the
last emitted `(major, minor)` pair, which starts at the sentinel `(-1, -1)`. A
version is appended when it is not below `minVersion` and its pair differs
from the last one emitted. The result is the highest version of every minor
line at or above the minimum, newest first.

The Dafny project has three modules:

- `SemVer` (`semver.dfy`): a `Version` is a triple of naturals, ordered
  lexicographically by `LessThan`. The file also holds the `Less` comparator
  and the tag clean-up `TrimTag`. A small `Wrappers` module beside it holds
  `Option`.
- `SortSemVer` (`sort_semver.dfy`): the in-place sort of the release array.
  `Swap` is the comparator type's `Swap`. `SortDescending` produces a
  descending permutation of the array.
- `VersionSelection` (`latest_versions.dfy`): `Select` is the value the pass
  computes over a list, read left to right. The lemmas about it compare it
  with an independent description. That description, `IsLatestOfLine`, says
  the version is an input, is not below the minimum, and no input of its
  minor line is above it. The method `LatestVersions` sorts the array and runs
  the pass as a loop. The loop keeps the `-1` sentinel as in the source, and
  the method is proved against `Select`.

## Model

| member | source | states |
|---|---|---|
| `SemVer.LessThan` | main.go:25 | the version order `Version.LessThan` as the comparator calls it: between different minor lines the line decides (by major, then minor); within one line the patch decides; a version is never below itself |
| `SemVer.AtLeast` | main.go:39 | the test `!v.LessThan(*minVersion)` holds exactly when the version equals the minimum or is above it |
| `SemVer.LessThanIsStrictTotalOrder` | main.go:24-26 | the version order the comparator is built on is irreflexive, asymmetric, transitive and total |
| `SemVer.Less` | main.go:24-26 | `Less(s, i, j)` holds exactly when `s[i]` equals `s[j]` or is above it, so it is ">=" and holds when `i == j` |
| `SemVer.TrimTag` | main.go:90-93 | an empty tag is the failing case (None); otherwise the result is a suffix of the tag at most one character shorter, and it is shorter exactly when the tag starts with `v` |
| `SemVer.TrimTagPrefixed` | main.go:91-93 | trimming `"v" + s` gives back `s` for every string `s` |
| `SemVer.TrimTagRemovesOne` | main.go:91-93 | only one `v` is removed: a tag starting `vv` keeps its second `v` |
| `SortSemVer.DescendingByComparator` | main.go:24-26 | a list is descending exactly when `Less(s, i, j)` holds for every pair of positions `i < j` |
| `SortSemVer.Swap` | main.go:21-23 | exchanges the two elements in place, changes nothing else, and keeps the multiset of elements |
| `SortSemVer.IndexOfMax` | main.go:35 | returns a position in `a[lo..]` whose element is not below any element of `a[lo..]` |
| `SortSemVer.SortDescending` | main.go:35 | afterwards the array is in descending order and holds the same multiset of versions as before |
| `VersionSelection.Select` | main.go:36-44 | the pass emits at most as many versions as it reads, and every emitted version is an input that is not below the minimum |
| `VersionSelection.SelectStrictlyDescending` | main.go:29 | on a descending list the result is strictly descending |
| `VersionSelection.SelectDistinctLines` | main.go:36-43 | on a descending list no two results share a `(major, minor)` pair |
| `VersionSelection.SelectComplete` | main.go:38-45 | every minor line with an input at or above the minimum has a version in the result |
| `VersionSelection.SelectLatestOfLine` | main.go:35-42 | on a descending list each result is the highest input of its minor line |
| `VersionSelection.SelectMembers` | main.go:29-45 | on a descending list a version is in the result exactly when it is the highest input of its line and not below the minimum |
| `VersionSelection.SelectHead` | main.go:29 | the result is empty exactly when every input is below the minimum; otherwise its first element is an input and is the largest of all inputs |
| `VersionSelection.SelectIsUnique` | main.go:29-45 | the result is the only strictly descending list of the versions described by `IsLatestOfLine` |
| `VersionSelection.SelectOrderIndependent` | main.go:35-44 | two descending lists with the same multiset give the same result, so neither the caller's order nor the sort's order among equal versions matters |
| `VersionSelection.ScenarioTwoLines` | main.go:36-44 | for 2.1.0, 2.0.5, 2.0.1, 1.9.0 and minimum 2.0.0, the result is 2.1.0, 2.0.5 |
| `VersionSelection.ScenarioFloor` | main.go:39 | the minimum is inclusive: 1.0.0 is kept for minimum 1.0.0 and dropped for minimum 2.0.0 |
| `VersionSelection.ScenarioDuplicate` | main.go:39-42 | a duplicated 3.0.0 comes out once |
| `VersionSelection.LatestVersions` | main.go:30-46 | the array becomes a descending permutation of itself; the result is strictly descending with pairwise distinct minor lines, its members are exactly the highest version of each line at or above the minimum among the original releases, it is empty exactly when every release is below the minimum, and otherwise its first element is the largest release |

## Left out

- Fetching releases from the hosting service, the per-dependency error line, and reading the CSV dependency list: network and file I/O through foreign libraries.
- The `main` argument check, `os.Exit`, `panic` and the output formatting: command-line plumbing and presentation.
- Parsing with the semver library: parsing is assumed to have succeeded. A `Version` is a plain (major, minor, patch) triple, so the library's pre-release and build metadata, and their part in `LessThan`, are not modelled.
- Version fields are 64-bit signed integers in the source. They are naturals here because parsed versions are never negative, and the sentinel `-1` is kept as an `int` in the loop. Values above 2^63 - 1 are not modelled.
- `Len` of the comparator type is the length of the list, `|s|` in the model.
- SortDescending: the library sort algorithm is not modelled; a selection sort that moves elements only through `Swap` stands in for it, and only its effect (a descending permutation) is claimed. The source's `Less` is ">=" rather than ">", so it holds of an element and itself; the model assumes that the library sort, given this comparator, still leaves a descending permutation of the list.
- The pass does not stop early at the first version below the minimum; it reads the whole list. The model follows that code, not a design with an early exit.
