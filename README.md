# cargo-semver-bump, modelled in Dafny

`cargo semver-bump` computes a crate's next version from two signals and writes it into
`Cargo.toml`:

- the API candidate. The API analyser (cargo-semver-checks) reports a required bump severity,
  and a fixed table turns the current version into the next major, minor or patch release.
- the history candidate. The git log is walked oldest first and cut into release buckets at
  every tagged commit. Each bucket is linked to the previous closed release by a "previous"
  pointer at most one level deep. An external next-version inference (git-cliff) is asked about
  the last bucket.

`bump_version` takes the greater candidate under semantic-version precedence, with ties going to
the history candidate. It copies only that candidate's major, minor and patch into the current
version.

The model has these modules:

- `Wrappers` holds `Option` and `Result`.
- `SemVer` holds `Version` (major, minor, patch as `nat`, pre-release identifiers, opaque build
  metadata) and precedence as in section 11 of Semantic Versioning 2.0.0: the numeric triple
  first, then the pre-release. A version without a pre-release is greater than one with. Numeric
  identifiers compare numerically and come before alphanumeric ones. Alphanumeric identifiers
  compare lexically, and a longer identifier list wins when the shorter one is its prefix. The
  module proves that precedence is a total preorder.
- `Bump` holds three things:
  - the severity table `BumpByReleaseType`;
  - the glue of `get_semver_changes` (`SemverChanges`);
  - the merge. Its specification is `Winner`/`Merged`. `MutableVersion` is a `semver::Version`
    whose fields are written in place, and `BumpVersion` is the imperative `bump_version`.
- `GitHistory` holds `Commit`, `Release` and the imperative walk `GetGitReleases`. The walk has a
  `for` loop over the log in reverse and updates `releases`, `releaseIndex` and `previousRelease`
  as the source does. Its reference is the fold `Walk`/`Finish`; `IsReleaseGraph` describes the
  buckets without reference to the walk. `GetGitChanges` is the history candidate. It calls
  `GetGitReleases` and then `SelectHistoryVersion`, the selection of src/main.rs:120-126 as
  written, including its `0.1.0` branch.

The foreign pieces become inputs:

- the commit log is a `seq<Commit>`, newest first, as the git provider lists it;
- the tag index is one `map<string, string>` from commit id to tag name. The source re-reads it
  on every iteration, but it holds the same value each time;
- the API analyser's outcome is a `Result` of per-crate required bumps;
- the next-version inference, together with the version parsing of its answer, is a function
  `Release -> Result<Version, string>`.

Behaviour of the code worth noting:

- `Release.timestamp` is a plain integer that starts at 0 (`Release::default()`), not an
  optional value. It is set only when a tag closes the bucket (src/main.rs:130, 147).
- `get_git_changes` never takes its own `0.1.0` branch (src/main.rs:124-125), because the
  bucket list starts non-empty (src/main.rs:130). With no tag it returns what the inference
  makes of the single open bucket, which the model leaves uninterpreted (`GetGitChanges`).
- The merged version is not always at least both candidates under full precedence. A pre-release
  on the current version is kept (src/main.rs:111-113), so it can precede the winning candidate
  (`MergedMayPrecedeCandidate`). Only the triple is guaranteed to be at least both candidates'
  triples.

With exactly one tag, the trailing bucket has no `previous` link (`release_index > 1`,
src/main.rs:156), while closed bucket 0 links to `Release::default()` (src/main.rs:132,
148-149). `PreviousLinks` states both.

## Model

| member | source | states |
|---|---|---|
| `SemVer.CompareFlip` | src/main.rs:105 | precedence is antisymmetric: swapping the operands of `>` flips the outcome |
| `SemVer.CompareEq` | src/main.rs:105 | two versions tie exactly when they agree on major, minor, patch and pre-release; build metadata is ignored |
| `SemVer.CompareTrans` | src/main.rs:105 | precedence is transitive |
| `Bump.BumpByReleaseType` | src/main.rs:190-199 | the API candidate has no pre-release and no build metadata, and its triple (so its precedence) is strictly above the current version's; it is raised at the severity's level, with an absent severity counting as patch |
| `Bump.BumpIsLeast` | src/main.rs:194-198 | the candidate is the least plain release raised at that level: Major gives (M+1, 0, 0), Minor gives (M, m+1, 0), Patch and absent give (M, m, p+1) |
| `Bump.AbsentIsPatch` | src/main.rs:197 | an absent severity proposes exactly what an explicit Patch does |
| `Bump.SemverChanges` | src/main.rs:164-188 | the API candidate exists exactly when the analyser succeeded with at least one crate report; a failed check passes its message on; otherwise the first report's bump decides and the candidate is above the current version |
| `Bump.WinnerIsMaximum` | src/main.rs:105-109 | the chosen candidate is one of the two and has at least the precedence of each |
| `Bump.MergedTriple` | src/main.rs:105-113 | the merged triple is the API candidate's when that one is strictly greater and the history candidate's otherwise (ties go to history); it is at least both candidates' triples; the current pre-release and build are kept |
| `Bump.TieBreakIrrelevant` | src/main.rs:105-109 | on a precedence tie, adopting either candidate gives the same version, so how ties are broken does not matter |
| `Bump.MergedMayPrecedeCandidate` | src/main.rs:111-113 | 1.2.3-rc.1 merged with candidates 1.3.0 and 0.1.0 becomes 1.3.0-rc.1, which precedes the candidate 1.3.0 |
| `Bump.BumpVersion` | src/main.rs:100-114 | writes the merged triple into the mutable current version and leaves pre-release and build unchanged |
| `GitHistory.Walk` | src/main.rs:130-154 | throughout the walk, the open bucket is the last one (`release_index + 1 == releases.len()`) |
| `GitHistory.ReleaseGraph` | src/main.rs:129-162 | the returned bucket list is never empty |
| `GitHistory.ReleaseGraphSpec` | src/main.rs:129-162 | the buckets of every log and tag index satisfy the release-graph description: count, partition, closed buckets, open trailing bucket, previous links |
| `GitHistory.ReleaseCount` | src/main.rs:130-152 | there are exactly one more buckets than tagged commits |
| `GitHistory.CommitsPartitioned` | src/main.rs:136-140 | the buckets' commit lists, concatenated in order, are the log oldest first, so every commit lands in exactly one bucket, in order |
| `GitHistory.ClosedBuckets` | src/main.rs:144-152 | every bucket but the last ends with a tagged commit, which is its only tagged commit, and carries that tag as version, that commit's id and that commit's time |
| `GitHistory.TrailingBucketOpen` | src/main.rs:130-152 | the last bucket has no version, no commit id and the default time, and holds no tagged commit (it may be empty) |
| `GitHistory.PreviousLinks` | src/main.rs:148-159 | closed bucket 0 links to the default release; closed bucket k > 0 links to bucket k-1 with its own link cleared; the trailing bucket links to the last closed bucket, stripped, only when at least two commits were tagged, and otherwise has no link |
| `GitHistory.PreviousDepthBounded` | src/main.rs:148-158 | no bucket's previous release has a previous release of its own |
| `GitHistory.NoTags` | src/main.rs:129-162 | without a tagged commit the result is a single open bucket holding every commit, with no previous link |
| `GitHistory.GetGitReleases` | src/main.rs:129-162 | the imperative walk returns exactly the reference graph, and so satisfies the release-graph description |
| `GitHistory.GetGitChanges` | src/main.rs:116-127 | the history candidate is always what the inference says about the last bucket: the `0.1.0` fallback is never taken |

## Left out

- `main` (src/main.rs:37-98) is left out. It covers argument parsing, logger setup, reading,
  parsing, editing and writing `Cargo.toml`, and the dry-run switch. All of it is I/O and
  plumbing.
- `log_panic` (src/main.rs:200-203) logs and aborts. The model returns an error value where the
  source aborts, as `SemverChanges` does for "no crate reports".
- The API analyser itself (`Rustdoc::from_root`, `Check::check_release`, `crate_reports`,
  `required_bump`) is foreign. Its outcome is an input. The crate reports are taken in the order
  the analyser iterates them.
- The git provider (`Repository::init`, `repo.commits`, `repo.tags`) and the errors it can raise
  are foreign. The log and the tag index are inputs, so those error paths do not appear.
- `Commit::from` keeps only the id, the message (uninterpreted) and the time. git-cliff's other
  commit and release fields are not modelled.
- `Release::calculate_next_version` and the `semver::Version::parse` of its answer are foreign.
  Together they are the function parameter `next`. Parsing the manifest's version is not
  modelled; versions are assumed well formed.
- `SemVer.Compare`: the `semver` crate's `Ord` also breaks precedence ties by build metadata.
  This is not modelled. `Bump.TieBreakIrrelevant` shows that a tie-break cannot change the
  merged version.
- `Bump.BumpByReleaseType`: `major + 1`, `minor + 1` and `patch + 1` are on `u64` in the source
  and could overflow. The model uses unbounded `nat`, because no version near 2^64 is meaningful.
- In `Bump.MutableVersion`, pre-release and build metadata are values (identifier lists and a
  string). The `semver` crate's interned representations are not modelled.
