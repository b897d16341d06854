/**
 * The two version rules of the tool: the bump proposed by the API analyser's required
 * severity, and the merge of the API candidate with the history candidate into the current
 * version.
 */
module Bump {
  import opened Wrappers
  import opened SemVer

  /** The API analyser's required bump for one crate. */
  datatype Severity = Major | Minor | Patch

  /** The level a (possibly absent) severity bumps at: no severity proposes a patch bump. */
  function Level(releaseType: Option<Severity>): Severity {
    if releaseType.Some? then releaseType.value else Patch
  }

  /** `w` is raised above `v` at `level`: in major, in (major, minor), or in the whole triple. */
  predicate RaisedAt(w: Version, v: Version, level: Severity) {
    match level
    case Major => w.major > v.major
    case Minor => w.major > v.major || (w.major == v.major && w.minor > v.minor)
    case Patch => CompareTriple(w, v) == Gt
  }

  /** The API candidate: a plain release whose triple is strictly above the current one. */
  function BumpByReleaseType(v: Version, releaseType: Option<Severity>): (r: Version)
    ensures r.pre == [] && r.build == ""
    ensures CompareTriple(r, v) == Gt && GreaterThan(r, v)
    ensures RaisedAt(r, v, Level(releaseType))
  {
    match releaseType
    case Some(Major) => New(v.major + 1, 0, 0)
    case Some(Minor) => New(v.major, v.minor + 1, 0)
    case _ => New(v.major, v.minor, v.patch + 1)
  }

  /**
   * The bump table is the least plain release raised at the severity's level: no
   * release without pre-release that is raised at that level precedes the candidate
   * (so Major gives (M+1, 0, 0), Minor (M, m+1, 0), Patch and absent (M, m, p+1)).
   */
  lemma BumpIsLeast(v: Version, releaseType: Option<Severity>, w: Version)
    requires w.pre == [] && RaisedAt(w, v, Level(releaseType))
    ensures !GreaterThan(BumpByReleaseType(v, releaseType), w)
  {
  }

  /** An absent severity proposes exactly what an explicit patch severity proposes. */
  lemma AbsentIsPatch(v: Version)
    ensures BumpByReleaseType(v, None) == BumpByReleaseType(v, Some(Patch))
  {
  }

  /**
   * `get_semver_changes` once the analyser is a plain input: the check either failed with a
   * message or produced the required bump of each crate report; the first report decides, and
   * no report at all is fatal.
   */
  function SemverChanges(current: Version, check: Result<seq<Option<Severity>>, string>): (r: Result<Version, string>)
    ensures r.Success? <==> check.Success? && |check.value| > 0
    ensures check.Failure? ==> r == Failure(check.error)
    ensures r.Success? ==> r.value == BumpByReleaseType(current, check.value[0]) && GreaterThan(r.value, current)
  {
    match check
    case Failure(e) => Failure(e)
    case Success(reports) =>
      if |reports| == 0 then Failure("no crate reports")
      else Success(BumpByReleaseType(current, reports[0]))
  }

  /** The candidate `bump_version` adopts: the API one only when it is strictly greater. */
  function Winner(semverVersion: Version, gitVersion: Version): Version {
    if GreaterThan(semverVersion, gitVersion) then semverVersion else gitVersion
  }

  /** `current` with its numeric triple replaced by that of `w`. */
  function Adopt(current: Version, w: Version): Version {
    current.(major := w.major, minor := w.minor, patch := w.patch)
  }

  /** The version `bump_version` leaves behind. */
  function Merged(current: Version, semverVersion: Version, gitVersion: Version): Version {
    Adopt(current, Winner(semverVersion, gitVersion))
  }

  /** The winner is one of the candidates and has at least the precedence of both. */
  lemma WinnerIsMaximum(semverVersion: Version, gitVersion: Version)
    ensures var w := Winner(semverVersion, gitVersion);
      (w == semverVersion || w == gitVersion) &&
      Compare(w, semverVersion) != Lt && Compare(w, gitVersion) != Lt
  {
    CompareFlip(semverVersion, gitVersion);
    CompareEq(semverVersion, semverVersion);
    CompareEq(gitVersion, gitVersion);
  }

  /**
   * The merged triple is the API candidate's when that candidate is strictly greater and the
   * history candidate's otherwise; it is at least both candidates' triples; the current
   * version's pre-release and build metadata survive.
   */
  lemma MergedTriple(current: Version, semverVersion: Version, gitVersion: Version)
    ensures var m := Merged(current, semverVersion, gitVersion);
      (GreaterThan(semverVersion, gitVersion) ==> SameTriple(m, semverVersion)) &&
      (!GreaterThan(semverVersion, gitVersion) ==> SameTriple(m, gitVersion)) &&
      CompareTriple(m, semverVersion) != Lt && CompareTriple(m, gitVersion) != Lt &&
      m.pre == current.pre && m.build == current.build
  {
  }

  /**
   * On a precedence tie the choice of candidate does not matter: adopting either gives the
   * same version, so breaking ties towards the history candidate (or by build metadata) is
   * unobservable.
   */
  lemma TieBreakIrrelevant(current: Version, semverVersion: Version, gitVersion: Version)
    requires Compare(semverVersion, gitVersion) == Eq
    ensures Merged(current, semverVersion, gitVersion) == Adopt(current, semverVersion)
    ensures Merged(current, semverVersion, gitVersion) == Merged(current, gitVersion, semverVersion)
  {
  }

  /**
   * Merging does not make the result at least both candidates under full precedence: a
   * pre-release on the current version is kept, so 1.2.3-rc.1 merged with candidates 1.3.0
   * and 0.1.0 gives 1.3.0-rc.1, which precedes the candidate 1.3.0.
   */
  lemma MergedMayPrecedeCandidate()
    ensures var current := Version(1, 2, 3, [AlphaNumeric("rc"), Numeric(1)], "");
      var m := Merged(current, New(1, 3, 0), New(0, 1, 0));
      m == Version(1, 3, 0, [AlphaNumeric("rc"), Numeric(1)], "") && Compare(m, New(1, 3, 0)) == Lt
  {
  }

  /** A `semver::Version` whose public fields are written in place. */
  class MutableVersion {
    var major: nat
    var minor: nat
    var patch: nat
    var pre: seq<Identifier>
    var build: string

    constructor (v: Version)
      ensures Value() == v
    {
      major, minor, patch, pre, build := v.major, v.minor, v.patch, v.pre, v.build;
    }

    function Value(): Version
      reads this
    {
      Version(major, minor, patch, pre, build)
    }
  }

  /**
   * `bump_version`: writes the greater candidate's major, minor and patch into `current`
   * (ties go to the history candidate) and leaves its pre-release and build untouched.
   */
  method BumpVersion(current: MutableVersion, semverVersion: Version, gitVersion: Version)
    modifies current
    ensures current.Value() == Merged(old(current.Value()), semverVersion, gitVersion)
    ensures current.pre == old(current.pre) && current.build == old(current.build)
    ensures GreaterThan(semverVersion, gitVersion) ==> SameTriple(current.Value(), semverVersion)
    ensures !GreaterThan(semverVersion, gitVersion) ==> SameTriple(current.Value(), gitVersion)
  {
    var newVersion := if GreaterThan(semverVersion, gitVersion) then semverVersion else gitVersion;
    current.major := newVersion.major;
    current.minor := newVersion.minor;
    current.patch := newVersion.patch;
  }
}
