/**
 * Release bucketing: the commit log is walked oldest first and cut into buckets, one per
 * tagged commit plus a trailing open bucket, each linked to the previous closed release by a
 * "previous" pointer of depth at most one. The history candidate is what the external
 * next-version inference says about the last bucket.
 */
module GitHistory {
  import opened Wrappers
  import opened SemVer

  /** A commit as the history provider reports it; the message is carried but never interpreted. */
  datatype Commit = Commit(id: string, message: string, timestamp: int)

  /** A release bucket; `version` is set once a tag closes it. */
  datatype Release = Release(
    version: Option<string>,
    commits: seq<Commit>,
    commitId: Option<string>,
    timestamp: int,
    previous: Option<Release>)

  /** `Release::default()`. */
  const DefaultRelease: Release := Release(None, [], None, 0, None)

  /** A copy of `r` with its own `previous` link cleared. */
  function Stripped(r: Release): Release {
    r.(previous := None)
  }

  /** The log (newest first, as the provider lists it) in the order the walk visits it. */
  function Chronological(log: seq<Commit>): seq<Commit> {
    seq(|log|, i requires 0 <= i < |log| => log[|log| - 1 - i])
  }

  // ---------------------------------------------------------------------------
  // The walk as a fold: the state after each commit, as a reference for the loop.

  /** The walk's variables: `releases`, `release_index` and `previous_release`. */
  datatype Builder = Builder(releases: seq<Release>, releaseIndex: nat, previousRelease: Release)

  const Start: Builder := Builder([DefaultRelease], 0, DefaultRelease)

  /** One iteration: append the commit to the open bucket and close it when the commit is tagged. */
  function Step(b: Builder, commit: Commit, tags: map<string, string>): Builder
    requires b.releaseIndex < |b.releases|
  {
    var i := b.releaseIndex;
    var rs := b.releases[i := b.releases[i].(commits := b.releases[i].commits + [commit])];
    if commit.id in tags then
      var closed := rs[i].(version := Some(tags[commit.id]), commitId := Some(commit.id),
                           timestamp := commit.timestamp, previous := Some(Stripped(b.previousRelease)));
      Builder(rs[i := closed] + [DefaultRelease], i + 1, closed)
    else
      Builder(rs, i, b.previousRelease)
  }

  /** The state after walking `chron`; the open bucket is always the last one. */
  function Walk(chron: seq<Commit>, tags: map<string, string>): (b: Builder)
    ensures b.releaseIndex + 1 == |b.releases|
  {
    if chron == [] then Start
    else Step(Walk(chron[..|chron| - 1], tags), chron[|chron| - 1], tags)
  }

  /** After the walk: the trailing bucket sees the last closed release only when more than one was closed. */
  function Finish(b: Builder): seq<Release>
    requires b.releaseIndex < |b.releases|
  {
    var i := b.releaseIndex;
    if i > 1 then b.releases[i := b.releases[i].(previous := Some(Stripped(b.previousRelease)))]
    else b.releases
  }

  /** The buckets `get_git_releases` returns for a log and a tag index. */
  function ReleaseGraph(log: seq<Commit>, tags: map<string, string>): (rs: seq<Release>)
    ensures |rs| > 0
  {
    Finish(Walk(Chronological(log), tags))
  }

  // ---------------------------------------------------------------------------
  // What the buckets are, stated independently of the walk.

  /** All buckets' commits, in bucket order. */
  function Flatten(rs: seq<Release>): seq<Commit> {
    if rs == [] then [] else Flatten(rs[..|rs| - 1]) + rs[|rs| - 1].commits
  }

  /** The number of tagged commits in `chron`. */
  function TagCount(chron: seq<Commit>, tags: map<string, string>): nat {
    if chron == [] then 0
    else TagCount(chron[..|chron| - 1], tags) + (if chron[|chron| - 1].id in tags then 1 else 0)
  }

  predicate Untagged(commits: seq<Commit>, tags: map<string, string>) {
    forall j :: 0 <= j < |commits| ==> commits[j].id !in tags
  }

  /**
   * A bucket closed by a tag: its final commit is tagged and is its only tagged commit, and
   * the bucket carries that tag, that commit's id and that commit's time.
   */
  predicate ClosedBy(r: Release, tags: map<string, string>) {
    && |r.commits| > 0
    && var last := r.commits[|r.commits| - 1];
    && last.id in tags
    && Untagged(r.commits[..|r.commits| - 1], tags)
    && r.version == Some(tags[last.id])
    && r.commitId == Some(last.id)
    && r.timestamp == last.timestamp
  }

  /** A bucket no tag has closed: no version, no commit id, the default time, no tagged commit. */
  predicate IsOpen(r: Release, tags: map<string, string>) {
    r.version == None && r.commitId == None && r.timestamp == 0 && Untagged(r.commits, tags)
  }

  /** What closed bucket `k` links to: the default release for the first, else bucket k-1 stripped. */
  function PreviousOf(rs: seq<Release>, k: nat): Release
    requires k < |rs|
  {
    if k == 0 then DefaultRelease else Stripped(rs[k - 1])
  }

  /** Bucket `k` of `rs` is closed and links to what `PreviousOf` says. */
  ghost predicate ClosedAt(rs: seq<Release>, k: nat, tags: map<string, string>)
    requires k < |rs|
  {
    ClosedBy(rs[k], tags) && rs[k].previous == Some(PreviousOf(rs, k))
  }

  /** The chain below a bucket has at most one link. */
  predicate DepthAtMostOne(r: Release) {
    r.previous.None? || r.previous.value.previous.None?
  }

  /** `rs` is the release graph of the chronological log `chron`. */
  ghost predicate IsReleaseGraph(chron: seq<Commit>, tags: map<string, string>, rs: seq<Release>) {
    && |rs| == TagCount(chron, tags) + 1
    && Flatten(rs) == chron
    && (forall k :: 0 <= k < |rs| - 1 ==> ClosedAt(rs, k, tags))
    && IsOpen(rs[|rs| - 1], tags)
    && rs[|rs| - 1].previous == (if |rs| - 1 > 1 then Some(Stripped(rs[|rs| - 2])) else None)
  }

  /** The walk's invariant. */
  ghost predicate BuilderInv(chron: seq<Commit>, tags: map<string, string>, b: Builder) {
    var i := b.releaseIndex;
    && |b.releases| == i + 1
    && i == TagCount(chron, tags)
    && Flatten(b.releases) == chron
    && (forall k :: 0 <= k < i ==> ClosedAt(b.releases, k, tags))
    && IsOpen(b.releases[i], tags)
    && b.releases[i].previous == None
    && b.previousRelease == (if i == 0 then DefaultRelease else b.releases[i - 1])
  }

  lemma FlattenLast(rs: seq<Release>, r: Release)
    requires |rs| > 0
    ensures Flatten(rs[|rs| - 1 := r]) == Flatten(rs[..|rs| - 1]) + r.commits
  {
  }

  lemma FlattenPushEmpty(rs: seq<Release>, r: Release)
    requires r.commits == []
    ensures Flatten(rs + [r]) == Flatten(rs)
  {
  }

  /** Changing only bucket `i` keeps every bucket below `i` where it was. */
  lemma ClosedPrefixKept(rs: seq<Release>, rs': seq<Release>, i: nat, tags: map<string, string>)
    requires i < |rs| && i < |rs'| && rs[..i] == rs'[..i]
    requires forall k :: 0 <= k < i ==> ClosedAt(rs, k, tags)
    ensures forall k :: 0 <= k < i ==> ClosedAt(rs', k, tags)
  {
    forall k | 0 <= k < i
      ensures ClosedAt(rs', k, tags)
    {
      assert ClosedAt(rs, k, tags);
      assert rs'[k] == rs[..i][k];
      if k > 0 {
        assert rs'[k - 1] == rs[..i][k - 1];
      }
    }
  }

  /** An untagged commit only grows the open bucket. */
  lemma StepUntaggedInv(chron: seq<Commit>, commit: Commit, tags: map<string, string>, b: Builder)
    requires BuilderInv(chron, tags, b) && commit.id !in tags
    ensures BuilderInv(chron + [commit], tags, Step(b, commit, tags))
  {
    var i := b.releaseIndex;
    var open := b.releases[i];
    var grown := open.(commits := open.commits + [commit]);
    var rs := b.releases[i := grown];
    assert Step(b, commit, tags) == Builder(rs, i, b.previousRelease);
    assert i == TagCount(chron + [commit], tags) by {
      assert (chron + [commit])[..|chron|] == chron;
    }
    assert Flatten(rs) == chron + [commit] by {
      FlattenLast(b.releases, grown);
      FlattenLast(b.releases, open);
      assert b.releases[i := open] == b.releases;
    }
    assert IsOpen(grown, tags) by {
      assert grown.commits[..|open.commits|] == open.commits;
    }
    ClosedPrefixKept(b.releases, rs, i, tags);
  }

  /** A tagged commit closes the open bucket and opens a fresh one. */
  lemma StepTaggedInv(chron: seq<Commit>, commit: Commit, tags: map<string, string>, b: Builder)
    requires BuilderInv(chron, tags, b) && commit.id in tags
    ensures BuilderInv(chron + [commit], tags, Step(b, commit, tags))
  {
    var i := b.releaseIndex;
    var open := b.releases[i];
    var closed := open.(commits := open.commits + [commit], version := Some(tags[commit.id]),
                        commitId := Some(commit.id), timestamp := commit.timestamp,
                        previous := Some(Stripped(b.previousRelease)));
    var rs' := b.releases[i := closed] + [DefaultRelease];
    assert Step(b, commit, tags) == Builder(rs', i + 1, closed);
    assert i + 1 == TagCount(chron + [commit], tags) by {
      assert (chron + [commit])[..|chron|] == chron;
    }
    assert Flatten(rs') == chron + [commit] by {
      FlattenLast(b.releases, closed);
      FlattenLast(b.releases, open);
      assert b.releases[i := open] == b.releases;
      FlattenPushEmpty(b.releases[i := closed], DefaultRelease);
    }
    assert ClosedBy(closed, tags) by {
      assert closed.commits[..|closed.commits| - 1] == open.commits;
    }
    assert rs'[..i] == b.releases[..i];
    ClosedPrefixKept(b.releases, rs', i, tags);
    assert ClosedAt(rs', i, tags) by {
      assert rs'[i] == closed;
      if i > 0 {
        assert rs'[i - 1] == b.releases[i - 1];
      }
    }
    assert forall k :: 0 <= k < i + 1 ==> ClosedAt(rs', k, tags);
  }

  lemma StepInv(chron: seq<Commit>, commit: Commit, tags: map<string, string>, b: Builder)
    requires BuilderInv(chron, tags, b)
    ensures BuilderInv(chron + [commit], tags, Step(b, commit, tags))
  {
    if commit.id in tags {
      StepTaggedInv(chron, commit, tags, b);
    } else {
      StepUntaggedInv(chron, commit, tags, b);
    }
  }

  lemma {:induction false} WalkInv(chron: seq<Commit>, tags: map<string, string>)
    ensures BuilderInv(chron, tags, Walk(chron, tags))
  {
    if chron == [] {
      assert Flatten(Start.releases) == Flatten([]) + DefaultRelease.commits;
    } else {
      var front := chron[..|chron| - 1];
      WalkInv(front, tags);
      StepInv(front, chron[|chron| - 1], tags, Walk(front, tags));
      assert front + [chron[|chron| - 1]] == chron;
    }
  }

  lemma FinishGraph(chron: seq<Commit>, tags: map<string, string>, b: Builder)
    requires BuilderInv(chron, tags, b)
    ensures IsReleaseGraph(chron, tags, Finish(b))
  {
    var i := b.releaseIndex;
    if i > 1 {
      var last := b.releases[i].(previous := Some(Stripped(b.previousRelease)));
      var rs := b.releases[i := last];
      assert Finish(b) == rs;
      assert Flatten(rs) == chron by {
        FlattenLast(b.releases, last);
        FlattenLast(b.releases, b.releases[i]);
        assert b.releases[i := b.releases[i]] == b.releases;
      }
      ClosedPrefixKept(b.releases, rs, i, tags);
      assert rs[i - 1] == b.releases[i - 1];
    }
  }

  /** The buckets of every log satisfy the release-graph description. */
  lemma ReleaseGraphSpec(log: seq<Commit>, tags: map<string, string>)
    ensures IsReleaseGraph(Chronological(log), tags, ReleaseGraph(log, tags))
  {
    WalkInv(Chronological(log), tags);
    FinishGraph(Chronological(log), tags, Walk(Chronological(log), tags));
  }

  // ---------------------------------------------------------------------------
  // The release-graph properties, one by one.

  /** One bucket per tagged commit, plus the trailing one: never empty. */
  lemma ReleaseCount(log: seq<Commit>, tags: map<string, string>)
    ensures |ReleaseGraph(log, tags)| == 1 + TagCount(Chronological(log), tags)
  {
    ReleaseGraphSpec(log, tags);
  }

  /** The buckets' commits, concatenated in order, are the log oldest first: each commit lands once, in order. */
  lemma CommitsPartitioned(log: seq<Commit>, tags: map<string, string>)
    ensures Flatten(ReleaseGraph(log, tags)) == Chronological(log)
  {
    ReleaseGraphSpec(log, tags);
  }

  /** Every bucket but the last is closed by its final commit's tag. */
  lemma ClosedBuckets(log: seq<Commit>, tags: map<string, string>, k: nat)
    requires k < |ReleaseGraph(log, tags)| - 1
    ensures ClosedBy(ReleaseGraph(log, tags)[k], tags)
  {
    ReleaseGraphSpec(log, tags);
    assert ClosedAt(ReleaseGraph(log, tags), k, tags);
  }

  /** The last bucket is open and holds no tagged commit (it may be empty). */
  lemma TrailingBucketOpen(log: seq<Commit>, tags: map<string, string>)
    ensures var rs := ReleaseGraph(log, tags); IsOpen(rs[|rs| - 1], tags)
  {
    ReleaseGraphSpec(log, tags);
  }

  /**
   * The previous links: closed bucket 0 links to the default release, closed bucket k > 0
   * to bucket k-1 stripped, and the trailing bucket to the last closed bucket stripped only
   * when at least two commits were tagged.
   */
  lemma PreviousLinks(log: seq<Commit>, tags: map<string, string>, k: nat)
    requires k < |ReleaseGraph(log, tags)|
    ensures var rs := ReleaseGraph(log, tags);
      rs[k].previous ==
        if k < |rs| - 1 then Some(PreviousOf(rs, k))
        else if k > 1 then Some(Stripped(rs[k - 1]))
        else None
  {
    var rs := ReleaseGraph(log, tags);
    ReleaseGraphSpec(log, tags);
    if k < |rs| - 1 {
      assert ClosedAt(rs, k, tags);
    }
  }

  /** No bucket's previous release has a previous release of its own. */
  lemma PreviousDepthBounded(log: seq<Commit>, tags: map<string, string>, k: nat)
    requires k < |ReleaseGraph(log, tags)|
    ensures DepthAtMostOne(ReleaseGraph(log, tags)[k])
  {
    PreviousLinks(log, tags, k);
  }

  /** Without a tagged commit there is one open bucket holding every commit, with no previous link. */
  lemma NoTags(log: seq<Commit>, tags: map<string, string>)
    requires TagCount(Chronological(log), tags) == 0
    ensures ReleaseGraph(log, tags) == [Release(None, Chronological(log), None, 0, None)]
  {
    var rs := ReleaseGraph(log, tags);
    ReleaseGraphSpec(log, tags);
    assert |rs| == 1;
    assert rs[..0] == [];
    assert Flatten(rs) == rs[0].commits;
    assert rs == [rs[0]];
  }

  // ---------------------------------------------------------------------------
  // The imperative walk and the history candidate.

  /**
   * `get_git_releases`: walks the log oldest first, appending each commit to the open bucket
   * and closing it at every tagged commit.
   */
  method GetGitReleases(log: seq<Commit>, tags: map<string, string>) returns (releases: seq<Release>)
    ensures releases == ReleaseGraph(log, tags)
    ensures IsReleaseGraph(Chronological(log), tags, releases)
  {
    releases := [DefaultRelease];
    var releaseIndex: nat := 0;
    var previousRelease := DefaultRelease;
    ghost var chron := Chronological(log);
    for k := 0 to |log|
      invariant Builder(releases, releaseIndex, previousRelease) == Walk(chron[..k], tags)
    {
      var commit := log[|log| - 1 - k];
      assert chron[..k + 1][..k] == chron[..k] && chron[..k + 1][k] == commit;
      releases := releases[releaseIndex := releases[releaseIndex].(commits := releases[releaseIndex].commits + [commit])];
      if commit.id in tags {
        var tag := tags[commit.id];
        releases := releases[releaseIndex := releases[releaseIndex].(version := Some(tag), commitId := Some(commit.id),
                                                                     timestamp := commit.timestamp)];
        previousRelease := previousRelease.(previous := None);
        releases := releases[releaseIndex := releases[releaseIndex].(previous := Some(previousRelease))];
        previousRelease := releases[releaseIndex];
        releases := releases + [DefaultRelease];
        releaseIndex := releaseIndex + 1;
      }
    }
    assert chron[..|log|] == chron;
    if releaseIndex > 1 {
      previousRelease := previousRelease.(previous := None);
      releases := releases[releaseIndex := releases[releaseIndex].(previous := Some(previousRelease))];
    }
    ReleaseGraphSpec(log, tags);
  }

  /** The selection in `get_git_changes`: ask the inference about the last bucket, or fall back to 0.1.0. */
  function SelectHistoryVersion(releases: seq<Release>, next: Release -> Result<Version, string>): Result<Version, string> {
    if |releases| > 0 then next(releases[|releases| - 1]) else Success(New(0, 1, 0))
  }

  /**
   * `get_git_changes`: the history candidate is always what the next-version inference says
   * about the last bucket; the 0.1.0 fallback is never taken, since the buckets are never empty.
   */
  method GetGitChanges(log: seq<Commit>, tags: map<string, string>, next: Release -> Result<Version, string>)
    returns (r: Result<Version, string>)
    ensures var rs := ReleaseGraph(log, tags); r == next(rs[|rs| - 1])
  {
    var releases := GetGitReleases(log, tags);
    r := SelectHistoryVersion(releases, next);
  }
}
