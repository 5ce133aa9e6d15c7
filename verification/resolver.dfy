/** The latest-version resolver of index.php: one left fold over a package's
    published version records, starting from the sentinel version "0" with
    no repository URL and no reference. */
module Resolver {
  import opened Wrappers
  import opened PhpStrings
  import opened Comparison

  /** A published release whose source is present: its version, the
      source's repository URL and the reference it was published at, which
      may be null. */
  datatype VersionRecord = VersionRecord(version: string, url: string, ref: Option<string>)

  /** The fold's three variables: the best version so far, the URL of the
      record that set it (`$repo`) and the reference to audit (`$latestRef`). */
  datatype Resolution = Resolution(latest: string, repo: Option<string>, latestRef: Option<string>)

  /** The integer 0 the fold starts from, as `version_compare` sees it. */
  const Sentinel: string := "0"

  const Initial := Resolution(Sentinel, None, None)

  /** One iteration of the loop over the records: a strictly newer version
      takes over all three variables; then a falsy reference is replaced by
      the current record's reference. */
  function Step(cmp: Comparator, acc: Resolution, rec: VersionRecord): Resolution
  {
    var acc' := if cmp(rec.version, acc.latest) > 0
                then Resolution(rec.version, Some(rec.url), rec.ref)
                else acc;
    if !Truthy(acc'.latestRef) then acc'.(latestRef := rec.ref) else acc'
  }

  /** The resolver run over `records` in the registry's order. */
  function Resolve(cmp: Comparator, records: seq<VersionRecord>): (r: Resolution)
    ensures |records| == 0 ==> r == Initial
    ensures r.latest == Sentinel || exists i :: 0 <= i < |records| && records[i].version == r.latest
    ensures r.repo.Some? ==>
              exists i :: 0 <= i < |records| && records[i].version == r.latest && r.repo == Some(records[i].url)
    ensures |records| > 0 ==> Truthy(r.latestRef) || r.latestRef == records[|records| - 1].ref
    ensures r.latestRef.Some? ==> exists i :: 0 <= i < |records| && r.latestRef == records[i].ref
  {
    if |records| == 0 then Initial
    else
      var prefix := records[..|records| - 1];
      var last := records[|records| - 1];
      var prev := Resolve(cmp, prefix);
      assert forall i :: 0 <= i < |prefix| ==> prefix[i] == records[i];
      Step(cmp, prev, last)
  }

  // ---------------------------------------------------------------- reference definition

  /** `k` is the first record holding a version that no record exceeds. */
  ghost predicate IsFirstMax(cmp: Comparator, records: seq<VersionRecord>, k: int)
  {
    && 0 <= k < |records|
    && (forall j :: 0 <= j < |records| ==> cmp(records[j].version, records[k].version) <= 0)
    && (forall j :: 0 <= j < k ==> cmp(records[j].version, records[k].version) < 0)
  }

  /** The reference kept when no newer version takes over: the first truthy
      reference, or the last reference when none is truthy. */
  function FallbackRef(records: seq<VersionRecord>): (r: Option<string>)
  {
    if |records| == 0 then None
    else if Truthy(records[0].ref) || |records| == 1 then records[0].ref
    else FallbackRef(records[1..])
  }

  /** What the resolver is meant to produce, stated without the fold: the
      first maximal record wins when it is newer than the sentinel, and the
      reference falls back from that record onwards. */
  ghost predicate Resolves(cmp: Comparator, records: seq<VersionRecord>, r: Resolution)
  {
    && (forall i :: 0 <= i < |records| ==> cmp(records[i].version, r.latest) <= 0)
    && cmp(Sentinel, r.latest) <= 0
    && (r.repo.None? <==> forall i :: 0 <= i < |records| ==> cmp(records[i].version, Sentinel) <= 0)
    && (r.repo.None? ==> r.latest == Sentinel && r.latestRef == FallbackRef(records))
    && (r.repo.Some? ==>
          exists k :: && IsFirstMax(cmp, records, k)
                      && r.latest == records[k].version
                      && r.repo == Some(records[k].url)
                      && r.latestRef == FallbackRef(records[k..]))
  }

  /** Appending a record changes the fallback only while it is falsy. */
  lemma {:induction false} FallbackRefAppend(records: seq<VersionRecord>, rec: VersionRecord)
    ensures FallbackRef(records + [rec]) ==
              if Truthy(FallbackRef(records)) then FallbackRef(records) else rec.ref
  {
    if |records| > 0 {
      assert (records + [rec])[0] == records[0];
      if !Truthy(records[0].ref) && |records| > 1 {
        assert (records + [rec])[1..] == records[1..] + [rec];
        FallbackRefAppend(records[1..], rec);
      } else if !Truthy(records[0].ref) {
        assert (records + [rec])[1..] == [rec];
      }
    }
  }

  /** The ordering facts a newer record brings: it is newer than every
      earlier record and than the sentinel, and ties with itself. */
  lemma {:induction false} NewerRecordFacts(cmp: Comparator, prefix: seq<VersionRecord>, a: Resolution, rec: VersionRecord)
    requires IsVersionOrder(cmp)
    requires forall i :: 0 <= i < |prefix| ==> cmp(prefix[i].version, a.latest) <= 0
    requires cmp(Sentinel, a.latest) <= 0
    requires cmp(rec.version, a.latest) > 0
    ensures forall j :: 0 <= j < |prefix| ==> cmp(prefix[j].version, rec.version) < 0
    ensures cmp(rec.version, rec.version) == 0
    ensures cmp(Sentinel, rec.version) < 0 && cmp(rec.version, Sentinel) > 0
  {
    Reflexive(cmp, rec.version);
    forall j | 0 <= j < |prefix|
      ensures cmp(prefix[j].version, rec.version) < 0
    {
      OlderThanNewer(cmp, prefix[j].version, a.latest, rec.version);
    }
    OlderThanNewer(cmp, Sentinel, a.latest, rec.version);
  }

  /** A record newer than the current best becomes the first maximum of the
      extended sequence. */
  lemma {:induction false} StepNewer(cmp: Comparator, prefix: seq<VersionRecord>, a: Resolution, rec: VersionRecord)
    requires Resolves(cmp, prefix, a)
    requires cmp(rec.version, a.latest) > 0
    requires forall j :: 0 <= j < |prefix| ==> cmp(prefix[j].version, rec.version) < 0
    requires cmp(rec.version, rec.version) == 0
    requires cmp(rec.version, Sentinel) > 0 && cmp(Sentinel, rec.version) < 0
    ensures Resolves(cmp, prefix + [rec], Step(cmp, a, rec))
  {
    var records := prefix + [rec];
    var n := |prefix|;
    var r := Step(cmp, a, rec);
    assert r == Resolution(rec.version, Some(rec.url), rec.ref);
    assert forall j :: 0 <= j < n ==> records[j] == prefix[j];
    assert IsFirstMax(cmp, records, n);
    assert records[n..] == [rec];
    assert records[n] == rec;
  }

  /** A record not newer than the current best keeps the winner, and only
      the fallback reference may move on to it. */
  lemma {:induction false} StepNotNewer(cmp: Comparator, prefix: seq<VersionRecord>, a: Resolution, rec: VersionRecord)
    requires Resolves(cmp, prefix, a)
    requires cmp(rec.version, a.latest) <= 0
    ensures Resolves(cmp, prefix + [rec], Step(cmp, a, rec))
  {
    if a.repo.None? {
      StepNotNewerNoWinner(cmp, prefix, a, rec);
    } else {
      var k :| && IsFirstMax(cmp, prefix, k)
               && a.latest == prefix[k].version
               && a.repo == Some(prefix[k].url)
               && a.latestRef == FallbackRef(prefix[k..]);
      StepNotNewerWinner(cmp, prefix, a, rec, k);
    }
  }

  lemma {:induction false} StepNotNewerNoWinner(cmp: Comparator, prefix: seq<VersionRecord>, a: Resolution, rec: VersionRecord)
    requires Resolves(cmp, prefix, a) && a.repo.None?
    requires cmp(rec.version, a.latest) <= 0
    ensures Resolves(cmp, prefix + [rec], Step(cmp, a, rec))
  {
    var r := Step(cmp, a, rec);
    assert r.latest == a.latest && r.repo == a.repo;
    assert r.latestRef == if Truthy(a.latestRef) then a.latestRef else rec.ref;
    FallbackRefAppend(prefix, rec);
  }

  lemma {:induction false} StepNotNewerWinner(cmp: Comparator, prefix: seq<VersionRecord>, a: Resolution, rec: VersionRecord, k: int)
    requires Resolves(cmp, prefix, a) && a.repo.Some?
    requires && IsFirstMax(cmp, prefix, k)
             && a.latest == prefix[k].version
             && a.repo == Some(prefix[k].url)
             && a.latestRef == FallbackRef(prefix[k..])
    requires cmp(rec.version, a.latest) <= 0
    ensures Resolves(cmp, prefix + [rec], Step(cmp, a, rec))
  {
    var records := prefix + [rec];
    var r := Step(cmp, a, rec);
    assert r.latest == a.latest && r.repo == a.repo;
    assert r.latestRef == if Truthy(a.latestRef) then a.latestRef else rec.ref;
    assert IsFirstMax(cmp, records, k);
    assert records[k..] == prefix[k..] + [rec];
    FallbackRefAppend(prefix[k..], rec);
    var w :| 0 <= w < |prefix| && cmp(prefix[w].version, Sentinel) > 0;
    assert records[w] == prefix[w];
  }

  /** The fold meets the reference definition. */
  lemma {:induction false} ResolveMeetsSpec(cmp: Comparator, records: seq<VersionRecord>)
    requires IsVersionOrder(cmp)
    ensures Resolves(cmp, records, Resolve(cmp, records))
  {
    if |records| == 0 {
      Reflexive(cmp, Sentinel);
    } else {
      var n := |records| - 1;
      var prefix := records[..n];
      var rec := records[n];
      assert records == prefix + [rec];
      ResolveMeetsSpec(cmp, prefix);
      var a := Resolve(cmp, prefix);
      assert Resolve(cmp, records) == Step(cmp, a, rec);
      if cmp(rec.version, a.latest) > 0 {
        NewerRecordFacts(cmp, prefix, a, rec);
        StepNewer(cmp, prefix, a, rec);
      } else {
        StepNotNewer(cmp, prefix, a, rec);
      }
    }
  }

  /** The reference definition pins the result down: at most one resolution
      meets it. */
  lemma {:induction false} ResolvesUnique(cmp: Comparator, records: seq<VersionRecord>, r1: Resolution, r2: Resolution)
    requires IsVersionOrder(cmp)
    requires Resolves(cmp, records, r1) && Resolves(cmp, records, r2)
    ensures r1 == r2
  {
    if r1.repo.Some? {
      var k1 :| IsFirstMax(cmp, records, k1) && r1.latest == records[k1].version
                && r1.repo == Some(records[k1].url) && r1.latestRef == FallbackRef(records[k1..]);
      var k2 :| IsFirstMax(cmp, records, k2) && r2.latest == records[k2].version
                && r2.repo == Some(records[k2].url) && r2.latestRef == FallbackRef(records[k2..]);
      FirstMaxUnique(cmp, records, k1, k2);
    }
  }

  lemma {:induction false} FirstMaxUnique(cmp: Comparator, records: seq<VersionRecord>, k1: int, k2: int)
    requires Antisymmetric(cmp)
    requires IsFirstMax(cmp, records, k1) && IsFirstMax(cmp, records, k2)
    ensures k1 == k2
  {
    assert cmp(records[k2].version, records[k1].version) <= 0;
    assert cmp(records[k1].version, records[k2].version) <= 0;
  }

  // ---------------------------------------------------------------- consequences

  /** No record is newer than the resolved version, and that version is the
      sentinel or one of the records' versions. */
  lemma {:induction false} ResolveIsMaximal(cmp: Comparator, records: seq<VersionRecord>)
    requires IsVersionOrder(cmp)
    ensures forall i :: 0 <= i < |records| ==> cmp(records[i].version, Resolve(cmp, records).latest) <= 0
    ensures cmp(Sentinel, Resolve(cmp, records).latest) <= 0
  {
    ResolveMeetsSpec(cmp, records);
  }

  /** A repository URL is found exactly when some record is newer than the
      sentinel; otherwise the resolved version stays the sentinel. */
  lemma {:induction false} RepoIffNewerThanSentinel(cmp: Comparator, records: seq<VersionRecord>)
    requires IsVersionOrder(cmp)
    ensures Resolve(cmp, records).repo.Some? <==>
              exists i :: 0 <= i < |records| && cmp(records[i].version, Sentinel) > 0
    ensures Resolve(cmp, records).repo.None? ==> Resolve(cmp, records).latest == Sentinel
  {
    ResolveMeetsSpec(cmp, records);
  }

  /** Among records whose versions tie with the winner, the earliest one
      supplies the version and the URL. */
  lemma {:induction false} TiesKeepEarliest(cmp: Comparator, records: seq<VersionRecord>)
    requires IsVersionOrder(cmp)
    ensures var r := Resolve(cmp, records);
            r.repo.Some? ==>
              exists k :: && 0 <= k < |records|
                          && r.latest == records[k].version
                          && r.repo == Some(records[k].url)
                          && forall j :: 0 <= j < |records| && cmp(records[j].version, r.latest) == 0 ==> k <= j
  {
    var r := Resolve(cmp, records);
    if r.repo.Some? {
      var k := Winner(cmp, records);
      assert forall j :: 0 <= j < |records| && cmp(records[j].version, r.latest) == 0 ==> k <= j;
    }
  }

  /** The record that supplied the resolved version and URL. */
  lemma {:induction false} Winner(cmp: Comparator, records: seq<VersionRecord>) returns (k: int)
    requires IsVersionOrder(cmp)
    requires Resolve(cmp, records).repo.Some?
    ensures IsFirstMax(cmp, records, k)
    ensures Resolve(cmp, records).latest == records[k].version
    ensures Resolve(cmp, records).repo == Some(records[k].url)
  {
    ResolveMeetsSpec(cmp, records);
    var r := Resolve(cmp, records);
    k :| && IsFirstMax(cmp, records, k)
         && r.latest == records[k].version
         && r.repo == Some(records[k].url)
         && r.latestRef == FallbackRef(records[k..]);
  }

  /** A later record whose version is not newer than the current best leaves
      the version and the URL as they were. */
  lemma {:induction false} NotNewerDoesNotReplace(cmp: Comparator, records: seq<VersionRecord>, rec: VersionRecord)
    requires cmp(rec.version, Resolve(cmp, records).latest) <= 0
    ensures Resolve(cmp, records + [rec]).latest == Resolve(cmp, records).latest
    ensures Resolve(cmp, records + [rec]).repo == Resolve(cmp, records).repo
    ensures Truthy(Resolve(cmp, records).latestRef) ==>
              Resolve(cmp, records + [rec]).latestRef == Resolve(cmp, records).latestRef
  {
    assert (records + [rec])[..|records|] == records;
  }

  /** With no record newer than the sentinel, the first record's truthy
      reference is the one kept. */
  lemma {:induction false} FirstTruthyRefKept(cmp: Comparator, records: seq<VersionRecord>)
    requires IsVersionOrder(cmp)
    requires |records| > 0 && Truthy(records[0].ref)
    requires forall i :: 0 <= i < |records| ==> cmp(records[i].version, Sentinel) <= 0
    ensures Resolve(cmp, records).latestRef == records[0].ref
    ensures Resolve(cmp, records).repo.None?
  {
    ResolveMeetsSpec(cmp, records);
  }

  // ---------------------------------------------------------------- releases with missing sources

  /** Where a release's code lives: the repository URL and the reference
      it was published at (`getReference()` may be null). */
  datatype Source = Source(url: string, ref: Option<string>)

  /** A release as the registry lists it; `getSource()` may be null. */
  datatype Release = Release(version: string, source: Option<Source>)

  /** The releases that have a source, as version records, in order. */
  function Sourced(releases: seq<Release>): (records: seq<VersionRecord>)
    ensures |records| <= |releases|
    ensures (forall i :: 0 <= i < |releases| ==> releases[i].source.Some?) ==> |records| == |releases|
  {
    if |releases| == 0 then []
    else
      var prefix := releases[..|releases| - 1];
      var last := releases[|releases| - 1];
      assert forall i :: 0 <= i < |prefix| ==> prefix[i] == releases[i];
      Sourced(prefix) +
        (if last.source.Some? then [VersionRecord(last.version, last.source.value.url, last.source.value.ref)] else [])
  }

  /** The loop body calls a method on a release's source when the release
      is newer than the best so far (to take its URL and reference) or when
      the reference kept so far is falsy (to take its reference). */
  predicate DereferencesSource(cmp: Comparator, acc: Resolution, version: string)
  {
    cmp(version, acc.latest) > 0 || !Truthy(acc.latestRef)
  }

  /** The loop over the releases as the registry lists them, or None when
      it calls a method on a missing source, which ends the script. A
      release without a source that is not dereferenced changes nothing, so
      a completed loop is the resolver run over the sourced releases. */
  function ResolveReleases(cmp: Comparator, releases: seq<Release>): Option<Resolution>
  {
    if |releases| == 0 then Some(Initial)
    else
      var prev := ResolveReleases(cmp, releases[..|releases| - 1]);
      var last := releases[|releases| - 1];
      if prev.None? then None
      else if last.source.Some? then
        Some(Step(cmp, prev.value, VersionRecord(last.version, last.source.value.url, last.source.value.ref)))
      else if DereferencesSource(cmp, prev.value, last.version) then None
      else prev
  }

  /** A completed loop is the resolver run over the sourced releases: a
      release without a source that is not dereferenced changes nothing. */
  lemma {:induction false} ResolveReleasesSkipsMissing(cmp: Comparator, releases: seq<Release>)
    ensures ResolveReleases(cmp, releases).Some? ==>
              ResolveReleases(cmp, releases).value == Resolve(cmp, Sourced(releases))
  {
    if |releases| > 0 {
      var prefix := releases[..|releases| - 1];
      var last := releases[|releases| - 1];
      ResolveReleasesSkipsMissing(cmp, prefix);
      if last.source.Some? {
        var rec := VersionRecord(last.version, last.source.value.url, last.source.value.ref);
        assert Sourced(releases) == Sourced(prefix) + [rec];
        assert (Sourced(prefix) + [rec])[..|Sourced(prefix)|] == Sourced(prefix);
      } else {
        assert Sourced(releases) == Sourced(prefix);
      }
    }
  }

  /** When every release has a source the loop completes, and it is the
      resolver run over all of them. */
  lemma {:induction false} AllSourcedResolves(cmp: Comparator, releases: seq<Release>)
    requires forall i :: 0 <= i < |releases| ==> releases[i].source.Some?
    ensures ResolveReleases(cmp, releases) == Some(Resolve(cmp, Sourced(releases)))
    ensures |Sourced(releases)| == |releases|
  {
    ResolveReleasesFailsIff(cmp, releases);
    ResolveReleasesSkipsMissing(cmp, releases);
  }

  /** The release at `i` has no source and the loop dereferences it, given
      the state the sourced releases before it leave. */
  predicate FailsAt(cmp: Comparator, releases: seq<Release>, i: int)
    requires 0 <= i < |releases|
  {
    FailsAfter(cmp, releases[..i], releases[i])
  }

  /** `rel` has no source and is dereferenced after the releases `before`. */
  predicate FailsAfter(cmp: Comparator, before: seq<Release>, rel: Release)
  {
    rel.source.None? && DereferencesSource(cmp, Resolve(cmp, Sourced(before)), rel.version)
  }

  /** The loop fails exactly when some release without a source is
      dereferenced. */
  lemma {:induction false} ResolveReleasesFailsIff(cmp: Comparator, releases: seq<Release>)
    ensures ResolveReleases(cmp, releases).None? <==> exists i :: 0 <= i < |releases| && FailsAt(cmp, releases, i)
  {
    if ResolveReleases(cmp, releases).None? {
      var i := FirstFailure(cmp, releases);
    } else {
      forall i | 0 <= i < |releases|
        ensures !FailsAt(cmp, releases, i)
      {
        if FailsAt(cmp, releases, i) {
          FailureStops(cmp, releases, i);
        }
      }
    }
  }

  /** A failed loop failed at some release. */
  lemma {:induction false} FirstFailure(cmp: Comparator, releases: seq<Release>) returns (i: nat)
    requires ResolveReleases(cmp, releases).None?
    ensures i < |releases| && FailsAt(cmp, releases, i)
  {
    var n := |releases| - 1;
    var prefix := releases[..n];
    if ResolveReleases(cmp, prefix).None? {
      i := FirstFailure(cmp, prefix);
      FailsAtPrefix(cmp, releases, n, i);
    } else {
      ResolveReleasesSkipsMissing(cmp, prefix);
      i := n;
      assert releases[..i] == prefix;
    }
  }

  /** A failure at any release fails the loop. */
  lemma {:induction false} FailureStops(cmp: Comparator, releases: seq<Release>, i: nat)
    requires i < |releases| && FailsAt(cmp, releases, i)
    ensures ResolveReleases(cmp, releases).None?
  {
    var n := |releases| - 1;
    var prefix := releases[..n];
    if i < n {
      FailsAtPrefix(cmp, releases, n, i);
      FailureStops(cmp, prefix, i);
    } else if ResolveReleases(cmp, prefix).Some? {
      ResolveReleasesSkipsMissing(cmp, prefix);
      assert releases[..i] == prefix;
    }
  }

  /** Whether the loop fails at `i` depends only on the releases up to `i`. */
  lemma {:induction false} FailsAtPrefix(cmp: Comparator, releases: seq<Release>, n: nat, i: nat)
    requires i < n <= |releases|
    ensures FailsAt(cmp, releases, i) == FailsAt(cmp, releases[..n], i)
  {
    assert releases[..i] == releases[..n][..i] && releases[i] == releases[..n][i];
  }
}
