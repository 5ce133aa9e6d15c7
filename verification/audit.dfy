/** The audit loop of index.php: for each requirement of the manifest, in
    order, packages outside the managed list are skipped; a managed package is
    resolved, reported stale when its latest version is newer than the
    requirement, and, when a repository URL and reference were found, its
    working copy's log from that reference to master is counted. Every
    processed package ends its notices with a "\n" entry. */
module Audit {
  import opened Wrappers
  import opened PhpStrings
  import opened Comparison
  import opened Resolver

  /** One entry of the manifest's `require` object: package name and the
      version constraint it is required at. */
  datatype Requirement = Requirement(name: string, constraint: string)

  /** The Packagist client: the releases of a package, or None when the
      lookup throws. */
  type Registry = string -> Option<seq<Release>>

  /** The git working copy: given its path and a revision range, the
      one-line-per-commit log, or None when cloning, checking out or logging
      throws. */
  type GitLog = (string, string) -> Option<string>

  /** The packages the script audits. */
  const ManagedPackages: seq<string> := [
    "silverstripe/multivaluefield",
    "silverstripe/queuedjobs",
    "silverstripe/restrictedobjects",
    "silverstripe/webservices"
  ]

  const Mainline: string := "master"

  /** `DIRECTORY_SEPARATOR` on a POSIX system. */
  const DirectorySeparator: char := '/'

  /** The entry closing each processed package's notices. */
  const NoticeSeparator: string := "\n"

  // ---------------------------------------------------------------- staleness

  function StaleText(name: string, latest: string, required: string): string
  {
    name + " has a fixed version available " + latest + " (currently " + required + ")"
  }

  /** The staleness notice: present exactly when the latest version compares
      newer than the required one. */
  function StaleNotices(cmp: Comparator, name: string, latest: string, required: string): (ns: seq<string>)
    ensures |ns| <= 1
    ensures |ns| == 1 <==> cmp(latest, required) > 0
    ensures |ns| == 1 ==> ns[0] == StaleText(name, latest, required)
    ensures NoticeSeparator !in ns
  {
    if cmp(latest, required) > 0 then [StaleText(name, latest, required)] else []
  }

  /** A requirement at or above the latest version draws no notice. */
  lemma NoNoticeWhenNotOlder(cmp: Comparator, name: string, latest: string, required: string)
    requires IsVersionOrder(cmp)
    requires cmp(required, latest) >= 0
    ensures StaleNotices(cmp, name, latest, required) == []
  {
  }

  /** Over the resolved records, a package is reported stale exactly when
      some record, or the sentinel itself, is newer than the requirement. */
  lemma {:induction false} StaleIffNewerRecord(cmp: Comparator, name: string, records: seq<VersionRecord>, required: string)
    requires IsVersionOrder(cmp)
    ensures StaleNotices(cmp, name, Resolve(cmp, records).latest, required) != [] <==>
              (cmp(Sentinel, required) > 0 ||
               exists i :: 0 <= i < |records| && cmp(records[i].version, required) > 0)
  {
    var latest := Resolve(cmp, records).latest;
    if cmp(latest, required) > 0 {
      if latest != Sentinel {
        var i :| 0 <= i < |records| && records[i].version == latest;
        assert cmp(records[i].version, required) > 0;
      }
    } else {
      ResolveIsMaximal(cmp, records);
      NothingNewerThanRequired(cmp, records, latest, required);
    }
  }

  /** When the best version is not newer than the requirement, neither is
      any record nor the sentinel. */
  lemma {:induction false} NothingNewerThanRequired(cmp: Comparator, records: seq<VersionRecord>, latest: string, required: string)
    requires IsVersionOrder(cmp)
    requires forall i :: 0 <= i < |records| ==> cmp(records[i].version, latest) <= 0
    requires cmp(Sentinel, latest) <= 0
    requires cmp(latest, required) <= 0
    ensures cmp(Sentinel, required) <= 0
    ensures forall i :: 0 <= i < |records| ==> cmp(records[i].version, required) <= 0
  {
    forall i | 0 <= i < |records|
      ensures cmp(records[i].version, required) <= 0
    {
      NotNewerTransitive(cmp, records[i].version, latest, required);
    }
    NotNewerTransitive(cmp, Sentinel, latest, required);
  }

  // ---------------------------------------------------------------- drift

  /** The commit count reported for a log: the number of pieces of the
      trimmed log split at line feeds. */
  function CommitCount(log: string): (n: nat)
    ensures n == 1 + Occurrences('\n', Trim(log))
  {
    |Explode('\n', Trim(log))|
  }

  /** A trimmed log of `k` lines counts `k` commits. */
  lemma {:induction false} CommitCountOfLines(log: string, lines: seq<string>)
    requires |lines| >= 1
    requires forall l :: l in lines ==> '\n' !in l
    requires Trim(log) == Implode('\n', lines)
    ensures CommitCount(log) == |lines|
  {
    ExplodeImplode('\n', lines);
  }

  function DriftText(name: string, count: nat, latest: string, ref: string): string
  {
    name + ": " + NatToString(count) + " commits found between " + latest + " (" + ref + ") and " + Mainline
  }

  /** The drift notices for a log: the count line and the trimmed log. The
      count is never below one, so both are always produced. */
  function DriftNotices(name: string, latest: string, ref: string, log: string): (ns: seq<string>)
    ensures |ns| == 2
    ensures ns[0] == DriftText(name, 1 + Occurrences('\n', Trim(log)), latest, ref)
    ensures ns[1] == Trim(log)
    ensures NoticeSeparator !in ns
  {
    var out := Trim(log);
    var count := CommitCount(log);
    if count > 0 then
      assert out != NoticeSeparator by {
        if |out| == 1 { assert !IsTrimChar(out[0]); }
      }
      [DriftText(name, count, latest, ref), out]
    else []
  }

  // ---------------------------------------------------------------- one package

  /** Where the package's working copy lives: the workspace, a separator and
      the last component of the package name (`basename` is applied twice,
      which is the same as once). */
  function WorkingCopyPath(workspace: string, name: string): (path: string)
    ensures path == workspace + [DirectorySeparator] + Basename(name)
    ensures DirectorySeparator !in path[|workspace| + 1..]
  {
    BasenameIdempotent(name);
    var path := workspace + [DirectorySeparator] + Basename(Basename(name));
    assert path[|workspace| + 1..] == Basename(name);
    path
  }

  /** The commits on master that `ref` does not reach. */
  function RevisionRange(ref: string): string
  {
    ref + ".." + Mainline
  }

  /** Closes a package's notices with the separator entry. */
  function CloseBlock(ns: seq<string>): (r: seq<string>)
    requires NoticeSeparator !in ns
    ensures |r| == |ns| + 1 && r[..|ns|] == ns && r[|ns|] == NoticeSeparator
    ensures Occurrences(NoticeSeparator, r) == 1
  {
    OccurrencesAbsent(NoticeSeparator, ns);
    OccurrencesAppend(NoticeSeparator, ns, [NoticeSeparator]);
    ns + [NoticeSeparator]
  }

  /** The notices of one managed package once its versions are resolved,
      given the path of its working copy: the staleness notice if any, the
      drift notices of the log from the reference to master when both URL
      and reference are truthy, and the separator; None when git throws. */
  function ResolvedNotices(cmp: Comparator, req: Requirement, res: Resolution,
                           gitLog: GitLog, path: string): (r: Option<seq<string>>)
    ensures r.None? <==>
              Truthy(res.repo) && Truthy(res.latestRef) && gitLog(path, RevisionRange(res.latestRef.value)).None?
    ensures r.Some? ==> |r.value| >= 1 && r.value[|r.value| - 1] == NoticeSeparator
    ensures r.Some? ==> Occurrences(NoticeSeparator, r.value) == 1
    ensures r.Some? ==>
              var stale := StaleNotices(cmp, req.name, res.latest, req.constraint);
              var audited := Truthy(res.repo) && Truthy(res.latestRef);
              && r.value[..|stale|] == stale
              && |r.value| == |stale| + (if audited then 2 else 0) + 1
              && (audited ==>
                    r.value[|stale|..|stale| + 2] ==
                      DriftNotices(req.name, res.latest, res.latestRef.value,
                                   gitLog(path, RevisionRange(res.latestRef.value)).value))
  {
    var stale := StaleNotices(cmp, req.name, res.latest, req.constraint);
    if Truthy(res.repo) && Truthy(res.latestRef) then
      var log := gitLog(path, RevisionRange(res.latestRef.value));
      if log.None? then None
      else
        var drift := DriftNotices(req.name, res.latest, res.latestRef.value, log.value);
        assert NoticeSeparator !in stale + drift by {
          assert forall x :: x in stale + drift ==> x in stale || x in drift;
        }
        var r := CloseBlock(stale + drift);
        assert r[..|stale|] == (stale + drift)[..|stale|];
        assert r[|stale|..|stale| + 2] == (stale + drift)[|stale|..];
        Some(r)
    else
      Some(CloseBlock(stale))
  }

  /** The notices of one managed package, or None when the registry throws,
      a missing source is dereferenced, or git throws (each ends the script
      before anything is printed). */
  function PackageNotices(cmp: Comparator, req: Requirement, versions: Option<seq<Release>>,
                          gitLog: GitLog, workspace: string): (r: Option<seq<string>>)
    ensures versions.None? ==> r.None?
    ensures r.Some? ==> Occurrences(NoticeSeparator, r.value) == 1
    ensures r.Some? ==> |r.value| >= 1 && r.value[|r.value| - 1] == NoticeSeparator
  {
    if versions.None? then None
    else
      var res := ResolveReleases(cmp, versions.value);
      if res.None? then None
      else ResolvedNotices(cmp, req, res.value, gitLog, WorkingCopyPath(workspace, req.name))
  }

  /** What decides one package's outcome: it fails exactly when the
      registry throws, a missing source is dereferenced, or git throws on the
      log from the resolved reference to master in the package's working
      copy; otherwise its notices are those of the resolution. */
  lemma {:induction false} PackageOutcome(cmp: Comparator, req: Requirement, versions: Option<seq<Release>>,
                                          gitLog: GitLog, workspace: string)
    ensures var r := PackageNotices(cmp, req, versions, gitLog, workspace);
            && (r.None? <==>
                  || versions.None?
                  || ResolveReleases(cmp, versions.value).None?
                  || (var res := ResolveReleases(cmp, versions.value).value;
                      && Truthy(res.repo) && Truthy(res.latestRef)
                      && gitLog(WorkingCopyPath(workspace, req.name), RevisionRange(res.latestRef.value)).None?))
            && (r.Some? ==>
                  r == ResolvedNotices(cmp, req, ResolveReleases(cmp, versions.value).value,
                                       gitLog, WorkingCopyPath(workspace, req.name)))
  {
  }

  // ---------------------------------------------------------------- the whole manifest

  /** The requirements the loop processes, in manifest order. */
  function Managed(managed: seq<string>, reqs: seq<Requirement>): (r: seq<Requirement>)
    ensures |r| <= |reqs|
  {
    if |reqs| == 0 then []
    else
      var last := reqs[|reqs| - 1];
      Managed(managed, reqs[..|reqs| - 1]) + (if last.name in managed then [last] else [])
  }

  /** The kept requirements are exactly the manifest's requirements whose
      names are managed. */
  lemma {:induction false} ManagedMembers(managed: seq<string>, reqs: seq<Requirement>)
    ensures forall q :: q in Managed(managed, reqs) <==> q in reqs && q.name in managed
  {
    if |reqs| > 0 {
      var prefix := reqs[..|reqs| - 1];
      var last := reqs[|reqs| - 1];
      ManagedMembers(managed, prefix);
      assert reqs == prefix + [last];
      forall q
        ensures q in Managed(managed, reqs) <==> q in reqs && q.name in managed
      {
        assert q in reqs <==> q in prefix || q == last;
      }
    }
  }

  /** A single requirement is kept exactly when its name is managed. */
  lemma {:induction false} ManagedSingle(managed: seq<string>, q: Requirement)
    ensures Managed(managed, [q]) == if q.name in managed then [q] else []
  {
    assert [q][..0] == [];
  }

  /** Filtering distributes over concatenation, so the kept requirements
      keep their manifest order and each appears once per occurrence. */
  lemma {:induction false} ManagedAppend(managed: seq<string>, a: seq<Requirement>, b: seq<Requirement>)
    ensures Managed(managed, a + b) == Managed(managed, a) + Managed(managed, b)
  {
    if |b| == 0 {
      assert a + b == a;
    } else {
      var b' := b[..|b| - 1];
      var last := b[|b| - 1];
      var keep := if last.name in managed then [last] else [];
      ManagedAppend(managed, a, b');
      assert (a + b)[..|a + b| - 1] == a + b';
      assert (a + b)[|a + b| - 1] == last;
      assert Managed(managed, a + b) == Managed(managed, a + b') + keep;
      assert Managed(managed, b) == Managed(managed, b') + keep;
      assert (Managed(managed, a) + Managed(managed, b')) + keep ==
             Managed(managed, a) + (Managed(managed, b') + keep);
    }
  }

  /** The loop over the manifest for any way of producing a package's
      block: requirements outside `managed` are skipped, the others' blocks
      are appended in manifest order, and the first failure fails the run. */
  function Run(block: Requirement -> Option<seq<string>>, managed: seq<string>, reqs: seq<Requirement>)
    : Option<seq<string>>
  {
    if |reqs| == 0 then Some([])
    else
      var prev := Run(block, managed, reqs[..|reqs| - 1]);
      var req := reqs[|reqs| - 1];
      if prev.None? then None
      else if req.name !in managed then prev
      else if block(req).None? then None
      else Some(prev.value + block(req).value)
  }

  /** The block of one requirement: its package's notices. */
  function PackageBlock(cmp: Comparator, registry: Registry, gitLog: GitLog, workspace: string)
    : Requirement -> Option<seq<string>>
  {
    (q: Requirement) => PackageNotices(cmp, q, registry(q.name), gitLog, workspace)
  }

  /** The notices of the whole run, or None when a collaborator throws. */
  function RunAudit(cmp: Comparator, managed: seq<string>, reqs: seq<Requirement>,
                    registry: Registry, gitLog: GitLog, workspace: string): Option<seq<string>>
  {
    Run(PackageBlock(cmp, registry, gitLog, workspace), managed, reqs)
  }

  /** A completed run holds one separator per managed requirement, and the
      run fails exactly when some managed requirement's package fails. */
  lemma {:induction false} RunAuditShape(cmp: Comparator, managed: seq<string>, reqs: seq<Requirement>,
                                         registry: Registry, gitLog: GitLog, workspace: string)
    ensures var r := RunAudit(cmp, managed, reqs, registry, gitLog, workspace);
            && (r.Some? ==> Occurrences(NoticeSeparator, r.value) == |Managed(managed, reqs)|)
            && (r.None? <==>
                  exists i :: && 0 <= i < |reqs|
                              && reqs[i].name in managed
                              && PackageNotices(cmp, reqs[i], registry(reqs[i].name), gitLog, workspace).None?)
  {
    var block := PackageBlock(cmp, registry, gitLog, workspace);
    assert forall q :: block(q) == PackageNotices(cmp, q, registry(q.name), gitLog, workspace);
    RunShape(block, managed, reqs);
  }

  /** With blocks that each hold one separator, a completed run holds one
      per managed requirement, and the run fails exactly when a managed
      requirement's block does. */
  lemma {:induction false} RunShape(block: Requirement -> Option<seq<string>>, managed: seq<string>, reqs: seq<Requirement>)
    requires forall q :: block(q).Some? ==> Occurrences(NoticeSeparator, block(q).value) == 1
    ensures var r := Run(block, managed, reqs);
            && (r.Some? ==> Occurrences(NoticeSeparator, r.value) == |Managed(managed, reqs)|)
            && (r.None? <==> exists i :: 0 <= i < |reqs| && reqs[i].name in managed && block(reqs[i]).None?)
  {
    if |reqs| > 0 {
      var prefix := reqs[..|reqs| - 1];
      var req := reqs[|reqs| - 1];
      RunShape(block, managed, prefix);
      assert forall i :: 0 <= i < |prefix| ==> prefix[i] == reqs[i];
      var prev := Run(block, managed, prefix);
      if prev.Some? && req.name in managed && block(req).Some? {
        OccurrencesAppend(NoticeSeparator, prev.value, block(req).value);
      }
    }
  }

  /** Requirements outside the managed list contribute nothing. */
  lemma {:induction false} RunAuditIgnoresUnmanaged(cmp: Comparator, managed: seq<string>, reqs: seq<Requirement>,
                                                    registry: Registry, gitLog: GitLog, workspace: string)
    ensures RunAudit(cmp, managed, reqs, registry, gitLog, workspace) ==
              RunAudit(cmp, managed, Managed(managed, reqs), registry, gitLog, workspace)
  {
    RunIgnoresUnmanaged(PackageBlock(cmp, registry, gitLog, workspace), managed, reqs);
  }

  lemma {:induction false} RunIgnoresUnmanaged(block: Requirement -> Option<seq<string>>, managed: seq<string>,
                                               reqs: seq<Requirement>)
    ensures Run(block, managed, reqs) == Run(block, managed, Managed(managed, reqs))
  {
    if |reqs| > 0 {
      var prefix := reqs[..|reqs| - 1];
      var req := reqs[|reqs| - 1];
      RunIgnoresUnmanaged(block, managed, prefix);
      var m := Managed(managed, prefix);
      assert Run(block, managed, prefix) == Run(block, managed, m);
      if req.name in managed {
        assert Managed(managed, reqs) == m + [req];
        assert (m + [req])[..|m|] == m;
        assert (m + [req])[|m|] == req;
        assert Run(block, managed, m + [req]) ==
                 if Run(block, managed, m).None? || block(req).None? then None
                 else Some(Run(block, managed, m).value + block(req).value);
      } else {
        assert Managed(managed, reqs) == m;
        assert Run(block, managed, reqs) == Run(block, managed, prefix);
      }
    }
  }

  /** Notices only accumulate: the notices of a leading part of the
      manifest come first, unchanged, in the notices of the whole. */
  lemma {:induction false} RunAuditAppendOnly(cmp: Comparator, managed: seq<string>, reqs: seq<Requirement>,
                                              registry: Registry, gitLog: GitLog, workspace: string, n: nat)
    requires n <= |reqs|
    requires RunAudit(cmp, managed, reqs, registry, gitLog, workspace).Some?
    ensures RunAudit(cmp, managed, reqs[..n], registry, gitLog, workspace).Some?
    ensures RunAudit(cmp, managed, reqs[..n], registry, gitLog, workspace).value <=
              RunAudit(cmp, managed, reqs, registry, gitLog, workspace).value
  {
    RunAppendOnly(PackageBlock(cmp, registry, gitLog, workspace), managed, reqs, n);
  }

  lemma {:induction false} RunAppendOnly(block: Requirement -> Option<seq<string>>, managed: seq<string>,
                                         reqs: seq<Requirement>, n: nat)
    requires n <= |reqs|
    requires Run(block, managed, reqs).Some?
    ensures Run(block, managed, reqs[..n]).Some?
    ensures Run(block, managed, reqs[..n]).value <= Run(block, managed, reqs).value
  {
    if n < |reqs| {
      var prefix := reqs[..|reqs| - 1];
      assert prefix[..n] == reqs[..n];
      RunAppendOnly(block, managed, prefix, n);
    } else {
      assert reqs[..n] == reqs;
    }
  }

  // ---------------------------------------------------------------- the run as a sequence of blocks

  /** The notices of the given requirements, one block after another in
      their order, or None when any block is None. */
  function Blocks(block: Requirement -> Option<seq<string>>, reqs: seq<Requirement>): Option<seq<string>>
  {
    if |reqs| == 0 then Some([])
    else
      var head := block(reqs[0]);
      var rest := Blocks(block, reqs[1..]);
      if head.None? || rest.None? then None else Some(head.value + rest.value)
  }

  lemma {:induction false} BlocksAppend(block: Requirement -> Option<seq<string>>, reqs: seq<Requirement>, q: Requirement)
    ensures var prev := Blocks(block, reqs);
            Blocks(block, reqs + [q]) ==
              if prev.None? || block(q).None? then None else Some(prev.value + block(q).value)
  {
    if |reqs| == 0 {
      assert reqs + [q] == [q] && [q][1..] == [];
      if block(q).Some? {
        assert block(q).value + [] == [] + block(q).value;
      }
    } else {
      assert (reqs + [q])[0] == reqs[0];
      assert (reqs + [q])[1..] == reqs[1..] + [q];
      BlocksAppend(block, reqs[1..], q);
      var head := block(reqs[0]);
      var rest := Blocks(block, reqs[1..]);
      if head.Some? && rest.Some? && block(q).Some? {
        assert head.value + (rest.value + block(q).value) == (head.value + rest.value) + block(q).value;
      }
    }
  }

  /** The run's notices are the blocks of the managed requirements, in
      manifest order, and the run fails exactly when one of them does. */
  lemma {:induction false} RunAuditIsBlocks(cmp: Comparator, managed: seq<string>, reqs: seq<Requirement>,
                                            registry: Registry, gitLog: GitLog, workspace: string)
    ensures RunAudit(cmp, managed, reqs, registry, gitLog, workspace) ==
              Blocks(PackageBlock(cmp, registry, gitLog, workspace), Managed(managed, reqs))
  {
    RunIsBlocks(PackageBlock(cmp, registry, gitLog, workspace), managed, reqs);
  }

  lemma {:induction false} RunIsBlocks(block: Requirement -> Option<seq<string>>, managed: seq<string>,
                                       reqs: seq<Requirement>)
    ensures Run(block, managed, reqs) == Blocks(block, Managed(managed, reqs))
  {
    if |reqs| > 0 {
      var prefix := reqs[..|reqs| - 1];
      var req := reqs[|reqs| - 1];
      RunIsBlocks(block, managed, prefix);
      if req.name in managed {
        assert Managed(managed, reqs) == Managed(managed, prefix) + [req];
        BlocksAppend(block, Managed(managed, prefix), req);
      } else {
        assert Managed(managed, reqs) == Managed(managed, prefix);
      }
    }
  }

  /** Where a managed requirement's block sits in a completed run. */
  lemma {:induction false} BlockPosition(block: Requirement -> Option<seq<string>>, managed: seq<string>,
                                         reqs: seq<Requirement>, i: nat)
    returns (p: nat)
    requires i < |reqs| && reqs[i].name in managed
    requires Run(block, managed, reqs).Some?
    ensures block(reqs[i]).Some?
    ensures p + |block(reqs[i]).value| <= |Run(block, managed, reqs).value|
    ensures Run(block, managed, reqs).value[p..p + |block(reqs[i]).value|] == block(reqs[i]).value
  {
    var upto := reqs[..i + 1];
    RunAppendOnly(block, managed, reqs, i + 1);
    assert upto[..i] == reqs[..i] && upto[i] == reqs[i];
    var before := Run(block, managed, reqs[..i]);
    var b := block(reqs[i]).value;
    var head := before.value + b;
    assert Run(block, managed, upto).value == head;
    var out := Run(block, managed, reqs).value;
    p := |before.value|;
    assert out[..|head|] == head;
    assert out[p..p + |b|] == head[p..];
  }

  /** A staleness notice is never mistaken for a drift count line or for
      the separator. */
  lemma {:induction false} StaleTextIsDistinct(name: string, latest: string, required: string,
                                               count: nat, latest': string, ref: string)
    ensures StaleText(name, latest, required) != DriftText(name, count, latest', ref)
    ensures StaleText(name, latest, required) != NoticeSeparator
  {
    assert StaleText(name, latest, required)[|name|] == ' ';
    assert DriftText(name, count, latest', ref)[|name|] == ':';
  }

  /** A package's block opens with the staleness notice exactly when the
      resolved version is newer than the requirement. */
  lemma {:induction false} BlockOpensWithStaleness(cmp: Comparator, req: Requirement, res: Resolution,
                                                   gitLog: GitLog, path: string)
    requires ResolvedNotices(cmp, req, res, gitLog, path).Some?
    ensures (ResolvedNotices(cmp, req, res, gitLog, path).value[0] == StaleText(req.name, res.latest, req.constraint))
              <==> cmp(res.latest, req.constraint) > 0
  {
    var r := ResolvedNotices(cmp, req, res, gitLog, path).value;
    var stale := StaleNotices(cmp, req.name, res.latest, req.constraint);
    if stale == [] {
      if Truthy(res.repo) && Truthy(res.latestRef) {
        var log := gitLog(path, RevisionRange(res.latestRef.value)).value;
        assert r[0] == r[0..2][0];
        StaleTextIsDistinct(req.name, res.latest, req.constraint,
                            1 + Occurrences('\n', Trim(log)), res.latest, res.latestRef.value);
      } else {
        StaleTextIsDistinct(req.name, res.latest, req.constraint, 0, "", "");
      }
    } else {
      assert r[0] == r[..1][0];
    }
  }

  /** End to end: a managed requirement's notices appear in the run's
      notices as one contiguous block, and that block opens with the
      staleness notice exactly when the version resolved from the registry's
      releases is newer than the requirement. */
  lemma {:induction false} StaleNoticeInRun(cmp: Comparator, managed: seq<string>, reqs: seq<Requirement>,
                                            registry: Registry, gitLog: GitLog, workspace: string, i: nat)
    requires i < |reqs| && reqs[i].name in managed
    requires RunAudit(cmp, managed, reqs, registry, gitLog, workspace).Some?
    ensures registry(reqs[i].name).Some?
    ensures ResolveReleases(cmp, registry(reqs[i].name).value).Some?
    ensures var out := RunAudit(cmp, managed, reqs, registry, gitLog, workspace).value;
            var res := ResolveReleases(cmp, registry(reqs[i].name).value).value;
            var block := PackageNotices(cmp, reqs[i], registry(reqs[i].name), gitLog, workspace);
            && block.Some?
            && exists p :: && 0 <= p && p + |block.value| <= |out|
                           && out[p..p + |block.value|] == block.value
                           && (out[p] == StaleText(reqs[i].name, res.latest, reqs[i].constraint) <==>
                                 cmp(res.latest, reqs[i].constraint) > 0)
  {
    var req := reqs[i];
    var block := PackageBlock(cmp, registry, gitLog, workspace);
    assert block(req) == PackageNotices(cmp, req, registry(req.name), gitLog, workspace);
    var _ := BlockPosition(block, managed, reqs, i);
    PackageOpensWithStaleness(cmp, req, registry(req.name), gitLog, workspace);
    var res := ResolveReleases(cmp, registry(req.name).value).value;
    BlockOpensAt(block, managed, reqs, i, StaleText(req.name, res.latest, req.constraint),
                 cmp(res.latest, req.constraint) > 0);
  }

  /** A managed requirement's block, when it opens with `opener` exactly if
      `holds`, sits in a completed run at a position holding `opener`
      exactly if `holds`. */
  lemma {:induction false} BlockOpensAt(block: Requirement -> Option<seq<string>>, managed: seq<string>,
                                        reqs: seq<Requirement>, i: nat, opener: string, holds: bool)
    requires i < |reqs| && reqs[i].name in managed
    requires Run(block, managed, reqs).Some?
    requires block(reqs[i]).Some? ==> |block(reqs[i]).value| > 0 && (block(reqs[i]).value[0] == opener <==> holds)
    ensures block(reqs[i]).Some?
    ensures var out := Run(block, managed, reqs).value;
            var b := block(reqs[i]).value;
            exists p :: && 0 <= p && p + |b| <= |out|
                        && out[p..p + |b|] == b
                        && (out[p] == opener <==> holds)
  {
    var p := BlockPosition(block, managed, reqs, i);
    var out := Run(block, managed, reqs).value;
    var b := block(reqs[i]).value;
    assert out[p] == out[p..p + |b|][0];
  }

  /** A package's completed block opens with the staleness notice exactly
      when the version resolved from its releases is newer than the
      requirement. */
  lemma {:induction false} PackageOpensWithStaleness(cmp: Comparator, req: Requirement, versions: Option<seq<Release>>,
                                                     gitLog: GitLog, workspace: string)
    requires PackageNotices(cmp, req, versions, gitLog, workspace).Some?
    ensures versions.Some? && ResolveReleases(cmp, versions.value).Some?
    ensures |PackageNotices(cmp, req, versions, gitLog, workspace).value| > 0
    ensures var res := ResolveReleases(cmp, versions.value).value;
            (PackageNotices(cmp, req, versions, gitLog, workspace).value[0] ==
               StaleText(req.name, res.latest, req.constraint))
              <==> cmp(res.latest, req.constraint) > 0
  {
    PackageOutcome(cmp, req, versions, gitLog, workspace);
    var res := ResolveReleases(cmp, versions.value).value;
    BlockOpensWithStaleness(cmp, req, res, gitLog, WorkingCopyPath(workspace, req.name));
  }
}
