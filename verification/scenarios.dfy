/** The resolver and the staleness check, proved on concrete data with
    the numeric dot comparator. */
module Scenarios {
  import opened Wrappers
  import opened PhpStrings
  import opened Comparison
  import opened Resolver
  import opened Audit

  lemma {:induction false} SegmentsOfThreePart(a: string, b: string, c: string)
    requires '.' !in a && '.' !in b && '.' !in c
    ensures Segments(a + ['.'] + (b + ['.'] + c)) == [DigitsValue(a), DigitsValue(b), DigitsValue(c)]
  {
    ExplodeThree(a, b, c);
  }

  lemma {:induction false} ExplodeThree(a: string, b: string, c: string)
    requires '.' !in a && '.' !in b && '.' !in c
    ensures Explode('.', a + ['.'] + (b + ['.'] + c)) == [a, b, c]
  {
    ExplodeNoSeparator('.', c);
    ExplodePrefix('.', b, c);
    ExplodePrefix('.', a, b + ['.'] + c);
  }

  lemma {:induction false} DigitValues()
    ensures DigitsValue("0") == 0 && DigitsValue("1") == 1
    ensures DigitsValue("2") == 2 && DigitsValue("9") == 9
  {
    assert "0"[..0] == "" && "1"[..0] == "" && "2"[..0] == "" && "9"[..0] == "";
  }

  lemma {:induction false} ScenarioComparisons()
    ensures NumericDotCompare("1.0.0", Sentinel) == 1
    ensures NumericDotCompare("1.2.0", "1.0.0") == 1
    ensures NumericDotCompare("0.9.0", "1.2.0") == -1
    ensures NumericDotCompare("0.9.0", "1.0.0") == -1
  {
    DigitValues();
    SegmentsOfThreePart("1", "0", "0");
    SegmentsOfThreePart("1", "2", "0");
    SegmentsOfThreePart("0", "9", "0");
    assert "1" + ['.'] + ("0" + ['.'] + "0") == "1.0.0";
    assert "1" + ['.'] + ("2" + ['.'] + "0") == "1.2.0";
    assert "0" + ['.'] + ("9" + ['.'] + "0") == "0.9.0";
    assert Segments("0") == [0] by { ExplodeNoSeparator('.', "0"); }
    assert LexCompare([1, 2, 0], [1, 0, 0]) == 1 by {
      assert [1, 2, 0][1..] == [2, 0] && [1, 0, 0][1..] == [0, 0];
    }
  }

  /** A registry listing 1.0.0, 1.2.0 and 0.9.0 resolves to 1.2.0, taking
      that record's URL and reference, and a requirement of 1.0.0 is
      reported stale. */
  lemma {:induction false} NewestOfThree()
    ensures var records := [VersionRecord("1.0.0", "u1", Some("r1")),
                            VersionRecord("1.2.0", "u2", Some("r2")),
                            VersionRecord("0.9.0", "u3", Some("r3"))];
            var res := Resolve(NumericDotCompare, records);
            && res == Resolution("1.2.0", Some("u2"), Some("r2"))
            && StaleNotices(NumericDotCompare, "pkg", res.latest, "1.0.0") ==
                 [StaleText("pkg", "1.2.0", "1.0.0")]
  {
    var r0 := VersionRecord("1.0.0", "u1", Some("r1"));
    var r1 := VersionRecord("1.2.0", "u2", Some("r2"));
    var r2 := VersionRecord("0.9.0", "u3", Some("r3"));
    ScenarioComparisons();
    var a1 := ScenarioFirstTwoSteps(r0, r1);
    ScenarioLastStep(a1, r2);
    ResolveThree(NumericDotCompare, r0, r1, r2);
    ScenarioStale();
  }

  lemma {:induction false} ScenarioLastStep(a1: Resolution, r2: VersionRecord)
    requires a1 == Resolution("1.2.0", Some("u2"), Some("r2")) && r2 == VersionRecord("0.9.0", "u3", Some("r3"))
    requires NumericDotCompare("0.9.0", "1.2.0") == -1
    ensures Step(NumericDotCompare, a1, r2) == a1
  {
    assert Truthy(Some("r2"));
  }

  lemma {:induction false} ScenarioStale()
    requires NumericDotCompare("1.2.0", "1.0.0") == 1
    ensures StaleNotices(NumericDotCompare, "pkg", "1.2.0", "1.0.0") == [StaleText("pkg", "1.2.0", "1.0.0")]
  {
  }

  lemma {:induction false} ScenarioFirstTwoSteps(r0: VersionRecord, r1: VersionRecord) returns (a1: Resolution)
    requires r0 == VersionRecord("1.0.0", "u1", Some("r1")) && r1 == VersionRecord("1.2.0", "u2", Some("r2"))
    requires NumericDotCompare("1.0.0", Sentinel) == 1 && NumericDotCompare("1.2.0", "1.0.0") == 1
    ensures a1 == Step(NumericDotCompare, Step(NumericDotCompare, Initial, r0), r1)
    ensures a1 == Resolution("1.2.0", Some("u2"), Some("r2"))
  {
    var a0 := Step(NumericDotCompare, Initial, r0);
    assert Truthy(Some("r1")) && Truthy(Some("r2"));
    assert a0 == Resolution("1.0.0", Some("u1"), Some("r1"));
    a1 := Step(NumericDotCompare, a0, r1);
  }

  /** Resolving three records is three steps of the loop. */
  lemma {:induction false} ResolveThree(cmp: Comparator, r0: VersionRecord, r1: VersionRecord, r2: VersionRecord)
    ensures Resolve(cmp, [r0, r1, r2]) == Step(cmp, Step(cmp, Step(cmp, Initial, r0), r1), r2)
  {
    assert [r0, r1, r2][..2] == [r0, r1];
    assert [r0, r1][..1] == [r0];
    assert [r0][..0] == [];
    assert Resolve(cmp, [r0]) == Step(cmp, Initial, r0);
    assert Resolve(cmp, [r0, r1]) == Step(cmp, Resolve(cmp, [r0]), r1);
    assert Resolve(cmp, [r0, r1, r2]) == Step(cmp, Resolve(cmp, [r0, r1]), r2);
  }

  /** A requirement on a package outside the managed list produces no
      notices and consults no collaborator. */
  lemma {:induction false} UnmanagedRequirementIgnored(cmp: Comparator, registry: Registry, gitLog: GitLog, workspace: string)
    ensures RunAudit(cmp, ManagedPackages, [Requirement("silverstripe/framework", "3.1.0")],
                  registry, gitLog, workspace) == Some([])
  {
    var req := Requirement("silverstripe/framework", "3.1.0");
    assert [req][..0] == [];
    assert req.name !in ManagedPackages by {
      assert forall m :: m in ManagedPackages ==> m[13] != 'f';
    }
  }

  /** An empty log, once trimmed, still reports one commit: `explode` of an
      empty string yields one piece. */
  lemma {:induction false} EmptyLogReportsOneCommit(name: string, latest: string, ref: string)
    ensures DriftNotices(name, latest, ref, " \n")[0] == DriftText(name, 1, latest, ref)
  {
    assert TrimStart(" \n", 0) == 2;
    assert Trim(" \n") == "";
  }

  /** A log of three one-line commits counts three. */
  lemma {:induction false} ThreeCommitsCountThree()
    ensures CommitCount("a1 fix\nb2 add\nc3 bump\n") == 3
  {
    var lines := ["a1 fix", "b2 add", "c3 bump"];
    ThreeLinesTrimmed();
    ThreeLinesJoined();
    CommitCountOfLines("a1 fix\nb2 add\nc3 bump\n", lines);
  }

  lemma {:induction false} ThreeLinesTrimmed()
    ensures Trim("a1 fix\nb2 add\nc3 bump\n") == "a1 fix\nb2 add\nc3 bump"
  {
    var log := "a1 fix\nb2 add\nc3 bump\n";
    assert TrimStart(log, 0) == 0;
    assert TrimEnd(log, 0, |log|) == |log| - 1;
    assert log[0..|log| - 1] == "a1 fix\nb2 add\nc3 bump";
  }

  lemma {:induction false} ThreeLinesJoined()
    ensures Implode('\n', ["a1 fix", "b2 add", "c3 bump"]) == "a1 fix\nb2 add\nc3 bump"
  {
    var lines := ["a1 fix", "b2 add", "c3 bump"];
    assert lines[1..] == ["b2 add", "c3 bump"];
    assert lines[1..][1..] == ["c3 bump"];
  }

  /** A release without a source that is newer than everything before it
      ends the script: its URL is read from the missing source. */
  lemma {:induction false} MissingSourceAborts()
    ensures ResolveReleases(NumericDotCompare, [Release("1.0.0", None)]).None?
  {
    ScenarioComparisons();
    assert [Release("1.0.0", None)][..0] == [];
  }

  /** A release without a source that is older than the best so far, once a
      truthy reference is held, is passed over. */
  lemma {:induction false} MissingSourceSkipped()
    ensures ResolveReleases(NumericDotCompare,
                            [Release("1.0.0", Some(Source("u1", Some("r1")))), Release("0.9.0", None)]) ==
              Some(Resolution("1.0.0", Some("u1"), Some("r1")))
  {
    ScenarioComparisons();
    SkipOlderMissingSource(NumericDotCompare);
  }

  lemma {:induction false} SkipOlderMissingSource(cmp: Comparator)
    requires cmp("1.0.0", Sentinel) > 0 && cmp("0.9.0", "1.0.0") <= 0
    ensures ResolveReleases(cmp, [Release("1.0.0", Some(Source("u1", Some("r1")))), Release("0.9.0", None)]) ==
              Some(Resolution("1.0.0", Some("u1"), Some("r1")))
  {
    var rs := [Release("1.0.0", Some(Source("u1", Some("r1")))), Release("0.9.0", None)];
    assert rs[..1][..0] == [] && rs[..1] == [rs[0]];
    assert Truthy(Some("r1"));
    assert ResolveReleases(cmp, rs[..1]) == Some(Resolution("1.0.0", Some("u1"), Some("r1")));
  }

  /** A newest release whose reference is null leaves no reference to audit,
      so no drift is reported for it. */
  lemma {:induction false} NullReferenceIsNotAudited(name: string, gitLog: GitLog, path: string)
    ensures var res := Resolve(NumericDotCompare, [VersionRecord("1.0.0", "u1", None)]);
            && res == Resolution("1.0.0", Some("u1"), None)
            && ResolvedNotices(NumericDotCompare, Requirement(name, "1.0.0"), res, gitLog, path) == Some([NoticeSeparator])
  {
    ScenarioComparisons();
    Reflexive(NumericDotCompare, "1.0.0") by { NumericDotIsVersionOrder(); }
    NullReferenceResolved(NumericDotCompare, name, gitLog, path);
  }

  lemma {:induction false} NullReferenceResolved(cmp: Comparator, name: string, gitLog: GitLog, path: string)
    requires cmp("1.0.0", Sentinel) > 0 && cmp("1.0.0", "1.0.0") == 0
    ensures var res := Resolve(cmp, [VersionRecord("1.0.0", "u1", None)]);
            && res == Resolution("1.0.0", Some("u1"), None)
            && ResolvedNotices(cmp, Requirement(name, "1.0.0"), res, gitLog, path) == Some([NoticeSeparator])
  {
    assert [VersionRecord("1.0.0", "u1", None)][..0] == [];
  }

  /** A newest release whose URL is "0" wins, but PHP reads "0" as false, so
      its drift is not audited either. */
  lemma {:induction false} ZeroUrlIsNotAudited(name: string, gitLog: GitLog, path: string)
    ensures var res := Resolve(NumericDotCompare, [VersionRecord("1.0.0", "0", Some("r1"))]);
            && res == Resolution("1.0.0", Some("0"), Some("r1"))
            && !Truthy(res.repo)
            && ResolvedNotices(NumericDotCompare, Requirement(name, "1.0.0"), res, gitLog, path) == Some([NoticeSeparator])
  {
    ScenarioComparisons();
    Reflexive(NumericDotCompare, "1.0.0") by { NumericDotIsVersionOrder(); }
    ZeroUrlResolved(NumericDotCompare, name, gitLog, path);
  }

  lemma {:induction false} ZeroUrlResolved(cmp: Comparator, name: string, gitLog: GitLog, path: string)
    requires cmp("1.0.0", Sentinel) > 0 && cmp("1.0.0", "1.0.0") == 0
    ensures var res := Resolve(cmp, [VersionRecord("1.0.0", "0", Some("r1"))]);
            && res == Resolution("1.0.0", Some("0"), Some("r1"))
            && !Truthy(res.repo)
            && ResolvedNotices(cmp, Requirement(name, "1.0.0"), res, gitLog, path) == Some([NoticeSeparator])
  {
    assert [VersionRecord("1.0.0", "0", Some("r1"))][..0] == [];
  }
}
