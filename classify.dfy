/** The classification at the end of `main` in compare_dependencies.py
    (lines 322-400). A first pass files Maven keys under "missing in Gradle"
    or "version mismatch"; a second pass files Gradle keys under "version
    mismatch" or "only in Gradle". */
module Classification {
  import opened Wrappers
  import opened Text
  import opened OrderedDicts
  import opened Normalize
  import opened DirectDependencies

  datatype MissingEntry = MissingEntry(mavenScope: Option<string>, originalMavenVersion: string)

  datatype Mismatch = Mismatch(maven: string, gradle: string, mavenScope: Option<string>, gradleConfig: string)

  datatype OnlyInGradle = OnlyInGradle(gradleConfig: string, originalGradleVersion: string)

  /** The three report buckets of one module. */
  datatype Report = Report(missingInGradle: Dict<MissingEntry>, versionMismatch: Dict<Mismatch>,
                           onlyInGradle: Dict<OnlyInGradle>)

  /** A well-formed dictionary whose keys all have at least two `:`-pieces,
      so that Python's `split(':')[1]` succeeds on each; both the resolved
      Maven dictionary and the normalised Gradle one are of this kind. */
  ghost predicate WellKeyed<V>(d: Dict<V>) {
    d.Valid() && forall k :: k in d.entries ==> |Split(k, ':')| >= 2
  }

  /** `f"{parts[0]}:{parts[1]}"`. */
  function GroupArtifact(k: string): string
    requires |Split(k, ':')| >= 2
  {
    var parts := Split(k, ':');
    parts[0] + ":" + parts[1]
  }

  /** The third piece of a key, or "N/A". */
  function VersionPiece(k: string): string {
    var parts := Split(k, ':');
    if |parts| > 2 then parts[2] else "N/A"
  }

  /** The first key, in insertion order, with the given `group:artifact`. */
  function FirstSameGroupArtifact(keys: seq<string>, ga: string): Option<string>
    requires forall k :: k in keys ==> |Split(k, ':')| >= 2
    decreases |keys|
  {
    if keys == [] then None
    else if GroupArtifact(keys[0]) == ga then Some(keys[0])
    else FirstSameGroupArtifact(keys[1..], ga)
  }

  /** The search finds nothing exactly when no key has that `group:artifact`,
      and what it finds is the first such key in insertion order. */
  lemma {:induction false} FirstSameGroupArtifactSpec(keys: seq<string>, ga: string)
    requires forall k :: k in keys ==> |Split(k, ':')| >= 2
    ensures FirstSameGroupArtifact(keys, ga).None? <==> forall k :: k in keys ==> GroupArtifact(k) != ga
    ensures FirstSameGroupArtifact(keys, ga).Some? ==>
      FirstSameGroupArtifact(keys, ga).value in keys && GroupArtifact(FirstSameGroupArtifact(keys, ga).value) == ga
    ensures FirstSameGroupArtifact(keys, ga).Some? ==>
      exists i :: 0 <= i < |keys| && keys[i] == FirstSameGroupArtifact(keys, ga).value &&
        forall j :: 0 <= j < i ==> GroupArtifact(keys[j]) != ga
    decreases |keys|
  {
    if keys != [] {
      assert keys[0] in keys;
      if GroupArtifact(keys[0]) != ga {
        FirstSameGroupArtifactSpec(keys[1..], ga);
        assert forall k :: k in keys ==> k == keys[0] || k in keys[1..];
      }
    }
    FirstSameGroupArtifactIndex(keys, ga);
  }

  /** What the search finds sits at an index no earlier key with that
      `group:artifact` precedes. */
  lemma {:induction false} FirstSameGroupArtifactIndex(keys: seq<string>, ga: string)
    requires forall k :: k in keys ==> |Split(k, ':')| >= 2
    ensures FirstSameGroupArtifact(keys, ga).Some? ==>
      exists i :: 0 <= i < |keys| && keys[i] == FirstSameGroupArtifact(keys, ga).value &&
        forall j :: 0 <= j < i ==> GroupArtifact(keys[j]) != ga
    decreases |keys|
  {
    if keys != [] && GroupArtifact(keys[0]) != ga && FirstSameGroupArtifact(keys, ga).Some? {
      assert forall k :: k in keys[1..] ==> k in keys;
      FirstSameGroupArtifactIndex(keys[1..], ga);
      var i :| 0 <= i < |keys[1..]| && keys[1..][i] == FirstSameGroupArtifact(keys, ga).value &&
        forall j :: 0 <= j < i ==> GroupArtifact(keys[1..][j]) != ga;
      forall j | 0 <= j < i + 1 ensures GroupArtifact(keys[j]) != ga {
        if j > 0 { assert keys[j] == keys[1..][j - 1]; }
      }
      assert keys[i + 1] == keys[1..][i];
    }
  }

  // ------------------------------------------------------- Maven against Gradle

  /** Scopes the first pass ignores. */
  predicate TestOrProvided(scope: Option<string>) {
    scope == Some("test") || scope == Some("provided")
  }

  /** A Maven key the first pass reports on: not test- or provided-scoped and
      not present verbatim among the Gradle keys. */
  predicate MavenCandidate(resolved: Dict<MavenEntry>, gradle: Dict<GradleEntry>, m: string)
    requires m in resolved.entries
  {
    !TestOrProvided(resolved.entries[m].scope) && m !in gradle.entries
  }

  /** What the first pass stores in `missing_in_gradle` for key `m`. */
  function MissingItem(resolved: Dict<MavenEntry>, gradle: Dict<GradleEntry>, m: string): Option<(string, MissingEntry)>
    requires WellKeyed(gradle) && m in resolved.entries && |Split(m, ':')| >= 2
  {
    if MavenCandidate(resolved, gradle, m) && FirstSameGroupArtifact(gradle.keys, GroupArtifact(m)).None? then
      Some((m, MissingEntry(resolved.entries[m].scope, resolved.entries[m].originalVersion)))
    else None
  }

  /** What the first pass stores in `version_mismatch` for key `m`. */
  function MavenMismatchItem(resolved: Dict<MavenEntry>, gradle: Dict<GradleEntry>, m: string): Option<(string, Mismatch)>
    requires WellKeyed(gradle) && m in resolved.entries && |Split(m, ':')| >= 2
  {
    if !MavenCandidate(resolved, gradle, m) then None
    else
      match FirstSameGroupArtifact(gradle.keys, GroupArtifact(m))
      case None => None
      case Some(gk) =>
        FirstSameGroupArtifactSpec(gradle.keys, GroupArtifact(m));
        Some((m, Mismatch(VersionPiece(m), VersionPiece(gk), resolved.entries[m].scope, gradle.entries[gk].config)))
  }

  function MissingItems(resolved: Dict<MavenEntry>, gradle: Dict<GradleEntry>, ks: seq<string>)
    : seq<Option<(string, MissingEntry)>>
    requires WellKeyed(resolved) && WellKeyed(gradle)
    requires forall k :: k in ks ==> k in resolved.entries
  {
    seq(|ks|, n requires 0 <= n < |ks| => MissingItem(resolved, gradle, ks[n]))
  }

  function MavenMismatchItems(resolved: Dict<MavenEntry>, gradle: Dict<GradleEntry>, ks: seq<string>)
    : seq<Option<(string, Mismatch)>>
    requires WellKeyed(resolved) && WellKeyed(gradle)
    requires forall k :: k in ks ==> k in resolved.entries
  {
    seq(|ks|, n requires 0 <= n < |ks| => MavenMismatchItem(resolved, gradle, ks[n]))
  }

  // ------------------------------------------------------- Gradle against Maven

  /** Keys and configurations the second pass ignores: project and platform
      keys, test implementation, compile-only and ANTLR configurations
      (compared in lower case). */
  predicate GradleSkipped(gk: string, config: string) {
    || StartsWith(gk, "project:") || StartsWith(gk, "platform(")
    || EndsWith(Lower(config), "testimplementation") || Lower(config) == "compileonly" || Lower(config) == "antlr"
  }

  /** A Gradle key the second pass reports on. */
  predicate GradleCandidate(resolved: Dict<MavenEntry>, gradle: Dict<GradleEntry>, gk: string)
    requires gk in gradle.entries
  {
    !GradleSkipped(gk, gradle.entries[gk].config) && gk !in resolved.entries
  }

  /** Kotlin and Gradle plugin artifacts, never reported as only in Gradle. */
  predicate BuildToolingKey(gk: string) {
    StartsWith(gk, "org.jetbrains.kotlin") || StartsWith(gk, "org.gradle")
  }

  /** What the second pass stores in `version_mismatch` for key `gk`, given
      the mismatches the first pass recorded. */
  function GradleMismatchItem(resolved: Dict<MavenEntry>, gradle: Dict<GradleEntry>, fromMaven: Dict<Mismatch>,
                              gk: string): Option<(string, Mismatch)>
    requires WellKeyed(resolved) && gk in gradle.entries && |Split(gk, ':')| >= 2
  {
    if !GradleCandidate(resolved, gradle, gk) then None
    else
      match FirstSameGroupArtifact(resolved.keys, GroupArtifact(gk))
      case None => None
      case Some(m) =>
        FirstSameGroupArtifactSpec(resolved.keys, GroupArtifact(gk));
        if gk !in fromMaven.entries && m !in fromMaven.entries && VersionPiece(m) != VersionPiece(gk) then
          Some((gk, Mismatch(VersionPiece(m), VersionPiece(gk), resolved.entries[m].scope, gradle.entries[gk].config)))
        else None
  }

  /** What the second pass stores in `present_in_gradle_not_in_maven` for key `gk`. */
  function OnlyItem(resolved: Dict<MavenEntry>, gradle: Dict<GradleEntry>, gk: string): Option<(string, OnlyInGradle)>
    requires WellKeyed(resolved) && gk in gradle.entries && |Split(gk, ':')| >= 2
  {
    if GradleCandidate(resolved, gradle, gk) && FirstSameGroupArtifact(resolved.keys, GroupArtifact(gk)).None?
       && !BuildToolingKey(gk) then
      Some((gk, OnlyInGradle(gradle.entries[gk].config, gradle.entries[gk].originalVersion)))
    else None
  }

  function GradleMismatchItems(resolved: Dict<MavenEntry>, gradle: Dict<GradleEntry>, fromMaven: Dict<Mismatch>,
                               ks: seq<string>): seq<Option<(string, Mismatch)>>
    requires WellKeyed(resolved) && WellKeyed(gradle)
    requires forall k :: k in ks ==> k in gradle.entries
  {
    seq(|ks|, n requires 0 <= n < |ks| => GradleMismatchItem(resolved, gradle, fromMaven, ks[n]))
  }

  function OnlyItems(resolved: Dict<MavenEntry>, gradle: Dict<GradleEntry>, ks: seq<string>)
    : seq<Option<(string, OnlyInGradle)>>
    requires WellKeyed(resolved) && WellKeyed(gradle)
    requires forall k :: k in ks ==> k in gradle.entries
  {
    seq(|ks|, n requires 0 <= n < |ks| => OnlyItem(resolved, gradle, ks[n]))
  }

  // ------------------------------------------------------------ the report

  /** The mismatches the first pass records. */
  function MavenMismatches(resolved: Dict<MavenEntry>, gradle: Dict<GradleEntry>): Dict<Mismatch>
    requires WellKeyed(resolved) && WellKeyed(gradle)
  {
    PutAll(Empty(), MavenMismatchItems(resolved, gradle, resolved.keys))
  }

  /** The report of one module: both passes, in order. */
  function ReportFor(resolved: Dict<MavenEntry>, gradle: Dict<GradleEntry>): Report
    requires WellKeyed(resolved) && WellKeyed(gradle)
  {
    var fromMaven := MavenMismatches(resolved, gradle);
    Report(PutAll(Empty(), MissingItems(resolved, gradle, resolved.keys)),
           PutAll(fromMaven, GradleMismatchItems(resolved, gradle, fromMaven, gradle.keys)),
           PutAll(Empty(), OnlyItems(resolved, gradle, gradle.keys)))
  }

  // ------------------------------------------------------------ properties

  /** A key of a well-formed dictionary sits at some position of its key list. */
  lemma KeyPosition<V>(d: Dict<V>, k: string) returns (n: nat)
    requires d.Valid() && k in d.entries
    ensures n < |d.keys| && d.keys[n] == k
  {
    n :| 0 <= n < |d.keys| && d.keys[n] == k;
  }

  /** The items of each pass line up with the keys the pass visits. */
  lemma ItemsAligned(resolved: Dict<MavenEntry>, gradle: Dict<GradleEntry>, fromMaven: Dict<Mismatch>)
    requires WellKeyed(resolved) && WellKeyed(gradle)
    ensures Aligned(MissingItems(resolved, gradle, resolved.keys), resolved.keys)
    ensures Aligned(MavenMismatchItems(resolved, gradle, resolved.keys), resolved.keys)
    ensures Aligned(GradleMismatchItems(resolved, gradle, fromMaven, gradle.keys), gradle.keys)
    ensures Aligned(OnlyItems(resolved, gradle, gradle.keys), gradle.keys)
  {
  }

  /** The first pass records a mismatch exactly for the reported Maven keys
      whose `group:artifact` some Gradle key shares. */
  lemma {:induction false} MavenMismatchesExactly(resolved: Dict<MavenEntry>, gradle: Dict<GradleEntry>, k: string)
    requires WellKeyed(resolved) && WellKeyed(gradle)
    ensures MavenMismatches(resolved, gradle).Valid()
    ensures k in MavenMismatches(resolved, gradle).entries <==>
      (k in resolved.entries && MavenCandidate(resolved, gradle, k) &&
       exists gk :: gk in gradle.keys && GroupArtifact(gk) == GroupArtifact(k))
  {
    var items := MavenMismatchItems(resolved, gradle, resolved.keys);
    PutAllValid(Empty(), items);
    ItemsAligned(resolved, gradle, Empty());
    if k in resolved.entries {
      var n := KeyPosition(resolved, k);
      PutAllAt(Empty(), items, resolved.keys, n);
      FirstSameGroupArtifactSpec(gradle.keys, GroupArtifact(k));
    } else {
      PutAllOutside(Empty(), items, resolved.keys, k);
    }
  }

  /** A Maven key is reported missing in Gradle exactly when it is of a
      reported scope, absent from the Gradle keys, and no Gradle key shares
      its `group:artifact`. */
  lemma {:induction false} MissingInGradleExactly(resolved: Dict<MavenEntry>, gradle: Dict<GradleEntry>, k: string)
    requires WellKeyed(resolved) && WellKeyed(gradle)
    ensures ReportFor(resolved, gradle).missingInGradle.Valid()
    ensures k in ReportFor(resolved, gradle).missingInGradle.entries <==>
      (k in resolved.entries && MavenCandidate(resolved, gradle, k) &&
       forall gk :: gk in gradle.keys ==> GroupArtifact(gk) != GroupArtifact(k))
  {
    var items := MissingItems(resolved, gradle, resolved.keys);
    PutAllValid(Empty(), items);
    ItemsAligned(resolved, gradle, Empty());
    if k in resolved.entries {
      var n := KeyPosition(resolved, k);
      PutAllAt(Empty(), items, resolved.keys, n);
      FirstSameGroupArtifactSpec(gradle.keys, GroupArtifact(k));
    } else {
      PutAllOutside(Empty(), items, resolved.keys, k);
    }
  }

  /** A Maven key is in `version_mismatch` exactly when the first pass put it
      there: the second pass never adds a Maven key. */
  lemma {:induction false} MavenKeyMismatchExactly(resolved: Dict<MavenEntry>, gradle: Dict<GradleEntry>, k: string)
    requires WellKeyed(resolved) && WellKeyed(gradle)
    requires k in resolved.entries
    ensures ReportFor(resolved, gradle).versionMismatch.Valid()
    ensures k in ReportFor(resolved, gradle).versionMismatch.entries <==>
      (MavenCandidate(resolved, gradle, k) && exists gk :: gk in gradle.keys && GroupArtifact(gk) == GroupArtifact(k))
  {
    var fromMaven := MavenMismatches(resolved, gradle);
    var items := GradleMismatchItems(resolved, gradle, fromMaven, gradle.keys);
    MavenMismatchesExactly(resolved, gradle, k);
    PutAllValid(fromMaven, items);
    ItemsAligned(resolved, gradle, fromMaven);
    if k in gradle.entries {
      var n := KeyPosition(gradle, k);
      PutAllAt(fromMaven, items, gradle.keys, n);
    } else {
      PutAllOutside(fromMaven, items, gradle.keys, k);
    }
  }

  /** A Gradle key absent from the Maven keys is in `version_mismatch`
      exactly when it is of a reported kind, the first Maven key sharing its
      `group:artifact` was not itself reported by the first pass (it is test-
      or provided-scoped, or present verbatim in Gradle), and their version
      pieces differ; the recorded versions are those pieces. */
  lemma {:induction false} GradleKeyMismatchExactly(resolved: Dict<MavenEntry>, gradle: Dict<GradleEntry>, k: string)
    requires WellKeyed(resolved) && WellKeyed(gradle)
    requires k !in resolved.entries
    ensures k in ReportFor(resolved, gradle).versionMismatch.entries <==>
      (k in gradle.entries && GradleCandidate(resolved, gradle, k) &&
       var first := FirstSameGroupArtifact(resolved.keys, GroupArtifact(k));
       first.Some? && first.value in resolved.entries && !MavenCandidate(resolved, gradle, first.value) &&
       VersionPiece(first.value) != VersionPiece(k))
    ensures k in ReportFor(resolved, gradle).versionMismatch.entries ==>
      var e := ReportFor(resolved, gradle).versionMismatch.entries[k];
      e.maven != e.gradle && e.gradle == VersionPiece(k)
  {
    var fromMaven := MavenMismatches(resolved, gradle);
    var items := GradleMismatchItems(resolved, gradle, fromMaven, gradle.keys);
    MavenMismatchesExactly(resolved, gradle, k);
    ItemsAligned(resolved, gradle, fromMaven);
    if k in gradle.entries {
      var n := KeyPosition(gradle, k);
      PutAllAt(fromMaven, items, gradle.keys, n);
      FirstSameGroupArtifactSpec(resolved.keys, GroupArtifact(k));
      var first := FirstSameGroupArtifact(resolved.keys, GroupArtifact(k));
      if first.Some? {
        var m := first.value;
        assert k in gradle.keys && GroupArtifact(k) == GroupArtifact(m);
        MavenMismatchesExactly(resolved, gradle, m);
      }
    } else {
      PutAllOutside(fromMaven, items, gradle.keys, k);
    }
  }

  /** A Gradle key is reported only in Gradle exactly when it is of a
      reported kind, no Maven key shares its `group:artifact`, and it is not
      a Kotlin or Gradle plugin artifact. */
  lemma {:induction false} OnlyInGradleExactly(resolved: Dict<MavenEntry>, gradle: Dict<GradleEntry>, k: string)
    requires WellKeyed(resolved) && WellKeyed(gradle)
    ensures ReportFor(resolved, gradle).onlyInGradle.Valid()
    ensures k in ReportFor(resolved, gradle).onlyInGradle.entries <==>
      (k in gradle.entries && GradleCandidate(resolved, gradle, k) &&
       (forall m :: m in resolved.keys ==> GroupArtifact(m) != GroupArtifact(k)) && !BuildToolingKey(k))
  {
    var items := OnlyItems(resolved, gradle, gradle.keys);
    PutAllValid(Empty(), items);
    ItemsAligned(resolved, gradle, Empty());
    if k in gradle.entries {
      var n := KeyPosition(gradle, k);
      PutAllAt(Empty(), items, gradle.keys, n);
      FirstSameGroupArtifactSpec(resolved.keys, GroupArtifact(k));
    } else {
      PutAllOutside(Empty(), items, gradle.keys, k);
    }
  }

  /** No key is filed in two buckets. */
  lemma BucketsDisjoint(resolved: Dict<MavenEntry>, gradle: Dict<GradleEntry>, k: string)
    requires WellKeyed(resolved) && WellKeyed(gradle)
    ensures var r := ReportFor(resolved, gradle);
      && !(k in r.missingInGradle.entries && k in r.versionMismatch.entries)
      && !(k in r.missingInGradle.entries && k in r.onlyInGradle.entries)
      && !(k in r.versionMismatch.entries && k in r.onlyInGradle.entries)
  {
    MissingInGradleExactly(resolved, gradle, k);
    OnlyInGradleExactly(resolved, gradle, k);
    if k in resolved.entries {
      MavenKeyMismatchExactly(resolved, gradle, k);
    } else {
      GradleKeyMismatchExactly(resolved, gradle, k);
      if k in ReportFor(resolved, gradle).versionMismatch.entries {
        FirstSameGroupArtifactSpec(resolved.keys, GroupArtifact(k));
      }
    }
  }

  /** A test- or provided-scoped Maven dependency, and a Maven key present
      verbatim among the Gradle keys, are never reported. */
  lemma NeverReported(resolved: Dict<MavenEntry>, gradle: Dict<GradleEntry>, k: string)
    requires WellKeyed(resolved) && WellKeyed(gradle)
    requires k in resolved.entries
    requires TestOrProvided(resolved.entries[k].scope) || k in gradle.entries
    ensures var r := ReportFor(resolved, gradle);
      k !in r.missingInGradle.entries && k !in r.versionMismatch.entries && k !in r.onlyInGradle.entries
  {
    MissingInGradleExactly(resolved, gradle, k);
    MavenKeyMismatchExactly(resolved, gradle, k);
    OnlyInGradleExactly(resolved, gradle, k);
  }

  // ------------------------------------------------------------ the passes

  /** The `for ... break` search for the first key with a given `group:artifact`. */
  method FindSameGroupArtifact(keys: seq<string>, ga: string) returns (r: Option<string>)
    requires forall k :: k in keys ==> |Split(k, ':')| >= 2
    ensures r == FirstSameGroupArtifact(keys, ga)
  {
    var i := 0;
    while i < |keys|
      invariant i <= |keys|
      invariant FirstSameGroupArtifact(keys, ga) == FirstSameGroupArtifact(keys[i..], ga)
    {
      assert keys[i..][1..] == keys[i + 1..];
      var parts := Split(keys[i], ':');
      if parts[0] + ":" + parts[1] == ga {
        return Some(keys[i]);
      }
      i := i + 1;
    }
    r := None;
  }

  /** The first `i` Maven keys line up with the items of the first pass over them. */
  lemma MavenPrefixAligned(resolved: Dict<MavenEntry>, gradle: Dict<GradleEntry>, i: nat)
    requires WellKeyed(resolved) && WellKeyed(gradle) && i <= |resolved.keys|
    ensures forall k :: k in resolved.keys[..i] ==> k in resolved.entries
    ensures Aligned(MissingItems(resolved, gradle, resolved.keys[..i]), resolved.keys[..i])
    ensures Aligned(MavenMismatchItems(resolved, gradle, resolved.keys[..i]), resolved.keys[..i])
  {
  }

  /** Item lists over a longer prefix of the keys extend those over a shorter one. */
  lemma MissingItemsSnoc(resolved: Dict<MavenEntry>, gradle: Dict<GradleEntry>, i: nat)
    requires WellKeyed(resolved) && WellKeyed(gradle) && i < |resolved.keys|
    ensures resolved.keys[i] in resolved.entries && |Split(resolved.keys[i], ':')| >= 2
    ensures MissingItems(resolved, gradle, resolved.keys[..i + 1])
         == MissingItems(resolved, gradle, resolved.keys[..i]) + [MissingItem(resolved, gradle, resolved.keys[i])]
  {
    var ks := resolved.keys[..i + 1];
    assert ks[..i] == resolved.keys[..i];
  }

  lemma MavenMismatchItemsSnoc(resolved: Dict<MavenEntry>, gradle: Dict<GradleEntry>, i: nat)
    requires WellKeyed(resolved) && WellKeyed(gradle) && i < |resolved.keys|
    ensures resolved.keys[i] in resolved.entries && |Split(resolved.keys[i], ':')| >= 2
    ensures MavenMismatchItems(resolved, gradle, resolved.keys[..i + 1])
         == MavenMismatchItems(resolved, gradle, resolved.keys[..i]) + [MavenMismatchItem(resolved, gradle, resolved.keys[i])]
  {
    var ks := resolved.keys[..i + 1];
    assert ks[..i] == resolved.keys[..i];
  }

  /** A Maven key is not among the mismatches recorded for the keys before it. */
  lemma MavenKeyFresh(resolved: Dict<MavenEntry>, gradle: Dict<GradleEntry>, i: nat)
    requires WellKeyed(resolved) && WellKeyed(gradle) && i < |resolved.keys|
    ensures resolved.keys[i] !in PutAll(Empty(), MavenMismatchItems(resolved, gradle, resolved.keys[..i])).entries
  {
    MavenPrefixAligned(resolved, gradle, i);
    assert resolved.keys[i] !in resolved.keys[..i];
    PutAllOutside(Empty(), MavenMismatchItems(resolved, gradle, resolved.keys[..i]), resolved.keys[..i], resolved.keys[i]);
  }

  /** The body of the first loop for Maven key `m`. */
  method FileMavenKey(resolved: Dict<MavenEntry>, gradle: Dict<GradleEntry>, m: string,
                      missing: Dict<MissingEntry>, mismatch: Dict<Mismatch>)
    returns (missing': Dict<MissingEntry>, mismatch': Dict<Mismatch>)
    requires WellKeyed(resolved) && WellKeyed(gradle) && m in resolved.entries && m !in mismatch.entries
    ensures var item := MissingItem(resolved, gradle, m);
      missing' == if item.Some? then missing.Put(item.value.0, item.value.1) else missing
    ensures var item := MavenMismatchItem(resolved, gradle, m);
      mismatch' == if item.Some? then mismatch.Put(item.value.0, item.value.1) else mismatch
  {
    missing', mismatch' := missing, mismatch;
    var scope := resolved.entries[m].scope;
    if !(scope == Some("test") || scope == Some("provided")) && m !in gradle.entries {
      var found := FindSameGroupArtifact(gradle.keys, GroupArtifact(m));
      match found {
        case Some(gk) =>
          FirstSameGroupArtifactSpec(gradle.keys, GroupArtifact(m));
          if m !in mismatch.entries {
            mismatch' := mismatch.Put(m, Mismatch(VersionPiece(m), VersionPiece(gk), scope, gradle.entries[gk].config));
          }
        case None =>
          missing' := missing.Put(m, MissingEntry(scope, resolved.entries[m].originalVersion));
      }
    }
  }

  /** The first loop of the comparison: every Maven key not test- or
      provided-scoped and not present verbatim in Gradle is filed as a
      mismatch against the first Gradle key with its `group:artifact`, or as
      missing in Gradle when there is none. */
  method CompareMavenToGradle(resolved: Dict<MavenEntry>, gradle: Dict<GradleEntry>)
    returns (missing: Dict<MissingEntry>, mismatch: Dict<Mismatch>)
    requires WellKeyed(resolved) && WellKeyed(gradle)
    ensures missing == PutAll(Empty(), MissingItems(resolved, gradle, resolved.keys))
    ensures mismatch == MavenMismatches(resolved, gradle)
  {
    missing, mismatch := Empty(), Empty();
    var keys := resolved.keys;
    var i := 0;
    assert keys[..0] == [];
    while i < |keys|
      invariant i <= |keys|
      invariant missing == PutAll(Empty(), MissingItems(resolved, gradle, keys[..i]))
      invariant mismatch == PutAll(Empty(), MavenMismatchItems(resolved, gradle, keys[..i]))
    {
      MissingItemsSnoc(resolved, gradle, i);
      MavenMismatchItemsSnoc(resolved, gradle, i);
      MavenKeyFresh(resolved, gradle, i);
      PutAllSnoc(Empty(), MissingItems(resolved, gradle, keys[..i]), MissingItem(resolved, gradle, keys[i]));
      PutAllSnoc(Empty(), MavenMismatchItems(resolved, gradle, keys[..i]), MavenMismatchItem(resolved, gradle, keys[i]));
      missing, mismatch := FileMavenKey(resolved, gradle, keys[i], missing, mismatch);
      i := i + 1;
    }
    assert keys[..i] == keys;
  }

  /** The first `i` Gradle keys line up with the items of the second pass over them. */
  lemma GradlePrefixAligned(resolved: Dict<MavenEntry>, gradle: Dict<GradleEntry>, fromMaven: Dict<Mismatch>, i: nat)
    requires WellKeyed(resolved) && WellKeyed(gradle) && i <= |gradle.keys|
    ensures forall k :: k in gradle.keys[..i] ==> k in gradle.entries
    ensures Aligned(GradleMismatchItems(resolved, gradle, fromMaven, gradle.keys[..i]), gradle.keys[..i])
    ensures Aligned(OnlyItems(resolved, gradle, gradle.keys[..i]), gradle.keys[..i])
  {
  }

  lemma GradleMismatchItemsSnoc(resolved: Dict<MavenEntry>, gradle: Dict<GradleEntry>, fromMaven: Dict<Mismatch>, i: nat)
    requires WellKeyed(resolved) && WellKeyed(gradle) && i < |gradle.keys|
    ensures gradle.keys[i] in gradle.entries && |Split(gradle.keys[i], ':')| >= 2
    ensures GradleMismatchItems(resolved, gradle, fromMaven, gradle.keys[..i + 1])
         == GradleMismatchItems(resolved, gradle, fromMaven, gradle.keys[..i])
            + [GradleMismatchItem(resolved, gradle, fromMaven, gradle.keys[i])]
  {
    var ks := gradle.keys[..i + 1];
    assert ks[..i] == gradle.keys[..i];
  }

  lemma OnlyItemsSnoc(resolved: Dict<MavenEntry>, gradle: Dict<GradleEntry>, i: nat)
    requires WellKeyed(resolved) && WellKeyed(gradle) && i < |gradle.keys|
    ensures gradle.keys[i] in gradle.entries && |Split(gradle.keys[i], ':')| >= 2
    ensures OnlyItems(resolved, gradle, gradle.keys[..i + 1])
         == OnlyItems(resolved, gradle, gradle.keys[..i]) + [OnlyItem(resolved, gradle, gradle.keys[i])]
  {
    var ks := gradle.keys[..i + 1];
    assert ks[..i] == gradle.keys[..i];
  }

  /** The mismatches recorded so far hold the current Gradle key, or a Maven
      key, exactly when the first pass recorded it: the second pass only adds
      Gradle keys absent from the Maven keys, each once. */
  lemma MismatchesSoFar(resolved: Dict<MavenEntry>, gradle: Dict<GradleEntry>, fromMaven: Dict<Mismatch>, i: nat, m: string)
    requires WellKeyed(resolved) && WellKeyed(gradle) && fromMaven.Valid() && i < |gradle.keys|
    requires m in resolved.entries
    ensures var sofar := PutAll(fromMaven, GradleMismatchItems(resolved, gradle, fromMaven, gradle.keys[..i]));
      && (gradle.keys[i] in sofar.entries <==> gradle.keys[i] in fromMaven.entries)
      && (m in sofar.entries <==> m in fromMaven.entries)
  {
    GradlePrefixAligned(resolved, gradle, fromMaven, i);
    var ks := gradle.keys[..i];
    var items := GradleMismatchItems(resolved, gradle, fromMaven, ks);
    assert gradle.keys[i] !in ks;
    PutAllOutside(fromMaven, items, ks, gradle.keys[i]);
    if m in ks {
      var n :| 0 <= n < |ks| && ks[n] == m;
      PutAllAt(fromMaven, items, ks, n);
    } else {
      PutAllOutside(fromMaven, items, ks, m);
    }
  }

  /** The body of the second loop for the `i`-th Gradle key: one step of the
      second pass. */
  method FileGradleKey(resolved: Dict<MavenEntry>, gradle: Dict<GradleEntry>, fromMaven: Dict<Mismatch>, i: nat,
                       mismatch: Dict<Mismatch>, only: Dict<OnlyInGradle>)
    returns (mismatch': Dict<Mismatch>, only': Dict<OnlyInGradle>)
    requires WellKeyed(resolved) && WellKeyed(gradle) && fromMaven.Valid() && i < |gradle.keys|
    requires mismatch == PutAll(fromMaven, GradleMismatchItems(resolved, gradle, fromMaven, gradle.keys[..i]))
    requires only == PutAll(Empty(), OnlyItems(resolved, gradle, gradle.keys[..i]))
    ensures mismatch' == PutAll(fromMaven, GradleMismatchItems(resolved, gradle, fromMaven, gradle.keys[..i + 1]))
    ensures only' == PutAll(Empty(), OnlyItems(resolved, gradle, gradle.keys[..i + 1]))
  {
    mismatch', only' := mismatch, only;
    var gk := gradle.keys[i];
    var config := gradle.entries[gk].config;
    var lower := Lower(config);
    if !(StartsWith(gk, "project:") || StartsWith(gk, "platform("))
       && !(EndsWith(lower, "testimplementation") || lower == "compileonly" || lower == "antlr")
       && gk !in resolved.entries {
      var found := FindSameGroupArtifact(resolved.keys, GroupArtifact(gk));
      match found {
        case Some(m) =>
          FirstSameGroupArtifactSpec(resolved.keys, GroupArtifact(gk));
          MismatchesSoFar(resolved, gradle, fromMaven, i, m);
          GradleMismatchItemsSnoc(resolved, gradle, fromMaven, i);
          OnlyItemsSnoc(resolved, gradle, i);
          var item := GradleMismatchItem(resolved, gradle, fromMaven, gk);
          PutAllSnoc(fromMaven, GradleMismatchItems(resolved, gradle, fromMaven, gradle.keys[..i]), item);
          PutAllSnoc(Empty(), OnlyItems(resolved, gradle, gradle.keys[..i]), OnlyItem(resolved, gradle, gk));
          if gk !in mismatch.entries && m !in mismatch.entries {
            var mavenVersion := VersionPiece(m);
            var gradleVersion := VersionPiece(gk);
            if mavenVersion != gradleVersion {
              mismatch' := mismatch.Put(gk, Mismatch(mavenVersion, gradleVersion, resolved.entries[m].scope, config));
            }
          }
        case None =>
          FirstSameGroupArtifactSpec(resolved.keys, GroupArtifact(gk));
          OnlyStep(resolved, gradle, fromMaven, i);
          if !StartsWith(gk, "org.jetbrains.kotlin") && !StartsWith(gk, "org.gradle") {
            only' := only.Put(gk, OnlyInGradle(config, gradle.entries[gk].originalVersion));
          }
      }
    } else {
      OnlyStep(resolved, gradle, fromMaven, i);
    }
  }

  /** The second loop of the comparison: every Gradle key of a reported kind
      and absent from the Maven keys is filed as a mismatch against the first
      Maven key with its `group:artifact` (unless either was already filed,
      or their versions agree), or as only in Gradle when there is none. */
  method CompareGradleToMaven(resolved: Dict<MavenEntry>, gradle: Dict<GradleEntry>, fromMaven: Dict<Mismatch>)
    returns (mismatch: Dict<Mismatch>, only: Dict<OnlyInGradle>)
    requires WellKeyed(resolved) && WellKeyed(gradle) && fromMaven.Valid()
    ensures mismatch == PutAll(fromMaven, GradleMismatchItems(resolved, gradle, fromMaven, gradle.keys))
    ensures only == PutAll(Empty(), OnlyItems(resolved, gradle, gradle.keys))
  {
    mismatch, only := fromMaven, Empty();
    var keys := gradle.keys;
    var i := 0;
    assert keys[..0] == [];
    while i < |keys|
      invariant i <= |keys|
      invariant mismatch == PutAll(fromMaven, GradleMismatchItems(resolved, gradle, fromMaven, keys[..i]))
      invariant only == PutAll(Empty(), OnlyItems(resolved, gradle, keys[..i]))
    {
      mismatch, only := FileGradleKey(resolved, gradle, fromMaven, i, mismatch, only);
      i := i + 1;
    }
    assert keys[..i] == keys;
  }

  /** A Gradle key with no mismatch item: the mismatches stay, the
      only-in-Gradle bucket takes the key's item. */
  lemma OnlyStep(resolved: Dict<MavenEntry>, gradle: Dict<GradleEntry>, fromMaven: Dict<Mismatch>, i: nat)
    requires WellKeyed(resolved) && WellKeyed(gradle) && fromMaven.Valid() && i < |gradle.keys|
    requires GradleMismatchItem(resolved, gradle, fromMaven, gradle.keys[i]).None?
    ensures PutAll(fromMaven, GradleMismatchItems(resolved, gradle, fromMaven, gradle.keys[..i + 1]))
         == PutAll(fromMaven, GradleMismatchItems(resolved, gradle, fromMaven, gradle.keys[..i]))
    ensures PutAll(Empty(), OnlyItems(resolved, gradle, gradle.keys[..i + 1]))
         == var before := PutAll(Empty(), OnlyItems(resolved, gradle, gradle.keys[..i]));
            var item := OnlyItem(resolved, gradle, gradle.keys[i]);
            if item.Some? then before.Put(item.value.0, item.value.1) else before
  {
    var ks := gradle.keys[..i];
    GradleMismatchItemsSnoc(resolved, gradle, fromMaven, i);
    OnlyItemsSnoc(resolved, gradle, i);
    PutAllSnoc(fromMaven, GradleMismatchItems(resolved, gradle, fromMaven, ks), GradleMismatchItem(resolved, gradle, fromMaven, gradle.keys[i]));
    PutAllSnoc(Empty(), OnlyItems(resolved, gradle, ks), OnlyItem(resolved, gradle, gradle.keys[i]));
  }

  /** Both loops of the comparison, in order, give the report. */
  method Classify(resolved: Dict<MavenEntry>, gradle: Dict<GradleEntry>) returns (report: Report)
    requires WellKeyed(resolved) && WellKeyed(gradle)
    ensures report == ReportFor(resolved, gradle)
  {
    var missing, fromMaven := CompareMavenToGradle(resolved, gradle);
    PutAllValid(Empty(), MavenMismatchItems(resolved, gradle, resolved.keys));
    var mismatch, only := CompareGradleToMaven(resolved, gradle, fromMaven);
    report := Report(missing, mismatch, only);
  }
}
