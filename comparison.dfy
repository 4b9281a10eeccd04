/** One iteration of the module loop of `main` in compare_dependencies.py
    (lines 244-400): the managed dependencies of a POM are normalised, its
    direct dependencies resolved against them, the matching Gradle manifest's
    dependencies normalised, and the two sides classified. */
module Comparison {
  import opened Wrappers
  import opened Text
  import opened OrderedDicts
  import opened Records
  import opened GradleManifest
  import opened Normalize
  import opened DirectDependencies
  import opened Classification

  /** What the comparator reads from one POM's record: its properties, its
      `dependencyManagement` entries and its direct dependencies. */
  datatype PomModule = PomModule(properties: Props, dependencyManagement: seq<DependencyRecord>,
                                 dependencies: seq<DirectDependency>)

  /** The report for one POM and its Gradle manifest, given the parent POM's
      properties, the root POM's properties and the root Gradle manifest's
      properties; the first failure of a stage, in program order, ends it. */
  function ModuleReport(pom: PomModule, parent: Props, root: Props, gradle: Manifest,
                        rootGradle: map<string, string>, fuel: nat): (r: Result<Report, Failure>)
    ensures r.Ok? ==> Normalized(pom.dependencyManagement, pom.properties, parent, false, root, fuel).Ok?
    ensures r.Ok? ==> GradleNormalized(gradle.dependencies, gradle.properties, rootGradle, fuel).Ok?
  {
    var managed :- Normalized(pom.dependencyManagement, pom.properties, parent, false, root, fuel);
    var resolved :- Resolved(pom.dependencies, managed.keys, root, parent, pom.properties, fuel);
    var normalizedGradle :- GradleNormalized(gradle.dependencies, gradle.properties, rootGradle, fuel);
    ResolvedKeys(pom.dependencies, managed.keys, root, parent, pom.properties, fuel);
    GradleKeysHaveColon(gradle.dependencies, gradle.properties, rootGradle, fuel);
    Ok(ReportFor(resolved, normalizedGradle))
  }

  /** The statements of lines 244-400 for one POM, in order. */
  method CompareModule(pom: PomModule, parent: Props, root: Props, gradle: Manifest,
                       rootGradle: map<string, string>, fuel: nat)
    returns (r: Result<Report, Failure>)
    ensures r == ModuleReport(pom, parent, root, gradle, rootGradle, fuel)
  {
    var managed := NormalizeDependencies(pom.dependencyManagement, pom.properties, parent, false, root, fuel);
    if managed.Err? {
      return Err(managed.error);
    }
    var resolved := ResolveDirectDependencies(pom.dependencies, managed.value, root, parent, pom.properties, fuel);
    if resolved.Err? {
      return Err(resolved.error);
    }
    var normalizedGradle := NormalizeGradleDependencies(gradle.dependencies, gradle.properties, rootGradle, fuel);
    if normalizedGradle.Err? {
      return Err(normalizedGradle.error);
    }
    ResolvedKeys(pom.dependencies, managed.value.keys, root, parent, pom.properties, fuel);
    GradleKeysHaveColon(gradle.dependencies, gradle.properties, rootGradle, fuel);
    var report := Classify(resolved.value, normalizedGradle.value);
    r := Ok(report);
  }

  /** Every key reported missing in Gradle begins with the `group:artifact`
      of one of the POM's direct dependencies. */
  lemma {:induction false} MavenReportedKeysAreDirect(pom: PomModule, parent: Props, root: Props, gradle: Manifest,
                                                      rootGradle: map<string, string>, fuel: nat, k: string)
    requires ModuleReport(pom, parent, root, gradle, rootGradle, fuel).Ok?
    ensures var report := ModuleReport(pom, parent, root, gradle, rootGradle, fuel).value;
      k in report.missingInGradle.entries ==>
        exists i :: 0 <= i < |pom.dependencies| &&
          StartsWith(k, pom.dependencies[i].groupId + ":" + pom.dependencies[i].artifactId)
  {
    var managed := Normalized(pom.dependencyManagement, pom.properties, parent, false, root, fuel).value;
    var resolved := Resolved(pom.dependencies, managed.keys, root, parent, pom.properties, fuel).value;
    var normalizedGradle := GradleNormalized(gradle.dependencies, gradle.properties, rootGradle, fuel).value;
    ResolvedKeys(pom.dependencies, managed.keys, root, parent, pom.properties, fuel);
    GradleKeysHaveColon(gradle.dependencies, gradle.properties, rootGradle, fuel);
    MissingInGradleExactly(resolved, normalizedGradle, k);
  }
}
