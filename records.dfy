/** The record shapes the comparator (compare_dependencies.py) reads and the
    failures it can run into. */
module Records {
  import opened Wrappers
  import opened GradleManifest

  /** A POM property map; a property element with no text maps to `None`. */
  type Props = map<string, Option<string>>

  /** Python `m.get(k)`: `None` for a missing key and for a `None` value alike. */
  function Get(m: Props, k: string): Option<string> {
    if k in m then m[k] else None
  }

  /** One dependency as the POM extractor emits it (`classifier` is only
      present in `dependencyManagement` entries; elsewhere it reads as `None`). */
  datatype PomDependency = PomDependency(groupId: Option<string>, artifactId: Option<string>,
                                         version: Option<string>, scope: Option<string>,
                                         classifier: Option<string>)

  /** A direct dependency of a POM: the extractor emits one only when its
      group and artifact are present, and the comparator indexes both
      (`dep_info['groupId']`) and joins them as strings. */
  datatype DirectDependency = DirectDependency(groupId: string, artifactId: string,
                                               version: Option<string>, scope: Option<string>,
                                               classifier: Option<string>)

  /** A dependency dictionary of either origin, as `normalize_dependencies`
      may be handed one: reading a key the record does not have gives `None`. */
  datatype DependencyRecord = FromPom(pom: PomDependency) | FromGradle(gradle: GradleDependency)

  /** The Python exceptions the comparator can raise: `RecursionError` from a
      property chain deeper than the recursion allowance, and `IndexError`
      from indexing too few `split(':')` pieces of the named string. */
  datatype Failure = RecursionLimit | IndexOutOfRange(subject: string)
}
