# Dependency-governance checker, modelled in Dafny

The repository's library versions are governed from two places. One is the
Maven POMs, through `dependencyManagement` and `${...}` properties. The other
is the Gradle build scripts, through `project.ext[...]` properties, `val`
declarations and `platform(...)` BOMs. Two hand-written scripts check that
the two builds agree:

- `parse_gradle.py` extracts from each `build.gradle.kts` a property map and
  a list of `{group, name, version, config}` dependency records.
- `compare_dependencies.py` does the comparison for each POM and its Gradle
  script:
  - it resolves version placeholders against layered property maps;
  - it normalises both sides into insertion-ordered dictionaries keyed
    `group:artifact[:version][:classifier]`;
  - it resolves each direct Maven dependency against the managed versions;
  - it files every key under "missing in Gradle", "version mismatch" or
    "only in Gradle".

This project models that logic, and the modules follow the scripts:

| module | file | models |
|---|---|---|
| `Text` | text.dfy | `split(':')`, `':'.join`, `startswith`/`endswith`, ASCII `lower()` |
| `OrderedDicts` | ordered_dicts.dfy | Python dictionaries: `d[k] = v` keeps an existing key's position, and iteration follows insertion order |
| `GradleManifest` | gradle_manifest.dfy | `parse_gradle_kts` after its regular expressions |
| `Records` | records.dfy | the record shapes the comparator reads, and the exceptions it can raise |
| `PropertyResolution` | properties.dfy | `get_property_value` and `get_gradle_project_property` |
| `Normalize` | normalize.dfy | `normalize_dependencies` and `normalize_gradle_dependencies` |
| `DirectDependencies` | direct.dfy | the managed-version lookup, the final version and `resolved_maven_deps` in `main` |
| `Classification` | classify.dfy | the two classification loops in `main` |
| `Comparison` | comparison.dfy | one iteration of `main`'s loop over POMs, from normalisation to report |

Modelling choices:

- **Python semantics.**
  - Truthiness of an optional string is "present and non-empty".
  - `dict.get` of a missing key is `None`.
  - `{**a, **b}` is the map union `a + b`.
- **Exceptions.** Python raises two kinds of exception, and both become a
  `Result` error (`Records.Failure`):
  - `RecursionError` from a self-referential property chain becomes
    `RecursionLimit`. It occurs when an explicit `fuel` depth allowance runs
    out.
  - `IndexError` from indexing too few `split(':')` pieces becomes
    `IndexOutOfRange`. It can arise at compare_dependencies.py:169 (see
    "## Findings"), :289 and :292.
- **Loops.** Each loop that fills a dictionary is a method with a `while`
  loop. It is proved equal to a specification function, which stores the
  per-element items in order into an empty dictionary (`OrderedDicts.PutAll`).
  The lemmas about the behaviour are proved about those functions.

## Model

| member | source | states |
|---|---|---|
| GradleManifest.ParseGradleKts | parse_gradle.py:5-134 | An unreadable script gives an empty property map and an empty dependency list. Otherwise the properties are the result of the `set` pass, then the `val` pass, then the first `ext { }` block. The dependencies are the records of the matches, in match order. |
| GradleManifest.AssignLastWins | parse_gradle.py:58-69 | Within one `set` or `val` pass, the last stored match for a key decides its value. A reference is stored as `${ref}`. |
| GradleManifest.AssignUntouched | parse_gradle.py:58-69 | A key that no match of a pass stores keeps the value earlier passes gave it. |
| GradleManifest.AssignBlockLastWins | parse_gradle.py:71-78 | Within the `ext { }` block, the last item for a key decides its value. |
| GradleManifest.AssignBlockUntouched | parse_gradle.py:71-78 | A key that no block item stores keeps its earlier value. |
| GradleManifest.PropertyPrecedence | parse_gradle.py:58-78 | A block item beats any `val` declaration, which beats any `set` call. A key that none of them stores is absent. |
| GradleManifest.CoordinatesNamed | parse_gradle.py:99-112 | Coordinates give a name exactly when they contain a `:`. The group is set exactly when the name is, and a version only together with a name. Group and name never contain a `:`. |
| GradleManifest.CoordinatesRoundTrip | parse_gradle.py:99-112 | With a name but no version, the coordinates are exactly `group:name`. With a version, they begin with `group:name:version`, so only further pieces are dropped. |
| GradleManifest.PlatformAlwaysRecorded | parse_gradle.py:90-98 | A platform declaration always yields a record named `platform(...)`. Coordinates without a `:` give the name `platform(None)` and no group. |
| GradleManifest.CoordinateFormRecord | parse_gradle.py:99-132 | The quoted and single-argument forms behave alike. They yield a record exactly when the second `:`-piece exists and is non-empty. The record carries pieces 0, 1 and 2 and the match's configuration. |
| GradleManifest.ProjectAndMapRecords | parse_gradle.py:87-132 | `project(":m")` gives group `project`, name `:m` and no version. The map form yields a record exactly when it has a name, with each capture taken independently. |
| GradleManifest.DependenciesAppend | parse_gradle.py:81-132 | The records of two concatenated match streams are the records of the first stream, then those of the second. |
| GradleManifest.DependenciesProvenance | parse_gradle.py:81-132 | There are no more records than matches. Every record has a name and comes from some match, with that match's configuration. Every match that yields a record has it in the list. |
| PropertyResolution.PropertyValue | compare_dependencies.py:16-49 | A `None` name gives `None`. Any other answer is the name itself or a value stored in one of the two maps. |
| PropertyResolution.PropertyValueFuel | compare_dependencies.py:16-49 | The depth allowance only bounds recursion: an answer found with some allowance is the answer with any larger one. |
| PropertyResolution.PlaceholderStripped | compare_dependencies.py:26-49 | `${k}` and `k` resolve alike when either map has `k`. On a miss in both maps, `${k}` comes back unchanged, wrapper included. |
| PropertyResolution.LocalOverridesGlobal | compare_dependencies.py:33-46 | Looking in the local map, then the global one, equals one lookup in the merged map where local overrides global. This holds when the local map has no `None` values and the global map no placeholders. |
| PropertyResolution.WrapUnwrap | compare_dependencies.py:27-28 | `${k}` is a placeholder whose unwrapped key is `k`. |
| PropertyResolution.EffectiveProperties | compare_dependencies.py:62-65 | POM properties override the parent's, which override the root POM's. The key set is the union of the three. |
| PropertyResolution.ExtKeyParses | compare_dependencies.py:111-114 | The ext-reference pattern matches exactly the strings that begin with `project.ext["k"]` or `rootProject.ext["k"]`, where `k` is a non-empty key without a `"`. |
| PropertyResolution.QuotedKeyOf | compare_dependencies.py:112 | The quoted-key part of the pattern recognises a non-empty, quote-free key followed by `"]`. |
| PropertyResolution.ExtReferenceRoundTrip | compare_dependencies.py:111-114 | A generated `project.ext["k"]` or `rootProject.ext["k"]` parses back to `k`. |
| PropertyResolution.GradleProjectProperty | compare_dependencies.py:103-135 | A `None` name gives `None`. Any other answer is the name or a stored value. Once the local map misses, the answer can only come from the root map. |
| PropertyResolution.GradlePlaceholderNotStripped | compare_dependencies.py:108-117 | A `${...}` name is looked up verbatim, and when neither map has it, it is returned as is. |
| PropertyResolution.GradleProjectPropertyFuel | compare_dependencies.py:103-135 | The depth allowance only bounds recursion. |
| OrderedDicts.PutValid | compare_dependencies.py:100 | `d[k] = v` binds `k` to `v`. An existing key keeps its position, and a new key goes last. |
| OrderedDicts.PutAllLastWins | compare_dependencies.py:68-100 | After a loop of assignments, the last item with a key decides its value. |
| OrderedDicts.PutAllUntouched | compare_dependencies.py:68-100 | A key that no item carries keeps its earlier status and value. |
| OrderedDicts.PutAllInsertionOrder | compare_dependencies.py:68-100 | Keys are listed in the order of their first insertion: overwriting never moves a key. |
| Normalize.DependencyKey | compare_dependencies.py:90-96 | Every key begins with `group:artifact`. |
| Normalize.DependencyKeyRoundTrip | compare_dependencies.py:90-96 | For colon-free pieces, splitting the key gives back group, artifact, then the version and the classifier when they are non-empty. |
| Normalize.EntryOf | compare_dependencies.py:68-100 | A record contributes nothing exactly when it lacks a group or an artifact. It fails exactly when it has both and resolving its version fails. Otherwise its key begins with `group:artifact`. For colon-free pieces, splitting the key gives the group, the artifact, the resolved version when non-empty, and the classifier when non-empty. The entry has the record's scope and `version or "N/A"`. In `is_gradle` mode the key never has a classifier. |
| Normalize.Entries | compare_dependencies.py:68-100 | When every record succeeds, there is one item per record, and item `i` is the contribution of record `i`. |
| Normalize.EntriesStopAtFailure | compare_dependencies.py:68-100 | The first record that fails decides the failure of the whole list. |
| Normalize.NormalizeRecord | compare_dependencies.py:68-100 | The loop body computes the record's contribution. |
| Normalize.CombinedProperties | compare_dependencies.py:59-65 | The combined property map is the effective one: local over parent over root. |
| Normalize.NormalizeDependencies | compare_dependencies.py:52-101 | The loop returns the records' contributions stored in order into an empty dictionary, or the first failure. |
| Normalize.NormalizedKeys | compare_dependencies.py:77-100 | A key is present exactly when some record produces it. It begins with that record's `group:artifact`, and the last record producing it supplies its entry. |
| Normalize.GradleVersion | compare_dependencies.py:151-158 | A version changes only when it is an ext or placeholder reference, or names a local or root property. A non-reference version never fails. |
| Normalize.GradleEntryOf | compare_dependencies.py:142-188 | The corrected normaliser. A record contributes nothing exactly when it lacks a group or a name. It fails exactly when it has both and resolving its version fails. The entry has the record's configuration and `version or "N/A"`. A `platform(...)` name gives a key `platform(...)` containing a `:`; for colon-free coordinates, its content splits into the platform group, artifact and version, where a version inside the platform string overrides the record's own and content without a `:` names an artifact of the record's group. Any other key begins with `group:name`, and for colon-free pieces splits into group, name and the resolved version when non-empty. |
| Normalize.GradleEntryAsWritten | compare_dependencies.py:142-188 | The normaliser as written. Platform content with fewer than two `:`-pieces fails with an index error once the version resolves. In every other case it agrees with `GradleEntryOf`. |
| Normalize.ExtractedPlatformFails | compare_dependencies.py:163-169 | For non-empty, colon-free `g`, `a` and a non-reference `v`, the extractor turns `platform("g:a:v")` into a record with group `g`, name `platform(a)` and version `v`, and the normaliser as written fails on it with an index error on `a`. |
| Normalize.ExtractedPlatformKeyed | compare_dependencies.py:163-178 | With the correction, that record is keyed `platform(g:a:v')`, where `v'` is its resolved version. `v'` is `v` when no property map names `v`. |
| Normalize.PlatformEntry | compare_dependencies.py:163-188 | A platform record whose version resolves is keyed `platform(` + the key of its platform coordinates + `)`. |
| Normalize.PlatformVersionOverrides | compare_dependencies.py:163-171 | A version inside the platform string overrides the record's own: records that differ only in their version get the same key. The extractor never produces such a name (see "## Findings"), so this case arises only for records built otherwise. |
| Normalize.GradleEntries | compare_dependencies.py:142-188 | When every record succeeds, there is one item per record, and item `i` is the corrected contribution of record `i`. |
| Normalize.GradleEntriesStopAtFailure | compare_dependencies.py:142-188 | The first Gradle record that fails decides the failure. |
| Normalize.GradleKeysHaveColon | compare_dependencies.py:179-188 | The normalised Gradle dictionary is well formed, and every key splits into at least two `:`-pieces. |
| Normalize.NormalizeGradleRecord | compare_dependencies.py:142-188 | The loop body computes the record's corrected contribution. |
| Normalize.NormalizeGradleDependencies | compare_dependencies.py:137-189 | The loop returns the corrected contributions stored in order into an empty dictionary, or the first failure. |
| DirectDependencies.ClassifierMatchSpec | compare_dependencies.py:273-279 | The classifier loop finds nothing exactly when no managed key has the form `g:a:...:c`. What it finds is the third piece of the first such key in insertion order. |
| DirectDependencies.PlainMatchSpec | compare_dependencies.py:286-293 | The plain loop finds nothing only when no managed key names `g:a` with the same classifier status. What it finds is the third piece of the first such key in insertion order. It cannot fail when every key has a `:` and every matching key has a version. |
| DirectDependencies.PlainMatchIndex | compare_dependencies.py:286-293 | What the plain loop finds comes from a key that no earlier key naming `g:a` with the same classifier status precedes. |
| DirectDependencies.ManagedVersionProvenance | compare_dependencies.py:270-293 | A managed version is always the piece after `g:a:` of some managed key. |
| DirectDependencies.ClassifierKeyPreferred | compare_dependencies.py:270-293 | With a classifier, when the first managed key of the form `g:a:...:c` is `g:a:v:c` with a non-empty `v`, the lookup gives `v`, whatever plain `g:a:...` keys surround it. |
| DirectDependencies.ClassifierMatchAt | compare_dependencies.py:273-279 | The classifier loop stops at the first key of the form `g:a:...:c` and returns its third piece. |
| DirectDependencies.FindClassifierMatch | compare_dependencies.py:273-281 | The first loop returns the classifier match. |
| DirectDependencies.FindPlainMatch | compare_dependencies.py:285-293 | The second loop returns the plain match, or the index error. |
| DirectDependencies.LookupManagedVersion | compare_dependencies.py:270-293 | The lookup computes the managed version: the classifier loop first, then the plain loop when that gave nothing non-empty. |
| DirectDependencies.FinalVersion | compare_dependencies.py:296-304 | Without a direct version, the result is always non-empty, and it is the managed version when there is one. A direct version not starting `${` is kept. A resolved version is the direct one or a value stored in root ⊕ parent ⊕ local. |
| DirectDependencies.FinalVersionCases | compare_dependencies.py:296-304 | With neither a direct nor a managed version, the result is the "not managed" marker. A `${...}` version is resolved against the effective properties (local over parent over root) with no global map. |
| DirectDependencies.FinalVersionPrecedence | compare_dependencies.py:299-304 | A `${k}` version whose key some map binds to a plain value takes the local value first, then the parent's, then the root's. |
| DirectDependencies.DirectEntryOf | compare_dependencies.py:258-313 | The key begins with `group:artifact`. The entry has the scope and `version or "From Management"`. |
| DirectDependencies.DirectEntryKey | compare_dependencies.py:270-306 | A dependency fails exactly when its managed-version lookup or its final version fails. For colon-free pieces, its key splits into group, artifact, the final version when non-empty and the classifier when non-empty. |
| DirectDependencies.DirectEntries | compare_dependencies.py:256-313 | When every dependency succeeds, there is one item per direct dependency. |
| DirectDependencies.DirectEntriesAt | compare_dependencies.py:256-313 | Item `i` is the entry of dependency `i`. |
| DirectDependencies.DirectEntriesStopAtFailure | compare_dependencies.py:256-313 | The first dependency that fails decides the failure. |
| DirectDependencies.ResolvedKeys | compare_dependencies.py:307-313 | Every direct dependency has its key in the dictionary. Every key splits into at least two pieces and begins with some dependency's `group:artifact`. |
| DirectDependencies.ResolveDirectDependency | compare_dependencies.py:257-313 | The loop body computes the dependency's key and entry. |
| DirectDependencies.ResolveDirectDependencies | compare_dependencies.py:256-313 | The loop returns the entries stored in order, or the first failure. |
| Classification.FirstSameGroupArtifactSpec | compare_dependencies.py:337-349 | The search finds nothing exactly when no key shares the `group:artifact`. What it finds is the first such key in insertion order. |
| Classification.FirstSameGroupArtifactIndex | compare_dependencies.py:337-349 | What the search finds sits at an index that no earlier key with the same `group:artifact` precedes. |
| Classification.FindSameGroupArtifact | compare_dependencies.py:337-349 | The inner `for ... break` loop returns the first key with the `group:artifact`. |
| Classification.MavenMismatchesExactly | compare_dependencies.py:328-349 | The first pass records a mismatch exactly for the Maven keys that are neither test- or provided-scoped nor present verbatim in Gradle, and whose `group:artifact` some Gradle key shares. |
| Classification.MissingInGradleExactly | compare_dependencies.py:328-351 | A Maven key is missing in Gradle exactly when it is not test- or provided-scoped, is absent from Gradle, and no Gradle key shares its `group:artifact`. |
| Classification.MavenKeyMismatchExactly | compare_dependencies.py:328-400 | A Maven key is in `version_mismatch` exactly when the first pass put it there. |
| Classification.GradleKeyMismatchExactly | compare_dependencies.py:359-396 | A Gradle-only key is a mismatch exactly when all of these hold: it is not skipped, the first Maven key with its `group:artifact` was not itself reported (it is test- or provided-scoped, or present verbatim in Gradle), and their version pieces differ. The recorded versions differ. |
| Classification.OnlyInGradleExactly | compare_dependencies.py:359-400 | A Gradle key is only in Gradle exactly when all of these hold: it is not skipped, it is absent from Maven, no Maven key shares its `group:artifact`, and it is not an `org.jetbrains.kotlin`/`org.gradle` key. |
| Classification.BucketsDisjoint | compare_dependencies.py:322-400 | No key is in two buckets. |
| Classification.NeverReported | compare_dependencies.py:328-355 | A test- or provided-scoped Maven key, and a Maven key present verbatim in Gradle, are in no bucket. |
| Classification.FileMavenKey | compare_dependencies.py:328-351 | The first loop's body adds the key's item to its bucket. |
| Classification.CompareMavenToGradle | compare_dependencies.py:327-355 | The first loop fills `missing_in_gradle` and `version_mismatch` as specified. |
| Classification.MismatchesSoFar | compare_dependencies.py:381 | During the second loop, the `not in version_mismatch` checks see only what the first loop recorded. |
| Classification.FileGradleKey | compare_dependencies.py:359-400 | The second loop's body adds the key's items. |
| Classification.CompareGradleToMaven | compare_dependencies.py:358-400 | The second loop extends `version_mismatch` and fills `present_in_gradle_not_in_maven` as specified. |
| Classification.Classify | compare_dependencies.py:322-400 | Both loops, in order, give the report. |
| Comparison.ModuleReport | compare_dependencies.py:244-400 | A report exists only when both normalisations succeed, the Gradle one being the corrected normaliser. |
| Comparison.CompareModule | compare_dependencies.py:244-400 | Normalising (with the corrected Gradle normaliser), resolving and classifying, in program order, give the report or the first failure. |
| Comparison.MavenReportedKeysAreDirect | compare_dependencies.py:256-351 | Every key reported missing in Gradle begins with the `group:artifact` of one of the POM's direct dependencies. |

## Left out

- The regular expressions of parse_gradle.py. Each hit is an abstract, tagged match given as input, in text order. For the map form, each key's first `key = "..."` capture is given.
- Reading files and JSON, and printing: `load_json_file`, the error messages, and the report output at compare_dependencies.py:403-432. Reading a script becomes the `Unreadable` case.
- Pairing files in `main`: choosing the root POM and root Gradle script, the parent POM by `os.path` (compare_dependencies.py:200-241), and the Gradle script matching each POM. The parent and root property maps are parameters of `Comparison.CompareModule`.
- parse_pom.py is not part of this model, beyond the record shapes in `Records`.
- The Gradle build scripts, Daemon.java and version.cpp are not part of this model. They are declarative configuration, a concurrency helper and generated constants.
- Version pinning, code generation and shading are done by the Gradle build scripts and their plugins, not by the two scripts modelled here, and are not part of this model.
- PropertyResolution.PropertyValue and PropertyResolution.GradleProjectProperty take a `fuel` depth allowance. Running out gives `RecursionLimit`, which stands for Python's `RecursionError` on a self-referential property chain. The model does not tie the allowance to Python's actual recursion limit.
- Records.DirectDependency: a direct dependency's group and artifact are plain strings. The extractor emits only dependencies that have both, and the comparator would fail on a missing one (`dep_info['groupId']`).
- Text.Lower: lower-cases ASCII letters only, where Python's `lower()` covers all of Unicode. Only configuration names are lower-cased.
- Classification.GradleMismatchItem: the `maven_scope` fallback `"N/A"` at compare_dependencies.py:394 is not modelled. The Maven key found always comes from `resolved_maven_deps`, so the fallback never applies.
- Comparison.ModuleReport: its own contract states only which stages succeeded. What the report holds is stated by the `Classification` lemmas about `ReportFor`, and `Comparison.CompareModule` is proved against `ModuleReport`.
- Normalize.NormalizeGradleDependencies: runs the corrected per-record normaliser `Normalize.GradleEntryOf`. For a literal `platform("g:a[:v]")` declaration with a group, it returns a key `platform(g:a[:v'])` where the program raises `IndexError` at compare_dependencies.py:169 (see "## Findings"). The behaviour as written is `Normalize.GradleEntryAsWritten`.
- Normalize.GradleNormalized: specifies the corrected Gradle normaliser, so it likewise gives a key in the literal `platform("g:a[:v]")` case where the program raises `IndexError`.
- Normalize.GradleEntries: lists the corrected contributions, with the same difference in the literal `platform("g:a[:v]")` case.
- Comparison.ModuleReport: uses the corrected Gradle normaliser, so it gives a report for a manifest with a literal `platform("g:a[:v]")` declaration with a group, where `main` aborts with `IndexError`.
- Comparison.CompareModule: likewise returns a report in the literal `platform("g:a[:v]")` case, where `main` aborts with `IndexError`.
- DirectDependencies.DirectEntries: its own contract states the length only. The per-item statement is `DirectDependencies.DirectEntriesAt`.

## Findings

| source | as written | input that shows it | evidently intended | confidence | as-written member | corrected member |
|---|---|---|---|---|---|---|
| compare_dependencies.py:163-169 | The extractor (parse_gradle.py:91-98) names a platform record `platform(<artifact>)` after taking the group and version out of the coordinates. The normaliser splits the text inside `platform(...)` and reads `platform_parts[1]`, which raises `IndexError` when that text has no `:`. So every platform declaration with a group crashes the comparison. | a `platform("g:a:v")` declaration with `g`, `a` and `v` non-empty and colon-free, and `v` not a property reference | the record is keyed `platform(g:a:v')` from its own group, artifact and resolved version `v'` | not executed | Normalize.ExtractedPlatformFails | Normalize.ExtractedPlatformKeyed |

`Normalize.ExtractedPlatformFails` is stated over `Normalize.GradleEntryAsWritten`, the code as written. `Normalize.ExtractedPlatformKeyed` is stated over `Normalize.GradleEntryOf`, the corrected definition that `Normalize.GradleNormalized` and `Normalize.NormalizeGradleDependencies` use.
