/** The two normalisers of compare_dependencies.py: `normalize_dependencies`
    (Maven lists, and Gradle lists in its `is_gradle` mode) and
    `normalize_gradle_dependencies`. Each turns a dependency list into an
    insertion-ordered dictionary keyed `group:artifact[:version][:classifier]`. */
module Normalize {
  import opened Wrappers
  import opened Text
  import opened OrderedDicts
  import opened Records
  import opened PropertyResolution
  import GradleManifest

  /** What `normalize_dependencies` stores per key. */
  datatype NormalizedEntry = NormalizedEntry(scope: Option<string>, config: Option<string>, originalVersion: string)

  /** What `normalize_gradle_dependencies` stores per key. */
  datatype GradleEntry = GradleEntry(config: string, originalVersion: string)

  predicate Truthy(s: Option<string>) {
    GradleManifest.Truthy(s)
  }

  /** `v or "N/A"`. */
  function OrNA(v: Option<string>): string {
    if Truthy(v) then v.value else "N/A"
  }

  // ------------------------------------------------ reading a record's fields

  /** `groupId` of a POM record, or `group` of a Gradle record in `is_gradle` mode. */
  function GroupField(d: DependencyRecord, isGradle: bool): Option<string> {
    match d
    case FromPom(p) => if isGradle then None else p.groupId
    case FromGradle(g) => if isGradle then g.group else None
  }

  /** `artifactId` of a POM record, or `name` of a Gradle record in `is_gradle` mode. */
  function ArtifactField(d: DependencyRecord, isGradle: bool): Option<string> {
    match d
    case FromPom(p) => if isGradle then None else p.artifactId
    case FromGradle(g) => if isGradle then g.name else None
  }

  /** Both record shapes have a `version`. */
  function VersionField(d: DependencyRecord): Option<string> {
    match d
    case FromPom(p) => p.version
    case FromGradle(g) => g.version
  }

  function ScopeField(d: DependencyRecord): Option<string> {
    match d
    case FromPom(p) => p.scope
    case FromGradle(_) => None
  }

  /** The classifier is read in Maven mode only. */
  function ClassifierField(d: DependencyRecord, isGradle: bool): Option<string> {
    match d
    case FromPom(p) => if isGradle then None else p.classifier
    case FromGradle(_) => None
  }

  /** The configuration is read in `is_gradle` mode only. */
  function ConfigField(d: DependencyRecord, isGradle: bool): Option<string> {
    match d
    case FromPom(_) => None
    case FromGradle(g) => if isGradle then Some(g.config) else None
  }

  // ------------------------------------------------------------------ keys

  /** The pieces of a dependency key: group, artifact, then the version and
      the classifier when they are non-empty. */
  function KeyParts(g: string, a: string, version: Option<string>, classifier: Option<string>): seq<string> {
    [g, a] + (if Truthy(version) then [version.value] else []) + (if Truthy(classifier) then [classifier.value] else [])
  }

  /** `':'.join(key_parts)`: the key begins with `group:artifact`. */
  function DependencyKey(g: string, a: string, version: Option<string>, classifier: Option<string>): (k: string)
    ensures StartsWith(k, g + ":" + a)
  {
    var parts := KeyParts(g, a, version, classifier);
    JoinOfTwoOrMore(parts);
    Join(parts, ':')
  }

  /** No piece that goes into a key contains ':'. */
  predicate ColonFree(g: string, a: string, version: Option<string>, classifier: Option<string>) {
    && ':' !in g && ':' !in a
    && (Truthy(version) ==> ':' !in version.value)
    && (Truthy(classifier) ==> ':' !in classifier.value)
  }

  /** When no piece contains ':', splitting a key recovers exactly its pieces,
      so distinct colon-free coordinates never share a key. */
  lemma DependencyKeyRoundTrip(g: string, a: string, version: Option<string>, classifier: Option<string>)
    ensures ColonFree(g, a, version, classifier) ==>
      Split(DependencyKey(g, a, version, classifier), ':') == KeyParts(g, a, version, classifier)
  {
    if ColonFree(g, a, version, classifier) {
      SplitOfJoin(KeyParts(g, a, version, classifier), ':');
    }
  }

  /** A join of two or more pieces begins with `first:second`. */
  lemma JoinOfTwoOrMore(parts: seq<string>)
    requires |parts| >= 2
    ensures StartsWith(Join(parts, ':'), parts[0] + ":" + parts[1])
  {
    var rest := Join(parts[1..], ':');
    assert Join(parts, ':') == parts[0] + ":" + rest;
    JoinStartsWithFirst(parts[1..], ':');
    StartsWithConcat(Join(parts, ':'), parts[0] + ":", parts[1]);
    assert parts[0] + ":" + parts[1] == (parts[0] + ":") + parts[1];
    assert Join(parts, ':')[|parts[0] + ":"|..] == rest;
  }

  /** A string that begins with `g:a` contains a ':'. */
  lemma ColonInKey(k: string, g: string, a: string)
    requires StartsWith(k, g + ":" + a)
    ensures ':' in k
  {
    assert k[|g|] == (g + ":" + a)[|g|] == ':';
  }

  // ------------------------------------------------------ normalize_dependencies

  /** The key and entry one record contributes, `None` when it lacks a group
      or an artifact; only resolving the version can fail. The key's pieces
      are the group, the artifact, the resolved version when it is non-empty
      and, outside `is_gradle` mode, the classifier when it is non-empty. */
  function EntryOf(d: DependencyRecord, isGradle: bool, combined: Props, global: Props, fuel: nat)
    : (r: Result<Option<(string, NormalizedEntry)>, Failure>)
    ensures r.Ok? && r.value.None? <==>
      (!Truthy(GroupField(d, isGradle)) || !Truthy(ArtifactField(d, isGradle)))
    ensures r.Err? <==> (Truthy(GroupField(d, isGradle)) && Truthy(ArtifactField(d, isGradle)) &&
                         PropertyValue(VersionField(d), combined, if isGradle then map[] else global, fuel).Err?)
    ensures r.Ok? && r.value.Some? ==>
      var g, a := GroupField(d, isGradle).value, ArtifactField(d, isGradle).value;
      var resolved := PropertyValue(VersionField(d), combined, if isGradle then map[] else global, fuel).value;
      && StartsWith(r.value.value.0, g + ":" + a)
      && (ColonFree(g, a, resolved, ClassifierField(d, isGradle)) ==>
            Split(r.value.value.0, ':') == KeyParts(g, a, resolved, ClassifierField(d, isGradle)))
      && r.value.value.1.scope == ScopeField(d)
      && r.value.value.1.originalVersion == OrNA(VersionField(d))
    ensures r.Ok? && r.value.Some? && isGradle ==>
      exists v :: r.value.value.0 == DependencyKey(GroupField(d, isGradle).value, ArtifactField(d, isGradle).value, v, None)
  {
    var g, a := GroupField(d, isGradle), ArtifactField(d, isGradle);
    if !Truthy(g) || !Truthy(a) then Ok(None)
    else
      match PropertyValue(VersionField(d), combined, if isGradle then map[] else global, fuel)
      case Err(e) => Err(e)
      case Ok(resolved) =>
        var classifier := if Truthy(ClassifierField(d, isGradle)) && !isGradle then ClassifierField(d, isGradle) else None;
        DependencyKeyRoundTrip(g.value, a.value, resolved, classifier);
        Ok(Some((DependencyKey(g.value, a.value, resolved, classifier),
                 NormalizedEntry(ScopeField(d), ConfigField(d, isGradle), OrNA(VersionField(d))))))
  }

  /** The contributions of all records, in order, or the first failure. */
  function Entries(deps: seq<DependencyRecord>, isGradle: bool, combined: Props, global: Props, fuel: nat)
    : (r: Result<seq<Option<(string, NormalizedEntry)>>, Failure>)
    ensures r.Ok? ==> (|r.value| == |deps| &&
      forall i :: 0 <= i < |deps| ==> EntryOf(deps[i], isGradle, combined, global, fuel) == Ok(r.value[i]))
    decreases |deps|
  {
    if deps == [] then Ok([])
    else
      var before :- Entries(deps[..|deps| - 1], isGradle, combined, global, fuel);
      var e :- EntryOf(deps[|deps| - 1], isGradle, combined, global, fuel);
      Ok(before + [e])
  }

  /** The first record whose entry fails decides the failure of the whole list. */
  lemma {:induction false} EntriesStopAtFailure(deps: seq<DependencyRecord>, i: nat, isGradle: bool,
                                                combined: Props, global: Props, fuel: nat)
    requires i < |deps|
    requires Entries(deps[..i], isGradle, combined, global, fuel).Ok?
    requires EntryOf(deps[i], isGradle, combined, global, fuel).Err?
    ensures Entries(deps, isGradle, combined, global, fuel) == Err(EntryOf(deps[i], isGradle, combined, global, fuel).error)
    decreases |deps|
  {
    var init := deps[..|deps| - 1];
    if i == |deps| - 1 {
      assert init == deps[..i];
    } else {
      assert init[..i] == deps[..i];
      assert init[i] == deps[i];
      EntriesStopAtFailure(init, i, isGradle, combined, global, fuel);
    }
  }

  /** What `normalize_dependencies` returns: the records' entries stored in
      order into an empty dictionary. */
  function Normalized(deps: seq<DependencyRecord>, props: Props, parent: Props, isGradle: bool, root: Props, fuel: nat)
    : Result<Dict<NormalizedEntry>, Failure>
  {
    var items :- Entries(deps, isGradle, EffectiveProperties(props, parent, root), root, fuel);
    Ok(PutAll(Empty(), items))
  }

  /** One more record whose entry succeeds stores that entry, if any. */
  lemma NormalizedStep(deps: seq<DependencyRecord>, i: nat, props: Props, parent: Props, isGradle: bool,
                       root: Props, fuel: nat)
    requires i < |deps|
    requires Normalized(deps[..i], props, parent, isGradle, root, fuel).Ok?
    requires EntryOf(deps[i], isGradle, EffectiveProperties(props, parent, root), root, fuel).Ok?
    ensures var e := EntryOf(deps[i], isGradle, EffectiveProperties(props, parent, root), root, fuel).value;
      var before := Normalized(deps[..i], props, parent, isGradle, root, fuel).value;
      Normalized(deps[..i + 1], props, parent, isGradle, root, fuel)
        == Ok(if e.Some? then before.Put(e.value.0, e.value.1) else before)
  {
    var combined := EffectiveProperties(props, parent, root);
    assert deps[..i + 1][..i] == deps[..i];
    var items := Entries(deps[..i], isGradle, combined, root, fuel).value;
    var e := EntryOf(deps[i], isGradle, combined, root, fuel).value;
    assert Entries(deps[..i + 1], isGradle, combined, root, fuel) == Ok(items + [e]);
    PutAllSnoc(Empty(), items, e);
  }

  /** A record whose entry fails fails the whole dictionary. */
  lemma NormalizedStopsAtFailure(deps: seq<DependencyRecord>, i: nat, props: Props, parent: Props, isGradle: bool,
                                 root: Props, fuel: nat)
    requires i < |deps|
    requires Normalized(deps[..i], props, parent, isGradle, root, fuel).Ok?
    requires EntryOf(deps[i], isGradle, EffectiveProperties(props, parent, root), root, fuel).Err?
    ensures Normalized(deps, props, parent, isGradle, root, fuel)
         == Err(EntryOf(deps[i], isGradle, EffectiveProperties(props, parent, root), root, fuel).error)
  {
    EntriesStopAtFailure(deps, i, isGradle, EffectiveProperties(props, parent, root), root, fuel);
  }

  /** The body of the loop of `normalize_dependencies` for one record. */
  method NormalizeRecord(dep: DependencyRecord, isGradle: bool, combined: Props, root: Props, fuel: nat)
    returns (r: Result<Option<(string, NormalizedEntry)>, Failure>)
    ensures r == EntryOf(dep, isGradle, combined, root, fuel)
  {
    var g, a := GroupField(dep, isGradle), ArtifactField(dep, isGradle);
    var v := VersionField(dep);
    var s := ScopeField(dep);
    var classifier := ClassifierField(dep, isGradle);
    var config := ConfigField(dep, isGradle);
    if !Truthy(g) || !Truthy(a) {
      return Ok(None);
    }
    var resolved :- PropertyValue(v, combined, if isGradle then map[] else root, fuel);
    var keyParts := [g.value, a.value];
    if Truthy(resolved) {
      keyParts := keyParts + [resolved.value];
    }
    if Truthy(classifier) && !isGradle {
      keyParts := keyParts + [classifier.value];
    }
    assert keyParts == KeyParts(g.value, a.value, resolved, if Truthy(classifier) && !isGradle then classifier else None);
    var key := Join(keyParts, ':');
    r := Ok(Some((key, NormalizedEntry(s, config, OrNA(v)))));
  }

  /** Local properties over the parent's, and both over the root's when
      there are any. */
  method CombinedProperties(props: Props, parent: Props, root: Props) returns (combined: Props)
    ensures combined == EffectiveProperties(props, parent, root)
  {
    combined := parent + props;
    if root != map[] {
      combined := root + combined;
    } else {
      assert map[] + combined == combined;
    }
  }

  /** `normalize_dependencies(deps, props, parent, is_gradle, root)`. */
  method NormalizeDependencies(deps: seq<DependencyRecord>, props: Props, parent: Props, isGradle: bool,
                               root: Props, fuel: nat)
    returns (r: Result<Dict<NormalizedEntry>, Failure>)
    ensures r == Normalized(deps, props, parent, isGradle, root, fuel)
  {
    var combined := CombinedProperties(props, parent, root);
    var normalized: Dict<NormalizedEntry> := Empty();
    assert deps[..0] == [];
    var i := 0;
    while i < |deps|
      invariant 0 <= i <= |deps|
      invariant Normalized(deps[..i], props, parent, isGradle, root, fuel) == Ok(normalized)
    {
      var e := NormalizeRecord(deps[i], isGradle, combined, root, fuel);
      if e.Err? {
        NormalizedStopsAtFailure(deps, i, props, parent, isGradle, root, fuel);
        return Err(e.error);
      }
      NormalizedStep(deps, i, props, parent, isGradle, root, fuel);
      if e.value.Some? {
        normalized := normalized.Put(e.value.value.0, e.value.value.1);
      }
      i := i + 1;
    }
    assert deps[..i] == deps;
    r := Ok(normalized);
  }

  /** Keys of the normalised dictionary: a key is present exactly when some
      record with a group and an artifact produces it; it begins with that
      record's `group:artifact`; and the last such record supplies its entry. */
  lemma {:induction false} NormalizedKeys(deps: seq<DependencyRecord>, props: Props, parent: Props,
                                          isGradle: bool, root: Props, fuel: nat)
    requires Normalized(deps, props, parent, isGradle, root, fuel).Ok?
    ensures var d := Normalized(deps, props, parent, isGradle, root, fuel).value;
      var combined := EffectiveProperties(props, parent, root);
      && d.Valid()
      && (forall k :: k in d.entries <==>
            exists i :: 0 <= i < |deps| && EntryOf(deps[i], isGradle, combined, root, fuel).value.Some?
                        && EntryOf(deps[i], isGradle, combined, root, fuel).value.value.0 == k)
      && (forall i :: 0 <= i < |deps| && EntryOf(deps[i], isGradle, combined, root, fuel).value.Some? ==>
            var k := EntryOf(deps[i], isGradle, combined, root, fuel).value.value.0;
            StartsWith(k, GroupField(deps[i], isGradle).value + ":" + ArtifactField(deps[i], isGradle).value)
            && ((forall j :: i < j < |deps| ==> !(EntryOf(deps[j], isGradle, combined, root, fuel).value.Some? &&
                                                 EntryOf(deps[j], isGradle, combined, root, fuel).value.value.0 == k))
                ==> d.entries[k] == EntryOf(deps[i], isGradle, combined, root, fuel).value.value.1))
  {
    var combined := EffectiveProperties(props, parent, root);
    var items := Entries(deps, isGradle, combined, root, fuel).value;
    var d := PutAll(Empty(), items);
    PutAllKeys(Empty(), items);
    forall k ensures k in d.entries <==>
      exists i :: 0 <= i < |deps| && EntryOf(deps[i], isGradle, combined, root, fuel).value.Some?
                  && EntryOf(deps[i], isGradle, combined, root, fuel).value.value.0 == k
    {
      if k in d.entries {
        var n :| HasKey(items, n, k);
        assert EntryOf(deps[n], isGradle, combined, root, fuel) == Ok(items[n]);
      }
      if exists i :: 0 <= i < |deps| && EntryOf(deps[i], isGradle, combined, root, fuel).value.Some?
                     && EntryOf(deps[i], isGradle, combined, root, fuel).value.value.0 == k {
        var i :| 0 <= i < |deps| && EntryOf(deps[i], isGradle, combined, root, fuel).value.Some?
                 && EntryOf(deps[i], isGradle, combined, root, fuel).value.value.0 == k;
        assert HasKey(items, i, k);
      }
    }
    forall i | 0 <= i < |deps| && EntryOf(deps[i], isGradle, combined, root, fuel).value.Some?
      ensures var k := EntryOf(deps[i], isGradle, combined, root, fuel).value.value.0;
        (forall j :: i < j < |deps| ==> !(EntryOf(deps[j], isGradle, combined, root, fuel).value.Some? &&
                                          EntryOf(deps[j], isGradle, combined, root, fuel).value.value.0 == k))
        ==> d.entries[k] == EntryOf(deps[i], isGradle, combined, root, fuel).value.value.1
    {
      var k := EntryOf(deps[i], isGradle, combined, root, fuel).value.value.0;
      if forall j :: i < j < |deps| ==> !(EntryOf(deps[j], isGradle, combined, root, fuel).value.Some? &&
                                          EntryOf(deps[j], isGradle, combined, root, fuel).value.value.0 == k) {
        forall m | i < m < |items| ensures !HasKey(items, m, k) {
          assert EntryOf(deps[m], isGradle, combined, root, fuel) == Ok(items[m]);
        }
        PutAllLastWins(Empty(), items, k, i);
      }
    }
  }

  // --------------------------------------------- normalize_gradle_dependencies

  /** The version string is an ext reference or a `${...}` placeholder. */
  predicate IsVersionReference(v: string) {
    StartsWith(v, ProjectExt) || StartsWith(v, RootProjectExt) || IsPlaceholder(v)
  }

  /** The version after resolution: references go through
      `get_gradle_project_property`; otherwise a version naming a local
      property with a non-empty value takes that value, then likewise for a
      root property; any other version is kept as written. */
  function GradleVersion(v: Option<string>, props: map<string, string>, root: map<string, string>, fuel: nat)
    : (r: Result<Option<string>, Failure>)
    ensures r.Ok? && r.value != v ==>
      Truthy(v) && (IsVersionReference(v.value) || v.value in props || v.value in root)
    ensures Truthy(v) && !IsVersionReference(v.value) ==> r.Ok?
  {
    if Truthy(v) && IsVersionReference(v.value) then GradleProjectProperty(v, props, root, fuel)
    else if Truthy(v) && v.value in props && props[v.value] != "" then Ok(Some(props[v.value]))
    else if Truthy(v) && v.value in root && root[v.value] != "" then Ok(Some(root[v.value]))
    else Ok(v)
  }

  const PlatformOpen: string := "platform("

  /** `name.startswith("platform(") and name.endswith(")")`. */
  predicate IsPlatformName(a: string) {
    StartsWith(a, PlatformOpen) && EndsWith(a, ")")
  }

  /** `name[len("platform("):-1]`. */
  function PlatformContent(a: string): string
    requires IsPlatformName(a)
  {
    assert a[8] == a[..9][8] == '(';
    assert a[|a| - 1] == a[|a| - 1..][0] == ')';
    a[9..|a| - 1]
  }

  /** The group, artifact and version a platform key is built from: the
      `:`-pieces of the text inside `platform(...)`, a third piece overriding
      the resolved version. Text without a ':' (what the extractor writes,
      `platform(<artifact>)`) names an artifact of the record's own group;
      this case is the correction recorded under Findings in the README. */
  function PlatformCoordinates(group: string, content: string, resolved: Option<string>)
    : (string, string, Option<string>)
  {
    var parts := Split(content, ':');
    if |parts| < 2 then (group, content, resolved)
    else (parts[0], parts[1], if |parts| > 2 then Some(parts[2]) else resolved)
  }

  /** `platform(` + `key` + `)` is a platform name whose content is `key`. */
  lemma PlatformWrap(key: string)
    ensures IsPlatformName(PlatformOpen + key + ")")
    ensures PlatformContent(PlatformOpen + key + ")") == key
  {
    var k := PlatformOpen + key + ")";
    assert k[..9] == PlatformOpen;
    assert k[|k| - 1..] == ")";
    assert k[9..|k| - 1] == key;
  }

  /** The key and entry one Gradle record contributes, `None` when it lacks
      a group or a name; only resolving the version can fail. A platform
      record is keyed `platform(g:a[:v])` with the pieces of
      `PlatformCoordinates`; any other key's pieces are the group, the name
      and the resolved version when it is non-empty. */
  function GradleEntryOf(d: GradleManifest.GradleDependency, props: map<string, string>, root: map<string, string>, fuel: nat)
    : (r: Result<Option<(string, GradleEntry)>, Failure>)
    ensures r.Ok? && r.value.None? <==> !Truthy(d.group) || !Truthy(d.name)
    ensures r.Err? <==> Truthy(d.group) && Truthy(d.name) && GradleVersion(d.version, props, root, fuel).Err?
    ensures r.Ok? && r.value.Some? ==>
      var k := r.value.value.0;
      var resolved := GradleVersion(d.version, props, root, fuel).value;
      && r.value.value.1 == GradleEntry(d.config, OrNA(d.version))
      && (IsPlatformName(d.name.value) ==>
            var (pg, pa, pv) := PlatformCoordinates(d.group.value, PlatformContent(d.name.value), resolved);
            && IsPlatformName(k) && ':' in k
            && (ColonFree(pg, pa, pv, None) ==> Split(PlatformContent(k), ':') == KeyParts(pg, pa, pv, None)))
      && (!IsPlatformName(d.name.value) ==>
            && StartsWith(k, d.group.value + ":" + d.name.value)
            && (ColonFree(d.group.value, d.name.value, resolved, None) ==>
                  Split(k, ':') == KeyParts(d.group.value, d.name.value, resolved, None)))
  {
    var g, a, v := d.group, d.name, d.version;
    if !Truthy(g) || !Truthy(a) then Ok(None)
    else
      match GradleVersion(v, props, root, fuel)
      case Err(e) => Err(e)
      case Ok(resolved) =>
        var entry := GradleEntry(d.config, OrNA(v));
        if IsPlatformName(a.value) then
          var (pg, pa, pv) := PlatformCoordinates(g.value, PlatformContent(a.value), resolved);
          var inner := DependencyKey(pg, pa, pv, None);
          DependencyKeyRoundTrip(pg, pa, pv, None);
          PlatformWrap(inner);
          ColonInKey(inner, pg, pa);
          assert ':' in PlatformOpen + inner + ")" by {
            var j :| 0 <= j < |inner| && inner[j] == ':';
            assert (PlatformOpen + inner + ")")[9 + j] == ':';
          }
          Ok(Some((PlatformOpen + inner + ")", entry)))
        else
          DependencyKeyRoundTrip(g.value, a.value, resolved, None);
          Ok(Some((DependencyKey(g.value, a.value, resolved, None), entry)))
  }

  /** One record as lines 142-188 of compare_dependencies.py are written:
      platform content with fewer than two `:`-pieces fails on
      `platform_parts[1]`. Outside that case it agrees with `GradleEntryOf`. */
  function GradleEntryAsWritten(d: GradleManifest.GradleDependency, props: map<string, string>,
                                root: map<string, string>, fuel: nat)
    : (r: Result<Option<(string, GradleEntry)>, Failure>)
    ensures Truthy(d.group) && Truthy(d.name) && IsPlatformName(d.name.value) &&
            |Split(PlatformContent(d.name.value), ':')| < 2 && GradleVersion(d.version, props, root, fuel).Ok? ==>
      r == Err(IndexOutOfRange(PlatformContent(d.name.value)))
    ensures !(Truthy(d.group) && Truthy(d.name) && IsPlatformName(d.name.value) &&
              |Split(PlatformContent(d.name.value), ':')| < 2) ==>
      r == GradleEntryOf(d, props, root, fuel)
  {
    var g, a, v := d.group, d.name, d.version;
    if !Truthy(g) || !Truthy(a) then Ok(None)
    else
      match GradleVersion(v, props, root, fuel)
      case Err(e) => Err(e)
      case Ok(resolved) =>
        var entry := GradleEntry(d.config, OrNA(v));
        if IsPlatformName(a.value) then
          var parts := Split(PlatformContent(a.value), ':');
          if |parts| < 2 then Err(IndexOutOfRange(PlatformContent(a.value)))
          else
            var version :=
              if |parts| > 2 then Ok(Some(parts[2]))
              else if Truthy(v) && IsVersionReference(v.value) then GradleProjectProperty(v, props, root, fuel)
              else Ok(resolved);
            match version
            case Err(e) => Err(e)
            case Ok(pv) => Ok(Some((PlatformOpen + DependencyKey(parts[0], parts[1], pv, None) + ")", entry)))
        else
          Ok(Some((DependencyKey(g.value, a.value, resolved, None), entry)))
  }

  /** `g:a:v` splits into its three pieces. */
  lemma ThreePieces(g: string, a: string, v: string)
    requires ':' !in g && ':' !in a && ':' !in v
    ensures Split(g + ":" + a + ":" + v, ':') == [g, a, v]
  {
    var parts := [g, a, v];
    assert parts[1..] == [a, v] && parts[1..][1..] == [v];
    assert Join([a, v], ':') == a + ":" + v;
    assert Join(parts, ':') == g + ":" + (a + ":" + v);
    assert g + ":" + a + ":" + v == g + ":" + (a + ":" + v);
    SplitOfJoin(parts, ':');
  }

  /** A string without ':' is a single piece. */
  lemma OnePiece(s: string)
    requires ':' !in s
    ensures Split(s, ':') == [s]
  {
  }

  /** As written, every `platform("g:a:v")` declaration with a group fails:
      the extractor names its record `platform(a)`, and splitting `a` gives
      one piece, so the normaliser's `platform_parts[1]` raises. */
  lemma ExtractedPlatformFails(config: string, g: string, a: string, v: string,
                               props: map<string, string>, root: map<string, string>, fuel: nat)
    requires g != "" && a != "" && v != ""
    requires ':' !in g && ':' !in a && ':' !in v
    requires !IsVersionReference(v)
    ensures GradleManifest.RecordOf(GradleManifest.DependencyMatch(config, GradleManifest.PlatformCoords(g + ":" + a + ":" + v)))
         == Some(GradleManifest.GradleDependency(Some(g), Some(PlatformOpen + a + ")"), Some(v), config))
    ensures GradleEntryAsWritten(GradleManifest.GradleDependency(Some(g), Some(PlatformOpen + a + ")"), Some(v), config),
                                 props, root, fuel)
         == Err(IndexOutOfRange(a))
  {
    ThreePieces(g, a, v);
    PlatformWrap(a);
    OnePiece(a);
    assert "platform(" + GradleManifest.Show(Some(a)) + ")" == PlatformOpen + a + ")";
  }

  /** With the correction, the same record is keyed `platform(g:a:v')`,
      `v'` being its resolved version, which is `v` itself when no property
      map names it. */
  lemma ExtractedPlatformKeyed(config: string, g: string, a: string, v: string,
                               props: map<string, string>, root: map<string, string>, fuel: nat)
    requires g != "" && a != "" && v != ""
    requires ':' !in g && ':' !in a && ':' !in v
    requires !IsVersionReference(v)
    ensures var d := GradleManifest.GradleDependency(Some(g), Some(PlatformOpen + a + ")"), Some(v), config);
      var resolved := GradleVersion(Some(v), props, root, fuel);
      && resolved.Ok?
      && GradleEntryOf(d, props, root, fuel)
         == Ok(Some((PlatformOpen + DependencyKey(g, a, resolved.value, None) + ")", GradleEntry(config, v))))
      && (v !in props && v !in root ==> resolved == Ok(Some(v)))
      && DependencyKey(g, a, Some(v), None) == g + ":" + a + ":" + v
  {
    var d := GradleManifest.GradleDependency(Some(g), Some(PlatformOpen + a + ")"), Some(v), config);
    PlatformWrap(a);
    OnePiece(a);
    PlatformEntry(d, props, root, fuel);
    KeyOfThree(g, a, v);
  }

  /** A platform record whose version resolves is keyed by its platform
      coordinates. */
  lemma PlatformEntry(d: GradleManifest.GradleDependency, props: map<string, string>, root: map<string, string>, fuel: nat)
    requires Truthy(d.group) && Truthy(d.name) && IsPlatformName(d.name.value)
    requires GradleVersion(d.version, props, root, fuel).Ok?
    ensures var (pg, pa, pv) :=
      PlatformCoordinates(d.group.value, PlatformContent(d.name.value), GradleVersion(d.version, props, root, fuel).value);
      GradleEntryOf(d, props, root, fuel)
        == Ok(Some((PlatformOpen + DependencyKey(pg, pa, pv, None) + ")", GradleEntry(d.config, OrNA(d.version)))))
  {
  }

  /** The key of `g`, `a` and a non-empty `v` is `g:a:v`. */
  lemma KeyOfThree(g: string, a: string, v: string)
    requires v != ""
    ensures DependencyKey(g, a, Some(v), None) == g + ":" + a + ":" + v
  {
    var parts := [g, a, v];
    assert KeyParts(g, a, Some(v), None) == parts;
    assert parts[1..] == [a, v] && parts[1..][1..] == [v];
    assert Join([a, v], ':') == a + ":" + v;
    assert Join(parts, ':') == g + ":" + (a + ":" + v);
  }

  /** A version written inside the platform string overrides the record's
      own: two records that differ only in their version get the same key. */
  lemma PlatformVersionOverrides(d: GradleManifest.GradleDependency, other: Option<string>,
                                 props: map<string, string>, root: map<string, string>, fuel: nat)
    requires Truthy(d.group) && Truthy(d.name) && IsPlatformName(d.name.value)
    requires |Split(PlatformContent(d.name.value), ':')| > 2
    requires GradleEntryOf(d, props, root, fuel).Ok?
    requires GradleEntryOf(d.(version := other), props, root, fuel).Ok?
    ensures GradleEntryOf(d, props, root, fuel).value.value.0
         == GradleEntryOf(d.(version := other), props, root, fuel).value.value.0
  {
  }

  /** The contributions of all Gradle records, in order, or the first failure. */
  function GradleEntries(deps: seq<GradleManifest.GradleDependency>, props: map<string, string>,
                         root: map<string, string>, fuel: nat)
    : (r: Result<seq<Option<(string, GradleEntry)>>, Failure>)
    ensures r.Ok? ==> (|r.value| == |deps| &&
      forall i :: 0 <= i < |deps| ==> GradleEntryOf(deps[i], props, root, fuel) == Ok(r.value[i]))
    decreases |deps|
  {
    if deps == [] then Ok([])
    else
      var before :- GradleEntries(deps[..|deps| - 1], props, root, fuel);
      var e :- GradleEntryOf(deps[|deps| - 1], props, root, fuel);
      Ok(before + [e])
  }

  /** The first record whose entry fails decides the failure of the whole list. */
  lemma {:induction false} GradleEntriesStopAtFailure(deps: seq<GradleManifest.GradleDependency>, i: nat,
                                                      props: map<string, string>, root: map<string, string>, fuel: nat)
    requires i < |deps|
    requires GradleEntries(deps[..i], props, root, fuel).Ok?
    requires GradleEntryOf(deps[i], props, root, fuel).Err?
    ensures GradleEntries(deps, props, root, fuel) == Err(GradleEntryOf(deps[i], props, root, fuel).error)
    decreases |deps|
  {
    var init := deps[..|deps| - 1];
    if i == |deps| - 1 {
      assert init == deps[..i];
    } else {
      assert init[..i] == deps[..i];
      assert init[i] == deps[i];
      GradleEntriesStopAtFailure(init, i, props, root, fuel);
    }
  }

  /** What `normalize_gradle_dependencies` returns. */
  function GradleNormalized(deps: seq<GradleManifest.GradleDependency>, props: map<string, string>,
                            root: map<string, string>, fuel: nat)
    : Result<Dict<GradleEntry>, Failure>
  {
    var items :- GradleEntries(deps, props, root, fuel);
    Ok(PutAll(Empty(), items))
  }

  /** Every key of a normalised Gradle dictionary contains a ':', so the
      comparator's `split(':')[1]` on it never fails. */
  lemma GradleKeysHaveColon(deps: seq<GradleManifest.GradleDependency>, props: map<string, string>,
                            root: map<string, string>, fuel: nat)
    requires GradleNormalized(deps, props, root, fuel).Ok?
    ensures GradleNormalized(deps, props, root, fuel).value.Valid()
    ensures forall k :: k in GradleNormalized(deps, props, root, fuel).value.entries ==> |Split(k, ':')| >= 2
  {
    var items := GradleEntries(deps, props, root, fuel).value;
    PutAllKeys(Empty(), items);
    forall k | k in PutAll(Empty(), items).entries ensures |Split(k, ':')| >= 2 {
      var n :| HasKey(items, n, k);
      assert GradleEntryOf(deps[n], props, root, fuel) == Ok(items[n]);
      if !IsPlatformName(deps[n].name.value) {
        ColonInKey(k, deps[n].group.value, deps[n].name.value);
      }
      SeparatorSplits(k, ':');
    }
  }

  /** One more record whose entry succeeds stores that entry, if any. */
  lemma GradleNormalizedStep(deps: seq<GradleManifest.GradleDependency>, i: nat, props: map<string, string>,
                             root: map<string, string>, fuel: nat)
    requires i < |deps|
    requires GradleNormalized(deps[..i], props, root, fuel).Ok?
    requires GradleEntryOf(deps[i], props, root, fuel).Ok?
    ensures var e := GradleEntryOf(deps[i], props, root, fuel).value;
      var before := GradleNormalized(deps[..i], props, root, fuel).value;
      GradleNormalized(deps[..i + 1], props, root, fuel)
        == Ok(if e.Some? then before.Put(e.value.0, e.value.1) else before)
  {
    assert deps[..i + 1][..i] == deps[..i];
    var items := GradleEntries(deps[..i], props, root, fuel).value;
    var e := GradleEntryOf(deps[i], props, root, fuel).value;
    assert GradleEntries(deps[..i + 1], props, root, fuel) == Ok(items + [e]);
    PutAllSnoc(Empty(), items, e);
  }

  /** A record whose entry fails fails the whole dictionary. */
  lemma GradleNormalizedStopsAtFailure(deps: seq<GradleManifest.GradleDependency>, i: nat, props: map<string, string>,
                                       root: map<string, string>, fuel: nat)
    requires i < |deps|
    requires GradleNormalized(deps[..i], props, root, fuel).Ok?
    requires GradleEntryOf(deps[i], props, root, fuel).Err?
    ensures GradleNormalized(deps, props, root, fuel) == Err(GradleEntryOf(deps[i], props, root, fuel).error)
  {
    GradleEntriesStopAtFailure(deps, i, props, root, fuel);
  }

  /** The body of the loop of `normalize_gradle_dependencies` for one record. */
  method NormalizeGradleRecord(dep: GradleManifest.GradleDependency, props: map<string, string>,
                               root: map<string, string>, fuel: nat)
    returns (r: Result<Option<(string, GradleEntry)>, Failure>)
    ensures r == GradleEntryOf(dep, props, root, fuel)
  {
    var g, a, v, config := dep.group, dep.name, dep.version, dep.config;
    if !Truthy(g) || !Truthy(a) {
      return Ok(None);
    }
    var resolved := v;
    if Truthy(v) && (StartsWith(v.value, ProjectExt) || StartsWith(v.value, RootProjectExt) || IsPlaceholder(v.value)) {
      resolved :- GradleProjectProperty(v, props, root, fuel);
    } else if Truthy(v) && v.value in props && props[v.value] != "" {
      resolved := Some(props[v.value]);
    } else if Truthy(v) && v.value in root && root[v.value] != "" {
      resolved := Some(root[v.value]);
    }
    assert GradleVersion(v, props, root, fuel) == Ok(resolved);
    var isPlatform := false;
    var group, name := g.value, a.value;
    if IsPlatformName(name) {
      isPlatform := true;
      var platformContent := PlatformContent(name);
      var platformParts := Split(platformContent, ':');
      if |platformParts| < 2 {
        // corrected: the content names an artifact of the record's own group
        name := platformContent;
      } else {
        group := platformParts[0];
        name := platformParts[1];
        if |platformParts| > 2 {
          resolved := Some(platformParts[2]);
        } else if Truthy(v) && (StartsWith(v.value, ProjectExt) || StartsWith(v.value, RootProjectExt) || IsPlaceholder(v.value)) {
          // the lookup above succeeded, and this one is the same
          resolved := GradleProjectProperty(v, props, root, fuel).value;
        }
      }
      assert (group, name, resolved) == PlatformCoordinates(g.value, platformContent, GradleVersion(v, props, root, fuel).value);
    }
    var keyParts := [group, name];
    if Truthy(resolved) {
      keyParts := keyParts + [resolved.value];
    }
    assert keyParts == KeyParts(group, name, resolved, None);
    var key := Join(keyParts, ':');
    if isPlatform {
      key := PlatformOpen + key + ")";
    }
    r := Ok(Some((key, GradleEntry(config, OrNA(v)))));
  }

  /** `normalize_gradle_dependencies(deps, props, root)`. */
  method NormalizeGradleDependencies(deps: seq<GradleManifest.GradleDependency>, props: map<string, string>,
                                     root: map<string, string>, fuel: nat)
    returns (r: Result<Dict<GradleEntry>, Failure>)
    ensures r == GradleNormalized(deps, props, root, fuel)
  {
    var normalized: Dict<GradleEntry> := Empty();
    assert deps[..0] == [];
    var i := 0;
    while i < |deps|
      invariant 0 <= i <= |deps|
      invariant GradleNormalized(deps[..i], props, root, fuel) == Ok(normalized)
    {
      var e := NormalizeGradleRecord(deps[i], props, root, fuel);
      if e.Err? {
        GradleNormalizedStopsAtFailure(deps, i, props, root, fuel);
        return Err(e.error);
      }
      GradleNormalizedStep(deps, i, props, root, fuel);
      if e.value.Some? {
        normalized := normalized.Put(e.value.value.0, e.value.value.1);
      }
      i := i + 1;
    }
    assert deps[..i] == deps;
    r := Ok(normalized);
  }
}
