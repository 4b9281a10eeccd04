/** The Gradle manifest extractor (parse_gradle.py) after its regular
    expressions have run: each regex hit arrives as an abstract, tagged match,
    and the extractor turns the hits into a property map and a list of
    `{group, name, version, config}` dependency records. */
module GradleManifest {
  import opened Wrappers
  import opened Text

  /** Which alternative of the dependency pattern matched, with its capture. */
  datatype DeclarationForm =
    | ProjectRef(path: string)            // config(project(":m"))
    | PlatformCoords(coords: string)      // config(platform("g:a:v"))
    | ShortCoords(coords: string)         // config("g:a:v")
    | SingleArgCoords(coords: string)     // config "g:a:v"
    | MapCoords(group: Option<string>, name: Option<string>, version: Option<string>)
      // config(group = "g", name = "a", version = "v"): the first `key = "..."`
      // occurrence of each key inside the parentheses, if any

  /** One hit of the dependency pattern: the configuration word and the form. */
  datatype DependencyMatch = DependencyMatch(config: string, form: DeclarationForm)

  /** One hit of the `set("k", ...)` or `val k = ...` patterns: a literal value
      or a `project.ext["ref"]` reference. */
  datatype PropertyMatch = Literal(key: string, value: string) | ExtReference(key: string, ref: string)

  /** One item of an `ext { }` block: `set("k", "v")` or `k = "v"`, both store `v`. */
  datatype ExtBlockItem = ExtBlockItem(key: string, value: string)

  /** What reading a build script yields: nothing when the file cannot be read,
      otherwise the hits of each pattern in text order. `extBlock` holds the
      items of the first `ext { }` block, when there is one. */
  datatype Script =
    | Unreadable
    | Matches(setCalls: seq<PropertyMatch>, valDecls: seq<PropertyMatch>,
              extBlock: Option<seq<ExtBlockItem>>, dependencies: seq<DependencyMatch>)

  /** A dependency record; `None` stands for a JSON `null`. */
  datatype GradleDependency = GradleDependency(group: Option<string>, name: Option<string>,
                                               version: Option<string>, config: string)

  datatype Manifest = Manifest(file: string, properties: map<string, string>,
                               dependencies: seq<GradleDependency>)

  /** Python truthiness of an optional string: present and non-empty. */
  predicate Truthy(s: Option<string>) {
    s.Some? && s.value != ""
  }

  // ---------------------------------------------------------------- properties

  /** The match's groups are both non-empty, so the source stores it. */
  predicate Stored(m: PropertyMatch) {
    match m
    case Literal(k, v) => k != "" && v != ""
    case ExtReference(k, r) => k != "" && r != ""
  }

  /** The stored value: a literal as is, a reference as the placeholder `${ref}`. */
  function StoredValue(m: PropertyMatch): string {
    match m
    case Literal(_, v) => v
    case ExtReference(_, r) => "${" + r + "}"
  }

  /** The property map after one pass over `ms`, starting from `props`. */
  function Assign(props: map<string, string>, ms: seq<PropertyMatch>): map<string, string>
    decreases |ms|
  {
    if ms == [] then props
    else
      var before := Assign(props, ms[..|ms| - 1]);
      var m := ms[|ms| - 1];
      if Stored(m) then before[m.key := StoredValue(m)] else before
  }

  /** The property map after the `ext { }` block items `items`, starting from `props`. */
  function AssignBlock(props: map<string, string>, items: seq<ExtBlockItem>): map<string, string>
    decreases |items|
  {
    if items == [] then props
    else
      var before := AssignBlock(props, items[..|items| - 1]);
      var it := items[|items| - 1];
      if it.key != "" && it.value != "" then before[it.key := it.value] else before
  }

  /** Properties of a readable script: `set` calls, then `val` declarations,
      then the first `ext { }` block, each pass overwriting the previous ones. */
  function PropertiesOf(setCalls: seq<PropertyMatch>, valDecls: seq<PropertyMatch>,
                        extBlock: Option<seq<ExtBlockItem>>): map<string, string>
  {
    AssignBlock(Assign(Assign(map[], setCalls), valDecls), extBlock.GetOr([]))
  }

  /** Index `n` is the last stored match for key `k` in `ms`. */
  ghost predicate LastStoredAt(ms: seq<PropertyMatch>, k: string, n: int) {
    && 0 <= n < |ms| && Stored(ms[n]) && ms[n].key == k
    && forall j :: n < j < |ms| ==> !(Stored(ms[j]) && ms[j].key == k)
  }

  /** No match in `ms` stores key `k`. */
  ghost predicate NeverStored(ms: seq<PropertyMatch>, k: string) {
    forall n :: 0 <= n < |ms| ==> !(Stored(ms[n]) && ms[n].key == k)
  }

  /** Within one pass the last stored match for a key decides its value. */
  lemma {:induction false} AssignLastWins(props: map<string, string>, ms: seq<PropertyMatch>, k: string, n: int)
    requires LastStoredAt(ms, k, n)
    ensures k in Assign(props, ms) && Assign(props, ms)[k] == StoredValue(ms[n])
    decreases |ms|
  {
    if n < |ms| - 1 {
      var init := ms[..|ms| - 1];
      assert LastStoredAt(init, k, n);
      AssignLastWins(props, init, k, n);
    }
  }

  /** A key no match of the pass stores keeps what earlier passes gave it. */
  lemma {:induction false} AssignUntouched(props: map<string, string>, ms: seq<PropertyMatch>, k: string)
    requires NeverStored(ms, k)
    ensures k in Assign(props, ms) <==> k in props
    ensures k in props ==> Assign(props, ms)[k] == props[k]
    decreases |ms|
  {
    if ms != [] {
      AssignUntouched(props, ms[..|ms| - 1], k);
    }
  }

  /** Index `n` is the last `ext { }` block item that stores key `k`. */
  ghost predicate LastItemAt(items: seq<ExtBlockItem>, k: string, n: int) {
    && 0 <= n < |items| && k != "" && items[n].key == k && items[n].value != ""
    && forall j :: n < j < |items| ==> !(items[j].key == k && items[j].value != "")
  }

  /** No `ext { }` block item stores key `k`. */
  ghost predicate NoItemFor(items: seq<ExtBlockItem>, k: string) {
    forall n :: 0 <= n < |items| ==> !(items[n].key == k && items[n].value != "")
  }

  /** The last block item for a key decides its value. */
  lemma {:induction false} AssignBlockLastWins(props: map<string, string>, items: seq<ExtBlockItem>, k: string, n: int)
    requires LastItemAt(items, k, n)
    ensures k in AssignBlock(props, items) && AssignBlock(props, items)[k] == items[n].value
    decreases |items|
  {
    if n < |items| - 1 {
      var init := items[..|items| - 1];
      assert LastItemAt(init, k, n);
      AssignBlockLastWins(props, init, k, n);
    }
  }

  /** A key no block item stores keeps what the earlier passes gave it. */
  lemma {:induction false} AssignBlockUntouched(props: map<string, string>, items: seq<ExtBlockItem>, k: string)
    requires NoItemFor(items, k)
    ensures k in AssignBlock(props, items) <==> k in props
    ensures k in props ==> AssignBlock(props, items)[k] == props[k]
    decreases |items|
  {
    if items != [] {
      AssignBlockUntouched(props, items[..|items| - 1], k);
    }
  }

  /** Overwrite order of the three property passes: an `ext { }` block item
      beats any `val` declaration, which beats any `set` call; a key that none
      of them stores is absent. */
  lemma PropertyPrecedence(setCalls: seq<PropertyMatch>, valDecls: seq<PropertyMatch>,
                           block: seq<ExtBlockItem>, k: string)
    ensures forall n :: LastItemAt(block, k, n) ==>
      k in PropertiesOf(setCalls, valDecls, Some(block)) &&
      PropertiesOf(setCalls, valDecls, Some(block))[k] == block[n].value
    ensures forall n :: NoItemFor(block, k) && LastStoredAt(valDecls, k, n) ==>
      k in PropertiesOf(setCalls, valDecls, Some(block)) &&
      PropertiesOf(setCalls, valDecls, Some(block))[k] == StoredValue(valDecls[n])
    ensures forall n :: NoItemFor(block, k) && NeverStored(valDecls, k) && LastStoredAt(setCalls, k, n) ==>
      k in PropertiesOf(setCalls, valDecls, Some(block)) &&
      PropertiesOf(setCalls, valDecls, Some(block))[k] == StoredValue(setCalls[n])
    ensures NoItemFor(block, k) && NeverStored(valDecls, k) && NeverStored(setCalls, k) ==>
      k !in PropertiesOf(setCalls, valDecls, Some(block))
  {
    var afterSet := Assign(map[], setCalls);
    var afterVal := Assign(afterSet, valDecls);
    forall n | LastItemAt(block, k, n)
      ensures k in AssignBlock(afterVal, block) && AssignBlock(afterVal, block)[k] == block[n].value
    {
      AssignBlockLastWins(afterVal, block, k, n);
    }
    if NoItemFor(block, k) {
      AssignBlockUntouched(afterVal, block, k);
      forall n | LastStoredAt(valDecls, k, n)
        ensures k in afterVal && afterVal[k] == StoredValue(valDecls[n])
      {
        AssignLastWins(afterSet, valDecls, k, n);
      }
      if NeverStored(valDecls, k) {
        AssignUntouched(afterSet, valDecls, k);
        forall n | LastStoredAt(setCalls, k, n)
          ensures k in afterSet && afterSet[k] == StoredValue(setCalls[n])
        {
          AssignLastWins(map[], setCalls, k, n);
        }
        if NeverStored(setCalls, k) {
          AssignUntouched(map[], setCalls, k);
        }
      }
    }
  }

  // -------------------------------------------------------------- dependencies

  /** Coordinates split on ':': group and name need at least two pieces, the
      version a third; any further pieces (a classifier) are dropped. */
  function SplitCoordinates(coords: string): (Option<string>, Option<string>, Option<string>)
  {
    var parts := Split(coords, ':');
    (if |parts| >= 2 then Some(parts[0]) else None,
     if |parts| >= 2 then Some(parts[1]) else None,
     if |parts| >= 3 then Some(parts[2]) else None)
  }

  /** Python's `f"{name}"` for an optional name. */
  function Show(s: Option<string>): string {
    match s
    case Some(v) => v
    case None => "None"
  }

  /** The record one dependency match yields, if it names a dependency. */
  function RecordOf(m: DependencyMatch): Option<GradleDependency>
  {
    var (g, n, v) :=
      match m.form
      case ProjectRef(p) =>
        if p != "" then (Some("project"), Some(p), None) else (None, None, None)
      case PlatformCoords(c) =>
        if c != "" then
          var (g, n, v) := SplitCoordinates(c);
          (g, Some("platform(" + Show(n) + ")"), v)
        else (None, None, None)
      case ShortCoords(c) =>
        if c != "" then SplitCoordinates(c) else (None, None, None)
      case SingleArgCoords(c) =>
        if c != "" then SplitCoordinates(c) else (None, None, None)
      case MapCoords(g, n, v) => (g, n, v);
    if Truthy(n) then Some(GradleDependency(g, n, v, m.config)) else None
  }

  /** The dependency list built from the matches, in match order. */
  function DependenciesOf(ms: seq<DependencyMatch>): seq<GradleDependency>
    decreases |ms|
  {
    if ms == [] then []
    else
      var last := RecordOf(ms[|ms| - 1]);
      DependenciesOf(ms[..|ms| - 1]) + (if last.Some? then [last.value] else [])
  }

  /** Coordinates have a name (and a group) exactly when they contain a ':';
      group and name never contain one. */
  lemma CoordinatesNamed(coords: string)
    ensures var (g, n, v) := SplitCoordinates(coords);
      && (n.Some? <==> ':' in coords)
      && (g.Some? <==> n.Some?)
      && (v.Some? ==> n.Some?)
      && (n.Some? ==> ':' !in g.value && ':' !in n.value)
  {
    var parts := Split(coords, ':');
    JoinOfSplit(coords, ':');
    if |parts| == 1 {
      assert coords == parts[0];
    } else {
      assert coords == parts[0] + [':'] + Join(parts[1..], ':');
      assert coords[|parts[0]|] == ':';
    }
  }

  /** The coordinate split is lossless up to dropped extra pieces: with a name
      but no version the string is exactly `group:name`, and with a version
      it begins with `group:name:version`. */
  lemma CoordinatesRoundTrip(coords: string)
    ensures var (g, n, v) := SplitCoordinates(coords);
      && (n.Some? && v.None? ==> coords == g.value + ":" + n.value)
      && (v.Some? ==> StartsWith(coords, g.value + ":" + n.value + ":" + v.value))
  {
    var parts := Split(coords, ':');
    JoinOfSplit(coords, ':');
    if |parts| == 2 {
      assert parts[1..] == [parts[1]];
      assert coords == parts[0] + [':'] + parts[1];
    } else if |parts| >= 3 {
      var tail := Join(parts[2..], ':');
      assert parts[1..][1..] == parts[2..];
      assert Join(parts[1..], ':') == parts[1] + [':'] + tail;
      assert coords == parts[0] + [':'] + parts[1] + [':'] + tail;
      JoinStartsWithFirst(parts[2..], ':');
      var front := parts[0] + ":" + parts[1] + ":" + parts[2];
      assert coords == parts[0] + ":" + parts[1] + ":" + tail;
      assert coords[..|front|] == front;
    }
  }

  /** A platform declaration with non-empty coordinates always yields a record,
      named `platform(...)` around the coordinates' name, or around `None`
      when the coordinates have no ':' (the group then stays `None`). */
  lemma PlatformAlwaysRecorded(config: string, coords: string)
    requires coords != ""
    ensures RecordOf(DependencyMatch(config, PlatformCoords(coords))).Some?
    ensures ':' !in coords ==>
      RecordOf(DependencyMatch(config, PlatformCoords(coords))).value
        == GradleDependency(None, Some("platform(None)"), None, config)
    ensures ':' in coords ==>
      var r := RecordOf(DependencyMatch(config, PlatformCoords(coords))).value;
      r.group.Some? && r.name == Some("platform(" + Split(coords, ':')[1] + ")")
  {
    CoordinatesNamed(coords);
    if ':' !in coords {
      assert Split(coords, ':') == [coords];
      assert "platform(" + Show(None) + ")" == "platform(None)";
    }
  }

  /** A string form yields a record exactly when its coordinates have a
      non-empty second piece; the record then carries the pieces. */
  lemma CoordinateFormRecord(config: string, coords: string)
    ensures RecordOf(DependencyMatch(config, ShortCoords(coords)))
         == RecordOf(DependencyMatch(config, SingleArgCoords(coords)))
    ensures RecordOf(DependencyMatch(config, ShortCoords(coords))).Some? <==>
      |Split(coords, ':')| >= 2 && Split(coords, ':')[1] != ""
    ensures RecordOf(DependencyMatch(config, ShortCoords(coords))).Some? ==>
      var r := RecordOf(DependencyMatch(config, ShortCoords(coords))).value;
      && r.group == Some(Split(coords, ':')[0]) && r.name == Some(Split(coords, ':')[1])
      && r.version == (if |Split(coords, ':')| >= 3 then Some(Split(coords, ':')[2]) else None)
      && r.config == config
  {
    if coords == "" {
      assert Split(coords, ':') == [""];
    }
  }

  /** A project reference yields group `project`, the path as name and no
      version. A map-form match yields a record exactly when it has a
      non-empty name, with each of its three captures as found, absent ones
      staying `None`. */
  lemma ProjectAndMapRecords(config: string, path: string, g: Option<string>, n: Option<string>, v: Option<string>)
    requires path != ""
    ensures RecordOf(DependencyMatch(config, ProjectRef(path)))
         == Some(GradleDependency(Some("project"), Some(path), None, config))
    ensures RecordOf(DependencyMatch(config, MapCoords(g, n, v))).Some? <==> Truthy(n)
    ensures Truthy(n) ==> RecordOf(DependencyMatch(config, MapCoords(g, n, v))).value == GradleDependency(g, n, v, config)
  {
  }

  /** Records keep match order: the records of a concatenation of match
      streams are the records of the first stream followed by those of the second. */
  lemma {:induction false} DependenciesAppend(a: seq<DependencyMatch>, b: seq<DependencyMatch>)
    ensures DependenciesOf(a + b) == DependenciesOf(a) + DependenciesOf(b)
    decreases |b|
  {
    if b != [] {
      var bi := b[..|b| - 1];
      var ab := a + b;
      assert ab[..|ab| - 1] == a + bi;
      assert ab[|ab| - 1] == b[|b| - 1];
      DependenciesAppend(a, bi);
    } else {
      assert a + b == a;
    }
  }

  /** Every record comes from some match, carries that match's configuration
      verbatim and has a non-empty name; every match that yields a record
      contributes it. */
  lemma {:induction false} DependenciesProvenance(ms: seq<DependencyMatch>)
    ensures |DependenciesOf(ms)| <= |ms|
    ensures forall d :: d in DependenciesOf(ms) ==>
      Truthy(d.name) && exists i :: 0 <= i < |ms| && RecordOf(ms[i]) == Some(d) && d.config == ms[i].config
    ensures forall i :: 0 <= i < |ms| && RecordOf(ms[i]).Some? ==> RecordOf(ms[i]).value in DependenciesOf(ms)
    decreases |ms|
  {
    if ms != [] {
      var init := ms[..|ms| - 1];
      DependenciesProvenance(init);
      forall d | d in DependenciesOf(ms)
        ensures Truthy(d.name) && exists i :: 0 <= i < |ms| && RecordOf(ms[i]) == Some(d) && d.config == ms[i].config
      {
        if d in DependenciesOf(init) {
          var i :| 0 <= i < |init| && RecordOf(init[i]) == Some(d) && d.config == init[i].config;
          assert ms[i] == init[i];
        } else {
          assert RecordOf(ms[|ms| - 1]) == Some(d);
        }
      }
      forall i | 0 <= i < |ms| && RecordOf(ms[i]).Some?
        ensures RecordOf(ms[i]).value in DependenciesOf(ms)
      {
        if i < |ms| - 1 {
          assert ms[i] == init[i];
        }
      }
    }
  }

  // ------------------------------------------------------------------ extractor

  /** `parse_gradle_kts`: the property passes and the dependency pass over the
      hits of a script; an unreadable script gives empty results. */
  method ParseGradleKts(file: string, script: Script) returns (r: Manifest)
    ensures r.file == file
    ensures script.Unreadable? ==> r.properties == map[] && r.dependencies == []
    ensures script.Matches? ==>
      && r.properties == PropertiesOf(script.setCalls, script.valDecls, script.extBlock)
      && r.dependencies == DependenciesOf(script.dependencies)
  {
    if script.Unreadable? {
      return Manifest(file, map[], []);
    }
    var properties: map<string, string> := map[];
    var dependencies: seq<GradleDependency> := [];

    var ms := script.setCalls;
    var i := 0;
    while i < |ms|
      invariant 0 <= i <= |ms|
      invariant properties == Assign(map[], ms[..i])
    {
      assert ms[..i + 1][..i] == ms[..i];
      match ms[i] {
        case Literal(k, v) =>
          if k != "" && v != "" {
            properties := properties[k := v];
          }
        case ExtReference(k, ref) =>
          if k != "" && ref != "" {
            properties := properties[k := "${" + ref + "}"];
          }
      }
      i := i + 1;
    }
    assert ms[..i] == ms;

    var afterSet := properties;
    ms := script.valDecls;
    i := 0;
    while i < |ms|
      invariant 0 <= i <= |ms|
      invariant properties == Assign(afterSet, ms[..i])
    {
      assert ms[..i + 1][..i] == ms[..i];
      match ms[i] {
        case Literal(k, v) =>
          if k != "" && v != "" {
            properties := properties[k := v];
          }
        case ExtReference(k, ref) =>
          if k != "" && ref != "" {
            properties := properties[k := "${" + ref + "}"];
          }
      }
      i := i + 1;
    }
    assert ms[..i] == ms;

    if script.extBlock.Some? {
      var items := script.extBlock.value;
      var afterVal := properties;
      i := 0;
      while i < |items|
        invariant 0 <= i <= |items|
        invariant properties == AssignBlock(afterVal, items[..i])
      {
        assert items[..i + 1][..i] == items[..i];
        if items[i].key != "" && items[i].value != "" {
          properties := properties[items[i].key := items[i].value];
        }
        i := i + 1;
      }
      assert items[..i] == items;
    }

    var deps := script.dependencies;
    i := 0;
    while i < |deps|
      invariant 0 <= i <= |deps|
      invariant dependencies == DependenciesOf(deps[..i])
    {
      assert deps[..i + 1][..i] == deps[..i];
      var group: Option<string> := None;
      var name: Option<string> := None;
      var version: Option<string> := None;
      var config := deps[i].config;
      match deps[i].form {
        case ProjectRef(p) =>
          if p != "" {
            group := Some("project");
            name := Some(p);
          }
        case PlatformCoords(c) =>
          if c != "" {
            var coords := Split(c, ':');
            if |coords| >= 2 {
              group := Some(coords[0]);
              name := Some(coords[1]);
            }
            if |coords| >= 3 {
              version := Some(coords[2]);
            }
            name := Some("platform(" + Show(name) + ")");
          }
        case ShortCoords(c) =>
          if c != "" {
            var coords := Split(c, ':');
            if |coords| >= 2 {
              group := Some(coords[0]);
              name := Some(coords[1]);
            }
            if |coords| >= 3 {
              version := Some(coords[2]);
            }
          }
        case SingleArgCoords(c) =>
          if c != "" {
            var coords := Split(c, ':');
            if |coords| >= 2 {
              group := Some(coords[0]);
              name := Some(coords[1]);
            }
            if |coords| >= 3 {
              version := Some(coords[2]);
            }
          }
        case MapCoords(g, n, v) =>
          if g.Some? {
            group := g;
          }
          if n.Some? {
            name := n;
          }
          if v.Some? {
            version := v;
          }
      }
      if Truthy(name) {
        dependencies := dependencies + [GradleDependency(group, name, version, config)];
      }
      i := i + 1;
    }
    assert deps[..i] == deps;
    r := Manifest(file, properties, dependencies);
  }
}
