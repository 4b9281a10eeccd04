/** Version placeholder resolution (`get_property_value` and
    `get_gradle_project_property`). Both recurse when a looked-up value is itself
    a reference; Python gives up with `RecursionError` on a cyclic chain, which
    the model reproduces with an explicit allowance `fuel` and the failure
    `RecursionLimit`. */
module PropertyResolution {
  import opened Wrappers
  import opened Text
  import opened Records

  /** `s.startswith('${') and s.endswith('}')`. */
  predicate IsPlaceholder(s: string) {
    StartsWith(s, "${") && EndsWith(s, "}")
  }

  /** `s[2:-1]` of a placeholder: the property key inside `${...}`. */
  function Unwrap(s: string): (k: string)
    requires IsPlaceholder(s)
    ensures |k| == |s| - 3
  {
    assert s[1] == s[..2][1] == '{';
    assert s[|s| - 1] == s[|s| - 1..][0] == '}';
    s[2..|s| - 1]
  }

  /** Wrapping a key as `${key}` gives a placeholder that unwraps to the key. */
  lemma WrapUnwrap(k: string)
    ensures IsPlaceholder("${" + k + "}")
    ensures Unwrap("${" + k + "}") == k
  {
    var s := "${" + k + "}";
    assert s[..2] == "${";
    assert s[|s| - 1..] == "}";
    assert s[2..|s| - 1] == k;
  }

  /** The key `get_property_value` looks up for a name. */
  function LookupKey(s: string): string {
    if IsPlaceholder(s) then Unwrap(s) else s
  }

  /** Some map of `maps` stores the string `x` as a value. */
  ghost predicate StoredIn(x: string, local: Props, global: Props) {
    Some(x) in local.Values || Some(x) in global.Values
  }

  /** `get_property_value(name, local, global)`: look the key up in `local`,
      then in `global`; a hit that is itself a placeholder is resolved again
      (from `global` with no further global map); a miss in both returns the
      name unchanged. The answer is always the name itself or a value stored
      in one of the two maps. */
  function PropertyValue(name: Option<string>, local: Props, global: Props, fuel: nat): (r: Result<Option<string>, Failure>)
    ensures name.None? ==> r == Ok(None)
    ensures name.Some? && r.Ok? ==>
      r.value.Some? && (r.value.value == name.value || StoredIn(r.value.value, local, global))
    decreases fuel
  {
    match name
    case None => Ok(None)
    case Some(s) =>
      var key := LookupKey(s);
      match Get(local, key)
      case Some(v) =>
        if IsPlaceholder(v) then
          if fuel == 0 then Err(RecursionLimit) else PropertyValue(Some(v), local, global, fuel - 1)
        else Ok(Some(v))
      case None =>
        match Get(global, key)
        case Some(gv) =>
          if IsPlaceholder(gv) then
            if fuel == 0 then Err(RecursionLimit) else PropertyValue(Some(gv), global, map[], fuel - 1)
          else Ok(Some(gv))
        case None => Ok(Some(s))
  }

  /** The allowance only bounds the depth: an answer found with some allowance
      is the answer for every larger allowance. */
  lemma {:induction false} PropertyValueFuel(name: Option<string>, local: Props, global: Props, fuel: nat, more: nat)
    requires PropertyValue(name, local, global, fuel).Ok?
    requires fuel <= more
    ensures PropertyValue(name, local, global, more) == PropertyValue(name, local, global, fuel)
    decreases fuel
  {
    if name.Some? {
      var key := LookupKey(name.value);
      match Get(local, key)
      case Some(v) =>
        if IsPlaceholder(v) {
          PropertyValueFuel(Some(v), local, global, fuel - 1, more - 1);
        }
      case None =>
        match Get(global, key)
        case Some(gv) =>
          if IsPlaceholder(gv) {
            PropertyValueFuel(Some(gv), global, map[], fuel - 1, more - 1);
          }
        case None =>
    }
  }

  /** The `${...}` wrapper is stripped before lookup: on a hit, `${k}` and the
      bare key `k` resolve alike; on a miss in both maps the wrapped name
      comes back wrapper included. */
  lemma PlaceholderStripped(k: string, local: Props, global: Props, fuel: nat)
    requires !IsPlaceholder(k)
    ensures Get(local, k).Some? || Get(global, k).Some? ==>
      PropertyValue(Some("${" + k + "}"), local, global, fuel) == PropertyValue(Some(k), local, global, fuel)
    ensures Get(local, k).None? && Get(global, k).None? ==>
      PropertyValue(Some("${" + k + "}"), local, global, fuel) == Ok(Some("${" + k + "}"))
  {
    WrapUnwrap(k);
  }

  /** Two-level lookup is a lookup in the merged map where `local` overrides
      `global`, as long as `local` has no `None` values and `global` no
      placeholder values (the only cases where the global-only re-resolution or
      the `None`-skipping makes the two differ). */
  lemma {:induction false} LocalOverridesGlobal(name: Option<string>, local: Props, global: Props, fuel: nat)
    requires None !in local.Values
    requires forall k :: k in global && global[k].Some? ==> !IsPlaceholder(global[k].value)
    ensures PropertyValue(name, local, global, fuel) == PropertyValue(name, global + local, map[], fuel)
    decreases fuel
  {
    if name.Some? {
      var key := LookupKey(name.value);
      if key in local {
        assert local[key] in local.Values;
        assert Get(global + local, key) == Get(local, key);
        var v := local[key].value;
        if IsPlaceholder(v) && fuel > 0 {
          LocalOverridesGlobal(Some(v), local, global, fuel - 1);
        }
      } else {
        assert Get(global + local, key) == Get(global, key);
      }
    }
  }

  /** The property map `normalize_dependencies` resolves against: POM
      properties override the parent's, which override the root POM's. */
  function EffectiveProperties(local: Props, parent: Props, root: Props): (m: Props)
    ensures forall k :: Get(m, k) ==
                        (if k in local then local[k] else if k in parent then parent[k] else Get(root, k))
    ensures m.Keys == local.Keys + parent.Keys + root.Keys
  {
    root + (parent + local)
  }

  // ----------------------------------------------------------------- Gradle side

  const ProjectExt: string := "project.ext[\""
  const RootProjectExt: string := "rootProject.ext[\""

  /** The quoted key at the front of `t` followed by `"]`: `([^"]+)"\]`. */
  function QuotedKey(t: string): Option<string> {
    match IndexOf(t, '"')
    case None => None
    case Some(i) => if i > 0 && StartsWith(t[i..], "\"]") then Some(t[..i]) else None
  }

  /** `re.match(r'(?:project|rootProject)\.ext\["([^"]+)"\]', s)`: the key of an
      ext reference at the start of `s`, if there is one. */
  function ExtKey(s: string): Option<string> {
    if StartsWith(s, ProjectExt) then QuotedKey(s[|ProjectExt|..])
    else if StartsWith(s, RootProjectExt) then QuotedKey(s[|RootProjectExt|..])
    else None
  }

  /** `ExtKey` recognises exactly the strings that begin with
      `project.ext["k"]` or `rootProject.ext["k"]` for a non-empty, quote-free
      `k`, and yields that `k`. */
  lemma ExtKeyParses(s: string, k: string)
    ensures ExtKey(s) == Some(k) <==>
      k != "" && '"' !in k &&
      (StartsWith(s, ProjectExt + k + "\"]") || StartsWith(s, RootProjectExt + k + "\"]"))
  {
    StartsWithConcat(s, ProjectExt, k + "\"]");
    StartsWithConcat(s, RootProjectExt, k + "\"]");
    assert ProjectExt + k + "\"]" == ProjectExt + (k + "\"]");
    assert RootProjectExt + k + "\"]" == RootProjectExt + (k + "\"]");
    if StartsWith(s, RootProjectExt) {
      assert !StartsWith(s, ProjectExt) by {
        assert s[0] == RootProjectExt[0] == 'r';
        assert ProjectExt[0] == 'p';
      }
    }
    if StartsWith(s, ProjectExt) {
      QuotedKeyOf(s[|ProjectExt|..], k);
    }
    if StartsWith(s, RootProjectExt) {
      QuotedKeyOf(s[|RootProjectExt|..], k);
    }
  }

  lemma QuotedKeyOf(t: string, k: string)
    ensures QuotedKey(t) == Some(k) <==> k != "" && '"' !in k && StartsWith(t, k + "\"]")
  {
    if k != "" && '"' !in k && StartsWith(t, k + "\"]") {
      assert t[..|k|] == k;
      IndexOfFirst(t, '"', |k|);
      assert t[..|k| + 2] == k + "\"]";
      assert t[|k|..][..2] == t[..|k| + 2][|k|..] == "\"]";
    }
    if QuotedKey(t) == Some(k) {
      var i := IndexOf(t, '"').value;
      assert t[..i + 2] == t[..i] + t[i..][..2];
    }
  }

  /** A generated reference round-trips through the parser. */
  lemma ExtReferenceRoundTrip(k: string)
    requires k != "" && '"' !in k
    ensures ExtKey(ProjectExt + k + "\"]") == Some(k)
    ensures ExtKey(RootProjectExt + k + "\"]") == Some(k)
  {
    ExtKeyParses(ProjectExt + k + "\"]", k);
    ExtKeyParses(RootProjectExt + k + "\"]", k);
  }

  /** The key `get_gradle_project_property` looks up: the ext key when the
      name is an ext reference, otherwise the name itself (`${...}` is not stripped). */
  function GradleLookupKey(s: string): string {
    ExtKey(s).GetOr(s)
  }

  /** A looked-up value that is resolved again: a `${...}` placeholder or any
      string mentioning `project.ext` or `rootProject.ext`. */
  predicate IsReference(v: string) {
    IsPlaceholder(v) || Contains(v, "project.ext") || Contains(v, "rootProject.ext")
  }

  /** `get_gradle_project_property(name, local, root)`: look in `local`, then
      in `root`; a reference value is resolved again (from `root` with no
      further root map); a miss returns the name unchanged. The answer is
      the name or a stored value, and once `local` misses it can only come
      from `root`. */
  function GradleProjectProperty(name: Option<string>, local: map<string, string>, root: map<string, string>, fuel: nat)
    : (r: Result<Option<string>, Failure>)
    ensures name.None? ==> r == Ok(None)
    ensures name.Some? && r.Ok? ==>
      r.value.Some? && (r.value.value == name.value || r.value.value in local.Values || r.value.value in root.Values)
    ensures name.Some? && r.Ok? && GradleLookupKey(name.value) !in local ==>
      r.value.value == name.value || r.value.value in root.Values
    decreases fuel
  {
    match name
    case None => Ok(None)
    case Some(s) =>
      var key := GradleLookupKey(s);
      if key in local then
        var v := local[key];
        if IsReference(v) then
          if fuel == 0 then Err(RecursionLimit) else GradleProjectProperty(Some(v), local, root, fuel - 1)
        else Ok(Some(v))
      else if key in root then
        var rv := root[key];
        if IsReference(rv) then
          if fuel == 0 then Err(RecursionLimit) else GradleProjectProperty(Some(rv), root, map[], fuel - 1)
        else Ok(Some(rv))
      else Ok(Some(s))
  }

  /** A `${...}` name is looked up verbatim, wrapper and all, so unless a map
      has that literal key it comes back unresolved. */
  lemma GradlePlaceholderNotStripped(s: string, local: map<string, string>, root: map<string, string>, fuel: nat)
    requires IsPlaceholder(s)
    ensures GradleLookupKey(s) == s
    ensures s !in local && s !in root ==> GradleProjectProperty(Some(s), local, root, fuel) == Ok(Some(s))
  {
    assert s[0] == '$';
    assert !StartsWith(s, ProjectExt) by { assert ProjectExt[0] == 'p'; }
    assert !StartsWith(s, RootProjectExt) by { assert RootProjectExt[0] == 'r'; }
  }

  /** As for Maven properties, the allowance only bounds the depth. */
  lemma {:induction false} GradleProjectPropertyFuel(name: Option<string>, local: map<string, string>,
                                                     root: map<string, string>, fuel: nat, more: nat)
    requires GradleProjectProperty(name, local, root, fuel).Ok?
    requires fuel <= more
    ensures GradleProjectProperty(name, local, root, more) == GradleProjectProperty(name, local, root, fuel)
    decreases fuel
  {
    if name.Some? {
      var key := GradleLookupKey(name.value);
      if key in local {
        if IsReference(local[key]) {
          GradleProjectPropertyFuel(Some(local[key]), local, root, fuel - 1, more - 1);
        }
      } else if key in root {
        if IsReference(root[key]) {
          GradleProjectPropertyFuel(Some(root[key]), root, map[], fuel - 1, more - 1);
        }
      }
    }
  }
}
