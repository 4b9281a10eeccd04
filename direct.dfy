/** Resolution of a POM's direct dependencies inside `main` of
    compare_dependencies.py: the managed-version lookup, the choice of the
    final version, and the `resolved_maven_deps` dictionary. */
module DirectDependencies {
  import opened Wrappers
  import opened Text
  import opened OrderedDicts
  import opened Records
  import opened PropertyResolution
  import opened Normalize

  /** What `resolved_maven_deps` stores per key. */
  datatype MavenEntry = MavenEntry(scope: Option<string>, originalVersion: string)

  /** The marker used when neither the dependency nor management gives a version. */
  const NotManaged: string := "N/A (managed by BOM or parent outside this scope)"

  // --------------------------------------------------- managed-version lookup

  /** The managed key has the shape `g:a:...:c`. */
  predicate ClassifierForm(k: string, g: string, a: string, c: string) {
    StartsWith(k, g + ":" + a + ":") && EndsWith(k, ":" + c)
  }

  /** A key beginning `g:a:` has at least three `:`-pieces. */
  lemma ClassifierFormPieces(k: string, g: string, a: string)
    requires StartsWith(k, g + ":" + a + ":")
    ensures |Split(k, ':')| >= 3
  {
    var pre := g + ":" + a + ":";
    assert k[|g|] == pre[|g|] == ':';
    assert k[|g| + 1 + |a|] == pre[|g| + 1 + |a|] == ':';
    TwoSeparatorsSplit(k, ':', |g|, |g| + 1 + |a|);
  }

  /** The first loop of the lookup: the third piece of the first managed key
      of the form `g:a:...:c`, if any. */
  function ClassifierMatch(keys: seq<string>, g: string, a: string, c: string): Option<string>
    decreases |keys|
  {
    if keys == [] then None
    else if ClassifierForm(keys[0], g, a, c) then
      ClassifierFormPieces(keys[0], g, a);
      Some(Split(keys[0], ':')[2])
    else ClassifierMatch(keys[1..], g, a, c)
  }

  /** The classifier loop finds nothing exactly when no managed key has the
      form `g:a:...:c`; what it finds is the third piece of such a key. */
  lemma {:induction false} ClassifierMatchSpec(keys: seq<string>, g: string, a: string, c: string)
    ensures ClassifierMatch(keys, g, a, c).None? <==> forall k :: k in keys ==> !ClassifierForm(k, g, a, c)
    ensures ClassifierMatch(keys, g, a, c).Some? ==>
      exists i :: 0 <= i < |keys| && ClassifierForm(keys[i], g, a, c) &&
        |Split(keys[i], ':')| >= 3 && Split(keys[i], ':')[2] == ClassifierMatch(keys, g, a, c).value &&
        forall j :: 0 <= j < i ==> !ClassifierForm(keys[j], g, a, c)
    decreases |keys|
  {
    if keys != [] {
      assert keys[0] in keys;
      if !ClassifierForm(keys[0], g, a, c) {
        ClassifierMatchSpec(keys[1..], g, a, c);
        assert forall k :: k in keys ==> k == keys[0] || k in keys[1..];
        if ClassifierMatch(keys, g, a, c).Some? {
          var i :| 0 <= i < |keys[1..]| && ClassifierForm(keys[1..][i], g, a, c) &&
            |Split(keys[1..][i], ':')| >= 3 && Split(keys[1..][i], ':')[2] == ClassifierMatch(keys, g, a, c).value &&
            forall j :: 0 <= j < i ==> !ClassifierForm(keys[1..][j], g, a, c);
          assert forall j :: 0 <= j < i + 1 ==> !ClassifierForm(keys[j], g, a, c) by {
            forall j | 0 <= j < i + 1 ensures !ClassifierForm(keys[j], g, a, c) {
              if j > 0 { assert keys[j] == keys[1..][j - 1]; }
            }
          }
          assert keys[i + 1] == keys[1..][i];
        }
      } else {
        ClassifierFormPieces(keys[0], g, a);
      }
    }
  }

  /** The classifier a managed key's pieces carry: the fourth piece when there
      are exactly four. */
  function PiecesClassifier(parts: seq<string>): Option<string> {
    if |parts| == 4 then Some(parts[3]) else None
  }

  /** The managed key names `g:a` with classifier status `c`. */
  predicate SameCoordinates(k: string, g: string, a: string, c: Option<string>) {
    var parts := Split(k, ':');
    |parts| >= 2 && parts[0] == g && parts[1] == a && PiecesClassifier(parts) == c
  }

  /** The second loop of the lookup: the version piece of the first managed
      key naming `g:a` with the same classifier status. Python indexes
      `m_parts[1]` of every key it passes and `m_parts[2]` of the match, so a
      key without a ':', or a matching key without a version, fails. */
  function PlainMatch(keys: seq<string>, g: string, a: string, c: Option<string>): Result<Option<string>, Failure>
    decreases |keys|
  {
    if keys == [] then Ok(None)
    else
      var parts := Split(keys[0], ':');
      if |parts| < 2 then Err(IndexOutOfRange(keys[0]))
      else if SameCoordinates(keys[0], g, a, c) then
        if |parts| < 3 then Err(IndexOutOfRange(keys[0])) else Ok(Some(parts[2]))
      else PlainMatch(keys[1..], g, a, c)
  }

  /** The plain loop finds nothing only when no managed key names `g:a` with
      the same classifier status; what it finds is the third piece of such a
      key; and it cannot fail when every key has a ':' and every matching key
      a version. */
  lemma {:induction false} PlainMatchSpec(keys: seq<string>, g: string, a: string, c: Option<string>)
    ensures PlainMatch(keys, g, a, c) == Ok(None) ==> forall k :: k in keys ==> !SameCoordinates(k, g, a, c)
    ensures var r := PlainMatch(keys, g, a, c);
      r.Ok? && r.value.Some? ==>
        exists i :: 0 <= i < |keys| && SameCoordinates(keys[i], g, a, c) &&
          |Split(keys[i], ':')| >= 3 && Split(keys[i], ':')[2] == r.value.value &&
          forall j :: 0 <= j < i ==> !SameCoordinates(keys[j], g, a, c)
    ensures ((forall k :: k in keys ==> |Split(k, ':')| >= 2) &&
             (forall k :: k in keys && SameCoordinates(k, g, a, c) ==> |Split(k, ':')| >= 3)) ==>
      PlainMatch(keys, g, a, c).Ok?
    decreases |keys|
  {
    if keys != [] {
      assert keys[0] in keys;
      if |Split(keys[0], ':')| >= 2 && !SameCoordinates(keys[0], g, a, c) {
        PlainMatchSpec(keys[1..], g, a, c);
        assert forall k :: k in keys[1..] ==> k in keys;
        assert forall k :: k in keys ==> k == keys[0] || k in keys[1..];
      }
    }
    PlainMatchIndex(keys, g, a, c);
  }

  /** What the plain loop finds is the third piece of a key no earlier key
      naming `g:a` with the same classifier status precedes. */
  lemma {:induction false} PlainMatchIndex(keys: seq<string>, g: string, a: string, c: Option<string>)
    ensures var r := PlainMatch(keys, g, a, c);
      r.Ok? && r.value.Some? ==>
        exists i :: 0 <= i < |keys| && SameCoordinates(keys[i], g, a, c) &&
          |Split(keys[i], ':')| >= 3 && Split(keys[i], ':')[2] == r.value.value &&
          forall j :: 0 <= j < i ==> !SameCoordinates(keys[j], g, a, c)
    decreases |keys|
  {
    var r := PlainMatch(keys, g, a, c);
    if keys != [] && r.Ok? && r.value.Some? {
      if SameCoordinates(keys[0], g, a, c) {
        assert keys[0] == keys[0];
      } else {
        PlainMatchIndex(keys[1..], g, a, c);
        var i :| 0 <= i < |keys[1..]| && SameCoordinates(keys[1..][i], g, a, c) &&
          |Split(keys[1..][i], ':')| >= 3 && Split(keys[1..][i], ':')[2] == r.value.value &&
          forall j :: 0 <= j < i ==> !SameCoordinates(keys[1..][j], g, a, c);
        forall j | 0 <= j < i + 1 ensures !SameCoordinates(keys[j], g, a, c) {
          if j > 0 { assert keys[j] == keys[1..][j - 1]; }
        }
        assert keys[i + 1] == keys[1..][i];
      }
    }
  }

  /** `managed_version` at line 296: the classifier loop when the dependency
      has a classifier, then, if that gave nothing non-empty, the plain loop. */
  function ManagedVersion(g: string, a: string, c: Option<string>, managed: seq<string>)
    : Result<Option<string>, Failure>
  {
    var viaClassifier := if Truthy(c) then ClassifierMatch(managed, g, a, c.value) else None;
    if Truthy(viaClassifier) then Ok(viaClassifier)
    else
      match PlainMatch(managed, g, a, c)
      case Err(e) => Err(e)
      case Ok(None) => Ok(viaClassifier)
      case Ok(found) => Ok(found)
  }

  /** A managed version always comes from a managed key that begins with
      the dependency's `g:a:`, as the piece after them. */
  lemma ManagedVersionProvenance(g: string, a: string, c: Option<string>, managed: seq<string>)
    requires ManagedVersion(g, a, c, managed).Ok?
    requires ManagedVersion(g, a, c, managed).value.Some?
    ensures exists k :: (k in managed && StartsWith(k, g + ":" + a + ":") &&
      |Split(k, ':')| >= 3 && Split(k, ':')[2] == ManagedVersion(g, a, c, managed).value.value)
  {
    var viaClassifier := if Truthy(c) then ClassifierMatch(managed, g, a, c.value) else None;
    if Truthy(c) {
      ClassifierMatchSpec(managed, g, a, c.value);
      if Truthy(viaClassifier) {
        var i :| 0 <= i < |managed| && ClassifierForm(managed[i], g, a, c.value) &&
          |Split(managed[i], ':')| >= 3 && Split(managed[i], ':')[2] == viaClassifier.value &&
          forall j :: 0 <= j < i ==> !ClassifierForm(managed[j], g, a, c.value);
        assert managed[i] in managed;
      }
    }
    PlainMatchSpec(managed, g, a, c);
    if !Truthy(viaClassifier) && PlainMatch(managed, g, a, c).value.Some? {
      var i :| 0 <= i < |managed| && SameCoordinates(managed[i], g, a, c) &&
        |Split(managed[i], ':')| >= 3 && Split(managed[i], ':')[2] == PlainMatch(managed, g, a, c).value.value &&
        forall j :: 0 <= j < i ==> !SameCoordinates(managed[j], g, a, c);
      var k := managed[i];
      SplitFirstTwo(k, ':');
      assert Split(k, ':')[0] + [':'] + Split(k, ':')[1] + [':'] == g + ":" + a + ":";
    }
  }

  /** With a classifier, the first managed key of the form `g:a:...:c`,
      when it is `g:a:v:c` with a non-empty version, gives `v`, whatever plain
      `g:a:...` keys precede or follow it. */
  lemma ClassifierKeyPreferred(g: string, a: string, c: string, v: string, managed: seq<string>, n: nat)
    requires c != "" && v != "" && ':' !in g && ':' !in a && ':' !in v && ':' !in c
    requires n < |managed| && managed[n] == g + ":" + a + ":" + v + ":" + c
    requires forall j :: 0 <= j < n ==> !ClassifierForm(managed[j], g, a, c)
    ensures ManagedVersion(g, a, Some(c), managed) == Ok(Some(v))
  {
    ClassifierKeyForm(g, a, v, c);
    FourPieces(g, a, v, c);
    ClassifierMatchAt(managed, g, a, c, n);
  }

  /** `g:a:v:c` has the form `g:a:...:c`. */
  lemma ClassifierKeyForm(g: string, a: string, v: string, c: string)
    requires ':' !in g && ':' !in a && ':' !in v && ':' !in c
    ensures ClassifierForm(g + ":" + a + ":" + v + ":" + c, g, a, c)
  {
    var front, rest := g + ":" + a + ":", v + ":" + c;
    var head, back := front + v, ":" + c;
    assert (front + rest)[..|front|] == front;
    assert (head + back)[|head + back| - |back|..] == back;
    assert g + ":" + a + ":" + v + ":" + c == front + rest == head + back;
  }

  /** The classifier loop stops at the first key of the form `g:a:...:c`. */
  lemma {:induction false} ClassifierMatchAt(keys: seq<string>, g: string, a: string, c: string, n: nat)
    requires n < |keys| && ClassifierForm(keys[n], g, a, c)
    requires forall j :: 0 <= j < n ==> !ClassifierForm(keys[j], g, a, c)
    ensures |Split(keys[n], ':')| >= 3
    ensures ClassifierMatch(keys, g, a, c) == Some(Split(keys[n], ':')[2])
    decreases n
  {
    ClassifierFormPieces(keys[n], g, a);
    if n > 0 {
      assert !ClassifierForm(keys[0], g, a, c);
      assert keys[1..][n - 1] == keys[n];
      assert forall j :: 0 <= j < n - 1 ==> keys[1..][j] == keys[j + 1];
      ClassifierMatchAt(keys[1..], g, a, c, n - 1);
    }
  }

  /** `g:a:v:c` splits into its four pieces. */
  lemma FourPieces(g: string, a: string, v: string, c: string)
    requires ':' !in g && ':' !in a && ':' !in v && ':' !in c
    ensures Split(g + ":" + a + ":" + v + ":" + c, ':') == [g, a, v, c]
  {
    var parts := [g, a, v, c];
    assert parts[1..] == [a, v, c] && parts[1..][1..] == [v, c] && parts[1..][1..][1..] == [c];
    assert Join([v, c], ':') == v + ":" + c;
    assert Join([a, v, c], ':') == a + ":" + (v + ":" + c);
    assert Join(parts, ':') == g + ":" + (a + ":" + (v + ":" + c));
    assert g + ":" + a + ":" + v + ":" + c == g + ":" + (a + ":" + (v + ":" + c));
    SplitOfJoin(parts, ':');
  }

  /** The first loop of the lookup (lines 276-283). */
  method FindClassifierMatch(keys: seq<string>, g: string, a: string, c: string) returns (r: Option<string>)
    ensures r == ClassifierMatch(keys, g, a, c)
  {
    var i := 0;
    while i < |keys|
      invariant 0 <= i <= |keys|
      invariant ClassifierMatch(keys, g, a, c) == ClassifierMatch(keys[i..], g, a, c)
    {
      var mKey := keys[i];
      assert keys[i..][1..] == keys[i + 1..];
      if StartsWith(mKey, g + ":" + a + ":") && EndsWith(mKey, ":" + c) {
        ClassifierFormPieces(mKey, g, a);
        return Some(Split(mKey, ':')[2]);
      }
      i := i + 1;
    }
    return None;
  }

  /** The second loop of the lookup (lines 286-293). */
  method FindPlainMatch(keys: seq<string>, g: string, a: string, c: Option<string>)
    returns (r: Result<Option<string>, Failure>)
    ensures r == PlainMatch(keys, g, a, c)
  {
    var i := 0;
    while i < |keys|
      invariant 0 <= i <= |keys|
      invariant PlainMatch(keys, g, a, c) == PlainMatch(keys[i..], g, a, c)
    {
      var mKey := keys[i];
      assert keys[i..][1..] == keys[i + 1..];
      var mParts := Split(mKey, ':');
      if |mParts| < 2 {
        return Err(IndexOutOfRange(mKey));
      }
      var mg, ma := mParts[0], mParts[1];
      var mClassifier := if |mParts| == 4 then Some(mParts[3]) else None;
      if mg == g && ma == a && mClassifier == c {
        if |mParts| < 3 {
          return Err(IndexOutOfRange(mKey));
        }
        return Ok(Some(mParts[2]));
      }
      i := i + 1;
    }
    return Ok(None);
  }

  /** The managed-version lookup as the source runs it: two loops over the
      managed keys in insertion order, each stopping at its first match. */
  method LookupManagedVersion(g: string, a: string, c: Option<string>, managed: Dict<NormalizedEntry>)
    returns (r: Result<Option<string>, Failure>)
    ensures r == ManagedVersion(g, a, c, managed.keys)
  {
    var managedVersion: Option<string> := None;
    if Truthy(c) {
      managedVersion := FindClassifierMatch(managed.keys, g, a, c.value);
    }
    if !Truthy(managedVersion) {
      var found :- FindPlainMatch(managed.keys, g, a, c);
      if found.Some? {
        managedVersion := found;
      }
    }
    r := Ok(managedVersion);
  }

  // ------------------------------------------------------------ final version

  /** The version a direct dependency is keyed by (lines 296-304). The
      property maps are layered root, then parent, then local. */
  function FinalVersion(v: Option<string>, managedVersion: Option<string>,
                        root: Props, parent: Props, local: Props, fuel: nat): (r: Result<Option<string>, Failure>)
    ensures !Truthy(v) ==> r.Ok? && Truthy(r.value)
    ensures !Truthy(v) && Truthy(managedVersion) ==> r == Ok(managedVersion)
    ensures Truthy(v) && !StartsWith(v.value, "${") ==> r == Ok(v)
    ensures Truthy(v) && r.Ok? ==> (r.value.Some? &&
      (r.value.value == v.value || StoredIn(r.value.value, root + parent + local, map[])))
  {
    if !Truthy(v) && Truthy(managedVersion) then Ok(managedVersion)
    else if Truthy(v) && StartsWith(v.value, "${") then PropertyValue(v, root + parent + local, map[], fuel)
    else if !Truthy(v) && !Truthy(managedVersion) then Ok(Some(NotManaged))
    else Ok(v)
  }

  /** The two remaining cases: with neither a direct nor a managed version
      the result is the `NotManaged` marker; a `${...}` version is resolved
      by `get_property_value` against root, parent and local properties
      layered so that local wins, with no global map. */
  lemma FinalVersionCases(v: Option<string>, managedVersion: Option<string>, root: Props, parent: Props, local: Props,
                          fuel: nat)
    ensures !Truthy(v) && !Truthy(managedVersion) ==>
      FinalVersion(v, managedVersion, root, parent, local, fuel) == Ok(Some(NotManaged))
    ensures Truthy(v) && StartsWith(v.value, "${") ==>
      FinalVersion(v, managedVersion, root, parent, local, fuel)
        == PropertyValue(v, EffectiveProperties(local, parent, root), map[], fuel)
  {
    assert root + parent + local == EffectiveProperties(local, parent, root);
  }

  /** A `${k}` version whose key some property map binds to a plain value
      takes the local value first, then the parent's, then the root's. */
  lemma FinalVersionPrecedence(k: string, managedVersion: Option<string>, root: Props, parent: Props, local: Props,
                               fuel: nat)
    requires !IsPlaceholder(k)
    requires Get(EffectiveProperties(local, parent, root), k).Some?
    requires !IsPlaceholder(Get(EffectiveProperties(local, parent, root), k).value)
    ensures FinalVersion(Some("${" + k + "}"), managedVersion, root, parent, local, fuel)
         == Ok(if k in local then local[k] else if k in parent then parent[k] else Get(root, k))
  {
    WrapUnwrap(k);
    assert StartsWith("${" + k + "}", "${");
    FinalVersionCases(Some("${" + k + "}"), managedVersion, root, parent, local, fuel);
  }

  // --------------------------------------------------- resolved_maven_deps

  /** The key and entry one direct dependency contributes. Its key begins
      with `group:artifact`; `DirectEntryKey` gives all its pieces. */
  function DirectEntryOf(d: DirectDependency, managed: seq<string>, root: Props, parent: Props, local: Props, fuel: nat)
    : (r: Result<(string, MavenEntry), Failure>)
    ensures r.Ok? ==> StartsWith(r.value.0, d.groupId + ":" + d.artifactId)
    ensures r.Ok? ==> r.value.1 == MavenEntry(d.scope, if Truthy(d.version) then d.version.value else "From Management")
  {
    var g, a := d.groupId, d.artifactId;
    var managedVersion :- ManagedVersion(g, a, d.classifier, managed);
    var final :- FinalVersion(d.version, managedVersion, root, parent, local, fuel);
    Ok((DependencyKey(g, a, final, d.classifier),
        MavenEntry(d.scope, if Truthy(d.version) then d.version.value else "From Management")))
  }

  /** Only the managed-version lookup and the final version can fail a
      direct dependency. Its key's pieces are the group, the artifact, the
      final version when it is non-empty and the classifier when there is one. */
  lemma DirectEntryKey(d: DirectDependency, managed: seq<string>, root: Props, parent: Props, local: Props, fuel: nat)
    ensures DirectEntryOf(d, managed, root, parent, local, fuel).Ok? <==>
      (ManagedVersion(d.groupId, d.artifactId, d.classifier, managed).Ok? &&
       FinalVersion(d.version, ManagedVersion(d.groupId, d.artifactId, d.classifier, managed).value,
                    root, parent, local, fuel).Ok?)
    ensures DirectEntryOf(d, managed, root, parent, local, fuel).Ok? ==>
      var final := FinalVersion(d.version, ManagedVersion(d.groupId, d.artifactId, d.classifier, managed).value,
                                root, parent, local, fuel).value;
      ColonFree(d.groupId, d.artifactId, final, d.classifier) ==>
        Split(DirectEntryOf(d, managed, root, parent, local, fuel).value.0, ':')
          == KeyParts(d.groupId, d.artifactId, final, d.classifier)
  {
    var mv := ManagedVersion(d.groupId, d.artifactId, d.classifier, managed);
    if mv.Ok? && FinalVersion(d.version, mv.value, root, parent, local, fuel).Ok? {
      DependencyKeyRoundTrip(d.groupId, d.artifactId, FinalVersion(d.version, mv.value, root, parent, local, fuel).value,
                             d.classifier);
    }
  }

  /** The contributions of all direct dependencies, in order, or the first failure. */
  function DirectEntries(deps: seq<DirectDependency>, managed: seq<string>, root: Props, parent: Props, local: Props, fuel: nat)
    : (r: Result<seq<Option<(string, MavenEntry)>>, Failure>)
    ensures r.Ok? ==> |r.value| == |deps|
    decreases |deps|
  {
    if deps == [] then Ok([])
    else
      var before :- DirectEntries(deps[..|deps| - 1], managed, root, parent, local, fuel);
      var e :- DirectEntryOf(deps[|deps| - 1], managed, root, parent, local, fuel);
      Ok(before + [Some(e)])
  }

  /** Item `i` of a successful list is the entry of dependency `i`. */
  lemma {:induction false} DirectEntriesAt(deps: seq<DirectDependency>, i: nat, managed: seq<string>, root: Props,
                                           parent: Props, local: Props, fuel: nat)
    requires i < |deps|
    requires DirectEntries(deps, managed, root, parent, local, fuel).Ok?
    ensures DirectEntries(deps, managed, root, parent, local, fuel).value[i].Some?
    ensures DirectEntryOf(deps[i], managed, root, parent, local, fuel)
         == Ok(DirectEntries(deps, managed, root, parent, local, fuel).value[i].value)
    decreases |deps|
  {
    if i < |deps| - 1 {
      var init := deps[..|deps| - 1];
      assert init[i] == deps[i];
      DirectEntriesAt(init, i, managed, root, parent, local, fuel);
    }
  }

  /** `resolved_maven_deps` for one POM. */
  function Resolved(deps: seq<DirectDependency>, managed: seq<string>, root: Props, parent: Props, local: Props, fuel: nat)
    : Result<Dict<MavenEntry>, Failure>
  {
    var items :- DirectEntries(deps, managed, root, parent, local, fuel);
    Ok(PutAll(Empty(), items))
  }

  /** Every direct dependency has an entry, under a key beginning with its
      `group:artifact`; every key is one of those and splits into at least
      two pieces. */
  lemma {:induction false} ResolvedKeys(deps: seq<DirectDependency>, managed: seq<string>, root: Props, parent: Props,
                                        local: Props, fuel: nat)
    requires Resolved(deps, managed, root, parent, local, fuel).Ok?
    ensures var d := Resolved(deps, managed, root, parent, local, fuel).value;
      && d.Valid()
      && (forall i :: 0 <= i < |deps| ==> (DirectEntryOf(deps[i], managed, root, parent, local, fuel).Ok? &&
            DirectEntryOf(deps[i], managed, root, parent, local, fuel).value.0 in d.entries))
      && (forall k :: k in d.entries ==> (|Split(k, ':')| >= 2 &&
            exists i :: 0 <= i < |deps| && StartsWith(k, deps[i].groupId + ":" + deps[i].artifactId)))
  {
    var items := DirectEntries(deps, managed, root, parent, local, fuel).value;
    var d := PutAll(Empty(), items);
    PutAllKeys(Empty(), items);
    forall i | 0 <= i < |deps|
      ensures DirectEntryOf(deps[i], managed, root, parent, local, fuel).Ok?
      ensures DirectEntryOf(deps[i], managed, root, parent, local, fuel).value.0 in d.entries
    {
      DirectEntriesAt(deps, i, managed, root, parent, local, fuel);
      assert HasKey(items, i, items[i].value.0);
    }
    forall k | k in d.entries
      ensures |Split(k, ':')| >= 2
      ensures exists i :: 0 <= i < |deps| && StartsWith(k, deps[i].groupId + ":" + deps[i].artifactId)
    {
      var n :| HasKey(items, n, k);
      DirectEntriesAt(deps, n, managed, root, parent, local, fuel);
      ColonInKey(k, deps[n].groupId, deps[n].artifactId);
      SeparatorSplits(k, ':');
    }
  }

  /** The first direct dependency whose resolution fails decides the failure. */
  lemma {:induction false} DirectEntriesStopAtFailure(deps: seq<DirectDependency>, i: nat, managed: seq<string>,
                                                      root: Props, parent: Props, local: Props, fuel: nat)
    requires i < |deps|
    requires DirectEntries(deps[..i], managed, root, parent, local, fuel).Ok?
    requires DirectEntryOf(deps[i], managed, root, parent, local, fuel).Err?
    ensures DirectEntries(deps, managed, root, parent, local, fuel)
         == Err(DirectEntryOf(deps[i], managed, root, parent, local, fuel).error)
    decreases |deps|
  {
    var init := deps[..|deps| - 1];
    if i == |deps| - 1 {
      assert init == deps[..i];
    } else {
      assert init[..i] == deps[..i];
      assert init[i] == deps[i];
      DirectEntriesStopAtFailure(init, i, managed, root, parent, local, fuel);
    }
  }

  /** One more direct dependency that resolves adds its entry to the dictionary. */
  lemma ResolvedStep(deps: seq<DirectDependency>, i: nat, managed: seq<string>, root: Props, parent: Props,
                     local: Props, fuel: nat)
    requires i < |deps|
    requires Resolved(deps[..i], managed, root, parent, local, fuel).Ok?
    requires DirectEntryOf(deps[i], managed, root, parent, local, fuel).Ok?
    ensures var e := DirectEntryOf(deps[i], managed, root, parent, local, fuel).value;
      Resolved(deps[..i + 1], managed, root, parent, local, fuel)
        == Ok(Resolved(deps[..i], managed, root, parent, local, fuel).value.Put(e.0, e.1))
  {
    assert deps[..i + 1][..i] == deps[..i];
    assert deps[..i + 1][i] == deps[i];
    var items := DirectEntries(deps[..i], managed, root, parent, local, fuel).value;
    var e := DirectEntryOf(deps[i], managed, root, parent, local, fuel).value;
    assert DirectEntries(deps[..i + 1], managed, root, parent, local, fuel) == Ok(items + [Some(e)]);
    assert (items + [Some(e)])[..|items|] == items;
  }

  /** A direct dependency that fails to resolve fails the whole dictionary. */
  lemma ResolvedStopsAtFailure(deps: seq<DirectDependency>, i: nat, managed: seq<string>, root: Props, parent: Props,
                               local: Props, fuel: nat)
    requires i < |deps|
    requires Resolved(deps[..i], managed, root, parent, local, fuel).Ok?
    requires DirectEntryOf(deps[i], managed, root, parent, local, fuel).Err?
    ensures Resolved(deps, managed, root, parent, local, fuel)
         == Err(DirectEntryOf(deps[i], managed, root, parent, local, fuel).error)
  {
    DirectEntriesStopAtFailure(deps, i, managed, root, parent, local, fuel);
  }

  /** The body of the loop over `maven_direct_deps_list` for one dependency. */
  method ResolveDirectDependency(dep: DirectDependency, managed: Dict<NormalizedEntry>, root: Props, parent: Props,
                                 local: Props, fuel: nat)
    returns (r: Result<(string, MavenEntry), Failure>)
    ensures r == DirectEntryOf(dep, managed.keys, root, parent, local, fuel)
  {
    var g, a, v, s := dep.groupId, dep.artifactId, dep.version, dep.scope;
    var classifier := dep.classifier;
    var managedVersion :- LookupManagedVersion(g, a, classifier, managed);
    var finalVersion := v;
    if !Truthy(finalVersion) && Truthy(managedVersion) {
      finalVersion := managedVersion;
    } else if Truthy(finalVersion) && StartsWith(finalVersion.value, "${") {
      finalVersion :- PropertyValue(finalVersion, root + parent + local, map[], fuel);
    } else if !Truthy(finalVersion) && !Truthy(managedVersion) {
      finalVersion := Some(NotManaged);
    }
    assert FinalVersion(v, managedVersion, root, parent, local, fuel) == Ok(finalVersion);
    var depKeyParts := [g, a];
    if Truthy(finalVersion) {
      depKeyParts := depKeyParts + [finalVersion.value];
    }
    if Truthy(classifier) {
      depKeyParts := depKeyParts + [classifier.value];
    }
    assert depKeyParts == KeyParts(g, a, finalVersion, classifier);
    r := Ok((Join(depKeyParts, ':'), MavenEntry(s, if Truthy(v) then v.value else "From Management")));
  }

  /** The loop of lines 256-313 that fills `resolved_maven_deps`. */
  method ResolveDirectDependencies(deps: seq<DirectDependency>, managed: Dict<NormalizedEntry>, root: Props,
                                   parent: Props, local: Props, fuel: nat)
    returns (r: Result<Dict<MavenEntry>, Failure>)
    ensures r == Resolved(deps, managed.keys, root, parent, local, fuel)
  {
    var resolved: Dict<MavenEntry> := Empty();
    assert deps[..0] == [];
    var i := 0;
    while i < |deps|
      invariant 0 <= i <= |deps|
      invariant Resolved(deps[..i], managed.keys, root, parent, local, fuel) == Ok(resolved)
    {
      var e := ResolveDirectDependency(deps[i], managed, root, parent, local, fuel);
      if e.Err? {
        ResolvedStopsAtFailure(deps, i, managed.keys, root, parent, local, fuel);
        return Err(e.error);
      }
      ResolvedStep(deps, i, managed.keys, root, parent, local, fuel);
      resolved := resolved.Put(e.value.0, e.value.1);
      i := i + 1;
    }
    assert deps[..i] == deps;
    r := Ok(resolved);
  }
}
