/**
 * What `PomDependencyVersionsTransformer` computes, stated on values: the
 * three maps its collect step fills, the properties and property names its
 * group loop produces, and the dependency list its rewrite step leaves. The
 * class in module DependencyVersionsTransformer is proved to compute exactly
 * these; the lemmas here state what the result guarantees.
 */
module Consolidation {
  import opened Wrappers
  import opened Pom
  import opened VersionPropertyNames
  import opened StringOrder

  const PlaceholderPrefix: string := "${"
  const PlaceholderSuffix: string := "}"

  // ---------------------------------------------------------------------------
  // Keys, placeholders and interpolation

  /** The key under which an artifact is filed: `groupId:artifactId`. */
  function Key(groupId: string, artifactId: string): string
  {
    groupId + ":" + artifactId
  }

  function DependencyKey(d: Dependency): string
  {
    Key(d.groupId, d.artifactId)
  }

  /** Within one group, the key determines the artifact. */
  lemma KeyInjective(groupId: string, artifactId1: string, artifactId2: string)
    requires Key(groupId, artifactId1) == Key(groupId, artifactId2)
    ensures artifactId1 == artifactId2
  {
    assert Key(groupId, artifactId1)[|groupId| + 1..] == artifactId1;
    assert Key(groupId, artifactId2)[|groupId| + 1..] == artifactId2;
  }

  lemma KeyInjectiveInGroup(groupId: string)
    ensures forall a1, a2 :: Key(groupId, a1) == Key(groupId, a2) ==> a1 == a2
  {
    forall a1, a2 | Key(groupId, a1) == Key(groupId, a2)
      ensures a1 == a2
    {
      KeyInjective(groupId, a1, a2);
    }
  }

  lemma ArtifactNameInjectiveInGroup(groupId: string)
    ensures forall a1, a2 ::
      BuildPropertyNameForGroupAndArtifact(groupId, a1) == BuildPropertyNameForGroupAndArtifact(groupId, a2) ==> a1 == a2
  {
    forall a1, a2 | BuildPropertyNameForGroupAndArtifact(groupId, a1) == BuildPropertyNameForGroupAndArtifact(groupId, a2)
      ensures a1 == a2
    {
      ArtifactNameInjective(groupId, a1, a2);
    }
  }

  /** `version.startsWith("${")` */
  predicate IsPlaceholder(version: string)
  {
    |PlaceholderPrefix| <= |version| && version[..|PlaceholderPrefix|] == PlaceholderPrefix
  }

  /** The text between the leading `${` and the last character. */
  function PlaceholderName(version: string): string
    requires |PlaceholderPrefix| + |PlaceholderSuffix| <= |version|
  {
    version[|PlaceholderPrefix|..|version| - |PlaceholderSuffix|]
  }

  /** `${name}`: a placeholder from which `PlaceholderName` reads `name` back. */
  function Placeholder(name: string): (version: string)
    ensures IsPlaceholder(version)
    ensures |PlaceholderPrefix| + |PlaceholderSuffix| <= |version|
    ensures PlaceholderName(version) == name
  {
    PlaceholderPrefix + name + PlaceholderSuffix
  }

  /** `interpolateVersion`: one lookup of the placeholder's name; `None` is Java's null. */
  function InterpolateVersion(properties: map<string, string>, literalVersion: string): (value: Option<string>)
    requires |PlaceholderPrefix| + |PlaceholderSuffix| <= |literalVersion|
    ensures IsPlaceholder(literalVersion) ==> (value.Some? <==> Resolves(properties, literalVersion))
    ensures value.Some? ==> value.value in properties.Values
  {
    var versionCode := PlaceholderName(literalVersion);
    if versionCode in properties then Some(properties[versionCode]) else None
  }

  /**
   * The value a version is compared by: a literal as itself, a placeholder by
   * one lookup (a chain of placeholders is not followed). `None` where the
   * source gets null, or (for the too-short `${`) throws.
   */
  function DigitalVersion(properties: map<string, string>, version: string): (digital: Option<string>)
    ensures digital.Some? <==> Resolves(properties, version)
    ensures !IsPlaceholder(version) ==> digital == Some(version)
  {
    if !IsPlaceholder(version) then Some(version)
    else if |version| < |PlaceholderPrefix| + |PlaceholderSuffix| then None
    else InterpolateVersion(properties, version)
  }

  /** The version can be interpolated without an exception and without null. */
  predicate Resolves(properties: map<string, string>, version: string)
  {
    !IsPlaceholder(version)
    || (|PlaceholderPrefix| + |PlaceholderSuffix| <= |version| && PlaceholderName(version) in properties)
  }

  /**
   * `areVersionsIdentical`: the first version must interpolate (the source
   * calls `equals` on it); a second one that interpolates to null is unequal.
   */
  function AreVersionsIdentical(properties: map<string, string>, version1: string, version2: string): (identical: bool)
    requires Resolves(properties, version1)
    requires IsPlaceholder(version2) ==> |PlaceholderPrefix| + |PlaceholderSuffix| <= |version2|
    ensures identical <==> DigitalVersion(properties, version1) == DigitalVersion(properties, version2)
    ensures !IsPlaceholder(version1) && !IsPlaceholder(version2) ==> (identical <==> version1 == version2)
    ensures identical ==> Resolves(properties, version2)
  {
    var digitalVersion1 := if IsPlaceholder(version1) then InterpolateVersion(properties, version1).value else version1;
    var digitalVersion2 := if IsPlaceholder(version2) then InterpolateVersion(properties, version2) else Some(version2);
    digitalVersion2 == Some(digitalVersion1)
  }

  /** A placeholder written for `name` interpolates to the value of property `name`. */
  lemma InterpolatePlaceholder(properties: map<string, string>, name: string)
    ensures DigitalVersion(properties, Placeholder(name))
         == if name in properties then Some(properties[name]) else None
  {
  }

  /** Interpolation is single-level: a property whose value is a placeholder is not followed. */
  lemma InterpolationIsSingleLevel()
    ensures DigitalVersion(map["a" := "${b}", "b" := "1.0"], "${a}") == Some("${b}")
  {
    assert "${a}"[..2] == "${";
    assert PlaceholderName("${a}") == "a";
  }

  // ---------------------------------------------------------------------------
  // Collect step

  /**
   * The three maps of `collectVersionsAndMappings`: the version of each
   * `groupId:artifactId`, the first version seen for each group, and the
   * artifactIds seen under each group.
   */
  datatype Collected = Collected(
    versions: map<string, string>,
    groupVersions: map<string, string>,
    groupArtifacts: map<string, set<string>>)

  /** Every group has a first version and a non-empty artifact set, and every artifact a version. */
  predicate WellFormed(c: Collected)
  {
    && c.groupVersions.Keys == c.groupArtifacts.Keys
    && (forall g :: g in c.groupArtifacts ==> c.groupArtifacts[g] != {})
    && (forall g, a :: g in c.groupArtifacts && a in c.groupArtifacts[g] ==> Key(g, a) in c.versions)
  }

  /** The maps after the loop of `collectVersionsAndMappings` has seen `deps`, in order. */
  function Collect(deps: seq<Dependency>): (c: Collected)
    ensures WellFormed(c)
  {
    if deps == [] then Collected(map[], map[], map[])
    else
      var c := Collect(deps[..|deps| - 1]);
      var d := deps[|deps| - 1];
      var artifactIds := if d.groupId in c.groupArtifacts then c.groupArtifacts[d.groupId] else {};
      Collected(
        c.versions[Key(d.groupId, d.artifactId) := d.version],
        if d.groupId in c.groupVersions then c.groupVersions else c.groupVersions[d.groupId := d.version],
        c.groupArtifacts[d.groupId := artifactIds + {d.artifactId}])
  }

  /** Every dependency's group and artifact is recorded. */
  lemma {:induction false} CollectRecordsEveryDependency(deps: seq<Dependency>)
    ensures forall i :: 0 <= i < |deps| ==>
      && deps[i].groupId in Collect(deps).groupArtifacts
      && deps[i].artifactId in Collect(deps).groupArtifacts[deps[i].groupId]
  {
    if deps != [] {
      var prefix := deps[..|deps| - 1];
      CollectRecordsEveryDependency(prefix);
      assert forall i :: 0 <= i < |prefix| ==> prefix[i] == deps[i];
    }
  }

  /** Only artifacts that some dependency carries are recorded. */
  lemma {:induction false} CollectRecordsOnlyDependencies(deps: seq<Dependency>)
    ensures forall g, a :: g in Collect(deps).groupArtifacts && a in Collect(deps).groupArtifacts[g] ==>
      exists i :: 0 <= i < |deps| && deps[i].groupId == g && deps[i].artifactId == a
  {
    if deps != [] {
      var n := |deps| - 1;
      var prefix := deps[..n];
      CollectRecordsOnlyDependencies(prefix);
      var c, c' := Collect(prefix), Collect(deps);
      forall g, a | g in c'.groupArtifacts && a in c'.groupArtifacts[g]
        ensures exists i :: 0 <= i < |deps| && deps[i].groupId == g && deps[i].artifactId == a
      {
        if g != deps[n].groupId || a != deps[n].artifactId {
          assert g in c.groupArtifacts && a in c.groupArtifacts[g];
          var i :| 0 <= i < |prefix| && prefix[i].groupId == g && prefix[i].artifactId == a;
          assert deps[i] == prefix[i];
        }
      }
    }
  }

  /** Every recorded version is the version of a dependency with that key. */
  lemma {:induction false} CollectVersionsFromDependencies(deps: seq<Dependency>)
    ensures forall k :: k in Collect(deps).versions ==>
      exists i :: 0 <= i < |deps| && DependencyKey(deps[i]) == k && Collect(deps).versions[k] == deps[i].version
  {
    if deps != [] {
      var n := |deps| - 1;
      var prefix := deps[..n];
      CollectVersionsFromDependencies(prefix);
      var c, c' := Collect(prefix), Collect(deps);
      forall k | k in c'.versions
        ensures exists i :: 0 <= i < |deps| && DependencyKey(deps[i]) == k && c'.versions[k] == deps[i].version
      {
        if k == DependencyKey(deps[n]) {
          assert c'.versions[k] == deps[n].version;
        } else {
          assert k in c.versions && c'.versions[k] == c.versions[k];
          var i :| 0 <= i < |prefix| && DependencyKey(prefix[i]) == k && c.versions[k] == prefix[i].version;
          assert deps[i] == prefix[i];
        }
      }
    }
  }

  /** Every recorded group version is the version of a dependency of that group. */
  lemma {:induction false} CollectGroupVersionsFromDependencies(deps: seq<Dependency>)
    ensures forall g :: g in Collect(deps).groupVersions ==>
      exists i :: 0 <= i < |deps| && deps[i].groupId == g && Collect(deps).groupVersions[g] == deps[i].version
  {
    if deps != [] {
      var n := |deps| - 1;
      var prefix := deps[..n];
      CollectGroupVersionsFromDependencies(prefix);
      var c, c' := Collect(prefix), Collect(deps);
      forall g | g in c'.groupVersions
        ensures exists i :: 0 <= i < |deps| && deps[i].groupId == g && c'.groupVersions[g] == deps[i].version
      {
        if g in c.groupVersions {
          assert c'.groupVersions[g] == c.groupVersions[g];
          var i :| 0 <= i < |prefix| && prefix[i].groupId == g && c.groupVersions[g] == prefix[i].version;
          assert deps[i] == prefix[i];
        } else {
          assert c'.groupVersions[g] == deps[n].version;
        }
      }
    }
  }

  /** `put`: a key's version is that of its last occurrence. */
  lemma {:induction false} CollectKeepsLastVersion(deps: seq<Dependency>, i: int)
    requires 0 <= i < |deps|
    requires forall j :: i < j < |deps| ==> DependencyKey(deps[j]) != DependencyKey(deps[i])
    ensures DependencyKey(deps[i]) in Collect(deps).versions
    ensures Collect(deps).versions[DependencyKey(deps[i])] == deps[i].version
  {
    if i < |deps| - 1 {
      var prefix := deps[..|deps| - 1];
      assert prefix[i] == deps[i];
      CollectKeepsLastVersion(prefix, i);
    }
  }

  /** `computeIfAbsent`: a group's version is that of its first occurrence. */
  lemma {:induction false} CollectKeepsFirstGroupVersion(deps: seq<Dependency>, i: int)
    requires 0 <= i < |deps|
    requires forall j :: 0 <= j < i ==> deps[j].groupId != deps[i].groupId
    ensures deps[i].groupId in Collect(deps).groupVersions
    ensures Collect(deps).groupVersions[deps[i].groupId] == deps[i].version
  {
    var prefix := deps[..|deps| - 1];
    if i < |deps| - 1 {
      assert prefix[i] == deps[i];
      CollectKeepsFirstGroupVersion(prefix, i);
    } else {
      assert forall j :: 0 <= j < |prefix| ==> prefix[j].groupId != deps[i].groupId;
      CollectOmitsUnseenGroup(prefix, deps[i].groupId);
    }
  }

  /** A group no dependency carries has no recorded version. */
  lemma {:induction false} CollectOmitsUnseenGroup(deps: seq<Dependency>, groupId: string)
    requires forall j :: 0 <= j < |deps| ==> deps[j].groupId != groupId
    ensures groupId !in Collect(deps).groupVersions
  {
    if deps != [] {
      var prefix := deps[..|deps| - 1];
      assert forall j :: 0 <= j < |prefix| ==> prefix[j] == deps[j];
      CollectOmitsUnseenGroup(prefix, groupId);
    }
  }

  // ---------------------------------------------------------------------------
  // Naming step, one group

  /** All artifacts of the group interpolate to the same version. */
  predicate SameVersion(properties: map<string, string>, versions: map<string, string>, groupId: string, artifactIds: set<string>)
    requires forall a :: a in artifactIds ==> Key(groupId, a) in versions
  {
    forall a1, a2 :: a1 in artifactIds && a2 in artifactIds ==>
      DigitalVersion(properties, versions[Key(groupId, a1)]) == DigitalVersion(properties, versions[Key(groupId, a2)])
  }

  /** No version of the group makes interpolation throw or yield null. */
  predicate GroupResolves(properties: map<string, string>, versions: map<string, string>, groupId: string, artifactIds: set<string>)
    requires forall a :: a in artifactIds ==> Key(groupId, a) in versions
  {
    forall a :: a in artifactIds ==> Resolves(properties, versions[Key(groupId, a)])
  }

  /** The group gets one shared property: it has one artifact, or all interpolate alike. */
  predicate GroupShares(c: Collected, properties: map<string, string>, groupId: string)
    requires WellFormed(c) && groupId in c.groupArtifacts
  {
    |c.groupArtifacts[groupId]| == 1 || SameVersion(properties, c.versions, groupId, c.groupArtifacts[groupId])
  }

  /** A sharing group writes `version.<groupId>` with the group's version, unless present. */
  function SharedProperties(properties: map<string, string>, groupId: string, groupVersion: string): map<string, string>
  {
    var name := BuildPropertyName(groupId);
    if name in properties then properties else properties[name := groupVersion]
  }

  /** A diverging group writes each absent `version.<groupId>.<artifactId>` with the artifact's version. */
  function PerArtifactProperties(
    properties: map<string, string>, versions: map<string, string>, groupId: string, artifactIds: set<string>
  ): map<string, string>
    requires forall a :: a in artifactIds ==> Key(groupId, a) in versions
  {
    properties + NewArtifactProperties(properties, versions, groupId, artifactIds)
  }

  /** The entries a diverging group adds: one per artifact whose name is not yet a property. */
  function NewArtifactProperties(
    properties: map<string, string>, versions: map<string, string>, groupId: string, artifactIds: set<string>
  ): map<string, string>
    requires forall a :: a in artifactIds ==> Key(groupId, a) in versions
  {
    ArtifactNameInjectiveInGroup(groupId);
    map a | a in artifactIds && BuildPropertyNameForGroupAndArtifact(groupId, a) !in properties
      :: BuildPropertyNameForGroupAndArtifact(groupId, a) := versions[Key(groupId, a)]
  }

  /** Every artifact of a sharing group is named `version.<groupId>`. */
  function SharedNames(groupId: string, artifactIds: set<string>): map<string, string>
  {
    map a | a in artifactIds :: Key(groupId, a) := BuildPropertyName(groupId)
  }

  /** Every artifact of a diverging group is named `version.<groupId>.<artifactId>`. */
  function PerArtifactNames(groupId: string, artifactIds: set<string>): map<string, string>
  {
    KeyInjectiveInGroup(groupId);
    map a | a in artifactIds :: Key(groupId, a) := BuildPropertyNameForGroupAndArtifact(groupId, a)
  }

  /** The properties after `buildVersionPropertiesForGroupId`. */
  function GroupProperties(c: Collected, properties: map<string, string>, groupId: string): map<string, string>
    requires WellFormed(c) && groupId in c.groupArtifacts
  {
    if GroupShares(c, properties, groupId) then SharedProperties(properties, groupId, c.groupVersions[groupId])
    else PerArtifactProperties(properties, c.versions, groupId, c.groupArtifacts[groupId])
  }

  /** The entries `buildVersionPropertiesForGroupId` puts into the property-name map. */
  function GroupNames(c: Collected, properties: map<string, string>, groupId: string): map<string, string>
    requires WellFormed(c) && groupId in c.groupArtifacts
  {
    if GroupShares(c, properties, groupId) then SharedNames(groupId, c.groupArtifacts[groupId])
    else PerArtifactNames(groupId, c.groupArtifacts[groupId])
  }

  /** A group never overwrites a property. */
  lemma GroupKeepsExistingProperties(c: Collected, properties: map<string, string>, groupId: string)
    requires WellFormed(c) && groupId in c.groupArtifacts
    ensures forall k :: k in properties ==>
      k in GroupProperties(c, properties, groupId) && GroupProperties(c, properties, groupId)[k] == properties[k]
  {
  }

  /** The group names exactly its own artifacts' keys. */
  lemma GroupNamesKeys(c: Collected, properties: map<string, string>, groupId: string)
    requires WellFormed(c) && groupId in c.groupArtifacts
    ensures forall a :: a in c.groupArtifacts[groupId] ==> Key(groupId, a) in GroupNames(c, properties, groupId)
    ensures forall k :: k in GroupNames(c, properties, groupId) ==>
      exists a :: a in c.groupArtifacts[groupId] && k == Key(groupId, a)
  {
  }

  /** A sharing group: every artifact gets `version.<groupId>`, a new value being the group's first version. */
  lemma GroupSharedProperty(c: Collected, properties: map<string, string>, groupId: string)
    requires WellFormed(c) && groupId in c.groupArtifacts
    requires GroupShares(c, properties, groupId)
    ensures forall a :: a in c.groupArtifacts[groupId] ==>
      GroupNames(c, properties, groupId)[Key(groupId, a)] == BuildPropertyName(groupId)
    ensures BuildPropertyName(groupId) in GroupProperties(c, properties, groupId)
    ensures BuildPropertyName(groupId) !in properties ==>
      GroupProperties(c, properties, groupId)[BuildPropertyName(groupId)] == c.groupVersions[groupId]
    ensures GroupProperties(c, properties, groupId).Keys == properties.Keys + {BuildPropertyName(groupId)}
  {
  }

  /**
   * A diverging group: each artifact gets `version.<groupId>.<artifactId>`,
   * distinct for distinct artifacts, a new value being the artifact's recorded
   * version (a placeholder included).
   */
  lemma GroupPerArtifactProperties(c: Collected, properties: map<string, string>, groupId: string)
    requires WellFormed(c) && groupId in c.groupArtifacts
    requires !GroupShares(c, properties, groupId)
    ensures |c.groupArtifacts[groupId]| > 1
    ensures forall a :: a in c.groupArtifacts[groupId] ==>
      && GroupNames(c, properties, groupId)[Key(groupId, a)] == BuildPropertyNameForGroupAndArtifact(groupId, a)
      && BuildPropertyNameForGroupAndArtifact(groupId, a) in GroupProperties(c, properties, groupId)
      && (BuildPropertyNameForGroupAndArtifact(groupId, a) !in properties ==>
            GroupProperties(c, properties, groupId)[BuildPropertyNameForGroupAndArtifact(groupId, a)]
              == c.versions[Key(groupId, a)])
    ensures forall a1, a2 :: a1 in c.groupArtifacts[groupId] && a2 in c.groupArtifacts[groupId] && a1 != a2 ==>
      GroupNames(c, properties, groupId)[Key(groupId, a1)] != GroupNames(c, properties, groupId)[Key(groupId, a2)]
    ensures GroupProperties(c, properties, groupId).Keys
         == properties.Keys + set a | a in c.groupArtifacts[groupId] :: BuildPropertyNameForGroupAndArtifact(groupId, a)
  {
    var artifactIds := c.groupArtifacts[groupId];
    PerArtifactPropertiesKeys(properties, c.versions, groupId, artifactIds);
    forall a | a in artifactIds
      ensures GroupNames(c, properties, groupId)[Key(groupId, a)] == BuildPropertyNameForGroupAndArtifact(groupId, a)
      ensures BuildPropertyNameForGroupAndArtifact(groupId, a) in GroupProperties(c, properties, groupId)
      ensures BuildPropertyNameForGroupAndArtifact(groupId, a) !in properties ==>
        GroupProperties(c, properties, groupId)[BuildPropertyNameForGroupAndArtifact(groupId, a)] == c.versions[Key(groupId, a)]
    {
      PerArtifactNamesAt(groupId, artifactIds, a);
      PerArtifactPropertiesAt(properties, c.versions, groupId, artifactIds, a);
    }
    forall a1, a2 | a1 in artifactIds && a2 in artifactIds && a1 != a2
      ensures BuildPropertyNameForGroupAndArtifact(groupId, a1) != BuildPropertyNameForGroupAndArtifact(groupId, a2)
    {
      ArtifactNameSuffix(groupId, a1);
      ArtifactNameSuffix(groupId, a2);
    }
  }

  /** A diverging group adds the per-artifact names of its artifacts and nothing else. */
  lemma PerArtifactPropertiesKeys(
    properties: map<string, string>, versions: map<string, string>, groupId: string, artifactIds: set<string>)
    requires forall a :: a in artifactIds ==> Key(groupId, a) in versions
    ensures PerArtifactProperties(properties, versions, groupId, artifactIds).Keys
         == properties.Keys + set a | a in artifactIds :: BuildPropertyNameForGroupAndArtifact(groupId, a)
  {
    var result := PerArtifactProperties(properties, versions, groupId, artifactIds);
    var names := set a | a in artifactIds :: BuildPropertyNameForGroupAndArtifact(groupId, a);
    forall k | k in result && k !in properties
      ensures k in names
    {
      assert k in NewArtifactProperties(properties, versions, groupId, artifactIds);
    }
    forall a | a in artifactIds
      ensures BuildPropertyNameForGroupAndArtifact(groupId, a) in result
    {
      PerArtifactPropertiesAt(properties, versions, groupId, artifactIds, a);
    }
  }

  /** The artifactId can be read back from the end of its property name. */
  lemma ArtifactNameSuffix(groupId: string, artifactId: string)
    ensures var name := BuildPropertyNameForGroupAndArtifact(groupId, artifactId);
      |VersionPropertyPrefix| + |groupId| + 1 <= |name|
      && name[|VersionPropertyPrefix| + |groupId| + 1..] == artifactId
  {
    var name := BuildPropertyNameForGroupAndArtifact(groupId, artifactId);
    assert name == VersionPropertyPrefix + groupId + "." + artifactId;
  }

  /** A diverging group names one artifact. */
  lemma PerArtifactNamesAt(groupId: string, artifactIds: set<string>, a: string)
    requires a in artifactIds
    ensures Key(groupId, a) in PerArtifactNames(groupId, artifactIds)
    ensures PerArtifactNames(groupId, artifactIds)[Key(groupId, a)] == BuildPropertyNameForGroupAndArtifact(groupId, a)
  {
    KeyInjectiveInGroup(groupId);
  }

  /** A diverging group writes one artifact's property unless present. */
  lemma PerArtifactPropertiesAt(
    properties: map<string, string>, versions: map<string, string>, groupId: string, artifactIds: set<string>, a: string)
    requires forall a :: a in artifactIds ==> Key(groupId, a) in versions
    requires a in artifactIds
    ensures BuildPropertyNameForGroupAndArtifact(groupId, a) in PerArtifactProperties(properties, versions, groupId, artifactIds)
    ensures BuildPropertyNameForGroupAndArtifact(groupId, a) !in properties ==>
      PerArtifactProperties(properties, versions, groupId, artifactIds)[BuildPropertyNameForGroupAndArtifact(groupId, a)]
        == versions[Key(groupId, a)]
  {
    ArtifactNameInjectiveInGroup(groupId);
  }

  /** A set holding two distinct elements has more than one. */
  lemma TwoMembers(s: set<string>, x: string, y: string)
    requires x in s && y in s && x != y
    ensures |s| > 1
  {
    var rest := s - {x};
    assert y in rest;
    assert rest + {x} == s;
  }

  /** Two artifacts of one group that share a name have equal interpolated versions. */
  lemma GroupSharesOnlyEqualVersions(c: Collected, properties: map<string, string>, groupId: string, a1: string, a2: string)
    requires WellFormed(c) && groupId in c.groupArtifacts
    requires a1 in c.groupArtifacts[groupId] && a2 in c.groupArtifacts[groupId]
    requires GroupNames(c, properties, groupId)[Key(groupId, a1)] == GroupNames(c, properties, groupId)[Key(groupId, a2)]
    ensures DigitalVersion(properties, c.versions[Key(groupId, a1)]) == DigitalVersion(properties, c.versions[Key(groupId, a2)])
  {
    if a1 != a2 {
      if !GroupShares(c, properties, groupId) {
        GroupPerArtifactProperties(c, properties, groupId);
      }
      TwoMembers(c.groupArtifacts[groupId], a1, a2);
    }
  }

  /** Every name the group hands out is a property afterwards. */
  lemma GroupNamesResolve(c: Collected, properties: map<string, string>, groupId: string)
    requires WellFormed(c) && groupId in c.groupArtifacts
    ensures forall k :: k in GroupNames(c, properties, groupId) ==>
      GroupNames(c, properties, groupId)[k] in GroupProperties(c, properties, groupId)
  {
    GroupNamesKeys(c, properties, groupId);
    if GroupShares(c, properties, groupId) {
      GroupSharedProperty(c, properties, groupId);
    } else {
      GroupPerArtifactProperties(c, properties, groupId);
    }
  }

  /** Every property a group adds is the name it hands to one of its artifacts. */
  lemma GroupNewKeysAreNames(c: Collected, properties: map<string, string>, groupId: string)
    requires WellFormed(c) && groupId in c.groupArtifacts
    ensures forall k :: k in GroupProperties(c, properties, groupId) && k !in properties ==>
      exists a :: && a in c.groupArtifacts[groupId]
                  && Key(groupId, a) in GroupNames(c, properties, groupId)
                  && GroupNames(c, properties, groupId)[Key(groupId, a)] == k
  {
    var names := GroupNames(c, properties, groupId);
    GroupNamesKeys(c, properties, groupId);
    if GroupShares(c, properties, groupId) {
      GroupSharedProperty(c, properties, groupId);
      var a :| a in c.groupArtifacts[groupId];
      assert names[Key(groupId, a)] == BuildPropertyName(groupId);
    } else {
      GroupPerArtifactProperties(c, properties, groupId);
      forall k | k in GroupProperties(c, properties, groupId) && k !in properties
        ensures exists a :: a in c.groupArtifacts[groupId] && Key(groupId, a) in names && names[Key(groupId, a)] == k
      {
        var a :| a in c.groupArtifacts[groupId] && k == BuildPropertyNameForGroupAndArtifact(groupId, a);
        assert names[Key(groupId, a)] == k;
      }
    }
  }

  // ---------------------------------------------------------------------------
  // Naming step, all groups

  predicate GroupsCollected(c: Collected, order: seq<string>)
  {
    forall i :: 0 <= i < |order| ==> order[i] in c.groupArtifacts
  }

  /** The properties after the groups of `order` have been named, in that order. */
  function PropertiesAfter(c: Collected, properties: map<string, string>, order: seq<string>): map<string, string>
    requires WellFormed(c) && GroupsCollected(c, order)
    decreases |order|
  {
    if order == [] then properties
    else GroupProperties(c, PropertiesAfter(c, properties, order[..|order| - 1]), order[|order| - 1])
  }

  /**
   * The property-name map after the groups of `order` have been named. Each
   * group sees the properties its predecessors wrote; later entries replace
   * earlier ones with the same key.
   */
  function NamesAfter(
    c: Collected, properties: map<string, string>, propertyNames: map<string, string>, order: seq<string>
  ): map<string, string>
    requires WellFormed(c) && GroupsCollected(c, order)
    decreases |order|
  {
    if order == [] then propertyNames
    else
      var prefix := order[..|order| - 1];
      NamesAfter(c, properties, propertyNames, prefix)
        + GroupNames(c, PropertiesAfter(c, properties, prefix), order[|order| - 1])
  }

  /**
   * No interpolation during the group loop throws or yields null: each group
   * with more than one artifact has only versions that resolve in the
   * properties present when it is reached. (The source fails only when the
   * unresolvable version is the first its hash set yields; this asks it of
   * every order.)
   */
  predicate InterpolationSafe(c: Collected, properties: map<string, string>, order: seq<string>)
    requires WellFormed(c) && GroupsCollected(c, order)
    decreases |order|
  {
    if order == [] then true
    else
      var prefix := order[..|order| - 1];
      var groupId := order[|order| - 1];
      && InterpolationSafe(c, properties, prefix)
      && (|c.groupArtifacts[groupId]| == 1
          || GroupResolves(PropertiesAfter(c, properties, prefix), c.versions, groupId, c.groupArtifacts[groupId]))
  }

  /** Safety of the whole loop is safety at every group. */
  lemma {:induction false} InterpolationSafeAt(c: Collected, properties: map<string, string>, order: seq<string>, i: int)
    requires WellFormed(c) && GroupsCollected(c, order)
    requires InterpolationSafe(c, properties, order)
    requires 0 <= i < |order|
    ensures |c.groupArtifacts[order[i]]| == 1
         || GroupResolves(PropertiesAfter(c, properties, order[..i]), c.versions, order[i], c.groupArtifacts[order[i]])
    decreases |order|
  {
    var prefix := order[..|order| - 1];
    if i < |order| - 1 {
      assert prefix[..i] == order[..i] && prefix[i] == order[i];
      InterpolationSafeAt(c, properties, prefix, i);
    }
  }

  /** Properties only grow along the loop, and no value is ever replaced. */
  lemma {:induction false} PropertiesAfterKeepsExisting(c: Collected, properties: map<string, string>, order: seq<string>, m: int)
    requires WellFormed(c) && GroupsCollected(c, order)
    requires 0 <= m <= |order|
    ensures forall k :: k in PropertiesAfter(c, properties, order[..m]) ==>
      && k in PropertiesAfter(c, properties, order)
      && PropertiesAfter(c, properties, order)[k] == PropertiesAfter(c, properties, order[..m])[k]
    decreases |order|
  {
    if m == |order| {
      assert order[..m] == order;
    } else {
      var prefix := order[..|order| - 1];
      assert prefix[..m] == order[..m];
      PropertiesAfterKeepsExisting(c, properties, prefix, m);
      GroupKeepsExistingProperties(c, PropertiesAfter(c, properties, prefix), order[|order| - 1]);
    }
  }

  /** The group at index `i` of `order` handed the name `k` to its artifact `a`. */
  predicate NamedAt(c: Collected, properties: map<string, string>, order: seq<string>, i: int, a: string, k: string)
    requires WellFormed(c) && GroupsCollected(c, order) && 0 <= i < |order|
  {
    && a in c.groupArtifacts[order[i]]
    && Key(order[i], a) in GroupNames(c, PropertiesAfter(c, properties, order[..i]), order[i])
    && GroupNames(c, PropertiesAfter(c, properties, order[..i]), order[i])[Key(order[i], a)] == k
  }

  /**
   * Every property the loop adds is the name some processed group handed to
   * one of its artifacts, with the properties present when it was reached.
   */
  lemma {:induction false} PropertiesAfterNewKey(c: Collected, properties: map<string, string>, order: seq<string>, k: string)
    requires WellFormed(c) && GroupsCollected(c, order)
    requires k in PropertiesAfter(c, properties, order) && k !in properties
    ensures exists i, a :: 0 <= i < |order| && NamedAt(c, properties, order, i, a, k)
    decreases |order|
  {
    var n := |order| - 1;
    var prefix := order[..n];
    var before := PropertiesAfter(c, properties, prefix);
    if k in before {
      PropertiesAfterNewKey(c, properties, prefix, k);
      var i, a :| 0 <= i < |prefix| && NamedAt(c, properties, prefix, i, a, k);
      assert prefix[..i] == order[..i] && prefix[i] == order[i];
      assert NamedAt(c, properties, order, i, a, k);
    } else {
      GroupNewKeysAreNames(c, before, order[n]);
      var a :| && a in c.groupArtifacts[order[n]]
               && Key(order[n], a) in GroupNames(c, before, order[n])
               && GroupNames(c, before, order[n])[Key(order[n], a)] == k;
      assert order[..n] == prefix;
      assert NamedAt(c, properties, order, n, a, k);
    }
  }

  /** No key of the property-name map is dropped along the loop. */
  lemma {:induction false} NamesAfterKeepsKeys(
    c: Collected, properties: map<string, string>, propertyNames: map<string, string>, order: seq<string>)
    requires WellFormed(c) && GroupsCollected(c, order)
    ensures forall k :: k in propertyNames ==> k in NamesAfter(c, properties, propertyNames, order)
    decreases |order|
  {
    if order != [] {
      NamesAfterKeepsKeys(c, properties, propertyNames, order[..|order| - 1]);
    }
  }

  /**
   * After the loop an artifact of a processed group has a name, and that name
   * is a property.
   */
  lemma {:induction false} NamesAfterResolveAt(
    c: Collected, properties: map<string, string>, propertyNames: map<string, string>, order: seq<string>,
    i: int, a: string)
    requires WellFormed(c) && GroupsCollected(c, order)
    requires 0 <= i < |order| && a in c.groupArtifacts[order[i]]
    ensures Key(order[i], a) in NamesAfter(c, properties, propertyNames, order)
    ensures NamesAfter(c, properties, propertyNames, order)[Key(order[i], a)] in PropertiesAfter(c, properties, order)
    decreases |order|
  {
    var n := |order| - 1;
    var prefix := order[..n];
    var before := PropertiesAfter(c, properties, prefix);
    var key := Key(order[i], a);
    if key in GroupNames(c, before, order[n]) {
      GroupNamesResolve(c, before, order[n]);
    } else {
      GroupNamesKeys(c, before, order[n]);
      assert i < n && prefix[i] == order[i];
      NamesAfterResolveAt(c, properties, propertyNames, prefix, i, a);
      NamesAfterStep(c, properties, propertyNames, order, key);
      GroupKeepsExistingProperties(c, before, order[n]);
    }
  }

  /**
   * After the loop every artifact of every processed group has a name that is
   * a property, and no earlier key of the property-name map was dropped.
   */
  lemma NamesAfterResolve(
    c: Collected, properties: map<string, string>, propertyNames: map<string, string>, order: seq<string>)
    requires WellFormed(c) && GroupsCollected(c, order)
    ensures forall k :: k in propertyNames ==> k in NamesAfter(c, properties, propertyNames, order)
    ensures forall i, a :: 0 <= i < |order| && a in c.groupArtifacts[order[i]] ==>
      && Key(order[i], a) in NamesAfter(c, properties, propertyNames, order)
      && NamesAfter(c, properties, propertyNames, order)[Key(order[i], a)] in PropertiesAfter(c, properties, order)
  {
    NamesAfterKeepsKeys(c, properties, propertyNames, order);
    forall i, a | 0 <= i < |order| && a in c.groupArtifacts[order[i]]
      ensures Key(order[i], a) in NamesAfter(c, properties, propertyNames, order)
      ensures NamesAfter(c, properties, propertyNames, order)[Key(order[i], a)] in PropertiesAfter(c, properties, order)
    {
      NamesAfterResolveAt(c, properties, propertyNames, order, i, a);
    }
  }

  /** Two distinct collected artifacts never share a key (true when no id holds a ':'). */
  predicate KeysDistinct(c: Collected)
  {
    forall g1, a1, g2, a2 ::
      (&& g1 in c.groupArtifacts && a1 in c.groupArtifacts[g1]
       && g2 in c.groupArtifacts && a2 in c.groupArtifacts[g2]
       && Key(g1, a1) == Key(g2, a2))
      ==> g1 == g2
  }

  /** One more group leaves the names of keys it does not name as they were. */
  lemma NamesAfterStep(
    c: Collected, properties: map<string, string>, propertyNames: map<string, string>, order: seq<string>, key: string)
    requires WellFormed(c) && GroupsCollected(c, order) && order != []
    requires key in NamesAfter(c, properties, propertyNames, order[..|order| - 1])
    requires key !in GroupNames(c, PropertiesAfter(c, properties, order[..|order| - 1]), order[|order| - 1])
    ensures key in NamesAfter(c, properties, propertyNames, order)
    ensures NamesAfter(c, properties, propertyNames, order)[key]
         == NamesAfter(c, properties, propertyNames, order[..|order| - 1])[key]
  {
  }

  /**
   * When keys are distinct, an artifact's final name is the one its own group
   * gave it, with the properties present when that group was reached.
   */
  lemma {:induction false} NamesAfterLastWriter(
    c: Collected, properties: map<string, string>, propertyNames: map<string, string>, order: seq<string>,
    k: int, a: string)
    requires WellFormed(c) && GroupsCollected(c, order) && KeysDistinct(c)
    requires 0 <= k < |order| && a in c.groupArtifacts[order[k]]
    requires forall j :: k < j < |order| ==> order[j] != order[k]
    ensures Key(order[k], a) in NamesAfter(c, properties, propertyNames, order)
    ensures Key(order[k], a) in GroupNames(c, PropertiesAfter(c, properties, order[..k]), order[k])
    ensures NamesAfter(c, properties, propertyNames, order)[Key(order[k], a)]
         == GroupNames(c, PropertiesAfter(c, properties, order[..k]), order[k])[Key(order[k], a)]
    decreases |order|
  {
    var n := |order| - 1;
    var prefix := order[..n];
    GroupNamesKeys(c, PropertiesAfter(c, properties, order[..k]), order[k]);
    if k < n {
      assert prefix[..k] == order[..k] && prefix[k] == order[k];
      NamesAfterLastWriter(c, properties, propertyNames, prefix, k, a);
      KeyOfOtherGroupNotNamed(c, PropertiesAfter(c, properties, prefix), order[k], order[n], a);
      NamesAfterStep(c, properties, propertyNames, order, Key(order[k], a));
    } else {
      assert prefix == order[..k];
    }
  }

  /** With distinct keys, a group names no artifact of another group. */
  lemma KeyOfOtherGroupNotNamed(c: Collected, properties: map<string, string>, groupId: string, otherGroupId: string, a: string)
    requires WellFormed(c) && KeysDistinct(c)
    requires groupId in c.groupArtifacts && a in c.groupArtifacts[groupId]
    requires otherGroupId in c.groupArtifacts && otherGroupId != groupId
    ensures Key(groupId, a) !in GroupNames(c, properties, otherGroupId)
  {
    GroupNamesKeys(c, properties, otherGroupId);
    forall a' | a' in c.groupArtifacts[otherGroupId]
      ensures Key(otherGroupId, a') != Key(groupId, a)
    {
    }
  }

  /** Interpolation does not change once the name it looks up is present and kept. */
  lemma DigitalVersionStable(before: map<string, string>, after: map<string, string>, version: string)
    requires Resolves(before, version)
    requires forall k :: k in before ==> k in after && after[k] == before[k]
    ensures DigitalVersion(after, version) == DigitalVersion(before, version)
  {
  }

  /** If every recorded version resolves up front, no interpolation in the loop fails. */
  lemma {:induction false} SafeWhenAllResolve(c: Collected, properties: map<string, string>, order: seq<string>)
    requires WellFormed(c) && GroupsCollected(c, order)
    requires forall k :: k in c.versions ==> Resolves(properties, c.versions[k])
    ensures InterpolationSafe(c, properties, order)
    decreases |order|
  {
    if order != [] {
      var prefix := order[..|order| - 1];
      SafeWhenAllResolve(c, properties, prefix);
      PropertiesAfterKeepsExisting(c, properties, prefix, 0);
      assert prefix[..0] == [];
    }
  }

  // ---------------------------------------------------------------------------
  // Rewrite step and the whole transformation

  /**
   * `assignVersionPropertiesToArtifacts` on one dependency. A key without a
   * name would be written as `${null}` by Java's string concatenation.
   */
  function RewriteDependency(d: Dependency, propertyNames: map<string, string>): (r: Dependency)
    ensures r.groupId == d.groupId && r.artifactId == d.artifactId
    ensures r.classifier == d.classifier && r.artifactType == d.artifactType
    ensures IsPlaceholder(d.version) ==> r == d
    ensures !IsPlaceholder(d.version) && DependencyKey(d) in propertyNames ==>
      r.version == Placeholder(propertyNames[DependencyKey(d)])
    ensures IsPlaceholder(r.version)
  {
    if IsPlaceholder(d.version) then d
    else
      var key := DependencyKey(d);
      var propertyName := if key in propertyNames then propertyNames[key] else "null";
      d.(version := PlaceholderPrefix + propertyName + PlaceholderSuffix)
  }

  function RewriteVersions(deps: seq<Dependency>, propertyNames: map<string, string>): seq<Dependency>
  {
    seq(|deps|, i requires 0 <= i < |deps| => RewriteDependency(deps[i], propertyNames))
  }

  /** The clone's properties, the transformer's property-name map, and the clone's dependencies. */
  datatype Transformed = Transformed(
    properties: map<string, string>,
    propertyNames: map<string, string>,
    dependencies: seq<Dependency>)

  /** The `TreeMap` order of the collected groups: every group once, ascending. */
  function ProcessingOrder(deps: seq<Dependency>): (order: seq<string>)
    ensures GroupsCollected(Collect(deps), order)
    ensures StrictlyAscending(order)
    ensures forall g :: g in order <==> g in Collect(deps).groupArtifacts
  {
    AscendingKeys(Collect(deps).groupVersions.Keys)
  }

  /** `transformPomModel` on values: collect, name the groups in order, rewrite. */
  function Transform(deps: seq<Dependency>, properties: map<string, string>, propertyNames: map<string, string>): Transformed
  {
    var c := Collect(deps);
    var order := ProcessingOrder(deps);
    var names := NamesAfter(c, properties, propertyNames, order);
    Transformed(PropertiesAfter(c, properties, order), names, RewriteVersions(deps, names))
  }

  /** Every dependency's key is named, and the name is a property of the result. */
  lemma TransformNamesEveryDependency(deps: seq<Dependency>, properties: map<string, string>, propertyNames: map<string, string>)
    ensures var t := Transform(deps, properties, propertyNames);
      forall i :: 0 <= i < |deps| ==>
        DependencyKey(deps[i]) in t.propertyNames && t.propertyNames[DependencyKey(deps[i])] in t.properties
  {
    var c := Collect(deps);
    var order := ProcessingOrder(deps);
    CollectRecordsEveryDependency(deps);
    NamesAfterResolve(c, properties, propertyNames, order);
    forall i | 0 <= i < |deps|
      ensures DependencyKey(deps[i]) in NamesAfter(c, properties, propertyNames, order)
      ensures NamesAfter(c, properties, propertyNames, order)[DependencyKey(deps[i])] in PropertiesAfter(c, properties, order)
    {
      var idx :| 0 <= idx < |order| && order[idx] == deps[i].groupId;
      assert deps[i].artifactId in c.groupArtifacts[order[idx]];
    }
  }

  /** Existing properties are never overwritten or removed. */
  lemma TransformKeepsExistingProperties(deps: seq<Dependency>, properties: map<string, string>, propertyNames: map<string, string>)
    ensures var t := Transform(deps, properties, propertyNames);
      forall k :: k in properties ==> k in t.properties && t.properties[k] == properties[k]
  {
    var order := ProcessingOrder(deps);
    PropertiesAfterKeepsExisting(Collect(deps), properties, order, 0);
    assert order[..0] == [];
  }

  /**
   * The rewrite keeps count, order and coordinates; it leaves placeholder
   * versions alone and turns every other version into `${name}` where `name`
   * is a property of the result: no placeholder it writes dangles.
   */
  lemma TransformRewritesOnlyLiteralVersions(deps: seq<Dependency>, properties: map<string, string>, propertyNames: map<string, string>)
    ensures |Transform(deps, properties, propertyNames).dependencies| == |deps|
    ensures var out := Transform(deps, properties, propertyNames).dependencies;
      forall i :: 0 <= i < |deps| ==>
        && out[i].groupId == deps[i].groupId && out[i].artifactId == deps[i].artifactId
        && out[i].classifier == deps[i].classifier && out[i].artifactType == deps[i].artifactType
        && (IsPlaceholder(deps[i].version) ==> out[i].version == deps[i].version)
    ensures var t := Transform(deps, properties, propertyNames);
      forall i :: 0 <= i < |deps| && !IsPlaceholder(deps[i].version) ==>
        && DependencyKey(deps[i]) in t.propertyNames
        && t.dependencies[i].version == Placeholder(t.propertyNames[DependencyKey(deps[i])])
        && PlaceholderName(t.dependencies[i].version) in t.properties
  {
    TransformNamesEveryDependency(deps, properties, propertyNames);
  }

  /** On dependencies that are all placeholders already, the rewrite changes nothing. */
  lemma TransformLeavesConsolidatedDependencies(deps: seq<Dependency>, properties: map<string, string>, propertyNames: map<string, string>)
    requires forall i :: 0 <= i < |deps| ==> IsPlaceholder(deps[i].version)
    ensures Transform(deps, properties, propertyNames).dependencies == deps
  {
  }

  /** Distinct coordinates give distinct keys (no groupId or artifactId holds a ':'). */
  predicate NoKeyCollision(deps: seq<Dependency>)
  {
    forall i, j :: 0 <= i < |deps| && 0 <= j < |deps| && DependencyKey(deps[i]) == DependencyKey(deps[j]) ==>
      deps[i].groupId == deps[j].groupId
  }

  lemma CollectKeysDistinct(deps: seq<Dependency>)
    requires NoKeyCollision(deps)
    ensures KeysDistinct(Collect(deps))
  {
    var c := Collect(deps);
    CollectRecordsOnlyDependencies(deps);
    forall g1, a1, g2, a2 |
      && g1 in c.groupArtifacts && a1 in c.groupArtifacts[g1]
      && g2 in c.groupArtifacts && a2 in c.groupArtifacts[g2]
      && Key(g1, a1) == Key(g2, a2)
      ensures g1 == g2
    {
      var i :| 0 <= i < |deps| && deps[i].groupId == g1 && deps[i].artifactId == a1;
      var j :| 0 <= j < |deps| && deps[j].groupId == g2 && deps[j].artifactId == a2;
    }
  }

  /** The dependency's group sits at index `idx` of the processing order, and nowhere later. */
  lemma GroupIndex(deps: seq<Dependency>, i: int) returns (idx: int)
    requires 0 <= i < |deps|
    ensures 0 <= idx < |ProcessingOrder(deps)| && ProcessingOrder(deps)[idx] == deps[i].groupId
    ensures forall j :: idx < j < |ProcessingOrder(deps)| ==> ProcessingOrder(deps)[j] != ProcessingOrder(deps)[idx]
    ensures deps[i].artifactId in Collect(deps).groupArtifacts[deps[i].groupId]
  {
    var order := ProcessingOrder(deps);
    CollectRecordsEveryDependency(deps);
    idx :| 0 <= idx < |order| && order[idx] == deps[i].groupId;
    forall j | idx < j < |order|
      ensures order[j] != order[idx]
    {
      AscendingHasNoDuplicates(order, idx, j);
    }
  }

  /** A dependency's final name is the one its group gave it when the group was reached. */
  lemma TransformNameIsGroupName(
    deps: seq<Dependency>, properties: map<string, string>, propertyNames: map<string, string>, idx: int, j: int)
    requires 0 <= j < |deps| && NoKeyCollision(deps)
    requires 0 <= idx < |ProcessingOrder(deps)| && ProcessingOrder(deps)[idx] == deps[j].groupId
    ensures var names := Transform(deps, properties, propertyNames).propertyNames;
      var before := PropertiesAfter(Collect(deps), properties, ProcessingOrder(deps)[..idx]);
      && DependencyKey(deps[j]) in names
      && deps[j].artifactId in Collect(deps).groupArtifacts[deps[j].groupId]
      && DependencyKey(deps[j]) in GroupNames(Collect(deps), before, deps[j].groupId)
      && names[DependencyKey(deps[j])] == GroupNames(Collect(deps), before, deps[j].groupId)[DependencyKey(deps[j])]
  {
    var order := ProcessingOrder(deps);
    CollectKeysDistinct(deps);
    var other := GroupIndex(deps, j);
    if other != idx {
      AscendingHasNoDuplicates(order, other, idx);
    }
    NamesAfterLastWriter(Collect(deps), properties, propertyNames, order, idx, deps[j].artifactId);
  }

  /**
   * Names are handed out group by group: either every artifact of the group
   * carries `version.<groupId>`, or every artifact carries its own
   * `version.<groupId>.<artifactId>`.
   */
  lemma TransformNameFollowsGroup(deps: seq<Dependency>, properties: map<string, string>, propertyNames: map<string, string>, i: int)
    requires 0 <= i < |deps| && NoKeyCollision(deps)
    ensures var names := Transform(deps, properties, propertyNames).propertyNames;
      forall j :: 0 <= j < |deps| && deps[j].groupId == deps[i].groupId ==> DependencyKey(deps[j]) in names
    ensures var names := Transform(deps, properties, propertyNames).propertyNames;
      || (forall j :: 0 <= j < |deps| && deps[j].groupId == deps[i].groupId ==>
            names[DependencyKey(deps[j])] == BuildPropertyName(deps[i].groupId))
      || (forall j :: 0 <= j < |deps| && deps[j].groupId == deps[i].groupId ==>
            names[DependencyKey(deps[j])] == BuildPropertyNameForGroupAndArtifact(deps[i].groupId, deps[j].artifactId))
  {
    var c := Collect(deps);
    var order := ProcessingOrder(deps);
    var names := Transform(deps, properties, propertyNames).propertyNames;
    var groupId := deps[i].groupId;
    var idx := GroupIndex(deps, i);
    var before := PropertiesAfter(c, properties, order[..idx]);
    if GroupShares(c, before, groupId) {
      GroupSharedProperty(c, before, groupId);
      forall j | 0 <= j < |deps| && deps[j].groupId == groupId
        ensures DependencyKey(deps[j]) in names && names[DependencyKey(deps[j])] == BuildPropertyName(groupId)
      {
        TransformNameIsGroupName(deps, properties, propertyNames, idx, j);
      }
    } else {
      GroupPerArtifactProperties(c, before, groupId);
      forall j | 0 <= j < |deps| && deps[j].groupId == groupId
        ensures DependencyKey(deps[j]) in names
        ensures names[DependencyKey(deps[j])] == BuildPropertyNameForGroupAndArtifact(groupId, deps[j].artifactId)
      {
        TransformNameIsGroupName(deps, properties, propertyNames, idx, j);
      }
    }
  }

  /**
   * Two artifacts of one group that end up with the same property name have
   * versions that interpolate to the same value in the result's properties:
   * no property is shared by artifacts whose versions differ.
   */
  lemma TransformSharesOnlyEqualVersions(
    deps: seq<Dependency>, properties: map<string, string>, propertyNames: map<string, string>, i: int, j: int)
    requires 0 <= i < |deps| && 0 <= j < |deps| && deps[i].groupId == deps[j].groupId
    requires NoKeyCollision(deps)
    requires InterpolationSafe(Collect(deps), properties, ProcessingOrder(deps))
    ensures var t := Transform(deps, properties, propertyNames);
      && DependencyKey(deps[i]) in t.propertyNames && DependencyKey(deps[j]) in t.propertyNames
      && DependencyKey(deps[i]) in Collect(deps).versions && DependencyKey(deps[j]) in Collect(deps).versions
    ensures var t := Transform(deps, properties, propertyNames);
      t.propertyNames[DependencyKey(deps[i])] == t.propertyNames[DependencyKey(deps[j])] ==>
        DigitalVersion(t.properties, Collect(deps).versions[DependencyKey(deps[i])])
          == DigitalVersion(t.properties, Collect(deps).versions[DependencyKey(deps[j])])
  {
    var c := Collect(deps);
    var order := ProcessingOrder(deps);
    var groupId := deps[i].groupId;
    var ai, aj := deps[i].artifactId, deps[j].artifactId;
    CollectKeysDistinct(deps);
    var idx := GroupIndex(deps, i);
    var _ := GroupIndex(deps, j);
    var before := PropertiesAfter(c, properties, order[..idx]);
    var after := PropertiesAfter(c, properties, order);
    var names := NamesAfter(c, properties, propertyNames, order);
    NamesAfterLastWriter(c, properties, propertyNames, order, idx, ai);
    NamesAfterLastWriter(c, properties, propertyNames, order, idx, aj);
    if names[Key(groupId, ai)] == names[Key(groupId, aj)] && ai != aj {
      GroupSharesOnlyEqualVersions(c, before, groupId, ai, aj);
      InterpolationSafeAt(c, properties, order, idx);
      if |c.groupArtifacts[groupId]| == 1 {
        TwoMembers(c.groupArtifacts[groupId], ai, aj);
      }
      PropertiesAfterKeepsExisting(c, properties, order, idx);
      DigitalVersionStable(before, after, c.versions[Key(groupId, ai)]);
      DigitalVersionStable(before, after, c.versions[Key(groupId, aj)]);
    }
  }

  /** With distinct keys and each group once, a property the loop adds is the final name of a collected artifact. */
  lemma NewPropertyIsFinalName(
    c: Collected, properties: map<string, string>, propertyNames: map<string, string>, order: seq<string>, k: string)
    returns (groupId: string, a: string)
    requires WellFormed(c) && GroupsCollected(c, order) && KeysDistinct(c) && StrictlyAscending(order)
    requires k in PropertiesAfter(c, properties, order) && k !in properties
    ensures groupId in c.groupArtifacts && a in c.groupArtifacts[groupId]
    ensures Key(groupId, a) in NamesAfter(c, properties, propertyNames, order)
    ensures NamesAfter(c, properties, propertyNames, order)[Key(groupId, a)] == k
  {
    PropertiesAfterNewKey(c, properties, order, k);
    var idx, a' :| 0 <= idx < |order| && NamedAt(c, properties, order, idx, a', k);
    groupId, a := order[idx], a';
    forall j | idx < j < |order|
      ensures order[j] != order[idx]
    {
      AscendingHasNoDuplicates(order, idx, j);
    }
    NamesAfterLastWriter(c, properties, propertyNames, order, idx, a);
  }

  /** A property the loop adds is the final name of some dependency. */
  lemma NewPropertyIsAssignedName(
    deps: seq<Dependency>, properties: map<string, string>, propertyNames: map<string, string>, k: string)
    requires NoKeyCollision(deps)
    requires k in PropertiesAfter(Collect(deps), properties, ProcessingOrder(deps)) && k !in properties
    ensures exists i :: && 0 <= i < |deps|
                        && DependencyKey(deps[i]) in NamesAfter(Collect(deps), properties, propertyNames, ProcessingOrder(deps))
                        && NamesAfter(Collect(deps), properties, propertyNames, ProcessingOrder(deps))[DependencyKey(deps[i])] == k
  {
    CollectKeysDistinct(deps);
    var groupId, a := NewPropertyIsFinalName(Collect(deps), properties, propertyNames, ProcessingOrder(deps), k);
    CollectRecordsOnlyDependencies(deps);
    var i :| 0 <= i < |deps| && deps[i].groupId == groupId && deps[i].artifactId == a;
    assert DependencyKey(deps[i]) == Key(groupId, a);
  }

  /**
   * The transformation adds no stray property: every property it adds is the
   * name some dependency was given.
   */
  lemma TransformAddsOnlyAssignedNames(deps: seq<Dependency>, properties: map<string, string>, propertyNames: map<string, string>)
    requires NoKeyCollision(deps)
    ensures var t := Transform(deps, properties, propertyNames);
      forall k :: k in t.properties && k !in properties ==>
        exists i :: && 0 <= i < |deps| && DependencyKey(deps[i]) in t.propertyNames
                    && t.propertyNames[DependencyKey(deps[i])] == k
  {
    forall k | k in Transform(deps, properties, propertyNames).properties && k !in properties
      ensures exists i :: && 0 <= i < |deps|
                          && DependencyKey(deps[i]) in Transform(deps, properties, propertyNames).propertyNames
                          && Transform(deps, properties, propertyNames).propertyNames[DependencyKey(deps[i])] == k
    {
      NewPropertyIsAssignedName(deps, properties, propertyNames, k);
    }
  }

  /** No two dependencies carry the same `groupId:artifactId` key. */
  predicate KeysOccurOnce(deps: seq<Dependency>)
  {
    forall i, j :: 0 <= i < |deps| && 0 <= j < |deps| && DependencyKey(deps[i]) == DependencyKey(deps[j]) ==> i == j
  }

  /**
   * When every key occurs once, two dependencies of one group that end up
   * with the same name have versions that interpolate alike.
   */
  lemma TransformSharesOnlyEqualDependencyVersions(
    deps: seq<Dependency>, properties: map<string, string>, propertyNames: map<string, string>, i: int, j: int)
    requires 0 <= i < |deps| && 0 <= j < |deps| && deps[i].groupId == deps[j].groupId
    requires KeysOccurOnce(deps)
    requires InterpolationSafe(Collect(deps), properties, ProcessingOrder(deps))
    ensures var t := Transform(deps, properties, propertyNames);
      && DependencyKey(deps[i]) in t.propertyNames && DependencyKey(deps[j]) in t.propertyNames
      && (t.propertyNames[DependencyKey(deps[i])] == t.propertyNames[DependencyKey(deps[j])] ==>
            DigitalVersion(t.properties, deps[i].version) == DigitalVersion(t.properties, deps[j].version))
  {
    assert NoKeyCollision(deps);
    CollectKeepsLastVersion(deps, i);
    CollectKeepsLastVersion(deps, j);
    TransformSharesOnlyEqualVersions(deps, properties, propertyNames, i, j);
  }

  /**
   * A group's new property for artifact `a` holds a value that interpolates
   * to `a`'s literal version, given that the group's first version is the
   * version of its artifact `first`.
   */
  lemma GroupNewPropertyValue(c: Collected, before: map<string, string>, groupId: string, a: string, first: string)
    requires WellFormed(c) && groupId in c.groupArtifacts
    requires a in c.groupArtifacts[groupId] && first in c.groupArtifacts[groupId]
    requires !IsPlaceholder(c.versions[Key(groupId, a)])
    requires c.groupVersions[groupId] == c.versions[Key(groupId, first)]
    requires |c.groupArtifacts[groupId]| == 1 || GroupResolves(before, c.versions, groupId, c.groupArtifacts[groupId])
    ensures Key(groupId, a) in GroupNames(c, before, groupId)
    ensures GroupNames(c, before, groupId)[Key(groupId, a)] in GroupProperties(c, before, groupId)
    ensures var name := GroupNames(c, before, groupId)[Key(groupId, a)];
      name !in before ==>
        DigitalVersion(before, GroupProperties(c, before, groupId)[name]) == Some(c.versions[Key(groupId, a)])
  {
    GroupNamesKeys(c, before, groupId);
    GroupNamesResolve(c, before, groupId);
    if GroupShares(c, before, groupId) {
      GroupSharedProperty(c, before, groupId);
      if first != a {
        TwoMembers(c.groupArtifacts[groupId], first, a);
      }
    } else {
      GroupPerArtifactProperties(c, before, groupId);
    }
  }

  /** A property present after the group at `idx` keeps its value to the end, and so does what it interpolates to. */
  lemma PropertiesAfterCarriesValue(c: Collected, properties: map<string, string>, order: seq<string>, idx: int, name: string)
    requires WellFormed(c) && GroupsCollected(c, order) && 0 <= idx < |order|
    requires name in GroupProperties(c, PropertiesAfter(c, properties, order[..idx]), order[idx])
    requires Resolves(PropertiesAfter(c, properties, order[..idx]),
                      GroupProperties(c, PropertiesAfter(c, properties, order[..idx]), order[idx])[name])
    ensures name in PropertiesAfter(c, properties, order)
    ensures var value := GroupProperties(c, PropertiesAfter(c, properties, order[..idx]), order[idx])[name];
      && PropertiesAfter(c, properties, order)[name] == value
      && DigitalVersion(PropertiesAfter(c, properties, order), value)
         == DigitalVersion(PropertiesAfter(c, properties, order[..idx]), value)
  {
    var before := PropertiesAfter(c, properties, order[..idx]);
    assert order[..idx + 1][..idx] == order[..idx];
    assert PropertiesAfter(c, properties, order[..idx + 1]) == GroupProperties(c, before, order[idx]);
    PropertiesAfterKeepsExisting(c, properties, order, idx + 1);
    PropertiesAfterKeepsExisting(c, properties, order, idx);
    DigitalVersionStable(before, PropertiesAfter(c, properties, order),
                         GroupProperties(c, before, order[idx])[name]);
  }

  /**
   * When every key occurs once, a literal version is rewritten to a property
   * that, if its group created it, holds a value interpolating to that very
   * version (the group's first version, or a placeholder for it).
   */
  lemma TransformPropertyHoldsDependencyVersion(
    deps: seq<Dependency>, properties: map<string, string>, propertyNames: map<string, string>, i: int, idx: int)
    requires 0 <= i < |deps| && KeysOccurOnce(deps) && !IsPlaceholder(deps[i].version)
    requires InterpolationSafe(Collect(deps), properties, ProcessingOrder(deps))
    requires 0 <= idx < |ProcessingOrder(deps)| && ProcessingOrder(deps)[idx] == deps[i].groupId
    ensures var t := Transform(deps, properties, propertyNames);
      && DependencyKey(deps[i]) in t.propertyNames
      && t.propertyNames[DependencyKey(deps[i])] in t.properties
    ensures var t := Transform(deps, properties, propertyNames);
      var name := t.propertyNames[DependencyKey(deps[i])];
      name !in PropertiesAfter(Collect(deps), properties, ProcessingOrder(deps)[..idx]) ==>
        DigitalVersion(t.properties, t.properties[name]) == Some(deps[i].version)
  {
    var c := Collect(deps);
    var order := ProcessingOrder(deps);
    var g, a := deps[i].groupId, deps[i].artifactId;
    var before := PropertiesAfter(c, properties, order[..idx]);
    assert NoKeyCollision(deps);
    TransformNameIsGroupName(deps, properties, propertyNames, idx, i);
    TransformNamesEveryDependency(deps, properties, propertyNames);
    CollectKeepsLastVersion(deps, i);
    CollectGroupVersionsFromDependencies(deps);
    CollectRecordsEveryDependency(deps);
    var f :| 0 <= f < |deps| && deps[f].groupId == g && c.groupVersions[g] == deps[f].version;
    CollectKeepsLastVersion(deps, f);
    InterpolationSafeAt(c, properties, order, idx);
    GroupNewPropertyValue(c, before, g, a, deps[f].artifactId);
    var name := GroupNames(c, before, g)[Key(g, a)];
    if name !in before {
      PropertiesAfterCarriesValue(c, properties, order, idx, name);
    }
  }

  /**
   * A key that occurs twice: `g:a` as a test jar at `v1` and plain at `v2`,
   * next to `g:b` at `v2`.
   */
  function RepeatedKeyDependencies(g: string, a: string, b: string, v1: string, v2: string): seq<Dependency>
  {
    [ Dependency(g, a, v1, Some("tests"), None),
      Dependency(g, a, v2, None, None),
      Dependency(g, b, v2, None, None) ]
  }

  /** `g:a` is recorded with its last version, while `g` keeps its first. */
  lemma RepeatedKeyCollected(g: string, a: string, b: string, v1: string, v2: string)
    requires a != b
    ensures var c := Collect(RepeatedKeyDependencies(g, a, b, v1, v2));
      && c.groupArtifacts.Keys == {g} && c.groupArtifacts[g] == {a, b}
      && c.groupVersions[g] == v1
      && c.versions[Key(g, a)] == v2 && c.versions[Key(g, b)] == v2
  {
    var deps := RepeatedKeyDependencies(g, a, b, v1, v2);
    var c := Collect(deps);
    assert forall i :: 0 <= i < |deps| ==> deps[i].groupId == g && (deps[i].artifactId == a || deps[i].artifactId == b);
    assert c.groupArtifacts.Keys == {g} && c.groupArtifacts[g] == {a, b} by {
      CollectRecordsEveryDependency(deps);
      CollectRecordsOnlyDependencies(deps);
      assert deps[0].artifactId == a && deps[2].artifactId == b;
      forall x | x in c.groupArtifacts[g]
        ensures x == a || x == b
      {
        var i :| 0 <= i < |deps| && deps[i].groupId == g && deps[i].artifactId == x;
      }
      forall h | h in c.groupArtifacts
        ensures h == g
      {
        var x :| x in c.groupArtifacts[h];
        var i :| 0 <= i < |deps| && deps[i].groupId == h && deps[i].artifactId == x;
      }
    }
    assert c.groupVersions[g] == v1 by {
      CollectKeepsFirstGroupVersion(deps, 0);
    }
    assert Key(g, a) != Key(g, b) by {
      if Key(g, a) == Key(g, b) {
        KeyInjective(g, a, b);
      }
    }
    assert c.versions[Key(g, a)] == v2 by {
      CollectKeepsLastVersion(deps, 1);
    }
    assert c.versions[Key(g, b)] == v2 by {
      CollectKeepsLastVersion(deps, 2);
    }
  }

  /** The only group is `g`. */
  lemma RepeatedKeyOrder(g: string, a: string, b: string, v1: string, v2: string)
    requires a != b
    ensures ProcessingOrder(RepeatedKeyDependencies(g, a, b, v1, v2)) == [g]
  {
    RepeatedKeyCollected(g, a, b, v1, v2);
    var order := ProcessingOrder(RepeatedKeyDependencies(g, a, b, v1, v2));
    assert g in order;
    forall k | 0 <= k < |order|
      ensures order[k] == g
    {
      assert order[k] in Collect(RepeatedKeyDependencies(g, a, b, v1, v2)).groupArtifacts;
    }
    if |order| > 1 {
      AscendingHasNoDuplicates(order, 0, 1);
    }
  }

  /** `g` looks uniform, so it shares `version.<g>`, written with the group's first version. */
  lemma RepeatedKeySharesGroupName(g: string, a: string, b: string, v1: string, v2: string)
    requires a != b && !IsPlaceholder(v2)
    ensures var c := Collect(RepeatedKeyDependencies(g, a, b, v1, v2));
      && GroupShares(c, map[], g)
      && GroupProperties(c, map[], g) == map[BuildPropertyName(g) := v1]
      && Key(g, a) in GroupNames(c, map[], g) && GroupNames(c, map[], g)[Key(g, a)] == BuildPropertyName(g)
      && Key(g, b) in GroupNames(c, map[], g) && GroupNames(c, map[], g)[Key(g, b)] == BuildPropertyName(g)
  {
    RepeatedKeyCollected(g, a, b, v1, v2);
    var c := Collect(RepeatedKeyDependencies(g, a, b, v1, v2));
    assert SameVersion(map[], c.versions, g, c.groupArtifacts[g]);
    GroupSharedProperty(c, map[], g);
  }

  /** After the loop, both keys of `g` are named `version.<g>`, which holds `v1`. */
  lemma RepeatedKeyNamesAfter(g: string, a: string, b: string, v1: string, v2: string)
    requires a != b && !IsPlaceholder(v2)
    ensures var deps := RepeatedKeyDependencies(g, a, b, v1, v2);
      var names := NamesAfter(Collect(deps), map[], map[], ProcessingOrder(deps));
      && PropertiesAfter(Collect(deps), map[], ProcessingOrder(deps)) == map[BuildPropertyName(g) := v1]
      && Key(g, a) in names && names[Key(g, a)] == BuildPropertyName(g)
      && Key(g, b) in names && names[Key(g, b)] == BuildPropertyName(g)
  {
    var deps := RepeatedKeyDependencies(g, a, b, v1, v2);
    var c := Collect(deps);
    var order := ProcessingOrder(deps);
    assert |order| == 1 && order[0] == g && order[..0] == [] by {
      RepeatedKeyOrder(g, a, b, v1, v2);
    }
    assert PropertiesAfter(c, map[], order[..0]) == map[];
    assert PropertiesAfter(c, map[], order) == GroupProperties(c, map[], g);
    assert NamesAfter(c, map[], map[], order) == map[] + GroupNames(c, map[], g);
    RepeatedKeySharesGroupName(g, a, b, v1, v2);
  }

  /**
   * With the key `g:a` repeated, `g` looks uniform (both recorded versions
   * are `v2`) and shares `version.<g>`, whose value is the group's first
   * version `v1`: the dependency `g:b:v2` is rewritten to a property holding
   * `v1`.
   */
  lemma RepeatedKeyMovesVersion(g: string, a: string, b: string, v1: string, v2: string)
    requires a != b && !IsPlaceholder(v1) && !IsPlaceholder(v2)
    ensures var t := Transform(RepeatedKeyDependencies(g, a, b, v1, v2), map[], map[]);
      && t.properties == map[BuildPropertyName(g) := v1]
      && |t.dependencies| == 3
      && (forall i :: 0 <= i < 3 ==> t.dependencies[i].version == Placeholder(BuildPropertyName(g)))
  {
    var deps := RepeatedKeyDependencies(g, a, b, v1, v2);
    RepeatedKeyNamesAfter(g, a, b, v1, v2);
    var names := NamesAfter(Collect(deps), map[], map[], ProcessingOrder(deps));
    var t := Transform(deps, map[], map[]);
    assert t.propertyNames == names && t.dependencies == RewriteVersions(deps, names);
    forall i | 0 <= i < 3
      ensures t.dependencies[i].version == Placeholder(BuildPropertyName(g))
    {
      assert t.dependencies[i] == RewriteDependency(deps[i], names);
      RepeatedKeyRewritten(g, a, b, v1, v2, names, i);
    }
  }

  /** Each of the three literal versions is rewritten to `${version.<g>}`. */
  lemma RepeatedKeyRewritten(
    g: string, a: string, b: string, v1: string, v2: string, names: map<string, string>, i: int)
    requires !IsPlaceholder(v1) && !IsPlaceholder(v2) && 0 <= i < 3
    requires Key(g, a) in names && names[Key(g, a)] == BuildPropertyName(g)
    requires Key(g, b) in names && names[Key(g, b)] == BuildPropertyName(g)
    ensures RewriteDependency(RepeatedKeyDependencies(g, a, b, v1, v2)[i], names).version == Placeholder(BuildPropertyName(g))
  {
    var d := RepeatedKeyDependencies(g, a, b, v1, v2)[i];
    if i == 2 {
      assert d == Dependency(g, b, v2, None, None);
    } else if i == 1 {
      assert d == Dependency(g, a, v2, None, None);
    } else {
      assert d == Dependency(g, a, v1, Some("tests"), None);
    }
  }

  /** Every dependency version resolving up front is enough to keep the loop free of null. */
  lemma ResolvableUpFrontIsSafe(deps: seq<Dependency>, properties: map<string, string>)
    requires forall i :: 0 <= i < |deps| ==> Resolves(properties, deps[i].version)
    ensures InterpolationSafe(Collect(deps), properties, ProcessingOrder(deps))
  {
    CollectVersionsFromDependencies(deps);
    SafeWhenAllResolve(Collect(deps), properties, ProcessingOrder(deps));
  }
}
