/**
 * `PomDependencyVersionsTransformer` as a class: the property-name map it
 * keeps between calls and the clone it works on are its fields, and each of
 * its steps is proved to compute what module Consolidation specifies.
 */
module DependencyVersionsTransformer {
  import opened Wrappers
  import opened Pom
  import opened VersionPropertyNames
  import opened StringOrder
  import opened Consolidation

  class PomDependencyVersionsTransformer {
    /** `groupId:artifactId` to property name; it is not cleared between calls. */
    var groupIdArtifactIdPropertyNames: map<string, string>
    /** The clone the last call works on. */
    var pomModel: Model?

    constructor ()
      ensures groupIdArtifactIdPropertyNames == map[] && pomModel == null
    {
      groupIdArtifactIdPropertyNames := map[];
      pomModel := null;
    }

    /**
     * `transformPomModel`: clone the model, consolidate the versions of its
     * managed dependencies into properties, and return the clone. The input
     * model is not changed. The source dereferences the dependency-management
     * section without a check, and interpolation must not throw or yield null.
     */
    method TransformPomModel(model: Model) returns (result: Model)
      requires model.dependencyManagement.Some?
      requires InterpolationSafe(
        Collect(model.dependencyManagement.value), model.properties, ProcessingOrder(model.dependencyManagement.value))
      modifies this
      ensures fresh(result) && pomModel == result
      ensures unchanged(model)
      ensures result.groupId == model.groupId && result.artifactId == model.artifactId && result.version == model.version
      ensures result.name == model.name && result.description == model.description
      ensures var t := Transform(model.dependencyManagement.value, model.properties, old(groupIdArtifactIdPropertyNames));
        && result.properties == t.properties
        && groupIdArtifactIdPropertyNames == t.propertyNames
        && result.dependencyManagement == Some(t.dependencies)
    {
      pomModel := model.Clone();
      var deps := pomModel.dependencyManagement.value;
      var versions, groupVersions, groupIdArtifactIds := CollectVersionsAndMappings(deps);
      BuildVersionProperties(versions, groupVersions, groupIdArtifactIds);
      AssignVersionPropertiesToArtifacts();
      result := pomModel;
    }

    /**
     * `assignVersionPropertiesToArtifacts`: every dependency whose version is
     * not already a placeholder gets `${name}`, `name` looked up by its key.
     */
    method AssignVersionPropertiesToArtifacts()
      requires pomModel != null && pomModel.dependencyManagement.Some?
      modifies pomModel`dependencyManagement
      ensures pomModel.dependencyManagement
           == Some(RewriteVersions(old(pomModel.dependencyManagement.value), groupIdArtifactIdPropertyNames))
    {
      var deps := pomModel.dependencyManagement.value;
      for i := 0 to |deps|
        invariant pomModel.dependencyManagement.Some? && |pomModel.dependencyManagement.value| == |deps|
        invariant forall j :: 0 <= j < i ==>
          pomModel.dependencyManagement.value[j] == RewriteDependency(deps[j], groupIdArtifactIdPropertyNames)
        invariant forall j :: i <= j < |deps| ==> pomModel.dependencyManagement.value[j] == deps[j]
      {
        var dependency := deps[i];
        if !IsPlaceholder(dependency.version) {
          var groupIdArtifactId := Key(dependency.groupId, dependency.artifactId);
          var propertyName :=
            if groupIdArtifactId in groupIdArtifactIdPropertyNames then groupIdArtifactIdPropertyNames[groupIdArtifactId]
            else "null";
          var updated := dependency.(version := PlaceholderPrefix + propertyName + PlaceholderSuffix);
          pomModel.dependencyManagement := Some(pomModel.dependencyManagement.value[i := updated]);
        }
      }
      assert pomModel.dependencyManagement.value == RewriteVersions(deps, groupIdArtifactIdPropertyNames);
    }

    /**
     * `buildVersionProperties`: name the groups in ascending groupId order
     * (the `TreeMap`'s order), each seeing the properties its predecessors wrote.
     */
    method BuildVersionProperties(
      versions: map<string, string>, groupVersions: map<string, string>, groupIdArtifactIds: map<string, set<string>>)
      requires pomModel != null
      requires WellFormed(Collected(versions, groupVersions, groupIdArtifactIds))
      requires InterpolationSafe(
        Collected(versions, groupVersions, groupIdArtifactIds), pomModel.properties, AscendingKeys(groupVersions.Keys))
      modifies this`groupIdArtifactIdPropertyNames, pomModel`properties
      ensures pomModel.properties
           == PropertiesAfter(Collected(versions, groupVersions, groupIdArtifactIds),
                              old(pomModel.properties), AscendingKeys(groupVersions.Keys))
      ensures groupIdArtifactIdPropertyNames
           == NamesAfter(Collected(versions, groupVersions, groupIdArtifactIds),
                         old(pomModel.properties), old(groupIdArtifactIdPropertyNames), AscendingKeys(groupVersions.Keys))
    {
      ghost var c := Collected(versions, groupVersions, groupIdArtifactIds);
      ghost var initial, initialNames := pomModel.properties, groupIdArtifactIdPropertyNames;
      var order := AscendingKeys(groupVersions.Keys);
      for i := 0 to |order|
        invariant pomModel.properties == PropertiesAfter(c, initial, order[..i])
        invariant groupIdArtifactIdPropertyNames == NamesAfter(c, initial, initialNames, order[..i])
      {
        var groupId := order[i];
        InterpolationSafeAt(c, initial, order, i);
        BuildVersionPropertiesForGroupId(versions, groupIdArtifactIds, groupId, groupVersions[groupId], c);
        FoldStep(c, initial, initialNames, order, i);
      }
      assert order[..|order|] == order;
    }

    /**
     * `buildVersionPropertiesForGroupId`: a group with one artifact, or whose
     * artifacts all interpolate alike, shares `version.<groupId>` (written with
     * the group's first version unless present); otherwise each artifact gets
     * `version.<groupId>.<artifactId>` (written with its own version unless
     * present). Existing properties are never replaced.
     */
    method BuildVersionPropertiesForGroupId(
      versions: map<string, string>, groupIdArtifactIds: map<string, set<string>>, groupId: string, groupVersion: string,
      ghost c: Collected)
      requires pomModel != null
      requires WellFormed(c) && c.versions == versions && c.groupArtifacts == groupIdArtifactIds
      requires groupId in c.groupVersions && c.groupVersions[groupId] == groupVersion
      requires |groupIdArtifactIds[groupId]| == 1
            || GroupResolves(pomModel.properties, versions, groupId, groupIdArtifactIds[groupId])
      modifies this`groupIdArtifactIdPropertyNames, pomModel`properties
      ensures pomModel.properties == GroupProperties(c, old(pomModel.properties), groupId)
      ensures groupIdArtifactIdPropertyNames
           == old(groupIdArtifactIdPropertyNames) + GroupNames(c, old(pomModel.properties), groupId)
    {
      var artifactIds := groupIdArtifactIds[groupId];
      var shared := |artifactIds| == 1;
      if !shared {
        shared := AllArtifactsInGroupHaveSameVersion(groupId, versions, artifactIds);
      }
      if shared {
        var propertyName := BuildPropertyName(groupId);
        if propertyName !in pomModel.properties {
          pomModel.properties := pomModel.properties[propertyName := groupVersion];
        }
        NameArtifactsAfterGroup(groupId, artifactIds, propertyName);
      } else {
        NameArtifactsSeparately(versions, groupId, artifactIds);
      }
    }

    /** The first loop of `buildVersionPropertiesForGroupId`: every artifact gets the group's name. */
    method NameArtifactsAfterGroup(groupId: string, artifactIds: set<string>, propertyName: string)
      requires propertyName == BuildPropertyName(groupId)
      modifies this`groupIdArtifactIdPropertyNames
      ensures groupIdArtifactIdPropertyNames == old(groupIdArtifactIdPropertyNames) + SharedNames(groupId, artifactIds)
    {
      var propertyNames := groupIdArtifactIdPropertyNames;
      var remaining := artifactIds;
      ghost var done: set<string> := {};
      while remaining != {}
        invariant done + remaining == artifactIds && done !! remaining
        invariant propertyNames == old(groupIdArtifactIdPropertyNames) + SharedNames(groupId, done)
        decreases |remaining|
      {
        var artifactId :| artifactId in remaining;
        SharedNamesStep(groupId, done, artifactId);
        MergeUpdate(old(groupIdArtifactIdPropertyNames), SharedNames(groupId, done), Key(groupId, artifactId), propertyName);
        propertyNames := propertyNames[Key(groupId, artifactId) := propertyName];
        MoveToDone(artifactIds, done, remaining, artifactId);
        remaining, done := remaining - {artifactId}, done + {artifactId};
      }
      assert done == artifactIds;
      groupIdArtifactIdPropertyNames := propertyNames;
    }

    /**
     * The second loop of `buildVersionPropertiesForGroupId`: every artifact
     * gets its own name, written with the artifact's version unless present.
     */
    method NameArtifactsSeparately(versions: map<string, string>, groupId: string, artifactIds: set<string>)
      requires pomModel != null
      requires forall a :: a in artifactIds ==> Key(groupId, a) in versions
      modifies this`groupIdArtifactIdPropertyNames, pomModel`properties
      ensures pomModel.properties == PerArtifactProperties(old(pomModel.properties), versions, groupId, artifactIds)
      ensures groupIdArtifactIdPropertyNames == old(groupIdArtifactIdPropertyNames) + PerArtifactNames(groupId, artifactIds)
    {
      var properties := pomModel.properties;
      var propertyNames := groupIdArtifactIdPropertyNames;
      var remaining := artifactIds;
      ghost var done: set<string> := {};
      while remaining != {}
        invariant done + remaining == artifactIds && done !! remaining
        invariant properties == PerArtifactProperties(old(pomModel.properties), versions, groupId, done)
        invariant propertyNames == old(groupIdArtifactIdPropertyNames) + PerArtifactNames(groupId, done)
        decreases |remaining|
      {
        var artifactId :| artifactId in remaining;
        var groupIdArtifactId := Key(groupId, artifactId);
        var propertyName := BuildPropertyNameForGroupAndArtifact(groupId, artifactId);
        PerArtifactNamesStep(groupId, done, artifactId);
        MergeUpdate(old(groupIdArtifactIdPropertyNames), PerArtifactNames(groupId, done), groupIdArtifactId, propertyName);
        PerArtifactPropertiesStep(old(pomModel.properties), versions, groupId, done, artifactId);
        propertyNames := propertyNames[groupIdArtifactId := propertyName];
        if propertyName !in properties {
          properties := properties[propertyName := versions[groupIdArtifactId]];
        }
        MoveToDone(artifactIds, done, remaining, artifactId);
        remaining, done := remaining - {artifactId}, done + {artifactId};
      }
      assert done == artifactIds;
      pomModel.properties := properties;
      groupIdArtifactIdPropertyNames := propertyNames;
    }

    /**
     * `collectVersionsAndMappings`: one pass over the dependencies filling the
     * version of each key (last wins), the first version of each group, and
     * the artifactIds of each group.
     */
    method CollectVersionsAndMappings(deps: seq<Dependency>)
      returns (versions: map<string, string>, groupVersions: map<string, string>, groupIdArtifactIds: map<string, set<string>>)
      ensures Collected(versions, groupVersions, groupIdArtifactIds) == Collect(deps)
    {
      versions, groupVersions, groupIdArtifactIds := map[], map[], map[];
      for i := 0 to |deps|
        invariant Collected(versions, groupVersions, groupIdArtifactIds) == Collect(deps[..i])
      {
        var dependency := deps[i];
        var groupId := dependency.groupId;
        var artifactId := dependency.artifactId;
        versions := versions[Key(groupId, artifactId) := dependency.version];
        if groupId !in groupVersions {
          groupVersions := groupVersions[groupId := dependency.version];
        }
        var artifactIds := if groupId in groupIdArtifactIds then groupIdArtifactIds[groupId] else {};
        groupIdArtifactIds := groupIdArtifactIds[groupId := artifactIds + {artifactId}];
        assert deps[..i + 1][..i] == deps[..i];
      }
      assert deps[..|deps|] == deps;
    }

    /**
     * `allArtifactsInGroupHaveSameVersion`: compares every version with the
     * first one the set yields and stops at the first that differs. With every
     * version resolving, that is the case exactly when all of them interpolate
     * to one value, whatever order the set yields.
     */
    method AllArtifactsInGroupHaveSameVersion(groupId: string, versions: map<string, string>, artifactIds: set<string>)
      returns (same: bool)
      requires pomModel != null
      requires forall a :: a in artifactIds ==> Key(groupId, a) in versions
      requires GroupResolves(pomModel.properties, versions, groupId, artifactIds)
      ensures same <==> SameVersion(pomModel.properties, versions, groupId, artifactIds)
    {
      var version: Option<string> := None;
      ghost var first: string := "";
      var remaining := artifactIds;
      while remaining != {}
        invariant remaining <= artifactIds
        invariant version.None? ==> remaining == artifactIds
        invariant version.Some? ==> first in artifactIds && version.value == versions[Key(groupId, first)]
        invariant version.Some? ==> forall a :: a in artifactIds - remaining ==>
          DigitalVersion(pomModel.properties, versions[Key(groupId, a)])
            == DigitalVersion(pomModel.properties, version.value)
        decreases |remaining|
      {
        var artifactId :| artifactId in remaining;
        var groupIdArtifactId := Key(groupId, artifactId);
        if version.None? {
          version := Some(versions[groupIdArtifactId]);
          first := artifactId;
        } else if !AreVersionsIdentical(pomModel.properties, version.value, versions[groupIdArtifactId]) {
          return false;
        }
        remaining := remaining - {artifactId};
      }
      return true;
    }
  }

  /** One group more along the loop: the folds take one step. */
  lemma FoldStep(c: Collected, properties: map<string, string>, propertyNames: map<string, string>, order: seq<string>, i: int)
    requires WellFormed(c) && GroupsCollected(c, order) && 0 <= i < |order|
    ensures PropertiesAfter(c, properties, order[..i + 1])
         == GroupProperties(c, PropertiesAfter(c, properties, order[..i]), order[i])
    ensures NamesAfter(c, properties, propertyNames, order[..i + 1])
         == NamesAfter(c, properties, propertyNames, order[..i])
            + GroupNames(c, PropertiesAfter(c, properties, order[..i]), order[i])
  {
    assert order[..i + 1][..i] == order[..i];
  }

  /** Moving one element from the unvisited part to the visited part keeps the split. */
  lemma MoveToDone(all: set<string>, done: set<string>, remaining: set<string>, x: string)
    requires done + remaining == all && done !! remaining && x in remaining
    ensures (done + {x}) + (remaining - {x}) == all && (done + {x}) !! (remaining - {x})
  {
  }

  /** Updating after a merge is updating the right-hand map. */
  lemma MergeUpdate(base: map<string, string>, added: map<string, string>, key: string, value: string)
    ensures (base + added)[key := value] == base + added[key := value]
  {
  }

  /** One more artifact of a sharing group is named. */
  lemma SharedNamesStep(groupId: string, done: set<string>, artifactId: string)
    ensures SharedNames(groupId, done + {artifactId})
         == SharedNames(groupId, done)[Key(groupId, artifactId) := BuildPropertyName(groupId)]
  {
  }

  /** One more artifact of a diverging group is named. */
  lemma PerArtifactNamesStep(groupId: string, done: set<string>, artifactId: string)
    ensures PerArtifactNames(groupId, done + {artifactId})
         == PerArtifactNames(groupId, done)[Key(groupId, artifactId) := BuildPropertyNameForGroupAndArtifact(groupId, artifactId)]
  {
    KeyInjectiveInGroup(groupId);
  }

  /** One more artifact of a diverging group has its property written, unless present. */
  lemma PerArtifactPropertiesStep(
    properties: map<string, string>, versions: map<string, string>, groupId: string, done: set<string>, artifactId: string)
    requires forall a :: a in done + {artifactId} ==> Key(groupId, a) in versions
    requires artifactId !in done
    ensures var before := PerArtifactProperties(properties, versions, groupId, done);
      var name := BuildPropertyNameForGroupAndArtifact(groupId, artifactId);
      PerArtifactProperties(properties, versions, groupId, done + {artifactId})
        == if name in before then before else before[name := versions[Key(groupId, artifactId)]]
  {
    var name := BuildPropertyNameForGroupAndArtifact(groupId, artifactId);
    var added := NewArtifactProperties(properties, versions, groupId, done);
    NewArtifactPropertiesStep(properties, versions, groupId, done, artifactId);
    if name !in properties {
      MergeUpdate(properties, added, name, versions[Key(groupId, artifactId)]);
    }
  }

  /** The entries added for one more artifact: its own, when its name is not yet a property. */
  lemma NewArtifactPropertiesStep(
    properties: map<string, string>, versions: map<string, string>, groupId: string, done: set<string>, artifactId: string)
    requires forall a :: a in done + {artifactId} ==> Key(groupId, a) in versions
    requires artifactId !in done
    ensures BuildPropertyNameForGroupAndArtifact(groupId, artifactId) !in NewArtifactProperties(properties, versions, groupId, done)
    ensures var name := BuildPropertyNameForGroupAndArtifact(groupId, artifactId);
      var added := NewArtifactProperties(properties, versions, groupId, done);
      NewArtifactProperties(properties, versions, groupId, done + {artifactId})
        == if name in properties then added else added[name := versions[Key(groupId, artifactId)]]
  {
    var name := BuildPropertyNameForGroupAndArtifact(groupId, artifactId);
    forall a | a in done
      ensures BuildPropertyNameForGroupAndArtifact(groupId, a) != name
    {
      ArtifactNameSuffix(groupId, a);
      ArtifactNameSuffix(groupId, artifactId);
    }
    if name in properties {
      NewArtifactPropertiesWhenPresent(properties, versions, groupId, done, artifactId);
    } else {
      NewArtifactPropertiesWhenAbsent(properties, versions, groupId, done, artifactId);
    }
  }

  lemma NewArtifactPropertiesWhenPresent(
    properties: map<string, string>, versions: map<string, string>, groupId: string, done: set<string>, artifactId: string)
    requires forall a :: a in done + {artifactId} ==> Key(groupId, a) in versions
    requires BuildPropertyNameForGroupAndArtifact(groupId, artifactId) in properties
    ensures NewArtifactProperties(properties, versions, groupId, done + {artifactId})
         == NewArtifactProperties(properties, versions, groupId, done)
  {
    var added := NewArtifactProperties(properties, versions, groupId, done);
    var after := NewArtifactProperties(properties, versions, groupId, done + {artifactId});
    forall k | k in after
      ensures k in added && after[k] == added[k]
    {
      var a :| a in done + {artifactId} && BuildPropertyNameForGroupAndArtifact(groupId, a) !in properties
        && BuildPropertyNameForGroupAndArtifact(groupId, a) == k;
    }
    assert after.Keys == added.Keys;
  }

  lemma NewArtifactPropertiesWhenAbsent(
    properties: map<string, string>, versions: map<string, string>, groupId: string, done: set<string>, artifactId: string)
    requires forall a :: a in done + {artifactId} ==> Key(groupId, a) in versions
    requires BuildPropertyNameForGroupAndArtifact(groupId, artifactId) !in properties
    requires forall a :: a in done ==>
      BuildPropertyNameForGroupAndArtifact(groupId, a) != BuildPropertyNameForGroupAndArtifact(groupId, artifactId)
    ensures NewArtifactProperties(properties, versions, groupId, done + {artifactId})
         == NewArtifactProperties(properties, versions, groupId, done)
              [BuildPropertyNameForGroupAndArtifact(groupId, artifactId) := versions[Key(groupId, artifactId)]]
  {
    var name := BuildPropertyNameForGroupAndArtifact(groupId, artifactId);
    var added := NewArtifactProperties(properties, versions, groupId, done);
    var after := NewArtifactProperties(properties, versions, groupId, done + {artifactId});
    var expected := added[name := versions[Key(groupId, artifactId)]];
    NewArtifactKeysWhenAbsent(properties, versions, groupId, done, artifactId);
    NewArtifactValuesWhenAbsent(properties, versions, groupId, done, artifactId);
    assert after.Keys == expected.Keys;
    assert forall k :: k in after ==> after[k] == expected[k];
  }

  lemma NewArtifactKeysWhenAbsent(
    properties: map<string, string>, versions: map<string, string>, groupId: string, done: set<string>, artifactId: string)
    requires forall a :: a in done + {artifactId} ==> Key(groupId, a) in versions
    requires BuildPropertyNameForGroupAndArtifact(groupId, artifactId) !in properties
    ensures NewArtifactProperties(properties, versions, groupId, done + {artifactId}).Keys
         == NewArtifactProperties(properties, versions, groupId, done).Keys + {BuildPropertyNameForGroupAndArtifact(groupId, artifactId)}
  {
  }

  lemma NewArtifactValuesWhenAbsent(
    properties: map<string, string>, versions: map<string, string>, groupId: string, done: set<string>, artifactId: string)
    requires forall a :: a in done + {artifactId} ==> Key(groupId, a) in versions
    requires BuildPropertyNameForGroupAndArtifact(groupId, artifactId) !in properties
    requires forall a :: a in done ==>
      BuildPropertyNameForGroupAndArtifact(groupId, a) != BuildPropertyNameForGroupAndArtifact(groupId, artifactId)
    ensures var after := NewArtifactProperties(properties, versions, groupId, done + {artifactId});
      var added := NewArtifactProperties(properties, versions, groupId, done);
      && after[BuildPropertyNameForGroupAndArtifact(groupId, artifactId)] == versions[Key(groupId, artifactId)]
      && forall k :: k in added ==> k in after && after[k] == added[k]
  {
    var after := NewArtifactProperties(properties, versions, groupId, done + {artifactId});
    var added := NewArtifactProperties(properties, versions, groupId, done);
    forall k | k in added
      ensures k in after && after[k] == added[k]
    {
      var a :| a in done && BuildPropertyNameForGroupAndArtifact(groupId, a) !in properties
        && BuildPropertyNameForGroupAndArtifact(groupId, a) == k;
    }
  }
}
