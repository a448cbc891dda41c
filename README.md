# bom-builder: version-property consolidation and BOM assembly, in Dafny

This project models the core of the bom-builder Maven plugin and proves properties about it.

**The version-property consolidation** (`PomDependencyVersionsTransformer`) takes a POM model and returns a clone of it. In the clone, every literal version in the dependency-management section becomes a `${name}` placeholder. The named property is added to the clone's properties unless it is already there. It works in three steps:

- **Collect.** One pass records three things:
  - the last version seen for each `groupId:artifactId` key;
  - the first version seen for each groupId;
  - the set of artifactIds of each groupId.
- **Name.** The groups are handled in ascending groupId order.
  - A group with one artifact, or whose versions all interpolate to the same value, shares `version.<groupId>`. Its value is the group's first version.
  - Any other group gives each artifact `version.<groupId>.<artifactId>`, whose value is that artifact's version.
  - Interpolating `${x}` is a single lookup of `x` in the clone's properties. Those properties grow while the groups are processed.
- **Rewrite.** Every version that does not already start with `${` becomes `${name}`, with the name looked up by the dependency's key.

The name map is a field of the transformer. It is never cleared, so names from earlier calls remain.

**The name builders** (`VersionPropertyNames`) build `version.<groupId>` and `version.<groupId>.<artifactId>`.

**The BOM shell** (`BuildBomMojo`) has two parts:

- `initializeModel` creates a new model with the BOM's coordinates, name and description. Its only property is `project.build.sourceEncoding = UTF-8`.
- `addDependencyManagement` sorts a copy of the project's artifacts. It then lists one dependency per artifact, carrying groupId, artifactId and version, as the model's dependency-management section.

The mojo never calls the transformer, so the two are modelled independently.

Modules:

- `Wrappers`: `Option`.
- `StringOrder`: the lexicographic string order that `String.compareTo` gives on characters below U+10000, and the ascending key order a `TreeMap` iterates in.
- `VersionPropertyNames`: the name builders.
- `Pom`: the `Dependency` datatype and the `Model` class, with its constructor and `Clone`.
- `Consolidation`: a functional specification of each step of the transformer, with the lemmas about them.
- `DependencyVersionsTransformer`: the transformer as a class.
  - Its fields are `groupIdArtifactIdPropertyNames` and `pomModel`.
  - Each method is proved to compute what `Consolidation` specifies.
  - The two loops of `buildVersionPropertiesForGroupId` are separate methods, `NameArtifactsAfterGroup` and `NameArtifactsSeparately`.
- `BuildBom`: the artifact datatype, the sort, the `MavenProject` stand-in and the `BuildBomMojo` class.

Where the specification and the code disagree, the model follows the code:

- **Name uniqueness across groups.** A per-artifact name can equal another group's shared name: `version.org.a` serves both artifact `a` of group `org` and group `org.a`. The first group to write it keeps the value, so "divergent versions always get distinct properties" does not hold across groups (`NamesCollideAcrossGroups`). Within a group, a shared name belongs only to keys whose recorded versions interpolate alike (`TransformSharesOnlyEqualVersions`).
- **Repeated keys.** A `groupId:artifactId` key can occur twice, for example as a test jar and as the plain jar. Collect then records the key's last version, while the group keeps its first version. The group can look uniform although its first version appears nowhere else, and the shared property then carries that first version to every artifact (`RepeatedKeyMovesVersion`). When every key occurs once, two things hold:
  - dependencies that share a name have versions that interpolate alike (`TransformSharesOnlyEqualDependencyVersions`);
  - a property created for a literal version holds a value that interpolates to that version (`TransformPropertyHoldsDependencyVersion`).
- **No duplicate suppression.** The dependency list is not deduplicated: there is one entry per artifact (`ManagedDependenciesOnePerArtifact`).
- **Re-running on consolidated output.** The dependency list comes out unchanged (`TransformLeavesConsolidatedDependencies`). The properties can still gain entries, because the naming step runs again on the placeholder versions.

## Model

| member | source | states |
|---|---|---|
| VersionPropertyNames.BuildPropertyName | src/main/java/org/jboss/maven/plugins/bombuilder/VersionPropertyNames.java:16-18 | the name is the prefix `version.` followed by exactly the groupId |
| VersionPropertyNames.BuildPropertyNameForGroupAndArtifact | src/main/java/org/jboss/maven/plugins/bombuilder/VersionPropertyNames.java:20-22 | the name is the group name of `groupId.artifactId`; it starts with `version.` and is strictly longer than the group's own name |
| VersionPropertyNames.BuildPropertyNameInjective | src/main/java/org/jboss/maven/plugins/bombuilder/VersionPropertyNames.java:16-18 | distinct groupIds get distinct names |
| VersionPropertyNames.ArtifactNameIsNotGroupName | src/main/java/org/jboss/maven/plugins/bombuilder/VersionPropertyNames.java:16-22 | within one group, a per-artifact name never equals the shared name |
| VersionPropertyNames.ArtifactNameInjective | src/main/java/org/jboss/maven/plugins/bombuilder/VersionPropertyNames.java:20-22 | within one group, distinct artifactIds get distinct names |
| VersionPropertyNames.NamesCollideAcrossGroups | src/main/java/org/jboss/maven/plugins/bombuilder/VersionPropertyNames.java:16-22 | names are not globally injective: `("org","a")` gives the name of group `org.a`, and `("a.b","c")` equals `("a","b.c")` |
| StringOrder.LessIrreflexive | src/main/java/org/jboss/maven/plugins/bombuilder/PomDependencyVersionsTransformer.java:37 | no string sorts before itself in the `TreeMap` key order |
| StringOrder.Less | src/main/java/org/jboss/maven/plugins/bombuilder/PomDependencyVersionsTransformer.java:37 | `a.compareTo(b) < 0`, comparing characters by code point; defined by recursion, and its properties are the lemmas below |
| StringOrder.LessIsLexicographic | src/main/java/org/jboss/maven/plugins/bombuilder/PomDependencyVersionsTransformer.java:37 | `Less(a, b)` holds exactly when `a` is a proper prefix of `b`, or when `a` has the smaller character at the first position where they differ |
| StringOrder.LessAsymmetric | src/main/java/org/jboss/maven/plugins/bombuilder/PomDependencyVersionsTransformer.java:37 | the key order is asymmetric |
| StringOrder.LessTransitive | src/main/java/org/jboss/maven/plugins/bombuilder/PomDependencyVersionsTransformer.java:37 | the key order is transitive |
| StringOrder.LessTotal | src/main/java/org/jboss/maven/plugins/bombuilder/PomDependencyVersionsTransformer.java:37 | any two distinct strings are ordered one way or the other |
| StringOrder.LeastExists | src/main/java/org/jboss/maven/plugins/bombuilder/PomDependencyVersionsTransformer.java:79 | a non-empty key set has a least key |
| StringOrder.LeastIsUnique | src/main/java/org/jboss/maven/plugins/bombuilder/PomDependencyVersionsTransformer.java:79 | the least key is unique |
| StringOrder.AscendingKeys | src/main/java/org/jboss/maven/plugins/bombuilder/PomDependencyVersionsTransformer.java:79-82 | the `TreeMap` iteration order: strictly ascending and containing exactly the map's keys |
| StringOrder.AscendingHasNoDuplicates | src/main/java/org/jboss/maven/plugins/bombuilder/PomDependencyVersionsTransformer.java:79-82 | each group is visited once |
| Pom.Model.constructor | src/main/java/org/jboss/maven/plugins/bombuilder/BuildBomMojo.java:108 | a new model has empty coordinates, no properties and no dependency-management section |
| Pom.Model.Clone | src/main/java/org/jboss/maven/plugins/bombuilder/PomDependencyVersionsTransformer.java:31 | the clone is a fresh object with every field equal to the original's |
| Consolidation.KeyInjective | src/main/java/org/jboss/maven/plugins/bombuilder/PomDependencyVersionsTransformer.java:135 | within one group, the `groupId:artifactId` key determines the artifactId |
| Consolidation.Placeholder | src/main/java/org/jboss/maven/plugins/bombuilder/PomDependencyVersionsTransformer.java:62 | the written version starts with `${` and strips back to the property name |
| Consolidation.InterpolateVersion | src/main/java/org/jboss/maven/plugins/bombuilder/PomDependencyVersionsTransformer.java:182-186 | a placeholder interpolates to a value exactly when its name is a property, and the value is one of the properties' values |
| Consolidation.DigitalVersion | src/main/java/org/jboss/maven/plugins/bombuilder/PomDependencyVersionsTransformer.java:169-186 | a literal version is its own value; the result is defined exactly when the version resolves |
| Consolidation.InterpolatePlaceholder | src/main/java/org/jboss/maven/plugins/bombuilder/PomDependencyVersionsTransformer.java:182-186 | a `${name}` written by the rewrite interpolates to the value of property `name`, or to nothing when `name` is not a property |
| Consolidation.AreVersionsIdentical | src/main/java/org/jboss/maven/plugins/bombuilder/PomDependencyVersionsTransformer.java:169-180 | true exactly when both versions interpolate to the same value; two literals compare as strings; a true answer means the second version resolves too |
| Consolidation.InterpolationIsSingleLevel | src/main/java/org/jboss/maven/plugins/bombuilder/PomDependencyVersionsTransformer.java:182-186 | interpolation is one lookup: `${a}` with `a = ${b}` yields `${b}`, not `b`'s value |
| Consolidation.DigitalVersionStable | src/main/java/org/jboss/maven/plugins/bombuilder/PomDependencyVersionsTransformer.java:182-186 | a version that resolves keeps its value when properties are only added |
| Consolidation.Collect | src/main/java/org/jboss/maven/plugins/bombuilder/PomDependencyVersionsTransformer.java:130-151 | every collected group has a first version and a non-empty artifact set, and each of its keys has a version |
| Consolidation.CollectRecordsEveryDependency | src/main/java/org/jboss/maven/plugins/bombuilder/PomDependencyVersionsTransformer.java:143-149 | every dependency's artifactId is recorded under its groupId |
| Consolidation.CollectRecordsOnlyDependencies | src/main/java/org/jboss/maven/plugins/bombuilder/PomDependencyVersionsTransformer.java:143-149 | every recorded group and artifact comes from some dependency |
| Consolidation.CollectVersionsFromDependencies | src/main/java/org/jboss/maven/plugins/bombuilder/PomDependencyVersionsTransformer.java:136 | every recorded key version is the version of a dependency with that key |
| Consolidation.CollectGroupVersionsFromDependencies | src/main/java/org/jboss/maven/plugins/bombuilder/PomDependencyVersionsTransformer.java:141 | every recorded group version is the version of a dependency of that group |
| Consolidation.CollectKeepsLastVersion | src/main/java/org/jboss/maven/plugins/bombuilder/PomDependencyVersionsTransformer.java:136 | a key's recorded version is that of its last occurrence |
| Consolidation.CollectKeepsFirstGroupVersion | src/main/java/org/jboss/maven/plugins/bombuilder/PomDependencyVersionsTransformer.java:141 | a group's recorded version is that of its first occurrence |
| Consolidation.CollectOmitsUnseenGroup | src/main/java/org/jboss/maven/plugins/bombuilder/PomDependencyVersionsTransformer.java:141 | no version is recorded for a group no dependency has |
| Consolidation.GroupProperties | src/main/java/org/jboss/maven/plugins/bombuilder/PomDependencyVersionsTransformer.java:92-117 | the properties after one group: the shared branch or the per-artifact branch. Defined by cases; `GroupSharedProperty` and `GroupPerArtifactProperties` state what each branch adds |
| Consolidation.GroupNames | src/main/java/org/jboss/maven/plugins/bombuilder/PomDependencyVersionsTransformer.java:92-117 | the names one group assigns. Defined by cases; `GroupNamesKeys`, `GroupSharedProperty` and `GroupPerArtifactProperties` state them |
| Consolidation.GroupKeepsExistingProperties | src/main/java/org/jboss/maven/plugins/bombuilder/PomDependencyVersionsTransformer.java:100-102 | handling one group never changes or removes an existing property |
| Consolidation.GroupNamesKeys | src/main/java/org/jboss/maven/plugins/bombuilder/PomDependencyVersionsTransformer.java:103-111 | one group names exactly the keys of its own artifacts |
| Consolidation.GroupSharedProperty | src/main/java/org/jboss/maven/plugins/bombuilder/PomDependencyVersionsTransformer.java:97-106 | a sharing group maps every artifact to `version.<groupId>`; the property is added only if absent, with the group's first version; no other property is added |
| Consolidation.GroupPerArtifactProperties | src/main/java/org/jboss/maven/plugins/bombuilder/PomDependencyVersionsTransformer.java:107-115 | a non-sharing group has several artifacts; each maps to its own `version.<groupId>.<artifactId>`, present afterwards, and written with that artifact's recorded version when it was absent; distinct artifacts get distinct names; the properties afterwards are exactly the earlier ones plus these names |
| Consolidation.PerArtifactPropertiesKeys | src/main/java/org/jboss/maven/plugins/bombuilder/PomDependencyVersionsTransformer.java:107-115 | the per-artifact branch adds the names of the group's artifacts and nothing else |
| Consolidation.GroupNewKeysAreNames | src/main/java/org/jboss/maven/plugins/bombuilder/PomDependencyVersionsTransformer.java:92-117 | every property a group adds is the name it assigned to one of its own artifacts |
| Consolidation.GroupNewPropertyValue | src/main/java/org/jboss/maven/plugins/bombuilder/PomDependencyVersionsTransformer.java:97-115 | if a group adds the property for a literal version, the value interpolates to that version. This needs the group's first version to be the recorded version of one of its artifacts |
| Consolidation.GroupSharesOnlyEqualVersions | src/main/java/org/jboss/maven/plugins/bombuilder/PomDependencyVersionsTransformer.java:97-98 | two artifacts of a group that get the same name have versions that interpolate to the same value |
| Consolidation.GroupNamesResolve | src/main/java/org/jboss/maven/plugins/bombuilder/PomDependencyVersionsTransformer.java:92-117 | every name a group assigns is a key of the properties afterwards |
| Consolidation.InterpolationSafeAt | src/main/java/org/jboss/maven/plugins/bombuilder/PomDependencyVersionsTransformer.java:79-82 | when the transform is safe, each multi-artifact group's versions resolve in the properties its predecessors left |
| Consolidation.PropertiesAfter | src/main/java/org/jboss/maven/plugins/bombuilder/PomDependencyVersionsTransformer.java:79-82 | the properties after the groups of the order are handled one after another. Defined by recursion; its properties are the lemmas below |
| Consolidation.NamesAfter | src/main/java/org/jboss/maven/plugins/bombuilder/PomDependencyVersionsTransformer.java:79-82 | the name map after the groups of the order are handled one after another. Defined by recursion; its properties are the lemmas below |
| Consolidation.PropertiesAfterKeepsExisting | src/main/java/org/jboss/maven/plugins/bombuilder/PomDependencyVersionsTransformer.java:79-82 | a property present after some groups keeps its value to the end of the loop |
| Consolidation.PropertiesAfterCarriesValue | src/main/java/org/jboss/maven/plugins/bombuilder/PomDependencyVersionsTransformer.java:79-82 | a property written by a group keeps its value to the end of the loop, and so does what that value interpolates to |
| Consolidation.PropertiesAfterNewKey | src/main/java/org/jboss/maven/plugins/bombuilder/PomDependencyVersionsTransformer.java:79-82 | every property the loop adds is a name that some processed group assigned to one of its artifacts |
| Consolidation.NamesAfterResolve | src/main/java/org/jboss/maven/plugins/bombuilder/PomDependencyVersionsTransformer.java:79-82 | after the loop, names from earlier calls are still keys, and every artifact of every group is named by a property that exists |
| Consolidation.NamesAfterLastWriter | src/main/java/org/jboss/maven/plugins/bombuilder/PomDependencyVersionsTransformer.java:79-82 | without key collisions, an artifact's final name is the one its own group assigned |
| Consolidation.KeyOfOtherGroupNotNamed | src/main/java/org/jboss/maven/plugins/bombuilder/PomDependencyVersionsTransformer.java:104-109 | without key collisions, a group never names another group's artifact |
| Consolidation.SafeWhenAllResolve | src/main/java/org/jboss/maven/plugins/bombuilder/PomDependencyVersionsTransformer.java:169-186 | if every recorded version resolves in the initial properties, no interpolation along the loop can fail |
| Consolidation.ProcessingOrder | src/main/java/org/jboss/maven/plugins/bombuilder/PomDependencyVersionsTransformer.java:79-82 | the groups in ascending order, each group exactly once |
| Consolidation.CollectKeysDistinct | src/main/java/org/jboss/maven/plugins/bombuilder/PomDependencyVersionsTransformer.java:135 | if no two dependencies share a key across groups, the collected groups' keys are disjoint |
| Consolidation.RewriteDependency | src/main/java/org/jboss/maven/plugins/bombuilder/PomDependencyVersionsTransformer.java:56-63 | only the version changes; a placeholder version is left as it is; a literal version becomes `${name}` for its key's name; the result always starts with `${` |
| Consolidation.RewriteVersions | src/main/java/org/jboss/maven/plugins/bombuilder/PomDependencyVersionsTransformer.java:54-65 | the dependency list rewritten element by element. Its properties are stated in `TransformRewritesOnlyLiteralVersions` |
| Consolidation.Transform | src/main/java/org/jboss/maven/plugins/bombuilder/PomDependencyVersionsTransformer.java:30-48 | collect, then name the groups in ascending order, then rewrite. Its properties are the `Transform…` lemmas |
| Consolidation.TransformNamesEveryDependency | src/main/java/org/jboss/maven/plugins/bombuilder/PomDependencyVersionsTransformer.java:30-48 | every dependency's key gets a name, and that name is a key of the resulting properties, so no placeholder dangles |
| Consolidation.TransformKeepsExistingProperties | src/main/java/org/jboss/maven/plugins/bombuilder/PomDependencyVersionsTransformer.java:100-114 | every property present before keeps its value |
| Consolidation.TransformAddsOnlyAssignedNames | src/main/java/org/jboss/maven/plugins/bombuilder/PomDependencyVersionsTransformer.java:30-48 | without key collisions, every property the transform adds is the name some dependency was given |
| Consolidation.TransformRewritesOnlyLiteralVersions | src/main/java/org/jboss/maven/plugins/bombuilder/PomDependencyVersionsTransformer.java:54-65 | same number and order of dependencies with the same ids, classifier and type; placeholder versions untouched; every other version becomes `${name}` for its key's name, a key of the result's properties |
| Consolidation.TransformLeavesConsolidatedDependencies | src/main/java/org/jboss/maven/plugins/bombuilder/PomDependencyVersionsTransformer.java:57 | a list whose versions are all placeholders comes out unchanged |
| Consolidation.TransformNameIsGroupName | src/main/java/org/jboss/maven/plugins/bombuilder/PomDependencyVersionsTransformer.java:79-117 | without key collisions, a dependency's final name is the one its group assigned, given the properties written before that group |
| Consolidation.TransformNameFollowsGroup | src/main/java/org/jboss/maven/plugins/bombuilder/PomDependencyVersionsTransformer.java:92-117 | without key collisions, either all dependencies of a group are named `version.<groupId>`, or each is named `version.<groupId>.<artifactId>` |
| Consolidation.TransformSharesOnlyEqualVersions | src/main/java/org/jboss/maven/plugins/bombuilder/PomDependencyVersionsTransformer.java:97-98 | without key collisions, when two dependencies of a group have the same name, the versions recorded for their keys (each key's last version) interpolate to the same value in the result's properties |
| Consolidation.TransformSharesOnlyEqualDependencyVersions | src/main/java/org/jboss/maven/plugins/bombuilder/PomDependencyVersionsTransformer.java:97-98 | when every key occurs once, two dependencies of a group with the same name have versions that interpolate to the same value |
| Consolidation.TransformPropertyHoldsDependencyVersion | src/main/java/org/jboss/maven/plugins/bombuilder/PomDependencyVersionsTransformer.java:97-115 | when every key occurs once, a literal version is rewritten to a property. If its group created that property, the property's value interpolates to exactly that version |
| Consolidation.RepeatedKeyCollected | src/main/java/org/jboss/maven/plugins/bombuilder/PomDependencyVersionsTransformer.java:130-151 | with `g:a` at `v1` and `v2` followed by `g:b` at `v2`, the key `g:a` keeps `v2` while the group `g` keeps `v1` |
| Consolidation.RepeatedKeyMovesVersion | src/main/java/org/jboss/maven/plugins/bombuilder/PomDependencyVersionsTransformer.java:136-141 | in that case the only property is `version.<g> = v1`, and all three dependencies are rewritten to `${version.<g>}`, including `g:b`, whose version is `v2` |
| Consolidation.ResolvableUpFrontIsSafe | src/main/java/org/jboss/maven/plugins/bombuilder/PomDependencyVersionsTransformer.java:169-186 | if every version resolves in the input's properties, the transform's interpolation precondition holds |
| DependencyVersionsTransformer.PomDependencyVersionsTransformer.constructor | src/main/java/org/jboss/maven/plugins/bombuilder/PomDependencyVersionsTransformer.java:26-28 | a new transformer starts with an empty name map |
| DependencyVersionsTransformer.PomDependencyVersionsTransformer.TransformPomModel | src/main/java/org/jboss/maven/plugins/bombuilder/PomDependencyVersionsTransformer.java:30-48 | returns a fresh clone, kept as `pomModel`; the caller's model is unchanged; the coordinates are equal; the properties, the name map and the dependency list are those of `Consolidation.Transform` over the name map from earlier calls |
| DependencyVersionsTransformer.PomDependencyVersionsTransformer.AssignVersionPropertiesToArtifacts | src/main/java/org/jboss/maven/plugins/bombuilder/PomDependencyVersionsTransformer.java:54-65 | the dependency list becomes its element-wise rewrite: placeholders kept, other versions replaced by `${name}` |
| DependencyVersionsTransformer.PomDependencyVersionsTransformer.BuildVersionProperties | src/main/java/org/jboss/maven/plugins/bombuilder/PomDependencyVersionsTransformer.java:74-83 | the properties and the name map become the fold of the group step over the groups in ascending order |
| DependencyVersionsTransformer.PomDependencyVersionsTransformer.BuildVersionPropertiesForGroupId | src/main/java/org/jboss/maven/plugins/bombuilder/PomDependencyVersionsTransformer.java:92-117 | the properties become the group step's properties, and the name map gains exactly the group's names |
| DependencyVersionsTransformer.PomDependencyVersionsTransformer.NameArtifactsAfterGroup | src/main/java/org/jboss/maven/plugins/bombuilder/PomDependencyVersionsTransformer.java:103-106 | every artifact of the group is mapped to the shared name; other entries are kept |
| DependencyVersionsTransformer.PomDependencyVersionsTransformer.NameArtifactsSeparately | src/main/java/org/jboss/maven/plugins/bombuilder/PomDependencyVersionsTransformer.java:108-115 | every artifact is mapped to its own name; each missing name is added with the artifact's version; existing properties are kept |
| DependencyVersionsTransformer.PomDependencyVersionsTransformer.CollectVersionsAndMappings | src/main/java/org/jboss/maven/plugins/bombuilder/PomDependencyVersionsTransformer.java:130-151 | the three maps built by the loop equal `Consolidation.Collect` of the dependencies |
| DependencyVersionsTransformer.PomDependencyVersionsTransformer.AllArtifactsInGroupHaveSameVersion | src/main/java/org/jboss/maven/plugins/bombuilder/PomDependencyVersionsTransformer.java:153-167 | true exactly when all the group's versions interpolate to one value, whatever order the set yields |
| BuildBom.DependencyOrder | src/main/java/org/jboss/maven/plugins/bombuilder/BuildBomMojo.java:125 | the order used to sort is irreflexive, asymmetric and transitive, and total up to equal coordinates |
| BuildBom.NotLessTransitive | src/main/java/org/jboss/maven/plugins/bombuilder/BuildBomMojo.java:125 | "not after" is transitive |
| BuildBom.Insert | src/main/java/org/jboss/maven/plugins/bombuilder/BuildBomMojo.java:125 | insertion adds exactly one element to the multiset |
| BuildBom.InsertSorted | src/main/java/org/jboss/maven/plugins/bombuilder/BuildBomMojo.java:125 | inserting into a sorted list keeps it sorted |
| BuildBom.SortArtifacts | src/main/java/org/jboss/maven/plugins/bombuilder/BuildBomMojo.java:124-125 | the sorted copy is ascending and a permutation of the artifacts |
| BuildBom.DependenciesPermute | src/main/java/org/jboss/maven/plugins/bombuilder/BuildBomMojo.java:128-135 | permuting the artifacts permutes the listed dependencies the same way |
| BuildBom.ManagedDependencies | src/main/java/org/jboss/maven/plugins/bombuilder/BuildBomMojo.java:124-135 | the dependencies of the sorted copy of the artifacts. Its properties are the `ManagedDependencies…` lemmas |
| BuildBom.ManagedDependenciesOnePerArtifact | src/main/java/org/jboss/maven/plugins/bombuilder/BuildBomMojo.java:124-135 | one dependency per artifact with no filtering or merging, each with the artifact's coordinates, no classifier and no type |
| BuildBom.ManagedDependenciesSorted | src/main/java/org/jboss/maven/plugins/bombuilder/BuildBomMojo.java:123-135 | the listed dependencies are in ascending coordinate order |
| BuildBom.SortedDependenciesUnique | src/main/java/org/jboss/maven/plugins/bombuilder/BuildBomMojo.java:125-135 | two ascending lists of such dependencies with the same elements are equal |
| BuildBom.ManagedDependenciesOfAnySortedOrder | src/main/java/org/jboss/maven/plugins/bombuilder/BuildBomMojo.java:124-135 | any ascending arrangement of the artifacts yields the same list, so the sort's handling of ties does not matter |
| BuildBom.BuildBomMojo.constructor | src/main/java/org/jboss/maven/plugins/bombuilder/BuildBomMojo.java:34-74 | the required coordinates are set; name and description default to empty and the output file to `bom-pom.xml` |
| BuildBom.BuildBomMojo.InitializeModel | src/main/java/org/jboss/maven/plugins/bombuilder/BuildBomMojo.java:106-119 | a fresh model with the BOM's coordinates, name and description; its properties are exactly `project.build.sourceEncoding = UTF-8`; no dependency-management section |
| BuildBom.BuildBomMojo.AddDependencyManagement | src/main/java/org/jboss/maven/plugins/bombuilder/BuildBomMojo.java:121-137 | the section becomes the dependencies of the sorted copy of the artifacts; coordinates and properties are unchanged; the project's own artifact list is not reordered |

## Left out

- `execute` and `writeModel` (BuildBomMojo.java:88-104, 139-151) are not modelled: they are logging, file output and exception wrapping.
- `ModelBuilder` and `ProjectBuilder` are not modelled: they are injected but unused.
- Maven's `Model` is a class with plain fields, and `Model.clone` copies them. Dependencies are values, so the clone shares nothing with the original. `java.util.Properties` is a `map<string, string>`, without default tables.
- `MavenProject.getArtifacts` is a given sequence of artifacts.
- BuildBom.ArtifactLess: Maven's `Artifact.compareTo` is not part of this model. The sort uses string order on groupId, then artifactId, then version; Maven also compares type and classifier, and compares versions as version numbers.
- BuildBom.SortArtifacts: a stand-in for `Collections.sort`. Stability is not stated; `ManagedDependenciesOfAnySortedOrder` shows that the emitted list does not depend on how ties are ordered.
- The `HashSet` iteration order inside a group is not modelled: the loops pick an arbitrary remaining element. The results are proved the same for every order.
- StringOrder.Less: compares characters by code point. Java's `compareTo` compares UTF-16 code units, so the two orders differ for characters above U+FFFF; a character between U+E000 and U+FFFF sorts after a surrogate pair in Java. Maven groupIds use letters, digits, `_`, `-` and `.`, where the orders agree.
- Null values are not modelled: absent strings are the empty string, and a missing dependency-management section is `None`.
- DependencyVersionsTransformer.PomDependencyVersionsTransformer.TransformPomModel: the source would throw instead, so the model requires two things:
  - a dependency-management section;
  - `InterpolationSafe`: every placeholder of a multi-artifact group resolves when its group is processed.

  `ResolvableUpFrontIsSafe` shows that it is enough for every version to resolve in the input's properties.
- DependencyVersionsTransformer.PomDependencyVersionsTransformer.AllArtifactsInGroupHaveSameVersion: requires every version of the group to resolve. The source only fails when the version the set yields first does not resolve, but that order is not modelled.
- Consolidation.RewriteDependency: a key without a name would give the source's `${null}`. The model writes the same string, and `TransformNamesEveryDependency` shows it cannot happen.
- Consolidation.TransformNameFollowsGroup, TransformSharesOnlyEqualVersions and NamesAfterLastWriter require that no two dependencies of different groups have the same `groupId:artifactId` key. Such collisions are possible when ids contain `:`, and the later group's name then wins for both.
- Consolidation.TransformSharesOnlyEqualVersions: compares the version each key recorded last, not each dependency's own version. When a key repeats, a shared property can carry a version that a dependency does not have (`RepeatedKeyMovesVersion`). `TransformSharesOnlyEqualDependencyVersions` and `TransformPropertyHoldsDependencyVersion` state the promise over the dependencies' own versions when every key occurs once.
