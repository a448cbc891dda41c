/** The names of the version properties the transformer writes into a POM. */
module VersionPropertyNames {

  const VersionPropertyPrefix: string := "version."

  /** The property that all artifacts of one group share: `version.<groupId>`. */
  function BuildPropertyName(groupId: string): (name: string)
    ensures |name| == |VersionPropertyPrefix| + |groupId|
    ensures name[..|VersionPropertyPrefix|] == VersionPropertyPrefix
    ensures name[|VersionPropertyPrefix|..] == groupId
  {
    VersionPropertyPrefix + groupId
  }

  /** The property of one artifact of a group: `version.<groupId>.<artifactId>`. */
  function BuildPropertyNameForGroupAndArtifact(groupId: string, artifactId: string): (name: string)
    ensures name == BuildPropertyName(groupId + "." + artifactId)
    ensures |name| > |BuildPropertyName(groupId)|
    ensures name[..|VersionPropertyPrefix|] == VersionPropertyPrefix
  {
    VersionPropertyPrefix + groupId + "." + artifactId
  }

  /** Two groups never share a group property name. */
  lemma BuildPropertyNameInjective(groupId1: string, groupId2: string)
    requires BuildPropertyName(groupId1) == BuildPropertyName(groupId2)
    ensures groupId1 == groupId2
  {
  }

  /** Within one group, the per-artifact name is never the group name. */
  lemma ArtifactNameIsNotGroupName(groupId: string, artifactId: string)
    ensures BuildPropertyNameForGroupAndArtifact(groupId, artifactId) != BuildPropertyName(groupId)
  {
  }

  /** Within one group, distinct artifacts get distinct per-artifact names. */
  lemma ArtifactNameInjective(groupId: string, artifactId1: string, artifactId2: string)
    requires BuildPropertyNameForGroupAndArtifact(groupId, artifactId1)
          == BuildPropertyNameForGroupAndArtifact(groupId, artifactId2)
    ensures artifactId1 == artifactId2
  {
    var n1 := BuildPropertyNameForGroupAndArtifact(groupId, artifactId1);
    var n2 := BuildPropertyNameForGroupAndArtifact(groupId, artifactId2);
    var k := |VersionPropertyPrefix| + |groupId| + 1;
    assert n1[k..] == artifactId1;
    assert n2[k..] == artifactId2;
  }

  /**
   * Names are not unique across groups: the per-artifact name of `org:a` is the
   * group name of `org.a`, and `a.b:c` and `a:b.c` share a per-artifact name.
   */
  lemma NamesCollideAcrossGroups()
    ensures BuildPropertyNameForGroupAndArtifact("org", "a") == BuildPropertyName("org.a")
    ensures BuildPropertyNameForGroupAndArtifact("a.b", "c") == BuildPropertyNameForGroupAndArtifact("a", "b.c")
  {
  }
}
