/**
 * The parts of Maven's POM model that the BOM builder reads and writes. A Java
 * `null` string is modelled as the empty string; `null` where it matters (a
 * missing dependency-management section, an unset classifier or type, here `artifactType`) is an
 * `Option`.
 */
module Pom {
  import opened Wrappers

  /** One entry of a dependency-management section. */
  datatype Dependency = Dependency(
    groupId: string,
    artifactId: string,
    version: string,
    classifier: Option<string>,
    artifactType: Option<string>)

  /** A POM: its coordinates, its properties and its dependency-management section. */
  class Model {
    var groupId: string
    var artifactId: string
    var version: string
    var name: string
    var description: string
    var properties: map<string, string>
    var dependencyManagement: Option<seq<Dependency>>

    /** `new Model()`: no coordinates, no properties, no dependency management. */
    constructor ()
      ensures groupId == "" && artifactId == "" && version == ""
      ensures name == "" && description == ""
      ensures properties == map[] && dependencyManagement == None
    {
      groupId, artifactId, version := "", "", "";
      name, description := "", "";
      properties := map[];
      dependencyManagement := None;
    }

    /** `Model.clone()`: a new model holding the same values. */
    method Clone() returns (copy: Model)
      ensures fresh(copy)
      ensures copy.groupId == groupId && copy.artifactId == artifactId && copy.version == version
      ensures copy.name == name && copy.description == description
      ensures copy.properties == properties
      ensures copy.dependencyManagement == dependencyManagement
    {
      copy := new Model();
      copy.groupId, copy.artifactId, copy.version := groupId, artifactId, version;
      copy.name, copy.description := name, description;
      copy.properties := properties;
      copy.dependencyManagement := dependencyManagement;
    }
  }
}
