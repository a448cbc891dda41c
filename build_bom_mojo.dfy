/**
 * The part of `BuildBomMojo` that builds the BOM in memory: a new model with
 * the BOM's coordinates and one fixed property, and a dependency-management
 * section listing the project's artifacts in sorted order.
 */
module BuildBom {
  import opened Wrappers
  import opened Pom
  import opened StringOrder

  const SourceEncodingProperty: string := "project.build.sourceEncoding"
  const SourceEncoding: string := "UTF-8"
  const DefaultOutputFilename: string := "bom-pom.xml"

  /** A resolved artifact of the project: its coordinates, classifier and type. */
  datatype Artifact = Artifact(
    groupId: string,
    artifactId: string,
    version: string,
    classifier: string,
    artifactType: string)

  // ---------------------------------------------------------------------------
  // Ordering

  /** Lexicographic order on groupId, then artifactId, then version. */
  predicate DependencyLess(x: Dependency, y: Dependency)
  {
    || Less(x.groupId, y.groupId)
    || (x.groupId == y.groupId && Less(x.artifactId, y.artifactId))
    || (x.groupId == y.groupId && x.artifactId == y.artifactId && Less(x.version, y.version))
  }

  predicate SameCoordinates(x: Dependency, y: Dependency)
  {
    x.groupId == y.groupId && x.artifactId == y.artifactId && x.version == y.version
  }

  /** The dependency the BOM lists for an artifact: its coordinates, no classifier, no type. */
  function ToDependency(artifact: Artifact): Dependency
  {
    Dependency(artifact.groupId, artifact.artifactId, artifact.version, None, None)
  }

  /** `Artifact.compareTo(other) < 0`, taken as the order on the artifacts' coordinates. */
  predicate ArtifactLess(x: Artifact, y: Artifact)
  {
    DependencyLess(ToDependency(x), ToDependency(y))
  }

  /** The coordinate order is a strict order, total up to equal coordinates. */
  lemma DependencyOrder(x: Dependency, y: Dependency, z: Dependency)
    ensures !DependencyLess(x, x)
    ensures DependencyLess(x, y) ==> !DependencyLess(y, x)
    ensures DependencyLess(x, y) && DependencyLess(y, z) ==> DependencyLess(x, z)
    ensures DependencyLess(x, y) || DependencyLess(y, x) || SameCoordinates(x, y)
  {
    LessIrreflexive(x.groupId);
    LessIrreflexive(x.artifactId);
    LessIrreflexive(x.version);
    LessTotal(x.groupId, y.groupId);
    LessTotal(x.artifactId, y.artifactId);
    LessTotal(x.version, y.version);
    if Less(x.groupId, y.groupId) { LessAsymmetric(x.groupId, y.groupId); }
    if Less(x.artifactId, y.artifactId) { LessAsymmetric(x.artifactId, y.artifactId); }
    if Less(x.version, y.version) { LessAsymmetric(x.version, y.version); }
    if Less(x.groupId, y.groupId) && Less(y.groupId, z.groupId) {
      LessTransitive(x.groupId, y.groupId, z.groupId);
    }
    if Less(x.artifactId, y.artifactId) && Less(y.artifactId, z.artifactId) {
      LessTransitive(x.artifactId, y.artifactId, z.artifactId);
    }
    if Less(x.version, y.version) && Less(y.version, z.version) {
      LessTransitive(x.version, y.version, z.version);
    }
  }

  /** "Not after" is transitive. */
  lemma NotLessTransitive(x: Dependency, y: Dependency, z: Dependency)
    ensures !DependencyLess(y, x) && !DependencyLess(z, y) ==> !DependencyLess(z, x)
  {
    DependencyOrder(x, y, z);
    DependencyOrder(z, x, y);
  }

  /** No artifact comes after a later one. */
  predicate Sorted(s: seq<Artifact>)
  {
    forall i, j :: 0 <= i < j < |s| ==> !ArtifactLess(s[j], s[i])
  }

  predicate DependenciesSorted(s: seq<Dependency>)
  {
    forall i, j :: 0 <= i < j < |s| ==> !DependencyLess(s[j], s[i])
  }

  // ---------------------------------------------------------------------------
  // Sorting (stand-in for `Collections.sort`, a stable sort)

  /** Puts `x` before the first element not below it, so that ties keep their order. */
  function Insert(x: Artifact, s: seq<Artifact>): (r: seq<Artifact>)
    ensures multiset(r) == multiset(s) + multiset{x}
  {
    if s == [] || !ArtifactLess(s[0], x) then [x] + s
    else
      assert s == [s[0]] + s[1..];
      [s[0]] + Insert(x, s[1..])
  }

  lemma {:induction false} InsertSorted(x: Artifact, s: seq<Artifact>)
    requires Sorted(s)
    ensures Sorted(Insert(x, s))
  {
    if s == [] || !ArtifactLess(s[0], x) {
      forall j | 0 < j < |s|
        ensures !ArtifactLess(s[j], x)
      {
        NotLessTransitive(ToDependency(x), ToDependency(s[0]), ToDependency(s[j]));
      }
    } else {
      var rest := Insert(x, s[1..]);
      InsertSorted(x, s[1..]);
      DependencyOrder(ToDependency(s[0]), ToDependency(x), ToDependency(x));
      forall j | 0 <= j < |rest|
        ensures !ArtifactLess(rest[j], s[0])
      {
        assert rest[j] in multiset(rest);
        if rest[j] != x {
          assert rest[j] in s[1..];
        }
      }
    }
  }

  /** The sorted copy of the artifact list: ascending and a permutation of it. */
  function SortArtifacts(s: seq<Artifact>): (r: seq<Artifact>)
    ensures multiset(r) == multiset(s)
    ensures Sorted(r)
  {
    if s == [] then []
    else
      assert s == [s[0]] + s[1..];
      InsertSorted(s[0], SortArtifacts(s[1..]));
      Insert(s[0], SortArtifacts(s[1..]))
  }

  // ---------------------------------------------------------------------------
  // The managed dependency list

  /** One dependency per artifact, in the artifacts' order. */
  function Dependencies(artifacts: seq<Artifact>): seq<Dependency>
  {
    seq(|artifacts|, i requires 0 <= i < |artifacts| => ToDependency(artifacts[i]))
  }

  /** The dependency-management section `addDependencyManagement` builds. */
  function ManagedDependencies(artifacts: seq<Artifact>): seq<Dependency>
  {
    Dependencies(SortArtifacts(artifacts))
  }

  lemma DependenciesOfConcat(s: seq<Artifact>, t: seq<Artifact>)
    ensures Dependencies(s + t) == Dependencies(s) + Dependencies(t)
  {
  }

  /** Permuting the artifacts permutes their dependencies the same way. */
  lemma {:induction false} DependenciesPermute(s: seq<Artifact>, t: seq<Artifact>)
    requires multiset(s) == multiset(t)
    ensures multiset(Dependencies(s)) == multiset(Dependencies(t))
    decreases |s|
  {
    if s != [] {
      var x := s[0];
      assert x in multiset(t);
      var k :| 0 <= k < |t| && t[k] == x;
      var rest := t[..k] + t[k + 1..];
      assert t == t[..k] + [x] + t[k + 1..];
      assert s == [x] + s[1..];
      assert multiset(s) == multiset{x} + multiset(s[1..]);
      assert multiset(t) == multiset(t[..k]) + multiset{x} + multiset(t[k + 1..]);
      assert multiset(rest) == multiset(t[..k]) + multiset(t[k + 1..]);
      assert multiset(s[1..]) == multiset(s) - multiset{x};
      assert multiset(rest) == multiset(t) - multiset{x};
      DependenciesPermute(s[1..], rest);
      DependenciesOfConcat(t[..k] + [x], t[k + 1..]);
      DependenciesOfConcat(t[..k], [x]);
      DependenciesOfConcat(t[..k], t[k + 1..]);
      DependenciesOfConcat([x], s[1..]);
    }
  }

  /**
   * Exactly one dependency per artifact, nothing filtered or merged, each
   * with the artifact's coordinates and neither classifier nor type.
   */
  lemma ManagedDependenciesOnePerArtifact(artifacts: seq<Artifact>)
    ensures |ManagedDependencies(artifacts)| == |artifacts|
    ensures multiset(ManagedDependencies(artifacts)) == multiset(Dependencies(artifacts))
    ensures forall d :: d in ManagedDependencies(artifacts) ==> d.classifier == None && d.artifactType == None
  {
    var sorted := SortArtifacts(artifacts);
    assert |sorted| == |multiset(sorted)| == |multiset(artifacts)| == |artifacts|;
    DependenciesPermute(sorted, artifacts);
  }

  /** The managed dependencies are in ascending coordinate order. */
  lemma ManagedDependenciesSorted(artifacts: seq<Artifact>)
    ensures DependenciesSorted(ManagedDependencies(artifacts))
  {
    var sorted := SortArtifacts(artifacts);
    forall i, j | 0 <= i < j < |sorted|
      ensures !DependencyLess(ToDependency(sorted[j]), ToDependency(sorted[i]))
    {
      assert !ArtifactLess(sorted[j], sorted[i]);
    }
  }

  /** Two ascending lists of plain dependencies with the same elements are equal. */
  lemma {:induction false} SortedDependenciesUnique(s: seq<Dependency>, t: seq<Dependency>)
    requires DependenciesSorted(s) && DependenciesSorted(t)
    requires forall d :: d in s ==> d.classifier == None && d.artifactType == None
    requires multiset(s) == multiset(t)
    ensures s == t
    decreases |s|
  {
    if s != [] {
      assert |t| == |multiset(t)| == |multiset(s)| == |s|;
      var a, b := s[0], t[0];
      assert b in multiset(s);
      assert a in multiset(t);
      DependencyOrder(a, b, a);
      assert s == [a] + s[1..];
      assert t == [b] + t[1..];
      assert a == b;
      assert multiset(s) == multiset{a} + multiset(s[1..]);
      assert multiset(t) == multiset{b} + multiset(t[1..]);
      assert multiset(s[1..]) == multiset(s) - multiset{a};
      assert multiset(t[1..]) == multiset(t) - multiset{b};
      SortedDependenciesUnique(s[1..], t[1..]);
    }
  }

  /**
   * Any ascending arrangement of the artifacts yields the same list: artifacts
   * that tie in the order give equal dependencies, so it does not matter how
   * the sort orders them.
   */
  lemma ManagedDependenciesOfAnySortedOrder(artifacts: seq<Artifact>, arranged: seq<Artifact>)
    requires Sorted(arranged) && multiset(arranged) == multiset(artifacts)
    ensures Dependencies(arranged) == ManagedDependencies(artifacts)
  {
    var sorted := SortArtifacts(artifacts);
    DependenciesPermute(arranged, sorted);
    ManagedDependenciesSorted(artifacts);
    assert DependenciesSorted(Dependencies(arranged)) by {
      forall i, j | 0 <= i < j < |arranged|
        ensures !DependencyLess(ToDependency(arranged[j]), ToDependency(arranged[i]))
      {
        assert !ArtifactLess(arranged[j], arranged[i]);
      }
    }
    SortedDependenciesUnique(Dependencies(arranged), Dependencies(sorted));
  }

  // ---------------------------------------------------------------------------
  // The mojo

  /** The current Maven project; only its resolved artifacts are read. */
  class MavenProject {
    var artifacts: seq<Artifact>

    constructor (artifacts: seq<Artifact>)
      ensures this.artifacts == artifacts
    {
      this.artifacts := artifacts;
    }
  }

  class BuildBomMojo {
    var bomGroupId: string
    var bomArtifactId: string
    var bomVersion: string
    var bomName: string
    var bomDescription: string
    var outputFilename: string
    var mavenProject: MavenProject

    /** The mojo as Maven configures it; name and description default to empty. */
    constructor (bomGroupId: string, bomArtifactId: string, bomVersion: string, mavenProject: MavenProject)
      ensures this.bomGroupId == bomGroupId && this.bomArtifactId == bomArtifactId && this.bomVersion == bomVersion
      ensures bomName == "" && bomDescription == "" && outputFilename == DefaultOutputFilename
      ensures this.mavenProject == mavenProject
    {
      this.bomGroupId, this.bomArtifactId, this.bomVersion := bomGroupId, bomArtifactId, bomVersion;
      bomName, bomDescription := "", "";
      outputFilename := DefaultOutputFilename;
      this.mavenProject := mavenProject;
    }

    /**
     * `initializeModel`: a new model with the BOM's coordinates, name and
     * description, whose only property is the source encoding.
     */
    method InitializeModel() returns (pomModel: Model)
      ensures fresh(pomModel)
      ensures pomModel.groupId == bomGroupId && pomModel.artifactId == bomArtifactId && pomModel.version == bomVersion
      ensures pomModel.name == bomName && pomModel.description == bomDescription
      ensures pomModel.properties == map[SourceEncodingProperty := SourceEncoding]
      ensures pomModel.dependencyManagement == None
    {
      pomModel := new Model();
      pomModel.groupId := bomGroupId;
      pomModel.artifactId := bomArtifactId;
      pomModel.version := bomVersion;
      pomModel.name := bomName;
      pomModel.description := bomDescription;
      pomModel.properties := pomModel.properties[SourceEncodingProperty := SourceEncoding];
    }

    /**
     * `addDependencyManagement`: sort a copy of the project's artifacts and
     * list one dependency per artifact as the model's new dependency-management
     * section. Nothing else of the model, and not the project's own list, changes.
     */
    method AddDependencyManagement(pomModel: Model)
      modifies pomModel`dependencyManagement
      ensures pomModel.dependencyManagement == Some(ManagedDependencies(mavenProject.artifacts))
      ensures pomModel.groupId == old(pomModel.groupId) && pomModel.artifactId == old(pomModel.artifactId)
      ensures pomModel.version == old(pomModel.version) && pomModel.properties == old(pomModel.properties)
      ensures mavenProject.artifacts == old(mavenProject.artifacts)
    {
      var projectArtifacts := SortArtifacts(mavenProject.artifacts);
      var dependencies: seq<Dependency> := [];
      for i := 0 to |projectArtifacts|
        invariant dependencies == Dependencies(projectArtifacts[..i])
      {
        var artifact := projectArtifacts[i];
        var dep := Dependency(artifact.groupId, artifact.artifactId, artifact.version, None, None);
        dependencies := dependencies + [dep];
      }
      assert projectArtifacts[..|projectArtifacts|] == projectArtifacts;
      pomModel.dependencyManagement := Some(dependencies);
    }
  }
}
