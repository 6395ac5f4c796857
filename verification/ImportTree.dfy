/** Import reachability: which source files the exposed modules need. */
module ImportTree {
  import opened Options

  /** Absolute paths, as `realpath` returns them. */
  type Path = string

  /** The project on disk, as given functions: the absolute path behind a path (None when
      it does not resolve), and the paths of the imports of a file that exist under the
      source directory (None when the file does not parse). */
  datatype Project = Project(
    resolve: Path -> Option<Path>,
    imports: Path -> Option<seq<Path>>,
    files: set<Path>)

  /** Finitely many files: everything that resolves is one of them. */
  ghost predicate Finite(p: Project) {
    forall path :: p.resolve(path).Some? ==> p.resolve(path).value in p.files
  }

  /** The files a file imports. */
  ghost predicate Imports(p: Project, from: Path, to: Path) {
    p.imports(from).Some? &&
    exists i :: 0 <= i < |p.imports(from).value| && p.resolve(p.imports(from).value[i]) == Some(to)
  }

  /** A chain of imports. */
  ghost predicate IsChain(p: Project, chain: seq<Path>) {
    chain != [] && forall i :: 0 <= i < |chain| - 1 ==> Imports(p, chain[i], chain[i + 1])
  }

  ghost predicate Reaches(p: Project, from: Path, to: Path) {
    exists chain :: IsChain(p, chain) && chain[0] == from && chain[|chain| - 1] == to
  }

  lemma ReachesSelf(p: Project, f: Path)
    ensures Reaches(p, f, f)
  {
    assert IsChain(p, [f]);
  }

  lemma ReachesStep(p: Project, from: Path, mid: Path, to: Path)
    requires Imports(p, from, mid) && Reaches(p, mid, to)
    ensures Reaches(p, from, to)
  {
    hide Imports;
    var chain :| IsChain(p, chain) && chain[0] == mid && chain[|chain| - 1] == to;
    var longer := [from] + chain;
    forall i | 0 <= i < |longer| - 1 ensures Imports(p, longer[i], longer[i + 1]) {
      assert i > 0 ==> Imports(p, chain[i - 1], chain[i - 1 + 1]);
    }
    assert IsChain(p, longer);
  }

  /** The imports of every visited file are visited too, apart from files still open. */
  ghost predicate ClosedExcept(p: Project, visited: seq<Path>, open: set<Path>) {
    forall f, g :: f in visited && f !in open && Imports(p, f, g) ==> g in visited
  }

  /** A closed set holds everything its members reach. */
  lemma {:induction false} ClosedHoldsReachable(p: Project, visited: seq<Path>, chain: seq<Path>)
    requires ClosedExcept(p, visited, {}) && IsChain(p, chain) && chain[0] in visited
    ensures chain[|chain| - 1] in visited
  {
    if |chain| > 1 {
      assert Imports(p, chain[0], chain[1]);
      assert IsChain(p, chain[1..]);
      ClosedHoldsReachable(p, visited, chain[1..]);
    }
  }

  ghost predicate NoDuplicates(s: seq<Path>) {
    forall i, j :: 0 <= i < j < |s| ==> s[i] != s[j]
  }

  ghost function Members(s: seq<Path>): set<Path> {
    set f | f in s
  }

  method InList(file: Path, list: seq<Path>) returns (b: bool)
    ensures b <==> file in list
  {
    for i := 0 to |list|
      invariant file !in list[..i]
    {
      if list[i] == file { return true; }
      assert list[..i + 1] == list[..i] + [list[i]];
    }
    assert list[..|list|] == list;
    b := false;
  }

  /** The array of visited files that the recursion shares. */
  class Collector {
    const project: Project
    var visited: seq<Path>

    constructor (project: Project)
      ensures this.project == project && visited == []
    {
      this.project := project;
      visited := [];
    }

    /** Visits a file and, depth first, everything it imports.  `open` are the files
        whose imports are still being followed further up. */
    method Collect(path: Path, ghost open: set<Path>)
      requires Finite(project) && NoDuplicates(visited)
      requires Members(visited) <= project.files && open <= Members(visited)
      requires ClosedExcept(project, visited, open)
      modifies this
      ensures NoDuplicates(visited) && Members(visited) <= project.files
      ensures old(visited) <= visited && ClosedExcept(project, visited, open)
      ensures project.resolve(path).Some? ==> project.resolve(path).value in visited
      ensures forall f :: f in visited && f !in old(visited) ==>
        project.resolve(path).Some? && Reaches(project, project.resolve(path).value, f)
      decreases project.files - Members(visited), 1
    {
      var file := project.resolve(path);
      if file.None? {
        return;
      }
      var seen := InList(file.value, visited);
      if seen {
        return;
      }
      visited := visited + [file.value];
      assert Members(visited) == Members(old(visited)) + {file.value};
      assert file.value in project.files - Members(old(visited));
      ReachesSelf(project, file.value);
      if project.imports(file.value).Some? {
        Follow(file.value, project.imports(file.value).value, open + {file.value});
      }
    }

    /** Follows the imports of a file in order. */
    method Follow(file: Path, imports: seq<Path>, ghost open: set<Path>)
      requires Finite(project) && NoDuplicates(visited)
      requires Members(visited) <= project.files && open <= Members(visited)
      requires ClosedExcept(project, visited, open)
      requires project.imports(file) == Some(imports) && file in open
      modifies this
      ensures NoDuplicates(visited) && Members(visited) <= project.files
      ensures old(visited) <= visited && ClosedExcept(project, visited, open - {file})
      ensures forall f :: f in visited && f !in old(visited) ==> Reaches(project, file, f)
      decreases project.files - Members(visited), 2
    {
      for i := 0 to |imports|
        invariant NoDuplicates(visited) && Members(visited) <= project.files
        invariant old(visited) <= visited && ClosedExcept(project, visited, open)
        invariant open <= Members(visited)
        invariant forall f :: f in visited && f !in old(visited) ==> Reaches(project, file, f)
        invariant forall j :: 0 <= j < i && project.resolve(imports[j]).Some? ==>
          project.resolve(imports[j]).value in visited
      {
        ghost var before := visited;
        assert project.files - Members(visited) <= project.files - Members(old(visited));
        Collect(imports[i], open);
        forall f | f in visited && f !in before ensures Reaches(project, file, f) {
          var target := project.resolve(imports[i]).value;
          assert Imports(project, file, target);
          ReachesStep(project, file, target, f);
        }
      }
    }
  }

  /** One fresh search: exactly the files reachable from its start, each once. */
  method ReachableFiles(project: Project, path: Path) returns (visited: seq<Path>)
    requires Finite(project)
    ensures NoDuplicates(visited)
    ensures forall f :: f in visited <==> IsReachable(project, path, f)
  {
    var c := new Collector(project);
    c.Collect(path, {});
    visited := c.visited;
    forall f | IsReachable(project, path, f) ensures f in visited {
      var chain :| IsChain(project, chain) && chain[0] == project.resolve(path).value && chain[|chain| - 1] == f;
      ClosedHoldsReachable(project, visited, chain);
    }
  }

  ghost predicate IsReachable(p: Project, path: Path, f: Path) {
    p.resolve(path).Some? && Reaches(p, p.resolve(path).value, f)
  }

  /** A file some exposed module needs. */
  ghost predicate IsNeeded(p: Project, exposed: seq<Path>, f: Path) {
    exists i :: 0 <= i < |exposed| && IsReachable(p, exposed[i], f)
  }

  lemma NeededAppend(p: Project, exposed: seq<Path>, path: Path, f: Path)
    ensures IsNeeded(p, exposed + [path], f) <==> IsNeeded(p, exposed, f) || IsReachable(p, path, f)
  {
    var more := exposed + [path];
    assert more[|exposed|] == path;
    assert forall i :: 0 <= i < |exposed| ==> more[i] == exposed[i];
  }

  /** The source files that no exposed module needs, in listing order. */
  ghost function Unneeded(p: Project, exposed: seq<Path>, all: seq<Path>): seq<Path> {
    if all == [] then []
    else
      var n := |all| - 1;
      Unneeded(p, exposed, all[..n]) + if IsNeeded(p, exposed, all[n]) then [] else [all[n]]
  }

  /** Included: the duplicate-free union over the exposed modules, each searched with
      a visited array of its own.  Redundant: exactly the rest of the source files. */
  method Analyze(project: Project, exposed: seq<Path>, all: seq<Path>)
    returns (included: seq<Path>, redundant: seq<Path>)
    requires Finite(project)
    ensures NoDuplicates(included)
    ensures forall f :: f in included <==> IsNeeded(project, exposed, f)
    ensures redundant == Unneeded(project, exposed, all)
  {
    included := [];
    for i := 0 to |exposed|
      invariant NoDuplicates(included)
      invariant forall f :: f in included <==> IsNeeded(project, exposed[..i], f)
    {
      var visited := ReachableFiles(project, exposed[i]);
      var before := included;
      for j := 0 to |visited|
        invariant NoDuplicates(included)
        invariant forall f :: f in included <==> f in before || f in visited[..j]
      {
        var known := InList(visited[j], included);
        if !known {
          included := included + [visited[j]];
        }
        assert visited[..j + 1] == visited[..j] + [visited[j]];
      }
      assert visited[..|visited|] == visited;
      assert exposed[..i + 1] == exposed[..i] + [exposed[i]];
      forall f ensures f in included <==> IsNeeded(project, exposed[..i + 1], f) {
        NeededAppend(project, exposed[..i], exposed[i], f);
      }
    }
    assert exposed[..|exposed|] == exposed;
    redundant := [];
    for i := 0 to |all|
      invariant redundant == Unneeded(project, exposed, all[..i])
    {
      assert all[..i + 1][..i] == all[..i];
      var known := InList(all[i], included);
      if !known {
        redundant := redundant + [all[i]];
      }
    }
    assert all[..|all|] == all;
  }

  /** In listing order, each as often as it is listed. */
  lemma {:induction false} UnneededConcat(p: Project, exposed: seq<Path>, a: seq<Path>, b: seq<Path>)
    ensures Unneeded(p, exposed, a + b) == Unneeded(p, exposed, a) + Unneeded(p, exposed, b)
  {
    hide IsNeeded;
    if b == [] {
      assert a + b == a;
    } else {
      var n := |b| - 1;
      assert (a + b)[..|a| + n] == a + b[..n];
      UnneededConcat(p, exposed, a, b[..n]);
    }
  }

  /** Every source file is either needed or listed as redundant, never both. */
  lemma {:induction false} UnneededMembers(p: Project, exposed: seq<Path>, all: seq<Path>, f: Path)
    ensures f in Unneeded(p, exposed, all) <==> f in all && !IsNeeded(p, exposed, f)
  {
    if all != [] {
      var n := |all| - 1;
      UnneededMembers(p, exposed, all[..n], f);
      assert all == all[..n] + [all[n]];
    }
  }
}
