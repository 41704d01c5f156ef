/**
 * gpm/conf.go: the manifest. A Dependency is a record the pipeline updates in place; a
 * Config holds the list of imports, which AddDependency and DelDependency rewrite.
 * Reading and writing gpm.yaml is file I/O; only the repair loop run after loading is modelled.
 */
module Conf {
  import opened Wrappers
  import opened Strings

  /** Dependency; `versionLock` is the lock revision (declared `Reversion` in conf.go). */
  class Dependency {
    var name: string
    var version: string
    var repository: string
    var versionLock: string

    constructor(name: string, version: string)
      ensures this.name == name && this.version == version
      ensures repository == "" && versionLock == ""
    {
      this.name := name;
      this.version := version;
      repository := "";
      versionLock := "";
    }

    /** Dependency.Remote: the repository override, else the name fetched over https. */
    function Remote(): (r: string)
      reads this
      ensures repository != "" ==> r == repository
      ensures repository == "" ==> r == "https://" + name
    {
      if repository != "" then repository else "https://" + name
    }

    /** One step of the repair loop of Load: name@version is split with strings.Split. */
    method Repair()
      modifies this
      ensures (name, version) == Fix(old(name), old(version))
      ensures repository == old(repository) && versionLock == old(versionLock)
    {
      if version == "" && '@' in name {
        FixIsSplit(name);
        var tokens := Split(name, '@');
        name := tokens[0];
        version := tokens[1];
      }
    }
  }

  /**
   * The fields NewDependency gives a new dependency, or its error for a "git@" address:
   * the name is the text before the first '@' with one leading "https://" removed, the
   * version the text between the first and the second '@'.
   */
  function DependencyFields(repo: string): (r: Result<(string, string)>)
    ensures r.Err? <==> HasPrefix(repo, "git@")
    ensures r.Ok? ==> '@' !in r.value.0 && '@' !in r.value.1
    ensures r.Ok? && '@' !in repo ==> r.value == (TrimPrefix(repo, "https://"), "")
  {
    if HasPrefix(repo, "git@") then Err("not support git@")
    else
      var tokens := Split(repo, '@');
      var name := if '@' in repo then tokens[0] else repo;
      var version := if '@' in repo then tokens[1] else "";
      assert '@' !in TrimPrefix(name, "https://") by {
        assert TrimPrefix(name, "https://") == name[|name| - |TrimPrefix(name, "https://")|..];
      }
      Ok((TrimPrefix(name, "https://"), version))
  }

  /** name@version is taken apart again, with or without "https://" in front and with any later segments dropped. */
  lemma DependencyFieldsSplit(scheme: string, name: string, version: string, rest: string)
    requires scheme == "" || scheme == "https://"
    requires '@' !in name && '@' !in version && !HasPrefix(name, "https://")
    requires rest == "" || rest[0] == '@'
    requires !HasPrefix(scheme + name + "@" + version + rest, "git@")
    ensures DependencyFields(scheme + name + "@" + version + rest) == Ok((name, version))
  {
    var s := scheme + name + "@" + version + rest;
    var head := scheme + name;
    assert '@' !in head;
    assert s == head + "@" + (version + rest);
    assert s[..|head|] == head && s[|head| + 1..] == version + rest;
    IndexAt(s, '@', |head|);
    SplitSecond(s, '@');
    if rest != "" {
      assert (version + rest)[..|version|] == version;
      IndexAt(version + rest, '@', |version|);
    } else {
      assert version + rest == version;
    }
    assert Split(s, '@')[0] == head && Split(s, '@')[1] == version;
    if scheme == "https://" {
      assert HasPrefix(head, "https://") && head[|scheme|..] == name;
    } else {
      assert head == name;
    }
    assert TrimPrefix(head, "https://") == name;
  }

  /** A dependency added as an https address is fetched from that address again. */
  lemma RemoteRecoversAddress(repo: string)
    requires HasPrefix(repo, "https://") && '@' !in repo
    ensures DependencyFields(repo).Ok?
    ensures "https://" + DependencyFields(repo).value.0 == repo
  {
    assert !HasPrefix(repo, "git@") by { assert repo[0] == 'h'; }
  }

  /** NewDependency */
  method NewDependency(repo: string) returns (r: Result<Dependency>)
    ensures r.Err? <==> DependencyFields(repo).Err?
    ensures r.Ok? ==> fresh(r.value)
    ensures r.Ok? ==> (r.value.name, r.value.version) == DependencyFields(repo).value
    ensures r.Ok? ==> r.value.repository == "" && r.value.versionLock == ""
  {
    match DependencyFields(repo) {
      case Err(e) => r := Err(e);
      case Ok((name, version)) =>
        var dep := new Dependency(name, version);
        r := Ok(dep);
    }
  }

  /** The names of a list of dependencies, in order. */
  function NamesOf(deps: seq<Dependency>): (names: seq<string>)
    reads set d | d in deps
    ensures |names| == |deps|
    ensures forall i :: 0 <= i < |deps| ==> names[i] == deps[i].name
  {
    if deps == [] then [] else [deps[0].name] + NamesOf(deps[1..])
  }

  /** Taking the dependency at `i` out of the list takes its name out of the names. */
  lemma NamesOfRemove(deps: seq<Dependency>, i: nat)
    requires i < |deps|
    ensures NamesOf(deps[..i] + deps[i + 1..]) == NamesOf(deps)[..i] + NamesOf(deps)[i + 1..]
  {
    var r := deps[..i] + deps[i + 1..];
    var names := NamesOf(deps);
    var expected := names[..i] + names[i + 1..];
    var got := NamesOf(r);
    assert |got| == |expected|;
    forall j | 0 <= j < |r|
      ensures got[j] == expected[j]
    {
      if j < i {
        assert r[j] == deps[j] && expected[j] == names[j];
      } else {
        assert r[j] == deps[j + 1] && expected[j] == names[j + 1];
      }
    }
  }

  /** No dependency has the name, so neither do the names. */
  lemma NotListed(deps: seq<Dependency>, n: string)
    requires forall j :: 0 <= j < |deps| ==> deps[j].name != n
    ensures n !in NamesOf(deps)
  {
    var names := NamesOf(deps);
    forall j | 0 <= j < |names| ensures names[j] != n {
      assert names[j] == deps[j].name;
    }
  }

  /** Taking out the first dependency with the name takes out the first occurrence of the name. */
  lemma RemoveFirstListed(deps: seq<Dependency>, n: string, i: nat)
    requires i < |deps| && deps[i].name == n && forall j :: 0 <= j < i ==> deps[j].name != n
    ensures n in NamesOf(deps) && FirstIndex(NamesOf(deps), n) == i
    ensures NamesOf(deps[..i] + deps[i + 1..]) == RemovedFirst(NamesOf(deps), n)
  {
    var names := NamesOf(deps);
    assert n !in names[..i] by {
      forall j | 0 <= j < i ensures names[..i][j] != n {
        assert names[..i][j] == deps[j].name;
      }
    }
    IndexFirst(names, n, i);
    NamesOfRemove(deps, i);
  }

  /** The loop of HasDependency: whether some dependency of the list has the name. */
  function Listed(deps: seq<Dependency>, name: string): (found: bool)
    reads set d | d in deps
    ensures found <==> exists i :: 0 <= i < |deps| && deps[i].name == name
  {
    if deps == [] then false
    else deps[0].name == name || Listed(deps[1..], name)
  }

  /** No name occurs twice. */
  predicate Unique(names: seq<string>) {
    forall i, j :: 0 <= i < j < |names| ==> names[i] != names[j]
  }

  /** The position of the first occurrence of `name`. */
  function FirstIndex(names: seq<string>, name: string): (k: nat)
    requires name in names
    ensures k < |names| && names[k] == name && name !in names[..k]
  {
    if names[0] == name then 0
    else
      var k := FirstIndex(names[1..], name);
      assert names[1..][..k] == names[1..k + 1];
      k + 1
  }

  /** The names after AddDependency: `name` appended unless it is already there. */
  function Added(names: seq<string>, name: string): seq<string> {
    if name in names then names else names + [name]
  }

  /** The names after DelDependency: the first occurrence of `name` taken out, the rest in order. */
  function RemovedFirst(names: seq<string>, name: string): seq<string> {
    if name in names then names[..FirstIndex(names, name)] + names[FirstIndex(names, name) + 1..] else names
  }

  /** AddDependency is idempotent on the names. */
  lemma AddedIdempotent(names: seq<string>, name: string)
    ensures Added(Added(names, name), name) == Added(names, name)
    ensures name in Added(names, name)
  {
  }

  /** AddDependency keeps the names unique. */
  lemma AddedKeepsUnique(names: seq<string>, name: string)
    requires Unique(names)
    ensures Unique(Added(names, name))
  {
    if name !in names {
      var r := names + [name];
      forall i, j | 0 <= i < j < |r| ensures r[i] != r[j] {
        if j == |names| { assert r[i] == names[i]; }
      }
    }
  }

  /** DelDependency keeps the names unique, and on unique names it takes the name out entirely. */
  lemma RemovedFirstKeepsUnique(names: seq<string>, name: string)
    requires Unique(names)
    ensures Unique(RemovedFirst(names, name))
    ensures name !in RemovedFirst(names, name)
  {
    if name in names {
      var k := FirstIndex(names, name);
      var r := names[..k] + names[k + 1..];
      assert forall i :: 0 <= i < |r| ==> r[i] == if i < k then names[i] else names[i + 1];
      forall i, j | 0 <= i < j < |r| ensures r[i] != r[j] {
        var i', j' := if i < k then i else i + 1, if j < k then j else j + 1;
        assert r[i] == names[i'] && r[j] == names[j'] && i' < j';
      }
      forall i | 0 <= i < |r| ensures r[i] != name {
        var i' := if i < k then i else i + 1;
        assert r[i] == names[i'] && i' != k;
      }
    }
  }

  /** Deleting a dependency that was just added gives back the names from before. */
  lemma AddThenRemove(names: seq<string>, name: string)
    requires name !in names
    ensures RemovedFirst(Added(names, name), name) == names
  {
    var r := names + [name];
    assert r[|names|] == name;
    assert r[..|names|] == names;
    assert name !in r[..|names|];
    IndexFirst(r, name, |names|);
  }

  /** The first occurrence is the one with no earlier copy. */
  lemma IndexFirst(names: seq<string>, name: string, k: nat)
    requires k < |names| && names[k] == name && name !in names[..k]
    ensures FirstIndex(names, name) == k
  {
  }

  /**
   * The repair applied to each dependency after loading: a name with an '@' and no version
   * is split into the text before the first '@' and the text up to the next one.
   */
  function Fix(name: string, version: string): (r: (string, string))
    ensures version != "" || '@' !in name ==> r == (name, version)
    ensures version == "" && '@' in name ==>
      && '@' !in r.0 && '@' !in r.1
      && |r.0| + 1 + |r.1| <= |name| && name[..|r.0| + 1 + |r.1|] == r.0 + "@" + r.1
      && (|r.0| + 1 + |r.1| == |name| || name[|r.0| + 1 + |r.1|] == '@')
  {
    if version == "" && '@' in name then
      var k := Index(name, '@');
      var rest := name[k + 1..];
      var second := if '@' in rest then rest[..Index(rest, '@')] else rest;
      SplitShape(name, k, rest, second);
      (name[..k], second)
    else (name, version)
  }

  /** A piece that starts after the '@' at `k` and runs up to the next '@' or the end. */
  lemma SplitShape(name: string, k: nat, rest: string, second: string)
    requires k < |name| && name[k] == '@' && rest == name[k + 1..]
    requires |second| <= |rest| && rest[..|second|] == second
    requires |second| == |rest| || rest[|second|] == '@'
    ensures k + 1 + |second| <= |name| && name[..k + 1 + |second|] == name[..k] + "@" + second
    ensures k + 1 + |second| == |name| || name[k + 1 + |second|] == '@'
  {
    PrefixThrough(name, k, second);
  }

  /** The text up to an '@' at `k`, the '@', and the next `|second|` characters. */
  lemma PrefixThrough(name: string, k: nat, second: string)
    requires k < |name| && name[k] == '@'
    requires k + 1 + |second| <= |name| && name[k + 1..][..|second|] == second
    ensures name[..k + 1 + |second|] == name[..k] + "@" + second
  {
    assert name[k + 1..k + 1 + |second|] == second;
  }

  /** The repair is what the loop computes with strings.Split: tokens[0] and tokens[1]. */
  lemma FixIsSplit(name: string)
    requires '@' in name
    ensures Fix(name, "") == (Split(name, '@')[0], Split(name, '@')[1])
  {
    SplitSecond(name, '@');
  }

  /** Repairing twice is repairing once, so a dependency listed twice is repaired once. */
  lemma FixIdempotent(name: string, version: string)
    ensures Fix(Fix(name, version).0, Fix(name, version).1) == Fix(name, version)
  {
  }

  /** Config: the manifest; the imports are shared Dependency objects. */
  class Config {
    var name: string
    var version: string
    var imports: seq<Dependency>

    /** NewConfig and init: a new manifest has version 0.0.0 and no imports. */
    constructor()
      ensures name == "" && version == "0.0.0" && imports == []
    {
      name := "";
      version := "0.0.0";
      imports := [];
    }

    /** The names of the imports, in order. */
    function Names(): seq<string>
      reads this, set d | d in imports
    {
      NamesOf(imports)
    }

    /** HasDependency: some import has the name. */
    function HasDependency(n: string): (found: bool)
      reads this, set d | d in imports
      ensures found <==> n in Names()
    {
      Listed(imports, n)
    }

    /** DelDependency: removes the first import with the name and keeps the others in order. */
    method DelDependency(n: string) returns (removed: bool)
      modifies this
      ensures removed <==> n in old(Names())
      ensures removed ==> imports == old(imports[..FirstIndex(Names(), n)] + imports[FirstIndex(Names(), n) + 1..])
      ensures !removed ==> imports == old(imports)
      ensures Names() == RemovedFirst(old(Names()), n)
      ensures name == old(name) && version == old(version)
    {
      var i := 0;
      while i < |imports| && imports[i].name != n
        invariant i <= |imports|
        invariant forall j :: 0 <= j < i ==> imports[j].name != n
      {
        i := i + 1;
      }
      if i == |imports| {
        NotListed(imports, n);
        return false;
      }
      RemoveFirstListed(imports, n, i);
      imports := imports[..i] + imports[i + 1..];
      return true;
    }

    /** AddDependency: appends the dependency unless an import already has its name. */
    method AddDependency(dep: Dependency)
      modifies this
      ensures imports == if old(HasDependency(dep.name)) then old(imports) else old(imports) + [dep]
      ensures Names() == Added(old(Names()), dep.name)
      ensures name == old(name) && version == old(version)
    {
      if !HasDependency(dep.name) {
        imports := imports + [dep];
        assert NamesOf(imports) == old(NamesOf(imports)) + [dep.name];
      }
    }

    /** The repair loop of Load, over every import; a dependency listed twice is repaired once. */
    method FixImports()
      modifies set d | d in imports
      ensures forall d :: d in imports ==> (d.name, d.version) == Fix(old(d.name), old(d.version))
      ensures forall d :: d in imports ==> d.repository == old(d.repository) && d.versionLock == old(d.versionLock)
    {
      ghost var done: set<Dependency> := {};
      for i := 0 to |imports|
        invariant forall j :: 0 <= j < i ==> imports[j] in done
        invariant forall d :: d in done ==> d in imports && (d.name, d.version) == Fix(old(d.name), old(d.version))
        invariant forall d :: d in imports && d !in done ==> d.name == old(d.name) && d.version == old(d.version)
        invariant forall d :: d in imports ==> d.repository == old(d.repository) && d.versionLock == old(d.versionLock)
      {
        var dep := imports[i];
        if dep in done {
          FixIdempotent(old(dep.name), old(dep.version));
        }
        dep.Repair();
        done := done + {dep};
      }
      forall d | d in imports
        ensures (d.name, d.version) == Fix(old(d.name), old(d.version))
      {
        var j :| 0 <= j < |imports| && imports[j] == d;
      }
    }
  }
}
