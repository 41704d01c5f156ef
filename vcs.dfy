/**
 * The parts of the Masterminds vcs library the pipeline drives, kept abstract: a repository
 * object over a shared disk. The disk records which local mirrors exist and which revision
 * each has checked out, and which vendor directories exist and which revision was exported
 * into each. What the remote and the version-control tool would answer (reachability, the
 * revision a clone or pull lands on, the tag and branch listings, which strings name
 * references, whether an export succeeds) is fixed when the repository is created.
 */
module Vcs {
  import opened Wrappers

  /** vcs.Type */
  datatype Kind = Git | Hg | Svn | Bzr

  /** The file system as the pipeline sees it. */
  class Disk {
    /** Local mirror path -> revision checked out there. */
    var mirrors: map<string, string>
    /** Vendor directory -> revision exported into it. */
    var vendor: map<string, string>

    constructor(mirrors: map<string, string>, vendor: map<string, string>)
      ensures this.mirrors == mirrors && this.vendor == vendor
    {
      this.mirrors := mirrors;
      this.vendor := vendor;
    }
  }

  /** What the tool and the remote answer for one repository. */
  datatype Facts = Facts(
    kind: Option<Kind>,                 // the detected type; None when NewRepo cannot tell
    reachable: bool,                    // whether Get and Update can reach the remote
    head: string,                       // the revision a fresh clone checks out
    pull: string -> string,             // the revision a pull lands on, from the current one
    tags: Result<seq<string>>,          // what Tags() returns
    branches: Result<seq<string>>,      // what Branches() returns
    references: set<string>,            // the strings IsReference accepts and UpdateVersion can check out
    exportOk: bool)                     // whether ExportDir succeeds

  /** vcs.Repo: a remote, the local mirror path, and the disk it works on. */
  class Repo {
    const remote: string
    const local: string
    const kind: Kind
    const facts: Facts
    const disk: Disk

    constructor(remote: string, local: string, kind: Kind, facts: Facts, disk: Disk)
      ensures this.remote == remote && this.local == local && this.kind == kind
      ensures this.facts == facts && this.disk == disk
    {
      this.remote := remote;
      this.local := local;
      this.kind := kind;
      this.facts := facts;
      this.disk := disk;
    }

    /** Exists(repo.LocalPath()) */
    predicate HasMirror()
      reads disk
    {
      local in disk.mirrors
    }

    /** The revision of the mirror, or "" when Current() fails (the callers drop its error). */
    function CurrentOrEmpty(): (rev: string)
      reads disk
      ensures HasMirror() ==> rev == disk.mirrors[local]
      ensures !HasMirror() ==> rev == ""
    {
      if local in disk.mirrors then disk.mirrors[local] else ""
    }

    /** Repo.Current */
    method Current() returns (r: Result<string>)
      ensures HasMirror() <==> r.Ok?
      ensures r.Ok? ==> r.value == disk.mirrors[local]
    {
      if local in disk.mirrors {
        r := Ok(disk.mirrors[local]);
      } else {
        r := Err("not a working copy: " + local);
      }
    }

    /** Repo.Get: clones the remote into a path that has no mirror yet. */
    method Get() returns (o: Outcome)
      modifies disk
      ensures o.Pass? <==> facts.reachable && !old(HasMirror())
      ensures o.Pass? ==> disk.mirrors == old(disk.mirrors)[local := facts.head]
      ensures o.Fail? ==> disk.mirrors == old(disk.mirrors)
      ensures disk.vendor == old(disk.vendor)
    {
      if facts.reachable && local !in disk.mirrors {
        disk.mirrors := disk.mirrors[local := facts.head];
        o := Pass;
      } else {
        o := Fail("unable to get repository " + remote);
      }
    }

    /** Repo.Update: pulls into an existing mirror. */
    method Update() returns (o: Outcome)
      modifies disk
      ensures o.Pass? <==> facts.reachable && old(HasMirror())
      ensures o.Pass? ==> disk.mirrors == old(disk.mirrors)[local := facts.pull(old(disk.mirrors)[local])]
      ensures o.Fail? ==> disk.mirrors == old(disk.mirrors)
      ensures disk.vendor == old(disk.vendor)
    {
      if facts.reachable && local in disk.mirrors {
        disk.mirrors := disk.mirrors[local := facts.pull(disk.mirrors[local])];
        o := Pass;
      } else {
        o := Fail("unable to update repository " + remote);
      }
    }

    /** Repo.IsReference */
    predicate IsReference(ver: string) {
      ver in facts.references
    }

    /** Repo.UpdateVersion: checks out a reference in the mirror. */
    method UpdateVersion(ver: string) returns (o: Outcome)
      modifies disk
      ensures o.Pass? <==> old(HasMirror()) && IsReference(ver)
      ensures o.Pass? ==> disk.mirrors == old(disk.mirrors)[local := ver]
      ensures o.Fail? ==> disk.mirrors == old(disk.mirrors)
      ensures disk.vendor == old(disk.vendor)
    {
      if local in disk.mirrors && ver in facts.references {
        disk.mirrors := disk.mirrors[local := ver];
        o := Pass;
      } else {
        o := Fail("unable to update checked out version " + ver);
      }
    }

    /** Repo.Tags */
    method Tags() returns (r: Result<seq<string>>)
      ensures r == facts.tags
    {
      r := facts.tags;
    }

    /** Repo.Branches */
    method Branches() returns (r: Result<seq<string>>)
      ensures r == facts.branches
    {
      r := facts.branches;
    }

    /** Repo.ExportDir: writes the checked-out revision into `dir`. */
    method ExportDir(dir: string) returns (o: Outcome)
      modifies disk
      ensures o.Pass? <==> facts.exportOk && old(HasMirror())
      ensures o.Pass? ==> disk.vendor == old(disk.vendor)[dir := old(disk.mirrors)[local]]
      ensures o.Fail? ==> disk.vendor == old(disk.vendor)
      ensures disk.mirrors == old(disk.mirrors)
    {
      if facts.exportOk && local in disk.mirrors {
        disk.vendor := disk.vendor[dir := disk.mirrors[local]];
        o := Pass;
      } else {
        o := Fail("unable to export to " + dir);
      }
    }
  }

  /**
   * The mirrors after the clone-or-update step of both Get variants (clone when the mirror
   * is absent, pull otherwise), or None when that step fails.
   */
  function Fetched(facts: Facts, local: string, mirrors: map<string, string>): (r: Option<map<string, string>>)
    ensures r.Some? <==> facts.reachable
    ensures r.Some? ==> r.value.Keys == mirrors.Keys + {local}
    ensures r.Some? ==> forall p :: p in mirrors && p != local ==> r.value[p] == mirrors[p]
    ensures r.Some? && local !in mirrors ==> r.value[local] == facts.head
    ensures r.Some? && local in mirrors ==> r.value[local] == facts.pull(mirrors[local])
  {
    if !facts.reachable then None
    else if local !in mirrors then Some(mirrors[local := facts.head])
    else Some(mirrors[local := facts.pull(mirrors[local])])
  }

  /** vcs.NewRepo: fails when the type of the remote cannot be detected. */
  method NewRepo(remote: string, local: string, facts: Facts, disk: Disk) returns (r: Result<Repo>)
    ensures r.Ok? <==> facts.kind.Some?
    ensures r.Ok? ==> fresh(r.value)
    ensures r.Ok? ==> r.value.remote == remote && r.value.local == local && r.value.kind == facts.kind.value
    ensures r.Ok? ==> r.value.facts == facts && r.value.disk == disk
  {
    if facts.kind.Some? {
      var repo := new Repo(remote, local, facts.kind.value, facts, disk);
      r := Ok(repo);
    } else {
      r := Err("cannot detect VCS");
    }
  }
}
