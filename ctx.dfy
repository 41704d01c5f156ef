/**
 * gpm/ctx.go: the context that drives a dependency from its remote into the vendor tree.
 * It derives the cache path of a remote, clones or updates the mirror, picks a default
 * version for a new dependency, resolves the version constraint to a reference, checks
 * out the lock, and exports the checkout when it changed. It also finds and caches GOPATH.
 * The process calls (git ls-remote, os.Getwd, os.Stat, os.Chdir) are inputs.
 */
module Ctx {
  import opened Wrappers
  import opened Strings
  import opened Semver
  import opened Vcs
  import opened Resolve
  import Conf
  import Util
  import Paths

  /** GetModeInit, GetModeUpdate, GetModeInstall */
  datatype Mode = Init | Update | Install

  /** The base names findGoPath accepts. */
  const GoPathMarks: set<string> := {"src", "bin", "pkg"}

  /** GetAllRefs: the tags followed by the branches, or the first error. */
  function AllRefs(tags: Result<seq<string>>, branches: Result<seq<string>>): (r: Result<seq<string>>)
    ensures r.Ok? <==> tags.Ok? && branches.Ok?
    ensures r.Ok? ==> r.value == tags.value + branches.value
    ensures tags.Err? ==> r == Err(tags.error)
    ensures tags.Ok? && branches.Err? ==> r == Err(branches.error)
  {
    match tags
    case Err(e) => Err(e)
    case Ok(ts) =>
      match branches
      case Err(e) => Err(e)
      case Ok(bs) => Ok(ts + bs)
  }

  /** The whitespace of RE2's `\S`: tab, newline, form feed, carriage return and space. */
  const RegexSpace: set<char> := {'\t', '\n', '\U{C}', '\r', ' '}

  /** `tags/` starts at position `p` and is followed by a non-empty rest without whitespace. */
  predicate TagAt(s: string, p: nat) {
    && p + 5 < |s| && s[p..p + 5] == "tags/"
    && forall k :: p + 5 <= k < |s| ==> s[k] !in RegexSpace
  }

  /** The leftmost position from `p` on where `(?:tags)/(\S+)$` matches. */
  function TagStart(s: string, p: nat): (q: Option<nat>)
    requires p <= |s|
    ensures q.Some? ==> p <= q.value < |s|
    decreases |s| - p
  {
    if p == |s| then None
    else if TagAt(s, p) then Some(p)
    else TagStart(s, p + 1)
  }

  /** The search finds the leftmost match, and finds none only when there is none. */
  lemma {:induction false} TagStartLeftmost(s: string, p: nat)
    requires p <= |s|
    ensures TagStart(s, p).Some? ==> TagAt(s, TagStart(s, p).value)
    ensures TagStart(s, p).Some? ==> forall r :: p <= r < TagStart(s, p).value ==> !TagAt(s, r)
    ensures TagStart(s, p).None? ==> forall r :: p <= r < |s| ==> !TagAt(s, r)
    decreases |s| - p
  {
    if p < |s| && !TagAt(s, p) {
      TagStartLeftmost(s, p + 1);
    }
  }

  /** pattern.FindString on one trimmed line: the leftmost match, or "". */
  function ListedTag(line: string): string
  {
    match TagStart(line, 0)
    case None => ""
    case Some(p) => line[p..]
  }

  /** A line yields a match exactly when the pattern matches somewhere, and then the leftmost one. */
  lemma ListedTagLeftmost(line: string)
    ensures ListedTag(line) == "" <==> forall p :: 0 <= p < |line| ==> !TagAt(line, p)
    ensures ListedTag(line) != "" ==> HasPrefix(ListedTag(line), "tags/")
    ensures ListedTag(line) != "" ==>
      exists p :: 0 <= p < |line| && TagAt(line, p) && ListedTag(line) == line[p..] && (forall r :: 0 <= r < p ==> !TagAt(line, r))
  {
    TagStartLeftmost(line, 0);
    if TagStart(line, 0).Some? {
      var p := TagStart(line, 0).value;
      assert line[p..][..5] == line[p..p + 5];
    }
  }

  /** The tag name in a match: without a trailing "^{}", then without the leading "tags/". */
  function TagName(found: string): string {
    TrimPrefix(TrimSuffix(found, "^{}"), "tags/")
  }

  /** A line of the listing that the pattern matches after TrimSpace. */
  predicate Matches(line: string) {
    ListedTag(TrimSpace(line)) != ""
  }

  /** The value of lastVersion after the loop over the lines of the listing. */
  function LastListedTag(lines: seq<string>): string
    decreases |lines|
  {
    if lines == [] then ""
    else if Matches(lines[|lines| - 1]) then TagName(ListedTag(TrimSpace(lines[|lines| - 1])))
    else LastListedTag(lines[..|lines| - 1])
  }

  /** The last matching line decides; with no matching line the result is "". */
  lemma LastListedTagIsLast(lines: seq<string>)
    ensures (forall k :: 0 <= k < |lines| ==> !Matches(lines[k])) ==> LastListedTag(lines) == ""
    ensures forall k :: 0 <= k < |lines| && Matches(lines[k]) && (forall j :: k < j < |lines| ==> !Matches(lines[j])) ==>
      LastListedTag(lines) == TagName(ListedTag(TrimSpace(lines[k])))
  {
    forall k | 0 <= k < |lines| && Matches(lines[k]) && (forall j :: k < j < |lines| ==> !Matches(lines[j]))
      ensures LastListedTag(lines) == TagName(ListedTag(TrimSpace(lines[k])))
    {
      LastListedAt(lines, k);
    }
    if forall k :: 0 <= k < |lines| ==> !Matches(lines[k]) {
      NoneListed(lines);
    }
  }

  /** Without a matching line the scan keeps "". */
  lemma {:induction false} NoneListed(lines: seq<string>)
    requires forall k :: 0 <= k < |lines| ==> !Matches(lines[k])
    ensures LastListedTag(lines) == ""
    decreases |lines|
  {
    if lines != [] {
      var init := lines[..|lines| - 1];
      assert forall k :: 0 <= k < |init| ==> init[k] == lines[k];
      NoneListed(init);
    }
  }

  /** The matching line at `k`, with none after it, gives the result. */
  lemma {:induction false} LastListedAt(lines: seq<string>, k: nat)
    requires k < |lines| && Matches(lines[k])
    requires forall j :: k < j < |lines| ==> !Matches(lines[j])
    ensures LastListedTag(lines) == TagName(ListedTag(TrimSpace(lines[k])))
    decreases |lines|
  {
    if k < |lines| - 1 {
      var init := lines[..|lines| - 1];
      assert !Matches(lines[|lines| - 1]);
      assert forall j :: k <= j < |init| ==> init[j] == lines[j];
      LastListedAt(init, k);
    }
  }

  /** One more line of the listing. */
  lemma LastListedTagStep(lines: seq<string>, i: nat)
    requires i < |lines|
    ensures LastListedTag(lines[..i + 1]) ==
      if Matches(lines[i]) then TagName(ListedTag(TrimSpace(lines[i]))) else LastListedTag(lines[..i])
  {
    assert lines[..i + 1][..i] == lines[..i];
  }

  /** The line scan of UpdateSemver over `git ls-remote` output. */
  method ScanListing(out: string) returns (lastVersion: string)
    ensures lastVersion == LastListedTag(Split(out, '\n'))
  {
    var lines := Split(out, '\n');
    lastVersion := "";
    for i := 0 to |lines|
      invariant lastVersion == LastListedTag(lines[..i])
    {
      LastListedTagStep(lines, i);
      var found := ListedTag(TrimSpace(lines[i]));
      if found != "" {
        lastVersion := TagName(found);
      }
    }
    assert lines[..|lines|] == lines;
  }

  /** The last tag of a listing, or "" for none. */
  function LastTag(tags: seq<string>): string {
    if tags == [] then "" else tags[|tags| - 1]
  }

  /**
   * The version UpdateSemver settles on, or an error: for git the last listed tag of the
   * ls-remote output; otherwise, after the mirror is fetched, the last tag.
   */
  function LastVersion(kind: Kind, facts: Facts, local: string, mirrors: map<string, string>, listing: Result<string>): Result<string> {
    if kind == Git then
      match listing
      case Err(e) => Err(e)
      case Ok(out) => Ok(LastListedTag(Split(out, '\n')))
    else if Fetched(facts, local, mirrors).None? then Err("fetch failed")
    else
      match facts.tags
      case Err(e) => Err(e)
      case Ok(ts) => Ok(LastTag(ts))
  }

  /** The version written into the manifest: "~" and the normalised semver, or the text as it is. */
  function DefaultVersion<V(!new)>(lib: Lib<V>, last: string): (v: string)
    ensures lib.parse(last).Some? ==> v == "~" + lib.str(lib.parse(last).value)
    ensures lib.parse(last).None? ==> v == last
  {
    match lib.parse(last)
    case Some(sv) => "~" + lib.str(sv)
    case None => last
  }

  /** A tag that is a semantic version is pinned with "~", any other tag literally. */
  lemma DefaultVersionPins<V(!new)>(lib: Lib<V>, last: string)
    requires lib.Valid() && last != ""
    ensures DefaultVersion(lib, last) != ""
    ensures HasPrefix(DefaultVersion(lib, last), "~") || DefaultVersion(lib, last) == last
  {
  }

  /** GetOrUpdateRepo: clone when the mirror is absent, update otherwise. */
  method GetOrUpdateRepo(repo: Repo) returns (o: Outcome)
    modifies repo.disk
    ensures o.Pass? <==> Fetched(repo.facts, repo.local, old(repo.disk.mirrors)).Some?
    ensures repo.disk.mirrors ==
      if o.Pass? then Fetched(repo.facts, repo.local, old(repo.disk.mirrors)).value else old(repo.disk.mirrors)
    ensures repo.disk.vendor == old(repo.disk.vendor)
  {
    if !repo.HasMirror() {
      o := repo.Get();
    } else {
      o := repo.Update();
    }
  }

  /** GetAllRefs */
  method GetAllRefs(repo: Repo) returns (refs: Result<seq<string>>)
    ensures refs == AllRefs(repo.facts.tags, repo.facts.branches)
  {
    var tags := repo.Tags();
    if tags.Err? {
      return Err(tags.error);
    }
    var branches := repo.Branches();
    if branches.Err? {
      return Err(branches.error);
    }
    return Ok(tags.value + branches.value);
  }

  /** The lines 217-249 of UpdateSemver: the last version, from the listing or from the fetched tags. */
  method FindLastVersion(repo: Repo, listing: Result<string>) returns (r: Result<string>)
    modifies repo.disk
    ensures var lv := LastVersion(repo.kind, repo.facts, repo.local, old(repo.disk.mirrors), listing);
      r.Ok? == lv.Ok? && (r.Ok? ==> r.value == lv.value)
    ensures var f := Fetched(repo.facts, repo.local, old(repo.disk.mirrors));
      repo.disk.mirrors == if repo.kind != Git && f.Some? then f.value else old(repo.disk.mirrors)
    ensures repo.disk.vendor == old(repo.disk.vendor)
  {
    if repo.kind == Git {
      if listing.Err? {
        return Err(listing.error);
      }
      var last := ScanListing(listing.value);
      return Ok(last);
    }
    var fetched := GetOrUpdateRepo(repo);
    if fetched.Fail? {
      return Err(fetched.error);
    }
    var tags := repo.Tags();
    if tags.Err? {
      return Err(tags.error);
    }
    return Ok(LastTag(tags.value));
  }

  /**
   * UpdateSemver: for a dependency without a version, the last tag becomes its version
   * ("~" and the normalised semver, or the tag itself) and its lock.
   */
  method UpdateSemver<V(!new)>(lib: Lib<V>, dep: Conf.Dependency, repo: Repo, listing: Result<string>) returns (o: Outcome)
    modifies dep, repo.disk
    ensures old(dep.version) != "" ==>
      o.Pass? && dep.version == old(dep.version) && dep.versionLock == old(dep.versionLock)
    ensures old(dep.version) == "" ==>
      var lv := LastVersion(repo.kind, repo.facts, repo.local, old(repo.disk.mirrors), listing);
      && (o.Pass? <==> lv.Ok? && lv.value != "")
      && (o.Pass? ==> dep.version == DefaultVersion(lib, lv.value) && dep.versionLock == lv.value)
      && (o.Fail? ==> dep.version == old(dep.version) && dep.versionLock == old(dep.versionLock))
    ensures var f := Fetched(repo.facts, repo.local, old(repo.disk.mirrors));
      repo.disk.mirrors == if old(dep.version) == "" && repo.kind != Git && f.Some? then f.value else old(repo.disk.mirrors)
    ensures dep.name == old(dep.name) && dep.repository == old(dep.repository)
    ensures repo.disk.vendor == old(repo.disk.vendor)
  {
    if dep.version != "" {
      return Pass;
    }
    var last := FindLastVersion(repo, listing);
    if last.Err? {
      return Fail(last.error);
    }
    if last.value == "" {
      return Fail("cannot find last version:" + repo.remote);
    }
    dep.version := DefaultVersion(lib, last.value);
    dep.versionLock := last.value;
    return Pass;
  }

  /**
   * UpdateVersion: resolves the dependency's version against the repository, checks the
   * choice out, and records a picked reference as the lock.
   */
  method UpdateVersion<V(!new)>(lib: Lib<V>, dep: Conf.Dependency, repo: Repo) returns (o: Outcome)
    modifies dep, repo.disk
    ensures var d := Decide(lib, old(dep.version), repo.IsReference(old(dep.version)), AllRefs(repo.facts.tags, repo.facts.branches));
      && Resolved(d, o, repo, old(repo.disk.mirrors), repo.disk.mirrors)
      && dep.versionLock == if d.Pick? && o.Pass? then d.ref else old(dep.versionLock)
    ensures dep.name == old(dep.name) && dep.version == old(dep.version) && dep.repository == old(dep.repository)
    ensures repo.disk.vendor == old(repo.disk.vendor)
  {
    var ver := dep.version;
    if repo.IsReference(ver) && !HasPrefix(ver, "^") {
      o := repo.UpdateVersion(ver);
      return;
    }
    var constraint := lib.constraint(ver);
    if constraint.None? {
      return Fail("invalid constraint: " + ver);
    }
    var refs := GetAllRefs(repo);
    if refs.Err? {
      return Fail(refs.error);
    }
    var found := SelectVersion(lib, constraint.value, refs.value);
    if found == "" {
      return Pass;
    }
    o := repo.UpdateVersion(found);
    if o.Fail? {
      return;
    }
    if found != dep.versionLock {
      dep.versionLock := found;
    }
  }

  /** Ctx: the directories the pipeline works in, and the cached GOPATH. */
  class Ctx {
    var homeDir: string
    var cacheDir: string
    var workDir: string
    var vendorDir: string
    var gopath: string

    /** NewCtx and init: `home` is what Home() returned and `wd` what os.Getwd returned. */
    constructor(home: string, wd: string)
      ensures homeDir == home && cacheDir == ".gpm" && workDir == wd && vendorDir == "vendor" && gopath == ""
    {
      homeDir := home;
      cacheDir := ".gpm";
      workDir := wd;
      vendorDir := "vendor";
      gopath := "";
    }

    /** GetCacheLocal: the key of the remote under the cache directory. */
    function GetCacheLocal(repo: string, parsed: Result<Util.Url>): (r: Result<string>)
      reads this
      ensures Util.RepoKey(repo, parsed).Err? ==> r == Err(Util.RepoKey(repo, parsed).error)
      ensures Util.RepoKey(repo, parsed).Ok? ==> r == Ok(Paths.Join([cacheDir, Util.RepoKey(repo, parsed).value]))
    {
      match Util.RepoKey(repo, parsed)
      case Err(e) => Err(e)
      case Ok(key) => Ok(Paths.Join([cacheDir, key]))
    }

    /** The export directory of a dependency: filepath.Abs of vendor/<name>, from the working directory. */
    function VendorTarget(name: string): string
      reads this
    {
      Paths.Join([workDir, Paths.Join([vendorDir, name])])
    }

    /** findGoPath */
    method FindGoPath(wd: Result<string>, srcIsDir: bool) returns (p: string)
      ensures p == Paths.GoPathFor(wd, srcIsDir, GoPathMarks)
      ensures wd.Ok? && !srcIsDir && p != "" ==>
        exists n :: 0 <= n < 3 && p == Paths.Dir(Paths.Ancestor(wd.value, n)) && Paths.Base(Paths.Ancestor(wd.value, n)) in GoPathMarks
    {
      p := Paths.FindGoPath(wd, srcIsDir, GoPathMarks);
    }

    /** GoPath: the cached GOPATH, found and cached when there is none yet. */
    method GoPath(wd: Result<string>, srcIsDir: bool) returns (p: string)
      modifies this
      ensures old(gopath) != "" ==> p == old(gopath)
      ensures old(gopath) == "" ==> p == Paths.GoPathFor(wd, srcIsDir, GoPathMarks)
      ensures gopath == p
      ensures homeDir == old(homeDir) && cacheDir == old(cacheDir) && workDir == old(workDir) && vendorDir == old(vendorDir)
    {
      if gopath != "" {
        return gopath;
      }
      gopath := FindGoPath(wd, srcIsDir);
      return gopath;
    }

    /** SetWorkDir: a new working directory, and the cached GOPATH forgotten. */
    method SetWorkDir(wd: string)
      modifies this
      ensures workDir == wd && gopath == ""
      ensures homeDir == old(homeDir) && cacheDir == old(cacheDir) && vendorDir == old(vendorDir)
    {
      workDir := wd;
      gopath := "";
    }

    /**
     * Get: fetch the dependency into its cache mirror, settle its version, check out the
     * lock, and export the mirror into the vendor tree when the revision changed or the
     * vendor directory is missing. The outputs after `o` name the revision before the
     * fetch, the revision at the end, and whether an export was attempted.
     */
    method Get<V(!new)>(lib: Lib<V>, dep: Conf.Dependency, mode: Mode, parsed: Result<Util.Url>,
                        facts: Facts, disk: Disk, listing: Result<string>)
      returns (o: Outcome, ghost oldVersion: string, ghost curVersion: string, ghost exported: bool)
      modifies dep, disk
      ensures dep.name == old(dep.name) && dep.repository == old(dep.repository)
      ensures mode == Install ==> dep.version == old(dep.version) && dep.versionLock == old(dep.versionLock)
      ensures GetCacheLocal(old(dep.name), parsed).Err? ==>
        o == Fail(GetCacheLocal(old(dep.name), parsed).error) && !exported
      ensures GetCacheLocal(old(dep.name), parsed).Ok? ==>
        var local := GetCacheLocal(old(dep.name), parsed).value;
        var fetched := Fetched(facts, local, old(disk.mirrors));
        && (facts.kind.None? ==> o == Fail("repo create fail") && !exported)
        && (facts.kind.Some? && fetched.None? ==> o == Fail("update repo fail") && !exported)
        && (facts.kind.Some? ==> oldVersion == if local in old(disk.mirrors) then old(disk.mirrors)[local] else "")
        && (facts.kind.Some? && fetched.Some? ==>
              var settled := Settled(lib, mode, facts.kind.value, facts, local, listing,
                                     Settlement(old(dep.version), old(dep.versionLock), fetched.value));
              && dep.version == settled.version && dep.versionLock == settled.lock
              && disk.mirrors == settled.mirrors
              && local in disk.mirrors && curVersion == disk.mirrors[local]
              && (exported <==> oldVersion != curVersion || VendorTarget(old(dep.name)) !in old(disk.vendor))
              && (exported ==> (o.Pass? <==> facts.exportOk))
              && (!exported ==> o.Pass?))
      ensures !exported ==> disk.vendor == old(disk.vendor)
      ensures exported && o.Pass? ==> disk.vendor == old(disk.vendor)[VendorTarget(old(dep.name)) := curVersion]
      ensures exported && o.Fail? ==> o == Fail("repo export fail") && disk.vendor == old(disk.vendor)
      ensures !exported && o.Fail? ==> disk.mirrors == old(disk.mirrors) && dep.version == old(dep.version) && dep.versionLock == old(dep.versionLock)
    {
      exported := false;
      oldVersion, curVersion := "", "";
      var local := GetCacheLocal(dep.name, parsed);
      if local.Err? {
        return Fail(local.error), oldVersion, curVersion, exported;
      }
      var made := NewRepo(dep.Remote(), local.value, facts, disk);
      if made.Err? {
        return Fail("repo create fail"), oldVersion, curVersion, exported;
      }
      var repo := made.value;
      var before := repo.CurrentOrEmpty();
      oldVersion := before;
      var fetched := GetOrUpdateRepo(repo);
      if fetched.Fail? {
        return Fail("update repo fail"), oldVersion, curVersion, exported;
      }
      var absDir := VendorTarget(dep.name);
      SettledKeeps(lib, mode, repo.kind, facts, local.value, listing, Settlement(dep.version, dep.versionLock, disk.mirrors));
      Settle(lib, dep, mode, repo, listing);
      var exportFailed;
      curVersion, exported, exportFailed := ExportIfChanged(repo, before, absDir);
      if exportFailed {
        return Fail("repo export fail"), oldVersion, curVersion, exported;
      }
      return Pass, oldVersion, curVersion, exported;
    }
  }

  /** What the version steps of Get change: the dependency's version and lock, and the mirrors. */
  datatype Settlement = Settlement(version: string, lock: string, mirrors: map<string, string>)

  /** UpdateSemver on a settlement: a missing version becomes the default of the last tag, which is also the lock. */
  function SemverStep<V(!new)>(lib: Lib<V>, kind: Kind, facts: Facts, local: string, listing: Result<string>, s: Settlement): Settlement {
    if s.version != "" then s
    else
      var lv := LastVersion(kind, facts, local, s.mirrors, listing);
      var f := Fetched(facts, local, s.mirrors);
      var m := if kind != Git && f.Some? then f.value else s.mirrors;
      if lv.Ok? && lv.value != "" then Settlement(DefaultVersion(lib, lv.value), lv.value, m)
      else Settlement(s.version, s.lock, m)
  }

  /** UpdateVersion on a settlement: the decision is checked out, and a picked reference that was checked out becomes the lock. */
  function ResolveStep<V(!new)>(lib: Lib<V>, facts: Facts, local: string, s: Settlement): Settlement {
    var d := Decide(lib, s.version, s.version in facts.references, AllRefs(facts.tags, facts.branches));
    var picked := d.Pick? && local in s.mirrors && d.ref in facts.references;
    Settlement(s.version, if picked then d.ref else s.lock, CheckedOut(d, facts.references, local, s.mirrors))
  }

  /** The lock checkout on a settlement: a present mirror not at a known lock is moved to it and pulled when reachable. */
  function LockStep(facts: Facts, local: string, s: Settlement): Settlement {
    var m := s.mirrors;
    var moved := s.lock != "" && local in m && m[local] != s.lock && s.lock in facts.references;
    Settlement(s.version, s.lock, if moved then m[local := if facts.reachable then facts.pull(s.lock) else s.lock] else m)
  }

  /** Lines 360-387 of Get: UpdateSemver in Init mode, UpdateVersion in Init and Update mode, then the lock checkout. */
  function Settled<V(!new)>(lib: Lib<V>, mode: Mode, kind: Kind, facts: Facts, local: string, listing: Result<string>, s: Settlement): Settlement {
    var s1 := if mode == Init then SemverStep(lib, kind, facts, local, listing, s) else s;
    var s2 := if mode == Init || mode == Update then ResolveStep(lib, facts, local, s1) else s1;
    LockStep(facts, local, s2)
  }

  /**
   * What settling keeps: Install mode changes neither version nor lock, Update mode keeps the
   * version, a present mirror stays present, and no mirror other than `local` changes.
   */
  lemma SettledKeeps<V(!new)>(lib: Lib<V>, mode: Mode, kind: Kind, facts: Facts, local: string, listing: Result<string>, s: Settlement)
    ensures var r := Settled(lib, mode, kind, facts, local, listing, s);
      && (mode == Install ==> r.version == s.version && r.lock == s.lock)
      && (mode == Update ==> r.version == s.version)
      && (local in s.mirrors ==> r.mirrors.Keys == s.mirrors.Keys)
      && (forall p :: p in s.mirrors && p != local ==> p in r.mirrors && r.mirrors[p] == s.mirrors[p])
  {
    var s1 := if mode == Init then SemverStep(lib, kind, facts, local, listing, s) else s;
    var s2 := if mode == Init || mode == Update then ResolveStep(lib, facts, local, s1) else s1;
    var r := LockStep(facts, local, s2);
    if mode == Init {
      SemverStepKeeps(lib, kind, facts, local, listing, s);
    }
    if mode == Init || mode == Update {
      ResolveStepKeeps(lib, facts, local, s1);
    }
    LockStepKeeps(facts, local, s2);
    KeepsOthersTrans(local, s.mirrors, s1.mirrors, s2.mirrors);
    KeepsOthersTrans(local, s.mirrors, s2.mirrors, r.mirrors);
  }

  /** Only the mirror at `local` may change, and a present one stays present. */
  predicate KeepsOthers(local: string, before: map<string, string>, after: map<string, string>) {
    && (local in before ==> after.Keys == before.Keys)
    && (forall p :: p in before && p != local ==> p in after && after[p] == before[p])
  }

  lemma KeepsOthersTrans(local: string, a: map<string, string>, b: map<string, string>, c: map<string, string>)
    requires KeepsOthers(local, a, b) && KeepsOthers(local, b, c)
    ensures KeepsOthers(local, a, c)
  {
  }

  lemma SemverStepKeeps<V(!new)>(lib: Lib<V>, kind: Kind, facts: Facts, local: string, listing: Result<string>, s: Settlement)
    ensures KeepsOthers(local, s.mirrors, SemverStep(lib, kind, facts, local, listing, s).mirrors)
  {
  }

  lemma ResolveStepKeeps<V(!new)>(lib: Lib<V>, facts: Facts, local: string, s: Settlement)
    ensures ResolveStep(lib, facts, local, s).version == s.version
    ensures KeepsOthers(local, s.mirrors, ResolveStep(lib, facts, local, s).mirrors)
  {
  }

  lemma LockStepKeeps(facts: Facts, local: string, s: Settlement)
    ensures LockStep(facts, local, s).version == s.version && LockStep(facts, local, s).lock == s.lock
    ensures KeepsOthers(local, s.mirrors, LockStep(facts, local, s).mirrors)
  {
  }

  /** In Install mode the fetched mirror ends at the lock (pulled when the remote is reachable) unless it is already there or the lock is unknown. */
  lemma InstallChecksOutLock<V(!new)>(lib: Lib<V>, kind: Kind, facts: Facts, local: string, listing: Result<string>, s: Settlement)
    requires local in s.mirrors && s.lock != "" && s.lock in facts.references && s.mirrors[local] != s.lock
    ensures var r := Settled(lib, Install, kind, facts, local, listing, s);
      local in r.mirrors && r.mirrors[local] == if facts.reachable then facts.pull(s.lock) else s.lock
  {
  }

  /**
   * Lines 360-387 of Get: the last tag as the default version in Init mode, the resolved
   * version in Init and Update mode, and the lock checked out in every mode.
   */
  method Settle<V(!new)>(lib: Lib<V>, dep: Conf.Dependency, mode: Mode, repo: Repo, listing: Result<string>)
    modifies dep, repo.disk
    ensures Settlement(dep.version, dep.versionLock, repo.disk.mirrors) ==
      Settled(lib, mode, repo.kind, repo.facts, repo.local, listing, Settlement(old(dep.version), old(dep.versionLock), old(repo.disk.mirrors)))
    ensures dep.name == old(dep.name) && dep.repository == old(dep.repository)
    ensures repo.disk.vendor == old(repo.disk.vendor)
  {
    SettleSemver(lib, dep, mode, repo, listing);
    SettleResolve(lib, dep, mode, repo);
    CheckoutLock(repo, dep.versionLock);
  }

  /** Lines 360-365 of Get: in Init mode a dependency without a version gets the default of the last tag. */
  method SettleSemver<V(!new)>(lib: Lib<V>, dep: Conf.Dependency, mode: Mode, repo: Repo, listing: Result<string>)
    modifies dep, repo.disk
    ensures Settlement(dep.version, dep.versionLock, repo.disk.mirrors) ==
      var s := Settlement(old(dep.version), old(dep.versionLock), old(repo.disk.mirrors));
      if mode == Init then SemverStep(lib, repo.kind, repo.facts, repo.local, listing, s) else s
    ensures dep.name == old(dep.name) && dep.repository == old(dep.repository)
    ensures repo.disk.vendor == old(repo.disk.vendor)
  {
    if mode == Init && dep.version == "" {
      var _ := UpdateSemver(lib, dep, repo, listing);
    }
  }

  /** Lines 367-370 of Get: in Init and Update mode the version is resolved and checked out. */
  method SettleResolve<V(!new)>(lib: Lib<V>, dep: Conf.Dependency, mode: Mode, repo: Repo)
    modifies dep, repo.disk
    ensures Settlement(dep.version, dep.versionLock, repo.disk.mirrors) ==
      var s := Settlement(old(dep.version), old(dep.versionLock), old(repo.disk.mirrors));
      if mode == Init || mode == Update then ResolveStep(lib, repo.facts, repo.local, s) else s
    ensures dep.name == old(dep.name) && dep.repository == old(dep.repository)
    ensures repo.disk.vendor == old(repo.disk.vendor)
  {
    if mode == Init || mode == Update {
      ghost var before := repo.disk.mirrors;
      var o := UpdateVersion(lib, dep, repo);
      ResolvedCheckedOut(Decide(lib, old(dep.version), repo.IsReference(old(dep.version)), AllRefs(repo.facts.tags, repo.facts.branches)),
                         o, repo, before, repo.disk.mirrors);
    }
  }

  /**
   * Lines 372-387 of Get: unless the mirror is already at the lock, check the lock out and,
   * when that works, pull again; both failures are only logged.
   */
  method CheckoutLock(repo: Repo, lock: string)
    modifies repo.disk
    ensures var m := old(repo.disk.mirrors);
      repo.disk.mirrors ==
        if lock != "" && repo.local in m && m[repo.local] != lock && repo.IsReference(lock)
        then m[repo.local := if repo.facts.reachable then repo.facts.pull(lock) else lock]
        else m
    ensures repo.disk.vendor == old(repo.disk.vendor)
  {
    if lock != "" {
      var cur := repo.Current();
      var needed := cur.Err? || cur.value != lock;
      if needed {
        var checkout := repo.UpdateVersion(lock);
        if checkout.Pass? {
          var _ := repo.Update();
        }
      }
    }
  }

  /**
   * Lines 389-399 of Get: export when the revision differs from `before` or the vendor
   * directory is missing. Returns the revision now checked out, whether an export was
   * attempted, and whether it failed.
   */
  method ExportIfChanged(repo: Repo, before: string, dir: string) returns (cur: string, exported: bool, failed: bool)
    modifies repo.disk
    ensures cur == repo.CurrentOrEmpty()
    ensures exported <==> before != cur || dir !in old(repo.disk.vendor)
    ensures failed ==> exported
    ensures exported ==> (failed <==> !(repo.facts.exportOk && repo.HasMirror()))
    ensures exported && !failed ==> repo.disk.vendor == old(repo.disk.vendor)[dir := cur]
    ensures !(exported && !failed) ==> repo.disk.vendor == old(repo.disk.vendor)
    ensures repo.disk.mirrors == old(repo.disk.mirrors)
  {
    cur := repo.CurrentOrEmpty();
    exported, failed := false, false;
    if before != cur || dir !in repo.disk.vendor {
      exported := true;
      var exportResult := repo.ExportDir(dir);
      failed := exportResult.Fail?;
    }
  }

  /** CacheLocal of gpm/util.go is GetCacheLocal with the cache directory moved under the home directory. */
  lemma CacheLocalUnderHome(c: Ctx, repo: string, parsed: Result<Util.Url>, home: string)
    requires c.cacheDir == ".gpm" && home != ""
    ensures Util.CacheLocal(repo, parsed, Ok(home)) ==
      match c.GetCacheLocal(repo, parsed)
      case Err(e) => Err(e)
      case Ok(p) => Ok(home + "/" + p)
  {
    match Util.RepoKey(repo, parsed)
    case Err(_) =>
    case Ok(key) =>
      GpmUnderHome(home, key);
  }

  /** home/.gpm/key through filepath.Join is home joined to .gpm/key. */
  lemma GpmUnderHome(home: string, key: string)
    requires home != ""
    ensures Paths.Join([home, ".gpm", key]) == home + "/" + Paths.Join([".gpm", key])
  {
    if key == "" {
      assert [home, ".gpm", key][..2] == [home, ".gpm"];
      Paths.JoinTwo(home, ".gpm");
      assert [".gpm", key][..1] == [".gpm"];
      assert [".gpm"][..0] == [];
      assert Paths.Join([".gpm", key]) == ".gpm";
    } else {
      Paths.JoinThree(home, ".gpm", key);
      Paths.JoinTwo(".gpm", key);
      assert home + "/" + ".gpm" + "/" + key == home + "/" + (".gpm" + "/" + key);
    }
  }

  /** The SCP form under the default cache directory: .gpm/<user>-<host>-<path with '-'>. */
  lemma GetCacheLocalScp(c: Ctx, user: string, host: string, path: string, parsed: Result<Util.Url>)
    requires c.cacheDir == ".gpm" && Util.ScpParts(user, host, path)
    ensures c.GetCacheLocal(Util.ScpText(user, host, path), parsed) == Ok(".gpm/" + Util.ScpKey(user, host, path))
  {
    Util.ScpRepoKey(user, host, path, parsed);
    Util.ScpKeyShape(user, host, path);
    var key := Util.ScpKey(user, host, path);
    assert key != "" by { assert |key| >= |user + "-"|; }
    Paths.JoinTwo(".gpm", key);
    assert ".gpm" + "/" == ".gpm/";
  }

  /** The example of the source comment: git@github.com:user/repo is cached at .gpm/git-github.com-user-repo. */
  lemma GetCacheLocalExample(c: Ctx, parsed: Result<Util.Url>)
    requires c.cacheDir == ".gpm"
    ensures c.GetCacheLocal(Util.ScpText("git", "github.com", "user/repo"), parsed) == Ok(".gpm/" + "git-github.com-user-repo")
  {
    Util.ScpPartsExample();
    Util.ScpKeyExample();
    GetCacheLocalScp(c, "git", "github.com", "user/repo", parsed);
  }
}
