/**
 * gpm/context.go: the other, older copy of the pipeline. Get takes a bare URL and a
 * version: it normalises the URL, fetches the cache mirror, resolves the version, pulls
 * once more, derives the vendor path from the URL and exports when the revision changed
 * or the vendor directory is missing. Its UpdateVersion tolerates listing errors.
 * What url.Parse, Home and os.Getwd return are inputs.
 */
module Context {
  import opened Wrappers
  import opened Strings
  import opened Semver
  import opened Vcs
  import opened Resolve
  import Ctx
  import Util
  import Paths

  /** A needle occurring after any prefix is found. */
  lemma {:induction false} ContainsAfter(a: string, needle: string, b: string)
    ensures ContainsText(a + needle + b, needle)
    decreases |a|
  {
    if a == [] {
      assert a + needle + b == needle + b;
    } else {
      assert (a + needle + b)[1..] == a[1..] + needle + b;
      ContainsAfter(a[1..], needle, b);
    }
  }

  /** Neither a `git@` address nor one with a scheme: Get adds "https://". */
  predicate Bare(url: string) {
    !HasPrefix(url, "git@") && !ContainsText(url, "://")
  }

  /** Lines 52-54 of Get as written: "https://" is appended to a bare URL. */
  function NormaliseUrlAsWritten(url: string): (r: string)
    ensures Bare(url) ==> r == url + "https://"
    ensures !Bare(url) ==> r == url
  {
    if Bare(url) then url + "https://" else url
  }

  /** A bare URL of eight characters or more is exported under its own name with the scheme at its end. */
  lemma NormaliseAppendsScheme(url: string)
    requires Bare(url) && |url| >= 8
    ensures NormaliseUrlAsWritten(url) == url + "https://"
    ensures !HasPrefix(NormaliseUrlAsWritten(url), "https://")
    ensures VendorPathAsWritten(NormaliseUrlAsWritten(url)) == url + "https://"
  {
    var r := NormaliseUrlAsWritten(url);
    assert r[..4] == url[..4] && r[..8] == url[..8];
    if HasPrefix(url, "https://") {
      assert url == "https" + "://" + url[8..];
      ContainsAfter("https", "://", url[8..]);
    }
  }

  /** The URL of the example is bare. */
  lemma ExampleIsBare(url: string)
    requires url == "github.com/u/r"
    ensures Bare(url)
  {
    assert url[..4][3] == url[3] == 'h';
    assert ':' !in url;
    forall k | 0 <= k <= |url| ensures !("://" <= url[k..]) {
      if k < |url| {
        assert url[k..][0] == url[k];
      }
    }
    NotContained(url, "://");
  }

  /** The example: github.com/u/r becomes github.com/u/rhttps:// and is exported under that name. */
  lemma NormaliseExample(url: string)
    requires url == "github.com/u/r"
    ensures NormaliseUrlAsWritten(url) == url + "https://"
    ensures VendorPathAsWritten(NormaliseUrlAsWritten(url)) == url + "https://"
    ensures NormaliseUrl(url) == "https://" + url
    ensures VendorPath(NormaliseUrl(url)) == url
  {
    ExampleIsBare(url);
    NormaliseAppendsScheme(url);
    NormaliseRoundTrip(url);
  }

  /** A needle that is a prefix of no suffix is not contained. */
  lemma {:induction false} NotContained(s: string, needle: string)
    requires forall k :: 0 <= k <= |s| ==> !(needle <= s[k..])
    ensures !ContainsText(s, needle)
    decreases |s|
  {
    assert s[0..] == s;
    if s != [] {
      forall k | 0 <= k <= |s[1..]| ensures !(needle <= s[1..][k..]) {
        assert s[1..][k..] == s[k + 1..];
      }
      NotContained(s[1..], needle);
    }
  }

  /** The intended normalisation: "https://" is put in front of a bare URL. */
  function NormaliseUrl(url: string): (r: string)
    ensures Bare(url) ==> r == "https://" + url
    ensures !Bare(url) ==> r == url
    ensures !Bare(r)
  {
    if Bare(url) then
      ContainsAfter("https", "://", url);
      assert "https://" + url == "https" + "://" + url;
      "https://" + url
    else url
  }

  /** Normalising twice is normalising once. */
  lemma NormaliseIdempotent(url: string)
    ensures NormaliseUrl(NormaliseUrl(url)) == NormaliseUrl(url)
  {
  }

  /** The characters `strings.TrimRight(path, ".git")` strips: a cut set, not a suffix. */
  const GitCutset: set<char> := {'.', 'g', 'i', 't'}

  /** Lines 90-97 of Get as written. */
  function VendorPathAsWritten(url: string): string {
    if HasPrefix(url, "git@") then ReplaceFirst(TrimRight(url[4..], GitCutset), ':', '/')
    else if HasPrefix(url, "https://") then url[8..]
    else url
  }

  /** The intended vendor path: the `.git` suffix removed, not every trailing '.', 'g', 'i' and 't'. */
  function VendorPath(url: string): string {
    if HasPrefix(url, "git@") then ReplaceFirst(TrimSuffix(url[4..], ".git"), ':', '/')
    else if HasPrefix(url, "https://") then url[8..]
    else url
  }

  /** A bare URL comes back as its own vendor path after normalisation. */
  lemma NormaliseRoundTrip(url: string)
    requires Bare(url)
    ensures VendorPath(NormaliseUrl(url)) == url
  {
    var n := NormaliseUrl(url);
    assert n[0] == 'h';
    assert !HasPrefix(n, "git@") by { assert n[..4][0] == 'h'; }
    assert HasPrefix(n, "https://") by { assert n[..8] == "https://"; }
    assert n[8..] == url;
  }

  /** An https URL keeps its host and path. */
  lemma VendorPathHttps(rest: string)
    ensures VendorPath("https://" + rest) == rest
    ensures VendorPathAsWritten("https://" + rest) == rest
  {
    var n := "https://" + rest;
    assert !HasPrefix(n, "git@") by { assert n[..4][0] == 'h'; }
    assert HasPrefix(n, "https://") by { assert n[..8] == "https://"; }
    assert n[8..] == rest;
  }

  /** `git@host:path.git` is vendored as host/path, for a host without ':'. */
  lemma VendorPathScp(host: string, path: string)
    requires ':' !in host
    ensures VendorPath("git@" + host + ":" + path + ".git") == host + "/" + path
  {
    var url := "git@" + host + ":" + path + ".git";
    assert HasPrefix(url, "git@") by { assert url[..4] == "git@"; }
    var rest := url[4..];
    assert rest == host + ":" + path + ".git";
    assert HasSuffix(rest, ".git") by { assert rest[|rest| - 4..] == ".git"; }
    var t := TrimSuffix(rest, ".git");
    assert t == host + ":" + path by { assert t + ".git" == rest; assert t == rest[..|rest| - 4]; }
    IndexAt(t, ':', |host|);
    assert t[..|host|] == host && t[|host| + 1..] == path;
  }

  /**
   * As written, host/path is the vendor path of git@host:path.git only when the path does
   * not itself end in '.', 'g', 'i' or 't'.
   */
  lemma VendorPathScpAsWritten(host: string, path: string)
    requires ':' !in host && path != [] && path[|path| - 1] !in GitCutset
    ensures VendorPathAsWritten("git@" + host + ":" + path + ".git") == host + "/" + path
  {
    var url := "git@" + host + ":" + path + ".git";
    assert HasPrefix(url, "git@") by { assert url[..4] == "git@"; }
    var t := host + ":" + path;
    assert url[4..] == t + ".git";
    assert ".git"[0] in GitCutset && ".git"[1] in GitCutset && ".git"[2] in GitCutset && ".git"[3] in GitCutset;
    assert t[|t| - 1] == path[|path| - 1];
    TrimRightTail(t, ".git", GitCutset);
    IndexAt(t, ':', |host|);
    assert t[..|host|] == host && t[|host| + 1..] == path;
  }

  /** A bare URL is exported under itself with "https://" at its end, as written. */
  lemma ExportTargetBare(wd: string, url: string)
    requires Bare(url) && |url| >= 8
    ensures ExportTarget(wd, NormaliseUrlAsWritten(url)) == Paths.Join([wd, Paths.Join(["vendor", url + "https://"])])
  {
    NormaliseAppendsScheme(url);
  }

  /** `git@host:path` without the suffix is vendored as host/path as well. */
  lemma VendorPathScpPlain(host: string, path: string)
    requires ':' !in host && !HasSuffix(path, ".git") && |path| >= 4
    ensures VendorPath("git@" + host + ":" + path) == host + "/" + path
  {
    var url := "git@" + host + ":" + path;
    assert HasPrefix(url, "git@") by { assert url[..4] == "git@"; }
    var rest := url[4..];
    assert rest == host + ":" + path;
    assert !HasSuffix(rest, ".git") by { assert rest[|rest| - 4..] == path[|path| - 4..]; }
    assert TrimSuffix(rest, ".git") == rest;
    IndexAt(rest, ':', |host|);
    assert rest[..|host|] == host && rest[|host| + 1..] == path;
  }

  /** TrimRight removes a tail made of cut-set characters and stops at the first other one. */
  lemma {:induction false} TrimRightTail(a: string, b: string, cutset: set<char>)
    requires forall i :: 0 <= i < |b| ==> b[i] in cutset
    requires a == [] || a[|a| - 1] !in cutset
    ensures TrimRight(a + b, cutset) == a
    decreases |b|
  {
    if b == [] {
      assert a + b == a;
    } else {
      var c := a + b;
      assert c[|c| - 1] == b[|b| - 1];
      assert c[..|c| - 1] == a + b[..|b| - 1];
      TrimRightTail(a, b[..|b| - 1], cutset);
    }
  }

  /** The trailing "digit.git" loses everything after the 'd'. */
  lemma ExampleTrimmed(a: string, b: string)
    requires a == "h:u/d" && b == "igit.git"
    ensures TrimRight(a + b, GitCutset) == a
  {
    TrimRightTail(a, b, GitCutset);
  }

  /** The first ':' of the trimmed path becomes '/'. */
  lemma ExampleReplaced(trimmed: string)
    requires trimmed == "h:u/d"
    ensures ReplaceFirst(trimmed, ':', '/') == "h/u/d"
  {
    IndexAt(trimmed, ':', 1);
  }

  /** The example: git@h:u/digit.git is vendored as h/u/d. */
  lemma VendorPathAsWrittenExample(url: string)
    requires url == "git@h:u/digit.git"
    ensures VendorPathAsWritten(url) == "h/u/d"
  {
    assert HasPrefix(url, "git@") by { assert url[..4] == "git@"; }
    var rest := url[4..];
    assert rest == "h:u/d" + "igit.git";
    ExampleTrimmed("h:u/d", "igit.git");
    ExampleReplaced("h:u/d");
  }

  /** The intended path of the same address is h/u/digit. */
  lemma VendorPathExample(url: string)
    requires url == "git@h:u/digit.git"
    ensures VendorPath(url) == "h/u/digit"
  {
    assert HasPrefix(url, "git@") by { assert url[..4] == "git@"; }
    var rest := url[4..];
    assert rest == "h:u/digit" + ".git";
    ExampleSuffix("h:u/digit", rest);
    ExampleFirstColon("h:u/digit");
  }

  /** TrimSuffix removes the ".git" of the example. */
  lemma ExampleSuffix(t: string, rest: string)
    requires rest == t + ".git"
    ensures TrimSuffix(rest, ".git") == t
  {
    assert rest[|rest| - 4..] == ".git";
    assert rest[..|rest| - 4] == t;
  }

  /** The first ':' of h:u/digit becomes '/'. */
  lemma ExampleFirstColon(t: string)
    requires t == "h:u/digit"
    ensures ReplaceFirst(t, ':', '/') == "h/u/digit"
  {
    IndexAt(t, ':', 1);
  }

  /** Lines 126-133 of UpdateVersion: tags and branches, each left out when listing it fails. */
  function TolerantRefs(tags: Result<seq<string>>, branches: Result<seq<string>>): seq<string> {
    (if tags.Ok? then tags.value else []) + (if branches.Ok? then branches.value else [])
  }

  /** The tolerant listing holds exactly the references of the listings that worked, and agrees with GetAllRefs when both do. */
  lemma TolerantRefsSpec(tags: Result<seq<string>>, branches: Result<seq<string>>)
    ensures forall x :: x in TolerantRefs(tags, branches) <==>
      (tags.Ok? && x in tags.value) || (branches.Ok? && x in branches.value)
    ensures tags.Ok? && branches.Ok? ==> Ctx.AllRefs(tags, branches) == Ok(TolerantRefs(tags, branches))
    ensures tags.Err? && branches.Err? ==> TolerantRefs(tags, branches) == []
  {
  }

  /** UpdateVersion: the same decision as the other copy, over the tolerant listing. */
  method UpdateVersion<V(!new)>(lib: Lib<V>, repo: Repo, ver: string) returns (o: Outcome)
    modifies repo.disk
    ensures Resolved(Decide(lib, ver, repo.IsReference(ver), Ok(TolerantRefs(repo.facts.tags, repo.facts.branches))),
                     o, repo, old(repo.disk.mirrors), repo.disk.mirrors)
    ensures repo.disk.vendor == old(repo.disk.vendor)
  {
    if repo.IsReference(ver) && !HasPrefix(ver, "^") {
      o := repo.UpdateVersion(ver);
      return;
    }
    var constraint := lib.constraint(ver);
    if constraint.None? {
      return Fail("invalid constraint: " + ver);
    }
    var refs := [];
    var tags := repo.Tags();
    if tags.Ok? {
      refs := tags.value;
    }
    var branches := repo.Branches();
    if branches.Ok? {
      refs := refs + branches.value;
    }
    assert refs == TolerantRefs(tags, branches);
    var found := SelectVersion(lib, constraint.value, refs);
    if found == "" {
      return Pass;
    }
    o := repo.UpdateVersion(found);
  }

  /** The revision UpdateVersion leaves checked out in a present mirror at `cur`. */
  function ResolvedRevision<V(!new)>(lib: Lib<V>, facts: Facts, ver: string, cur: string): string {
    var d := Decide(lib, ver, ver in facts.references, Ok(TolerantRefs(facts.tags, facts.branches)));
    if (d.Direct? || d.Pick?) && d.ref in facts.references then d.ref else cur
  }

  /** The export directory of lines 90-100: filepath.Abs of vendor/<path as written>, from the working directory `wd`. */
  function ExportTarget(wd: string, url: string): string {
    Paths.Join([wd, Paths.Join(["vendor", VendorPathAsWritten(url)])])
  }

  /**
   * Get as written: "https://" appended to a bare URL, fetch the mirror, resolve the version (its error is dropped),
   * pull again, and export into vendor/<path> when that directory is missing or the
   * resolution moved the checkout. `parsed` is what url.Parse returns for the normalised
   * URL, `home` what Home returns, `wd` the working directory. The outputs after `o` are
   * the revisions before and after the resolution, and whether an export was attempted.
   */
  method Get<V(!new)>(lib: Lib<V>, url: string, version: string, parsed: Result<Util.Url>,
                      home: Result<string>, wd: string, facts: Facts, disk: Disk)
    returns (o: Outcome, ghost oldVersion: string, ghost newVersion: string, ghost exported: bool)
    modifies disk
    ensures var u := NormaliseUrlAsWritten(url);
      var local := Util.CacheLocal(u, parsed, home);
      && (local.Err? ==> o == Fail(local.error) && !exported && disk.mirrors == old(disk.mirrors))
      && (local.Ok? && facts.kind.None? ==> o.Fail? && !exported && disk.mirrors == old(disk.mirrors))
      && (local.Ok? && facts.kind.Some? ==>
           var fetched := Fetched(facts, local.value, old(disk.mirrors));
           && (fetched.None? ==> o.Fail? && !exported && disk.mirrors == old(disk.mirrors))
           && (fetched.Some? ==>
                && oldVersion == fetched.value[local.value]
                && newVersion == ResolvedRevision(lib, facts, version, oldVersion)
                && disk.mirrors == fetched.value[local.value := facts.pull(newVersion)]
                && (exported <==> ExportTarget(wd, u) !in old(disk.vendor) || oldVersion != newVersion)
                && (exported ==> (o.Pass? <==> facts.exportOk))
                && (!exported ==> o.Pass?)
                && (exported && o.Pass? ==> disk.vendor == old(disk.vendor)[ExportTarget(wd, u) := facts.pull(newVersion)])
                && (exported && o.Fail? ==> o == Fail("repo export fail"))))
    ensures !(exported && o.Pass?) ==> disk.vendor == old(disk.vendor)
  {
    exported := false;
    oldVersion, newVersion := "", "";
    var u := NormaliseUrlAsWritten(url);
    var local := Util.CacheLocal(u, parsed, home);
    if local.Err? {
      return Fail(local.error), oldVersion, newVersion, exported;
    }
    var made := NewRepo(u, local.value, facts, disk);
    if made.Err? {
      return Fail(made.error), oldVersion, newVersion, exported;
    }
    var repo := made.value;
    var fetched := Ctx.GetOrUpdateRepo(repo);
    if fetched.Fail? {
      return fetched, oldVersion, newVersion, exported;
    }
    o, oldVersion, newVersion, exported := UpdateAndExport(lib, repo, version, ExportTarget(wd, u));
  }

  /**
   * Steps 2 to 4 of Get on a fetched mirror: resolve the version, update the mirror
   * once more, and export it when the vendor directory is missing or the revision moved.
   */
  method UpdateAndExport<V(!new)>(lib: Lib<V>, repo: Repo, version: string, exportDir: string)
    returns (o: Outcome, ghost oldVersion: string, ghost newVersion: string, ghost exported: bool)
    requires repo.HasMirror()
    modifies repo.disk
    ensures oldVersion == old(repo.disk.mirrors)[repo.local]
    ensures newVersion == ResolvedRevision(lib, repo.facts, version, oldVersion)
    ensures !repo.facts.reachable ==>
      o.Fail? && !exported && repo.disk.mirrors == old(repo.disk.mirrors)[repo.local := newVersion]
    ensures repo.facts.reachable ==>
      && repo.disk.mirrors == old(repo.disk.mirrors)[repo.local := repo.facts.pull(newVersion)]
      && (exported <==> exportDir !in old(repo.disk.vendor) || oldVersion != newVersion)
      && (exported ==> (o.Pass? <==> repo.facts.exportOk))
      && (!exported ==> o.Pass?)
      && (exported && o.Pass? ==> repo.disk.vendor == old(repo.disk.vendor)[exportDir := repo.facts.pull(newVersion)])
      && (exported && o.Fail? ==> o == Fail("repo export fail"))
    ensures !(exported && o.Pass?) ==> repo.disk.vendor == old(repo.disk.vendor)
  {
    exported := false;
    var before, after := ResolveRevision(lib, repo, version);
    oldVersion, newVersion := before, after;
    var pulled := repo.Update();
    if pulled.Fail? {
      return pulled, oldVersion, newVersion, exported;
    }
    var failed;
    exported, failed := ExportWhen(repo, exportDir, before != after);
    if failed {
      return Fail("repo export fail"), oldVersion, newVersion, exported;
    }
    return Pass, oldVersion, newVersion, exported;
  }

  /** Lines 78-80 of Get: the revision before and after UpdateVersion, whose error is dropped. */
  method ResolveRevision<V(!new)>(lib: Lib<V>, repo: Repo, version: string) returns (before: string, after: string)
    requires repo.HasMirror()
    modifies repo.disk
    ensures before == old(repo.disk.mirrors)[repo.local]
    ensures after == ResolvedRevision(lib, repo.facts, version, before)
    ensures repo.disk.mirrors == old(repo.disk.mirrors)[repo.local := after]
    ensures repo.disk.vendor == old(repo.disk.vendor)
  {
    before := repo.CurrentOrEmpty();
    ghost var m := repo.disk.mirrors;
    var o := UpdateVersion(lib, repo, version);
    ResolvedCheckedOut(Decide(lib, version, repo.IsReference(version), Ok(TolerantRefs(repo.facts.tags, repo.facts.branches))),
                       o, repo, m, repo.disk.mirrors);
    after := repo.CurrentOrEmpty();
  }

  /** Lines 99-106 of Get: export when the directory is missing or `changed`; returns whether it was attempted and whether it failed. */
  method ExportWhen(repo: Repo, dir: string, changed: bool) returns (exported: bool, failed: bool)
    modifies repo.disk
    ensures exported <==> dir !in old(repo.disk.vendor) || changed
    ensures failed <==> exported && !(repo.facts.exportOk && repo.HasMirror())
    ensures exported && !failed ==> repo.disk.vendor == old(repo.disk.vendor)[dir := repo.disk.mirrors[repo.local]]
    ensures !(exported && !failed) ==> repo.disk.vendor == old(repo.disk.vendor)
    ensures repo.disk.mirrors == old(repo.disk.mirrors)
  {
    exported, failed := false, false;
    if dir !in repo.disk.vendor || changed {
      exported := true;
      var exportResult := repo.ExportDir(dir);
      failed := exportResult.Fail?;
    }
  }
}
