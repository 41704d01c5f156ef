/**
 * gpm/util.go: the SCP-address recogniser, the cache-key construction of CacheLocal,
 * and ParseRepo. Home() and Exists() are environment queries; their results are inputs.
 */
module Util {
  import opened Wrappers
  import opened Strings
  import Paths

  /** The fields of a parsed *url.URL that the key reads; `user` is None when URL.User is nil. */
  datatype Url = Url(scheme: string, user: Option<string>, host: string, path: string)

  /** The class [a-zA-Z0-9_]. */
  predicate IsUserChar(c: char) {
    'a' <= c <= 'z' || 'A' <= c <= 'Z' || '0' <= c <= '9' || c == '_'
  }

  /** The class [a-zA-Z0-9._-]. */
  predicate IsHostChar(c: char) {
    IsUserChar(c) || c == '.' || c == '-'
  }

  /** The three groups of an SCP address: non-empty user and host from their classes, and a path without newline. */
  predicate ScpParts(user: string, host: string, path: string) {
    && user != "" && (forall c | c in user :: IsUserChar(c))
    && host != "" && (forall c | c in host :: IsHostChar(c))
    && '\n' !in path
  }

  /** The text of an SCP address. */
  function ScpText(user: string, host: string, path: string): string {
    user + "@" + host + ":" + path
  }

  /**
   * The submatches of scpSyntaxRe, `^([a-zA-Z0-9_]+)@([a-zA-Z0-9._-]+):(.*)$`, or None when
   * it does not match. `.` stops at a newline and `$` is the end of the text.
   */
  function ScpMatch(s: string): (m: Option<(string, string, string)>)
    ensures m.Some? ==> ScpParts(m.value.0, m.value.1, m.value.2)
    ensures m.Some? ==> s == ScpText(m.value.0, m.value.1, m.value.2)
  {
    var at := Index(s, '@');
    if at <= 0 then None
    else
      var user, rest := s[..at], s[at + 1..];
      var colon := Index(rest, ':');
      if colon <= 0 then None
      else
        var host, path := rest[..colon], rest[colon + 1..];
        if ScpParts(user, host, path) then
          ScpTextSplit(s, at, colon);
          Some((user, host, path))
        else None
  }

  /** Cutting at an '@' and at a ':' after it gives back the text as an SCP address. */
  lemma ScpTextSplit(s: string, at: nat, colon: nat)
    requires at < |s| && s[at] == '@'
    requires colon < |s[at + 1..]| && s[at + 1..][colon] == ':'
    ensures s == ScpText(s[..at], s[at + 1..][..colon], s[at + 1..][colon + 1..])
  {
    var rest := s[at + 1..];
    Around(s, at);
    Around(rest, colon);
    assert s == s[..at] + "@" + (rest[..colon] + ":" + rest[colon + 1..]);
  }

  /** The recogniser accepts every SCP address and splits it at its first '@' and the next ':'. */
  lemma ScpMatchComplete(user: string, host: string, path: string)
    requires ScpParts(user, host, path)
    ensures ScpMatch(ScpText(user, host, path)) == Some((user, host, path))
  {
    assert '@' !in user by { assert !IsUserChar('@'); }
    assert ':' !in host by { assert !IsHostChar(':'); }
    ScpCuts(user, host, path);
  }

  /** Where the recogniser cuts an SCP address whose user has no '@' and whose host has no ':'. */
  lemma ScpCuts(user: string, host: string, path: string)
    requires '@' !in user && ':' !in host
    ensures var s, rest := ScpText(user, host, path), host + ":" + path;
      && Index(s, '@') == |user| && s[..|user|] == user && s[|user| + 1..] == rest
      && Index(rest, ':') == |host| && rest[..|host|] == host && rest[|host| + 1..] == path
  {
    var s := ScpText(user, host, path);
    var rest := host + ":" + path;
    assert s == user + ['@'] + rest;
    assert s[..|user|] == user && s[|user|] == '@' && s[|user| + 1..] == rest;
    IndexAt(s, '@', |user|);
    assert rest[..|host|] == host && rest[|host|] == ':' && rest[|host| + 1..] == path;
    IndexAt(rest, ':', |host|);
  }

  /** The URL an SCP address stands for, with the synthetic "ssh" scheme already stripped. */
  function ScpUrl(user: string, host: string, path: string): Url {
    Url("", Some(user), host, "/" + path)
  }

  /**
   * The key built from a URL: "scheme-" when there is a scheme, "user-" when there is a
   * user name, the host, the path with '/' turned into '-', and then every ':' turned into '-'.
   */
  function UrlKey(u: Url): (key: string)
    ensures ':' !in key
  {
    var k1 := if u.scheme != "" then u.scheme + "-" else "";
    var k2 := if u.user.Some? && u.user.value != "" then k1 + u.user.value + "-" else k1;
    var k3 := k2 + u.host;
    var k4 := if u.path != "" then k3 + Replace(u.path, '/', '-') else k3;
    ReplaceRemoves(k4, ':', '-');
    Replace(k4, ':', '-')
  }

  /**
   * The key of a remote identifier: the SCP form when the recogniser matches, otherwise
   * the URL that url.Parse returned (`parsed`), or its error.
   */
  function RepoKey(repo: string, parsed: Result<Url>): Result<string>
  {
    match ScpMatch(repo)
    case Some((user, host, path)) => Ok(UrlKey(ScpUrl(user, host, path)))
    case None =>
      match parsed
      case Ok(u) => Ok(UrlKey(u))
      case Err(e) => Err(e)
  }

  /** CacheLocal: the key joined under `home`/.gpm; `home` is what Home() returned. */
  function CacheLocal(repo: string, parsed: Result<Url>, home: Result<string>): (r: Result<string>)
    ensures RepoKey(repo, parsed).Err? ==> r == Err(RepoKey(repo, parsed).error)
    ensures RepoKey(repo, parsed).Ok? && home.Err? ==> r == Err(home.error)
    ensures RepoKey(repo, parsed).Ok? && home.Ok? ==>
      r == Ok(Paths.Join([home.value, ".gpm", RepoKey(repo, parsed).value]))
  {
    match RepoKey(repo, parsed)
    case Err(e) => Err(e)
    case Ok(key) =>
      match home
      case Err(e) => Err(e)
      case Ok(h) => Ok(Paths.Join([h, ".gpm", key]))
  }

  /** The key of an SCP address: the user, '-', the host, the path with '/' as '-', with ':' as '-'. */
  function ScpKey(user: string, host: string, path: string): string {
    Replace(user + "-" + host + Replace("/" + path, '/', '-'), ':', '-')
  }

  /** The key of an SCP address through the URL it stands for is ScpKey. */
  lemma ScpUrlKey(user: string, host: string, path: string)
    requires user != ""
    ensures UrlKey(ScpUrl(user, host, path)) == ScpKey(user, host, path)
  {
    var u := ScpUrl(user, host, path);
    assert u.scheme == "" && u.user == Some(user) && u.path != "";
    var k4 := "" + user + "-" + u.host + Replace(u.path, '/', '-');
    assert k4 == user + "-" + host + Replace("/" + path, '/', '-');
    assert UrlKey(u) == Replace(k4, ':', '-');
  }

  /** An SCP address is keyed through its own URL; url.Parse is not consulted. */
  lemma ScpRepoKey(user: string, host: string, path: string, parsed: Result<Url>)
    requires ScpParts(user, host, path)
    ensures RepoKey(ScpText(user, host, path), parsed) == Ok(ScpKey(user, host, path))
  {
    ScpMatchComplete(user, host, path);
    ScpUrlKey(user, host, path);
  }

  /**
   * An SCP key has no scheme part: it starts with the user name and '-', and holds
   * neither '/' nor ':', so it is a single path component.
   */
  lemma ScpKeyShape(user: string, host: string, path: string)
    requires ScpParts(user, host, path)
    ensures HasPrefix(ScpKey(user, host, path), user + "-")
    ensures '/' !in ScpKey(user, host, path) && ':' !in ScpKey(user, host, path)
  {
    var p := Replace("/" + path, '/', '-');
    ReplaceRemoves("/" + path, '/', '-');
    assert !IsUserChar('/') && !IsHostChar('/') && !IsUserChar(':');
    var head, tail := user + "-", host + p;
    var raw := head + tail;
    assert raw == user + "-" + host + p;
    assert '/' !in raw;
    ReplaceKeeps(raw, ':', '-', '/');
    ReplaceRemoves(raw, ':', '-');
    ReplaceAppend(head, tail, ':', '-');
    ReplaceAbsent(head, ':', '-');
  }

  /** Under a home directory, the SCP cache path is home/.gpm/<key>. */
  lemma CacheLocalScp(user: string, host: string, path: string, parsed: Result<Url>, home: string)
    requires ScpParts(user, host, path) && home != ""
    ensures CacheLocal(ScpText(user, host, path), parsed, Ok(home)) ==
            Ok(home + "/.gpm/" + ScpKey(user, host, path))
  {
    var key := ScpKey(user, host, path);
    ScpRepoKey(user, host, path, parsed);
    ScpKeyShape(user, host, path);
    assert key != "" by { assert |user + "-"| > 0; }
    GpmKeyPath(home, key);
  }

  /** home/.gpm/key through filepath.Join, for a non-empty home and key. */
  lemma GpmKeyPath(home: string, key: string)
    requires home != "" && key != ""
    ensures Paths.Join([home, ".gpm", key]) == home + "/.gpm/" + key
  {
    assert "/" + ".gpm" + "/" == "/.gpm/";
    Paths.JoinAround(home, ".gpm", key, "/.gpm/");
  }

  /** git@github.com:user/repo is an SCP address. */
  lemma ScpPartsExample()
    ensures ScpParts("git", "github.com", "user/repo")
  {
    assert forall c | c in "git" :: c in {'g', 'i', 't'};
    assert forall c | c in "github.com" :: c in {'g', 'i', 't', 'h', 'u', 'b', '.', 'c', 'o', 'm'};
  }

  /** The key of git@github.com:user/repo. */
  lemma ScpKeyExample()
    ensures ScpKey("git", "github.com", "user/repo") == "git-github.com-user-repo"
  {
    ScpKeyTwoSegments("git", "github.com", "user", "repo");
    assert "user" + "/" + "repo" == "user/repo";
    assert "git" + "-" + "github.com" == "git-github.com";
    assert "git-github.com" + "-" + "user" == "git-github.com-user";
    assert "git-github.com-user" + "-" + "repo" == "git-github.com-user-repo";
  }

  /** The key of an SCP address whose path is one segment. */
  lemma ScpKeyOneSegment(user: string, host: string, a: string)
    requires '/' !in a && ':' !in user && ':' !in host && ':' !in a
    ensures ScpKey(user, host, a) == user + "-" + host + "-" + a
  {
    ReplaceAppend("/", a, '/', '-');
    assert Replace("/", '/', '-') == "-" by { assert "/"[1..] == []; }
    ReplaceAbsent(a, '/', '-');
    var raw := user + "-" + host + "-" + a;
    assert user + "-" + host + Replace("/" + a, '/', '-') == raw;
    assert ':' !in raw;
    ReplaceAbsent(raw, ':', '-');
  }

  /** The key of an SCP address whose path is two segments: both slashes become '-'. */
  lemma ScpKeyTwoSegments(user: string, host: string, a: string, b: string)
    requires '/' !in a && '/' !in b && ':' !in user && ':' !in host && ':' !in a && ':' !in b
    ensures ScpKey(user, host, a + "/" + b) == user + "-" + host + "-" + a + "-" + b
  {
    assert "/" + (a + "/" + b) == ("/" + a) + ("/" + b);
    ReplaceAppend("/" + a, "/" + b, '/', '-');
    ReplaceAppend("/", a, '/', '-');
    ReplaceAppend("/", b, '/', '-');
    assert Replace("/", '/', '-') == "-" by { assert "/"[1..] == []; }
    ReplaceAbsent(a, '/', '-');
    ReplaceAbsent(b, '/', '-');
    var raw := user + "-" + host + "-" + a + "-" + b;
    assert user + "-" + host + Replace("/" + (a + "/" + b), '/', '-') == raw;
    assert ':' !in raw;
    ReplaceAbsent(raw, ':', '-');
  }

  /** The example of the source comment: git@github.com:user/repo is cached at home/.gpm/git-github.com-user-repo. */
  lemma ScpExample(home: string, parsed: Result<Url>)
    requires home != ""
    ensures CacheLocal(ScpText("git", "github.com", "user/repo"), parsed, Ok(home)) ==
            Ok(home + "/.gpm/" + "git-github.com-user-repo")
  {
    ScpPartsExample();
    ScpKeyExample();
    CacheLocalScp("git", "github.com", "user/repo", parsed, home);
  }

  /**
   * An explicit ssh:// URL keeps its scheme: its key is the SCP key of the same address
   * with "ssh-" in front, so the two forms never share a cache directory.
   */
  lemma SshKeyDiffersFromScp(user: string, host: string, path: string)
    requires ScpParts(user, host, path)
    ensures UrlKey(Url("ssh", Some(user), host, "/" + path)) == "ssh-" + ScpKey(user, host, path)
    ensures UrlKey(Url("ssh", Some(user), host, "/" + path)) != ScpKey(user, host, path)
  {
    var tail := user + "-" + host + Replace("/" + path, '/', '-');
    var u := Url("ssh", Some(user), host, "/" + path);
    var k4 := "ssh" + "-" + user + "-" + host + Replace(u.path, '/', '-');
    assert UrlKey(u) == Replace(k4, ':', '-');
    assert k4 == "ssh-" + tail;
    ReplaceAppend("ssh-", tail, ':', '-');
    ReplaceAbsent("ssh-", ':', '-');
  }

  /** A URL with a scheme (url.Parse schemes hold no ':') gives a key that starts with "scheme-". */
  lemma SchemeKeyPrefix(u: Url)
    requires u.scheme != "" && ':' !in u.scheme
    ensures HasPrefix(UrlKey(u), u.scheme + "-")
  {
    var k1 := u.scheme + "-";
    var k2 := if u.user.Some? && u.user.value != "" then k1 + u.user.value + "-" else k1;
    var k3 := k2 + u.host;
    var k4 := if u.path != "" then k3 + Replace(u.path, '/', '-') else k3;
    var rest := k4[|k1|..];
    assert k4 == k1 + rest;
    ReplaceAppend(k1, rest, ':', '-');
    ReplaceAbsent(k1, ':', '-');
  }

  /** The keys of a@b:c/d and a@b:c-d. */
  lemma ScpKeyCollides()
    ensures ScpKey("a", "b", "c/d") == ScpKey("a", "b", "c-d") == "a-b-c-d"
  {
    ScpKeyTwoSegments("a", "b", "c", "d");
    ScpKeyOneSegment("a", "b", "c-d");
    assert "c" + "/" + "d" == "c/d";
    assert "a" + "-" + "b" + "-" + "c" + "-" + "d" == "a" + "-" + "b" + "-" + "c-d" == "a-b-c-d";
  }

  /** The key is not injective: '/' and '-' in an SCP path give one directory. */
  lemma CacheKeyCollision(parsed1: Result<Url>, parsed2: Result<Url>)
    ensures RepoKey(ScpText("a", "b", "c/d"), parsed1) == RepoKey(ScpText("a", "b", "c-d"), parsed2) == Ok("a-b-c-d")
  {
    assert ScpParts("a", "b", "c/d") && ScpParts("a", "b", "c-d");
    ScpRepoKey("a", "b", "c/d", parsed1);
    ScpRepoKey("a", "b", "c-d", parsed2);
    ScpKeyCollides();
  }

  /**
   * ParseRepo as written: with no '@' after an optional leading "git@" it returns the whole
   * input and ""; otherwise it indexes tokens[1] of strings.SplitAfterN(repo, "@", 1), which
   * always has exactly one element, so the call panics (modelled as Err).
   */
  function ParseRepo(repo: string): (r: Result<(string, string)>)
    ensures r.Ok? <==> '@' !in TrimPrefix(repo, "git@")
    ensures r.Ok? ==> r.value == (repo, "")
  {
    var url := if HasPrefix(repo, "git@") then repo[4..] else repo;
    if '@' in url then Err("index out of range [1] with length 1")
    else Ok((repo, ""))
  }

  /**
   * ParseRepo as evidently intended: split at the first '@' after an optional "git@".
   * The name is everything before that '@' and the version everything after it.
   */
  function ParseRepoFixed(repo: string): (r: (string, string))
    ensures '@' !in TrimPrefix(repo, "git@") ==> r == (repo, "")
    ensures '@' in TrimPrefix(repo, "git@") ==>
      r.0 + "@" + r.1 == repo && '@' !in TrimPrefix(r.0, "git@")
  {
    var skip := if HasPrefix(repo, "git@") then 4 else 0;
    var url := repo[skip..];
    var i := Index(url, '@');
    if i < 0 then (repo, "")
    else
      var name := repo[..skip + i];
      assert url[..i] == name[skip..];
      assert repo == name + "@" + url[i + 1..];
      assert skip == 4 ==> HasPrefix(name, "git@");
      assert skip == 0 ==> '@' !in name;
      (name, url[i + 1..])
  }

  /** A version suffix makes ParseRepo as written fail, where the intended parse splits it off. */
  lemma ParseRepoPanics(name: string, version: string)
    requires name == "github.com/u/r" && version == "v1.0"
    ensures ParseRepo(name + "@" + version).Err?
    ensures ParseRepoFixed(name + "@" + version) == (name, version)
  {
    var s := name + "@" + version;
    assert !HasPrefix(s, "git@") by { assert s[3] != '@'; }
    assert '@' !in name;
    assert s[..|name|] == name;
    IndexAt(s, '@', |name|);
    assert s[|name| + 1..] == version;
  }
}
