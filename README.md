# gpm dependency pipeline in Dafny

gpm is a vendor manager for Go. It reads a manifest (`gpm.yaml`) that lists the imported packages. For each one it keeps a mirror of the remote in a cache directory, settles the version to use, and exports that checkout into `vendor/`. This project models the logic of that pipeline and proves properties of it.

The source declares the pipeline twice. `gpm/ctx.go` and `gpm/context.go` both define `Ctx`, `NewCtx`, `init`, `Get` and `UpdateVersion`. `gpm/util.go` and `gpm/ctx.go` both declare `scpSyntaxRe`. The Go package cannot compile as it stands, so each file is modelled as its own module.

Modules, one per source file:

- `Util` (gpm/util.go): the SCP-address recogniser `^([a-zA-Z0-9_]+)@([a-zA-Z0-9._-]+):(.*)$`, the cache key built from a remote, `CacheLocal` (the key under `<home>/.gpm`) and `ParseRepo`. The regex appears identically in gpm/ctx.go and is modelled once, here.
- `Conf` (gpm/conf.go):
  - `Dependency`: a class, because the pipeline updates dependencies in place.
  - `NewDependency`.
  - `Config`: a class whose `imports` sequence is rewritten by `AddDependency` and `DelDependency`.
  - The name/version repair loop run after loading, over possibly aliased dependency objects.
- `Ctx` (gpm/ctx.go):
  - `UpdateVersion`, `UpdateSemver`, `GetAllRefs` and `GetOrUpdateRepo`.
  - The scan of `git ls-remote` output with the pattern `(?m-s)(?:tags)/(\S+)$`.
  - The `Ctx` class, with `GetCacheLocal`, `GoPath`, `SetWorkDir`, `findGoPath` and the `Get` orchestrator.
- `Context` (gpm/context.go, live lines 1-164):
  - URL normalisation and vendor-path derivation, both as written and as evidently intended.
  - The tolerant `UpdateVersion`.
  - Its `Get`, as written: the scheme appended to a bare URL and the vendor path cut with `strings.TrimRight` (see "Findings" for both).
- `Build` (cmd/build.go): target-name selection, `findGoPath` (which accepts `src` and `bin` only) and the build target `<gopath>/bin/<name>`.

Helper modules:

- `Wrappers`: `Option`, `Result` and `Outcome`.
- `Strings`: the parts of Go's `strings` package used.
- `Paths`: slash paths, with `Join`, `Base`, `Dir` and the bounded upward GOPATH search.
- `Semver`: Masterminds semver as an abstract library record:
  - a version type with a precedence preorder;
  - version and constraint parsing;
  - `Original` and `String`.

  It holds the selection rule that both `UpdateVersion` variants share, proved once: the chosen reference is a least satisfying one.
- `Vcs`: Masterminds vcs as an abstract repository over a `Disk`. The disk maps mirror paths and vendor directories to revisions.
- `Resolve`: the decision both `UpdateVersion` variants make, and the repository state after it.

Inputs taken as parameters:

- what `url.Parse`, `Home()` and `os.Getwd` return;
- whether `./src` is a directory;
- the output of `git ls-remote`;
- what the remote and the version-control tool answer (`Vcs.Facts`).

## Model

| member | source | states |
|---|---|---|
| Util.ScpMatch | gpm/util.go:74 | a match yields a user and host drawn from the regex classes and a newline-free path, and these three rebuild the input as user@host:path |
| Util.ScpMatchComplete | gpm/util.go:74 | every user@host:path with class-conforming user and host is matched, split at the first '@' and the next ':' |
| Util.UrlKey | gpm/util.go:103-115 | the key never contains ':' |
| Util.CacheLocal | gpm/util.go:77-123 | a parse error or a Home error is returned; otherwise the result is Join(home, ".gpm", key) |
| Util.ScpUrlKey | gpm/util.go:81-115 | the key of the SCP-derived URL, with the ssh scheme stripped, is user-host followed by the path with '/' and ':' as '-' |
| Util.ScpRepoKey | gpm/util.go:81-115 | an SCP address gets that key whatever url.Parse would say |
| Util.ScpKeyShape | gpm/util.go:103-115 | an SCP key starts with "user-" and holds neither '/' nor ':', so it is one path component |
| Util.CacheLocalScp | gpm/util.go:77-122 | an SCP address is cached at home/.gpm/<ScpKey> |
| Util.ScpPartsExample | gpm/util.go:82-84 | git, github.com and user/repo are valid SCP groups |
| Util.ScpKeyExample | gpm/util.go:82-84 | their key is git-github.com-user-repo |
| Util.ScpExample | gpm/util.go:82-84 | git@github.com:user/repo is cached at home/.gpm/git-github.com-user-repo |
| Util.SshKeyDiffersFromScp | gpm/util.go:99-115 | the explicit ssh:// URL of the same remote gets key "ssh-" + the SCP key, which differs from the SCP key |
| Util.SchemeKeyPrefix | gpm/util.go:104-106 | a URL with a ':'-free scheme gets a key starting with scheme + "-" |
| Util.ScpKeyCollides | gpm/util.go:111-115 | paths c/d and c-d give the same key a-b-c-d |
| Util.CacheKeyCollision | gpm/util.go:81-115 | a@b:c/d and a@b:c-d share a cache key, so the key is not injective |
| Util.ParseRepo | gpm/util.go:126-139 | as written: returns (repo, "") iff no '@' follows an optional leading "git@"; otherwise the tokens[1] index fails |
| Util.ParseRepoFixed | gpm/util.go:126-139 | intended: without such an '@' it returns (repo, ""); otherwise name + "@" + version == repo and the name has no '@' after "git@" |
| Util.ParseRepoPanics | gpm/util.go:133-135 | for github.com/u/r@v1.0 the code as written fails, while the intended parse gives (github.com/u/r, v1.0) |
| Conf.Dependency.constructor | gpm/conf.go:92 | name and version as given; repository and lock empty |
| Conf.Dependency.Remote | gpm/conf.go:49-59 | the repository when non-empty, else "https://" + name |
| Conf.DependencyFields | gpm/conf.go:73-94 | an error iff the input starts with "git@"; neither field contains '@'; without '@' the name is the input minus one "https://" and the version "" |
| Conf.DependencyFieldsSplit | gpm/conf.go:78-90 | [https://]name@version[@rest] yields exactly (name, version), so later segments are dropped |
| Conf.RemoteRecoversAddress | gpm/conf.go:49-94 | an https address without '@' is fetched from the same address again |
| Conf.NewDependency | gpm/conf.go:73-94 | fails iff DependencyFields fails; otherwise a fresh dependency with those fields, empty repository and lock |
| Conf.NamesOf | gpm/conf.go:159-160 | the names of the imports, position by position |
| Conf.Listed | gpm/conf.go:158-166 | true iff some dependency has the name |
| Conf.FirstIndex | gpm/conf.go:170-171 | the position of the first dependency with the name: no earlier one has it |
| Conf.AddedIdempotent | gpm/conf.go:181-185 | adding twice is adding once, and the name is present afterwards |
| Conf.AddedKeepsUnique | gpm/conf.go:181-185 | adding keeps the names unique |
| Conf.RemovedFirstKeepsUnique | gpm/conf.go:169-178 | deleting keeps the names unique, and on unique names the name is gone afterwards |
| Conf.AddThenRemove | gpm/conf.go:169-185 | deleting a name just added restores the names from before |
| Conf.IndexFirst | gpm/conf.go:170-171 | an occurrence with no earlier copy is the first one |
| Conf.Fix | gpm/conf.go:127-131 | only an empty version with an '@' in the name is repaired, into two '@'-free parts; name starts with part0 "@" part1, followed by '@' or the end |
| Conf.SplitShape | gpm/conf.go:128-130 | a piece after the first '@' that runs to the next '@' or the end is, with the first piece and the '@', a prefix of the text, followed by an '@' or nothing |
| Conf.PrefixThrough | gpm/conf.go:128-130 | the prefix through an '@' and what follows it, piece by piece |
| Conf.FixIsSplit | gpm/conf.go:128-130 | the repair is tokens[0] and tokens[1] of strings.Split(name, "@") |
| Conf.FixIdempotent | gpm/conf.go:126-132 | repairing twice is repairing once |
| Conf.Config.constructor | gpm/conf.go:97-106 | a new manifest has version 0.0.0 and no imports |
| Conf.Config.HasDependency | gpm/conf.go:158-166 | true iff the name is among the import names |
| Conf.Config.DelDependency | gpm/conf.go:169-178 | true iff the name was present; then exactly the first such import is removed and the rest keep their order; otherwise nothing changes |
| Conf.Config.AddDependency | gpm/conf.go:181-185 | appends iff the name is absent; the names become Added(old names, name) |
| Conf.Dependency.Repair | gpm/conf.go:126-130 | one dependency ends with Fix of its name and version (the strings.Split tokens 0 and 1); repository and lock are unchanged |
| Conf.Config.FixImports | gpm/conf.go:126-132 | every import, including one listed twice, ends with Fix of its loaded name and version; repository and lock are unchanged |
| Semver.ParsedFromRefs | gpm/ctx.go:177-183 | every parsed version comes from some reference, and its Original is that reference |
| Semver.RefsInParsed | gpm/ctx.go:177-183 | every reference that parses is among the parsed versions |
| Semver.InsertPermutes | gpm/ctx.go:186 | insertion adds exactly one element |
| Semver.InsertBounded | gpm/ctx.go:186 | insertion keeps a common upper bound |
| Semver.InsertSorted | gpm/ctx.go:186 | insertion keeps a descending sequence descending |
| Semver.SortDescendingCorrect | gpm/ctx.go:186 | the sorted versions are in descending order and are a permutation of the input |
| Semver.LastSatisfyingIsLeast | gpm/ctx.go:188-193 | over a descending sequence, the last satisfying element exists iff one satisfies, and ranks at or below every satisfying one |
| Semver.ChooseIsLeastSatisfying | gpm/ctx.go:177-193 | "" iff no reference satisfies; otherwise a satisfying reference ranking at or below every satisfying reference |
| Semver.SelectVersion | gpm/ctx.go:177-193 | the three loops compute Choose |
| Resolve.ResolvedCheckedOut | gpm/ctx.go:161-206 | acting on a decision leaves the mirrors exactly at CheckedOut: only the repository's own mirror moves, to a literal or picked reference it knows |
| Resolve.DecideSpec | gpm/ctx.go:161-198 | direct checkout iff a reference without '^'; then a bad constraint, then a listing error; a pick is a least satisfying reference; no match means none satisfies |
| Vcs.Fetched | gpm/ctx.go:285-291 | the fetch succeeds iff the remote is reachable; it adds the mirror and leaves other mirrors alone; a fresh clone is at the head revision, an existing mirror moves to the pull of its revision |
| Ctx.AllRefs | gpm/ctx.go:269-282 | Ok iff both listings work, with the tags before the branches; otherwise the first error |
| Ctx.TagStartLeftmost | gpm/ctx.go:224 | the search returns the leftmost position where the pattern matches, and none only when it matches nowhere |
| Ctx.ListedTagLeftmost | gpm/ctx.go:224-233 | FindString yields "" iff the pattern matches nowhere; otherwise the leftmost match, which starts with "tags/" |
| Ctx.LastListedTagIsLast | gpm/ctx.go:230-236 | the last matching line decides; with none the result is "" |
| Ctx.LastListedTagStep | gpm/ctx.go:231-235 | one more line replaces the result iff it matches |
| Ctx.ScanListing | gpm/ctx.go:230-236 | the loop leaves lastVersion at the tag of the last matching line |
| Ctx.DefaultVersion | gpm/ctx.go:255-261 | "~" + String of the version when the tag parses, else the tag itself |
| Ctx.DefaultVersionPins | gpm/ctx.go:251-261 | a non-empty tag gives a non-empty version that is "~"-prefixed or the tag |
| Ctx.GetOrUpdateRepo | gpm/ctx.go:285-291 | clone iff the mirror is absent, else update; the result and mirrors are as Fetched says; vendor untouched |
| Ctx.GetAllRefs | gpm/ctx.go:269-282 | equals AllRefs of the repository's listings |
| Ctx.FindLastVersion | gpm/ctx.go:223-249 | git: the last listed tag of the ls-remote output; otherwise the last tag once the fetch works; the mirror is fetched only for non-git |
| Ctx.UpdateSemver | gpm/ctx.go:212-266 | no-op when a version is set; otherwise passes iff a non-empty last version is found, then version is DefaultVersion and lock the last version, else dep unchanged |
| Ctx.UpdateVersion | gpm/ctx.go:155-209 | the mirrors end as Resolved(Decide(...)) says; the lock changes only to a picked reference after a working checkout; name, version and repository unchanged |
| Ctx.Ctx.constructor | gpm/ctx.go:46-57 | home and working directory as given, cache dir .gpm, vendor dir vendor, no cached GOPATH |
| Ctx.Ctx.GetCacheLocal | gpm/ctx.go:297-338 | a parse error is returned; otherwise Join(cacheDir, key) |
| Ctx.Ctx.FindGoPath | gpm/ctx.go:70-95 | GoPathFor with src, bin and pkg; a non-empty search result is the parent of a marked ancestor within three levels |
| Ctx.Ctx.GoPath | gpm/ctx.go:60-67 | a non-empty cache is returned as is; otherwise it is filled by findGoPath |
| Ctx.Ctx.SetWorkDir | gpm/ctx.go:98-102 | sets the working directory and forgets the cached GOPATH |
| Ctx.Ctx.Get | gpm/ctx.go:341-402 | error returns for key, NewRepo and fetch; the old revision is read before the fetch; after a fetch the version, lock and all mirrors are Settled of the fetched state, so the exported revision is the settled mirror's; export iff the revision changed or the vendor dir is missing, and an export failure is returned |
| Ctx.Settle | gpm/ctx.go:360-387 | version, lock and mirrors end as Settled: UpdateSemver's default version and lock in Init mode, UpdateVersion's checkout and picked lock in Init and Update mode, then the lock checkout; name, repository and vendor untouched |
| Ctx.SettleSemver | gpm/ctx.go:360-365 | the version, lock and mirrors end as SemverStep in Init mode and unchanged otherwise; UpdateSemver runs only for an empty version |
| Ctx.SettleResolve | gpm/ctx.go:367-370 | the version, lock and mirrors end as ResolveStep in Init and Update mode and unchanged in Install mode |
| Ctx.SettledKeeps | gpm/ctx.go:360-387 | Install changes neither version nor lock, Update keeps the version, a present mirror stays, and no mirror but the dependency's own changes |
| Ctx.InstallChecksOutLock | gpm/ctx.go:372-387 | in Install mode a mirror not at a known lock ends at the lock, pulled when the remote is reachable |
| Ctx.CheckoutLock | gpm/ctx.go:372-387 | a non-empty lock the mirror is not at is checked out if it is a reference and then pulled; failures only leave the mirror as it was |
| Ctx.ExportIfChanged | gpm/ctx.go:389-399 | exports iff the revision now differs or the vendor dir is missing; a working export writes the current revision there |
| Ctx.CacheLocalUnderHome | gpm/ctx.go:337 | CacheLocal of gpm/util.go is GetCacheLocal (with cache dir .gpm) placed under home |
| Ctx.GetCacheLocalScp | gpm/ctx.go:301-337 | an SCP address is cached at .gpm/<ScpKey> |
| Ctx.GetCacheLocalExample | gpm/ctx.go:305-307 | git@github.com:user/repo is cached at .gpm/git-github.com-user-repo |
| Context.NormaliseUrlAsWritten | gpm/context.go:52-54 | as written: a URL without git@ prefix and without "://" gets "https://" appended; others are unchanged |
| Context.NormaliseAppendsScheme | gpm/context.go:52-54 | such a URL (8+ characters) still has no https:// prefix, so its vendor path is itself with "https://" at the end |
| Context.NormaliseExample | gpm/context.go:52-54 | github.com/u/r becomes github.com/u/rhttps:// as written, https://github.com/u/r as intended |
| Context.NormaliseUrl | gpm/context.go:52-54 | intended: "https://" is put in front of such a URL, and the result is never bare again |
| Context.NormaliseIdempotent | gpm/context.go:52-54 | normalising twice is normalising once |
| Context.NormaliseRoundTrip | gpm/context.go:52-97 | a bare URL is vendored under its own text after normalisation |
| Context.VendorPathHttps | gpm/context.go:95-97 | an https URL is vendored under the text after "https://" |
| Context.VendorPathScp | gpm/context.go:91-94 | intended: git@host:path.git is vendored as host/path for a ':'-free host |
| Context.VendorPathScpAsWritten | gpm/context.go:91-94 | as written, git@host:path.git is vendored as host/path only when the path does not end in '.', 'g', 'i' or 't' (and a ':'-free host) |
| Context.VendorPathScpPlain | gpm/context.go:91-94 | intended: git@host:path without .git is vendored as host/path as well |
| Context.TrimRightTail | gpm/context.go:93 | TrimRight strips a trailing run of cut-set characters and stops at the first other one |
| Context.VendorPathAsWrittenExample | gpm/context.go:91-94 | as written, git@h:u/digit.git is vendored as h/u/d |
| Context.VendorPathExample | gpm/context.go:91-94 | intended: git@h:u/digit.git is vendored as h/u/digit |
| Context.TolerantRefsSpec | gpm/context.go:126-133 | the references are those of the listings that worked; with both working this equals GetAllRefs; with neither it is empty |
| Context.UpdateVersion | gpm/context.go:112-164 | the mirrors end as Resolved(Decide(...)) says, over the tolerant listing; vendor untouched |
| Context.ResolveRevision | gpm/context.go:78-80 | the revisions before and after UpdateVersion, the latter ResolvedRevision of the former; only the mirror of the repository moves, to it |
| Context.ExportWhen | gpm/context.go:99-106 | exports iff the directory is missing or the revision changed; a working export writes the mirror's revision; failure iff the export cannot be made |
| Context.ExportTargetBare | gpm/context.go:52-100 | as written, a bare URL is exported into vendor/<url>https:// |
| Context.UpdateAndExport | gpm/context.go:77-109 | the mirror moves to the resolved revision; when the remote is unreachable the second update fails and nothing is exported; otherwise the mirror is pulled from the resolved revision and exported, iff the directory is missing or the revision moved, with "repo export fail" when the export fails |
| Context.Get | gpm/context.go:51-109 | as written (appended scheme, cut-set trim): key, NewRepo and fetch errors abort; old revision after the fetch, new after the resolution; all mirrors end as fetched with the own one pulled from the new revision; export iff the vendor dir is missing or the revisions differ, writing that pulled revision |
| Build.TargetName | cmd/build.go:41-54 | the name flag if set, else the manifest name unless "" or ".", else the base of the working directory when known; when that fails, "." stays "." and an empty name becomes "server"; never "" |
| Build.ServerIsFallback | cmd/build.go:51-53 | when no input is "server", the target is "server" iff flag and manifest name are empty and Getwd failed |
| Build.FindGoPath | cmd/build.go:82-108 | GoPathFor with src and bin only; a non-empty search result is the parent of a marked ancestor within three levels |
| Build.PkgOnlyInCtx | cmd/build.go:99 | a working directory named pkg is a GOPATH marker for the Ctx search but not for the build command |
| Build.Run | cmd/build.go:37-68 | the gopath flag, else findGoPath; with none an error "cannot find gopath"; otherwise target gopath/bin/<TargetName> and GOPATH=<gopath> |
| Paths.JoinAround | cmd/build.go:68 | Join of three non-empty elements is the first, "/" + middle + "/", and the last (gopath/bin/name, home/.gpm/key) |
| Paths.SearchMarkedParent | gpm/ctx.go:83-94 | the loop computes MarkedParent for three levels: the first of wd and its two ancestors with a marked base yields its parent, else "" |
| Paths.FindGoPath | gpm/ctx.go:70-95 | "" when Getwd fails, wd when ./src is a directory, else the upward search |
| Paths.MarkedParentFound | gpm/ctx.go:83-94 | a non-empty search result is Dir of a marked ancestor within the first n |

## Left out

- The Go package does not compile as shown. gpm/ctx.go and gpm/context.go declare the same names, and ctx.go uses `dep.VersionLock` where gpm/conf.go:44 declares the field `Reversion`. The model names that field `versionLock` and keeps each file in its own module.
- I/O is not modelled:
  - reading and writing gpm.yaml and gpm.lock (YAML, gpm/lock.go);
  - logging with `Info` and `Die` (gpm/logger.go);
  - `os.Chdir`;
  - running `git ls-remote` and `go build`, whose outputs and effects are inputs or left out.
- The environment is not queried. The results of `url.Parse`, `Home()`, `os.Getwd`, `os.Stat`/`Exists` and `filepath.Abs` are parameters. `filepath.Abs` is modelled as joining the working directory in front.
- Paths.Join: filepath.Join's Clean (collapsing `.`, `..` and repeated slashes) is not modelled; only the trailing-slash part of Clean is kept in Base and Dir.
- The vcs library (`NewRepo`, `Get`, `Update`, `UpdateVersion`, `Current`, `Tags`, `Branches`, `IsReference`, `ExportDir`) is part of Masterminds vcs, not of this repository. The `Vcs` module replaces it with an abstract repository:
  - what a command answers is fixed per repository (`Vcs.Facts`);
  - an export records only the revision written, not the file contents.
- The semver library is part of Masterminds semver. The `Semver` module replaces it with an abstract record of functions.
- Semver.SortDescending: sort.Sort's own order among equal versions (it is unstable) is replaced by insertion order. The selection properties are therefore stated up to version precedence, not string identity.
- Error texts carry only the fixed part of each message (for example "repo create fail"), not the formatted details.
- The `init` functions only read the environment. In gpm/context.go:36-39 `CacheDir` is set only after `Die`, i.e. never in a run that continues; the context.go `Get` does not read it, so it is not modelled. `AutoChangeDir`, `MustLoad`, `Load` and `Save` walk or read the disk and are not modelled.
- Commented-out code is not modelled: gpm/context.go:166-584 and gpm/conf.go:147-155, 187-239.
- Context.Get: the outcome of the second `repo.Update` (gpm/context.go:83-85) is modelled, but after a successful fetch it cannot fail, because reachability is one fixed fact per repository. Get follows the code as written; the corrected normalisation and vendor path are proved on their own (NormaliseRoundTrip, VendorPathScp) and no corrected Get is modelled.

## Findings

| source | as written | input that shows it | evidently intended | confidence | as-written member | corrected member |
|---|---|---|---|---|---|---|
| gpm/context.go:52-54 | `url += "https://"` appends the scheme to a bare URL | github.com/u/r becomes github.com/u/rhttps:// and is vendored under that name | prepend it: https://github.com/u/r, vendored as github.com/u/r | high, not executed | Context.NormaliseExample | Context.NormaliseRoundTrip |
| gpm/context.go:93 | `strings.TrimRight(path, ".git")` strips every trailing '.', 'g', 'i' and 't' | git@h:u/digit.git is vendored as h/u/d | remove the ".git" suffix: h/u/digit | high, not executed | Context.VendorPathAsWrittenExample | Context.VendorPathExample |
| gpm/util.go:133-135 | `strings.SplitAfterN(repo, "@", 1)` returns one element, so `tokens[1]` is out of range | github.com/u/r@v1.0 panics | split at the '@': (github.com/u/r, v1.0) | high, not executed | Util.ParseRepoPanics | Util.ParseRepoFixed |
