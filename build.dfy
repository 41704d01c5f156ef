/**
 * cmd/build.go: the `build` command. It picks the target name, finds GOPATH and builds
 * into <gopath>/bin/<name>. Loading the manifest, os.Getwd, os.Stat and running
 * `go build` are inputs or left out; the model stops at the command line it would run.
 */
module Build {
  import opened Wrappers
  import opened Strings
  import Paths
  import Ctx

  /** The base names this findGoPath accepts: "pkg" is not among them. */
  const BuildMarks: set<string> := {"src", "bin"}

  /**
   * The target name of Run: the `name` flag, else the manifest name, else (for "" and ".")
   * the base of the working directory when it is known, else "server" for an empty name.
   */
  function TargetName(flag: string, confName: string, wd: Result<string>): (name: string)
    ensures name != ""
    ensures flag != "" ==> name == flag
    ensures flag == "" && confName != "" && confName != "." ==> name == confName
    ensures flag == "" && (confName == "" || confName == ".") && wd.Ok? ==> name == Paths.Base(wd.value)
    ensures flag == "" && confName == "." && wd.Err? ==> name == "."
    ensures flag == "" && confName == "" && wd.Err? ==> name == "server"
  {
    if flag != "" then flag
    else
      var fromConf := if (confName == "" || confName == ".") && wd.Ok? then Paths.Base(wd.value) else confName;
      if fromConf == "" then "server" else fromConf
  }

  /** "server" is only a fallback: it is used when nothing else names the target. */
  lemma ServerIsFallback(flag: string, confName: string, wd: Result<string>)
    requires flag != "server" && confName != "server" && (wd.Ok? ==> Paths.Base(wd.value) != "server")
    ensures TargetName(flag, confName, wd) == "server" <==> flag == "" && confName == "" && wd.Err?
  {
  }

  /** Build.findGoPath */
  method FindGoPath(wd: Result<string>, srcIsDir: bool) returns (gopath: string)
    ensures gopath == Paths.GoPathFor(wd, srcIsDir, BuildMarks)
    ensures wd.Ok? && !srcIsDir ==>
      gopath == "" || exists n :: 0 <= n < 3 && gopath == Paths.Dir(Paths.Ancestor(wd.value, n)) && Paths.Base(Paths.Ancestor(wd.value, n)) in BuildMarks
  {
    gopath := Paths.FindGoPath(wd, srcIsDir, BuildMarks);
  }

  /** A working directory named pkg is a GOPATH marker for the context, not for the build command. */
  lemma PkgOnlyInCtx(wd: string)
    requires Paths.Base(wd) == "pkg"
    requires Paths.Base(Paths.Dir(wd)) !in Ctx.GoPathMarks && Paths.Base(Paths.Dir(Paths.Dir(wd))) !in Ctx.GoPathMarks
    ensures Paths.GoPathFor(Ok(wd), false, Ctx.GoPathMarks) == Paths.Dir(wd)
    ensures Paths.GoPathFor(Ok(wd), false, BuildMarks) == ""
  {
  }

  /** The build Run prepares: the output path and the GOPATH setting of the environment. */
  datatype Plan = Plan(target: string, env: string)

  /**
   * Run up to the `go build` call: the gopath flag, else findGoPath; without a GOPATH the
   * command dies with "cannot find gopath", otherwise it builds into <gopath>/bin/<name>.
   */
  method Run(nameFlag: string, confName: string, gopathFlag: string, wd: Result<string>, srcIsDir: bool)
    returns (r: Result<Plan>)
    ensures var gopath := if gopathFlag != "" then gopathFlag else Paths.GoPathFor(wd, srcIsDir, BuildMarks);
      && (r.Err? <==> gopath == "")
      && (r.Err? ==> r.error == "cannot find gopath")
      && (r.Ok? ==> r.value.target == gopath + "/bin/" + TargetName(nameFlag, confName, wd))
      && (r.Ok? ==> r.value.env == "GOPATH=" + gopath)
  {
    var name := nameFlag;
    if name == "" {
      name := confName;
      if name == "" || name == "." {
        if wd.Ok? {
          name := Paths.Base(wd.value);
        }
      }
      if name == "" {
        name := "server";
      }
    }
    assert name == TargetName(nameFlag, confName, wd);
    var gopath := gopathFlag;
    if gopath == "" {
      gopath := FindGoPath(wd, srcIsDir);
    }
    if gopath == "" {
      return Err("cannot find gopath");
    }
    var target := Paths.Join([gopath, "bin", name]);
    assert "/" + "bin" + "/" == "/bin/";
    Paths.JoinAround(gopath, "bin", name, "/bin/");
    return Ok(Plan(target, "GOPATH=" + gopath));
  }
}
