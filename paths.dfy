/** Slash-separated paths: the parts of Go's `path/filepath` the core uses. */
module Paths {
  import opened Wrappers
  import opened Strings

  /** filepath.Join without its final Clean: the non-empty elements, joined by '/'. */
  function Join(elems: seq<string>): (p: string)
    ensures (forall k :: 0 <= k < |elems| ==> elems[k] == "") ==> p == ""
  {
    if elems == [] then ""
    else
      var head, last := Join(elems[..|elems| - 1]), elems[|elems| - 1];
      if last == "" then head else if head == "" then last else head + "/" + last
  }

  /** Two non-empty elements are joined with a '/' between them. */
  lemma JoinTwo(a: string, b: string)
    requires a != "" && b != ""
    ensures Join([a, b]) == a + "/" + b
  {
    assert [a][..0] == [];
    assert Join([a]) == a;
    assert [a, b][..1] == [a];
  }

  /** Three non-empty elements are joined with a '/' between each two. */
  lemma JoinThree(a: string, b: string, c: string)
    requires a != "" && b != "" && c != ""
    ensures Join([a, b, c]) == a + "/" + b + "/" + c
  {
    assert [a][..0] == [];
    assert Join([a]) == a;
    assert [a, b][..1] == [a];
    assert Join([a, b]) == a + "/" + b;
    assert [a, b, c][..2] == [a, b];
  }

  /** Three non-empty elements with a fixed middle: the middle and its two slashes form one piece. */
  lemma JoinAround(a: string, b: string, c: string, mid: string)
    requires a != "" && b != "" && c != "" && mid == "/" + b + "/"
    ensures Join([a, b, c]) == a + mid + c
  {
    JoinThree(a, b, c);
    assert a + "/" + b + "/" + c == a + ("/" + b + "/") + c;
  }

  /** The trailing-slash part of filepath.Clean: "" is ".", all slashes is "/". */
  function CleanTail(p: string): (r: string)
    ensures r != ""
  {
    if p == "" then "."
    else
      var t := TrimRight(p, {'/'});
      if t == "" then "/" else t
  }

  /** filepath.Base: the last element after trailing slashes are removed. */
  function Base(p: string): (b: string)
    ensures b != ""
    ensures '/' in b ==> b == "/"
  {
    if p == "" then "."
    else
      var t := TrimRight(p, {'/'});
      if t == "" then "/" else t[LastIndex(t, '/') + 1..]
  }

  /** filepath.Dir: everything before the last element (Clean reduced to its trailing-slash part). */
  function Dir(p: string): (d: string)
    ensures d != ""
    ensures '/' !in p ==> d == "."
  {
    CleanTail(p[..LastIndex(p, '/') + 1])
  }

  /**
   * The upward search of findGoPath: the first of `dir` and its next `n - 1` ancestors
   * whose base name is in `marks` yields its parent; "" when none does.
   */
  function MarkedParent(dir: string, marks: set<string>, n: nat): string
    decreases n
  {
    if n == 0 then ""
    else if Base(dir) in marks then Dir(dir)
    else MarkedParent(Dir(dir), marks, n - 1)
  }

  /** The `for i := 0; i < 3; i++` walk from `wd` towards the root. */
  method SearchMarkedParent(wd: string, marks: set<string>) returns (gopath: string)
    ensures gopath == MarkedParent(wd, marks, 3)
    ensures gopath ==
      if Base(wd) in marks then Dir(wd)
      else if Base(Dir(wd)) in marks then Dir(Dir(wd))
      else if Base(Dir(Dir(wd))) in marks then Dir(Dir(Dir(wd)))
      else ""
  {
    var dir := wd;
    for i := 0 to 3
      invariant MarkedParent(dir, marks, 3 - i) == MarkedParent(wd, marks, 3)
    {
      if Base(dir) in marks {
        return Dir(dir);
      }
      dir := Dir(dir);
    }
    return "";
  }

  /**
   * What findGoPath returns: "" when the working directory is unknown, the working
   * directory itself when it holds a `src` directory, else the upward search.
   */
  function GoPathFor(wd: Result<string>, srcIsDir: bool, marks: set<string>): string {
    if wd.Err? then "" else if srcIsDir then wd.value else MarkedParent(wd.value, marks, 3)
  }

  /** findGoPath, given what os.Getwd returned and whether ./src is a directory. */
  method FindGoPath(wd: Result<string>, srcIsDir: bool, marks: set<string>) returns (gopath: string)
    ensures gopath == GoPathFor(wd, srcIsDir, marks)
    ensures wd.Ok? && !srcIsDir ==>
      gopath == "" || exists n :: 0 <= n < 3 && gopath == Dir(Ancestor(wd.value, n)) && Base(Ancestor(wd.value, n)) in marks
  {
    if wd.Err? {
      return "";
    }
    if srcIsDir {
      return wd.value;
    }
    gopath := SearchMarkedParent(wd.value, marks);
    MarkedParentFound(wd.value, marks, 3);
  }

  /** The n-th ancestor by filepath.Dir. */
  function Ancestor(p: string, n: nat): string
    decreases n
  {
    if n == 0 then p else Ancestor(Dir(p), n - 1)
  }

  /** A non-empty search result is the parent of a marked ancestor within the first `n`. */
  lemma {:induction false} MarkedParentFound(dir: string, marks: set<string>, n: nat)
    ensures MarkedParent(dir, marks, n) == "" ||
      exists k :: 0 <= k < n && MarkedParent(dir, marks, n) == Dir(Ancestor(dir, k)) && Base(Ancestor(dir, k)) in marks
    decreases n
  {
    if n > 0 && Base(dir) !in marks {
      var up := Dir(dir);
      var r := MarkedParent(up, marks, n - 1);
      assert MarkedParent(dir, marks, n) == r;
      MarkedParentFound(up, marks, n - 1);
      if r != "" {
        var k :| 0 <= k < n - 1 && r == Dir(Ancestor(up, k)) && Base(Ancestor(up, k)) in marks;
        AncestorOfParent(dir, k);
      }
    } else if n > 0 {
      assert Ancestor(dir, 0) == dir;
    }
  }

  /** The (k+1)-th ancestor is the k-th ancestor of the parent. */
  lemma AncestorOfParent(p: string, k: nat)
    ensures Ancestor(p, k + 1) == Ancestor(Dir(p), k)
  {
  }
}
