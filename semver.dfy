/**
 * The parts of the Masterminds semver library the resolver relies on, kept abstract:
 * a version type `V`, its precedence preorder, version and constraint parsing, and the
 * `Original`/`String` renderings. The selection rule of UpdateVersion is defined and
 * proved here once; both UpdateVersion variants use it.
 */
module Semver {
  import opened Wrappers

  datatype Lib<!V(!new)> = Lib(
    parse: string -> Option<V>,             // semver.NewVersion
    constraint: string -> Option<V -> bool>, // semver.NewConstraint, then Constraints.Check
    le: (V, V) -> bool,                      // a <= b in version precedence
    original: V -> string,                   // Version.Original
    str: V -> string)                        // Version.String
  {
    /** What the library guarantees: a total preorder, and `Original` gives back the parsed text. */
    ghost predicate Valid() {
      && (forall a, b :: le(a, b) || le(b, a))
      && (forall a, b, c :: le(a, b) && le(b, c) ==> le(a, c))
      && (forall s :: parse(s).Some? ==> original(parse(s).value) == s)
      && parse("").None?
    }
  }

  /** The references that parse as versions, in order (the first loop of UpdateVersion). */
  function Parsed<V(!new)>(lib: Lib<V>, refs: seq<string>): seq<V>
  {
    if refs == [] then []
    else
      var vs := Parsed(lib, refs[..|refs| - 1]);
      match lib.parse(refs[|refs| - 1])
      case Some(v) => vs + [v]
      case None => vs
  }

  /** Every parsed version comes from some reference, and its Original is that reference. */
  lemma {:induction false} ParsedFromRefs<V(!new)>(lib: Lib<V>, refs: seq<string>, k: nat)
    requires lib.Valid()
    requires k < |Parsed(lib, refs)|
    ensures exists i :: 0 <= i < |refs| && lib.parse(refs[i]) == Some(Parsed(lib, refs)[k])
    ensures lib.original(Parsed(lib, refs)[k]) in refs
  {
    var init := refs[..|refs| - 1];
    var vs := Parsed(lib, init);
    if k < |vs| {
      ParsedFromRefs(lib, init, k);
      var i :| 0 <= i < |init| && lib.parse(init[i]) == Some(vs[k]);
      assert refs[i] == init[i];
    } else {
      assert lib.parse(refs[|refs| - 1]) == Some(Parsed(lib, refs)[k]);
    }
  }

  /** Every reference that parses contributes its version. */
  lemma {:induction false} RefsInParsed<V(!new)>(lib: Lib<V>, refs: seq<string>, i: nat)
    requires i < |refs| && lib.parse(refs[i]).Some?
    ensures lib.parse(refs[i]).value in Parsed(lib, refs)
  {
    var init := refs[..|refs| - 1];
    if i < |init| {
      assert init[i] == refs[i];
      RefsInParsed(lib, init, i);
    }
  }

  /** Highest version first: no element ranks above one before it. */
  ghost predicate Descending<V(!new)>(le: (V, V) -> bool, s: seq<V>) {
    forall i, j :: 0 <= i < j < |s| ==> le(s[j], s[i])
  }

  ghost predicate TotalPreorder<V(!new)>(le: (V, V) -> bool) {
    && (forall a, b :: le(a, b) || le(b, a))
    && (forall a, b, c :: le(a, b) && le(b, c) ==> le(a, c))
  }

  /** Insertion into a descending sequence, behind nothing that ranks below `x`. */
  function Insert<V(!new)>(le: (V, V) -> bool, x: V, s: seq<V>): seq<V>
  {
    if s == [] then [x]
    else if le(s[0], x) then [x] + s
    else [s[0]] + Insert(le, x, s[1..])
  }

  /** sort.Sort(sort.Reverse(semver.Collection(vs))), as an insertion sort. */
  function SortDescending<V(!new)>(le: (V, V) -> bool, s: seq<V>): seq<V>
  {
    if s == [] then [] else Insert(le, s[0], SortDescending(le, s[1..]))
  }

  lemma {:induction false} InsertPermutes<V(!new)>(le: (V, V) -> bool, x: V, s: seq<V>)
    ensures multiset(Insert(le, x, s)) == multiset(s) + multiset{x}
  {
    if s != [] && !le(s[0], x) {
      InsertPermutes(le, x, s[1..]);
      assert s == [s[0]] + s[1..];
    }
  }

  /** A bound above `x` and every element of `s` is a bound above the insertion. */
  lemma {:induction false} InsertBounded<V(!new)>(le: (V, V) -> bool, x: V, s: seq<V>, m: V)
    requires le(x, m) && forall k :: 0 <= k < |s| ==> le(s[k], m)
    ensures forall k :: 0 <= k < |Insert(le, x, s)| ==> le(Insert(le, x, s)[k], m)
  {
    if s != [] && !le(s[0], x) {
      InsertBounded(le, x, s[1..], m);
    }
  }

  lemma {:induction false} InsertSorted<V(!new)>(le: (V, V) -> bool, x: V, s: seq<V>)
    requires TotalPreorder(le) && Descending(le, s)
    ensures Descending(le, Insert(le, x, s))
  {
    if s == [] {
    } else if le(s[0], x) {
      InsertFront(le, x, s);
    } else {
      assert le(x, s[0]);
      var tail := s[1..];
      assert Descending(le, tail) && forall k :: 0 <= k < |tail| ==> le(tail[k], s[0]) by {
        assert forall k :: 0 <= k < |tail| ==> tail[k] == s[k + 1];
      }
      InsertSorted(le, x, tail);
      InsertBounded(le, x, tail, s[0]);
      ConsBounded(le, s[0], Insert(le, x, tail));
    }
  }

  /** `x` ranks at or above the head of a descending sequence, so it can go first. */
  lemma InsertFront<V(!new)>(le: (V, V) -> bool, x: V, s: seq<V>)
    requires TotalPreorder(le) && Descending(le, s) && s != [] && le(s[0], x)
    ensures Descending(le, [x] + s)
  {
    var r := [x] + s;
    forall i, j | 0 <= i < j < |r| ensures le(r[j], r[i]) {
      if i == 0 {
        if j > 1 {
          assert le(s[j - 1], s[0]);
        }
      } else {
        assert r[i] == s[i - 1] && r[j] == s[j - 1];
      }
    }
  }

  /** A bound of a descending sequence can be put in front of it. */
  lemma ConsBounded<V(!new)>(le: (V, V) -> bool, y: V, t: seq<V>)
    requires Descending(le, t) && forall k :: 0 <= k < |t| ==> le(t[k], y)
    ensures Descending(le, [y] + t)
  {
    var r := [y] + t;
    forall i, j | 0 <= i < j < |r| ensures le(r[j], r[i]) {
      assert r[j] == t[j - 1];
      if i > 0 { assert r[i] == t[i - 1]; }
    }
  }

  lemma {:induction false} SortDescendingCorrect<V(!new)>(le: (V, V) -> bool, s: seq<V>)
    requires TotalPreorder(le)
    ensures Descending(le, SortDescending(le, s))
    ensures multiset(SortDescending(le, s)) == multiset(s)
  {
    if s != [] {
      SortDescendingCorrect(le, s[1..]);
      InsertSorted(le, s[0], SortDescending(le, s[1..]));
      InsertPermutes(le, s[0], SortDescending(le, s[1..]));
      assert s == [s[0]] + s[1..];
    }
  }

  /** The version the last `found = v.Original()` of the walk came from, if any. */
  function LastSatisfying<V(!new)>(check: V -> bool, s: seq<V>): Option<V>
  {
    if s == [] then None
    else if check(s[|s| - 1]) then Some(s[|s| - 1])
    else LastSatisfying(check, s[..|s| - 1])
  }

  /** `found` as the walk leaves it: "" until a version satisfies. */
  function FoundText<V(!new)>(lib: Lib<V>, last: Option<V>): string
  {
    match last
    case None => ""
    case Some(v) => lib.original(v)
  }

  /**
   * On ANY descending order the last satisfying version ranks at or below every
   * satisfying one: the walk keeps a least satisfying version, not a greatest.
   */
  lemma {:induction false} LastSatisfyingIsLeast<V(!new)>(le: (V, V) -> bool, check: V -> bool, s: seq<V>)
    requires TotalPreorder(le) && Descending(le, s)
    ensures LastSatisfying(check, s).None? <==> forall k :: 0 <= k < |s| ==> !check(s[k])
    ensures LastSatisfying(check, s).Some? ==>
      var v := LastSatisfying(check, s).value;
      && (exists k :: 0 <= k < |s| && s[k] == v)
      && check(v)
      && forall k :: 0 <= k < |s| && check(s[k]) ==> le(v, s[k])
  {
    if s != [] && !check(s[|s| - 1]) {
      var init := s[..|s| - 1];
      assert Descending(le, init);
      LastSatisfyingIsLeast(le, check, init);
      if LastSatisfying(check, init).Some? {
        var k :| 0 <= k < |init| && init[k] == LastSatisfying(check, init).value;
        assert s[k] == init[k];
      }
      forall k | 0 <= k < |init| ensures s[k] == init[k] { }
    } else if s != [] {
      assert s[|s| - 1] == LastSatisfying(check, s).value;
      assert le(s[|s| - 1], s[|s| - 1]);
    }
  }

  /** The reference UpdateVersion checks out for `check`, or "" when no version satisfies. */
  function Choose<V(!new)>(lib: Lib<V>, check: V -> bool, refs: seq<string>): string
  {
    FoundText(lib, LastSatisfying(check, SortDescending(lib.le, Parsed(lib, refs))))
  }

  /** A reference that parses and satisfies the constraint. */
  ghost predicate Satisfies<V(!new)>(lib: Lib<V>, check: V -> bool, r: string) {
    lib.parse(r).Some? && check(lib.parse(r).value)
  }

  /**
   * The selection rule: the chosen text is a reference whose version satisfies the
   * constraint and ranks at or below the version of every satisfying reference;
   * it is "" exactly when no reference satisfies.
   */
  lemma ChooseIsLeastSatisfying<V(!new)>(lib: Lib<V>, check: V -> bool, refs: seq<string>)
    requires lib.Valid()
    ensures var found := Choose(lib, check, refs);
      && (found == "" <==> forall i :: 0 <= i < |refs| ==> !Satisfies(lib, check, refs[i]))
      && (found != "" ==>
            && found in refs
            && Satisfies(lib, check, found)
            && forall i :: 0 <= i < |refs| && Satisfies(lib, check, refs[i]) ==>
                 lib.le(lib.parse(found).value, lib.parse(refs[i]).value))
  {
    var vs := Parsed(lib, refs);
    var sorted := SortDescending(lib.le, vs);
    assert TotalPreorder(lib.le);
    SortDescendingCorrect(lib.le, vs);
    LastSatisfyingIsLeast(lib.le, check, sorted);
    var found := Choose(lib, check, refs);
    // membership moves between `vs` and `sorted` through the multiset
    forall v | v in sorted ensures v in vs {
      assert v in multiset(sorted);
    }
    forall v | v in vs ensures v in sorted {
      assert v in multiset(vs);
    }
    forall i | 0 <= i < |refs| && Satisfies(lib, check, refs[i])
      ensures LastSatisfying(check, sorted).Some?
      ensures lib.le(LastSatisfying(check, sorted).value, lib.parse(refs[i]).value)
    {
      RefsInParsed(lib, refs, i);
      var w := lib.parse(refs[i]).value;
      var k :| 0 <= k < |sorted| && sorted[k] == w;
    }
    match LastSatisfying(check, sorted)
    case None =>
    case Some(v) =>
      assert v in vs;
      var k :| 0 <= k < |vs| && vs[k] == v;
      ParsedFromRefs(lib, refs, k);
      var i :| 0 <= i < |refs| && lib.parse(refs[i]) == Some(v);
      assert found == refs[i];
  }

  /**
   * The two loops of UpdateVersion and the sort between them: collect the versions that
   * parse, sort them highest first, keep the Original of the last one that satisfies.
   */
  method SelectVersion<V(!new)>(lib: Lib<V>, check: V -> bool, refs: seq<string>) returns (found: string)
    ensures found == Choose(lib, check, refs)
  {
    var semvers: seq<V> := [];
    for i := 0 to |refs|
      invariant semvers == Parsed(lib, refs[..i])
    {
      assert refs[..i + 1][..i] == refs[..i];
      match lib.parse(refs[i]) {
        case Some(v) => semvers := semvers + [v];
        case None =>
      }
    }
    assert refs[..|refs|] == refs;
    semvers := SortDescending(lib.le, semvers);
    found := "";
    for k := 0 to |semvers|
      invariant found == FoundText(lib, LastSatisfying(check, semvers[..k]))
    {
      assert semvers[..k + 1][..k] == semvers[..k];
      if check(semvers[k]) {
        found := lib.original(semvers[k]);
      }
    }
    assert semvers[..|semvers|] == semvers;
  }
}
