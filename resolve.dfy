/**
 * The rule both UpdateVersion variants (gpm/ctx.go and gpm/context.go) apply to a version
 * string, stated once: what is decided, and what the repository looks like afterwards.
 */
module Resolve {
  import opened Wrappers
  import opened Semver
  import Vcs

  /** What UpdateVersion does with a version string. */
  datatype Decision =
    | Direct(ref: string)        // a reference: checked out as it is
    | BadConstraint              // not a reference and not a valid constraint: an error
    | RefsFailed(error: string)  // listing the references failed: an error
    | NoMatch                    // no reference satisfies: nothing happens
    | Pick(ref: string)          // the reference chosen by the selection rule is checked out

  /**
   * The decision of UpdateVersion: a reference not starting with '^' is used directly;
   * otherwise the constraint is parsed, the references listed, and one chosen.
   */
  function Decide<V(!new)>(lib: Lib<V>, ver: string, isRef: bool, refs: Result<seq<string>>): Decision {
    if isRef && !(|ver| > 0 && ver[0] == '^') then Direct(ver)
    else
      match lib.constraint(ver)
      case None => BadConstraint
      case Some(check) =>
        match refs
        case Err(e) => RefsFailed(e)
        case Ok(rs) =>
          var found := Choose(lib, check, rs);
          if found == "" then NoMatch else Pick(found)
  }

  /**
   * The properties of the decision: the literal path is taken exactly for references
   * without '^'; the constraint and listing errors come next, in that order; a pick is a
   * least satisfying reference, and no match means that no reference satisfies.
   */
  lemma DecideSpec<V(!new)>(lib: Lib<V>, ver: string, isRef: bool, refs: Result<seq<string>>)
    requires lib.Valid()
    ensures var d := Decide(lib, ver, isRef, refs);
      var literal := isRef && !(|ver| > 0 && ver[0] == '^');
      && (d.Direct? <==> literal) && (d.Direct? ==> d.ref == ver)
      && (d.BadConstraint? <==> !literal && lib.constraint(ver).None?)
      && (d.RefsFailed? <==> !literal && lib.constraint(ver).Some? && refs.Err?)
      && (d.NoMatch? ==> forall i :: 0 <= i < |refs.value| ==> !Satisfies(lib, lib.constraint(ver).value, refs.value[i]))
      && (d.Pick? ==>
            && d.ref in refs.value
            && Satisfies(lib, lib.constraint(ver).value, d.ref)
            && forall i :: 0 <= i < |refs.value| && Satisfies(lib, lib.constraint(ver).value, refs.value[i]) ==>
                 lib.le(lib.parse(d.ref).value, lib.parse(refs.value[i]).value))
  {
    if !(isRef && !(|ver| > 0 && ver[0] == '^')) && lib.constraint(ver).Some? && refs.Ok? {
      ChooseIsLeastSatisfying(lib, lib.constraint(ver).value, refs.value);
    }
  }

  /**
   * The mirrors after a decision has been acted on: the literal and the picked reference
   * are checked out (which fails without a mirror or for an unknown reference); the
   * error cases and no match leave everything as it was.
   */
  predicate Resolved(d: Decision, o: Outcome, repo: Vcs.Repo, before: map<string, string>, after: map<string, string>) {
    if d.Direct? || d.Pick? then
      && (o.Pass? <==> repo.local in before && repo.IsReference(d.ref))
      && after == if o.Pass? then before[repo.local := d.ref] else before
    else
      && (o.Pass? <==> d.NoMatch?)
      && after == before
  }

  /** The mirrors after a decision: a literal or picked reference is checked out when the mirror exists and knows it. */
  function CheckedOut(d: Decision, references: set<string>, local: string, before: map<string, string>): map<string, string> {
    if (d.Direct? || d.Pick?) && local in before && d.ref in references then before[local := d.ref] else before
  }

  /** Acting on a decision moves at most the repository's own mirror, to exactly CheckedOut. */
  lemma ResolvedCheckedOut(d: Decision, o: Outcome, repo: Vcs.Repo, before: map<string, string>, after: map<string, string>)
    requires Resolved(d, o, repo, before, after)
    ensures after == CheckedOut(d, repo.facts.references, repo.local, before)
    ensures (d.Direct? || d.Pick?) ==> (o.Pass? <==> repo.local in before && d.ref in repo.facts.references)
    ensures forall p :: p in before && p != repo.local ==> p in after && after[p] == before[p]
    ensures after.Keys == before.Keys
  {
  }
}
