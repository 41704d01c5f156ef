/** The functions of Go's `strings` package that the core uses, on `seq<char>`. */
module Strings {

  /** strings.HasPrefix */
  predicate HasPrefix(s: string, prefix: string) {
    prefix <= s
  }

  /** strings.HasSuffix */
  predicate HasSuffix(s: string, suffix: string) {
    |suffix| <= |s| && s[|s| - |suffix|..] == suffix
  }

  /** strings.TrimPrefix: drops one copy of `prefix` when `s` starts with it. */
  function TrimPrefix(s: string, prefix: string): (r: string)
    ensures HasPrefix(s, prefix) ==> prefix + r == s
    ensures !HasPrefix(s, prefix) ==> r == s
  {
    if HasPrefix(s, prefix) then s[|prefix|..] else s
  }

  /** strings.TrimSuffix: drops one copy of `suffix` when `s` ends with it. */
  function TrimSuffix(s: string, suffix: string): (r: string)
    ensures HasSuffix(s, suffix) ==> r + suffix == s
    ensures !HasSuffix(s, suffix) ==> r == s
  {
    if HasSuffix(s, suffix) then s[..|s| - |suffix|] else s
  }

  /** strings.IndexByte: the first position of `c`, or -1. */
  function Index(s: string, c: char): (i: int)
    ensures -1 <= i < |s|
    ensures i == -1 <==> c !in s
    ensures 0 <= i ==> s[i] == c && c !in s[..i]
  {
    if s == [] then -1
    else if s[0] == c then 0
    else
      var j := Index(s[1..], c);
      assert s[1..][..j + 1] == s[1..j + 2] by { assert j + 1 <= |s[1..]| || j == -1; }
      if j == -1 then -1 else j + 1
  }

  /** strings.LastIndexByte: the last position of `c`, or -1. */
  function LastIndex(s: string, c: char): (i: int)
    ensures -1 <= i < |s|
    ensures i == -1 <==> c !in s
    ensures 0 <= i ==> s[i] == c && c !in s[i + 1..]
  {
    if s == [] then -1
    else if s[|s| - 1] == c then |s| - 1
    else LastIndex(s[..|s| - 1], c)
  }

  /** strings.Contains with a multi-character needle. */
  predicate ContainsText(s: string, needle: string)
    decreases |s|
  {
    needle <= s || (s != [] && ContainsText(s[1..], needle))
  }

  /** strings.Replace(s, old, new, -1) for one-character `old` and `new`. */
  function Replace(s: string, from: char, to: char): (r: string)
    ensures |r| == |s|
  {
    if s == [] then [] else [if s[0] == from then to else s[0]] + Replace(s[1..], from, to)
  }

  /** strings.Replace(s, old, new, 1) for one-character `old` and `new`. */
  function ReplaceFirst(s: string, from: char, to: char): (r: string)
    ensures from !in s ==> r == s
    ensures from in s ==> r == s[..Index(s, from)] + [to] + s[Index(s, from) + 1..]
  {
    var i := Index(s, from);
    if i < 0 then s else s[..i] + [to] + s[i + 1..]
  }

  /** strings.TrimRight: drops the longest suffix made of characters of `cutset`. */
  function TrimRight(s: string, cutset: set<char>): (r: string)
    ensures r <= s
    ensures r == [] || r[|r| - 1] !in cutset
    ensures forall i :: |r| <= i < |s| ==> s[i] in cutset
  {
    if s != [] && s[|s| - 1] in cutset then TrimRight(s[..|s| - 1], cutset) else s
  }

  /** strings.TrimLeft: drops the longest prefix made of characters of `cutset`. */
  function TrimLeft(s: string, cutset: set<char>): (r: string)
    ensures |r| <= |s| && r == s[|s| - |r|..]
    ensures r == [] || r[0] !in cutset
    ensures forall i :: 0 <= i < |s| - |r| ==> s[i] in cutset
  {
    if s != [] && s[0] in cutset then TrimLeft(s[1..], cutset) else s
  }

  /** The characters unicode.IsSpace accepts. */
  const UnicodeSpace: set<char> := {
    '\t', '\n', '\U{B}', '\U{C}', '\r', ' ', '\U{85}', '\U{A0}', '\U{1680}',
    '\U{2000}', '\U{2001}', '\U{2002}', '\U{2003}', '\U{2004}', '\U{2005}',
    '\U{2006}', '\U{2007}', '\U{2008}', '\U{2009}', '\U{200A}',
    '\U{2028}', '\U{2029}', '\U{202F}', '\U{205F}', '\U{3000}' }

  /** strings.TrimSpace */
  function TrimSpace(s: string): (r: string)
    ensures r == [] || (r[0] !in UnicodeSpace && r[|r| - 1] !in UnicodeSpace)
  {
    TrimRight(TrimLeft(s, UnicodeSpace), UnicodeSpace)
  }

  /** strings.Split(s, sep) for a one-character `sep`: the pieces between separators. */
  function Split(s: string, sep: char): (pieces: seq<string>)
    ensures |pieces| >= 1
    ensures sep !in s <==> |pieces| == 1
    ensures pieces[0] == if sep in s then s[..Index(s, sep)] else s
    ensures forall k :: 0 <= k < |pieces| ==> sep !in pieces[k]
    decreases |s|
  {
    var i := Index(s, sep);
    if i < 0 then [s] else [s[..i]] + Split(s[i + 1..], sep)
  }

  /** The piece after the first separator, up to the next one (`tokens[1]` of a split). */
  lemma {:induction false} SplitSecond(s: string, sep: char)
    requires sep in s
    ensures var rest := s[Index(s, sep) + 1..];
      Split(s, sep)[1] == if sep in rest then rest[..Index(rest, sep)] else rest
  {
  }

  /** The first occurrence is the one with no earlier copy. */
  lemma IndexAt(s: string, c: char, i: nat)
    requires i < |s| && s[i] == c && c !in s[..i]
    ensures Index(s, c) == i
  {
  }

  /** A string is what comes before position `i`, the character there, and what follows. */
  lemma Around(s: string, i: nat)
    requires i < |s|
    ensures s == s[..i] + [s[i]] + s[i + 1..]
  {
  }

  /** Each character is replaced or kept in place. */
  lemma {:induction false} ReplaceAt(s: string, from: char, to: char, i: nat)
    requires i < |s|
    ensures Replace(s, from, to)[i] == if s[i] == from then to else s[i]
  {
    if i > 0 { ReplaceAt(s[1..], from, to, i - 1); }
  }

  /** Replace is determined pointwise: a string that agrees with it at every position is its result. */
  lemma ReplaceIs(s: string, from: char, to: char, t: string)
    requires |t| == |s|
    requires forall i :: 0 <= i < |s| ==> t[i] == if s[i] == from then to else s[i]
    ensures Replace(s, from, to) == t
  {
    forall i | 0 <= i < |s| ensures Replace(s, from, to)[i] == t[i] {
      ReplaceAt(s, from, to, i);
    }
  }

  /** Replacing characters commutes with concatenation. */
  lemma {:induction false} ReplaceAppend(a: string, b: string, from: char, to: char)
    ensures Replace(a + b, from, to) == Replace(a, from, to) + Replace(b, from, to)
  {
    if a == [] {
      assert a + b == b;
    } else {
      assert (a + b)[0] == a[0] && (a + b)[1..] == a[1..] + b;
      ReplaceAppend(a[1..], b, from, to);
    }
  }

  /** After replacing `from` by another character, no `from` is left. */
  lemma {:induction false} ReplaceRemoves(s: string, from: char, to: char)
    requires from != to
    ensures from !in Replace(s, from, to)
  {
    if s != [] { ReplaceRemoves(s[1..], from, to); }
  }

  /** A character other than `from` and `to` survives a replacement exactly where it was. */
  lemma {:induction false} ReplaceKeeps(s: string, from: char, to: char, c: char)
    requires c != from && c != to
    ensures c in Replace(s, from, to) <==> c in s
  {
    if s != [] {
      ReplaceKeeps(s[1..], from, to, c);
      assert s == [s[0]] + s[1..];
    }
  }

  /** A string without `from` is left as it is. */
  lemma {:induction false} ReplaceAbsent(s: string, from: char, to: char)
    requires from !in s
    ensures Replace(s, from, to) == s
  {
    if s != [] {
      assert s == [s[0]] + s[1..];
      ReplaceAbsent(s[1..], from, to);
    }
  }
}
