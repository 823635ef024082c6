/**
 * The parts of `pathlib.Path` and `str` that the conditions and the walk rely
 * on: the final component, the suffix, ASCII lower-casing, substring search,
 * the string form of a path and the parsing of a path string into components.
 */
module Paths {

  /** The components of an absolute, already resolved path; [] is the root "/". */
  type Path = seq<string>

  /** `Path.name`: the final component, "" for the root. */
  function Name(p: Path): string
  {
    if p == [] then "" else p[|p| - 1]
  }

  /** `Path.parent`; the root is its own parent. */
  function Parent(p: Path): Path
  {
    if p == [] then [] else p[..|p| - 1]
  }

  // ----- ASCII case folding (`str.lower` on ASCII text) -----

  predicate IsUpper(c: char)
  {
    'A' <= c <= 'Z'
  }

  function LowerChar(c: char): (r: char)
    ensures !IsUpper(r)
    ensures !IsUpper(c) ==> r == c
  {
    if IsUpper(c) then (c as int + 32) as char else c
  }

  function Lower(s: string): (r: string)
    ensures |r| == |s|
    ensures forall i :: 0 <= i < |s| ==> r[i] == LowerChar(s[i])
  {
    if s == [] then [] else [LowerChar(s[0])] + Lower(s[1..])
  }

  /** A string is in lower case when it has no upper-case letter. */
  predicate IsLower(s: string)
  {
    forall i :: 0 <= i < |s| ==> !IsUpper(s[i])
  }

  lemma LowerIsLower(s: string)
    ensures IsLower(Lower(s))
    ensures IsLower(s) ==> Lower(s) == s
  {
  }

  lemma LowerIdempotent(s: string)
    ensures Lower(Lower(s)) == Lower(s)
  {
    LowerIsLower(s);
  }

  lemma LowerAppend(a: string, b: string)
    ensures Lower(a + b) == Lower(a) + Lower(b)
  {
    var l, r := Lower(a + b), Lower(a) + Lower(b);
    forall i | 0 <= i < |l|
      ensures l[i] == r[i]
    {
      if i < |a| {
        assert (a + b)[i] == a[i];
      } else {
        assert (a + b)[i] == b[i - |a|];
      }
    }
  }

  // ----- substring search (`sub in s`) -----

  /** Python's `sub in s`: some position of `s` starts with `sub`; "" is in every string. */
  predicate IsSubstring(sub: string, s: string)
    decreases |s|
  {
    sub <= s || (s != [] && IsSubstring(sub, s[1..]))
  }

  /** `sub` occurs in `s` at position `i`. */
  predicate OccursAt(sub: string, s: string, i: int)
  {
    0 <= i <= |s| - |sub| && s[i..i + |sub|] == sub
  }

  lemma OccursShift(sub: string, s: string, i: int)
    requires s != [] && 0 <= i
    ensures OccursAt(sub, s[1..], i) <==> OccursAt(sub, s, i + 1)
  {
    if 0 <= i <= |s| - 1 - |sub| {
      assert s[1..][i..i + |sub|] == s[i + 1..i + 1 + |sub|];
    }
  }

  /** The recursive search agrees with "`sub` occurs at some position of `s`". */
  lemma {:induction false} IsSubstringIff(sub: string, s: string)
    ensures IsSubstring(sub, s) <==> exists i :: OccursAt(sub, s, i)
    decreases |s|
  {
    if sub <= s {
      assert OccursAt(sub, s, 0);
    } else if s != [] {
      IsSubstringIff(sub, s[1..]);
      if IsSubstring(sub, s[1..]) {
        var i :| OccursAt(sub, s[1..], i);
        OccursShift(sub, s, i);
      }
      if exists i :: OccursAt(sub, s, i) {
        var i :| OccursAt(sub, s, i);
        assert i != 0;
        OccursShift(sub, s, i - 1);
      }
    }
  }

  /** Lower-casing both sides keeps a substring a substring. */
  lemma {:induction false} LowerKeepsSubstring(sub: string, s: string)
    requires IsSubstring(sub, s)
    ensures IsSubstring(Lower(sub), Lower(s))
    decreases |s|
  {
    if sub <= s {
      assert Lower(sub) <= Lower(s);
    } else {
      LowerKeepsSubstring(sub, s[1..]);
      assert Lower(s)[1..] == Lower(s[1..]);
    }
  }

  // ----- `Path.suffix` -----

  /** `str.rfind('.')`: the index of the last '.', or -1. */
  function LastDot(s: string): (r: int)
    ensures -1 <= r < |s|
    ensures r >= 0 ==> s[r] == '.'
    ensures forall j :: r < j < |s| ==> s[j] != '.'
  {
    if s == [] then -1
    else if s[|s| - 1] == '.' then |s| - 1
    else LastDot(s[..|s| - 1])
  }

  /**
   * `Path.suffix` as CPython up to 3.13 computes it from the name: the text
   * from the last '.', provided that dot is neither the first nor the last
   * character; otherwise "".
   */
  function Suffix(name: string): (r: string)
    ensures r == [] || (2 <= |r| < |name| && r[0] == '.' && '.' !in r[1..] && r == name[|name| - |r|..])
  {
    var i := LastDot(name);
    if 0 < i < |name| - 1 then name[i..] else ""
  }

  /** The suffix is non-empty exactly when some dot, past the first character and
      before the last, has no dot after it. */
  lemma SuffixNonEmptyIff(name: string)
    ensures Suffix(name) != "" <==>
      exists i :: 0 < i < |name| - 1 && name[i] == '.' && '.' !in name[i + 1..]
  {
    var d := LastDot(name);
    if exists i :: 0 < i < |name| - 1 && name[i] == '.' && '.' !in name[i + 1..] {
      var i :| 0 < i < |name| - 1 && name[i] == '.' && '.' !in name[i + 1..];
      assert forall j :: i < j < |name| ==> name[j] == name[i + 1..][j - i - 1];
      assert d == i;
    }
  }

  /** A name built as stem "." ext, with a non-empty stem and a non-empty ext
      without dots, has suffix "." ext. */
  lemma SuffixOfStemAndExt(stem: string, ext: string)
    requires stem != "" && ext != "" && '.' !in ext
    ensures Suffix(stem + "." + ext) == "." + ext
  {
    var name := stem + "." + ext;
    var d := LastDot(name);
    assert name[|stem|] == '.';
    assert forall j :: |stem| < j < |name| ==> name[j] == ext[j - |stem| - 1];
    assert d == |stem|;
    assert name[d..] == "." + ext;
  }

  // ----- string form and parsing -----

  /** `str(path)` for an absolute path. */
  function Str(p: Path): string
  {
    if p == [] then "/" else Join(p)
  }

  function Join(p: Path): string
  {
    if p == [] then "" else "/" + p[0] + Join(p[1..])
  }

  /** `PurePath.is_absolute()` on POSIX. */
  predicate IsAbsolute(s: string)
  {
    |s| > 0 && s[0] == '/'
  }

  /** A component `PurePath` keeps: not empty, not ".", without a separator. */
  predicate IsComponent(c: string)
  {
    c != "" && c != "." && '/' !in c
  }

  predicate WellFormed(p: Path)
  {
    forall i :: 0 <= i < |p| ==> IsComponent(p[i])
  }

  /** The parts `PurePath` makes of a string: split at '/', dropping empty and "." segments. */
  function Components(s: string): (r: Path)
    ensures WellFormed(r)
  {
    ComponentsFrom(s, "")
  }

  function ComponentsFrom(s: string, segment: string): (r: Path)
    requires '/' !in segment
    ensures WellFormed(r)
    decreases |s|
  {
    if s == [] then Keep(segment)
    else if s[0] == '/' then Keep(segment) + ComponentsFrom(s[1..], "")
    else ComponentsFrom(s[1..], segment + [s[0]])
  }

  function Keep(segment: string): (r: Path)
    requires '/' !in segment
    ensures WellFormed(r)
  {
    if segment == "" || segment == "." then [] else [segment]
  }

  lemma {:induction false} ComponentsFromAbsorbs(w: string, rest: string, segment: string)
    requires '/' !in segment && '/' !in w
    ensures ComponentsFrom(w + rest, segment) == ComponentsFrom(rest, segment + w)
    decreases |w|
  {
    if w == [] {
      assert w + rest == rest;
      assert segment + w == segment;
    } else {
      assert (w + rest)[0] == w[0];
      assert (w + rest)[1..] == w[1..] + rest;
      ComponentsFromAbsorbs(w[1..], rest, segment + [w[0]]);
      assert segment + [w[0]] + w[1..] == segment + w;
    }
  }

  lemma {:induction false} ComponentsOfJoin(p: Path, segment: string)
    requires WellFormed(p) && IsComponent(segment)
    ensures ComponentsFrom(Join(p), segment) == [segment] + p
    decreases |p|
  {
    if p == [] {
    } else {
      var rest := p[0] + Join(p[1..]);
      assert Join(p) == "/" + rest;
      assert ("/" + rest)[1..] == rest;
      ComponentsFromAbsorbs(p[0], Join(p[1..]), "");
      assert "" + p[0] == p[0];
      ComponentsOfJoin(p[1..], p[0]);
      assert [p[0]] + p[1..] == p;
    }
  }

  /** Parsing the string form of a well-formed path gives the path back. */
  lemma StrRoundTrip(p: Path)
    requires WellFormed(p)
    ensures IsAbsolute(Str(p))
    ensures Components(Str(p)) == p
  {
    if p == [] {
      assert Str(p)[0] == '/' && Str(p)[1..] == "";
      assert ComponentsFrom("", "") == [];
    } else {
      var rest := p[0] + Join(p[1..]);
      assert Str(p) == "/" + rest;
      assert ("/" + rest)[1..] == rest;
      ComponentsFromAbsorbs(p[0], Join(p[1..]), "");
      assert "" + p[0] == p[0];
      ComponentsOfJoin(p[1..], p[0]);
      assert [p[0]] + p[1..] == p;
    }
  }
}
