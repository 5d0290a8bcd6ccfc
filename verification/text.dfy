/** The string operations the modelled code relies on from .NET: ordinal
    case-insensitive comparison, substring search, and the file-name part of
    a path. Case folding is ASCII-only; culture-specific folding is not
    modelled. */
module Text {

  /** ASCII lower-casing of one character. */
  function Lower(c: char): (r: char)
    ensures 'A' <= c <= 'Z' ==> r as int == c as int + 32
    ensures !('A' <= c <= 'Z') ==> r == c
    ensures !('A' <= r <= 'Z')
  {
    if 'A' <= c <= 'Z' then (c as int + 32) as char else c
  }

  function LowerString(s: string): (r: string)
    ensures |r| == |s|
    ensures forall i :: 0 <= i < |s| ==> r[i] == Lower(s[i])
  {
    if s == [] then [] else [Lower(s[0])] + LowerString(s[1..])
  }

  /** Equal ignoring ASCII case. */
  predicate EqualsIgnoreCase(a: string, b: string)
  {
    |a| == |b| && forall i :: 0 <= i < |a| ==> Lower(a[i]) == Lower(b[i])
  }

  /** `pattern` occurs in `s` at position `i`, ignoring case. */
  predicate MatchesAt(s: string, pattern: string, i: int)
  {
    0 <= i && i + |pattern| <= |s| && EqualsIgnoreCase(s[i..i + |pattern|], pattern)
  }

  predicate StartsWithIgnoreCase(s: string, prefix: string)
  {
    MatchesAt(s, prefix, 0)
  }

  /** Substring search by scanning from the front. */
  function ContainsIgnoreCase(s: string, pattern: string): (r: bool)
    ensures r <==> exists i :: MatchesAt(s, pattern, i)
    decreases |s|
  {
    if MatchesAt(s, pattern, 0) then true
    else if |s| <= |pattern| then
      assert forall i :: MatchesAt(s, pattern, i) ==> i == 0;
      false
    else
      var r := ContainsIgnoreCase(s[1..], pattern);
      forall i | 0 <= i ensures MatchesAt(s[1..], pattern, i) <==> MatchesAt(s, pattern, i + 1) {
        ShiftMatch(s, pattern, i);
      }
      assert (exists j :: MatchesAt(s, pattern, j)) ==> exists i :: MatchesAt(s[1..], pattern, i) by {
        if j :| MatchesAt(s, pattern, j) {
          assert MatchesAt(s[1..], pattern, j - 1);
        }
      }
      r
  }

  /** A match at `i + 1` in `s` is a match at `i` in its tail, and back. */
  lemma ShiftMatch(s: string, pattern: string, i: int)
    requires |s| > 0 && 0 <= i
    ensures MatchesAt(s[1..], pattern, i) <==> MatchesAt(s, pattern, i + 1)
  {
    if 0 <= i && i + |pattern| <= |s| - 1 {
      assert s[1..][i..i + |pattern|] == s[i + 1..i + 1 + |pattern|];
    }
  }

  /** Lower-casing a slice is slicing the lower-cased string. */
  lemma LowerSlice(s: string, i: int, j: int)
    requires 0 <= i <= j <= |s|
    ensures LowerString(s)[i..j] == LowerString(s[i..j])
  {
  }

  /** Comparing ignoring case does not see a prior lower-casing. */
  lemma EqualsIgnoresLower(a: string, b: string)
    ensures EqualsIgnoreCase(LowerString(a), b) == EqualsIgnoreCase(a, b)
  {
    if |a| == |b| {
      forall k | 0 <= k < |a| ensures Lower(LowerString(a)[k]) == Lower(a[k]) {
        assert !('A' <= Lower(a[k]) <= 'Z');
      }
    }
  }

  /** Searching ignores the case of the searched string. */
  lemma ContainsIgnoresCase(s: string, pattern: string)
    ensures ContainsIgnoreCase(LowerString(s), pattern) == ContainsIgnoreCase(s, pattern)
  {
    var l := LowerString(s);
    forall i ensures MatchesAt(l, pattern, i) == MatchesAt(s, pattern, i) {
      if 0 <= i && i + |pattern| <= |s| {
        LowerSlice(s, i, i + |pattern|);
        EqualsIgnoresLower(s[i..i + |pattern|], pattern);
      }
    }
  }

  /** Unix path separator. */
  const Separator: char := '/'

  /** The part of a path after its last separator: `Path.GetFileName`. */
  function FileName(path: string): (r: string)
    ensures |r| <= |path| && path[|path| - |r|..] == r
    ensures Separator !in r
    ensures |r| < |path| ==> path[|path| - |r| - 1] == Separator
    decreases |path|
  {
    if path == [] then []
    else if path[|path| - 1] == Separator then []
    else
      var init := path[..|path| - 1];
      var rest := FileName(init);
      assert path == init + [path[|path| - 1]];
      assert path[|path| - |rest| - 1..] == init[|init| - |rest|..] + [path[|path| - 1]];
      rest + [path[|path| - 1]]
  }

  /** A name that holds no separator is its own file name. */
  lemma {:induction false} FileNameOfName(name: string)
    requires forall k :: 0 <= k < |name| ==> name[k] != Separator
    ensures FileName(name) == name
    decreases |name|
  {
    if name != [] {
      FileNameOfName(name[..|name| - 1]);
      assert name == name[..|name| - 1] + [name[|name| - 1]];
    }
  }

  /** A directory, a separator and a separator-free name yield that name. */
  lemma {:induction false} FileNameOfJoin(directory: string, name: string)
    requires forall k :: 0 <= k < |name| ==> name[k] != Separator
    ensures FileName(directory + [Separator] + name) == name
    decreases |name|
  {
    var joined := directory + [Separator] + name;
    if name == [] {
      assert joined[|joined| - 1] == Separator;
    } else {
      FileNameOfJoin(directory, name[..|name| - 1]);
      assert joined[..|joined| - 1] == directory + [Separator] + name[..|name| - 1];
      assert name == name[..|name| - 1] + [name[|name| - 1]];
    }
  }
}
