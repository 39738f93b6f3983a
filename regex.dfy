/**
 * The part of Python's `re` that the downstream blacklist relies on:
 * `re.findall(pattern, name)` is non-empty exactly when the pattern matches
 * somewhere in the name. Patterns are literal characters, `.` (any character
 * but a newline) and the `*` repetition; every other metacharacter is outside
 * this fragment.
 */
module Regex {
  import opened Wrappers
  import opened Text

  datatype Atom = Literal(c: char) | AnyChar
  /** An atom matched once, or `atom*`. */
  datatype Piece = Once(atom: Atom) | Repeat(atom: Atom)
  /** `re.error` ("nothing to repeat", "multiple repeat"), or syntax beyond the fragment. */
  datatype PatternError = NothingToRepeat | MultipleRepeat | Unsupported(c: char)

  /** Metacharacters other than `.` and `*`. */
  const Special: set<char> := {'^', '$', '+', '?', '{', '}', '[', ']', '(', ')', '|', '\\'}

  function Parse(pattern: string): Result<seq<Piece>, PatternError> {
    ParseFrom(pattern, 0, [])
  }

  function ParseFrom(p: string, i: nat, acc: seq<Piece>): Result<seq<Piece>, PatternError>
    requires i <= |p|
    decreases |p| - i
  {
    if i == |p| then Ok(acc)
    else if p[i] == '*' then
      if acc == [] then Err(NothingToRepeat)
      else if acc[|acc| - 1].Repeat? then Err(MultipleRepeat)
      else ParseFrom(p, i + 1, acc[..|acc| - 1] + [Repeat(acc[|acc| - 1].atom)])
    else if p[i] in Special then Err(Unsupported(p[i]))
    else ParseFrom(p, i + 1, acc + [Once(if p[i] == '.' then AnyChar else Literal(p[i]))])
  }

  predicate AtomMatches(a: Atom, c: char) {
    match a
    case Literal(x) => c == x
    case AnyChar => c != '\n'
  }

  /** Some prefix of `s` (possibly empty) matches the pieces. */
  predicate MatchHere(ps: seq<Piece>, s: string)
    decreases |ps|, |s|
  {
    if ps == [] then true
    else match ps[0]
      case Once(a) => |s| > 0 && AtomMatches(a, s[0]) && MatchHere(ps[1..], s[1..])
      case Repeat(a) => MatchHere(ps[1..], s) || (|s| > 0 && AtomMatches(a, s[0]) && MatchHere(ps, s[1..]))
  }

  /** The pieces match starting at some position of `s`. */
  predicate Search(ps: seq<Piece>, s: string)
    decreases |s|
  {
    MatchHere(ps, s) || (|s| > 0 && Search(ps, s[1..]))
  }

  /** Whether `re.findall(pattern, name)` finds anything, or the error it raises. */
  function FindsMatch(pattern: string, name: string): Result<bool, PatternError> {
    match Parse(pattern)
    case Ok(ps) => Ok(Search(ps, name))
    case Err(e) => Err(e)
  }

  /** `.*` finds a (possibly empty) match in every name. */
  lemma AnyStarFindsAll(name: string)
    ensures FindsMatch(".*", name) == Ok(true)
  {
    var p := ".*";
    assert p[0] == '.' && p[0] !in Special && p[1] == '*';
    assert ParseFrom(p, 0, []) == ParseFrom(p, 1, [Once(AnyChar)]);
    assert [Once(AnyChar)][..0] + [Repeat(AnyChar)] == [Repeat(AnyChar)];
    assert ParseFrom(p, 1, [Once(AnyChar)]) == ParseFrom(p, 2, [Repeat(AnyChar)]);
    assert Parse(".*") == Ok([Repeat(AnyChar)]);
    assert MatchHere([Repeat(AnyChar)], name) by {
      assert [Repeat(AnyChar)][1..] == [];
    }
  }

  /** The pieces of a pattern made of plain characters only. */
  function Literals(p: string): seq<Piece> {
    seq(|p|, k requires 0 <= k < |p| => Once(Literal(p[k])))
  }

  predicate PlainPattern(p: string) {
    forall k :: 0 <= k < |p| ==> p[k] !in Special && p[k] != '*' && p[k] != '.'
  }

  lemma {:induction false} ParseLiterals(p: string, i: nat, acc: seq<Piece>)
    requires i <= |p| && PlainPattern(p)
    ensures ParseFrom(p, i, acc) == Ok(acc + Literals(p[i..]))
    decreases |p| - i
  {
    if i == |p| {
      assert Literals(p[i..]) == [];
      assert acc + [] == acc;
    } else {
      ParseLiterals(p, i + 1, acc + [Once(Literal(p[i]))]);
      assert Literals(p[i..]) == [Once(Literal(p[i]))] + Literals(p[i + 1..]);
      assert acc + [Once(Literal(p[i]))] + Literals(p[i + 1..]) == acc + Literals(p[i..]);
    }
  }

  lemma {:induction false} MatchHereLiterals(p: string, s: string)
    ensures MatchHere(Literals(p), s) <==> StartsWith(s, p)
    decreases |p|
  {
    if p != [] {
      assert Literals(p)[1..] == Literals(p[1..]);
      if |s| > 0 {
        MatchHereLiterals(p[1..], s[1..]);
        assert StartsWith(s, p) <==> s[0] == p[0] && StartsWith(s[1..], p[1..]) by {
          if |p| <= |s| {
            assert s[..|p|] == [s[0]] + s[1..][..|p| - 1];
            assert p == [p[0]] + p[1..];
          }
        }
      }
    }
  }

  lemma {:induction false} SearchLiterals(p: string, s: string)
    ensures Search(Literals(p), s) <==> Contains(s, p)
    decreases |s|
  {
    MatchHereLiterals(p, s);
    if |s| > 0 {
      SearchLiterals(p, s[1..]);
    }
  }

  /** A pattern without metacharacters finds a match exactly where it occurs as a substring. */
  lemma PlainPatternIsSubstring(pattern: string, name: string)
    requires PlainPattern(pattern)
    ensures FindsMatch(pattern, name) == Ok(Contains(name, pattern))
  {
    ParseLiterals(pattern, 0, []);
    assert pattern[0..] == pattern;
    assert [] + Literals(pattern) == Literals(pattern);
    SearchLiterals(pattern, name);
  }
}
