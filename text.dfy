/**
 * String helpers with the meaning Python gives them: `str.isspace`, the `in`
 * substring test, `startswith`/`endswith`, `split` on one character and `strip()`.
 */
module Text {

  /** Python's `str.isspace` (and the `\s` class of a `str` regular expression). */
  predicate IsSpace(c: char) {
    || ('\t' <= c <= '\r')
    || ('\U{1C}' <= c <= ' ')
    || c == '\U{85}' || c == '\U{A0}' || c == '\U{1680}'
    || ('\U{2000}' <= c <= '\U{200A}')
    || c == '\U{2028}' || c == '\U{2029}' || c == '\U{202F}' || c == '\U{205F}' || c == '\U{3000}'
  }

  predicate StartsWith(s: string, prefix: string) {
    |prefix| <= |s| && s[..|prefix|] == prefix
  }

  predicate EndsWith(s: string, suffix: string) {
    |suffix| <= |s| && s[|s| - |suffix|..] == suffix
  }

  /** `sub in s` for Python strings, by scanning the start positions of `s`. */
  predicate Contains(s: string, sub: string)
    decreases |s|
  {
    StartsWith(s, sub) || (|s| > 0 && Contains(s[1..], sub))
  }

  /** `sub` occurs in `s` at position `i`. */
  ghost predicate OccursAt(s: string, sub: string, i: int) {
    0 <= i && i + |sub| <= |s| && s[i..i + |sub|] == sub
  }

  /** The scan of `Contains` finds exactly the occurrences of `sub`. */
  lemma {:induction false} ContainsIffOccurs(s: string, sub: string)
    ensures Contains(s, sub) <==> exists i :: OccursAt(s, sub, i)
    decreases |s|
  {
    if StartsWith(s, sub) {
      assert OccursAt(s, sub, 0);
    } else if |s| == 0 {
      assert !exists i :: OccursAt(s, sub, i);
    } else {
      ContainsIffOccurs(s[1..], sub);
      if Contains(s[1..], sub) {
        var i :| OccursAt(s[1..], sub, i);
        assert s[1..][i..i + |sub|] == s[i + 1..i + 1 + |sub|];
        assert OccursAt(s, sub, i + 1);
      } else {
        forall i | OccursAt(s, sub, i) && i > 0 ensures OccursAt(s[1..], sub, i - 1) {
          assert s[1..][i - 1..i - 1 + |sub|] == s[i..i + |sub|];
        }
      }
    }
  }

  /** Whatever contains `a + b` contains `b`. */
  lemma ContainsSuffixPart(s: string, a: string, b: string)
    requires Contains(s, a + b)
    ensures Contains(s, b)
  {
    ContainsIffOccurs(s, a + b);
    var i :| OccursAt(s, a + b, i);
    assert s[i + |a|..i + |a| + |b|] == (a + b)[|a|..];
    assert OccursAt(s, b, i + |a|);
    ContainsIffOccurs(s, b);
  }

  /** The concatenation of a sequence of strings. */
  function Concat(parts: seq<string>): (r: string)
    ensures |parts| == 1 ==> r == parts[0]
  {
    if parts == [] then "" else parts[0] + Concat(parts[1..])
  }

  lemma {:induction false} ConcatAppend(a: seq<string>, b: seq<string>)
    ensures Concat(a + b) == Concat(a) + Concat(b)
  {
    if a == [] {
      assert a + b == b;
    } else {
      assert (a + b)[1..] == a[1..] + b;
      ConcatAppend(a[1..], b);
    }
  }

  /** Join `parts` with the separator `sep` (the inverse of `Split`). */
  function Join(parts: seq<string>, sep: char): string
    requires |parts| >= 1
  {
    if |parts| == 1 then parts[0] else parts[0] + [sep] + Join(parts[1..], sep)
  }

  /** Index of the first `sep` in `s`, or `|s|` when there is none. */
  function IndexOf(s: string, sep: char): (i: nat)
    ensures i <= |s|
    ensures sep !in s[..i]
    ensures i < |s| ==> s[i] == sep
  {
    if s == [] then 0
    else if s[0] == sep then 0
    else
      var j := IndexOf(s[1..], sep);
      assert s[..j + 1] == [s[0]] + s[1..][..j];
      j + 1
  }

  /** Python's `s.split(sep)` for a one-character separator. */
  function Split(s: string, sep: char): (r: seq<string>)
    ensures |r| >= 1
    ensures Join(r, sep) == s
    ensures forall k :: 0 <= k < |r| ==> sep !in r[k]
    decreases |s|
  {
    var i := IndexOf(s, sep);
    if i == |s| then
      assert s[..i] == s;
      [s]
    else
      var rest := Split(s[i + 1..], sep);
      assert s == s[..i] + [sep] + s[i + 1..];
      [s[..i]] + rest
  }

  /** Splitting a join of separator-free parts gives the parts back. */
  lemma {:induction false} SplitJoin(parts: seq<string>, sep: char)
    requires |parts| >= 1
    requires forall k :: 0 <= k < |parts| ==> sep !in parts[k]
    ensures Split(Join(parts, sep), sep) == parts
    decreases |parts|
  {
    var s := Join(parts, sep);
    var i := IndexOf(s, sep);
    if |parts| == 1 {
      assert sep !in s;
      assert i == |s|;
    } else {
      var tail := Join(parts[1..], sep);
      assert s == parts[0] + [sep] + tail;
      assert s[|parts[0]|] == sep;
      assert s[..|parts[0]|] == parts[0];
      assert i == |parts[0]| by {
        assert i >= |parts[0]| by {
          forall k | 0 <= k < |parts[0]| ensures s[k] != sep {
            assert s[k] == parts[0][k];
          }
        }
      }
      assert s[i + 1..] == tail;
      SplitJoin(parts[1..], sep);
    }
  }

  /** Length of the leading run of white space of `s`. */
  function LeadingSpace(s: string): (n: nat)
    ensures n <= |s|
    ensures forall k :: 0 <= k < n ==> IsSpace(s[k])
    ensures n < |s| ==> !IsSpace(s[n])
  {
    if s == [] || !IsSpace(s[0]) then 0 else 1 + LeadingSpace(s[1..])
  }

  /** Length of `s` without its trailing run of white space. */
  function TrailingSpaceStart(s: string): (n: nat)
    ensures n <= |s|
    ensures forall k :: n <= k < |s| ==> IsSpace(s[k])
    ensures n > 0 ==> !IsSpace(s[n - 1])
  {
    if s == [] || !IsSpace(s[|s| - 1]) then |s| else TrailingSpaceStart(s[..|s| - 1])
  }

  /** Python's `s.strip()`: drop white space at both ends. */
  function Strip(s: string): (r: string)
    ensures r == [] || (!IsSpace(r[0]) && !IsSpace(r[|r| - 1]))
  {
    var a := LeadingSpace(s);
    if a == |s| then "" else
      var b := TrailingSpaceStart(s);
      assert a < b;
      s[a..b]
  }

  predicate AllSpace(s: string) {
    forall k :: 0 <= k < |s| ==> IsSpace(s[k])
  }

  /** `strip()` removes exactly the white-space padding around a word. */
  lemma StripPadded(pre: string, word: string, post: string)
    requires AllSpace(pre) && AllSpace(post)
    requires word == [] || (!IsSpace(word[0]) && !IsSpace(word[|word| - 1]))
    ensures Strip(pre + word + post) == word
  {
    var s := pre + word + post;
    if word == [] {
      assert s == pre + post;
      assert AllSpace(s);
      assert LeadingSpace(s) == |s| by { LeadingSpaceOfPadded(s, []); assert s + [] == s; }
    } else {
      LeadingSpaceOfPadded(pre, word + post);
      assert s == pre + (word + post);
      assert LeadingSpace(s) == |pre|;
      TrailingOfPadded(pre + word, post);
      assert s == (pre + word) + post;
      assert s[|pre|..|pre| + |word|] == word;
    }
  }

  lemma {:induction false} LeadingSpaceOfPadded(pre: string, rest: string)
    requires AllSpace(pre)
    requires rest == [] || !IsSpace(rest[0])
    ensures LeadingSpace(pre + rest) == |pre|
    decreases |pre|
  {
    if pre != [] {
      assert (pre + rest)[1..] == pre[1..] + rest;
      LeadingSpaceOfPadded(pre[1..], rest);
    } else {
      assert pre + rest == rest;
    }
  }

  lemma {:induction false} TrailingOfPadded(body: string, post: string)
    requires AllSpace(post)
    requires body != [] && !IsSpace(body[|body| - 1])
    ensures TrailingSpaceStart(body + post) == |body|
    decreases |post|
  {
    if post == [] {
      assert body + post == body;
    } else {
      var s := body + post;
      assert s[..|s| - 1] == body + post[..|post| - 1];
      TrailingOfPadded(body, post[..|post| - 1]);
    }
  }
}
