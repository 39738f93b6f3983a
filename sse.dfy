/**
 * Server-sent-event text framing of the orchestrator: `extract_chunk_str`,
 * `fake_stream` and `token_generator` (comps/cores/mega/orchestrator.py).
 * An event is `data: <payload>\n\n`; the stream ends with `data: [DONE]\n\n`.
 */
module EventStream {
  import opened Text

  const DoneEvent := "data: [DONE]\n\n"
  const BytesPrefix := "data: b'"
  const BytesPrefixDq := "data: b\""
  const BytesSuffix := "'\n\n"
  const BytesSuffixDq := "\"\n\n"

  /**
   * `extract_chunk_str`: the end-of-stream event becomes "", otherwise the
   * `data: b'`/`data: b"` prefix and then the `'\n\n`/`"\n\n` suffix are cut off
   * when present. The result is always a contiguous slice of the chunk with at
   * most 8 characters cut at the front and at most 3 at the back.
   */
  function ExtractChunk(chunk: string): (r: string)
    ensures chunk == DoneEvent ==> r == ""
    ensures chunk != DoneEvent ==> exists a :: TrimmedAt(chunk, r, a)
  {
    if chunk == DoneEvent then "" else
      var a := if StartsWith(chunk, BytesPrefix) || StartsWith(chunk, BytesPrefixDq) then |BytesPrefix| else 0;
      var rest := chunk[a..];
      var r := if EndsWith(rest, BytesSuffix) || EndsWith(rest, BytesSuffixDq) then rest[..|rest| - |BytesSuffix|] else rest;
      assert TrimmedAt(chunk, r, a);
      r
  }

  /** `r` is `chunk` with `a <= 8` characters cut at the front and at most 3 at the back. */
  ghost predicate TrimmedAt(chunk: string, r: string, a: int) {
    0 <= a <= 8 && a + |r| <= |chunk| <= a + |r| + 3 && chunk[a..a + |r|] == r
  }

  /** A chunk with neither wrapper is passed through unchanged. */
  lemma ExtractUnwrapped(chunk: string)
    requires chunk != DoneEvent
    requires !StartsWith(chunk, BytesPrefix) && !StartsWith(chunk, BytesPrefixDq)
    requires !EndsWith(chunk, BytesSuffix) && !EndsWith(chunk, BytesSuffixDq)
    ensures ExtractChunk(chunk) == chunk
  {
    assert chunk[0..] == chunk;
  }

  /** Wrapping a text as a bytes-literal event and extracting it gives the text back. */
  lemma ExtractWrapped(t: string)
    ensures ExtractChunk(BytesPrefix + t + BytesSuffix) == t
    ensures ExtractChunk(BytesPrefixDq + t + BytesSuffixDq) == t
  {
    ExtractWrappedIn(BytesPrefix, t, BytesSuffix);
    ExtractWrappedIn(BytesPrefixDq, t, BytesSuffixDq);
  }

  lemma ExtractWrappedIn(prefix: string, t: string, suffix: string)
    requires prefix == BytesPrefix || prefix == BytesPrefixDq
    requires suffix == BytesSuffix || suffix == BytesSuffixDq
    ensures ExtractChunk(prefix + t + suffix) == t
  {
    var rest := t + suffix;
    var c := prefix + rest;
    assert prefix + t + suffix == c;
    assert c[..8] == prefix && c[8..] == rest;
    assert c != DoneEvent by {
      assert c[6] == prefix[6] == 'b' != DoneEvent[6];
    }
    assert StartsWith(c, prefix);
    assert rest[|rest| - 3..] == suffix && rest[..|rest| - 3] == t;
    assert EndsWith(rest, suffix);
  }

  /** The two events `schedule` streams for a text answer when no downstream is left. */
  function FakeStream(text: string): (r: seq<string>)
    ensures |r| == 2 && r[1] == DoneEvent
    ensures ExtractChunk(r[0]) == text && ExtractChunk(r[1]) == ""
  {
    ExtractWrapped(text);
    [BytesPrefix + text + BytesSuffix, DoneEvent]
  }

  /** Extracting every event of a fake stream gives back exactly its text. */
  lemma FakeStreamRoundTrip(text: string)
    ensures Concat([ExtractChunk(FakeStream(text)[0]), ExtractChunk(FakeStream(text)[1])]) == text
  {
    ExtractWrapped(text);
    assert Concat([text, ""]) == text + Concat([""]);
  }

  // ---------------------------------------------------------------------
  // Python's repr(str.encode("utf-8"))

  type Byte = b: int | 0 <= b < 256

  /**
   * The UTF-8 encoding of one Unicode scalar value: a lead byte that gives
   * the length (0xxxxxxx, 110xxxxx, 1110xxxx or 11110xxx, never an overlong
   * 0xC0 or 0xC1, never above 0xF4), continuation bytes 10xxxxxx, and payload
   * bits that decode back to the scalar value.
   */
  function Utf8(c: char): (r: seq<Byte>)
    ensures |r| == if c as int < 0x80 then 1 else if c as int < 0x800 then 2 else if c as int < 0x10000 then 3 else 4
    ensures |r| == 1 ==> r[0] < 0x80
    ensures |r| == 2 ==> 0xC2 <= r[0] <= 0xDF
    ensures |r| == 3 ==> 0xE0 <= r[0] <= 0xEF
    ensures |r| == 4 ==> 0xF0 <= r[0] <= 0xF4
    ensures forall k :: 1 <= k < |r| ==> 0x80 <= r[k] <= 0xBF
  {
    var n := c as int;
    if n < 0x80 then [n]
    else if n < 0x800 then [0xC0 + n / 64, 0x80 + n % 64]
    else if n < 0x10000 then [0xE0 + n / 4096, 0x80 + (n / 64) % 64, 0x80 + n % 64]
    else [0xF0 + n / 262144, 0x80 + (n / 4096) % 64, 0x80 + (n / 64) % 64, 0x80 + n % 64]
  }

  /** The scalar value a well-formed UTF-8 sequence of one character decodes to. */
  function Utf8Value(r: seq<Byte>): int
    requires 1 <= |r| <= 4
  {
    var b := seq(|r|, k requires 0 <= k < |r| => r[k] as int);
    if |b| == 1 then b[0]
    else if |b| == 2 then (b[0] - 0xC0) * 64 + (b[1] - 0x80)
    else if |b| == 3 then (b[0] - 0xE0) * 4096 + (b[1] - 0x80) * 64 + (b[2] - 0x80)
    else (b[0] - 0xF0) * 262144 + (b[1] - 0x80) * 4096 + (b[2] - 0x80) * 64 + (b[3] - 0x80)
  }

  /** Six payload bits at a time: `n / 64 / 64 == n / 4096`, the quotients a UTF-8 encoder peels. */
  lemma {:induction false} SixBits(n: nat)
    ensures n == (n / 64) * 64 + n % 64
    ensures (n / 64) / 64 == n / 4096
    ensures (n / 4096) / 64 == n / 262144
  {
    var q, r := n / 64, n % 64;
    var p, t := q / 64, q % 64;
    assert n == 4096 * p + (64 * t + r);
    assert 0 <= 64 * t + r < 4096;
    var u, v := p / 64, p % 64;
    assert n == 262144 * u + (4096 * v + 64 * t + r);
    assert 0 <= 4096 * v + 64 * t + r < 262144;
  }

  /** Decoding the bytes `Utf8` produces gives back the scalar value. */
  lemma Utf8RoundTrip(c: char)
    ensures Utf8Value(Utf8(c)) == c as int
  {
    var n := c as int;
    SixBits(n);
    SixBits(n / 64);
  }

  function Encode(s: string): seq<Byte> {
    if s == [] then [] else Utf8(s[0]) + Encode(s[1..])
  }

  /** No backslash is directly followed by `n`. */
  predicate NoEscapedNewline(s: string) {
    forall k :: 0 <= k < |s| - 1 ==> !(s[k] == '\\' && s[k + 1] == 'n')
  }

  /**
   * `s.replace("\\n", "\n")`: every backslash-n pair becomes a newline, left to
   * right, so none is left; a string without such a pair is unchanged.
   */
  function ReplaceEscapedNewlines(s: string): (r: string)
    ensures |r| <= |s|
    ensures '\\' !in s ==> r == s
    ensures NoEscapedNewline(s) ==> r == s
    ensures NoEscapedNewline(r)
    ensures s != [] ==> r != [] && (r[0] == s[0] || (s[0] == '\\' && r[0] == '\n'))
  {
    if |s| >= 2 && s[0] == '\\' && s[1] == 'n' then ['\n'] + ReplaceEscapedNewlines(s[2..])
    else if s == [] then []
    else [s[0]] + ReplaceEscapedNewlines(s[1..])
  }
  /**
   * Each backslash-n pair becomes one newline wherever it stands: the pair
   * cannot overlap a pair of the text around it.
   */
  lemma {:induction false} ReplaceAroundPair(a: string, b: string)
    ensures ReplaceEscapedNewlines(a + "\\n" + b) == ReplaceEscapedNewlines(a) + "\n" + ReplaceEscapedNewlines(b)
    decreases |a|
  {
    if a == [] {
      assert a + "\\n" + b == "\\n" + b;
      ReplaceLeading(b, "\\n" + b);
    } else if |a| >= 2 && a[0] == '\\' && a[1] == 'n' {
      ReplaceAroundPair(a[2..], b);
      ReplacePairStep(a, b);
    } else {
      ReplaceAroundPair(a[1..], b);
      ReplaceCharStep(a, b);
    }
  }

  lemma ReplaceLeading(b: string, s: string)
    requires s == "\\n" + b
    ensures ReplaceEscapedNewlines(s) == [] + "\n" + ReplaceEscapedNewlines(b)
  {
    assert s[2..] == b;
  }

  /** The first step of the scan when the text starts with a pair. */
  lemma UnfoldPair(s: string)
    requires |s| >= 2 && s[0] == '\\' && s[1] == 'n'
    ensures ReplaceEscapedNewlines(s) == ['\n'] + ReplaceEscapedNewlines(s[2..])
  {
  }

  /** The first step of the scan when the text does not start with a pair. */
  lemma UnfoldChar(s: string)
    requires s != [] && !(|s| >= 2 && s[0] == '\\' && s[1] == 'n')
    ensures ReplaceEscapedNewlines(s) == [s[0]] + ReplaceEscapedNewlines(s[1..])
  {
  }

  /** Where the scan of `a + "\\n" + b` goes after `a`'s leading pair. */
  lemma SplitAfterPair(a: string, b: string)
    requires |a| >= 2 && a[0] == '\\' && a[1] == 'n'
    ensures var s := a + "\\n" + b;
      |s| >= 2 && s[0] == '\\' && s[1] == 'n' && s[2..] == a[2..] + "\\n" + b
  {
  }

  /** Where the scan of `a + "\\n" + b` goes after `a`'s first character, which starts no pair. */
  lemma SplitAfterChar(a: string, b: string)
    requires a != [] && !(|a| >= 2 && a[0] == '\\' && a[1] == 'n')
    ensures var s := a + "\\n" + b;
      && s != [] && !(|s| >= 2 && s[0] == '\\' && s[1] == 'n')
      && s[0] == a[0] && s[1..] == a[1..] + "\\n" + b
  {
    var s := a + "\\n" + b;
    assert s[1] == if |a| >= 2 then a[1] else '\\';
  }

  lemma ReplacePairStep(a: string, b: string)
    requires |a| >= 2 && a[0] == '\\' && a[1] == 'n'
    requires ReplaceEscapedNewlines(a[2..] + "\\n" + b) == ReplaceEscapedNewlines(a[2..]) + "\n" + ReplaceEscapedNewlines(b)
    ensures ReplaceEscapedNewlines(a + "\\n" + b) == ReplaceEscapedNewlines(a) + "\n" + ReplaceEscapedNewlines(b)
  {
    SplitAfterPair(a, b);
    UnfoldPair(a + "\\n" + b);
    UnfoldPair(a);
    Reassociate("\n", ReplaceEscapedNewlines(a[2..]), ReplaceEscapedNewlines(b));
  }

  lemma ReplaceCharStep(a: string, b: string)
    requires a != [] && !(|a| >= 2 && a[0] == '\\' && a[1] == 'n')
    requires ReplaceEscapedNewlines(a[1..] + "\\n" + b) == ReplaceEscapedNewlines(a[1..]) + "\n" + ReplaceEscapedNewlines(b)
    ensures ReplaceEscapedNewlines(a + "\\n" + b) == ReplaceEscapedNewlines(a) + "\n" + ReplaceEscapedNewlines(b)
  {
    SplitAfterChar(a, b);
    UnfoldChar(a + "\\n" + b);
    UnfoldChar(a);
    Reassociate([a[0]], ReplaceEscapedNewlines(a[1..]), ReplaceEscapedNewlines(b));
  }

  lemma Reassociate(p: string, x: string, y: string)
    ensures p + (x + "\n" + y) == (p + x) + "\n" + y
  {
  }






  function HexDigit(d: int): char
    requires 0 <= d < 16
  {
    "0123456789abcdef"[d]
  }

  /** How `repr` prints one byte inside a bytes literal quoted with `q`. */
  function EscapeByte(b: Byte, q: char): string {
    if b == q as int || b == 92 then ['\\', b as char]
    else if b == 9 then "\\t"
    else if b == 10 then "\\n"
    else if b == 13 then "\\r"
    else if b < 32 || b >= 127 then "\\x" + [HexDigit(b / 16), HexDigit(b % 16)]
    else [b as char]
  }

  function EscapeBytes(bs: seq<Byte>, q: char): string {
    if bs == [] then "" else EscapeByte(bs[0], q) + EscapeBytes(bs[1..], q)
  }

  /** `repr` quotes with `"` only when the bytes hold a `'` and no `"`. */
  function QuoteFor(bs: seq<Byte>): char {
    if 39 in bs && 34 !in bs then '"' else '\''
  }

  function ReprBytes(bs: seq<Byte>): string {
    "b" + [QuoteFor(bs)] + EscapeBytes(bs, QuoteFor(bs)) + [QuoteFor(bs)]
  }

  /** The event `token_generator` yields for one token. */
  function TokenEvent(token: string): string {
    "data: " + ReprBytes(Encode(ReplaceEscapedNewlines(token))) + "\n\n"
  }

  /** The escaped body of a token's bytes literal, between the quotes. */
  function TokenBody(token: string): string {
    var bs := Encode(ReplaceEscapedNewlines(token));
    EscapeBytes(bs, QuoteFor(bs))
  }

  /** `extract_chunk_str` undoes the framing of `token_generator`: it yields the literal's body. */
  lemma ExtractTokenEvent(token: string)
    ensures ExtractChunk(TokenEvent(token)) == TokenBody(token)
  {
    var bs := Encode(ReplaceEscapedNewlines(token));
    var q := QuoteFor(bs);
    assert TokenEvent(token) == "data: " + ("b" + [q] + EscapeBytes(bs, q) + [q]) + "\n\n";
    ExtractFramed(q, EscapeBytes(bs, q));
  }

  /** A bytes literal quoted with `q`, framed as an event, extracts to its body. */
  lemma ExtractFramed(q: char, body: string)
    requires q == '\'' || q == '"'
    ensures ExtractChunk("data: " + ("b" + [q] + body + [q]) + "\n\n") == body
  {
    var e := "data: " + ("b" + [q] + body + [q]) + "\n\n";
    if q == '\'' {
      assert e == BytesPrefix + body + BytesSuffix;
      ExtractWrappedIn(BytesPrefix, body, BytesSuffix);
    } else {
      assert e == BytesPrefixDq + body + BytesSuffixDq;
      ExtractWrappedIn(BytesPrefixDq, body, BytesSuffixDq);
    }
  }

  /** Printable ASCII other than the quote and the backslash: `repr` leaves it as it is. */
  predicate PlainChar(c: char) {
    ' ' <= c <= '~' && c != '\'' && c != '\\'
  }

  lemma {:induction false} PlainEscapes(t: string)
    requires forall k :: 0 <= k < |t| ==> PlainChar(t[k])
    ensures forall k :: 0 <= k < |Encode(t)| ==> Encode(t)[k] != 39
    ensures EscapeBytes(Encode(t), '\'') == t
  {
    if t != [] {
      PlainEscapes(t[1..]);
      assert Encode(t) == [t[0] as int] + Encode(t[1..]);
    }
  }

  /** For plain text the downstream consumer gets back exactly the token. */
  lemma ExtractPlainToken(token: string)
    requires forall k :: 0 <= k < |token| ==> PlainChar(token[k])
    ensures ExtractChunk(TokenEvent(token)) == token
  {
    assert '\\' !in token;
    PlainEscapes(token);
    ExtractTokenEvent(token);
  }

  // ---------------------------------------------------------------------
  // The `\s?\S+\s?` tokeniser of `token_generator`

  /** End of the run of non-white-space characters that starts at `i`. */
  function RunEnd(s: string, i: nat): (e: nat)
    requires i <= |s|
    ensures i <= e <= |s|
    ensures forall k :: i <= k < e ==> !IsSpace(s[k])
    ensures e < |s| ==> IsSpace(s[e])
    decreases |s| - i
  {
    if i < |s| && !IsSpace(s[i]) then RunEnd(s, i + 1) else i
  }

  /** End of a match whose `\S+` starts at `j`: the greedy run plus one white-space character. */
  function MatchEnd(s: string, j: nat): (t: nat)
    requires j < |s| && !IsSpace(s[j])
    ensures j < t <= |s|
  {
    var e := RunEnd(s, j);
    if e < |s| then e + 1 else e
  }

  /**
   * One match of `\s?\S+\s?`: at most one white-space character on each side
   * of a non-empty run of non-white-space characters.
   */
  predicate WordToken(w: string) {
    var a := if |w| > 0 && IsSpace(w[0]) then 1 else 0;
    var b := if |w| > 0 && IsSpace(w[|w| - 1]) then |w| - 1 else |w|;
    a < b && forall k :: a <= k < b ==> !IsSpace(w[k])
  }

  /** `re.findall(r"\s?\S+\s?", s[i..])`, written as a scanner over positions. */
  function TokensFrom(s: string, i: nat): (r: seq<string>)
    requires i <= |s|
    ensures forall k :: 0 <= k < |r| ==> WordToken(r[k])
    decreases |s| - i
  {
    if i == |s| then []
    else if !IsSpace(s[i]) then
      var t := MatchEnd(s, i);
      MatchIsWord(s, i, i);
      [s[i..t]] + TokensFrom(s, t)
    else if i + 1 < |s| && !IsSpace(s[i + 1]) then
      var t := MatchEnd(s, i + 1);
      MatchIsWord(s, i, i + 1);
      [s[i..t]] + TokensFrom(s, t)
    else TokensFrom(s, i + 1)
  }

  /** A match starting at `i`, with its run starting at `j`, is a word token. */
  lemma MatchIsWord(s: string, i: nat, j: nat)
    requires i <= j < |s| && !IsSpace(s[j])
    requires i == j || (i + 1 == j && IsSpace(s[i]))
    ensures WordToken(s[i..MatchEnd(s, j)])
  {
    var e := RunEnd(s, j);
    var t := MatchEnd(s, j);
    var w := s[i..t];
    assert e > j;
    assert w[0] == s[i] && w[|w| - 1] == s[t - 1];
    var a := j - i;
    var b := e - i;
    assert a == if |w| > 0 && IsSpace(w[0]) then 1 else 0;
    assert b == if |w| > 0 && IsSpace(w[|w| - 1]) then |w| - 1 else |w|;
    forall k | a <= k < b ensures !IsSpace(w[k]) {
      assert w[k] == s[i + k];
    }
  }

  function Tokens(sentence: string): seq<string> {
    TokensFrom(sentence, 0)
  }

  /** A maximal run of non-white-space characters starts at `k`. */
  predicate RunStart(s: string, k: int)
    requires 0 <= k < |s|
  {
    !IsSpace(s[k]) && (k == 0 || IsSpace(s[k - 1]))
  }

  /** The number of maximal runs of non-white-space characters in `s[i..]`. */
  function CountRuns(s: string, i: nat): nat
    requires i <= |s|
    decreases |s| - i
  {
    if i == |s| then 0 else (if RunStart(s, i) then 1 else 0) + CountRuns(s, i + 1)
  }

  lemma {:induction false} CountRunsSkip(s: string, a: nat, b: nat)
    requires a <= b <= |s|
    requires forall k :: a <= k < b ==> !RunStart(s, k)
    ensures CountRuns(s, a) == CountRuns(s, b)
    decreases b - a
  {
    if a < b {
      CountRunsSkip(s, a + 1, b);
    }
  }

  /** After a match ending at `t`, no run starts before `t` except the matched one. */
  lemma NoStartInsideMatch(s: string, j: nat)
    requires j < |s| && !IsSpace(s[j])
    ensures forall k :: j < k < MatchEnd(s, j) ==> !RunStart(s, k)
    ensures MatchEnd(s, j) == |s| || IsSpace(s[MatchEnd(s, j) - 1])
  {
  }

  /** The tokeniser yields one token per maximal run of non-white-space characters. */
  lemma {:induction false} TokenCount(s: string, i: nat)
    requires i <= |s|
    requires i == 0 || i == |s| || IsSpace(s[i - 1])
    ensures |TokensFrom(s, i)| == CountRuns(s, i)
    decreases |s| - i
  {
    if i == |s| {
    } else if !IsSpace(s[i]) {
      var t := MatchEnd(s, i);
      NoStartInsideMatch(s, i);
      CountRunsSkip(s, i + 1, t);
      TokenCount(s, t);
    } else if i + 1 < |s| && !IsSpace(s[i + 1]) {
      var t := MatchEnd(s, i + 1);
      NoStartInsideMatch(s, i + 1);
      CountRunsSkip(s, i + 2, t);
      TokenCount(s, t);
    } else {
      TokenCount(s, i + 1);
    }
  }

  /** The non-white-space characters of `s`, in order. */
  function NonSpace(s: string): string {
    if s == [] then [] else (if IsSpace(s[0]) then [] else [s[0]]) + NonSpace(s[1..])
  }

  lemma {:induction false} NonSpaceAppend(a: string, b: string)
    ensures NonSpace(a + b) == NonSpace(a) + NonSpace(b)
  {
    if a != [] {
      assert (a + b)[1..] == a[1..] + b;
      NonSpaceAppend(a[1..], b);
    } else {
      assert a + b == b;
    }
  }

  /** The tokens keep every non-white-space character of the sentence, in order. */
  lemma {:induction false} TokensCover(s: string, i: nat)
    requires i <= |s|
    ensures NonSpace(Concat(TokensFrom(s, i))) == NonSpace(s[i..])
    decreases |s| - i
  {
    if i == |s| {
    } else if !IsSpace(s[i]) {
      TokensCover(s, MatchEnd(s, i));
      MatchCover(s, i, MatchEnd(s, i), TokensFrom(s, MatchEnd(s, i)));
    } else if i + 1 < |s| && !IsSpace(s[i + 1]) {
      TokensCover(s, MatchEnd(s, i + 1));
      MatchCover(s, i, MatchEnd(s, i + 1), TokensFrom(s, MatchEnd(s, i + 1)));
    } else {
      TokensCover(s, i + 1);
      assert s[i..] == [s[i]] + s[i + 1..];
      NonSpaceAppend([s[i]], s[i + 1..]);
    }
  }

  /** One step of `TokensCover`: a match `s[i..t]` followed by tokens covering `s[t..]`. */
  lemma MatchCover(s: string, i: nat, t: nat, rest: seq<string>)
    requires i < t <= |s|
    requires NonSpace(Concat(rest)) == NonSpace(s[t..])
    ensures NonSpace(Concat([s[i..t]] + rest)) == NonSpace(s[i..])
  {
    var w := s[i..t];
    assert ([w] + rest)[0] == w;
    assert ([w] + rest)[1..] == rest;
    assert Concat([w] + rest) == w + Concat(rest);
    NonSpaceAppend(w, Concat(rest));
    NonSpaceAppend(w, s[t..]);
    assert s[i..] == w + s[t..];
  }

  /** `token_generator(sentence, is_last)` with the latency bookkeeping dropped. */
  function TokenGenerator(sentence: string, isLast: bool): seq<string> {
    var ts := Tokens(sentence);
    seq(|ts|, k requires 0 <= k < |ts| => TokenEvent(ts[k])) + (if isLast then [DoneEvent] else [])
  }

  /**
   * One `data: ...\n\n` event per maximal run of non-white-space characters,
   * followed by the end-of-stream event exactly when `isLast`.
   */
  lemma TokenGeneratorEvents(sentence: string, isLast: bool)
    ensures var r := TokenGenerator(sentence, isLast);
      && |r| == CountRuns(sentence, 0) + (if isLast then 1 else 0)
      && (forall k :: 0 <= k < CountRuns(sentence, 0) ==>
            StartsWith(r[k], "data: ") && EndsWith(r[k], "\n\n") && r[k] != DoneEvent)
      && ((|r| > 0 && r[|r| - 1] == DoneEvent) <==> isLast)
  {
    TokenCount(sentence, 0);
    var r := TokenGenerator(sentence, isLast);
    var ts := Tokens(sentence);
    forall k | 0 <= k < |ts|
      ensures StartsWith(r[k], "data: ") && EndsWith(r[k], "\n\n") && r[k] != DoneEvent
    {
      assert r[k] == TokenEvent(ts[k]);
      TokenEventFramed(ts[k]);
    }
  }

  /** A token event is a `data: b...\n\n` event, never the end-of-stream event. */
  lemma TokenEventFramed(token: string)
    ensures var e := TokenEvent(token);
      StartsWith(e, "data: ") && EndsWith(e, "\n\n") && e != DoneEvent
  {
    var body := ReprBytes(Encode(ReplaceEscapedNewlines(token)));
    var e := "data: " + body + "\n\n";
    assert e[..6] == "data: ";
    assert e[|e| - 2..] == "\n\n";
    assert e[6] == body[0] == 'b' != DoneEvent[6];
  }
}
