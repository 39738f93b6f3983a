/**
 * The sentence-buffering relay inside `execute.generate()`
 * (comps/cores/mega/orchestrator.py): the streamed chunks of an LLM are
 * extracted and buffered; at the end of a sentence or at `[DONE]` the buffer is
 * posted to the single downstream service and its answer is re-streamed as
 * token events.
 */
module StreamRelay {
  import opened Text
  import opened Json
  import opened EventStream

  /** `hitted_ends`: the characters that close a sentence. */
  const SentenceEnds: set<char> := {'.', '?', '!', '\U{3002}', '\U{FF0C}', '\U{FF01}'}
  const DoneMarker := "[DONE]\n\n"

  predicate EndsSentence(buffer: string) {
    buffer != [] && buffer[|buffer| - 1] in SentenceEnds
  }

  /** One post to the downstream service: the buffered text and whether the stream ended. */
  datatype Flush = Flush(text: string, last: bool)

  /** The relay's state: the buffer and the posts made so far. */
  datatype Relay = Relay(buffer: string, flushes: seq<Flush>)

  /** One loop iteration of `generate()` on a chunk (empty chunks are skipped). */
  function Feed(st: Relay, chunk: string): Relay {
    if chunk == [] then st else Step(st, ExtractChunk(chunk), EndsWith(chunk, DoneMarker))
  }

  /** The buffer grows by `text`; at a sentence end or at the stream's end it is posted and cleared. */
  function Step(st: Relay, text: string, isLast: bool): Relay {
    var buffer := st.buffer + text;
    if EndsSentence(buffer) || isLast then Relay("", st.flushes + [Flush(buffer, isLast)])
    else Relay(buffer, st.flushes)
  }

  /** The relay state after the chunks, fed one by one from an empty buffer. */
  function Rechunk(chunks: seq<string>): Relay {
    if chunks == [] then Relay("", []) else Feed(Rechunk(chunks[..|chunks| - 1]), chunks[|chunks| - 1])
  }

  /** The text of every chunk, extracted and concatenated. */
  function Extracted(chunks: seq<string>): string {
    if chunks == [] then "" else Extracted(chunks[..|chunks| - 1]) + ExtractChunk(chunks[|chunks| - 1])
  }

  function FlushedText(fs: seq<Flush>): string {
    if fs == [] then "" else FlushedText(fs[..|fs| - 1]) + fs[|fs| - 1].text
  }

  /** The number of chunks that end the stream. */
  function CountDone(chunks: seq<string>): nat {
    if chunks == [] then 0
    else CountDone(chunks[..|chunks| - 1]) + (if EndsWith(chunks[|chunks| - 1], DoneMarker) then 1 else 0)
  }

  function CountLast(fs: seq<Flush>): nat {
    if fs == [] then 0 else CountLast(fs[..|fs| - 1]) + (if fs[|fs| - 1].last then 1 else 0)
  }

  lemma FlushedTextAppend(fs: seq<Flush>, f: Flush)
    ensures FlushedText(fs + [f]) == FlushedText(fs) + f.text
    ensures CountLast(fs + [f]) == CountLast(fs) + (if f.last then 1 else 0)
  {
    assert (fs + [f])[..|fs|] == fs;
  }

  /**
   * The buffer invariant: the posted texts followed by the buffer are exactly
   * the extracted text of all chunks; the buffer never ends a sentence; every
   * post ends a sentence or ends the stream; and there is one final post per
   * chunk that ends the stream.
   */
  lemma {:induction false} RechunkInvariant(chunks: seq<string>)
    ensures var st := Rechunk(chunks);
      && FlushedText(st.flushes) + st.buffer == Extracted(chunks)
      && !EndsSentence(st.buffer)
      && (forall k :: 0 <= k < |st.flushes| ==> st.flushes[k].last || EndsSentence(st.flushes[k].text))
      && CountLast(st.flushes) == CountDone(chunks)
  {
    if chunks != [] {
      var init := chunks[..|chunks| - 1];
      RechunkInvariant(init);
      FeedKeeps(Rechunk(init), chunks[|chunks| - 1]);
    }
  }

  /**
   * The flush rule of one buffered text: a post happens exactly when the
   * grown buffer ends a sentence or the stream ends; it posts the whole
   * buffer and leaves it empty; otherwise nothing is posted and the buffer
   * keeps the text.
   */
  ghost predicate Posted(st: Relay, text: string, isLast: bool, st': Relay) {
    var buffer := st.buffer + text;
    && (|st'.flushes| > |st.flushes| <==> EndsSentence(buffer) || isLast)
    && (|st'.flushes| > |st.flushes| ==> st'.buffer == "" && st'.flushes == st.flushes + [Flush(buffer, isLast)])
    && (|st'.flushes| <= |st.flushes| ==> st' == Relay(buffer, st.flushes))
  }

  /** One `Feed` step keeps the buffer invariant of `RechunkInvariant`. */
  lemma FeedKeeps(st: Relay, c: string)
    requires !EndsSentence(st.buffer)
    requires forall k :: 0 <= k < |st.flushes| ==> st.flushes[k].last || EndsSentence(st.flushes[k].text)
    ensures c == [] ==> Feed(st, c) == st
    ensures c != [] ==> Posted(st, ExtractChunk(c), EndsWith(c, DoneMarker), Feed(st, c))
    ensures var st' := Feed(st, c);
      && FlushedText(st'.flushes) + st'.buffer == FlushedText(st.flushes) + st.buffer + ExtractChunk(c)
      && !EndsSentence(st'.buffer)
      && (forall k :: 0 <= k < |st'.flushes| ==> st'.flushes[k].last || EndsSentence(st'.flushes[k].text))
      && CountLast(st'.flushes) == CountLast(st.flushes) + (if EndsWith(c, DoneMarker) then 1 else 0)
  {
    if c == [] {
      assert st.buffer + ExtractChunk(c) == st.buffer;
    } else {
      StepKeeps(st, ExtractChunk(c), EndsWith(c, DoneMarker));
    }
  }

  lemma StepKeeps(st: Relay, text: string, isLast: bool)
    requires !EndsSentence(st.buffer)
    requires forall k :: 0 <= k < |st.flushes| ==> st.flushes[k].last || EndsSentence(st.flushes[k].text)
    ensures Posted(st, text, isLast, Step(st, text, isLast))
    ensures var st' := Step(st, text, isLast);
      && FlushedText(st'.flushes) + st'.buffer == FlushedText(st.flushes) + st.buffer + text
      && !EndsSentence(st'.buffer)
      && (forall k :: 0 <= k < |st'.flushes| ==> st'.flushes[k].last || EndsSentence(st'.flushes[k].text))
      && CountLast(st'.flushes) == CountLast(st.flushes) + (if isLast then 1 else 0)
  {
    FlushedTextAppend(st.flushes, Flush(st.buffer + text, isLast));
  }

  /** A fake stream is relayed as its whole text, with the stream end on the final post. */
  lemma RelayFakeStream(text: string)
    ensures var st := Rechunk(FakeStream(text));
      && st.buffer == ""
      && FlushedText(st.flushes) == text
      && |st.flushes| > 0 && st.flushes[|st.flushes| - 1].last
  {
    var cs := FakeStream(text);
    FakeStreamChunks(text);
    RechunkPair(cs[0], cs[1]);
    var st1 := Step(Relay("", []), text, false);
    assert "" + text == text;
    FlushedTextAppend(st1.flushes, Flush(st1.buffer + "", true));
    if EndsSentence(text) {
      FlushedTextAppend([], Flush(text, false));
    } else {
      FlushedTextAppend([], Flush(text, true));
    }
  }

  /** The first event of a fake stream carries the text; the second ends the stream. */
  lemma FakeStreamChunks(text: string)
    ensures var cs := FakeStream(text);
      && cs[0] != [] && ExtractChunk(cs[0]) == text && !EndsWith(cs[0], DoneMarker)
      && cs[1] != [] && ExtractChunk(cs[1]) == "" && EndsWith(cs[1], DoneMarker)
  {
    var cs := FakeStream(text);
    ExtractWrapped(text);
    assert !EndsWith(cs[0], DoneMarker) by {
      assert cs[0][|cs[0]| - 3] == '\'';
      assert DoneMarker[5] == ']';
    }
    assert EndsWith(cs[1], DoneMarker);
  }

  /** Two chunks are fed one after the other. */
  lemma RechunkPair(a: string, b: string)
    ensures Rechunk([a, b]) == Feed(Feed(Relay("", []), a), b)
  {
    assert [a, b][..1] == [a];
    assert [a][..0] == [];
    assert Rechunk([a]) == Feed(Rechunk([]), a);
    assert Rechunk([a, b]) == Feed(Rechunk([a]), b);
  }

  /** What the relay streamed, and whether it stopped on an exception. */
  datatype Emitted = Emitted(events: seq<string>, failed: bool)

  /**
   * Posting each flush to the downstream service (`post`) and streaming its
   * `text` answer with `token_generator`; an answer without a string `text`
   * raises, which ends the stream.
   */
  function Emit(fs: seq<Flush>, post: string -> Dict): Emitted {
    if fs == [] then Emitted([], false)
    else
      var prev := Emit(fs[..|fs| - 1], post);
      var f := fs[|fs| - 1];
      if prev.failed then prev
      else
        var reply := post(f.text);
        if "text" in reply && reply["text"].Str? then
          Emitted(prev.events + TokenGenerator(reply["text"].s, f.last), false)
        else Emitted(prev.events, true)
  }

  lemma {:induction false} EmitFailedStays(fs: seq<Flush>, more: seq<Flush>, post: string -> Dict)
    requires Emit(fs, post).failed
    ensures Emit(fs + more, post) == Emit(fs, post)
    decreases |more|
  {
    if more == [] {
      assert fs + more == fs;
    } else {
      var init := more[..|more| - 1];
      EmitFailedStays(fs, init, post);
      assert (fs + more)[..|fs + more| - 1] == fs + init;
    }
  }

  /** The posts for a prefix of the chunks are a prefix of the posts for all of them. */
  lemma {:induction false} RechunkExtends(chunks: seq<string>, i: nat)
    requires i <= |chunks|
    ensures Rechunk(chunks[..i]).flushes <= Rechunk(chunks).flushes
    decreases |chunks|
  {
    if i == |chunks| {
      assert chunks[..i] == chunks;
    } else {
      var init := chunks[..|chunks| - 1];
      assert init[..i] == chunks[..i];
      RechunkExtends(init, i);
      FeedExtends(Rechunk(init), chunks[|chunks| - 1]);
    }
  }

  /** Feeding a chunk only appends posts. */
  lemma FeedExtends(st: Relay, c: string)
    ensures st.flushes <= Feed(st, c).flushes
  {
    if c != [] {
      StepExtends(st, ExtractChunk(c), EndsWith(c, DoneMarker));
    }
  }

  lemma StepExtends(st: Relay, text: string, isLast: bool)
    ensures st.flushes <= Step(st, text, isLast).flushes
  {
  }

  /** The non-empty chunks, which `generate()` forwards unchanged when there is no downstream. */
  function NonEmpty(chunks: seq<string>): seq<string> {
    if chunks == [] then []
    else NonEmpty(chunks[..|chunks| - 1]) + (if chunks[|chunks| - 1] == [] then [] else [chunks[|chunks| - 1]])
  }

  /** The events `generate()` yields (`responseOk` is the truth value of the HTTP response). */
  function Generated(chunks: seq<string>, responseOk: bool, hasDownstream: bool, post: string -> Dict): Emitted {
    if !responseOk then Emitted([], false)
    else if !hasDownstream then Emitted(NonEmpty(chunks), false)
    else Emit(Rechunk(chunks).flushes, post)
  }

  /** One more chunk: the relay and the forwarded chunks each take one step. */
  lemma ChunkStep(chunks: seq<string>, i: nat)
    requires i < |chunks|
    ensures Rechunk(chunks[..i + 1]) == Feed(Rechunk(chunks[..i]), chunks[i])
    ensures NonEmpty(chunks[..i + 1]) == NonEmpty(chunks[..i]) + if chunks[i] == [] then [] else [chunks[i]]
  {
    assert chunks[..i + 1][..i] == chunks[..i];
  }

  /** Emitting one more successful post appends its token events. */
  lemma EmitAppend(fs: seq<Flush>, f: Flush, post: string -> Dict, events: seq<string>)
    requires Emit(fs, post) == Emitted(events, false)
    ensures var reply := post(f.text);
      Emit(fs + [f], post) ==
        if "text" in reply && reply["text"].Str? then Emitted(events + TokenGenerator(reply["text"].s, f.last), false)
        else Emitted(events, true)
  {
    assert (fs + [f])[..|fs|] == fs;
  }

  /** `generate()`: one pass over the chunks, buffering, posting and re-streaming as it goes. */
  method Generate(chunks: seq<string>, responseOk: bool, hasDownstream: bool, post: string -> Dict)
    returns (events: seq<string>, failed: bool)
    ensures Emitted(events, failed) == Generated(chunks, responseOk, hasDownstream, post)
  {
    events, failed := [], false;
    if !responseOk {
      return;
    }
    var buffer := "";
    ghost var flushes: seq<Flush> := [];
    var i := 0;
    while i < |chunks|
      invariant 0 <= i <= |chunks|
      invariant hasDownstream ==> Relay(buffer, flushes) == Rechunk(chunks[..i])
      invariant hasDownstream ==> Emit(flushes, post) == Emitted(events, false)
      invariant !hasDownstream ==> events == NonEmpty(chunks[..i])
    {
      ChunkStep(chunks, i);
      var chunk := chunks[i];
      if chunk != [] {
        if hasDownstream {
          buffer, flushes, events, failed := RelayStep(buffer, flushes, events, chunk, post);
          if failed {
            FailureStops(chunks, i + 1, post);
            return;
          }
        } else {
          events := events + [chunk];
        }
      }
      i := i + 1;
    }
    assert chunks[..i] == chunks;
  }

  /** Once a post has failed, the rest of the chunks change nothing that is streamed. */
  lemma FailureStops(chunks: seq<string>, i: nat, post: string -> Dict)
    requires i <= |chunks| && Emit(Rechunk(chunks[..i]).flushes, post).failed
    ensures Emit(Rechunk(chunks).flushes, post) == Emit(Rechunk(chunks[..i]).flushes, post)
  {
    var flushes := Rechunk(chunks[..i]).flushes;
    RechunkExtends(chunks, i);
    var more := Rechunk(chunks).flushes[|flushes|..];
    assert Rechunk(chunks).flushes == flushes + more;
    EmitFailedStays(flushes, more, post);
  }

  /**
   * One non-empty chunk with a downstream: extract it into the buffer and, at
   * a sentence end or the stream's end, post the buffer and stream the answer.
   */
  method RelayStep(buffer: string, ghost flushes: seq<Flush>, events: seq<string>, chunk: string, post: string -> Dict)
    returns (buffer': string, ghost flushes': seq<Flush>, events': seq<string>, failed: bool)
    requires chunk != [] && Emit(flushes, post) == Emitted(events, false)
    ensures Relay(buffer', flushes') == Feed(Relay(buffer, flushes), chunk)
    ensures Emit(flushes', post) == Emitted(events', failed)
  {
    buffer' := buffer + ExtractChunk(chunk);
    flushes', events', failed := flushes, events, false;
    var isLast := EndsWith(chunk, DoneMarker);
    if EndsSentence(buffer') || isLast {
      var reply := post(buffer');
      EmitAppend(flushes, Flush(buffer', isLast), post, events);
      flushes' := flushes + [Flush(buffer', isLast)];
      buffer' := "";
      if "text" in reply && reply["text"].Str? {
        events' := events + TokenGenerator(reply["text"].s, isLast);
      } else {
        failed := true;
      }
    }
  }
}
