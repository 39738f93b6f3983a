/**
 * A LlamaGuard node inside an orchestrated pipeline: the guard's verdict,
 * sent back as JSON, is the answer whose `downstream_black_list` the
 * scheduler applies to the guard's outgoing edges.
 */
module Pipeline {
  import opened Wrappers
  import opened Json
  import opened Regex
  import opened Dag
  import opened Orchestrator
  import LlamaGuard

  /** The JSON form of the verdict's `TextDoc`, as the scheduler receives it. */
  function VerdictReply(v: LlamaGuard.Verdict): Dict {
    map[
      "text" := Str(v.text),
      "downstream_black_list" := List(Strs(v.blacklist))
    ]
  }

  /** A list of strings as a JSON array. */
  function Strs(ss: seq<string>): (r: seq<Value>)
    ensures |r| == |ss| && forall k :: 0 <= k < |ss| ==> r[k] == Str(ss[k])
  {
    seq(|ss|, k requires 0 <= k < |ss| => Str(ss[k]))
  }

  /** The `.*` blacklist of a violation names every downstream service. */
  lemma ViolationHitsAll(v: LlamaGuard.Verdict, name: string)
    requires v.blacklist == [".*"]
    ensures BlacklistHit(VerdictReply(v), name)
  {
    var patterns := BlacklistPatterns(VerdictReply(v)).value;
    assert patterns[0] == Str(".*");
    AnyStarFindsAll(name);
    assert PatternHits(patterns[0], name);
  }

  /**
   * After a violation the guard forwards to nobody, and when streaming its
   * answer becomes the fake stream of the violation message.
   */
  lemma ViolationSkipsAll(ds: seq<string>, v: LlamaGuard.Verdict, stream: bool)
    requires v.blacklist == [".*"]
    ensures Blacklisted(ds, VerdictReply(v), stream) == Ok(([], stream))
  {
    var reply := VerdictReply(v);
    var patterns := BlacklistPatterns(reply).value;
    assert patterns == [Str(".*")];
    var kept := KeepUnhit(ds, Str(".*"));
    forall d | d in ds ensures PatternHits(Str(".*"), d) {
      AnyStarFindsAll(d);
    }
    AllHitKeepsNone(ds, Str(".*"));
    assert DropMatching(ds, patterns[0]) == Ok([]);
    assert SkipBlacklisted([], patterns[1..], reply, stream, stream) == Ok(([], stream));
  }

  /** A pattern that names every downstream keeps none of them. */
  lemma {:induction false} AllHitKeepsNone(ds: seq<string>, pattern: Value)
    requires forall d :: d in ds ==> PatternHits(pattern, d)
    ensures KeepUnhit(ds, pattern) == []
  {
    if ds != [] {
      assert ds[0] in ds;
      AllHitKeepsNone(ds[1..], pattern);
    }
  }

  /** A safe verdict has an empty blacklist: every downstream is kept, no conversion. */
  lemma PassSkipsNone(ds: seq<string>, v: LlamaGuard.Verdict, stream: bool)
    requires v.blacklist == []
    ensures Blacklisted(ds, VerdictReply(v), stream) == Ok((ds, false))
  {
    var reply := VerdictReply(v);
    assert Strs(v.blacklist) == [];
    assert reply["downstream_black_list"] == List([]);
    assert BlacklistPatterns(reply) == Ok([]);
  }

  /**
   * Whatever the category, an unsafe reply that parses into a verdict
   * removes every downstream of the guard.
   */
  lemma UnsafeReplyBlocks(doc: LlamaGuard.Doc, modelName: Value, reply: string, ds: seq<string>, stream: bool)
    requires Text.Contains(reply, "unsafe") && LlamaGuard.Invoke(doc, modelName, reply).Ok?
    ensures Blacklisted(ds, VerdictReply(LlamaGuard.Invoke(doc, modelName, reply).value), stream) == Ok(([], stream))
  {
    ViolationSkipsAll(ds, LlamaGuard.Invoke(doc, modelName, reply).value, stream);
  }

  /**
   * In a finished schedule no edge leaves a guard that answered with a
   * violation: the downstream services were never fed its message.
   */
  lemma GuardCutsDownstreams(g: Graph, runtime: Graph, replies: map<string, Dict>, guard: string, v: LlamaGuard.Verdict, b: string)
    requires Dag.Valid(g) && EdgesKept(g, runtime, replies)
    requires guard in replies && replies[guard] == VerdictReply(v) && v.blacklist == [".*"]
    ensures !HasEdge(runtime, guard, b)
  {
    ViolationHitsAll(v, b);
  }
}
