/**
 * `ServiceOrchestrator` (comps/cores/mega/orchestrator.py): a registry of
 * micro-services arranged in a DAG, and `schedule`, which runs every node once
 * its predecessors have answered, honours the `downstream_black_list` a node
 * returns, and prunes what became unreachable. The asynchronous completions of
 * `schedule` are taken one at a time, in an order chosen by a parameter.
 */
module Orchestrator {
  import opened Wrappers
  import opened Json
  import opened Dag
  import opened Regex
  import opened EventStream

  datatype ServiceType = Llm | Lvm | Guardrail | OtherService
  datatype Service = Service(name: string, serviceType: ServiceType)

  /** The input of a node: a plain dict, or a pydantic document whose `.dict()` is given. */
  datatype Inputs = DictIn(d: Dict) | DocIn(fields: Dict)

  /**
   * What a node contributed to `result_dict`: its JSON answer, or the fake
   * event stream `schedule` builds from the answer's `text` (built lazily: a
   * non-string text fails only when the stream is read).
   */
  datatype Output = Reply(fields: Dict) | TextStream(text: Value)

  /** The exception that ends a request. */
  datatype Fault = KeyError(key: string) | TypeError | AttributeError

  /** The events of a fake stream, once it is read. */
  function StreamEvents(o: Output): (r: Result<seq<string>, Fault>)
    requires o.TextStream?
    ensures o.text.Str? ==> r.Ok? && |r.value| == 2 && ExtractChunk(r.value[0]) == o.text.s && r.value[1] == DoneEvent
    ensures !o.text.Str? ==> r == Err(TypeError)
  {
    if o.text.Str? then Ok(FakeStream(o.text.s)) else Err(TypeError)
  }

  // ---------------------------------------------------------------------
  // process_outputs

  /** The merge `process_outputs` computes: `dict.update` with each predecessor's answer in turn. */
  function Merged(prev: seq<string>, results: map<string, Output>): Result<Dict, Fault> {
    if prev == [] then Ok(map[])
    else
      match Merged(prev[..|prev| - 1], results)
      case Err(e) => Err(e)
      case Ok(m) =>
        var p := prev[|prev| - 1];
        if p !in results then Err(KeyError(p))
        else if results[p].TextStream? then Err(TypeError)
        else Ok(m + results[p].fields)
  }

  /** Every predecessor has a JSON answer. */
  predicate AllReplied(prev: seq<string>, results: map<string, Output>) {
    forall j :: 0 <= j < |prev| ==> prev[j] in results && results[prev[j]].Reply?
  }

  /** No predecessor after position `j` has the key `k` in its answer. */
  ghost predicate LastWithKey(prev: seq<string>, results: map<string, Output>, k: string, j: int)
    requires AllReplied(prev, results)
  {
    0 <= j < |prev| && k in results[prev[j]].fields
    && forall j' :: j < j' < |prev| ==> k !in results[prev[j']].fields
  }

  /**
   * `process_outputs` succeeds exactly when every predecessor answered with a
   * dict; its keys are the union of their keys, and on a shared key the later
   * predecessor in the list wins.
   */
  lemma {:induction false} MergedSemantics(prev: seq<string>, results: map<string, Output>)
    ensures Merged(prev, results).Ok? <==> AllReplied(prev, results)
    ensures AllReplied(prev, results) ==>
      var m := Merged(prev, results).value;
      && (forall k :: k in m <==> exists j :: 0 <= j < |prev| && k in results[prev[j]].fields)
      && (forall k, j :: LastWithKey(prev, results, k, j) ==> k in m && m[k] == results[prev[j]].fields[k])
  {
    if prev != [] {
      var init := prev[..|prev| - 1];
      var p := prev[|prev| - 1];
      MergedSemantics(init, results);
      assert AllReplied(prev, results) ==> AllReplied(init, results) by {
        forall j | 0 <= j < |init| ensures init[j] == prev[j] { }
      }
      if AllReplied(prev, results) {
        var m := Merged(prev, results).value;
        var m0 := Merged(init, results).value;
        assert m == m0 + results[p].fields;
        forall k ensures k in m <==> exists j :: 0 <= j < |prev| && k in results[prev[j]].fields {
          if k in m0 {
            var j :| 0 <= j < |init| && k in results[init[j]].fields;
            assert prev[j] == init[j];
          }
          if exists j :: 0 <= j < |prev| && k in results[prev[j]].fields {
            var j :| 0 <= j < |prev| && k in results[prev[j]].fields;
            if j < |init| {
              assert init[j] == prev[j];
            }
          }
        }
        forall k, j | LastWithKey(prev, results, k, j) ensures k in m && m[k] == results[prev[j]].fields[k] {
          if j < |init| {
            assert k !in results[p].fields;
            assert LastWithKey(init, results, k, j) by {
              forall j' | j < j' < |init| ensures k !in results[init[j']].fields {
                assert init[j'] == prev[j'];
              }
              assert init[j] == prev[j];
            }
          }
        }
      } else if AllReplied(init, results) {
        assert !(p in results && results[p].Reply?);
      }
    }
  }

  /** `process_outputs(prev_nodes, result_dict)`. */
  method ProcessOutputs(prev: seq<string>, results: map<string, Output>) returns (r: Result<Dict, Fault>)
    ensures r == Merged(prev, results)
  {
    var all: Dict := map[];
    var i := 0;
    while i < |prev|
      invariant 0 <= i <= |prev|
      invariant Merged(prev[..i], results) == Ok(all)
    {
      assert prev[..i + 1][..i] == prev[..i];
      var p := prev[i];
      if p !in results {
        MergedStaysErr(prev, results, i + 1);
        return Err(KeyError(p));
      }
      if results[p].TextStream? {
        MergedStaysErr(prev, results, i + 1);
        return Err(TypeError);
      }
      all := all + results[p].fields;
      i := i + 1;
    }
    assert prev[..i] == prev;
    return Ok(all);
  }

  lemma {:induction false} MergedStaysErr(prev: seq<string>, results: map<string, Output>, i: nat)
    requires i <= |prev|
    requires Merged(prev[..i], results).Err?
    ensures Merged(prev, results) == Merged(prev[..i], results)
    decreases |prev| - i
  {
    if i < |prev| {
      assert prev[..i + 1][..i] == prev[..i];
      MergedStaysErr(prev, results, i + 1);
    } else {
      assert prev[..i] == prev;
    }
  }

  /** `process_outputs` reads only the results of the listed predecessors. */
  lemma {:induction false} MergedAgree(prev: seq<string>, results: map<string, Output>, results': map<string, Output>)
    requires forall j :: 0 <= j < |prev| ==> prev[j] in results && prev[j] in results' && results'[prev[j]] == results[prev[j]]
    ensures Merged(prev, results') == Merged(prev, results)
  {
    if prev != [] {
      var init := prev[..|prev| - 1];
      assert forall j :: 0 <= j < |init| ==> init[j] == prev[j];
      MergedAgree(init, results, results');
    }
  }

  // ---------------------------------------------------------------------
  // execute: the request body

  /**
   * The override loop of `execute` for LLM and LVM nodes: each parameter whose
   * value differs from `inputs.get(field)` is written into the inputs. A `None`
   * parameter therefore never adds an absent field.
   */
  method OverrideLlmParams(inputs: Dict, params: Dict) returns (r: Dict)
    ensures forall f :: f in r <==> f in inputs || (f in params && params[f] != Null)
    ensures forall f :: f in params && f in r ==> r[f] == params[f]
    ensures forall f :: f in inputs && f !in params ==> r[f] == inputs[f]
    ensures r == Overridden(inputs, params)
  {
    r := inputs;
    var todo := params.Keys;
    while todo != {}
      invariant todo <= params.Keys
      invariant forall f :: f in r <==> f in inputs || (f in params && f !in todo && params[f] != Null)
      invariant forall f :: f in params && f !in todo && f in r ==> r[f] == params[f]
      invariant forall f :: f in inputs && (f !in params || f in todo) ==> r[f] == inputs[f]
      decreases todo
    {
      var f :| f in todo;
      var current := if f in r then r[f] else Null;
      if current != params[f] {
        r := r[f := params[f]];
      }
      todo := todo - {f};
    }
    assert r.Keys == Overridden(inputs, params).Keys;
  }

  /** The inputs after the override loop, as a map: a parameter wins wherever it is written. */
  function Overridden(inputs: Dict, params: Dict): Dict {
    map f | f in inputs.Keys + params.Keys && (f in inputs || params[f] != Null) ::
      if f in params then params[f] else inputs[f]
  }

  /** Overriding twice with the same parameters changes nothing more. */
  lemma OverriddenTwice(inputs: Dict, params: Dict)
    ensures Overridden(Overridden(inputs, params), params) == Overridden(inputs, params)
  {
  }

  /** `.dict()` with the `None` values removed, for a document input. */
  function StripNulls(d: Dict): (r: Dict)
    ensures forall k :: k in r <==> k in d && d[k] != Null
    ensures forall k :: k in r ==> r[k] == d[k]
  {
    map k | k in d && d[k] != Null :: d[k]
  }

  /**
   * The JSON body `execute` posts for a node: LLM/LVM parameters first
   * overridden into the inputs (a document has no `get`, so that raises), then a
   * document input is turned into a dict without its `None` values.
   */
  method RequestBody(inputs: Inputs, isLlm: bool, params: Dict) returns (r: Result<Dict, Fault>)
    ensures r == Body(inputs, isLlm, params)
    ensures r.Err? <==> isLlm && inputs.DocIn? && |params| > 0
    ensures r.Ok? && inputs.DocIn? ==> r.value == StripNulls(inputs.fields)
    ensures r.Ok? && inputs.DictIn? && !isLlm ==> r.value == inputs.d
    ensures r.Ok? && inputs.DictIn? && isLlm ==>
      (forall f :: f in r.value <==> f in inputs.d || (f in params && params[f] != Null))
      && (forall f :: f in params && f in r.value ==> r.value[f] == params[f])
      && (forall f :: f in inputs.d && f !in params ==> r.value[f] == inputs.d[f])
  {
    match inputs
    case DictIn(d) =>
      if isLlm {
        var body := OverrideLlmParams(d, params);
        return Ok(body);
      }
      return Ok(d);
    case DocIn(fields) =>
      if isLlm && |params| > 0 {
        return Err(AttributeError);
      }
      return Ok(StripNulls(fields));
  }

  /** The body `execute` posts, as a value: what `RequestBody` computes. */
  function Body(inputs: Inputs, isLlm: bool, params: Dict): Result<Dict, Fault> {
    match inputs
    case DictIn(d) => Ok(if isLlm then Overridden(d, params) else d)
    case DocIn(fields) => if isLlm && |params| > 0 then Err(AttributeError) else Ok(StripNulls(fields))
  }

  /** Whether `execute` treats the node as an LLM or LVM service. */
  predicate IsLlmNode(services: map<string, Service>, n: string) {
    n in services && services[n].serviceType in {Llm, Lvm}
  }

  // ---------------------------------------------------------------------
  // The downstream blacklist

  /** The patterns `for black_node in response["downstream_black_list"]` iterates over. */
  function BlacklistPatterns(reply: Dict): (r: Result<seq<Value>, Fault>)
    ensures "downstream_black_list" !in reply ==> r == Ok([])
    ensures r.Err? <==> "downstream_black_list" in reply && !reply["downstream_black_list"].List? && !reply["downstream_black_list"].Str?
    ensures "downstream_black_list" in reply && reply["downstream_black_list"].List? ==> r == Ok(reply["downstream_black_list"].items)
    ensures "downstream_black_list" in reply && reply["downstream_black_list"].Str? ==>
      var s := reply["downstream_black_list"].s;
      r.Ok? && |r.value| == |s| && forall k :: 0 <= k < |s| ==> r.value[k] == Str([s[k]])
  {
    if "downstream_black_list" !in reply then Ok([])
    else match reply["downstream_black_list"]
      case List(items) => Ok(items)
      case Str(s) => Ok(seq(|s|, k requires 0 <= k < |s| => Str([s[k]])))
      case _ => Err(TypeError)
  }

  /** `pattern` names `name`: a string pattern whose regular expression finds a match. */
  predicate PatternHits(pattern: Value, name: string) {
    pattern.Str? && FindsMatch(pattern.s, name) == Ok(true)
  }

  /** Some pattern of the list names `name`. */
  ghost predicate Hit(patterns: seq<Value>, name: string) {
    exists k :: 0 <= k < |patterns| && PatternHits(patterns[k], name)
  }

  /** The names no pattern hits, in order. */
  function KeepUnhit(ds: seq<string>, pattern: Value): (r: seq<string>)
    ensures forall d :: d in r <==> d in ds && !PatternHits(pattern, d)
    ensures Distinct(ds) ==> Distinct(r)
  {
    if ds == [] then []
    else
      var rest := KeepUnhit(ds[1..], pattern);
      if PatternHits(pattern, ds[0]) then rest
      else
        assert ds[0] !in ds[1..] ==> ds[0] !in rest;
        [ds[0]] + rest
  }

  /**
   * One pattern applied to the downstream list: `re.findall` is only called
   * when there is a downstream; a pattern that is not a string then raises, an
   * invalid one is skipped, and every other removes the names it matches.
   */
  function DropMatching(ds: seq<string>, pattern: Value): Result<seq<string>, Fault> {
    if ds == [] then Ok([])
    else if !pattern.Str? then Err(TypeError)
    else Ok(KeepUnhit(ds, pattern))
  }

  /**
   * All patterns in turn; after each one an emptied list turns the node's
   * answer into a fake stream (when streaming), which needs its `text`. The
   * Boolean is whether that conversion happened.
   */
  function SkipBlacklisted(ds: seq<string>, patterns: seq<Value>, reply: Dict, stream: bool, converted: bool)
    : Result<(seq<string>, bool), Fault>
    decreases |patterns|
  {
    if patterns == [] then Ok((ds, converted))
    else match DropMatching(ds, patterns[0])
      case Err(e) => Err(e)
      case Ok(ds') =>
        if ds' == [] && stream then
          if "text" !in reply then Err(KeyError("text"))
          else SkipBlacklisted(ds', patterns[1..], reply, stream, true)
        else SkipBlacklisted(ds', patterns[1..], reply, stream, converted)
  }

  /**
   * What survives the blacklist is exactly the downstreams no pattern hits,
   * and a conversion happened only when none survives.
   */
  lemma {:induction false} SkipBlacklistedKeeps(ds: seq<string>, patterns: seq<Value>, reply: Dict, stream: bool, converted: bool)
    requires converted ==> ds == []
    requires SkipBlacklisted(ds, patterns, reply, stream, converted).Ok?
    ensures var (r, conv) := SkipBlacklisted(ds, patterns, reply, stream, converted).value;
      && (forall d :: d in r <==> d in ds && !Hit(patterns, d))
      && (conv ==> r == [])
      && (Distinct(ds) ==> Distinct(r))
    decreases |patterns|
  {
    if patterns != [] {
      var ds' := DropMatching(ds, patterns[0]).value;
      assert forall d :: d in ds' <==> d in ds && !PatternHits(patterns[0], d);
      var conv' := if ds' == [] && stream then true else converted;
      SkipBlacklistedKeeps(ds', patterns[1..], reply, stream, conv');
      forall d ensures Hit(patterns, d) <==> PatternHits(patterns[0], d) || Hit(patterns[1..], d) {
        if Hit(patterns, d) {
          var k :| 0 <= k < |patterns| && PatternHits(patterns[k], d);
          if k > 0 {
            assert patterns[1..][k - 1] == patterns[k];
          }
        }
        if Hit(patterns[1..], d) {
          var k :| 0 <= k < |patterns[1..]| && PatternHits(patterns[1..][k], d);
          assert patterns[k + 1] == patterns[1..][k];
        }
      }
    }
  }

  /**
   * One pattern of the blacklist loop in `schedule`: walk the downstreams in
   * reverse, deleting the edge to and removing every one the pattern matches.
   */
  method DropBlacklisted(runtime: Graph, node: string, pattern: Value)
    returns (r: Result<Graph, Fault>)
    requires Dag.Valid(runtime) && node in runtime.succ
    ensures r.Err? <==> DropMatching(runtime.succ[node], pattern).Err?
    ensures r.Err? ==> DropMatching(runtime.succ[node], pattern) == Err(r.error)
    ensures r.Ok? ==>
      && Dag.Valid(r.value)
      && r.value == Graph(runtime.nodes, runtime.succ[node := DropMatching(runtime.succ[node], pattern).value])
  {
    var ds0 := runtime.succ[node];
    if ds0 == [] {
      return Ok(runtime);
    }
    if !pattern.Str? {
      return Err(TypeError);
    }
    var g := runtime;
    var ds := ds0;
    var j := |ds0|;
    while j > 0
      invariant 0 <= j <= |ds0|
      invariant ds == ds0[..j] + KeepUnhit(ds0[j..], pattern)
      invariant Distinct(ds)
      invariant g == Graph(runtime.nodes, runtime.succ[node := ds])
    {
      j := j - 1;
      DropStep(runtime, node, pattern, j, ds);
      var d := ds[j];
      if FindsMatch(pattern.s, d) == Ok(true) {
        ShrunkValid(runtime, node, ds);
        DeleteEdgeUpdate(runtime.nodes, runtime.succ, node, ds, d);
        g := DeleteEdge(g, node, d);
        ds := RemoveFirst(ds, d);
      }
    }
    assert ds0[0..] == ds0;
    assert ds0[..0] == [];
    assert ds == KeepUnhit(ds0, pattern);
    ShrunkValid(runtime, node, ds);
    return Ok(g);
  }

  /** One step of the reverse walk keeps the loop invariant of `DropBlacklisted`. */
  lemma DropStep(runtime: Graph, node: string, pattern: Value, j: nat, ds: seq<string>)
    requires node in runtime.succ && j < |runtime.succ[node]|
    requires ds == runtime.succ[node][..j + 1] + KeepUnhit(runtime.succ[node][j + 1..], pattern) && Distinct(ds)
    ensures j < |ds| && ds[j] == runtime.succ[node][j]
    ensures forall x :: x in ds ==> x in runtime.succ[node]
    ensures PatternHits(pattern, ds[j]) ==>
      var ds' := RemoveFirst(ds, ds[j]);
      ds' == runtime.succ[node][..j] + KeepUnhit(runtime.succ[node][j..], pattern) && Distinct(ds')
    ensures !PatternHits(pattern, ds[j]) ==> ds == runtime.succ[node][..j] + KeepUnhit(runtime.succ[node][j..], pattern)
  {
    var ds0 := runtime.succ[node];
    assert forall x :: x in ds ==> x in ds0[..j + 1] || x in KeepUnhit(ds0[j + 1..], pattern);
    KeepStep(ds0, j, pattern, ds);
    RemoveAt(ds, j);
    DistinctRemove(ds, j);
  }

  /** Dropping entries of one duplicate-free successor list keeps a graph valid. */
  lemma ShrunkValid(runtime: Graph, node: string, ds: seq<string>)
    requires Dag.Valid(runtime) && node in runtime.succ
    requires Distinct(ds) && forall x :: x in ds ==> x in runtime.succ[node]
    ensures Dag.Valid(Graph(runtime.nodes, runtime.succ[node := ds]))
  {
  }

  /** One step of the reverse walk: position `j` is dropped exactly when the pattern hits it. */
  lemma KeepStep(ds0: seq<string>, j: nat, pattern: Value, ds: seq<string>)
    requires j < |ds0| && ds == ds0[..j + 1] + KeepUnhit(ds0[j + 1..], pattern)
    ensures j < |ds| && ds[j] == ds0[j]
    ensures PatternHits(pattern, ds0[j]) ==> ds[..j] + ds[j + 1..] == ds0[..j] + KeepUnhit(ds0[j..], pattern)
    ensures !PatternHits(pattern, ds0[j]) ==> ds == ds0[..j] + KeepUnhit(ds0[j..], pattern)
  {
    var rest := KeepUnhit(ds0[j + 1..], pattern);
    KeepUnhitFirst(ds0[j..], pattern);
    assert ds0[j..][0] == ds0[j] && ds0[j..][1..] == ds0[j + 1..];
    assert ds0[..j + 1] == ds0[..j] + [ds0[j]];
    assert ds == ds0[..j] + [ds0[j]] + rest;
    if PatternHits(pattern, ds0[j]) {
      assert ds[..j] == ds0[..j];
      assert ds[j + 1..] == rest;
    } else {
      ConcatAssoc(ds0[..j], [ds0[j]], rest);
    }
  }

  lemma ConcatAssoc(a: seq<string>, b: seq<string>, c: seq<string>)
    ensures a + b + c == a + (b + c)
  {
  }

  lemma KeepUnhitFirst(ds: seq<string>, pattern: Value)
    requires ds != []
    ensures KeepUnhit(ds, pattern) ==
      if PatternHits(pattern, ds[0]) then KeepUnhit(ds[1..], pattern) else [ds[0]] + KeepUnhit(ds[1..], pattern)
  {
  }

  /** In a duplicate-free list, `list.remove(s[j])` removes position `j`. */
  lemma {:induction false} RemoveAt(s: seq<string>, j: nat)
    requires Distinct(s) && j < |s|
    ensures RemoveFirst(s, s[j]) == s[..j] + s[j + 1..]
  {
    if j > 0 {
      var t := s[1..];
      assert Distinct(t) by {
        forall a, b | 0 <= a < b < |t| ensures t[a] != t[b] {
          assert t[a] == s[a + 1] && t[b] == s[b + 1];
        }
      }
      assert t[j - 1] == s[j] != s[0];
      RemoveAt(t, j - 1);
      assert RemoveFirst(s, s[j]) == [s[0]] + RemoveFirst(t, s[j]);
      assert s[..j] == [s[0]] + t[..j - 1];
      assert s[j + 1..] == t[j..];
    }
  }

  /** The whole blacklist of an answer applied to the node's downstream list. */
  function Blacklisted(ds: seq<string>, reply: Dict, stream: bool): Result<(seq<string>, bool), Fault> {
    match BlacklistPatterns(reply)
    case Err(e) => Err(e)
    case Ok(patterns) => SkipBlacklisted(ds, patterns, reply, stream, false)
  }

  /**
   * An answer the blacklist loop accepts: its `downstream_black_list`, if
   * any, is a string or a list of strings, and when streaming a non-empty one
   * comes with the `text` a fake stream would need.
   */
  ghost predicate Servable(reply: Dict, stream: bool) {
    && BlacklistPatterns(reply).Ok?
    && (forall k :: 0 <= k < |BlacklistPatterns(reply).value| ==> BlacklistPatterns(reply).value[k].Str?)
    && (stream && BlacklistPatterns(reply).value != [] ==> "text" in reply)
  }

  /** String patterns, with a `text` to fall back on when streaming, never make the blacklist loop raise. */
  lemma {:induction false} SkipBlacklistedOk(ds: seq<string>, patterns: seq<Value>, reply: Dict, stream: bool, converted: bool)
    requires forall k :: 0 <= k < |patterns| ==> patterns[k].Str?
    requires stream && patterns != [] ==> "text" in reply
    ensures SkipBlacklisted(ds, patterns, reply, stream, converted).Ok?
    decreases |patterns|
  {
    if patterns != [] {
      assert patterns[0].Str?;
      var ds' := if ds == [] then [] else KeepUnhit(ds, patterns[0]);
      assert DropMatching(ds, patterns[0]) == Ok(ds');
      assert forall k :: 0 <= k < |patterns[1..]| ==> patterns[1..][k] == patterns[k + 1];
      SkipBlacklistedOk(ds', patterns[1..], reply, stream, true);
      SkipBlacklistedOk(ds', patterns[1..], reply, stream, converted);
    }
  }

  /** Some pattern of the answer's `downstream_black_list` names `name`. */
  ghost predicate BlacklistHit(reply: Dict, name: string) {
    BlacklistPatterns(reply).Ok? && Hit(BlacklistPatterns(reply).value, name)
  }

  /**
   * The blacklist loop of `schedule` for one completed node: each pattern in
   * turn deletes the matching edges, and an emptied downstream list asks for
   * the fake stream (the returned flag).
   */
  method SkipDownstreams(runtime: Graph, node: string, reply: Dict, stream: bool)
    returns (r: Result<(Graph, bool), Fault>)
    requires Dag.Valid(runtime) && node in runtime.succ
    ensures r.Err? ==> Blacklisted(runtime.succ[node], reply, stream) == Err(r.error)
    ensures r.Ok? ==>
      && Dag.Valid(r.value.0) && node in r.value.0.succ
      && r.value.0 == Graph(runtime.nodes, runtime.succ[node := r.value.0.succ[node]])
      && Blacklisted(runtime.succ[node], reply, stream) == Ok((r.value.0.succ[node], r.value.1))
      && (r.value.1 ==> stream && r.value.0.succ[node] == [] && "text" in reply)
  {
    var patterns;
    match BlacklistPatterns(reply) {
      case Err(e) => return Err(e);
      case Ok(ps) => patterns := ps;
    }
    var g := runtime;
    var converted := false;
    var k := 0;
    while k < |patterns|
      invariant 0 <= k <= |patterns|
      invariant Dag.Valid(g) && node in g.succ
      invariant g == Graph(runtime.nodes, runtime.succ[node := g.succ[node]])
      invariant SkipBlacklisted(runtime.succ[node], patterns, reply, stream, false)
             == SkipBlacklisted(g.succ[node], patterns[k..], reply, stream, converted)
      invariant converted ==> stream && g.succ[node] == [] && "text" in reply
    {
      var dropped := DropBlacklisted(g, node, patterns[k]);
      SkipStep(g.succ[node], patterns, k, reply, stream, converted);
      if dropped.Err? {
        return Err(dropped.error);
      }
      ReplaceTwice(runtime.succ, node, g.succ[node], dropped.value.succ[node]);
      g := dropped.value;
      if g.succ[node] == [] && stream {
        if "text" !in reply {
          return Err(KeyError("text"));
        }
        converted := true;
      }
      k := k + 1;
    }
    assert patterns[k..] == [];
    return Ok((g, converted));
  }

  /** The blacklist walk after its `k`-th pattern, in terms of that pattern's outcome. */
  lemma SkipStep(ds: seq<string>, patterns: seq<Value>, k: nat, reply: Dict, stream: bool, converted: bool)
    requires k < |patterns|
    ensures DropMatching(ds, patterns[k]).Err? ==>
      SkipBlacklisted(ds, patterns[k..], reply, stream, converted) == Err(DropMatching(ds, patterns[k]).error)
    ensures DropMatching(ds, patterns[k]).Ok? ==>
      var ds' := DropMatching(ds, patterns[k]).value;
      SkipBlacklisted(ds, patterns[k..], reply, stream, converted) ==
        if ds' == [] && stream then
          if "text" !in reply then Err(KeyError("text"))
          else SkipBlacklisted(ds', patterns[k + 1..], reply, stream, true)
        else SkipBlacklisted(ds', patterns[k + 1..], reply, stream, converted)
  {
    assert patterns[k..][0] == patterns[k];
    assert patterns[k..][1..] == patterns[k + 1..];
  }

  lemma ReplaceTwice(m: map<string, seq<string>>, key: string, a: seq<string>, b: seq<string>)
    ensures m[key := a][key := b] == m[key := b]
  {
  }

  // ---------------------------------------------------------------------
  // Launching ready downstreams

  /** The `all(i in result_dict for i in runtime_graph.predecessors(d_node))` test. */
  predicate AllPredecessorsDone(g: Graph, d: string, results: map<string, Output>)
    requires Dag.Valid(g)
  {
    var preds := Predecessors(g, d);
    forall i :: 0 <= i < |preds| ==> preds[i] in results
  }

  /** The downstreams that pass the test, in order. */
  function ReadyAmong(g: Graph, ds: seq<string>, results: map<string, Output>): (r: seq<string>)
    requires Dag.Valid(g)
    ensures forall d :: d in r <==> d in ds && AllPredecessorsDone(g, d, results)
    ensures Distinct(ds) ==> Distinct(r)
  {
    if ds == [] then []
    else
      var init := ReadyAmong(g, ds[..|ds| - 1], results);
      var d := ds[|ds| - 1];
      assert ds == ds[..|ds| - 1] + [d];
      if AllPredecessorsDone(g, d, results) then
        assert d !in ds[..|ds| - 1] ==> d !in init;
        init + [d]
      else init
  }

  /**
   * The launch loop of `schedule`: every downstream of `node` whose
   * predecessors all have results is launched with the merge of their outputs,
   * and that merge cannot fail, since a node whose answer became a fake stream
   * has no downstream left.
   */
  method LaunchReady(runtime: Graph, node: string, results: map<string, Output>)
    returns (ready: seq<string>, inputs: seq<Dict>)
    requires Dag.Valid(runtime) && node in runtime.succ
    requires forall n :: n in results && n in runtime.succ && results[n].TextStream? ==> runtime.succ[n] == []
    ensures ready == ReadyAmong(runtime, runtime.succ[node], results)
    ensures |inputs| == |ready|
    ensures forall k :: 0 <= k < |ready| ==> Merged(Predecessors(runtime, ready[k]), results) == Ok(inputs[k])
  {
    var ds := runtime.succ[node];
    ready, inputs := [], [];
    var j := 0;
    while j < |ds|
      invariant 0 <= j <= |ds|
      invariant ready == ReadyAmong(runtime, ds[..j], results)
      invariant InputsFor(runtime, ready, inputs, results)
    {
      var d := ds[j];
      ReadyAmongStep(runtime, ds, j, results);
      if AllPredecessorsDone(runtime, d, results) {
        ReadyMergeOk(runtime, d, results);
        var merged := ProcessOutputs(Predecessors(runtime, d), results);
        InputsForAppend(runtime, ready, inputs, results, d, merged.value);
        ready := ready + [d];
        inputs := inputs + [merged.value];
      }
      j := j + 1;
    }
    assert ds[..j] == ds;
  }

  /** Each launched downstream is paired with the merge of its predecessors' answers. */
  ghost predicate InputsFor(g: Graph, ready: seq<string>, inputs: seq<Dict>, results: map<string, Output>)
    requires Dag.Valid(g)
  {
    |inputs| == |ready| && forall k :: 0 <= k < |ready| ==> Merged(Predecessors(g, ready[k]), results) == Ok(inputs[k])
  }

  lemma InputsForAppend(g: Graph, ready: seq<string>, inputs: seq<Dict>, results: map<string, Output>, d: string, m: Dict)
    requires Dag.Valid(g) && InputsFor(g, ready, inputs, results)
    requires Merged(Predecessors(g, d), results) == Ok(m)
    ensures InputsFor(g, ready + [d], inputs + [m], results)
  {
  }

  lemma ReadyAmongStep(g: Graph, ds: seq<string>, j: nat, results: map<string, Output>)
    requires Dag.Valid(g) && j < |ds|
    ensures ReadyAmong(g, ds[..j + 1], results) ==
      ReadyAmong(g, ds[..j], results) + if AllPredecessorsDone(g, ds[j], results) then [ds[j]] else []
  {
    assert ds[..j + 1][..j] == ds[..j];
  }

  /** The merge for a ready downstream succeeds: its predecessors all answered in JSON. */
  lemma ReadyMergeOk(g: Graph, d: string, results: map<string, Output>)
    requires Dag.Valid(g)
    requires forall n :: n in results && n in g.succ && results[n].TextStream? ==> g.succ[n] == []
    requires AllPredecessorsDone(g, d, results)
    ensures Merged(Predecessors(g, d), results).Ok?
  {
    var preds := Predecessors(g, d);
    forall i | 0 <= i < |preds| ensures results[preds[i]].Reply? {
      assert HasEdge(g, preds[i], d);
    }
    MergedSemantics(preds, results);
  }

  // ---------------------------------------------------------------------
  // The scheduling loop

  /** A launched task: the node and the inputs it is executed with. */
  datatype Task = Task(node: string, inputs: Inputs)

  /** What `schedule` returns: `result_dict` and the pruned runtime graph. */
  datatype Run = Run(results: map<string, Output>, runtime: Graph)

  /**
   * The record of one launch: the node, the completed node whose downstream
   * loop launched it (none for an independent node), the nodes that had
   * completed by then, and the inputs the task was created with.
   */
  datatype Launch = Launch(node: string, trigger: Option<string>, completed: set<string>, inputs: Inputs)

  function TaskNodes(tasks: seq<Task>): (r: seq<string>)
    ensures |r| == |tasks| && forall k :: 0 <= k < |tasks| ==> r[k] == tasks[k].node
  {
    seq(|tasks|, k requires 0 <= k < |tasks| => tasks[k].node)
  }

  function LaunchedNodes(log: seq<Launch>): (r: seq<string>)
    ensures |r| == |log| && forall k :: 0 <= k < |log| ==> r[k] == log[k].node
  {
    seq(|log|, k requires 0 <= k < |log| => log[k].node)
  }

  /** The runtime graph is the graph less the blacklisted edges of the completed nodes. */
  ghost predicate EdgesKept(g: Graph, runtime: Graph, replies: map<string, Dict>)
    requires Dag.Valid(g)
  {
    && Dag.Valid(runtime) && runtime.nodes == g.nodes && runtime.succ.Keys == g.succ.Keys
    && forall a, b :: HasEdge(runtime, a, b) <==> HasEdge(g, a, b) && !(a in replies && BlacklistHit(replies[a], b))
  }

  /** A result is the node's answer, or the fake stream of its text once it has no downstream. */
  ghost predicate ResultsRecorded(stream: bool, runtime: Graph, results: map<string, Output>, replies: map<string, Dict>) {
    && results.Keys == replies.Keys && results.Keys <= runtime.succ.Keys
    && forall n :: n in results ==>
         || results[n] == Reply(replies[n])
         || (stream && "text" in replies[n] && results[n] == TextStream(replies[n]["text"]) && runtime.succ[n] == [])
  }

  /** Every node is launched at most once; a launched node has completed or is pending, not both. */
  ghost predicate LaunchedOnce(g: Graph, results: map<string, Output>, pending: seq<Task>, log: seq<Launch>) {
    && Distinct(LaunchedNodes(log)) && Distinct(TaskNodes(pending))
    && (forall x :: x in LaunchedNodes(log) ==> x in g.succ)
    && (forall x :: x in LaunchedNodes(log) <==> x in results || x in TaskNodes(pending))
    && (forall x :: x in TaskNodes(pending) ==> x !in results)
  }

  /**
   * The independent nodes are launched first; every other launch was
   * triggered along a kept edge; a node is launched after all its
   * predecessors have completed, and before it completes itself.
   */
  ghost predicate LaunchOrder(inds: seq<string>, runtime: Graph, results: map<string, Output>, log: seq<Launch>) {
    && |inds| <= |log|
    && (forall j :: 0 <= j < |inds| ==> log[j].node == inds[j] && log[j].trigger.None? && log[j].completed == {})
    && (forall j :: |inds| <= j < |log| ==>
          log[j].trigger.Some? && log[j].trigger.value in log[j].completed
          && HasEdge(runtime, log[j].trigger.value, log[j].node))
    && (forall j :: 0 <= j < |log| ==> log[j].node !in log[j].completed && log[j].completed <= results.Keys)
    && (forall j, p :: 0 <= j < |log| && HasEdge(runtime, p, log[j].node) ==> p in log[j].completed)
  }

  /** Every predecessor of `d` in the graph has completed and still has its edge to `d`. */
  ghost predicate Unblocked(g: Graph, runtime: Graph, results: map<string, Output>, d: string) {
    forall p :: HasEdge(g, p, d) ==> p in results && HasEdge(runtime, p, d)
  }

  /** A node that nothing blocks has been launched. */
  ghost predicate ReadyLaunched(g: Graph, runtime: Graph, results: map<string, Output>, log: seq<Launch>) {
    forall d :: d in g.succ && Unblocked(g, runtime, results, d) ==> d in LaunchedNodes(log)
  }

  /** The invariant of the `while pending` loop of `schedule`. */
  ghost predicate Scheduling(g: Graph, inds: seq<string>, stream: bool, runtime: Graph,
                             results: map<string, Output>, pending: seq<Task>,
                             replies: map<string, Dict>, log: seq<Launch>)
    requires Dag.Valid(g)
  {
    && EdgesKept(g, runtime, replies)
    && ResultsRecorded(stream, runtime, results, replies)
    && LaunchedOnce(g, results, pending, log)
    && LaunchOrder(inds, runtime, results, log)
    && ReadyLaunched(g, runtime, results, log)
  }

  /** The independent nodes were launched with the request's own inputs. */
  ghost predicate InitialFed(inds: seq<string>, initial: Inputs, log: seq<Launch>) {
    forall j :: 0 <= j < |inds| && j < |log| ==> log[j].inputs == initial
  }

  /** The launch's inputs are the merge of the node's current predecessors' results. */
  ghost predicate Fed(runtime: Graph, results: map<string, Output>, l: Launch)
    requires Dag.Valid(runtime)
  {
    l.inputs.DictIn? && Merged(Predecessors(runtime, l.node), results) == Ok(l.inputs.d)
  }

  /** Every launch after the independent ones was given the merge of its predecessors' results. */
  ghost predicate MergesFed(inds: seq<string>, runtime: Graph, results: map<string, Output>, log: seq<Launch>) {
    Dag.Valid(runtime) && forall j :: |inds| <= j < |log| ==> Fed(runtime, results, log[j])
  }

  /** A pending task carries the inputs of its launch. */
  ghost predicate PendingGiven(pending: seq<Task>, log: seq<Launch>) {
    forall j, k :: 0 <= j < |log| && 0 <= k < |pending| && log[j].node == pending[k].node ==>
      pending[k].inputs == log[j].inputs
  }

  /** `execute` posted to `n` the body built from `inputs`, and `reply` is the service's answer to it. */
  ghost predicate Answered(services: map<string, Service>, params: Dict, exec: (string, Dict) -> Dict,
                           n: string, inputs: Inputs, reply: Dict) {
    Body(inputs, IsLlmNode(services, n), params).Ok?
    && reply == exec(n, Body(inputs, IsLlmNode(services, n), params).value)
  }

  /** A completed node's answer is its service's answer to the body of its launch. */
  ghost predicate RepliesAnswered(services: map<string, Service>, params: Dict, exec: (string, Dict) -> Dict,
                                  replies: map<string, Dict>, log: seq<Launch>) {
    forall j :: 0 <= j < |log| && log[j].node in replies ==>
      Answered(services, params, exec, log[j].node, log[j].inputs, replies[log[j].node])
  }

  /** The dataflow half of the invariant of the `while pending` loop: what each node was given and answered. */
  ghost predicate Dataflow(services: map<string, Service>, params: Dict, exec: (string, Dict) -> Dict,
                           initial: Inputs, inds: seq<string>, runtime: Graph, results: map<string, Output>,
                           pending: seq<Task>, replies: map<string, Dict>, log: seq<Launch>) {
    && InitialFed(inds, initial, log)
    && MergesFed(inds, runtime, results, log)
    && PendingGiven(pending, log)
    && RepliesAnswered(services, params, exec, replies, log)
  }

  lemma DistinctAppend(a: seq<string>, b: seq<string>)
    requires Distinct(a) && Distinct(b) && forall x :: x in a ==> x !in b
    ensures Distinct(a + b)
  {
    forall i, j | 0 <= i < j < |a + b| ensures (a + b)[i] != (a + b)[j] {
      if i < |a| && j >= |a| {
        assert (a + b)[i] in a && (a + b)[j] == b[j - |a|];
      }
    }
  }

  lemma DistinctRemove(s: seq<string>, i: nat)
    requires Distinct(s) && i < |s|
    ensures Distinct(s[..i] + s[i + 1..])
    ensures forall x :: x in s[..i] + s[i + 1..] <==> x in s && x != s[i]
  {
    var t := s[..i] + s[i + 1..];
    forall x | x in s && x != s[i] ensures x in t {
      var k :| 0 <= k < |s| && s[k] == x;
      if k < i { assert t[k] == x; } else { assert t[k - 1] == x; }
    }
    forall a, b | 0 <= a < b < |t| ensures t[a] != t[b] {
      var a' := if a < i then a else a + 1;
      var b' := if b < i then b else b + 1;
      assert t[a] == s[a'] && t[b] == s[b'];
    }
    forall x | x in t ensures x in s && x != s[i] {
      var k :| 0 <= k < |t| && t[k] == x;
      var k' := if k < i then k else k + 1;
      assert t[k] == s[k'];
    }
  }

  /**
   * The blacklist of a completing node changes only that node's edges, and
   * keeps exactly those of the graph that it does not hit.
   */
  lemma EdgesAfterCompletion(g: Graph, runtime: Graph, runtime': Graph, replies: map<string, Dict>,
                             node: string, reply: Dict, stream: bool, conv: bool)
    requires Dag.Valid(g) && EdgesKept(g, runtime, replies)
    requires node in runtime.succ && node !in replies
    requires Dag.Valid(runtime') && node in runtime'.succ
    requires runtime' == Graph(runtime.nodes, runtime.succ[node := runtime'.succ[node]])
    requires Blacklisted(runtime.succ[node], reply, stream) == Ok((runtime'.succ[node], conv))
    ensures EdgesKept(g, runtime', replies[node := reply])
    ensures forall a, b :: HasEdge(runtime', a, b) ==> HasEdge(runtime, a, b)
    ensures forall a, b :: a != node ==> (HasEdge(runtime', a, b) <==> HasEdge(runtime, a, b))
  {
    var patterns := BlacklistPatterns(reply).value;
    SkipBlacklistedKeeps(runtime.succ[node], patterns, reply, stream, false);
    forall d ensures d in runtime.succ[node] <==> HasEdge(g, node, d) {
      assert d in runtime.succ[node] <==> HasEdge(runtime, node, d);
    }
    forall a, b ensures HasEdge(runtime', a, b) <==> HasEdge(g, a, b) && !(a in replies[node := reply] && BlacklistHit(replies[node := reply][a], b)) {
      if a != node {
        assert HasEdge(runtime', a, b) <==> HasEdge(runtime, a, b);
      }
    }
  }

  /**
   * Launching the ready downstreams of a completed node: they are new, and
   * each node stays launched at most once.
   */
  lemma LaunchesAfterCompletion(g: Graph, inds: seq<string>, runtime: Graph, results: map<string, Output>,
                                pending: seq<Task>, log: seq<Launch>, idx: nat, o: Output,
                                ready: seq<string>, newTasks: seq<Task>, log': seq<Launch>)
    requires LaunchedOnce(g, results, pending, log) && LaunchOrder(inds, runtime, results, log)
    requires idx < |pending|
    requires Distinct(ready) && forall x :: x in ready ==> x in g.succ && HasEdge(runtime, pending[idx].node, x)
    requires TaskNodes(newTasks) == ready
    requires log' == log + NewLaunches(newTasks, pending[idx].node, results.Keys + {pending[idx].node})
    ensures forall x :: x in ready ==> x !in LaunchedNodes(log)
    ensures LaunchedNodes(log') == LaunchedNodes(log) + ready
    ensures LaunchedOnce(g, results[pending[idx].node := o], pending[..idx] + pending[idx + 1..] + newTasks, log')
  {
    var node := pending[idx].node;
    assert node in TaskNodes(pending);
    assert LaunchedNodes(log') == LaunchedNodes(log) + ready;
    DistinctAppend(LaunchedNodes(log), ready);
    var rest := pending[..idx] + pending[idx + 1..];
    assert TaskNodes(rest) == TaskNodes(pending)[..idx] + TaskNodes(pending)[idx + 1..];
    assert TaskNodes(rest + newTasks) == TaskNodes(rest) + ready;
    DistinctRemove(TaskNodes(pending), idx);
    DistinctAppend(TaskNodes(rest), ready);
  }

  /** The launch records of the independent nodes, created before the loop. */
  function StartLog(inds: seq<string>, initial: Inputs): (r: seq<Launch>)
    ensures |r| == |inds| && LaunchedNodes(r) == inds
  {
    seq(|inds|, k requires 0 <= k < |inds| => Launch(inds[k], None, {}, initial))
  }

  /** The loop invariant holds once the independent nodes are launched. */
  lemma SchedulingStarts(g: Graph, stream: bool, pending: seq<Task>, initial: Inputs)
    requires Dag.Valid(g) && TaskNodes(pending) == IndNodes(g)
    ensures Scheduling(g, IndNodes(g), stream, g, map[], pending, map[], StartLog(IndNodes(g), initial))
  {
    var inds := IndNodes(g);
    forall j, p | 0 <= j < |inds| && HasEdge(g, p, inds[j]) ensures p in Predecessors(g, inds[j]) { }
    forall d | d in g.succ && Unblocked(g, g, map[], d) ensures d in inds {
      var preds := Predecessors(g, d);
      NoMembersEmpty(preds);
    }
  }

  lemma NoMembersEmpty(s: seq<string>)
    ensures (forall k :: k !in s) ==> s == []
  {
    if s != [] {
      assert s[0] in s;
    }
  }

  /** Before the loop, the independent nodes are pending with the request's inputs. */
  lemma DataflowStarts(services: map<string, Service>, params: Dict, exec: (string, Dict) -> Dict,
                       g: Graph, pending: seq<Task>, initial: Inputs)
    requires Dag.Valid(g) && TaskNodes(pending) == IndNodes(g)
    requires forall k :: 0 <= k < |pending| ==> pending[k].inputs == initial
    ensures Dataflow(services, params, exec, initial, IndNodes(g), g, map[], pending, map[], StartLog(IndNodes(g), initial))
  {
  }

  /** The results after a completion: the node's answer, or its fake stream. */
  lemma ResultsAfterCompletion(stream: bool, runtime: Graph, runtime': Graph, results: map<string, Output>,
                               replies: map<string, Dict>, node: string, reply: Dict, conv: bool)
    requires ResultsRecorded(stream, runtime, results, replies) && node in runtime.succ
    requires runtime'.succ.Keys == runtime.succ.Keys
    requires forall n :: n in runtime.succ && n != node ==> runtime'.succ[n] == runtime.succ[n]
    requires conv ==> stream && "text" in reply && runtime'.succ[node] == []
    ensures var o := if conv then TextStream(reply["text"]) else Reply(reply);
      && ResultsRecorded(stream, runtime', results[node := o], replies[node := reply])
      && forall n :: n in results[node := o] && n in runtime'.succ && results[node := o][n].TextStream? ==> runtime'.succ[n] == []
  {
  }

  /**
   * The task at `idx` of the `while pending` loop answered `reply`, and its
   * blacklist turned `runtime` into `runtime'`.
   */
  ghost predicate Completed(g: Graph, inds: seq<string>, stream: bool, runtime: Graph,
                            results: map<string, Output>, pending: seq<Task>,
                            replies: map<string, Dict>, log: seq<Launch>,
                            idx: nat, reply: Dict, runtime': Graph, conv: bool)
  {
    && Dag.Valid(g)
    && Scheduling(g, inds, stream, runtime, results, pending, replies, log)
    && idx < |pending|
    && Dag.Valid(runtime') && pending[idx].node in runtime'.succ
    && runtime' == Graph(runtime.nodes, runtime.succ[pending[idx].node := runtime'.succ[pending[idx].node]])
    && Blacklisted(runtime.succ[pending[idx].node], reply, stream) == Ok((runtime'.succ[pending[idx].node], conv))
    && (conv ==> stream && runtime'.succ[pending[idx].node] == [] && "text" in reply)
  }

  /**
   * The situation after one completion of the `while pending` loop: the task
   * at `idx` answered `reply`, its blacklist turned `runtime` into `runtime'`,
   * and `ready` are its downstreams launched next.
   */
  ghost predicate Completing(g: Graph, inds: seq<string>, stream: bool, runtime: Graph,
                             results: map<string, Output>, pending: seq<Task>,
                             replies: map<string, Dict>, log: seq<Launch>,
                             idx: nat, reply: Dict, runtime': Graph, conv: bool,
                             ready: seq<string>, newTasks: seq<Task>, log': seq<Launch>)
  {
    && Completed(g, inds, stream, runtime, results, pending, replies, log, idx, reply, runtime', conv)
    && ready == ReadyAmong(runtime', runtime'.succ[pending[idx].node],
                           results[pending[idx].node := if conv then TextStream(reply["text"]) else Reply(reply)])
    && TaskNodes(newTasks) == ready
    && log' == log + NewLaunches(newTasks, pending[idx].node, results.Keys + {pending[idx].node})
  }

  /** One completion of the `while pending` loop keeps its invariant and launches only new nodes. */
  lemma CompletionKeeps(g: Graph, inds: seq<string>, stream: bool, runtime: Graph,
                        results: map<string, Output>, pending: seq<Task>,
                        replies: map<string, Dict>, log: seq<Launch>,
                        idx: nat, reply: Dict, runtime': Graph, conv: bool,
                        ready: seq<string>, newTasks: seq<Task>, log': seq<Launch>)
    requires Completing(g, inds, stream, runtime, results, pending, replies, log, idx, reply, runtime', conv, ready, newTasks, log')
    ensures var node := pending[idx].node;
      Scheduling(g, inds, stream, runtime', results[node := if conv then TextStream(reply["text"]) else Reply(reply)],
                 pending[..idx] + pending[idx + 1..] + newTasks, replies[node := reply], log')
    ensures forall x :: x in ready ==> x !in LaunchedNodes(log)
    ensures LaunchedNodes(log') == LaunchedNodes(log) + ready
  {
    CompletionEdges(g, inds, stream, runtime, results, pending, replies, log, idx, reply, runtime', conv, ready, newTasks, log');
    CompletionResults(g, inds, stream, runtime, results, pending, replies, log, idx, reply, runtime', conv, ready, newTasks, log');
    CompletionLaunches(g, inds, stream, runtime, results, pending, replies, log, idx, reply, runtime', conv, ready, newTasks, log');
    CompletionOrder(g, inds, stream, runtime, results, pending, replies, log, idx, reply, runtime', conv, ready, newTasks, log');
    CompletionUnblocked(g, inds, stream, runtime, results, pending, replies, log, idx, reply, runtime', conv, ready, newTasks, log');
  }

  /**
   * A node left unblocked after a completion has been launched: either the
   * completed node is one of its predecessors, and then its downstream loop
   * launched it, or nothing about it changed.
   */
  lemma CompletionUnblocked(g: Graph, inds: seq<string>, stream: bool, runtime: Graph,
                            results: map<string, Output>, pending: seq<Task>,
                            replies: map<string, Dict>, log: seq<Launch>,
                            idx: nat, reply: Dict, runtime': Graph, conv: bool,
                            ready: seq<string>, newTasks: seq<Task>, log': seq<Launch>)
    requires Completing(g, inds, stream, runtime, results, pending, replies, log, idx, reply, runtime', conv, ready, newTasks, log')
    ensures ReadyLaunched(g, runtime', results[pending[idx].node := if conv then TextStream(reply["text"]) else Reply(reply)], log')
  {
    CompletionEdges(g, inds, stream, runtime, results, pending, replies, log, idx, reply, runtime', conv, ready, newTasks, log');
    CompletionLaunches(g, inds, stream, runtime, results, pending, replies, log, idx, reply, runtime', conv, ready, newTasks, log');
    var node := pending[idx].node;
    var results' := results[node := if conv then TextStream(reply["text"]) else Reply(reply)];
    forall d | d in g.succ && Unblocked(g, runtime', results', d) ensures d in LaunchedNodes(log') {
      if HasEdge(g, node, d) {
        var preds := Predecessors(runtime', d);
        forall i | 0 <= i < |preds| ensures preds[i] in results' {
          assert HasEdge(g, preds[i], d);
        }
        assert d in ready;
      } else {
        forall p | HasEdge(g, p, d) ensures p in results && HasEdge(runtime, p, d) {
          assert p != node;
        }
        assert Unblocked(g, runtime, results, d);
      }
    }
  }

  lemma CompletionEdges(g: Graph, inds: seq<string>, stream: bool, runtime: Graph,
                        results: map<string, Output>, pending: seq<Task>,
                        replies: map<string, Dict>, log: seq<Launch>,
                        idx: nat, reply: Dict, runtime': Graph, conv: bool,
                        ready: seq<string>, newTasks: seq<Task>, log': seq<Launch>)
    requires Completing(g, inds, stream, runtime, results, pending, replies, log, idx, reply, runtime', conv, ready, newTasks, log')
    ensures EdgesKept(g, runtime', replies[pending[idx].node := reply])
    ensures forall a, b :: HasEdge(runtime', a, b) ==> HasEdge(runtime, a, b)
    ensures forall a, b :: a != pending[idx].node ==> (HasEdge(runtime', a, b) <==> HasEdge(runtime, a, b))
  {
    assert pending[idx].node in TaskNodes(pending);
    EdgesAfterCompletion(g, runtime, runtime', replies, pending[idx].node, reply, stream, conv);
  }

  lemma CompletionResults(g: Graph, inds: seq<string>, stream: bool, runtime: Graph,
                          results: map<string, Output>, pending: seq<Task>,
                          replies: map<string, Dict>, log: seq<Launch>,
                          idx: nat, reply: Dict, runtime': Graph, conv: bool,
                          ready: seq<string>, newTasks: seq<Task>, log': seq<Launch>)
    requires Completing(g, inds, stream, runtime, results, pending, replies, log, idx, reply, runtime', conv, ready, newTasks, log')
    ensures ResultsRecorded(stream, runtime', results[pending[idx].node := if conv then TextStream(reply["text"]) else Reply(reply)],
                            replies[pending[idx].node := reply])
  {
    ResultsAfterCompletion(stream, runtime, runtime', results, replies, pending[idx].node, reply, conv);
  }

  lemma CompletionLaunches(g: Graph, inds: seq<string>, stream: bool, runtime: Graph,
                           results: map<string, Output>, pending: seq<Task>,
                           replies: map<string, Dict>, log: seq<Launch>,
                           idx: nat, reply: Dict, runtime': Graph, conv: bool,
                           ready: seq<string>, newTasks: seq<Task>, log': seq<Launch>)
    requires Completing(g, inds, stream, runtime, results, pending, replies, log, idx, reply, runtime', conv, ready, newTasks, log')
    ensures forall x :: x in ready ==> x !in LaunchedNodes(log)
    ensures LaunchedNodes(log') == LaunchedNodes(log) + ready
    ensures LaunchedOnce(g, results[pending[idx].node := if conv then TextStream(reply["text"]) else Reply(reply)],
                         pending[..idx] + pending[idx + 1..] + newTasks, log')
  {
    CompletionEdges(g, inds, stream, runtime, results, pending, replies, log, idx, reply, runtime', conv, ready, newTasks, log');
    var node := pending[idx].node;
    var o := if conv then TextStream(reply["text"]) else Reply(reply);
    assert forall x :: x in ready ==> x in runtime'.succ[node] && HasEdge(runtime', node, x);
    LaunchesAfterCompletion(g, inds, runtime, results, pending, log, idx, o, ready, newTasks, log');
  }

  /** The downstreams launched after a completion are new and have all their predecessors completed. */
  lemma CompletionReady(g: Graph, inds: seq<string>, stream: bool, runtime: Graph,
                        results: map<string, Output>, pending: seq<Task>,
                        replies: map<string, Dict>, log: seq<Launch>,
                        idx: nat, reply: Dict, runtime': Graph, conv: bool,
                        ready: seq<string>, newTasks: seq<Task>, log': seq<Launch>)
    requires Completing(g, inds, stream, runtime, results, pending, replies, log, idx, reply, runtime', conv, ready, newTasks, log')
    ensures pending[idx].node !in results
    ensures forall x :: x in ready ==> x != pending[idx].node && x !in results && HasEdge(runtime', pending[idx].node, x)
    ensures forall x :: x in ready ==>
      AllPredecessorsDone(runtime', x, results[pending[idx].node := if conv then TextStream(reply["text"]) else Reply(reply)])
  {
    CompletionLaunches(g, inds, stream, runtime, results, pending, replies, log, idx, reply, runtime', conv, ready, newTasks, log');
    assert pending[idx].node in TaskNodes(pending);
    assert pending[idx].node in LaunchedNodes(log);
  }

  lemma CompletionOrder(g: Graph, inds: seq<string>, stream: bool, runtime: Graph,
                        results: map<string, Output>, pending: seq<Task>,
                        replies: map<string, Dict>, log: seq<Launch>,
                        idx: nat, reply: Dict, runtime': Graph, conv: bool,
                        ready: seq<string>, newTasks: seq<Task>, log': seq<Launch>)
    requires Completing(g, inds, stream, runtime, results, pending, replies, log, idx, reply, runtime', conv, ready, newTasks, log')
    ensures LaunchOrder(inds, runtime', results[pending[idx].node := if conv then TextStream(reply["text"]) else Reply(reply)], log')
  {
    CompletionEdges(g, inds, stream, runtime, results, pending, replies, log, idx, reply, runtime', conv, ready, newTasks, log');
    CompletionReady(g, inds, stream, runtime, results, pending, replies, log, idx, reply, runtime', conv, ready, newTasks, log');
    var o := if conv then TextStream(reply["text"]) else Reply(reply);
    OrderAfterCompletion(inds, runtime, runtime', results, pending[idx].node, o, ready, newTasks, log, log');
  }

  /** The launch record after a completion keeps its order properties. */
  lemma OrderAfterCompletion(inds: seq<string>, runtime: Graph, runtime': Graph, results: map<string, Output>,
                             node: string, o: Output, ready: seq<string>, newTasks: seq<Task>,
                             log: seq<Launch>, log': seq<Launch>)
    requires LaunchOrder(inds, runtime, results, log) && node !in results
    requires forall x :: x in ready ==> x != node && x !in results && HasEdge(runtime', node, x)
    requires Dag.Valid(runtime')
    requires forall x :: x in ready ==> AllPredecessorsDone(runtime', x, results[node := o])
    requires forall a, b :: HasEdge(runtime', a, b) ==> HasEdge(runtime, a, b)
    requires forall a, b :: a != node ==> (HasEdge(runtime', a, b) <==> HasEdge(runtime, a, b))
    requires TaskNodes(newTasks) == ready
    requires log' == log + NewLaunches(newTasks, node, results.Keys + {node})
    ensures LaunchOrder(inds, runtime', results[node := o], log')
  {
    forall j | |inds| <= j < |log'| ensures
      log'[j].trigger.Some? && log'[j].trigger.value in log'[j].completed
      && HasEdge(runtime', log'[j].trigger.value, log'[j].node)
    {
      if j < |log| {
        var t := log[j].trigger.value;
        assert t in results;
      }
    }
    forall j | 0 <= j < |log'| ensures log'[j].node !in log'[j].completed && log'[j].completed <= results[node := o].Keys {
      if j >= |log| {
        assert log'[j].node in ready;
      }
    }
    forall j, p | 0 <= j < |log'| && HasEdge(runtime', p, log'[j].node) ensures p in log'[j].completed {
      if j >= |log| {
        var x := log'[j].node;
        assert x in ready;
        assert AllPredecessorsDone(runtime', x, results[node := o]);
        assert p in Predecessors(runtime', x);
      }
    }
  }

  /**
   * A node launched earlier keeps the merge it was given: its predecessors had
   * all completed, so the completing node is not one of them and its
   * blacklist leaves the node's in-edges alone.
   */
  lemma LaunchStable(inds: seq<string>, runtime: Graph, runtime': Graph, results: map<string, Output>,
                     node: string, o: Output, log: seq<Launch>, j: nat)
    requires Dag.Valid(runtime) && Dag.Valid(runtime') && runtime'.nodes == runtime.nodes
    requires LaunchOrder(inds, runtime, results, log) && node !in results
    requires j < |log| && Fed(runtime, results, log[j])
    requires forall a, b :: HasEdge(runtime', a, b) ==> HasEdge(runtime, a, b)
    requires forall a, b :: a != node ==> (HasEdge(runtime', a, b) <==> HasEdge(runtime, a, b))
    ensures Fed(runtime', results[node := o], log[j])
  {
    var x := log[j].node;
    forall p ensures HasEdge(runtime, p, x) <==> HasEdge(runtime', p, x) {
      if HasEdge(runtime, p, x) {
        assert p in log[j].completed;
      }
    }
    PredecessorsInSame(runtime, runtime', runtime.nodes, x);
    var preds := Predecessors(runtime, x);
    forall i | 0 <= i < |preds| ensures preds[i] in results && results[node := o][preds[i]] == results[preds[i]] {
      assert HasEdge(runtime, preds[i], x);
      assert preds[i] in log[j].completed;
    }
    MergedAgree(preds, results, results[node := o]);
  }

  /** After a completion every launch is still fed the merge of its predecessors. */
  lemma MergesAfterCompletion(inds: seq<string>, runtime: Graph, runtime': Graph, results: map<string, Output>,
                              node: string, o: Output, ready: seq<string>, inputs: seq<Dict>,
                              log: seq<Launch>, log': seq<Launch>)
    requires Dag.Valid(runtime') && runtime'.nodes == runtime.nodes
    requires MergesFed(inds, runtime, results, log) && LaunchOrder(inds, runtime, results, log) && node !in results
    requires forall a, b :: HasEdge(runtime', a, b) ==> HasEdge(runtime, a, b)
    requires forall a, b :: a != node ==> (HasEdge(runtime', a, b) <==> HasEdge(runtime, a, b))
    requires InputsFor(runtime', ready, inputs, results[node := o])
    requires log' == log + NewLaunches(NewTasks(ready, inputs), node, results.Keys + {node})
    ensures MergesFed(inds, runtime', results[node := o], log')
  {
    forall j | |inds| <= j < |log'| ensures Fed(runtime', results[node := o], log'[j]) {
      if j < |log| {
        LaunchStable(inds, runtime, runtime', results, node, o, log, j);
      } else {
        assert log'[j].node == ready[j - |log|] && log'[j].inputs == DictIn(inputs[j - |log|]);
      }
    }
  }

  /** After a completion each pending task still carries the inputs of its launch. */
  lemma PendingAfterCompletion(pending: seq<Task>, log: seq<Launch>, idx: nat, ready: seq<string>,
                               newTasks: seq<Task>, node: string, completed: set<string>, log': seq<Launch>)
    requires PendingGiven(pending, log) && idx < |pending|
    requires forall x :: x in TaskNodes(pending) ==> x in LaunchedNodes(log)
    requires forall x :: x in ready ==> x !in LaunchedNodes(log)
    requires Distinct(ready) && TaskNodes(newTasks) == ready
    requires log' == log + NewLaunches(newTasks, node, completed)
    ensures PendingGiven(pending[..idx] + pending[idx + 1..] + newTasks, log')
  {
    var rest := pending[..idx] + pending[idx + 1..];
    var pending' := rest + newTasks;
    forall i | 0 <= i < |newTasks| ensures newTasks[i].node !in LaunchedNodes(log) {
      assert TaskNodes(newTasks)[i] == newTasks[i].node;
    }
    forall j, k | 0 <= j < |log'| && 0 <= k < |pending'| && log'[j].node == pending'[k].node
      ensures pending'[k].inputs == log'[j].inputs
    {
      if k < |rest| {
        var k' := if k < idx then k else k + 1;
        assert pending'[k] == pending[k'];
        assert TaskNodes(pending)[k'] == pending[k'].node;
        if j < |log| {
          assert log'[j] == log[j];
        }
      } else {
        var i := k - |rest|;
        assert pending'[k] == newTasks[i] && newTasks[i].node == ready[i];
        if j >= |log| {
          var i' := j - |log|;
          assert log'[j] == NewLaunches(newTasks, node, completed)[i'];
          assert log'[j].node == ready[i'];
          assert i' == i;
          assert log'[j].inputs == newTasks[i].inputs;
        }
      }
    }
  }

  /** After a completion each completed node's answer is still its service's answer to its launch's body. */
  lemma RepliesAfterCompletion(services: map<string, Service>, params: Dict, exec: (string, Dict) -> Dict,
                               replies: map<string, Dict>, pending: seq<Task>, log: seq<Launch>, idx: nat,
                               reply: Dict, newTasks: seq<Task>, completed: set<string>, log': seq<Launch>)
    requires RepliesAnswered(services, params, exec, replies, log) && PendingGiven(pending, log)
    requires idx < |pending| && pending[idx].node !in replies
    requires forall x :: x in TaskNodes(newTasks) ==> x !in replies && x != pending[idx].node
    requires Answered(services, params, exec, pending[idx].node, pending[idx].inputs, reply)
    requires log' == log + NewLaunches(newTasks, pending[idx].node, completed)
    ensures RepliesAnswered(services, params, exec, replies[pending[idx].node := reply], log')
  {
  }

  /** One completion of the `while pending` loop keeps its dataflow invariant. */
  lemma CompletionDataflow(services: map<string, Service>, params: Dict, exec: (string, Dict) -> Dict, initial: Inputs,
                           g: Graph, inds: seq<string>, stream: bool, runtime: Graph,
                           results: map<string, Output>, pending: seq<Task>,
                           replies: map<string, Dict>, log: seq<Launch>,
                           idx: nat, reply: Dict, runtime': Graph, conv: bool,
                           ready: seq<string>, inputs: seq<Dict>, log': seq<Launch>)
    requires |inputs| == |ready|
    requires Completing(g, inds, stream, runtime, results, pending, replies, log, idx, reply, runtime', conv,
                        ready, NewTasks(ready, inputs), log')
    requires Dataflow(services, params, exec, initial, inds, runtime, results, pending, replies, log)
    requires InputsFor(runtime', ready, inputs, results[pending[idx].node := if conv then TextStream(reply["text"]) else Reply(reply)])
    requires Answered(services, params, exec, pending[idx].node, pending[idx].inputs, reply)
    ensures Dataflow(services, params, exec, initial, inds, runtime',
                     results[pending[idx].node := if conv then TextStream(reply["text"]) else Reply(reply)],
                     pending[..idx] + pending[idx + 1..] + NewTasks(ready, inputs),
                     replies[pending[idx].node := reply], log')
  {
    var newTasks := NewTasks(ready, inputs);
    var node := pending[idx].node;
    var o := if conv then TextStream(reply["text"]) else Reply(reply);
    CompletionEdges(g, inds, stream, runtime, results, pending, replies, log, idx, reply, runtime', conv, ready, newTasks, log');
    CompletionReady(g, inds, stream, runtime, results, pending, replies, log, idx, reply, runtime', conv, ready, newTasks, log');
    CompletionLaunches(g, inds, stream, runtime, results, pending, replies, log, idx, reply, runtime', conv, ready, newTasks, log');
    MergesAfterCompletion(inds, runtime, runtime', results, node, o, ready, inputs, log, log');
    PendingAfterCompletion(pending, log, idx, ready, newTasks, node, results.Keys + {node}, log');
    RepliesAfterCompletion(services, params, exec, replies, pending, log, idx, reply, newTasks, results.Keys + {node}, log');
  }

  /** The tasks created for the ready downstreams, each with its merged inputs. */
  function NewTasks(ready: seq<string>, inputs: seq<Dict>): (r: seq<Task>)
    requires |inputs| == |ready|
    ensures TaskNodes(r) == ready
  {
    seq(|ready|, k requires 0 <= k < |ready| => Task(ready[k], DictIn(inputs[k])))
  }

  /** The launch records of the ready downstreams of `node`, after `completed` had completed. */
  function NewLaunches(tasks: seq<Task>, node: string, completed: set<string>): (r: seq<Launch>)
    ensures LaunchedNodes(r) == TaskNodes(tasks)
  {
    seq(|tasks|, k requires 0 <= k < |tasks| => Launch(tasks[k].node, Some(node), completed, tasks[k].inputs))
  }

  /** The state of the `while pending` loop that a completion updates. */
  datatype Progress = Progress(runtime: Graph, results: map<string, Output>, pending: seq<Task>)

  /**
   * The loop state after the task at `idx` answered `reply` and its blacklist
   * left `runtime'`: the answer (or, when `conv`, its fake stream) is
   * recorded, the other tasks stay pending, and the ready downstreams follow
   * them, each given the merge of its predecessors' results.
   */
  ghost predicate Advanced(st: Progress, idx: nat, reply: Dict, runtime': Graph, conv: bool, p: Progress) {
    && idx < |st.pending| && Dag.Valid(runtime') && st.pending[idx].node in runtime'.succ
    && (conv ==> "text" in reply)
    && var node := st.pending[idx].node;
       var rest := st.pending[..idx] + st.pending[idx + 1..];
       && p.runtime == runtime'
       && p.results == st.results[node := if conv then TextStream(reply["text"]) else Reply(reply)]
       && |rest| <= |p.pending| && p.pending[..|rest|] == rest
       && TaskNodes(p.pending[|rest|..]) == ReadyAmong(runtime', runtime'.succ[node], p.results)
       && forall k :: |rest| <= k < |p.pending| ==>
            p.pending[k].inputs.DictIn? && Merged(Predecessors(runtime', p.pending[k].node), p.results) == Ok(p.pending[k].inputs.d)
  }

  /**
   * One completion of the `while pending` loop: the task at `idx` is executed,
   * its answer recorded, its blacklist applied, and its ready downstreams
   * launched. The request fails when the body cannot be built
   * (`AttributeError`) or the blacklist cannot be applied.
   */
  method CompleteTask(services: map<string, Service>, g: Graph, inds: seq<string>, params: Dict, stream: bool,
                      exec: (string, Dict) -> Dict, ghost initial: Inputs, st: Progress, idx: nat,
                      ghost replies: map<string, Dict>, ghost log: seq<Launch>)
    returns (r: Result<Progress, Fault>, ghost replies': map<string, Dict>, ghost log': seq<Launch>)
    requires Dag.Valid(g) && services.Keys == g.succ.Keys
    requires Scheduling(g, inds, stream, st.runtime, st.results, st.pending, replies, log)
    requires Dataflow(services, params, exec, initial, inds, st.runtime, st.results, st.pending, replies, log)
    requires idx < |st.pending|
    ensures st.pending[idx].node in st.runtime.succ
    ensures var node := st.pending[idx].node;
      var body := Body(st.pending[idx].inputs, IsLlmNode(services, node), params);
      && (body.Err? ==> r == Err(body.error))
      && (body.Ok? ==>
            var reply := exec(node, body.value);
            var kept := Blacklisted(st.runtime.succ[node], reply, stream);
            && (kept.Err? ==> r == Err(kept.error))
            && (kept.Ok? ==>
                  && r.Ok? && replies' == replies[node := reply]
                  && Advanced(st, idx, reply, Graph(st.runtime.nodes, st.runtime.succ[node := kept.value.0]),
                              kept.value.1, r.value)))
    ensures r.Ok? ==>
      && Scheduling(g, inds, stream, r.value.runtime, r.value.results, r.value.pending, replies', log')
      && Dataflow(services, params, exec, initial, inds, r.value.runtime, r.value.results, r.value.pending, replies', log')
    ensures r.Ok? ==> log <= log' && (|log'| > |log| || |r.value.pending| < |st.pending|)
  {
    replies', log' := replies, log;
    var task := st.pending[idx];
    var node := task.node;
    assert node in TaskNodes(st.pending);
    var body := RequestBody(task.inputs, IsLlmNode(services, node), params);
    if body.Err? {
      return Err(body.error), replies', log';
    }
    var reply := exec(node, body.value);
    var skipped := SkipDownstreams(st.runtime, node, reply, stream);
    if skipped.Err? {
      return Err(skipped.error), replies', log';
    }
    var (runtime', conv) := skipped.value;
    var p;
    p, log' := LaunchNext(services, params, exec, initial, g, inds, stream, st, idx, reply, runtime', conv, replies, log);
    replies' := replies[node := reply];
    r := Ok(p);
  }

  /**
   * The rest of a completion: the answer (or its fake stream) is recorded and
   * the downstreams whose predecessors have all completed are launched.
   */
  method LaunchNext(services: map<string, Service>, params: Dict, exec: (string, Dict) -> Dict, ghost initial: Inputs,
                    g: Graph, inds: seq<string>, stream: bool, st: Progress, idx: nat, reply: Dict,
                    runtime': Graph, conv: bool, ghost replies: map<string, Dict>, ghost log: seq<Launch>)
    returns (p: Progress, ghost log': seq<Launch>)
    requires Completed(g, inds, stream, st.runtime, st.results, st.pending, replies, log, idx, reply, runtime', conv)
    requires Dataflow(services, params, exec, initial, inds, st.runtime, st.results, st.pending, replies, log)
    requires Answered(services, params, exec, st.pending[idx].node, st.pending[idx].inputs, reply)
    ensures Advanced(st, idx, reply, runtime', conv, p)
    ensures Scheduling(g, inds, stream, p.runtime, p.results, p.pending, replies[st.pending[idx].node := reply], log')
    ensures Dataflow(services, params, exec, initial, inds, p.runtime, p.results, p.pending,
                     replies[st.pending[idx].node := reply], log')
    ensures log <= log' && (|log'| > |log| || |p.pending| < |st.pending|)
  {
    var node := st.pending[idx].node;
    var o := if conv then TextStream(reply["text"]) else Reply(reply);
    var results' := st.results[node := o];
    ResultsAfterCompletion(stream, st.runtime, runtime', st.results, replies, node, reply, conv);
    var ready, inputs := LaunchReady(runtime', node, results');
    log' := log + NewLaunches(NewTasks(ready, inputs), node, st.results.Keys + {node});
    p := Progress(runtime', results', st.pending[..idx] + st.pending[idx + 1..] + NewTasks(ready, inputs));
    LaunchKeeps(services, params, exec, initial, g, inds, stream, st, idx, reply, runtime', conv, replies, log,
                ready, inputs, p, log');
  }

  /** The proof obligations of `LaunchNext`, once the ready downstreams are known. */
  lemma LaunchKeeps(services: map<string, Service>, params: Dict, exec: (string, Dict) -> Dict, initial: Inputs,
                    g: Graph, inds: seq<string>, stream: bool, st: Progress, idx: nat, reply: Dict,
                    runtime': Graph, conv: bool, replies: map<string, Dict>, log: seq<Launch>,
                    ready: seq<string>, inputs: seq<Dict>, p: Progress, log': seq<Launch>)
    requires Completed(g, inds, stream, st.runtime, st.results, st.pending, replies, log, idx, reply, runtime', conv)
    requires Dataflow(services, params, exec, initial, inds, st.runtime, st.results, st.pending, replies, log)
    requires Answered(services, params, exec, st.pending[idx].node, st.pending[idx].inputs, reply)
    requires p.runtime == runtime'
    requires p.results == st.results[st.pending[idx].node := if conv then TextStream(reply["text"]) else Reply(reply)]
    requires ready == ReadyAmong(runtime', runtime'.succ[st.pending[idx].node], p.results)
    requires InputsFor(runtime', ready, inputs, p.results)
    requires p.pending == st.pending[..idx] + st.pending[idx + 1..] + NewTasks(ready, inputs)
    requires log' == log + NewLaunches(NewTasks(ready, inputs), st.pending[idx].node, st.results.Keys + {st.pending[idx].node})
    ensures Advanced(st, idx, reply, runtime', conv, p)
    ensures Scheduling(g, inds, stream, p.runtime, p.results, p.pending, replies[st.pending[idx].node := reply], log')
    ensures Dataflow(services, params, exec, initial, inds, p.runtime, p.results, p.pending,
                     replies[st.pending[idx].node := reply], log')
    ensures log <= log' && (|log'| > |log| || |p.pending| < |st.pending|)
  {
    CompletionKeeps(g, inds, stream, st.runtime, st.results, st.pending, replies, log,
                    idx, reply, runtime', conv, ready, NewTasks(ready, inputs), log');
    CompletionDataflow(services, params, exec, initial, g, inds, stream, st.runtime, st.results, st.pending, replies, log,
                       idx, reply, runtime', conv, ready, inputs, log');
    LaunchAdvances(st, idx, reply, runtime', conv, p.results, ready, inputs);
  }

  /** The ready downstreams, with their merges, join the other pending tasks. */
  lemma LaunchAdvances(st: Progress, idx: nat, reply: Dict, runtime': Graph, conv: bool,
                       results': map<string, Output>, ready: seq<string>, inputs: seq<Dict>)
    requires idx < |st.pending| && Dag.Valid(runtime') && st.pending[idx].node in runtime'.succ
    requires conv ==> "text" in reply
    requires results' == st.results[st.pending[idx].node := if conv then TextStream(reply["text"]) else Reply(reply)]
    requires ready == ReadyAmong(runtime', runtime'.succ[st.pending[idx].node], results')
    requires InputsFor(runtime', ready, inputs, results')
    ensures var pending' := st.pending[..idx] + st.pending[idx + 1..] + NewTasks(ready, inputs);
      && Advanced(st, idx, reply, runtime', conv, Progress(runtime', results', pending'))
      && |pending'| == |st.pending| - 1 + |ready|
  {
    var rest := st.pending[..idx] + st.pending[idx + 1..];
    var pending' := rest + NewTasks(ready, inputs);
    assert pending'[..|rest|] == rest && pending'[|rest|..] == NewTasks(ready, inputs);
  }

  /**
   * A request no step of `schedule` can fail: the body of an LLM/LVM node can
   * always be built, and every answer is one the blacklist loop accepts.
   */
  ghost predicate Succeeds(initial: Inputs, params: Dict, stream: bool, exec: (string, Dict) -> Dict) {
    && (initial.DictIn? || |params| == 0)
    && forall n, b :: Servable(exec(n, b), stream)
  }

  /** For such a request, the completion of any pending task builds its body and applies its blacklist. */
  lemma CompletionSucceeds(services: map<string, Service>, g: Graph, inds: seq<string>, params: Dict, stream: bool,
                           exec: (string, Dict) -> Dict, initial: Inputs, st: Progress, idx: nat,
                           replies: map<string, Dict>, log: seq<Launch>)
    requires Dag.Valid(g) && Scheduling(g, inds, stream, st.runtime, st.results, st.pending, replies, log)
    requires Dataflow(services, params, exec, initial, inds, st.runtime, st.results, st.pending, replies, log)
    requires idx < |st.pending| && Succeeds(initial, params, stream, exec)
    ensures st.pending[idx].node in st.runtime.succ
    ensures var node := st.pending[idx].node;
      var body := Body(st.pending[idx].inputs, IsLlmNode(services, node), params);
      body.Ok? && Blacklisted(st.runtime.succ[node], exec(node, body.value), stream).Ok?
  {
    var node := st.pending[idx].node;
    assert node in TaskNodes(st.pending);
    var j :| 0 <= j < |log| && LaunchedNodes(log)[j] == node;
    if j >= |inds| {
      assert Fed(st.runtime, st.results, log[j]);
    }
    var body := Body(st.pending[idx].inputs, IsLlmNode(services, node), params);
    var reply := exec(node, body.value);
    assert Servable(reply, stream);
    SkipBlacklistedOk(st.runtime.succ[node], BlacklistPatterns(reply).value, reply, stream, false);
  }

  /**
   * The `while pending` loop of `schedule`: `choose` picks the task that
   * completes next, until none is pending or a completion fails.
   */
  method Drain(services: map<string, Service>, g: Graph, inds: seq<string>, params: Dict, stream: bool,
               exec: (string, Dict) -> Dict, choose: seq<string> -> nat, ghost initial: Inputs,
               st0: Progress, ghost replies0: map<string, Dict>, ghost log0: seq<Launch>)
    returns (r: Result<Progress, Fault>, ghost replies: map<string, Dict>, ghost log: seq<Launch>)
    requires Dag.Valid(g) && services.Keys == g.succ.Keys
    requires Scheduling(g, inds, stream, st0.runtime, st0.results, st0.pending, replies0, log0)
    requires Dataflow(services, params, exec, initial, inds, st0.runtime, st0.results, st0.pending, replies0, log0)
    ensures r.Ok? ==>
      && r.value.pending == []
      && Scheduling(g, inds, stream, r.value.runtime, r.value.results, [], replies, log)
      && Dataflow(services, params, exec, initial, inds, r.value.runtime, r.value.results, [], replies, log)
    ensures Succeeds(initial, params, stream, exec) ==> r.Ok?
  {
    var st := st0;
    replies, log := replies0, log0;
    DistinctCard(LaunchedNodes(log), g.succ.Keys);
    while st.pending != []
      invariant Scheduling(g, inds, stream, st.runtime, st.results, st.pending, replies, log)
      invariant Dataflow(services, params, exec, initial, inds, st.runtime, st.results, st.pending, replies, log)
      invariant |log| <= |g.succ.Keys|
      decreases |g.succ.Keys| - |log|, |st.pending|
    {
      var idx := choose(TaskNodes(st.pending)) % |st.pending|;
      if Succeeds(initial, params, stream, exec) {
        CompletionSucceeds(services, g, inds, params, stream, exec, initial, st, idx, replies, log);
      }
      var next;
      next, replies, log := CompleteTask(services, g, inds, params, stream, exec, initial, st, idx, replies, log);
      if next.Err? {
        return Err(next.error), replies, log;
      }
      st := next.value;
      DistinctCard(LaunchedNodes(log), g.succ.Keys);
    }
    r := Ok(st);
  }

  /** Once no task is pending, every launched node has its result, and nothing else does. */
  lemma SchedulingEnds(services: map<string, Service>, params: Dict, exec: (string, Dict) -> Dict, initial: Inputs,
                       g: Graph, inds: seq<string>, stream: bool, runtime: Graph, results: map<string, Output>,
                       replies: map<string, Dict>, log: seq<Launch>)
    requires Dag.Valid(g) && Scheduling(g, inds, stream, runtime, results, [], replies, log)
    requires Dataflow(services, params, exec, initial, inds, runtime, results, [], replies, log)
    ensures EdgesKept(g, runtime, replies)
    ensures ResultsRecorded(stream, runtime, results, replies)
    ensures Distinct(LaunchedNodes(log))
    ensures forall x :: x in LaunchedNodes(log) <==> x in results
    ensures LaunchOrder(inds, runtime, results, log)
    ensures InitialFed(inds, initial, log)
    ensures MergesFed(inds, runtime, results, log)
    ensures RepliesAnswered(services, params, exec, replies, log)
    ensures forall d :: d in g.succ && Unblocked(g, runtime, results, d) ==> d in results
  {
  }

  /** A duplicate-free list drawn from a set is no longer than the set. */
  lemma {:induction false} DistinctCard(s: seq<string>, all: set<string>)
    requires Distinct(s) && forall x :: x in s ==> x in all
    ensures |s| <= |all|
  {
    if s != [] {
      assert forall x :: x in s[1..] ==> x in s && x != s[0];
      DistinctCard(s[1..], all - {s[0]});
    }
  }

  // ---------------------------------------------------------------------
  // Pruning and final outputs

  /**
   * The pruning loop at the end of `schedule`: every node that is neither an
   * independent node nor a downstream of one is deleted.
   */
  method Prune(runtime: Graph, inds: seq<string>) returns (pruned: Graph)
    requires Dag.Valid(runtime)
    ensures pruned == Restrict(runtime, KeepSet(runtime, inds)) && Dag.Valid(pruned)
  {
    var keep := KeepSet(runtime, inds);
    pruned := DeleteUnkept(runtime, keep);
    var all := runtime.nodes;
    var kept := keep + (set x | x in all);
    RestrictAll(runtime, kept);
    PrunedRestrict(runtime, keep, kept, all, 0);
    assert kept - Unkept(keep, all, 0) == keep;
    RestrictValid(runtime, keep);
  }

  /** The graph left once the nodes of `all[i..]` that are not in `keep` are deleted in turn. */
  function Pruned(g: Graph, keep: set<string>, all: seq<string>, i: nat): Graph
    requires i <= |all|
    decreases |all| - i
  {
    if i == |all| then g
    else Pruned(if all[i] in keep then g else DeleteNodeIfExists(g, all[i]), keep, all, i + 1)
  }

  /** The loop of the pruning: walk the node list, deleting each node not in `keep`. */
  method DeleteUnkept(runtime: Graph, keep: set<string>) returns (pruned: Graph)
    ensures pruned == Pruned(runtime, keep, runtime.nodes, 0)
  {
    var all := runtime.nodes;
    pruned := runtime;
    var i := 0;
    while i < |all|
      invariant 0 <= i <= |all|
      invariant Pruned(pruned, keep, all, i) == Pruned(runtime, keep, all, 0)
    {
      var n := all[i];
      if n !in keep {
        pruned := DeleteNodeIfExists(pruned, n);
      }
      i := i + 1;
    }
  }

  /** The nodes of `all[i..]` that the pruning deletes. */
  function Unkept(keep: set<string>, all: seq<string>, i: nat): set<string>
    requires i <= |all|
  {
    set x | x in all[i..] && x !in keep
  }

  lemma UnkeptStep(keep: set<string>, all: seq<string>, i: nat)
    requires i < |all|
    ensures all[i] in keep ==> Unkept(keep, all, i) == Unkept(keep, all, i + 1)
    ensures all[i] !in keep ==> Unkept(keep, all, i) == {all[i]} + Unkept(keep, all, i + 1)
  {
    assert all[i..] == [all[i]] + all[i + 1..];
  }

  /** Deleting the unkept nodes of `all[i..]` one by one from a restriction restricts it further. */
  lemma {:induction false} PrunedRestrict(g: Graph, keep: set<string>, kept: set<string>, all: seq<string>, i: nat)
    requires Dag.Valid(g) && i <= |all|
    ensures Pruned(Restrict(g, kept), keep, all, i) == Restrict(g, kept - Unkept(keep, all, i))
    decreases |all| - i
  {
    if i == |all| {
      assert Unkept(keep, all, i) == {};
      assert kept - {} == kept;
    } else {
      UnkeptStep(keep, all, i);
      if all[i] in keep {
        PrunedRestrict(g, keep, kept, all, i + 1);
      } else {
        DeleteFromRestrict(g, kept, all[i]);
        PrunedRestrict(g, keep, kept - {all[i]}, all, i + 1);
        assert kept - {all[i]} - Unkept(keep, all, i + 1) == kept - Unkept(keep, all, i);
      }
    }
  }

  /** Exactly the independent nodes and the nodes reachable from one survive the pruning. */
  lemma {:induction false} PrunedNodes(runtime: Graph, inds: seq<string>)
    requires Dag.Valid(runtime)
    ensures forall n :: n in Restrict(runtime, KeepSet(runtime, inds)).succ <==>
      n in runtime.succ && exists j :: 0 <= j < |inds| && (n == inds[j] || n in AllDownstreams(runtime, inds[j]))
    ensures forall a, b :: HasEdge(Restrict(runtime, KeepSet(runtime, inds)), a, b) <==>
      HasEdge(runtime, a, b) && a in KeepSet(runtime, inds) && b in KeepSet(runtime, inds)
  {
    RestrictValid(runtime, KeepSet(runtime, inds));
    forall n | n in runtime.succ && exists j :: 0 <= j < |inds| && (n == inds[j] || n in AllDownstreams(runtime, inds[j]))
      ensures n in KeepSet(runtime, inds)
    {
      var j :| 0 <= j < |inds| && (n == inds[j] || n in AllDownstreams(runtime, inds[j]));
      assert n in {inds[j]} + AllDownstreams(runtime, inds[j]);
    }
  }

  /** A node without downstreams in the runtime graph. */
  predicate IsLeaf(g: Graph, n: string) {
    n in g.succ && g.succ[n] == []
  }

  /**
   * `get_all_final_outputs`: the results of the leaves of the runtime graph,
   * by name; the first leaf without a result raises `KeyError`.
   */
  method FinalOutputs(results: map<string, Output>, runtime: Graph) returns (r: Result<map<string, Output>, Fault>)
    requires Dag.Valid(runtime)
    ensures r.Ok? <==> forall l :: IsLeaf(runtime, l) ==> l in results
    ensures r.Ok? ==> forall l :: l in r.value <==> IsLeaf(runtime, l)
    ensures r.Ok? ==> forall l :: l in r.value ==> r.value[l] == results[l]
    ensures r.Err? ==> r.error.KeyError? && IsLeaf(runtime, r.error.key) && r.error.key !in results
  {
    var leaves := AllLeaves(runtime);
    var finals: map<string, Output> := map[];
    var i := 0;
    while i < |leaves|
      invariant 0 <= i <= |leaves|
      invariant forall l :: l in finals <==> l in leaves[..i]
      invariant forall l :: l in finals ==> l in results && finals[l] == results[l]
    {
      var leaf := leaves[i];
      if leaf !in results {
        return Err(KeyError(leaf));
      }
      finals := finals[leaf := results[leaf]];
      assert leaves[..i + 1] == leaves[..i] + [leaf];
      i := i + 1;
    }
    assert leaves[..i] == leaves;
    return Ok(finals);
  }

  /**
   * `add_edge` of the DAG: refused when a node is missing or when the new
   * edge would close a cycle; an accepted edge keeps the graph acyclic.
   */
  function TryAddEdge(g: Graph, a: string, b: string): (r: Option<Graph>)
    requires Dag.Valid(g) && Acyclic(g)
    ensures r.Some? <==> a in g.succ && b in g.succ && !Reaches(g, b, a)
    ensures r.Some? ==> r.value == AddEdge(g, a, b) && Dag.Valid(r.value) && Acyclic(r.value)
  {
    if a !in g.succ || b !in g.succ || Reaches(g, b, a) then None
    else
      AddEdgeAcyclic(g, a, b);
      Some(AddEdge(g, a, b))
  }

  // ---------------------------------------------------------------------
  // The orchestrator

  class ServiceOrchestrator {
    /** `services`: every registered service, by name. */
    var services: map<string, Service>
    /** The DAG the orchestrator inherits from. */
    var graph: Graph

    ghost predicate Valid()
      reads this
    {
      && Dag.Valid(graph) && Acyclic(graph)
      && services.Keys == graph.succ.Keys
      && forall n :: n in services ==> services[n].name == n
    }

    constructor ()
      ensures Valid() && services == map[] && graph == Dag.Empty
    {
      services := map[];
      graph := Dag.Empty;
    }

    /**
     * `add`: registers a service under its name and adds its node; a name
     * already registered raises (`ok` is false) and changes nothing.
     */
    method Add(service: Service) returns (ok: bool)
      requires Valid()
      modifies this
      ensures Valid()
      ensures ok <==> service.name !in old(services)
      ensures ok ==> services == old(services)[service.name := service]
      ensures ok ==> graph == AddNodeIfNotExists(old(graph), service.name)
      ensures ok ==> service.name in graph.succ && graph.succ[service.name] == []
      ensures !ok ==> services == old(services) && graph == old(graph)
    {
      if service.name in services {
        return false;
      }
      AddNodeAcyclic(graph, service.name);
      services := services[service.name := service];
      graph := AddNodeIfNotExists(graph, service.name);
      return true;
    }

    /**
     * `flow_to`: adds the edge between two registered services. The edge is
     * refused (`ok` is false, nothing changes) when a node is missing or when
     * it would close a cycle, so the graph stays acyclic.
     */
    method FlowTo(from: Service, to: Service) returns (ok: bool)
      requires Valid()
      modifies this
      ensures Valid() && services == old(services)
      ensures ok <==> TryAddEdge(old(graph), from.name, to.name).Some?
      ensures graph == if ok then TryAddEdge(old(graph), from.name, to.name).value else old(graph)
    {
      var added := TryAddEdge(graph, from.name, to.name);
      if added.None? {
        return false;
      }
      graph := added.value;
      return true;
    }

    /**
     * `schedule`, with the asynchronous completions taken one at a time:
     * `choose` picks the next pending task to complete, and `exec` stands for
     * the service's answer to the posted body.
     *
     * On success: every node was launched at most once, and a node has a
     * result exactly when it was launched; each result is the service's
     * answer (or its fake stream) to the body built from the node's inputs,
     * which were `initial` for an independent node and the merge of its
     * predecessors' results for any other; the runtime graph before pruning
     * is the graph less each completed node's blacklisted edges; every launch
     * came after all the node's predecessors had completed; a node whose
     * predecessors all completed without blacklisting it has a result; and
     * the returned graph keeps exactly the independent nodes and their
     * downstreams. A request that `Succeeds` cannot fail.
     */
    method Schedule(initial: Inputs, params: Dict, stream: bool,
                    exec: (string, Dict) -> Dict, choose: seq<string> -> nat)
      returns (r: Result<Run, Fault>, ghost unpruned: Graph, ghost log: seq<Launch>, ghost replies: map<string, Dict>)
      requires Valid()
      ensures r.Ok? ==>
        && EdgesKept(graph, unpruned, replies)
        && ResultsRecorded(stream, unpruned, r.value.results, replies)
        && Distinct(LaunchedNodes(log))
        && (forall x :: x in LaunchedNodes(log) <==> x in r.value.results)
        && LaunchOrder(IndNodes(graph), unpruned, r.value.results, log)
        && InitialFed(IndNodes(graph), initial, log)
        && MergesFed(IndNodes(graph), unpruned, r.value.results, log)
        && RepliesAnswered(services, params, exec, replies, log)
        && (forall d :: d in graph.succ && Unblocked(graph, unpruned, r.value.results, d) ==> d in r.value.results)
        && r.value.runtime == Restrict(unpruned, KeepSet(unpruned, IndNodes(graph)))
        && Dag.Valid(r.value.runtime)
      ensures Succeeds(initial, params, stream, exec) ==> r.Ok?
    {
      var runtime := graph;
      var results: map<string, Output> := map[];
      var inds := IndNodes(graph);
      var pending := seq(|inds|, k requires 0 <= k < |inds| => Task(inds[k], initial));
      log := StartLog(inds, initial);
      replies := map[];
      assert TaskNodes(pending) == inds;
      SchedulingStarts(graph, stream, pending, initial);
      DataflowStarts(services, params, exec, graph, pending, initial);
      var done;
      done, replies, log := Drain(services, graph, inds, params, stream, exec, choose, initial,
                                  Progress(runtime, results, pending), replies, log);
      if done.Err? {
        r, unpruned := Err(done.error), graph;
        return;
      }
      runtime, results := done.value.runtime, done.value.results;
      unpruned := runtime;
      SchedulingEnds(services, params, exec, initial, graph, inds, stream, runtime, results, replies, log);
      var pruned := Prune(runtime, inds);
      r := Ok(Run(results, pruned));
    }
  }
}
