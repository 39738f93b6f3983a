/**
 * A minimal stand-in for the `DAG` base class the orchestrator extends: an
 * ordered list of node names and, per node, its ordered list of successors.
 * Only the operations the orchestrator calls are modelled, with the meaning
 * their names give them.
 */
module Dag {
  import opened Wrappers

  datatype Graph = Graph(nodes: seq<string>, succ: map<string, seq<string>>)

  predicate Distinct<T(==)>(s: seq<T>) {
    forall i, j :: 0 <= i < j < |s| ==> s[i] != s[j]
  }

  /** Nodes are listed once, every edge ends at a node, no edge is listed twice. */
  ghost predicate Valid(g: Graph) {
    && Distinct(g.nodes)
    && (forall n :: n in g.succ <==> n in g.nodes)
    && (forall n, d :: n in g.succ && d in g.succ[n] ==> d in g.succ)
    && (forall n :: n in g.succ ==> Distinct(g.succ[n]))
  }

  const Empty := Graph([], map[])

  predicate HasEdge(g: Graph, a: string, b: string) {
    a in g.succ && b in g.succ[a]
  }

  /** The elements of `s` that are in `keep`, in order. */
  function Filter(s: seq<string>, keep: set<string>): (r: seq<string>)
    ensures forall x :: x in r <==> x in s && x in keep
    ensures |r| <= |s|
    ensures Distinct(s) ==> Distinct(r)
  {
    if s == [] then []
    else
      var rest := Filter(s[1..], keep);
      if s[0] in keep then
        assert s[0] !in s[1..] ==> s[0] !in rest;
        [s[0]] + rest
      else rest
  }

  /** Python's `list.remove(x)`: drop the first occurrence of `x` (if any). */
  function RemoveFirst(s: seq<string>, x: string): (r: seq<string>)
    ensures forall y :: y in r ==> y in s
    ensures Distinct(s) ==> Distinct(r) && x !in r && forall y :: y in s && y != x ==> y in r
  {
    if s == [] then []
    else if s[0] == x then
      assert Distinct(s) ==> forall k :: 0 <= k < |s| - 1 ==> s[1..][k] != x;
      s[1..]
    else
      var rest := RemoveFirst(s[1..], x);
      assert s[0] !in s[1..] ==> s[0] !in rest;
      [s[0]] + rest
  }

  /** `add_node_if_not_exists`. */
  function AddNodeIfNotExists(g: Graph, n: string): (r: Graph)
    requires Valid(g)
    ensures Valid(r)
    ensures r.succ.Keys == g.succ.Keys + {n}
    ensures n in g.succ ==> r == g
    ensures n !in g.succ ==> r.nodes == g.nodes + [n] && r.succ == g.succ[n := []]
  {
    if n in g.succ then g else Graph(g.nodes + [n], g.succ[n := []])
  }

  /** `predecessors(n)`: the nodes with an edge to `n`, in node order. */
  function Predecessors(g: Graph, n: string): (r: seq<string>)
    requires Valid(g)
    ensures forall k :: k in r <==> HasEdge(g, k, n)
    ensures Distinct(r)
  {
    PredecessorsIn(g, g.nodes, n)
  }

  function PredecessorsIn(g: Graph, ks: seq<string>, n: string): (r: seq<string>)
    ensures forall k :: k in r <==> k in ks && HasEdge(g, k, n)
    ensures Distinct(ks) ==> Distinct(r)
  {
    if ks == [] then []
    else
      var rest := PredecessorsIn(g, ks[1..], n);
      if HasEdge(g, ks[0], n) then
        assert ks[0] !in ks[1..] ==> ks[0] !in rest;
        [ks[0]] + rest
      else rest
  }

  /** Graphs that agree on the edges into `n` list the same predecessors of `n` among `ks`. */
  lemma {:induction false} PredecessorsInSame(g: Graph, h: Graph, ks: seq<string>, n: string)
    requires forall k :: HasEdge(g, k, n) <==> HasEdge(h, k, n)
    ensures PredecessorsIn(g, ks, n) == PredecessorsIn(h, ks, n)
  {
    if ks != [] {
      PredecessorsInSame(g, h, ks[1..], n);
    }
  }

  /** `ind_nodes()`: the nodes without predecessors, in node order. */
  function IndNodes(g: Graph): (r: seq<string>)
    requires Valid(g)
    ensures forall k :: k in r <==> k in g.succ && Predecessors(g, k) == []
    ensures Distinct(r)
  {
    IndNodesIn(g, g.nodes)
  }

  function IndNodesIn(g: Graph, ks: seq<string>): (r: seq<string>)
    requires Valid(g)
    requires forall k :: k in ks ==> k in g.succ
    ensures forall k :: k in r <==> k in ks && Predecessors(g, k) == []
    ensures Distinct(ks) ==> Distinct(r)
  {
    if ks == [] then []
    else
      var rest := IndNodesIn(g, ks[1..]);
      if Predecessors(g, ks[0]) == [] then
        assert ks[0] !in ks[1..] ==> ks[0] !in rest;
        [ks[0]] + rest
      else rest
  }

  /** `all_leaves()`: the nodes without successors, in node order. */
  function AllLeaves(g: Graph): (r: seq<string>)
    requires Valid(g)
    ensures forall k :: k in r <==> k in g.succ && g.succ[k] == []
    ensures Distinct(r)
  {
    LeavesIn(g, g.nodes)
  }

  function LeavesIn(g: Graph, ks: seq<string>): (r: seq<string>)
    requires forall k :: k in ks ==> k in g.succ
    ensures forall k :: k in r <==> k in ks && g.succ[k] == []
    ensures Distinct(ks) ==> Distinct(r)
  {
    if ks == [] then []
    else
      var rest := LeavesIn(g, ks[1..]);
      if g.succ[ks[0]] == [] then
        assert ks[0] !in ks[1..] ==> ks[0] !in rest;
        [ks[0]] + rest
      else rest
  }

  /** `delete_edge(a, b)` for an edge that exists: only that edge goes. */
  function DeleteEdge(g: Graph, a: string, b: string): (r: Graph)
    requires Valid(g) && HasEdge(g, a, b)
    ensures Valid(r)
    ensures r.nodes == g.nodes && r.succ.Keys == g.succ.Keys
    ensures forall x, y :: HasEdge(r, x, y) <==> HasEdge(g, x, y) && (x, y) != (a, b)
  {
    Graph(g.nodes, g.succ[a := RemoveFirst(g.succ[a], b)])
  }

  /** Deleting an edge from a graph whose successor list at `a` was replaced updates that list. */
  lemma DeleteEdgeUpdate(nodes: seq<string>, succ: map<string, seq<string>>, a: string, ds: seq<string>, b: string)
    requires Valid(Graph(nodes, succ[a := ds])) && b in ds
    ensures DeleteEdge(Graph(nodes, succ[a := ds]), a, b) == Graph(nodes, succ[a := RemoveFirst(ds, b)])
  {
    assert succ[a := ds][a := RemoveFirst(ds, b)] == succ[a := RemoveFirst(ds, b)];
  }

  /** `delete_node_if_exists(n)`: the node and every edge into it go. */
  function DeleteNodeIfExists(g: Graph, n: string): (r: Graph)
    ensures r.succ.Keys == g.succ.Keys - {n}
  {
    if n !in g.succ then g
    else Graph(RemoveFirst(g.nodes, n), DropNode(g.succ, n))
  }

  /** The successor lists without node `n`, and without the edges into it. */
  function DropNode(succ: map<string, seq<string>>, n: string): (r: map<string, seq<string>>)
    ensures r.Keys == succ.Keys - {n}
  {
    map k | k in succ && k != n :: RemoveFirst(succ[k], n)
  }

  /** Deleting a node keeps the graph valid and drops exactly the edges at that node. */
  lemma DeleteNodeValid(g: Graph, n: string)
    requires Valid(g)
    ensures Valid(DeleteNodeIfExists(g, n))
    ensures forall x, y :: HasEdge(DeleteNodeIfExists(g, n), x, y) <==> HasEdge(g, x, y) && x != n && y != n
  {
  }

  // ---------------------------------------------------------------------
  // Reachability (`all_downstreams`)

  /** The successors of the nodes in `s`. */
  function Next(g: Graph, s: set<string>): (r: set<string>)
    requires Valid(g)
    ensures r <= g.succ.Keys
    ensures forall k, d :: k in s && HasEdge(g, k, d) ==> d in r
  {
    set k, d | k in s && k in g.succ && d in g.succ[k] :: d
  }

  lemma StrictSubsetCard(a: set<string>, b: set<string>)
    requires a < b
    ensures |a| < |b|
  {
    var x :| x in b && x !in a;
    SubsetCard(a, b - {x});
  }

  lemma {:induction false} SubsetCard(a: set<string>, b: set<string>)
    requires a <= b
    ensures |a| <= |b|
    decreases a
  {
    if a != {} {
      var y :| y in a;
      SubsetCard(a - {y}, b - {y});
    }
  }

  /** The least superset of `s` closed under successors. */
  function Closure(g: Graph, s: set<string>): (r: set<string>)
    requires Valid(g) && s <= g.succ.Keys
    ensures s <= r <= g.succ.Keys
    ensures Next(g, r) <= r
    decreases |g.succ.Keys - s|
  {
    var s' := s + Next(g, s);
    if s' == s then s
    else
      StrictSubsetCard(g.succ.Keys - s', g.succ.Keys - s);
      Closure(g, s')
  }

  /** Every set that contains `s` and is closed under successors contains `Closure(g, s)`. */
  lemma {:induction false} ClosureLeast(g: Graph, s: set<string>, t: set<string>)
    requires Valid(g) && s <= g.succ.Keys
    requires s <= t && Next(g, t) <= t
    ensures Closure(g, s) <= t
    decreases |g.succ.Keys - s|
  {
    var s' := s + Next(g, s);
    if s' != s {
      assert Next(g, s) <= Next(g, t);
      StrictSubsetCard(g.succ.Keys - s', g.succ.Keys - s);
      ClosureLeast(g, s', t);
    }
  }

  /** `all_downstreams(n)`: every node reachable from `n` by one or more edges. */
  function AllDownstreams(g: Graph, n: string): set<string>
    requires Valid(g)
  {
    Closure(g, Next(g, {n}))
  }

  /** The nodes to keep after a run: the independent nodes and all their downstreams. */
  function KeepSet(g: Graph, roots: seq<string>): set<string>
    requires Valid(g)
  {
    set j, n | 0 <= j < |roots| && n in {roots[j]} + AllDownstreams(g, roots[j]) :: n
  }

  /** The graph restricted to the nodes in `keep`, order preserved. */
  function Restrict(g: Graph, keep: set<string>): (r: Graph)
    requires Valid(g)
    ensures r.succ.Keys == g.succ.Keys * keep
  {
    Graph(Filter(g.nodes, keep), FilterMap(g.succ, keep))
  }

  /** Every successor list whose node is kept, filtered to the kept nodes. */
  function FilterMap(succ: map<string, seq<string>>, keep: set<string>): (r: map<string, seq<string>>)
    ensures r.Keys == succ.Keys * keep
  {
    map k | k in succ && k in keep :: Filter(succ[k], keep)
  }

  /** A restriction is a valid graph holding exactly the edges between kept nodes. */
  lemma RestrictValid(g: Graph, keep: set<string>)
    requires Valid(g)
    ensures Valid(Restrict(g, keep))
    ensures forall x, y :: HasEdge(Restrict(g, keep), x, y) <==> HasEdge(g, x, y) && x in keep && y in keep
  {
  }

  lemma {:induction false} RemoveFirstFilter(s: seq<string>, keep: set<string>, x: string)
    requires Distinct(s)
    ensures RemoveFirst(Filter(s, keep), x) == Filter(s, keep - {x})
  {
    if s != [] {
      RemoveFirstFilter(s[1..], keep, x);
      if s[0] == x && x in keep {
        assert x !in Filter(s[1..], keep);
        RemoveFirstAbsent(Filter(s[1..], keep), x);
      }
    }
  }

  lemma {:induction false} RemoveFirstAbsent(s: seq<string>, x: string)
    requires x !in s
    ensures RemoveFirst(s, x) == s
  {
    if s != [] {
      RemoveFirstAbsent(s[1..], x);
    }
  }

  lemma {:induction false} FilterAll(s: seq<string>, keep: set<string>)
    requires forall x :: x in s ==> x in keep
    ensures Filter(s, keep) == s
  {
    if s != [] {
      FilterAll(s[1..], keep);
    }
  }

  /** Deleting a kept node from a restriction is restricting to one node fewer. */
  lemma DeleteFromRestrict(g: Graph, keep: set<string>, x: string)
    requires Valid(g)
    ensures Valid(Restrict(g, keep))
    ensures DeleteNodeIfExists(Restrict(g, keep), x) == Restrict(g, keep - {x})
  {
    RestrictValid(g, keep);
    if x in g.succ && x in keep {
      DeleteKept(g, keep, x);
    } else if x !in keep {
      assert keep - {x} == keep;
    } else {
      RestrictAbsent(g, keep, x);
    }
  }

  lemma DeleteKept(g: Graph, keep: set<string>, x: string)
    requires Valid(g) && x in g.succ && x in keep
    ensures Valid(Restrict(g, keep))
    ensures DeleteNodeIfExists(Restrict(g, keep), x) == Restrict(g, keep - {x})
  {
    RestrictValid(g, keep);
    var r := Restrict(g, keep);
    assert x in r.succ;
    RemoveFirstFilter(g.nodes, keep, x);
    DeleteKeptSucc(g, keep, x);
  }

  /** The successor lists of a restriction, with `x` deleted, are those of the smaller restriction. */
  lemma DeleteKeptSucc(g: Graph, keep: set<string>, x: string)
    requires Valid(g)
    ensures DropNode(Restrict(g, keep).succ, x) == Restrict(g, keep - {x}).succ
  {
    DropFilterMap(g.succ, keep, x);
  }

  lemma DropFilterMap(succ: map<string, seq<string>>, keep: set<string>, x: string)
    requires forall k :: k in succ ==> Distinct(succ[k])
    ensures DropNode(FilterMap(succ, keep), x) == FilterMap(succ, keep - {x})
  {
    var m := DropNode(FilterMap(succ, keep), x);
    var m' := FilterMap(succ, keep - {x});
    forall k | k in m ensures m[k] == m'[k] {
      RemoveFirstFilter(succ[k], keep, x);
    }
  }

  lemma RestrictAbsent(g: Graph, keep: set<string>, x: string)
    requires Valid(g) && x !in g.succ
    ensures Valid(Restrict(g, keep))
    ensures DeleteNodeIfExists(Restrict(g, keep), x) == Restrict(g, keep - {x})
  {
    RestrictValid(g, keep);
    var r := Restrict(g, keep);
    var r' := Restrict(g, keep - {x});
    assert DeleteNodeIfExists(r, x) == r;
    FilterMinusAbsent(g.nodes, keep, x);
    FilterMapMinusAbsent(g.succ, keep, x);
  }

  lemma FilterMapMinusAbsent(succ: map<string, seq<string>>, keep: set<string>, x: string)
    requires x !in succ
    requires forall k :: k in succ ==> x !in succ[k]
    ensures FilterMap(succ, keep) == FilterMap(succ, keep - {x})
  {
    forall k | k in FilterMap(succ, keep) ensures FilterMap(succ, keep)[k] == FilterMap(succ, keep - {x})[k] {
      FilterMinusAbsent(succ[k], keep, x);
    }
  }

  lemma {:induction false} FilterMinusAbsent(s: seq<string>, keep: set<string>, x: string)
    requires x !in keep || x !in s
    ensures Filter(s, keep) == Filter(s, keep - {x})
  {
    if s != [] {
      FilterMinusAbsent(s[1..], keep, x);
    }
  }

  lemma RestrictAll(g: Graph, keep: set<string>)
    requires Valid(g) && g.succ.Keys <= keep
    ensures Restrict(g, keep) == g
  {
    FilterAll(g.nodes, keep);
    forall k | k in g.succ ensures Filter(g.succ[k], keep) == g.succ[k] {
      FilterAll(g.succ[k], keep);
    }
  }

  /** `b` is `a` or one of its downstreams. */
  predicate Reaches(g: Graph, a: string, b: string)
    requires Valid(g)
  {
    a == b || b in AllDownstreams(g, a)
  }

  /** No node is its own downstream. */
  ghost predicate Acyclic(g: Graph)
    requires Valid(g)
  {
    forall n {:trigger AllDownstreams(g, n)} :: n in g.succ ==> n !in AllDownstreams(g, n)
  }

  /** `add_edge(a, b)` once both nodes exist: the edge is added unless already there. */
  function AddEdge(g: Graph, a: string, b: string): (r: Graph)
    requires Valid(g) && a in g.succ && b in g.succ
    ensures Valid(r) && r.nodes == g.nodes && r.succ.Keys == g.succ.Keys
    ensures forall x, y :: HasEdge(r, x, y) <==> HasEdge(g, x, y) || (x, y) == (a, b)
  {
    if b in g.succ[a] then g
    else
      assert forall k :: 0 <= k < |g.succ[a]| ==> (g.succ[a] + [b])[k] == g.succ[a][k];
      Graph(g.nodes, g.succ[a := g.succ[a] + [b]])
  }

  lemma NextMono(g: Graph, s: set<string>, t: set<string>)
    requires Valid(g) && s <= t
    ensures Next(g, s) <= Next(g, t)
  {
  }

  /** A downstream's downstreams are downstreams too. */
  lemma DownstreamsTransitive(g: Graph, b: string, n: string)
    requires Valid(g) && n in AllDownstreams(g, b)
    ensures AllDownstreams(g, n) <= AllDownstreams(g, b)
  {
    var d := AllDownstreams(g, b);
    NextMono(g, {n}, d);
    ClosureLeast(g, Next(g, {n}), d);
  }

  lemma NextAddEdge(g: Graph, a: string, b: string, s: set<string>)
    requires Valid(g) && a in g.succ && b in g.succ
    ensures Next(AddEdge(g, a, b), s) == Next(g, s) + (if a in s then {b} else {})
  {
    var g' := AddEdge(g, a, b);
    forall y | y in Next(g', s) ensures y in Next(g, s) + (if a in s then {b} else {}) {
      var x :| x in s && HasEdge(g', x, y);
    }
  }

  /** The set that bounds the downstreams of `n` once the edge from `a` to `b` is added is closed. */
  lemma AddEdgeClosed(g: Graph, a: string, b: string, dn: set<string>, db: set<string>, via: bool)
    requires Valid(g) && a in g.succ && b in g.succ
    requires Next(g, dn) <= dn && Next(g, db) <= db && Next(g, {b}) <= db
    requires a in dn ==> via
    ensures var s := dn + (if via then {b} + db else {});
      Next(AddEdge(g, a, b), s) <= s
  {
    var s := dn + (if via then {b} + db else {});
    NextAddEdge(g, a, b, s);
    if via {
      NextUnion(g, dn, {b} + db);
      NextUnion(g, {b}, db);
    }
  }

  /**
   * With the new edge, the downstreams of `n` are among its old downstreams,
   * plus `b` and its downstreams when `n` reaches `a`.
   */
  lemma AddEdgeDownstreams(g: Graph, a: string, b: string, n: string)
    requires Valid(g) && a in g.succ && b in g.succ && n in g.succ
    ensures var extra := if Reaches(g, n, a) then {b} + AllDownstreams(g, b) else {};
      AllDownstreams(AddEdge(g, a, b), n) <= AllDownstreams(g, n) + extra
  {
    var g' := AddEdge(g, a, b);
    var dn := AllDownstreams(g, n);
    var db := AllDownstreams(g, b);
    var via := Reaches(g, n, a);
    AddEdgeClosed(g, a, b, dn, db, via);
    NextAddEdge(g, a, b, {n});
    ClosureLeast(g', Next(g', {n}), dn + (if via then {b} + db else {}));
  }

  lemma NextUnion(g: Graph, s: set<string>, t: set<string>)
    requires Valid(g)
    ensures Next(g, s + t) == Next(g, s) + Next(g, t)
  {
  }

  /** Adding an edge from `a` to `b` where `b` does not reach `a` keeps the graph acyclic. */
  lemma AddEdgeAcyclic(g: Graph, a: string, b: string)
    requires Valid(g) && Acyclic(g) && a in g.succ && b in g.succ && !Reaches(g, b, a)
    ensures Acyclic(AddEdge(g, a, b))
  {
    forall n | n in AddEdge(g, a, b).succ ensures n !in AllDownstreams(AddEdge(g, a, b), n) {
      AddEdgeNoLoop(g, a, b, n);
    }
  }

  lemma AddEdgeNoLoop(g: Graph, a: string, b: string, n: string)
    requires Valid(g) && a in g.succ && b in g.succ && n in g.succ && !Reaches(g, b, a)
    requires n !in AllDownstreams(g, n)
    ensures n !in AllDownstreams(AddEdge(g, a, b), n)
  {
    AddEdgeDownstreams(g, a, b, n);
    if Reaches(g, n, a) && n in AllDownstreams(g, b) {
      DownstreamsTransitive(g, b, n);
    }
  }

  lemma NextAddNode(g: Graph, n: string, s: set<string>)
    requires Valid(g) && n !in g.succ
    ensures Next(AddNodeIfNotExists(g, n), s) == Next(g, s)
  {
    var g' := AddNodeIfNotExists(g, n);
    forall y | y in Next(g', s) ensures y in Next(g, s) {
      var x :| x in s && HasEdge(g', x, y);
    }
  }

  /** Adding an isolated node keeps the graph acyclic. */
  lemma AddNodeAcyclic(g: Graph, n: string)
    requires Valid(g) && Acyclic(g)
    ensures Acyclic(AddNodeIfNotExists(g, n))
  {
    var g' := AddNodeIfNotExists(g, n);
    if n !in g.succ {
      forall m | m in g'.succ ensures m !in AllDownstreams(g', m) {
        NextAddNode(g, n, {m});
        if m == n {
          ClosureLeast(g', {}, {});
        } else {
          var dm := AllDownstreams(g, m);
          NextAddNode(g, n, dm);
          ClosureLeast(g', Next(g', {m}), dm);
        }
      }
    }
  }
}
