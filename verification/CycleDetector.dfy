/**
 The depth-first cycle detector of the boot graph, with its two sets. It reports a path that closes
 a cycle, or finds none and thereby a rank under which the dispatcher's recursion terminates.
 */
module CycleDetector {
  import opened Wrappers
  import opened BootGraph

  /** Names in the order they were finished: every known dependency comes before its dependents. */
  ghost predicate Finishing(g: Graph, order: seq<string>) {
    && (forall i, j :: 0 <= i < j < |order| ==> order[i] != order[j])
    && (forall i, d :: 0 <= i < |order| && order[i] in g && d in AllDeps(g[order[i]]) ==> d in order[..i])
  }

  ghost function SetOf(s: seq<string>): set<string> {
    set x | x in s
  }

  function Mentioned(g: Graph): set<string> {
    g.Keys + set n, d | n in g && d in AllDeps(g[n]) :: d
  }

  class CycleDetector {
    const g: Graph
    var visited: set<string>
    var stack: set<string>
    ghost var order: seq<string>

    constructor (nodes: seq<BootNode>)
      ensures g == ByName(nodes) && visited == {} && stack == {} && order == []
    {
      g := ByName(nodes);
      visited, stack, order := {}, {}, [];
    }

    /** On the stack is exactly the path searched; everything else visited is finished. */
    ghost predicate Valid(path: seq<string>)
      reads this
    {
      && stack == SetOf(path) && (forall i, j :: 0 <= i < j < |path| ==> path[i] != path[j])
      && (path != [] ==> IsPath(g, path))
      && visited == stack + SetOf(order) && stack !! SetOf(order)
      && Finishing(g, order)
    }

    method Dfs(name: string, path: seq<string>) returns (cycle: Option<seq<string>>)
      requires Valid(path) && name in Mentioned(g)
      requires path != [] ==> Edge(g, path[|path| - 1], name)
      modifies this
      ensures cycle.Some? ==> ClosesCycle(g, cycle.value)
      ensures cycle.None? ==> Valid(path) && old(visited) <= visited && old(order) <= order && name in order
      decreases Mentioned(g) - visited
    {
      hide Finishing;
      if name in stack {
        var c := path + [name];
        assert c[..|c| - 1] == path;
        assert forall i :: 0 <= i < |c| - 1 ==> Edge(g, c[i], c[i + 1]);
        return Some(c);
      }
      if name in visited { return None; }
      visited := visited + {name};
      stack := stack + {name};
      var here := path + [name];
      assert forall i :: 0 <= i < |here| - 1 ==> Edge(g, here[i], here[i + 1]);
      assert SetOf(here) == stack;
      if name in g {
        var deps := AllDeps(g[name]);
        for k := 0 to |deps|
          invariant Valid(here) && old(visited) + {name} <= visited && old(order) <= order
          invariant forall j :: 0 <= j < k ==> deps[j] in order
        {
          assert Edge(g, name, deps[k]);
          cycle := Dfs(deps[k], here);
          if cycle.Some? { return; }
        }
      }
      Finish(name, path);
      return None;
    }

    method Finish(name: string, path: seq<string>)
      requires Valid(path + [name])
      requires name in g ==> forall d :: d in AllDeps(g[name]) ==> d in order
      modifies `stack, `order
      ensures Valid(path) && order == old(order) + [name]
    {
      ghost var here := path + [name];
      assert here[|path|] == name && forall i :: 0 <= i < |path| ==> here[i] == path[i];
      assert name in SetOf(here) && name !in SetOf(order);
      stack := stack - {name};
      order := order + [name];
      assert forall x :: x in order <==> x in old(order) || x == name;
      assert stack == SetOf(path) by {
        forall x | x in SetOf(path) ensures x != name {
          var i :| 0 <= i < |path| && path[i] == x;
          assert here[i] != here[|path|];
        }
      }
      forall i, d | 0 <= i < |order| && order[i] in g && d in AllDeps(g[order[i]]) ensures d in order[..i] {
        assert order[..i] == old(order)[..i];
        assert old(order)[..|old(order)|] == old(order);
      }
      assert forall i :: 0 <= i < |path| - 1 ==> Edge(g, here[i], here[i + 1]);
    }

    method DetectCycle(nodes: seq<BootNode>) returns (cycle: Option<seq<string>>)
      requires g == ByName(nodes) && Valid([])
      modifies this
      ensures cycle.Some? ==> ClosesCycle(g, cycle.value)
      ensures cycle.None? ==> Finishing(g, order) && forall n :: n in g ==> n in order
    {
      hide Finishing, ClosesCycle, AllDeps, Edge;
      for k := 0 to |nodes|
        invariant Valid([])
        invariant forall j :: 0 <= j < k ==> nodes[j].name in order
      {
        cycle := Dfs(nodes[k].name, []);
        if cycle.Some? { return; }
      }
      return None;
    }
  }

  function PositionIn(order: seq<string>, n: string): (i: nat)
    requires n in order
    ensures i < |order| && order[i] == n
  {
    if order[0] == n then 0 else 1 + PositionIn(order[1..], n)
  }

  function RankOf(order: seq<string>): map<string, nat> {
    map n | n in order :: PositionIn(order, n)
  }

  lemma FinishingRanks(g: Graph, order: seq<string>)
    requires Finishing(g, order) && forall n :: n in g ==> n in order
    ensures IsRank(g, RankOf(order))
  {
    forall n, d | n in g && d in AllDeps(g[n]) && d in g
      ensures d in RankOf(order) && RankOf(order)[d] < RankOf(order)[n]
    {
      var i := PositionIn(order, n);
      assert d in order[..i];
      var j :| 0 <= j < i && order[j] == d;
      assert PositionIn(order, d) == j;
    }
  }

  /** `detectCycle` returns null exactly on acyclic graphs, and then a rank exists; otherwise it
      returns a path along real dependencies whose last name occurred before in it. */
  method DetectCycle(nodes: seq<BootNode>) returns (cycle: Option<seq<string>>, ghost rank: map<string, nat>)
    ensures cycle.None? <==> Acyclic(ByName(nodes))
    ensures cycle.None? ==> IsRank(ByName(nodes), rank)
    ensures cycle.Some? ==> ClosesCycle(ByName(nodes), cycle.value)
  {
    var d := new CycleDetector(nodes);
    assert SetOf([]) == {};
    cycle := d.DetectCycle(nodes);
    rank := map[];
    if cycle.None? {
      rank := RankOf(d.order);
      FinishingRanks(d.g, d.order);
      RankedIsAcyclic(d.g, rank);
    } else {
      ClosingPathIsCycle(d.g, cycle.value);
    }
  }
}
