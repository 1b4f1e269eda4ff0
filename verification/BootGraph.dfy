/**
 The boot graph: named nodes with required and optional dependencies, its cycles, and what every
 node's boot must come to, whatever order the work finishes in.
 */
module BootGraph {
  import opened Wrappers

  datatype BootNode = BootNode(name: string, deps: seq<string>, optionalDeps: seq<string>, optional: bool)

  type Graph = map<string, BootNode>

  datatype Status = Ok | Failed | Skipped(blockedBy: string)

  /** Nodes by name; of two nodes with one name the later one counts. */
  function ByName(nodes: seq<BootNode>): (g: Graph)
    ensures forall n :: n in g ==> g[n].name == n && g[n] in nodes
    ensures forall i :: 0 <= i < |nodes| ==> nodes[i].name in g
  {
    if nodes == [] then map[] else ByName(nodes[..|nodes| - 1])[nodes[|nodes| - 1].name := nodes[|nodes| - 1]]
  }

  predicate DistinctNames(nodes: seq<BootNode>) {
    forall i, j :: 0 <= i < j < |nodes| ==> nodes[i].name != nodes[j].name
  }

  lemma {:induction false} ByNameFindsEach(nodes: seq<BootNode>, i: nat)
    requires DistinctNames(nodes) && i < |nodes|
    ensures ByName(nodes)[nodes[i].name] == nodes[i]
  {
    if i < |nodes| - 1 {
      ByNameFindsEach(nodes[..|nodes| - 1], i);
    }
  }

  function AllDeps(n: BootNode): seq<string> {
    n.deps + n.optionalDeps
  }

  // ---------------------------------------------------------------- cycles

  predicate Edge(g: Graph, a: string, b: string) {
    a in g && b in AllDeps(g[a])
  }

  predicate IsPath(g: Graph, p: seq<string>) {
    |p| > 0 && forall i :: 0 <= i < |p| - 1 ==> Edge(g, p[i], p[i + 1])
  }

  ghost predicate Acyclic(g: Graph) {
    forall p :: IsPath(g, p) && |p| >= 2 ==> p[0] != p[|p| - 1]
  }

  /** A path whose last name already occurred in it. */
  predicate ClosesCycle(g: Graph, p: seq<string>) {
    IsPath(g, p) && |p| >= 2 && p[|p| - 1] in p[..|p| - 1]
  }

  lemma ClosingPathIsCycle(g: Graph, p: seq<string>)
    requires ClosesCycle(g, p)
    ensures !Acyclic(g)
  {
    var k :| 0 <= k < |p| - 1 && p[k] == p[|p| - 1];
    var c := p[k..];
    assert IsPath(g, c);
    assert c[0] == c[|c| - 1];
  }

  /** A rank that every known dependency lowers. */
  ghost predicate IsRank(g: Graph, rank: map<string, nat>) {
    forall n :: n in g ==> n in rank && forall d :: d in AllDeps(g[n]) && d in g ==> d in rank && rank[d] < rank[n]
  }

  lemma {:induction false} RankFallsAlongPath(g: Graph, rank: map<string, nat>, p: seq<string>)
    requires IsRank(g, rank) && IsPath(g, p) && |p| >= 2 && p[|p| - 1] in g
    ensures p[0] in g && rank[p[|p| - 1]] < rank[p[0]]
  {
    assert Edge(g, p[0], p[1]);
    if |p| > 2 {
      var q := p[1..];
      assert forall i :: 0 <= i < |q| - 1 ==> Edge(g, q[i], q[i + 1]);
      RankFallsAlongPath(g, rank, q);
    }
  }

  lemma RankedIsAcyclic(g: Graph, rank: map<string, nat>)
    requires IsRank(g, rank)
    ensures Acyclic(g)
  {
    forall p | IsPath(g, p) && |p| >= 2 ensures p[0] != p[|p| - 1] {
      assert Edge(g, p[0], p[1]);
      if p[|p| - 1] in g { RankFallsAlongPath(g, rank, p); }
    }
  }

  // ---------------------------------------------------------------- the verdict on each node

  /** What a node's boot comes to: its entry in the report, if any, and whether its promise is
      fulfilled or rejected. */
  datatype Verdict = Verdict(status: Option<Status>, fulfilled: bool)

  /** `healthy` are the nodes whose `run` succeeds. */
  function Expected(g: Graph, ghost rank: map<string, nat>, healthy: set<string>, n: string): Verdict
    requires IsRank(g, rank) && n in g
    decreases rank[n], |g[n].deps| + 1
  {
    ExpectedFrom(g, rank, healthy, n, 0)
  }

  /** The verdict on n, given that its first `pos` required dependencies were fine. */
  function ExpectedFrom(g: Graph, ghost rank: map<string, nat>, healthy: set<string>, n: string, pos: nat): Verdict
    requires IsRank(g, rank) && n in g && pos <= |g[n].deps|
    decreases rank[n], |g[n].deps| - pos
  {
    if pos == |g[n].deps| then
      if n in healthy then Verdict(Some(Ok), true) else Verdict(Some(Failed), g[n].optional)
    else
      var d := g[n].deps[pos];
      if d !in g then Verdict(None, false)
      else
        assert d in AllDeps(g[n]);
        var v := Expected(g, rank, healthy, d);
        if !v.fulfilled then Verdict(None, false)
        else if v.status != Some(Ok) then Verdict(Some(Skipped(d)), true)
        else ExpectedFrom(g, rank, healthy, n, pos + 1)
  }

  /** k is n itself or one of its required dependencies, theirs, and so on. */
  ghost predicate Needs(g: Graph, n: string, k: string) {
    exists p :: NeedsVia(g, p) && p[0] == n && p[|p| - 1] == k
  }

  predicate NeedsVia(g: Graph, p: seq<string>) {
    |p| > 0 && forall i :: 0 <= i < |p| - 1 ==> p[i] in g && p[i + 1] in g[p[i]].deps
  }

  lemma NeedsSelf(g: Graph, n: string)
    ensures Needs(g, n, n)
  {
    assert NeedsVia(g, [n]);
  }

  lemma NeedsThroughDep(g: Graph, n: string, d: string, k: string)
    requires n in g && d in g[n].deps && Needs(g, d, k)
    ensures Needs(g, n, k)
  {
    var p :| NeedsVia(g, p) && p[0] == d && p[|p| - 1] == k;
    var q := [n] + p;
    assert forall i :: 0 < i < |q| ==> q[i] == p[i - 1];
    assert NeedsVia(g, q) && q[|q| - 1] == k;
  }

  lemma NeedsUnfolds(g: Graph, n: string, k: string)
    requires Needs(g, n, k) && n != k
    ensures n in g && exists d :: d in g[n].deps && Needs(g, d, k)
  {
    var p :| NeedsVia(g, p) && p[0] == n && p[|p| - 1] == k;
    var q := p[1..];
    assert NeedsVia(g, q) && q[|q| - 1] == k;
    assert q[0] in g[n].deps && Needs(g, q[0], k);
  }

  /** A verdict is reported, fulfilled or not, in one of these ways only. */
  lemma VerdictShape(g: Graph, rank: map<string, nat>, healthy: set<string>, n: string, pos: nat)
    requires IsRank(g, rank) && n in g && pos <= |g[n].deps|
    ensures var v := ExpectedFrom(g, rank, healthy, n, pos);
            && (v.status.None? ==> !v.fulfilled)
            && (v.status == Some(Ok) ==> v.fulfilled)
            && (v.status == Some(Failed) ==> v.fulfilled == g[n].optional)
    decreases |g[n].deps| - pos
  {
    if pos < |g[n].deps| {
      VerdictShape(g, rank, healthy, n, pos + 1);
    }
  }

  lemma {:induction false} OkFrom(g: Graph, rank: map<string, nat>, healthy: set<string>, n: string, pos: nat)
    requires IsRank(g, rank) && n in g && pos <= |g[n].deps|
    ensures ExpectedFrom(g, rank, healthy, n, pos).status == Some(Ok) <==>
              n in healthy && forall i :: pos <= i < |g[n].deps| ==>
                g[n].deps[i] in g && Expected(g, rank, healthy, g[n].deps[i]).status == Some(Ok)
    decreases |g[n].deps| - pos
  {
    if pos < |g[n].deps| {
      OkFrom(g, rank, healthy, n, pos + 1);
      var d := g[n].deps[pos];
      if d in g { VerdictShape(g, rank, healthy, d, 0); }
    }
  }

  /** A node boots exactly if everything it needs, directly or not, is known and healthy. */
  lemma {:induction false} OkExactlyIfAllNeedsHealthy(g: Graph, rank: map<string, nat>, healthy: set<string>, n: string)
    requires IsRank(g, rank) && n in g
    ensures Expected(g, rank, healthy, n).status == Some(Ok) <==>
              forall k :: Needs(g, n, k) ==> k in g && k in healthy
    decreases rank[n]
  {
    OkFrom(g, rank, healthy, n, 0);
    NeedsSelf(g, n);
    forall i | 0 <= i < |g[n].deps|
      ensures g[n].deps[i] in g && Expected(g, rank, healthy, g[n].deps[i]).status == Some(Ok) <==>
                forall k :: Needs(g, g[n].deps[i], k) ==> k in g && k in healthy
    {
      var d := g[n].deps[i];
      NeedsSelf(g, d);
      if d in g {
        assert d in AllDeps(g[n]);
        OkExactlyIfAllNeedsHealthy(g, rank, healthy, d);
      }
    }
    forall k | Needs(g, n, k) && k != n ensures exists i :: 0 <= i < |g[n].deps| && Needs(g, g[n].deps[i], k) {
      NeedsUnfolds(g, n, k);
      var d :| d in g[n].deps && Needs(g, d, k);
      var i :| 0 <= i < |g[n].deps| && g[n].deps[i] == d;
    }
    forall i, k | 0 <= i < |g[n].deps| && Needs(g, g[n].deps[i], k) ensures Needs(g, n, k) {
      NeedsThroughDep(g, n, g[n].deps[i], k);
    }
  }

  // ---------------------------------------------------------------- nodes without an entry

  /** Everything d needs, directly or not, is known and healthy. */
  ghost predicate Fine(g: Graph, healthy: set<string>, d: string) {
    forall k :: Needs(g, d, k) ==> k in g && k in healthy
  }

  ghost predicate FineUpTo(g: Graph, healthy: set<string>, n: string, i: nat)
    requires n in g && i <= |g[n].deps|
  {
    forall j :: 0 <= j < i ==> Fine(g, healthy, g[n].deps[j])
  }

  /** d is the first required dependency of n, in declared order, that is not fine. */
  ghost predicate FirstTrouble(g: Graph, healthy: set<string>, n: string, d: string) {
    n in g && exists i: nat :: i < |g[n].deps| && g[n].deps[i] == d && FineUpTo(g, healthy, n, i) && !Fine(g, healthy, d)
  }

  /** An unknown name, or a node that runs, fails and is not optional. */
  ghost predicate Culprit(g: Graph, healthy: set<string>, d: string) {
    d in g ==> !g[d].optional && d !in healthy && FineUpTo(g, healthy, d, |g[d].deps|)
  }

  /** From each name to the first trouble among its required dependencies, down to a culprit. */
  ghost predicate Blames(g: Graph, healthy: set<string>, p: seq<string>) {
    && p != [] && Culprit(g, healthy, p[|p| - 1])
    && forall i :: 0 <= i < |p| - 1 ==> FirstTrouble(g, healthy, p[i], p[i + 1])
  }

  ghost predicate LeadsToCulprit(g: Graph, healthy: set<string>, n: string) {
    exists p :: Blames(g, healthy, p) && p[0] == n
  }

  /** The first trouble of n exists and leads to a culprit. */
  ghost predicate BrokenBelow(g: Graph, healthy: set<string>, n: string) {
    exists p :: Blames(g, healthy, p) && p[0] == n && |p| > 1
  }

  lemma BrokenThrough(g: Graph, healthy: set<string>, n: string, d: string)
    requires FirstTrouble(g, healthy, n, d) && LeadsToCulprit(g, healthy, d)
    ensures BrokenBelow(g, healthy, n)
  {
    hide FirstTrouble, Culprit;
    var p :| Blames(g, healthy, p) && p[0] == d;
    var q := [n] + p;
    forall i | 0 <= i < |q| - 1 ensures FirstTrouble(g, healthy, q[i], q[i + 1]) {
      if i > 0 { assert q[i] == p[i - 1] && q[i + 1] == p[i]; }
    }
    assert Blames(g, healthy, q) && q[0] == n;
  }

  lemma BrokenUnfolds(g: Graph, healthy: set<string>, n: string)
    requires BrokenBelow(g, healthy, n)
    ensures exists d :: FirstTrouble(g, healthy, n, d) && LeadsToCulprit(g, healthy, d)
  {
    hide FirstTrouble, Culprit;
    var p :| Blames(g, healthy, p) && p[0] == n && |p| > 1;
    var q := p[1..];
    assert forall i :: 0 <= i < |q| ==> q[i] == p[i + 1];
    assert FirstTrouble(g, healthy, p[0], p[1]);
    assert Blames(g, healthy, q) && q[0] == p[1];
  }

  lemma LeadsUnfolds(g: Graph, healthy: set<string>, n: string)
    ensures LeadsToCulprit(g, healthy, n) <==> Culprit(g, healthy, n) || BrokenBelow(g, healthy, n)
  {
    hide FirstTrouble, Culprit;
    if Culprit(g, healthy, n) {
      assert Blames(g, healthy, [n]);
    }
    if LeadsToCulprit(g, healthy, n) {
      var p :| Blames(g, healthy, p) && p[0] == n;
      assert |p| == 1 || BrokenBelow(g, healthy, n);
    }
  }

  lemma OneFirstTrouble(g: Graph, healthy: set<string>, n: string, d: string, d': string)
    requires FirstTrouble(g, healthy, n, d) && FirstTrouble(g, healthy, n, d')
    ensures d == d'
  {
    hide Fine;
  }

  /** Past fine dependencies the verdict is decided by the rest. */
  lemma {:induction false} FineIsPassed(g: Graph, rank: map<string, nat>, healthy: set<string>, n: string, i: nat)
    requires IsRank(g, rank) && n in g && i <= |g[n].deps| && FineUpTo(g, healthy, n, i)
    ensures Expected(g, rank, healthy, n) == ExpectedFrom(g, rank, healthy, n, i)
  {
    hide Fine;
    if i > 0 {
      FineIsPassed(g, rank, healthy, n, i - 1);
      var d := g[n].deps[i - 1];
      assert Fine(g, healthy, d);
      FineIsKnown(g, healthy, d);
      assert d in AllDeps(g[n]);
      FineIsOk(g, rank, healthy, d);
      VerdictShape(g, rank, healthy, d, 0);
    }
  }

  lemma FineIsKnown(g: Graph, healthy: set<string>, d: string)
    requires Fine(g, healthy, d)
    ensures d in g && d in healthy
  {
    NeedsSelf(g, d);
  }

  lemma FineIsOk(g: Graph, rank: map<string, nat>, healthy: set<string>, d: string)
    requires IsRank(g, rank) && d in g
    ensures Fine(g, healthy, d) <==> Expected(g, rank, healthy, d).status == Some(Ok)
  {
    OkExactlyIfAllNeedsHealthy(g, rank, healthy, d);
  }

  lemma {:induction false} FirstTroubleExists(g: Graph, healthy: set<string>, n: string, i: nat)
    requires n in g && i <= |g[n].deps|
    ensures FineUpTo(g, healthy, n, i) || exists d :: FirstTrouble(g, healthy, n, d)
  {
    hide Fine;
    if i > 0 {
      FirstTroubleExists(g, healthy, n, i - 1);
      if FineUpTo(g, healthy, n, i - 1) && !Fine(g, healthy, g[n].deps[i - 1]) {
        assert FirstTrouble(g, healthy, n, g[n].deps[i - 1]);
      }
    }
  }

  /** At its first trouble a body is rejected with the dependency, or skipped. */
  lemma AtFirstTrouble(g: Graph, rank: map<string, nat>, healthy: set<string>, n: string, d: string)
    requires IsRank(g, rank) && n in g && FirstTrouble(g, healthy, n, d)
    ensures Expected(g, rank, healthy, n) ==
              if d in g && Expected(g, rank, healthy, d).fulfilled then Verdict(Some(Skipped(d)), true) else Verdict(None, false)
    ensures !Culprit(g, healthy, n)
    ensures d in g ==> rank[d] < rank[n]
  {
    hide Fine;
    var i: nat :| i < |g[n].deps| && g[n].deps[i] == d && FineUpTo(g, healthy, n, i) && !Fine(g, healthy, d);
    FineIsPassed(g, rank, healthy, n, i);
    assert d in AllDeps(g[n]);
    if d in g { FineIsOk(g, rank, healthy, d); }
  }

  /** A node has no entry in the report exactly if its first trouble leads, first trouble by first
      trouble, to an unknown name or to a node that fails and is not optional; and its promise is
      rejected exactly if moreover it may itself be that node. */
  lemma {:induction false} NoEntryExactly(g: Graph, rank: map<string, nat>, healthy: set<string>, n: string)
    requires IsRank(g, rank) && n in g
    ensures Expected(g, rank, healthy, n).status.None? <==> BrokenBelow(g, healthy, n)
    ensures !Expected(g, rank, healthy, n).fulfilled <==> LeadsToCulprit(g, healthy, n)
    decreases rank[n]
  {
    hide Fine, FirstTrouble, BrokenBelow, LeadsToCulprit;
    LeadsUnfolds(g, healthy, n);
    FirstTroubleExists(g, healthy, n, |g[n].deps|);
    if d :| FirstTrouble(g, healthy, n, d) {
      AtFirstTrouble(g, rank, healthy, n, d);
      if d in g { NoEntryExactly(g, rank, healthy, d); } else { LeadsUnfolds(g, healthy, d); }
      if LeadsToCulprit(g, healthy, d) { BrokenThrough(g, healthy, n, d); }
      if BrokenBelow(g, healthy, n) {
        BrokenUnfolds(g, healthy, n);
        var d' :| FirstTrouble(g, healthy, n, d') && LeadsToCulprit(g, healthy, d');
        OneFirstTrouble(g, healthy, n, d, d');
      }
    } else {
      FineIsPassed(g, rank, healthy, n, |g[n].deps|);
      if BrokenBelow(g, healthy, n) {
        BrokenUnfolds(g, healthy, n);
      }
    }
  }

  /** The other two entries: failed exactly if all required dependencies are fine and the node is not
      healthy; skipped, and blocked by d, exactly if d is its first trouble and leads to no culprit. */
  lemma FailedAndSkippedExactly(g: Graph, rank: map<string, nat>, healthy: set<string>, n: string)
    requires IsRank(g, rank) && n in g
    ensures Expected(g, rank, healthy, n).status == Some(Failed) <==> FineUpTo(g, healthy, n, |g[n].deps|) && n !in healthy
    ensures forall d :: Expected(g, rank, healthy, n).status == Some(Skipped(d)) <==>
                          FirstTrouble(g, healthy, n, d) && !LeadsToCulprit(g, healthy, d)
  {
    hide Fine, FirstTrouble, BrokenBelow, LeadsToCulprit;
    FirstTroubleExists(g, healthy, n, |g[n].deps|);
    if d :| FirstTrouble(g, healthy, n, d) {
      AtFirstTrouble(g, rank, healthy, n, d);
      if d in g { NoEntryExactly(g, rank, healthy, d); } else { LeadsUnfolds(g, healthy, d); }
      forall e | FirstTrouble(g, healthy, n, e) ensures e == d { OneFirstTrouble(g, healthy, n, d, e); }
      NotFineUpTo(g, healthy, n, d);
    } else {
      FineIsPassed(g, rank, healthy, n, |g[n].deps|);
    }
  }

  lemma NotFineUpTo(g: Graph, healthy: set<string>, n: string, d: string)
    requires FirstTrouble(g, healthy, n, d)
    ensures !FineUpTo(g, healthy, n, |g[n].deps|)
  {
    hide Fine;
  }

  // ---------------------------------------------------------------- nodes of equal name

  ghost predicate WellNamed(g: Graph) {
    forall n :: n in g ==> g[n].name == n
  }

  /** Every known dependency of this node ranks below it. */
  ghost predicate Ranked(g: Graph, rank: map<string, nat>, node: BootNode) {
    node.name in rank && forall d :: d in AllDeps(node) && d in g ==> d in rank && rank[d] < rank[node.name]
  }

  /** A rank that the dependencies of every node lower, the earlier ones of equal name included. */
  ghost predicate IsRankOfAll(nodes: seq<BootNode>, rank: map<string, nat>) {
    forall i :: 0 <= i < |nodes| ==> Ranked(ByName(nodes), rank, nodes[i])
  }

  ghost predicate Extends(more: Graph, g: Graph) {
    forall n :: n in g ==> n in more && more[n] == g[n]
  }

  /** The dependency at which the body of a node first waits, from the pos-th on: the first known one,
      unless an unknown required one comes before it. */
  ghost function FirstKnown(g: Graph, node: BootNode, pos: nat): (d: Option<string>)
    requires pos <= |AllDeps(node)|
    ensures d.Some? ==> d.value in g && d.value in AllDeps(node)
    decreases |AllDeps(node)| - pos
  {
    if pos == |AllDeps(node)| then None
    else if AllDeps(node)[pos] in g then Some(AllDeps(node)[pos])
    else if pos < |node.deps| then None
    else FirstKnown(g, node, pos + 1)
  }

  /** Which bodies have been started, by name, once a node has been resolved: only the first body of a
      name is; dependents find the node that `g` has for a name. */
  ghost function Chosen(g: Graph, rank: map<string, nat>, c: Graph, node: BootNode): Graph
    requires IsRank(g, rank) && WellNamed(g) && Ranked(g, rank, node)
    decreases rank[node.name]
  {
    if node.name in c then c
    else
      var d := FirstKnown(g, node, 0);
      (if d.None? then c else Chosen(g, rank, c, g[d.value]))[node.name := node]
  }

  lemma {:induction false} ChosenFacts(g: Graph, rank: map<string, nat>, c: Graph, node: BootNode)
    requires IsRank(g, rank) && WellNamed(g) && Ranked(g, rank, node)
    ensures var r := Chosen(g, rank, c, node);
            && Extends(r, c) && node.name in r
            && (node.name !in c ==> r[node.name] == node)
            && (forall n :: n in r && n !in c ==>
                  (&& n in rank && rank[n] <= rank[node.name]
                   && ((n == node.name && r[n] == node) || (n in g && r[n] == g[n]))))
    decreases rank[node.name]
  {
    hide IsRank;
    if node.name !in c {
      var d := FirstKnown(g, node, 0);
      if d.Some? {
        RankedInGraph(g, rank, d.value);
        ChosenFacts(g, rank, c, g[d.value]);
      }
    }
  }

  lemma RankedInGraph(g: Graph, rank: map<string, nat>, n: string)
    requires IsRank(g, rank) && WellNamed(g) && n in g
    ensures Ranked(g, rank, g[n])
  {
  }

  lemma RankOfAllIsRank(nodes: seq<BootNode>, rank: map<string, nat>)
    requires IsRankOfAll(nodes, rank)
    ensures IsRank(ByName(nodes), rank) && WellNamed(ByName(nodes))
  {
    var g := ByName(nodes);
    forall n | n in g ensures Ranked(g, rank, g[n]) {
      var i :| 0 <= i < |nodes| && nodes[i] == g[n];
      assert Ranked(g, rank, nodes[i]);
    }
  }

  /** The bodies started by resolving the first i nodes in order. */
  ghost function BodiesAfter(nodes: seq<BootNode>, rank: map<string, nat>, i: nat): Graph
    requires IsRankOfAll(nodes, rank) && i <= |nodes|
  {
    if i == 0 then map[]
    else
      RankOfAllIsRank(nodes, rank);
      Chosen(ByName(nodes), rank, BodiesAfter(nodes, rank, i - 1), nodes[i - 1])
  }

  /** The graph that the boot really follows: for each name the node whose body is started. */
  ghost function Bodies(nodes: seq<BootNode>, rank: map<string, nat>): Graph
    requires IsRankOfAll(nodes, rank)
  {
    BodiesAfter(nodes, rank, |nodes|)
  }

  lemma {:induction false} BodiesGrow(nodes: seq<BootNode>, rank: map<string, nat>, i: nat, j: nat)
    requires IsRankOfAll(nodes, rank) && i <= j <= |nodes|
    ensures Extends(BodiesAfter(nodes, rank, j), BodiesAfter(nodes, rank, i))
    decreases j
  {
    if i < j {
      BodiesGrow(nodes, rank, i, j - 1);
      RankOfAllIsRank(nodes, rank);
      ChosenFacts(ByName(nodes), rank, BodiesAfter(nodes, rank, j - 1), nodes[j - 1]);
    }
  }

  lemma {:induction false} BodiesAreNodes(nodes: seq<BootNode>, rank: map<string, nat>, i: nat)
    requires IsRankOfAll(nodes, rank) && i <= |nodes|
    ensures var e := BodiesAfter(nodes, rank, i);
            && (forall n :: n in e ==> e[n] in nodes && e[n].name == n)
            && (forall j :: 0 <= j < i ==> nodes[j].name in e)
  {
    hide Chosen, IsRankOfAll, IsRank, Ranked, ByName;
    if i > 0 {
      BodiesAreNodes(nodes, rank, i - 1);
      RankOfAllIsRank(nodes, rank);
      NodeIsRanked(nodes, rank, i - 1);
      var c, e := BodiesAfter(nodes, rank, i - 1), BodiesAfter(nodes, rank, i);
      ChosenFacts(ByName(nodes), rank, c, nodes[i - 1]);
      forall n | n in e ensures e[n] in nodes && e[n].name == n {
        if n in c { assert e[n] == c[n]; }
      }
    }
  }

  lemma NodeIsRanked(nodes: seq<BootNode>, rank: map<string, nat>, i: nat)
    requires IsRankOfAll(nodes, rank) && i < |nodes|
    ensures Ranked(ByName(nodes), rank, nodes[i])
  {
  }

  lemma ByNameIsFromNodes(nodes: seq<BootNode>)
    ensures forall n :: n in ByName(nodes) ==> ByName(nodes)[n] in nodes && ByName(nodes)[n].name == n
  {
  }

  lemma BodiesAreFromNodes(nodes: seq<BootNode>, rank: map<string, nat>)
    requires IsRankOfAll(nodes, rank)
    ensures var e := Bodies(nodes, rank);
            && (forall n :: n in e ==> e[n] in nodes && e[n].name == n)
            && (forall j :: 0 <= j < |nodes| ==> nodes[j].name in e)
  {
    BodiesAreNodes(nodes, rank, |nodes|);
  }

  /** One body for every name, and the rank falls along their dependencies too. */
  lemma BodiesAreRanked(nodes: seq<BootNode>, rank: map<string, nat>)
    requires IsRankOfAll(nodes, rank)
    ensures var e := Bodies(nodes, rank);
            e.Keys == ByName(nodes).Keys && IsRank(e, rank) && WellNamed(e)
  {
    hide Bodies, ByName, AllDeps;
    ByNameIsFromNodes(nodes);
    BodiesAreFromNodes(nodes, rank);
    var g, e := ByName(nodes), Bodies(nodes, rank);
    forall n | n in g ensures n in e {
      var i :| 0 <= i < |nodes| && nodes[i] == g[n];
    }
    forall n | n in e ensures n in g && Ranked(g, rank, e[n]) {
      var i :| 0 <= i < |nodes| && nodes[i] == e[n];
      assert Ranked(g, rank, nodes[i]);
    }
  }

  /** With distinct names it is the graph of the nodes by name. */
  lemma DistinctBodies(nodes: seq<BootNode>, rank: map<string, nat>)
    requires IsRankOfAll(nodes, rank) && DistinctNames(nodes)
    ensures Bodies(nodes, rank) == ByName(nodes)
  {
    hide Bodies, ByName, IsRank, WellNamed;
    BodiesAreRanked(nodes, rank);
    BodiesAreFromNodes(nodes, rank);
    var g, e := ByName(nodes), Bodies(nodes, rank);
    forall n | n in e ensures e[n] == g[n] {
      var i :| 0 <= i < |nodes| && nodes[i] == e[n];
      ByNameFindsEach(nodes, i);
    }
  }

  // ---------------------------------------------------------------- cycles through any node of a name

  /** All dependencies of the nodes of that name. */
  function DepsOfName(nodes: seq<BootNode>, name: string): seq<string> {
    if nodes == [] then []
    else
      var front, last := DepsOfName(nodes[..|nodes| - 1], name), nodes[|nodes| - 1];
      if last.name == name then front + AllDeps(last) else front
  }

  lemma {:induction false} DepsOfNameHasAll(nodes: seq<BootNode>, i: nat, d: string)
    requires i < |nodes| && d in AllDeps(nodes[i])
    ensures d in DepsOfName(nodes, nodes[i].name)
  {
    if i < |nodes| - 1 {
      DepsOfNameHasAll(nodes[..|nodes| - 1], i, d);
    }
  }

  /** The nodes with, for each, the dependencies of all nodes of its name. */
  function Merged(nodes: seq<BootNode>): (r: seq<BootNode>)
    ensures |r| == |nodes|
    ensures forall i :: 0 <= i < |nodes| ==> r[i] == BootNode(nodes[i].name, DepsOfName(nodes, nodes[i].name), [], false)
  {
    seq(|nodes|, i requires 0 <= i < |nodes| => BootNode(nodes[i].name, DepsOfName(nodes, nodes[i].name), [], false))
  }

  lemma MergedNames(nodes: seq<BootNode>)
    ensures ByName(Merged(nodes)).Keys == ByName(nodes).Keys
    ensures forall n :: n in ByName(nodes) ==> AllDeps(ByName(Merged(nodes))[n]) == DepsOfName(nodes, n)
  {
    hide DepsOfName, ByName;
    var g, m, r := ByName(nodes), ByName(Merged(nodes)), Merged(nodes);
    forall n | n in g ensures n in m {
      var i :| 0 <= i < |nodes| && nodes[i] == g[n];
      assert r[i].name == n;
    }
    forall n | n in m ensures n in g && AllDeps(m[n]) == DepsOfName(nodes, n) {
      var i :| 0 <= i < |r| && r[i] == m[n];
      assert nodes[i].name == n;
      assert DepsOfName(nodes, n) + [] == DepsOfName(nodes, n);
    }
  }

  /** A rank of the merged graph ranks every single node. */
  lemma MergedRank(nodes: seq<BootNode>, rank: map<string, nat>)
    requires IsRank(ByName(Merged(nodes)), rank)
    ensures IsRankOfAll(nodes, rank)
  {
    MergedNames(nodes);
    var g, m := ByName(nodes), ByName(Merged(nodes));
    forall i | 0 <= i < |nodes| ensures Ranked(g, rank, nodes[i]) {
      forall d | d in AllDeps(nodes[i]) && d in g ensures d in rank && rank[d] < rank[nodes[i].name] {
        DepsOfNameHasAll(nodes, i, d);
        assert d in AllDeps(m[nodes[i].name]) && d in m;
      }
    }
  }

  lemma {:induction false} DepsComeFrom(nodes: seq<BootNode>, name: string, d: string)
    requires d in DepsOfName(nodes, name)
    ensures exists i :: 0 <= i < |nodes| && nodes[i].name == name && d in AllDeps(nodes[i])
  {
    var front := nodes[..|nodes| - 1];
    if d in DepsOfName(front, name) {
      DepsComeFrom(front, name, d);
      var i :| 0 <= i < |front| && front[i].name == name && d in AllDeps(front[i]);
      assert nodes[i] == front[i];
    }
  }

  /** With distinct names merging changes no dependency: the detector's verdict is the merged one. */
  lemma DistinctMerged(nodes: seq<BootNode>)
    requires DistinctNames(nodes)
    ensures Acyclic(ByName(Merged(nodes))) <==> Acyclic(ByName(nodes))
  {
    MergedNames(nodes);
    var g, m := ByName(nodes), ByName(Merged(nodes));
    forall a, b ensures Edge(m, a, b) <==> Edge(g, a, b) {
      if a in g {
        var k :| 0 <= k < |nodes| && nodes[k] == g[a];
        if b in AllDeps(g[a]) { DepsOfNameHasAll(nodes, k, b); }
        if b in DepsOfName(nodes, a) {
          DepsComeFrom(nodes, a, b);
          var i :| 0 <= i < |nodes| && nodes[i].name == a && b in AllDeps(nodes[i]);
          ByNameFindsEach(nodes, i);
        }
      }
    }
    SameEdges(m, g);
  }

  lemma SameEdges(m: Graph, g: Graph)
    requires forall a, b :: Edge(m, a, b) <==> Edge(g, a, b)
    ensures Acyclic(m) <==> Acyclic(g)
  {
    hide Edge;
    assert forall p :: IsPath(m, p) <==> IsPath(g, p);
  }

  /** Failures outside what a node needs never change its verdict. */
  lemma {:induction false} VerdictIsIndependent(g: Graph, rank: map<string, nat>, h1: set<string>, h2: set<string>, n: string, pos: nat)
    requires IsRank(g, rank) && n in g && pos <= |g[n].deps|
    requires forall k :: Needs(g, n, k) ==> (k in h1 <==> k in h2)
    ensures ExpectedFrom(g, rank, h1, n, pos) == ExpectedFrom(g, rank, h2, n, pos)
    decreases rank[n], |g[n].deps| - pos
  {
    NeedsSelf(g, n);
    if pos < |g[n].deps| {
      var d := g[n].deps[pos];
      if d in g {
        assert d in AllDeps(g[n]);
        forall k | Needs(g, d, k) ensures k in h1 <==> k in h2 { NeedsThroughDep(g, n, d, k); }
        VerdictIsIndependent(g, rank, h1, h2, d, 0);
        VerdictIsIndependent(g, rank, h1, h2, n, pos + 1);
      }
    }
  }

  /** The verdicts do not depend on which rank bears witness to acyclicity. */
  lemma {:induction false} VerdictIgnoresRank(g: Graph, r1: map<string, nat>, r2: map<string, nat>, healthy: set<string>, n: string, pos: nat)
    requires IsRank(g, r1) && IsRank(g, r2) && n in g && pos <= |g[n].deps|
    ensures ExpectedFrom(g, r1, healthy, n, pos) == ExpectedFrom(g, r2, healthy, n, pos)
    decreases r1[n], |g[n].deps| - pos
  {
    if pos < |g[n].deps| && g[n].deps[pos] in g {
      assert g[n].deps[pos] in AllDeps(g[n]);
      VerdictIgnoresRank(g, r1, r2, healthy, g[n].deps[pos], 0);
      VerdictIgnoresRank(g, r1, r2, healthy, n, pos + 1);
    }
  }
}
