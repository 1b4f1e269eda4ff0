/**
 A boot whose detector finds no cycle and which never ends all the same. With equal names a promise is
 not known by its name: a body can be started for an earlier node, and while it runs up to its first
 await, another one for the later node that dependents find. The memo then keeps the last one stored.
 Here promises go by the position of their node.
 */
module BootEqualNames {
  import opened Wrappers
  import opened BootGraph

  /** `on` is the node whose promise is awaited. */
  datatype Task = Waits(pos: nat, on: nat) | Runs | Ends(fulfilled: bool)

  datatype State = State(tasks: map<nat, Task>, memo: map<string, nat>, report: map<string, Status>)

  /** The node that dependents find for a name: the last one. */
  function Main(nodes: seq<BootNode>, name: string): (i: nat)
    requires name in ByName(nodes)
    ensures i < |nodes| && nodes[i].name == name
  {
    if nodes[|nodes| - 1].name == name then |nodes| - 1 else Main(nodes[..|nodes| - 1], name)
  }

  datatype Resolved = Resolved(state: State, promise: nat)

  /** `fuel` bounds the depth to which bodies start each other. */
  function Resolve(nodes: seq<BootNode>, s: State, i: nat, fuel: nat): Resolved
    requires i < |nodes|
    decreases fuel, 1, 0
  {
    if nodes[i].name in s.memo then Resolved(s, s.memo[nodes[i].name])
    else if fuel == 0 then Resolved(s, i)
    else
      var started := Continue(nodes, s, i, 0, fuel - 1);
      Resolved(started.(memo := started.memo[nodes[i].name := i]), i)
  }

  /** The body of node i from its pos-th dependency on, up to its next await. */
  function Continue(nodes: seq<BootNode>, s: State, i: nat, pos: nat, fuel: nat): State
    requires i < |nodes| && pos <= |AllDeps(nodes[i])|
    decreases fuel, 2, |AllDeps(nodes[i])| - pos
  {
    if pos == |AllDeps(nodes[i])| then s.(tasks := s.tasks[i := Runs])
    else
      var d := AllDeps(nodes[i])[pos];
      if d in ByName(nodes) then
        var r := Resolve(nodes, s, Main(nodes, d), fuel);
        r.state.(tasks := r.state.tasks[i := Waits(pos, r.promise)])
      else if pos < |nodes[i].deps| then s.(tasks := s.tasks[i := Ends(false)])
      else Continue(nodes, s, i, pos + 1, fuel)
  }

  /** The promise that node i awaits has settled. */
  predicate CanWake(nodes: seq<BootNode>, s: State, i: nat) {
    && i < |nodes| && i in s.tasks && s.tasks[i].Waits? && s.tasks[i].pos < |AllDeps(nodes[i])|
    && s.tasks[i].on in s.tasks && s.tasks[s.tasks[i].on].Ends?
  }

  function Wake(nodes: seq<BootNode>, s: State, i: nat, fuel: nat): State
    requires CanWake(nodes, s, i)
  {
    var Waits(pos, on) := s.tasks[i];
    var d := AllDeps(nodes[i])[pos];
    if pos < |nodes[i].deps| && !s.tasks[on].fulfilled then s.(tasks := s.tasks[i := Ends(false)])
    else if pos < |nodes[i].deps| && d in s.report && s.report[d] != Ok then
      s.(tasks := s.tasks[i := Ends(true)], report := s.report[nodes[i].name := Skipped(d)])
    else Continue(nodes, s, i, pos + 1, fuel)
  }

  function Finish(nodes: seq<BootNode>, s: State, i: nat, succeeded: bool): State
    requires i < |nodes|
  {
    s.(tasks := s.tasks[i := Ends(succeeded || nodes[i].optional)],
       report := s.report[nodes[i].name := if succeeded then Ok else Failed])
  }

  function ResolveAll(nodes: seq<BootNode>, n: nat, fuel: nat): State
    requires n <= |nodes|
  {
    if n == 0 then State(map[], map[], map[]) else Resolve(nodes, ResolveAll(nodes, n - 1, fuel), n - 1, fuel).state
  }

  /** Nothing runs, and whoever waits waits for a promise that is not settled. */
  ghost predicate Stuck(s: State) {
    forall i :: i in s.tasks ==>
      !s.tasks[i].Runs? && (s.tasks[i].Waits? ==> s.tasks[i].on in s.tasks && !s.tasks[s.tasks[i].on].Ends?)
  }

  const EARLIER := BootNode("x", ["d"], [], false)
  const DEPENDENT := BootNode("d", ["y", "x"], [], false)
  const OTHER := BootNode("y", [], [], false)
  const LATER := BootNode("x", [], [], false)
  const NODES := [EARLIER, DEPENDENT, OTHER, LATER]

  lemma NodesByName()
    ensures ByName(NODES) == map["x" := LATER, "d" := DEPENDENT, "y" := OTHER]
    ensures Main(NODES, "x") == 3 && Main(NODES, "d") == 1 && Main(NODES, "y") == 2
  {
    assert NODES[..3] == [EARLIER, DEPENDENT, OTHER] && NODES[..3][..2] == [EARLIER, DEPENDENT];
    assert [EARLIER, DEPENDENT][..1] == [EARLIER] && [EARLIER][..0] == [];
    assert ByName([EARLIER]) == map["x" := EARLIER];
    assert ByName([EARLIER, DEPENDENT]) == map["x" := EARLIER, "d" := DEPENDENT];
    assert ByName([EARLIER, DEPENDENT, OTHER]) == map["x" := EARLIER, "d" := DEPENDENT, "y" := OTHER];
    assert Main(NODES[..3], "y") == 2 && Main(NODES[..3], "d") == Main(NODES[..3][..2], "d");
  }

  lemma NodesAreAcyclic()
    ensures Acyclic(ByName(NODES))
  {
    NodesByName();
    RankedIsAcyclic(ByName(NODES), map["x" := 0, "y" := 0, "d" := 1]);
  }

  lemma NodesDeps()
    ensures |NODES| == 4 && NODES[0] == EARLIER && NODES[1] == DEPENDENT && NODES[2] == OTHER && NODES[3] == LATER
    ensures AllDeps(EARLIER) == ["d"] && AllDeps(DEPENDENT) == ["y", "x"] && AllDeps(OTHER) == [] && AllDeps(LATER) == []
  {
  }

  lemma Memoised(nodes: seq<BootNode>, s: State, i: nat, fuel: nat)
    requires i < |nodes| && nodes[i].name in s.memo
    ensures Resolve(nodes, s, i, fuel) == Resolved(s, s.memo[nodes[i].name])
  {
  }

  lemma Starts(nodes: seq<BootNode>, s: State, i: nat, fuel: nat)
    requires i < |nodes| && nodes[i].name !in s.memo && fuel > 0
    ensures var started := Continue(nodes, s, i, 0, fuel - 1);
            Resolve(nodes, s, i, fuel) == Resolved(started.(memo := started.memo[nodes[i].name := i]), i)
  {
  }

  lemma RunsAtOnce(nodes: seq<BootNode>, s: State, i: nat, fuel: nat)
    requires i < |nodes| && AllDeps(nodes[i]) == []
    ensures Continue(nodes, s, i, 0, fuel) == s.(tasks := s.tasks[i := Runs])
  {
  }

  lemma WaitsFor(nodes: seq<BootNode>, s: State, i: nat, pos: nat, fuel: nat, d: string, on: nat)
    requires i < |nodes| && pos < |AllDeps(nodes[i])| && AllDeps(nodes[i])[pos] == d
    requires d in ByName(nodes) && Main(nodes, d) == on
    ensures var r := Resolve(nodes, s, on, fuel);
            Continue(nodes, s, i, pos, fuel) == r.state.(tasks := r.state.tasks[i := Waits(pos, r.promise)])
  {
  }

  lemma NextResolved(nodes: seq<BootNode>, n: nat, fuel: nat)
    requires n < |nodes|
    ensures ResolveAll(nodes, 0, fuel) == State(map[], map[], map[])
    ensures ResolveAll(nodes, n + 1, fuel) == Resolve(nodes, ResolveAll(nodes, n, fuel), n, fuel).state
  {
  }

  /** All resolved: "x" is started for the earlier node, which waits for "d", which waits for "y". */
  lemma AllResolved()
    ensures ResolveAll(NODES, 4, 3) ==
              State(map[0 := Waits(0, 1), 1 := Waits(0, 2), 2 := Runs], map["x" := 0, "d" := 1, "y" := 2], map[])
  {
    hide Resolve, Continue, Main, ByName, AllDeps, ResolveAll;
    NodesByName();
    NodesDeps();
    var empty := State(map[], map[], map[]);
    RunsAtOnce(NODES, empty, 2, 0);
    Starts(NODES, empty, 2, 1);
    WaitsFor(NODES, empty, 1, 0, 1, "y", 2);
    Starts(NODES, empty, 1, 2);
    WaitsFor(NODES, empty, 0, 0, 2, "d", 1);
    Starts(NODES, empty, 0, 3);
    var s := State(map[0 := Waits(0, 1), 1 := Waits(0, 2), 2 := Runs], map["x" := 0, "d" := 1, "y" := 2], map[]);
    assert Resolve(NODES, empty, 0, 3).state == s;
    Memoised(NODES, s, 1, 3);
    Memoised(NODES, s, 2, 3);
    Memoised(NODES, s, 3, 3);
    NextResolved(NODES, 0, 3);
    NextResolved(NODES, 1, 3);
    NextResolved(NODES, 2, 3);
    NextResolved(NODES, 3, 3);
  }

  /** Once "y" has run, "d" goes on to "x" and finds the promise of the earlier one. */
  lemma WokenWaitsForEarlier(s: State)
    requires s.tasks == map[0 := Waits(0, 1), 1 := Waits(0, 2), 2 := Ends(true)]
    requires s.memo == map["x" := 0, "d" := 1, "y" := 2] && s.report == map["y" := Ok]
    ensures CanWake(NODES, s, 1)
    ensures Wake(NODES, s, 1, 3) == s.(tasks := map[0 := Waits(0, 1), 1 := Waits(1, 0), 2 := Ends(true)])
  {
    hide Resolve, Continue, Main, ByName, AllDeps;
    NodesByName();
    NodesDeps();
    Memoised(NODES, s, 3, 3);
    WaitsFor(NODES, s, 1, 1, 3, "x", 3);
  }

  lemma OtherFinished()
    ensures Finish(NODES, ResolveAll(NODES, 4, 3), 2, true) ==
              State(map[0 := Waits(0, 1), 1 := Waits(0, 2), 2 := Ends(true)], map["x" := 0, "d" := 1, "y" := 2], map["y" := Ok])
  {
    hide ResolveAll, AllDeps;
    NodesDeps();
    AllResolved();
  }

  /** No cycle is found, the only run there is succeeds, and then two bodies wait for each other for
      ever: the earlier "x" for "d", and "d" for the earlier "x". */
  lemma EqualNamesCanHang() returns (finished: State, stuck: State)
    ensures Acyclic(ByName(NODES)) && !Acyclic(ByName(Merged(NODES)))
    ensures finished == Finish(NODES, ResolveAll(NODES, 4, 3), 2, true)
    ensures finished.tasks == map[0 := Waits(0, 1), 1 := Waits(0, 2), 2 := Ends(true)]
    ensures CanWake(NODES, finished, 1) && stuck == Wake(NODES, finished, 1, 3) && Stuck(stuck)
    ensures stuck.tasks == map[0 := Waits(0, 1), 1 := Waits(1, 0), 2 := Ends(true)]
  {
    hide Resolve, Continue, Main, ByName, AllDeps, ResolveAll, Acyclic, Wake, Finish, CanWake, Merged, Stuck;
    NodesAreAcyclic();
    MergedIsCyclic();
    OtherFinished();
    NodesDeps();
    finished := Finish(NODES, ResolveAll(NODES, 4, 3), 2, true);
    WokenWaitsForEarlier(finished);
    stuck := Wake(NODES, finished, 1, 3);
    EachOther(stuck);
  }

  lemma EachOther(s: State)
    requires s.tasks == map[0 := Waits(0, 1), 1 := Waits(1, 0), 2 := Ends(true)]
    ensures Stuck(s)
  {
  }

  lemma MergedIsCyclic()
    ensures !Acyclic(ByName(Merged(NODES)))
  {
    hide ByName, AllDeps, DepsOfName;
    NodesByName();
    NodesDeps();
    MergedNames(NODES);
    DepsOfNameHasAll(NODES, 0, "d");
    DepsOfNameHasAll(NODES, 1, "x");
    var m, p := ByName(Merged(NODES)), ["x", "d", "x"];
    assert Edge(m, "x", "d") && Edge(m, "d", "x");
    assert IsPath(m, p);
    assert p[0] == p[|p| - 1];
  }
}
