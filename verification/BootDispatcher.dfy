/**
 The dispatcher of the boot graph: every node is an asynchronous body that awaits its dependencies
 one by one and then runs. A body executes synchronously up to its first await, and only then is its
 promise memoised; afterwards the runtime wakes waiting bodies and finishes runs in any order.
 */
module BootDispatcher {
  import opened Wrappers
  import opened BootGraph
  import CycleDetector

  /** The promise of a node whose body has been started and memoised. */
  datatype Task = WaitingFor(pos: nat) | Running | Settled(fulfilled: bool)

  /** `started` lists the nodes whose `run` was called, in order. */
  datatype Boot = Boot(tasks: map<string, Task>, report: map<string, Status>, started: seq<string>)

  // ---------------------------------------------------------------- what every moment satisfies

  function Min(a: nat, b: nat): nat {
    if a < b then a else b
  }

  ghost predicate ReportedOk(b: Boot, d: string) {
    d in b.tasks && b.tasks[d] == Settled(true) && d in b.report && b.report[d] == Ok
  }

  /** The first `pos` dependencies of n are behind it: required ones are known and reported ok,
      optional ones that are known have settled, one way or the other. */
  ghost predicate Passed(g: Graph, b: Boot, n: string, pos: nat)
    requires n in g
  {
    && (forall i :: 0 <= i < Min(pos, |g[n].deps|) ==> g[n].deps[i] in g && ReportedOk(b, g[n].deps[i]))
    && (forall j :: |g[n].deps| <= j < pos && j < |AllDeps(g[n])| && AllDeps(g[n])[j] in g ==>
          AllDeps(g[n])[j] in b.tasks && b.tasks[AllDeps(g[n])[j]].Settled?)
  }

  /** A settled node has reported what was expected of it; an unsettled one has reported nothing. */
  ghost predicate TaskFits(g: Graph, rank: map<string, nat>, healthy: set<string>, b: Boot, n: string)
    requires IsRank(g, rank) && n in b.tasks && n in g
  {
    var v := Expected(g, rank, healthy, n);
    match b.tasks[n]
    case Settled(f) =>
      f == v.fulfilled && (n in b.report <==> v.status.Some?) && (n in b.report ==> b.report[n] == v.status.value)
    case Running =>
      n !in b.report && v == ExpectedFrom(g, rank, healthy, n, |g[n].deps|)
    case WaitingFor(pos) =>
      n !in b.report && pos < |AllDeps(g[n])| && AllDeps(g[n])[pos] in g && AllDeps(g[n])[pos] in b.tasks
      && Passed(g, b, n, pos) && v == ExpectedFrom(g, rank, healthy, n, Min(pos, |g[n].deps|))
  }

  ghost predicate HasRun(g: Graph, rank: map<string, nat>, healthy: set<string>, b: Boot, n: string)
    requires IsRank(g, rank) && n in b.tasks && n in g
  {
    b.tasks[n].Running?
    || (b.tasks[n].Settled? && (Expected(g, rank, healthy, n).status == Some(Ok) || Expected(g, rank, healthy, n).status == Some(Failed)))
  }

  ghost predicate Consistent(g: Graph, rank: map<string, nat>, healthy: set<string>, b: Boot)
    requires IsRank(g, rank)
  {
    && b.tasks.Keys <= g.Keys && b.report.Keys <= b.tasks.Keys
    && (forall n :: n in b.tasks ==> TaskFits(g, rank, healthy, b, n))
    && (forall i, j :: 0 <= i < j < |b.started| ==> b.started[i] != b.started[j])
    && (forall n :: n in b.started <==> n in b.tasks && HasRun(g, rank, healthy, b, n))
  }

  /** b' is b with a new state for the unsettled task n, and perhaps its report. */
  ghost predicate Updates(b: Boot, b': Boot, n: string) {
    && (n in b.tasks ==> !b.tasks[n].Settled?) && n !in b.report
    && n in b'.tasks && b'.tasks == b.tasks[n := b'.tasks[n]]
    && (b'.report == b.report || (n in b'.report && b'.report == b.report[n := b'.report[n]]))
  }

  lemma PassedPersists(g: Graph, b: Boot, b': Boot, n: string, k: string, pos: nat)
    requires Updates(b, b', n) && k in g && Passed(g, b, k, pos)
    ensures Passed(g, b', k, pos)
  {
  }

  lemma OthersStillFit(g: Graph, rank: map<string, nat>, healthy: set<string>, b: Boot, b': Boot, n: string, k: string)
    requires IsRank(g, rank) && Updates(b, b', n)
    requires k in b.tasks && k in g && k != n && TaskFits(g, rank, healthy, b, k)
    ensures TaskFits(g, rank, healthy, b', k)
  {
    if b.tasks[k].WaitingFor? { PassedPersists(g, b, b', n, k, b.tasks[k].pos); }
  }

  lemma UpdateKeepsConsistent(g: Graph, rank: map<string, nat>, healthy: set<string>, b: Boot, b': Boot, n: string)
    requires IsRank(g, rank) && Consistent(g, rank, healthy, b) && n in g
    requires Updates(b, b', n) && TaskFits(g, rank, healthy, b', n)
    requires if HasRun(g, rank, healthy, b', n) && !(n in b.tasks && HasRun(g, rank, healthy, b, n))
             then b'.started == b.started + [n]
             else b'.started == b.started
    requires n in b.tasks && HasRun(g, rank, healthy, b, n) ==> HasRun(g, rank, healthy, b', n)
    ensures Consistent(g, rank, healthy, b')
  {
    forall k | k in b'.tasks ensures TaskFits(g, rank, healthy, b', k) {
      if k != n { OthersStillFit(g, rank, healthy, b, b', n, k); }
    }
    StartedFits(g, rank, healthy, b, b', n);
  }

  lemma StartedFits(g: Graph, rank: map<string, nat>, healthy: set<string>, b: Boot, b': Boot, n: string)
    requires IsRank(g, rank) && n in g && b.tasks.Keys <= g.Keys && Updates(b, b', n)
    requires forall k :: k in b.started <==> k in b.tasks && HasRun(g, rank, healthy, b, k)
    requires if HasRun(g, rank, healthy, b', n) && !(n in b.tasks && HasRun(g, rank, healthy, b, n))
             then b'.started == b.started + [n] else b'.started == b.started
    requires n in b.tasks && HasRun(g, rank, healthy, b, n) ==> HasRun(g, rank, healthy, b', n)
    ensures forall k :: k in b'.started <==> k in b'.tasks && HasRun(g, rank, healthy, b', k)
  {
    hide Expected;
    forall k ensures k in b'.started <==> k in b'.tasks && HasRun(g, rank, healthy, b', k) {
      if k != n {
        assert k in b'.started <==> k in b.started;
      }
    }
  }

  lemma UnsettledHasNoReport(g: Graph, rank: map<string, nat>, healthy: set<string>, b: Boot, n: string)
    requires IsRank(g, rank) && Consistent(g, rank, healthy, b)
    requires n in b.tasks ==> !b.tasks[n].Settled?
    ensures n !in b.report
  {
  }

  lemma AwaitKeepsConsistent(g: Graph, rank: map<string, nat>, healthy: set<string>, b: Boot, n: string, p: nat)
    requires IsRank(g, rank) && Consistent(g, rank, healthy, b) && n in g && (n in b.tasks ==> b.tasks[n].WaitingFor?)
    requires p < |AllDeps(g[n])| && AllDeps(g[n])[p] in b.tasks && Passed(g, b, n, p)
    requires Expected(g, rank, healthy, n) == ExpectedFrom(g, rank, healthy, n, Min(p, |g[n].deps|))
    ensures Consistent(g, rank, healthy, b.(tasks := b.tasks[n := WaitingFor(p)]))
  {
    var b' := b.(tasks := b.tasks[n := WaitingFor(p)]);
    UnsettledHasNoReport(g, rank, healthy, b, n);
    PassedPersists(g, b, b', n, n, p);
    UpdateKeepsConsistent(g, rank, healthy, b, b', n);
  }

  lemma RejectKeepsConsistent(g: Graph, rank: map<string, nat>, healthy: set<string>, b: Boot, n: string)
    requires IsRank(g, rank) && Consistent(g, rank, healthy, b) && n in g && (n in b.tasks ==> b.tasks[n].WaitingFor?)
    requires Expected(g, rank, healthy, n) == Verdict(None, false)
    ensures Consistent(g, rank, healthy, b.(tasks := b.tasks[n := Settled(false)]))
  {
    UnsettledHasNoReport(g, rank, healthy, b, n);
    UpdateKeepsConsistent(g, rank, healthy, b, b.(tasks := b.tasks[n := Settled(false)]), n);
  }

  lemma StartKeepsConsistent(g: Graph, rank: map<string, nat>, healthy: set<string>, b: Boot, n: string)
    requires IsRank(g, rank) && Consistent(g, rank, healthy, b) && n in g && (n in b.tasks ==> b.tasks[n].WaitingFor?)
    requires Expected(g, rank, healthy, n) == ExpectedFrom(g, rank, healthy, n, |g[n].deps|)
    ensures Consistent(g, rank, healthy, b.(tasks := b.tasks[n := Running], started := b.started + [n]))
  {
    var b' := b.(tasks := b.tasks[n := Running], started := b.started + [n]);
    UnsettledHasNoReport(g, rank, healthy, b, n);
    UpdateKeepsConsistent(g, rank, healthy, b, b', n);
  }

  lemma SettleKeepsConsistent(g: Graph, rank: map<string, nat>, healthy: set<string>, b: Boot, n: string,
                              status: Status, fulfilled: bool)
    requires IsRank(g, rank) && Consistent(g, rank, healthy, b) && n in g && n in b.tasks && !b.tasks[n].Settled?
    requires Expected(g, rank, healthy, n) == Verdict(Some(status), fulfilled)
    requires b.tasks[n].Running? <==> !status.Skipped?
    ensures Consistent(g, rank, healthy, b.(tasks := b.tasks[n := Settled(fulfilled)], report := b.report[n := status]))
  {
    UnsettledHasNoReport(g, rank, healthy, b, n);
    UpdateKeepsConsistent(g, rank, healthy, b,
      b.(tasks := b.tasks[n := Settled(fulfilled)], report := b.report[n := status]), n);
  }

  /** What waking up tells a body about the dependency it awaited. */
  ghost predicate WakeTells(g: Graph, rank: map<string, nat>, healthy: set<string>, b: Boot, n: string, pos: nat, d: string)
    requires IsRank(g, rank) && n in g && pos < |AllDeps(g[n])| && d in b.tasks && b.tasks[d].Settled?
  {
    var v := Expected(g, rank, healthy, n);
    if pos < |g[n].deps| && !b.tasks[d].fulfilled then v == Verdict(None, false)
    else if pos < |g[n].deps| && d in b.report && b.report[d] != Ok then v == Verdict(Some(Skipped(d)), true)
    else Passed(g, b, n, pos + 1) && v == ExpectedFrom(g, rank, healthy, n, Min(pos + 1, |g[n].deps|))
  }

  lemma WakeFromRequired(g: Graph, rank: map<string, nat>, healthy: set<string>, b: Boot, n: string, pos: nat)
    requires IsRank(g, rank) && n in g && pos < |g[n].deps|
    requires var d := g[n].deps[pos]; d in g && d in b.tasks && b.tasks[d].Settled? && TaskFits(g, rank, healthy, b, d)
    requires Passed(g, b, n, pos) && Expected(g, rank, healthy, n) == ExpectedFrom(g, rank, healthy, n, pos)
    ensures WakeTells(g, rank, healthy, b, n, pos, g[n].deps[pos])
  {
    VerdictShape(g, rank, healthy, g[n].deps[pos], 0);
  }

  lemma WakeFromOptional(g: Graph, rank: map<string, nat>, healthy: set<string>, b: Boot, n: string, pos: nat)
    requires IsRank(g, rank) && n in g && |g[n].deps| <= pos < |AllDeps(g[n])|
    requires AllDeps(g[n])[pos] in b.tasks && b.tasks[AllDeps(g[n])[pos]].Settled?
    requires Passed(g, b, n, pos) && Expected(g, rank, healthy, n) == ExpectedFrom(g, rank, healthy, n, |g[n].deps|)
    ensures WakeTells(g, rank, healthy, b, n, pos, AllDeps(g[n])[pos])
  {
    hide Expected, ExpectedFrom;
  }

  lemma WakeCases(g: Graph, rank: map<string, nat>, healthy: set<string>, b: Boot, n: string)
    requires IsRank(g, rank) && Consistent(g, rank, healthy, b) && n in g && n in b.tasks && b.tasks[n].WaitingFor?
    requires b.tasks[n].pos < |AllDeps(g[n])| && AllDeps(g[n])[b.tasks[n].pos] in b.tasks
    requires b.tasks[AllDeps(g[n])[b.tasks[n].pos]].Settled?
    ensures WakeTells(g, rank, healthy, b, n, b.tasks[n].pos, AllDeps(g[n])[b.tasks[n].pos])
    ensures n !in b.report
  {
    hide Expected, ExpectedFrom, WakeTells;
    var pos := b.tasks[n].pos;
    assert TaskFits(g, rank, healthy, b, n) && TaskFits(g, rank, healthy, b, AllDeps(g[n])[pos]);
    if pos < |g[n].deps| {
      assert AllDeps(g[n])[pos] == g[n].deps[pos];
      WakeFromRequired(g, rank, healthy, b, n, pos);
    } else {
      WakeFromOptional(g, rank, healthy, b, n, pos);
    }
  }

  /** An unknown dependency rejects the body if required and is passed over if optional. */
  lemma UnknownDependency(g: Graph, rank: map<string, nat>, healthy: set<string>, b: Boot, n: string, p: nat)
    requires IsRank(g, rank) && n in g && p < |AllDeps(g[n])| && AllDeps(g[n])[p] !in g && Passed(g, b, n, p)
    requires Expected(g, rank, healthy, n) == ExpectedFrom(g, rank, healthy, n, Min(p, |g[n].deps|))
    ensures if p < |g[n].deps| then Expected(g, rank, healthy, n) == Verdict(None, false)
            else Passed(g, b, n, p + 1)
                 && Expected(g, rank, healthy, n) == ExpectedFrom(g, rank, healthy, n, Min(p + 1, |g[n].deps|))
  {
    if p < |g[n].deps| { assert AllDeps(g[n])[p] == g[n].deps[p]; }
  }

  /** Tasks other than n are as before, or new and below n. */
  ghost predicate Frame(g: Graph, rank: map<string, nat>, b: Boot, b': Boot, n: string)
    requires IsRank(g, rank) && n in g
  {
    && b.tasks.Keys <= b'.tasks.Keys <= g.Keys
    && (forall k :: k in b.tasks && k != n ==> b'.tasks[k] == b.tasks[k])
    && (forall k :: k in b'.tasks && k !in b.tasks && k != n ==> rank[k] < rank[n])
  }

  lemma PassedAfterResolve(g: Graph, rank: map<string, nat>, b: Boot, b': Boot, d: string, n: string, p: nat)
    requires IsRank(g, rank) && d in g && n in g && Frame(g, rank, b, b', d) && b'.report == b.report
    requires d in b.tasks ==> b' == b
    requires Passed(g, b, n, p)
    ensures Passed(g, b', n, p)
  {
  }

  lemma FrameOfOne(g: Graph, rank: map<string, nat>, healthy: set<string>, b: Boot, b': Boot, n: string)
    requires IsRank(g, rank) && n in g && Consistent(g, rank, healthy, b)
    requires n in b'.tasks && b'.tasks == b.tasks[n := b'.tasks[n]]
    ensures Frame(g, rank, b, b', n)
  {
  }

  lemma FrameWidens(g: Graph, rank: map<string, nat>, b: Boot, b': Boot, b'': Boot, d: string, n: string)
    requires IsRank(g, rank) && d in g && n in g && rank[d] < rank[n] && Frame(g, rank, b, b', d)
    requires d in b.tasks ==> b' == b
    requires n in b''.tasks && b''.tasks == b'.tasks[n := b''.tasks[n]]
    ensures Frame(g, rank, b, b'', n) && (n in b'.tasks <==> n in b.tasks) && (n in b.tasks ==> b'.tasks[n] == b.tasks[n])
  {
  }

  // ---------------------------------------------------------------- the order of events

  /** The run of a node begins, or its promise settles with this entry in the report. */
  datatype Moment = Began(name: string) | Ended(name: string, entry: Option<Status>)

  function Starts(log: seq<Moment>): seq<string> {
    if log == [] then []
    else
      var front, last := Starts(log[..|log| - 1]), log[|log| - 1];
      if last.Began? then front + [last.name] else front
  }

  ghost predicate EndedBefore(log: seq<Moment>, i: nat, d: string, entry: Option<Status>)
    requires i <= |log|
  {
    exists j :: 0 <= j < i && log[j] == Ended(d, entry)
  }

  /** Before a run begins, every required dependency has ended with an ok entry and every known
      optional one has ended. */
  ghost predicate InOrder(g: Graph, log: seq<Moment>) {
    forall i, n :: 0 <= i < |log| && log[i] == Began(n) ==>
      n in g
      && (forall d :: d in g[n].deps ==> EndedBefore(log, i, d, Some(Ok)))
      && (forall d :: d in g[n].optionalDeps && d in g ==> exists entry :: EndedBefore(log, i, d, entry))
  }

  function EntryOf(b: Boot, d: string): Option<Status> {
    if d in b.report then Some(b.report[d]) else None
  }

  /** The log records the settled tasks with their entries, and has been in order all along. */
  ghost predicate Logged(g: Graph, b: Boot, log: seq<Moment>) {
    && b.started == Starts(log) && InOrder(g, log)
    && forall d :: d in b.tasks && b.tasks[d].Settled? ==> EndedBefore(log, |log|, d, EntryOf(b, d))
  }

  lemma StartsAppend(log: seq<Moment>, m: Moment)
    ensures Starts(log + [m]) == if m.Began? then Starts(log) + [m.name] else Starts(log)
  {
    assert (log + [m])[..|log|] == log;
  }

  lemma EndedStays(log: seq<Moment>, m: Moment)
    ensures forall i: nat, d, entry :: i <= |log| && EndedBefore(log, i, d, entry) ==> EndedBefore(log + [m], i, d, entry)
  {
    forall i: nat, d, entry | i <= |log| && EndedBefore(log, i, d, entry) ensures EndedBefore(log + [m], i, d, entry) {
      var j :| 0 <= j < i && log[j] == Ended(d, entry);
      assert (log + [m])[j] == log[j];
    }
  }

  lemma InOrderAppend(g: Graph, log: seq<Moment>, m: Moment)
    requires InOrder(g, log)
    requires m.Began? ==>
               m.name in g
               && (forall d :: d in g[m.name].deps ==> EndedBefore(log, |log|, d, Some(Ok)))
               && (forall d :: d in g[m.name].optionalDeps && d in g ==> exists entry :: EndedBefore(log, |log|, d, entry))
    ensures InOrder(g, log + [m])
  {
    hide EndedBefore;
    EndedStays(log, m);
  }

  lemma LoggedEnd(g: Graph, b: Boot, log: seq<Moment>, b': Boot, n: string, entry: Option<Status>)
    requires Logged(g, b, log) && b'.started == b.started && n !in b.report
    requires n in b'.tasks && b'.tasks == b.tasks[n := b'.tasks[n]]
    requires b'.report == if entry.Some? then b.report[n := entry.value] else b.report
    ensures Logged(g, b', log + [Ended(n, entry)])
  {
    var m := Ended(n, entry);
    InOrderAppend(g, log, m);
    EndedStays(log, m);
    assert (log + [m])[..|log|] == log;
    forall d | d in b'.tasks && b'.tasks[d].Settled? ensures EndedBefore(log + [m], |log| + 1, d, EntryOf(b', d)) {
      if d == n {
        assert (log + [m])[|log|] == m;
      } else {
        assert EndedBefore(log, |log|, d, EntryOf(b, d));
        assert EndedBefore(log + [m], |log|, d, EntryOf(b, d));
      }
    }
  }

  lemma LoggedStart(g: Graph, b: Boot, log: seq<Moment>, n: string)
    requires n in g && Logged(g, b, log) && Passed(g, b, n, |AllDeps(g[n])|)
    ensures Logged(g, b.(tasks := b.tasks[n := Running], started := b.started + [n]), log + [Began(n)])
  {
    var m := Began(n);
    var all := AllDeps(g[n]);
    forall d | d in g[n].deps ensures EndedBefore(log, |log|, d, Some(Ok)) {
      assert ReportedOk(b, d);
    }
    forall d | d in g[n].optionalDeps && d in g ensures exists entry :: EndedBefore(log, |log|, d, entry) {
      var i :| 0 <= i < |g[n].optionalDeps| && g[n].optionalDeps[i] == d;
      assert all[|g[n].deps| + i] == d;
      assert EndedBefore(log, |log|, d, EntryOf(b, d));
    }
    InOrderAppend(g, log, m);
    EndedStays(log, m);
    assert (log + [m])[..|log|] == log;
    var b' := b.(tasks := b.tasks[n := Running], started := b.started + [n]);
    forall d | d in b'.tasks && b'.tasks[d].Settled? ensures EndedBefore(log + [m], |log| + 1, d, EntryOf(b', d)) {
      assert EndedBefore(log, |log|, d, EntryOf(b, d));
      assert EndedBefore(log + [m], |log|, d, EntryOf(b, d));
    }
  }

  lemma LoggedWait(g: Graph, b: Boot, log: seq<Moment>, n: string, pos: nat)
    requires Logged(g, b, log)
    ensures Logged(g, b.(tasks := b.tasks[n := WaitingFor(pos)]), log)
  {
  }

  // ---------------------------------------------------------------- progress and the final report

  /** n can make a step: its run can finish, or the promise it awaits has settled. */
  predicate CanStep(g: Graph, b: Boot, n: string) {
    n in b.tasks && n in g &&
    match b.tasks[n]
    case Settled(_) => false
    case Running => true
    case WaitingFor(pos) =>
      pos < |AllDeps(g[n])| && AllDeps(g[n])[pos] in b.tasks && b.tasks[AllDeps(g[n])[pos]].Settled?
  }

  /** Below every unsettled node there is one that can step: nothing waits for ever. */
  lemma {:induction false} NobodyWaitsForever(g: Graph, rank: map<string, nat>, healthy: set<string>, b: Boot, n: string)
    requires IsRank(g, rank) && Consistent(g, rank, healthy, b) && n in b.tasks && !b.tasks[n].Settled?
    ensures exists k :: k in b.tasks && CanStep(g, b, k)
    decreases if n in rank then rank[n] else 0
  {
    assert n in g && TaskFits(g, rank, healthy, b, n);
    if CanStep(g, b, n) {
    } else {
      var d := AllDeps(g[n])[b.tasks[n].pos];
      assert d in AllDeps(g[n]) && d in rank && rank[d] < rank[n];
      NobodyWaitsForever(g, rank, healthy, b, d);
    }
  }

  /** The report every run of the boot ends with. */
  ghost function FinalReport(g: Graph, rank: map<string, nat>, healthy: set<string>): map<string, Status>
    requires IsRank(g, rank)
  {
    map n | n in g && Expected(g, rank, healthy, n).status.Some? :: Expected(g, rank, healthy, n).status.value
  }

  /** A required node that fails leaves those behind it out of the report; they are not skipped. */
  lemma RequiredFailureLeavesNoEntry() returns (nodes: seq<BootNode>, rank: map<string, nat>)
    ensures nodes == [BootNode("a", [], [], false), BootNode("b", ["a"], [], false)] && IsRank(ByName(nodes), rank)
    ensures FinalReport(ByName(nodes), rank, {"b"}) == map["a" := Failed]
  {
    var a, b := BootNode("a", [], [], false), BootNode("b", ["a"], [], false);
    nodes, rank := [a, b], map["a" := 0, "b" := 1];
    assert nodes[..1] == [a] && [a][..0] == [];
    var g := ByName(nodes);
    assert ByName([a]) == map["a" := a];
    assert g == map["a" := a, "b" := b];
    assert "a" in AllDeps(b);
    assert Expected(g, rank, {"b"}, "a") == Verdict(Some(Failed), false);
    assert Expected(g, rank, {"b"}, "b") == Verdict(None, false);
  }

  lemma SettledMeansFinal(g: Graph, rank: map<string, nat>, healthy: set<string>, b: Boot)
    requires IsRank(g, rank) && Consistent(g, rank, healthy, b) && b.tasks.Keys == g.Keys
    requires forall n :: n in b.tasks ==> b.tasks[n].Settled?
    ensures b.report == FinalReport(g, rank, healthy)
    ensures forall n :: n in g ==> b.tasks[n] == Settled(Expected(g, rank, healthy, n).fulfilled)
    ensures forall n :: n in b.started <==>
              n in b.report && (b.report[n] == Ok || b.report[n] == Failed)
  {
    hide Expected;
    forall n | n in g ensures TaskFits(g, rank, healthy, b, n) { }
  }

  /** How far n still has to go. */
  function Remaining(g: Graph, b: Boot, n: string): nat
    requires n in g
  {
    var deps := |AllDeps(g[n])|;
    if n !in b.tasks then deps + 3
    else
      match b.tasks[n]
      case WaitingFor(pos) => if pos < deps then deps + 2 - pos else 2
      case Running => 1
      case Settled(_) => 0
  }

  function TotalRemaining(g: Graph, b: Boot, names: seq<string>): nat
    requires forall i :: 0 <= i < |names| ==> names[i] in g
  {
    if names == [] then 0
    else TotalRemaining(g, b, names[..|names| - 1]) + Remaining(g, b, names[|names| - 1])
  }

  lemma {:induction false} TotalFalls(g: Graph, b: Boot, b': Boot, names: seq<string>, n: string)
    requires forall i :: 0 <= i < |names| ==> names[i] in g
    requires forall k :: k in g ==> Remaining(g, b', k) <= Remaining(g, b, k)
    requires n in g && Remaining(g, b', n) < Remaining(g, b, n)
    ensures TotalRemaining(g, b', names) <= TotalRemaining(g, b, names)
    ensures n in names ==> TotalRemaining(g, b', names) < TotalRemaining(g, b, names)
  {
    if names != [] {
      var front, last := names[..|names| - 1], names[|names| - 1];
      TotalFalls(g, b, b', front, n);
      assert names == front + [last];
    }
  }

  // ---------------------------------------------------------------- the dispatcher

  /** Every task has its body, and the bodies are as the whole boot will have them. */
  ghost predicate BodiesFit(nodeMap: Graph, g: Graph, rank: map<string, nat>, bodies: Graph, tasks: map<string, Task>) {
    && bodies.Keys == tasks.Keys && Extends(g, bodies) && WellNamed(g) && IsRank(nodeMap, rank) && WellNamed(nodeMap)
    && g.Keys == nodeMap.Keys && (forall n :: n in g ==> Ranked(nodeMap, rank, g[n]))
  }

  lemma BodiesStillFit(nodeMap: Graph, g: Graph, rank: map<string, nat>, bodies: Graph, tasks: map<string, Task>, node: BootNode, t: Task)
    requires BodiesFit(nodeMap, g, rank, bodies, tasks) && node.name in g && g[node.name] == node
    ensures BodiesFit(nodeMap, g, rank, bodies[node.name := node], tasks[node.name := t])
  {
  }

  lemma TaskStillFits(nodeMap: Graph, g: Graph, rank: map<string, nat>, bodies: Graph, tasks: map<string, Task>, n: string, t: Task)
    requires BodiesFit(nodeMap, g, rank, bodies, tasks) && n in tasks
    ensures BodiesFit(nodeMap, g, rank, bodies, tasks[n := t])
  {
  }

  lemma FitMeans(nodeMap: Graph, g: Graph, rank: map<string, nat>, bodies: Graph, tasks: map<string, Task>)
    requires BodiesFit(nodeMap, g, rank, bodies, tasks)
    ensures bodies.Keys == tasks.Keys && Extends(g, bodies) && g.Keys == nodeMap.Keys && WellNamed(g)
    ensures IsRank(nodeMap, rank) && WellNamed(nodeMap) && forall n :: n in g ==> Ranked(nodeMap, rank, g[n])
    ensures tasks.Keys == g.Keys ==> bodies == g
  {
  }

  /** `g` are the bodies that the whole boot will have started, one for each name; `bodies` those
      started so far, and `nodeMap` the node that dependents find for a name. */
  class Dispatcher {
    const nodeMap: Graph
    ghost const g: Graph
    ghost const rank: map<string, nat>
    const healthy: set<string>
    var bodies: Graph
    var tasks: map<string, Task>
    var report: map<string, Status>
    var log: seq<Moment>

    function View(): Boot
      reads this
    {
      Boot(tasks, report, Starts(log))
    }

    ghost predicate Valid()
      reads this
    {
      IsRank(g, rank) && Consistent(g, rank, healthy, View()) && Logged(g, View(), log)
      && BodiesFit(nodeMap, g, rank, bodies, tasks)
    }

    constructor (nodes: seq<BootNode>, ghost rank: map<string, nat>, healthy: set<string>)
      requires IsRankOfAll(nodes, rank)
      ensures Valid() && View() == Boot(map[], map[], []) && bodies == map[]
      ensures nodeMap == ByName(nodes) && g == Bodies(nodes, rank) && this.rank == rank && this.healthy == healthy
    {
      RankOfAllIsRank(nodes, rank);
      BodiesAreRanked(nodes, rank);
      this.nodeMap := ByName(nodes);
      this.g := Bodies(nodes, rank);
      this.rank := rank;
      this.healthy := healthy;
      bodies, tasks, report, log := map[], map[], map[], [];
    }

    /** `resolve`: the promise of that name, starting the body of this node if nobody has started one. */
    method Resolve(node: BootNode)
      requires Valid() && node.name in g && IsRank(nodeMap, rank) && WellNamed(nodeMap) && Ranked(nodeMap, rank, node)
      requires Extends(g, Chosen(nodeMap, rank, bodies, node))
      modifies this
      ensures Valid() && node.name in tasks && report == old(report) && old(log) <= log
      ensures Frame(g, rank, old(View()), View(), node.name) && (node.name in old(tasks) ==> View() == old(View()))
      ensures bodies == Chosen(nodeMap, rank, old(bodies), node)
      decreases rank[node.name], 1
    {
      hide Consistent, Expected, ExpectedFrom, Passed, Logged, IsRank, BodiesFit, BodiesWith, FirstKnown;
      FitMeans(nodeMap, g, rank, bodies, tasks);
      if node.name in tasks { return; }
      ghost var c := bodies;
      ChosenStarts(nodeMap, g, rank, c, node);
      NothingPassed(g, View(), node.name);
      ExpectedAtStart(g, rank, healthy, node.name);
      ContinueBody(node, 0);
    }

    /** The body of a node from its pos-th dependency on, up to its next await. */
    method ContinueBody(node: BootNode, pos: nat)
      requires Valid() && node.name in g && g[node.name] == node && pos <= |AllDeps(node)|
      requires IsRank(nodeMap, rank) && WellNamed(nodeMap)
      requires node.name in tasks ==> tasks[node.name].WaitingFor? && tasks[node.name].pos < pos
      requires Passed(g, View(), node.name, pos)
      requires Expected(g, rank, healthy, node.name) == ExpectedFrom(g, rank, healthy, node.name, Min(pos, |node.deps|))
      requires Extends(g, BodiesWith(nodeMap, rank, bodies, FirstKnown(nodeMap, node, pos)))
      modifies this
      ensures Valid() && node.name in tasks && report == old(report) && old(log) <= log
      ensures Frame(g, rank, old(View()), View(), node.name)
      ensures tasks[node.name].WaitingFor? ==> tasks[node.name].pos >= pos
      ensures bodies == BodiesWith(nodeMap, rank, old(bodies), FirstKnown(nodeMap, node, pos))[node.name := node]
      decreases rank[node.name], 0, 1
    {
      hide Consistent, Expected, ExpectedFrom, Passed, Frame, Logged, Chosen, BodiesFit, BodiesWith, IsRank, Ranked, FirstKnown, Extends, WellNamed, Starts;
      FitMeans(nodeMap, g, rank, bodies, tasks);
      ghost var b := View();
      var n, deps := node.name, AllDeps(node);
      NothingToStart(nodeMap, rank, bodies);
      var p := pos;
      while p < |deps|
        invariant pos <= p <= |deps| && View() == b && log == old(log) && bodies == old(bodies)
        invariant Passed(g, b, n, p)
        invariant Expected(g, rank, healthy, n) == ExpectedFrom(g, rank, healthy, n, Min(p, |node.deps|))
        invariant FirstKnown(nodeMap, node, pos) == FirstKnown(nodeMap, node, p)
      {
        FirstKnownStep(nodeMap, node, p);
        if deps[p] in nodeMap {
          AwaitDependency(node, p);
          return;
        }
        UnknownDependency(g, rank, healthy, b, n, p);
        if p < |node.deps| {
          RejectTask(node);
          FrameOfOne(g, rank, healthy, b, View(), n);
          return;
        }
        p := p + 1;
      }
      FirstKnownStep(nodeMap, node, p);
      StartRun(node);
      FrameOfOne(g, rank, healthy, b, View(), n);
    }

    /** Resolve the p-th dependency, which is known, and wait for it. */
    method AwaitDependency(node: BootNode, p: nat)
      requires Valid() && node.name in g && g[node.name] == node && p < |AllDeps(node)| && AllDeps(node)[p] in nodeMap
      requires IsRank(nodeMap, rank) && WellNamed(nodeMap)
      requires node.name in tasks ==> tasks[node.name].WaitingFor?
      requires Passed(g, View(), node.name, p)
      requires Expected(g, rank, healthy, node.name) == ExpectedFrom(g, rank, healthy, node.name, Min(p, |node.deps|))
      requires Extends(g, BodiesWith(nodeMap, rank, bodies, Some(AllDeps(node)[p])))
      modifies this
      ensures Valid() && node.name in tasks && tasks[node.name] == WaitingFor(p) && report == old(report) && old(log) <= log
      ensures Frame(g, rank, old(View()), View(), node.name)
      ensures bodies == BodiesWith(nodeMap, rank, old(bodies), Some(AllDeps(node)[p]))[node.name := node]
      decreases rank[node.name], 0, 0
    {
      hide Consistent, Expected, ExpectedFrom, Passed, Frame, Logged, Chosen, BodiesFit, BodiesWith, IsRank, Ranked, AllDeps, Extends, WellNamed, Starts;
      FitMeans(nodeMap, g, rank, bodies, tasks);
      ghost var b := View();
      var n, d := node.name, AllDeps(node)[p];
      RankedInGraph(nodeMap, rank, d);
      DependencyBelow(nodeMap, g, rank, node, d);
      StartsDependency(nodeMap, rank, bodies, d);
      Resolve(nodeMap[d]);
      ghost var b' := View();
      PassedAfterResolve(g, rank, b, b', d, n, p);
      FrameWidens(g, rank, b, b', b'.(tasks := b'.tasks[n := WaitingFor(p)]), d, n);
      Await(node, p);
    }

    method Await(node: BootNode, p: nat)
      requires Valid() && node.name in g && g[node.name] == node
      requires p < |AllDeps(node)| && AllDeps(node)[p] in tasks
      requires node.name in tasks ==> tasks[node.name].WaitingFor?
      requires Passed(g, View(), node.name, p)
      requires Expected(g, rank, healthy, node.name) == ExpectedFrom(g, rank, healthy, node.name, Min(p, |node.deps|))
      modifies `tasks, `bodies
      ensures Valid() && tasks == old(tasks)[node.name := WaitingFor(p)] && bodies == old(bodies)[node.name := node]
    {
      hide Consistent, Expected, ExpectedFrom, Passed, IsRank, Logged, BodiesFit;
      AwaitKeepsConsistent(g, rank, healthy, View(), node.name, p);
      LoggedWait(g, View(), log, node.name, p);
      BodiesStillFit(nodeMap, g, rank, bodies, tasks, node, WaitingFor(p));
      tasks, bodies := tasks[node.name := WaitingFor(p)], bodies[node.name := node];
    }

    method RejectTask(node: BootNode)
      requires Valid() && node.name in g && g[node.name] == node
      requires node.name in tasks ==> tasks[node.name].WaitingFor?
      requires Expected(g, rank, healthy, node.name) == Verdict(None, false)
      modifies `tasks, `bodies, `log
      ensures Valid() && tasks == old(tasks)[node.name := Settled(false)] && bodies == old(bodies)[node.name := node]
      ensures log == old(log) + [Ended(node.name, None)]
    {
      hide Consistent, Expected, IsRank, Logged, BodiesFit, Starts;
      var n := node.name;
      ghost var b := View();
      UnsettledHasNoReport(g, rank, healthy, b, n);
      RejectKeepsConsistent(g, rank, healthy, b, n);
      BodiesStillFit(nodeMap, g, rank, bodies, tasks, node, Settled(false));
      LoggedEnd(g, b, log, b.(tasks := b.tasks[n := Settled(false)]), n, None);
      StartsAppend(log, Ended(n, None));
      tasks, bodies := tasks[n := Settled(false)], bodies[n := node];
      log := log + [Ended(n, None)];
    }

    method StartRun(node: BootNode)
      requires Valid() && node.name in g && g[node.name] == node
      requires node.name in tasks ==> tasks[node.name].WaitingFor?
      requires Passed(g, View(), node.name, |AllDeps(node)|)
      requires Expected(g, rank, healthy, node.name) == ExpectedFrom(g, rank, healthy, node.name, |node.deps|)
      modifies `tasks, `bodies, `log
      ensures Valid() && tasks == old(tasks)[node.name := Running] && bodies == old(bodies)[node.name := node]
      ensures log == old(log) + [Began(node.name)]
    {
      hide Consistent, Expected, ExpectedFrom, Passed, IsRank, Logged, BodiesFit;
      var n := node.name;
      BodiesStillFit(nodeMap, g, rank, bodies, tasks, node, Running);
      StartKeepsConsistent(g, rank, healthy, View(), n);
      LoggedStart(g, View(), log, n);
      StartsAppend(log, Began(n));
      tasks, bodies := tasks[n := Running], bodies[n := node];
      log := log + [Began(n)];
    }

    method Settle(n: string, status: Status, fulfilled: bool)
      requires Valid() && n in g && n in tasks && !tasks[n].Settled?
      requires Expected(g, rank, healthy, n) == Verdict(Some(status), fulfilled)
      requires tasks[n].Running? <==> !status.Skipped?
      modifies `tasks, `report, `log
      ensures Valid() && tasks == old(tasks)[n := Settled(fulfilled)] && report == old(report)[n := status]
      ensures log == old(log) + [Ended(n, Some(status))]
    {
      hide Consistent, Expected, IsRank, Logged, BodiesFit;
      ghost var b, l := View(), log;
      TaskStillFits(nodeMap, g, rank, bodies, tasks, n, Settled(fulfilled));
      UnsettledHasNoReport(g, rank, healthy, b, n);
      SettleKeepsConsistent(g, rank, healthy, b, n, status, fulfilled);
      report := report[n := status];
      tasks := tasks[n := Settled(fulfilled)];
      log := log + [Ended(n, Some(status))];
      StartsAppend(l, Ended(n, Some(status)));
      LoggedEnd(g, b, l, View(), n, Some(status));
    }

    predicate CanWake(n: string)
      reads this
    {
      n in bodies && n in tasks && tasks[n].WaitingFor?
      && tasks[n].pos < |AllDeps(bodies[n])| && AllDeps(bodies[n])[tasks[n].pos] in tasks
      && tasks[AllDeps(bodies[n])[tasks[n].pos]].Settled?
    }

    /** The promise n awaits has settled. By then every name has a body. */
    method Wake(n: string)
      requires Valid() && CanWake(n) && tasks.Keys == g.Keys
      modifies this
      ensures Valid() && n in tasks && Frame(g, rank, old(View()), View(), n)
      ensures tasks[n].WaitingFor? ==> tasks[n].pos > old(tasks[n].pos)
    {
      hide Consistent, Expected, ExpectedFrom, Passed, Frame, Logged, Chosen, BodiesFit, BodiesWith, IsRank, FirstKnown, Ranked;
      FitMeans(nodeMap, g, rank, bodies, tasks);
      ghost var b := View();
      var node, pos := bodies[n], tasks[n].pos;
      assert node == g[n] && node.name == n;
      WakeCases(g, rank, healthy, b, n);
      var d := AllDeps(node)[pos];
      if pos < |node.deps| {
        if !tasks[d].fulfilled {
          RejectTask(node);
          FrameOfOne(g, rank, healthy, b, View(), n);
          return;
        }
        if d in report && report[d] != Ok {
          Settle(n, Skipped(d), true);
          FrameOfOne(g, rank, healthy, b, View(), n);
          return;
        }
      }
      NoNewBodies(nodeMap, g, rank, bodies, FirstKnown(nodeMap, node, pos + 1));
      ContinueBody(node, pos + 1);
    }

    /** The run of n has succeeded or thrown. */
    method RunSettled(n: string, succeeded: bool)
      requires Valid() && n in tasks && tasks[n].Running? && (succeeded <==> n in healthy)
      modifies `tasks, `report, `log
      ensures Valid() && tasks == old(tasks)[n := Settled(succeeded || g[n].optional)]
    {
      hide BodiesFit, Logged;
      FitMeans(nodeMap, g, rank, bodies, tasks);
      if succeeded {
        Settle(n, Ok, true);
      } else {
        Settle(n, Failed, bodies[n].optional);
      }
    }

    /** Whatever can happen next to n. */
    method Advance(n: string, succeeded: bool)
      requires Valid() && tasks.Keys == g.Keys && CanStep(g, View(), n) && (succeeded <==> n in healthy)
      modifies this
      ensures Valid() && Frame(g, rank, old(View()), View(), n)
      ensures n in g && Remaining(g, View(), n) < Remaining(g, old(View()), n)
    {
      hide Consistent, Expected, ExpectedFrom, Logged, BodiesFit, IsRank, Frame, Remaining;
      FitMeans(nodeMap, g, rank, bodies, tasks);
      ghost var b := View();
      if tasks[n].Running? {
        RunSettled(n, succeeded);
        FrameOfOne(g, rank, healthy, b, View(), n);
      } else {
        Wake(n);
      }
      StepLowers(g, b, View(), n);
    }

    /** Every node is resolved once, in the order given, before anything can wake. */
    method ResolveAll(nodes: seq<BootNode>)
      requires Valid() && IsRankOfAll(nodes, rank) && nodeMap == ByName(nodes) && g == Bodies(nodes, rank) && bodies == map[]
      modifies this
      ensures Valid() && tasks.Keys == g.Keys
    {
      hide Consistent, Logged, IsRank, ByName, Frame, Chosen, BodiesAfter, BodiesFit;
      NoBodiesYet(nodes, rank);
      for i := 0 to |nodes|
        invariant Valid() && bodies == BodiesAfter(nodes, rank, i)
      {
        ResolvesNext(nodes, rank, i);
        Resolve(nodes[i]);
      }
      FitMeans(nodeMap, g, rank, bodies, tasks);
    }

    /** Let whoever can step do so, in any order, until nobody can. */
    method Drain(names: seq<string>)
      requires Valid() && tasks.Keys == g.Keys && forall n :: n in g <==> n in names
      modifies this
      ensures Valid() && tasks.Keys == g.Keys
      ensures forall n :: n in tasks ==> !CanStep(g, View(), n)
    {
      hide Consistent, Expected, CanStep, Remaining, Logged, BodiesFit, IsRank, Frame;
      FitMeans(nodeMap, g, rank, bodies, tasks);
      var ready := set n | n in tasks && CanStep(bodies, View(), n);
      while ready != {}
        invariant Valid() && tasks.Keys == g.Keys && bodies == g
        invariant ready == set n | n in tasks && CanStep(g, View(), n)
        decreases TotalRemaining(g, View(), names)
      {
        var n :| n in ready;
        ghost var before := View();
        Advance(n, n in healthy);
        FrameNeverAddsWork(g, rank, healthy, before, View(), n);
        TotalFalls(g, before, View(), names, n);
        FitMeans(nodeMap, g, rank, bodies, tasks);
        FrameKeepsKeys(g, rank, before, View(), n);
        ready := set n | n in tasks && CanStep(bodies, View(), n);
      }
      forall n | n in tasks ensures !CanStep(g, View(), n) {
        assert n !in ready;
      }
    }
  }

  lemma StepLowers(g: Graph, b: Boot, b': Boot, n: string)
    requires n in g && CanStep(g, b, n) && n in b'.tasks
    requires if b.tasks[n].Running? then b'.tasks[n].Settled? else b'.tasks[n].WaitingFor? ==> b'.tasks[n].pos > b.tasks[n].pos
    ensures Remaining(g, b', n) < Remaining(g, b, n)
  {
  }

  lemma FrameKeepsKeys(g: Graph, rank: map<string, nat>, b: Boot, b': Boot, n: string)
    requires IsRank(g, rank) && n in g && Frame(g, rank, b, b', n) && b.tasks.Keys == g.Keys
    ensures b'.tasks.Keys == g.Keys
  {
  }

  // ---------------------------------------------------------------- which bodies are started

  /** The bodies started once the dependency at which a body waits, if any, has been resolved. */
  ghost function BodiesWith(g: Graph, rank: map<string, nat>, c: Graph, d: Option<string>): Graph
    requires IsRank(g, rank) && WellNamed(g) && (d.Some? ==> d.value in g)
  {
    if d.None? then c
    else
      RankedInGraph(g, rank, d.value);
      Chosen(g, rank, c, g[d.value])
  }

  lemma NothingToStart(g: Graph, rank: map<string, nat>, c: Graph)
    requires IsRank(g, rank) && WellNamed(g)
    ensures BodiesWith(g, rank, c, None) == c
  {
  }

  lemma StartsDependency(g: Graph, rank: map<string, nat>, c: Graph, d: string)
    requires IsRank(g, rank) && WellNamed(g) && d in g && Ranked(g, rank, g[d])
    ensures BodiesWith(g, rank, c, Some(d)) == Chosen(g, rank, c, g[d])
  {
  }

  lemma FirstKnownStep(g: Graph, node: BootNode, p: nat)
    requires p <= |AllDeps(node)|
    ensures FirstKnown(g, node, p) ==
              if p == |AllDeps(node)| then None
              else if AllDeps(node)[p] in g then Some(AllDeps(node)[p])
              else if p < |node.deps| then None
              else FirstKnown(g, node, p + 1)
  {
  }

  /** A first body: what it starts before it is memoised does not have its name. */
  lemma ChosenStarts(nodeMap: Graph, g: Graph, rank: map<string, nat>, c: Graph, node: BootNode)
    requires IsRank(nodeMap, rank) && WellNamed(nodeMap) && Ranked(nodeMap, rank, node) && node.name !in c
    requires Extends(g, Chosen(nodeMap, rank, c, node))
    ensures node.name in g && g[node.name] == node
    ensures var with := BodiesWith(nodeMap, rank, c, FirstKnown(nodeMap, node, 0));
            Extends(g, with) && Chosen(nodeMap, rank, c, node) == with[node.name := node]
  {
    var d := FirstKnown(nodeMap, node, 0);
    if d.Some? {
      RankedInGraph(nodeMap, rank, d.value);
      ChosenFacts(nodeMap, rank, c, nodeMap[d.value]);
    }
    assert Chosen(nodeMap, rank, c, node) == BodiesWith(nodeMap, rank, c, d)[node.name := node];
    hide Chosen;
    assert node.name !in BodiesWith(nodeMap, rank, c, d);
  }

  /** Once every name has a body, resolving starts none. */
  lemma NoNewBodies(nodeMap: Graph, g: Graph, rank: map<string, nat>, bodies: Graph, d: Option<string>)
    requires IsRank(nodeMap, rank) && WellNamed(nodeMap) && (d.Some? ==> d.value in nodeMap && d.value in bodies)
    ensures BodiesWith(nodeMap, rank, bodies, d) == bodies
  {
  }

  lemma NoBodiesYet(nodes: seq<BootNode>, rank: map<string, nat>)
    requires IsRankOfAll(nodes, rank)
    ensures BodiesAfter(nodes, rank, 0) == map[]
  {
  }

  lemma ResolvesNext(nodes: seq<BootNode>, rank: map<string, nat>, i: nat)
    requires IsRankOfAll(nodes, rank) && i < |nodes|
    ensures IsRank(ByName(nodes), rank) && WellNamed(ByName(nodes)) && Ranked(ByName(nodes), rank, nodes[i])
    ensures BodiesAfter(nodes, rank, i + 1) == Chosen(ByName(nodes), rank, BodiesAfter(nodes, rank, i), nodes[i])
    ensures Extends(Bodies(nodes, rank), BodiesAfter(nodes, rank, i + 1)) && nodes[i].name in Bodies(nodes, rank)
  {
    RankOfAllIsRank(nodes, rank);
    NodeIsRanked(nodes, rank, i);
    BodiesGrow(nodes, rank, i + 1, |nodes|);
    BodiesAreNodes(nodes, rank, |nodes|);
  }

  lemma DependencyBelow(nodeMap: Graph, g: Graph, rank: map<string, nat>, node: BootNode, d: string)
    requires Ranked(nodeMap, rank, node) && d in AllDeps(node) && d in nodeMap && WellNamed(nodeMap)
    requires g.Keys == nodeMap.Keys
    ensures d in rank && node.name in rank && rank[d] < rank[node.name] && nodeMap[d].name == d && d in g
  {
  }

  lemma NothingPassed(g: Graph, b: Boot, n: string)
    requires n in g
    ensures Passed(g, b, n, 0)
  {
  }

  lemma ExpectedAtStart(g: Graph, rank: map<string, nat>, healthy: set<string>, n: string)
    requires IsRank(g, rank) && n in g
    ensures Expected(g, rank, healthy, n) == ExpectedFrom(g, rank, healthy, n, Min(0, |g[n].deps|))
  {
  }

  lemma FrameNeverAddsWork(g: Graph, rank: map<string, nat>, healthy: set<string>, b: Boot, b': Boot, n: string)
    requires IsRank(g, rank) && Consistent(g, rank, healthy, b) && n in g && Frame(g, rank, b, b', n)
    requires Remaining(g, b', n) <= Remaining(g, b, n)
    ensures forall k :: k in g ==> Remaining(g, b', k) <= Remaining(g, b, k)
  {
  }

  /** `bootGraph` on nodes that some rank orders, those of equal name included. The order in which
      waiting bodies wake and runs finish is arbitrary; whatever it is, the boot ends, with the same
      report, every promise settled, one body started for each name, and every body run at most once
      and exactly if it reports ok or failed. */
  method RunBoot(nodes: seq<BootNode>, ghost rank: map<string, nat>, healthy: set<string>) returns (b: Boot, log: seq<Moment>)
    requires IsRankOfAll(nodes, rank)
    ensures var g := Bodies(nodes, rank);
            && g.Keys == ByName(nodes).Keys && IsRank(g, rank) && (forall n :: n in g ==> g[n] in nodes && g[n].name == n)
            && (DistinctNames(nodes) ==> g == ByName(nodes))
            && b.report == FinalReport(g, rank, healthy)
            && (forall n :: n in g ==> n in b.tasks && b.tasks[n] == Settled(Expected(g, rank, healthy, n).fulfilled))
            && (forall i, j :: 0 <= i < j < |b.started| ==> b.started[i] != b.started[j])
            && (forall n :: n in b.started <==> n in b.report && (b.report[n] == Ok || b.report[n] == Failed))
            && b.started == Starts(log) && InOrder(g, log)
  {
    BodiesAreRanked(nodes, rank);
    BodiesAreNodes(nodes, rank, |nodes|);
    if DistinctNames(nodes) { DistinctBodies(nodes, rank); }
    hide Consistent, Expected, FinalReport, CanStep, IsRankOfAll, BodiesAfter, DistinctNames;
    var d := new Dispatcher(nodes, rank, healthy);
    d.ResolveAll(nodes);
    EveryNodeIsNamed(nodes);
    d.Drain(NamesOf(nodes));
    b, log := d.View(), d.log;
    forall n | n in b.tasks ensures b.tasks[n].Settled? {
      if !b.tasks[n].Settled? {
        NobodyWaitsForever(d.g, rank, healthy, b, n);
      }
    }
    SettledMeansFinal(d.g, rank, healthy, b);
    StartedOnce(d.g, rank, healthy, b);
  }

  lemma StartedOnce(g: Graph, rank: map<string, nat>, healthy: set<string>, b: Boot)
    requires IsRank(g, rank) && Consistent(g, rank, healthy, b)
    ensures forall i, j :: 0 <= i < j < |b.started| ==> b.started[i] != b.started[j]
  {
  }

  lemma KnownTasks(g: Graph, rank: map<string, nat>, healthy: set<string>, b: Boot)
    requires IsRank(g, rank) && Consistent(g, rank, healthy, b)
    ensures b.tasks.Keys <= g.Keys
  {
  }

  function NamesOf(nodes: seq<BootNode>): (names: seq<string>)
    ensures |names| == |nodes| && forall i :: 0 <= i < |nodes| ==> names[i] == nodes[i].name
  {
    seq(|nodes|, i requires 0 <= i < |nodes| => nodes[i].name)
  }

  lemma EveryNodeIsNamed(nodes: seq<BootNode>)
    ensures forall n :: n in ByName(nodes) <==> n in NamesOf(nodes)
  {
    var g, names := ByName(nodes), NamesOf(nodes);
    forall n | n in g ensures n in names {
      var i :| 0 <= i < |nodes| && nodes[i] == g[n];
      assert names[i] == n;
    }
  }

  lemma ReportedOkIfAllHealthy(g: Graph, rank: map<string, nat>, healthy: set<string>, n: string)
    requires IsRank(g, rank) && n in g
    ensures var report := FinalReport(g, rank, healthy);
            n in report && report[n] == Ok <==> forall k :: Needs(g, n, k) ==> k in g && k in healthy
  {
    hide Expected, Needs;
    OkExactlyIfAllNeedsHealthy(g, rank, healthy, n);
  }

  /** No rank has to be supplied: it is enough that no cycle goes through any of the nodes, which is
      what the detector's null says of nodes with distinct names. `Tells` says which entry each node
      then has in the report. */
  method BootAcyclic(nodes: seq<BootNode>, healthy: set<string>)
    returns (b: Boot, log: seq<Moment>, ghost g: Graph, ghost rank: map<string, nat>)
    requires Acyclic(ByName(Merged(nodes)))
    ensures g.Keys == ByName(nodes).Keys && (forall n :: n in g ==> g[n] in nodes && g[n].name == n)
    ensures DistinctNames(nodes) ==> g == ByName(nodes)
    ensures IsRank(g, rank) && b.report == FinalReport(g, rank, healthy) && Tells(g, healthy, b.report)
    ensures forall n :: n in g ==> n in b.tasks && b.tasks[n].Settled?
    ensures b.started == Starts(log) && InOrder(g, log)
    ensures forall i, j :: 0 <= i < j < |b.started| ==> b.started[i] != b.started[j]
  {
    hide Fine, Acyclic, BrokenBelow, InOrder, IsRankOfAll, DistinctNames, Bodies, IsRank, Expected, FinalReport, Tells;
    var cycle;
    cycle, rank := CycleDetector.DetectCycle(Merged(nodes));
    MergedRank(nodes, rank);
    g := Bodies(nodes, rank);
    b, log := RunBoot(nodes, rank, healthy);
    ReportMeans(g, rank, healthy);
  }

  lemma ReportMeans(g: Graph, rank: map<string, nat>, healthy: set<string>)
    requires IsRank(g, rank)
    ensures Tells(g, healthy, FinalReport(g, rank, healthy))
  {
    hide Expected, Needs, BrokenBelow, IsRank, FineUpTo, FirstTrouble, LeadsToCulprit;
    forall n | n in g ensures TellsOf(g, healthy, n, EntryIn(FinalReport(g, rank, healthy), n)) {
      ReportedOkIfAllHealthy(g, rank, healthy, n);
      NoEntryExactly(g, rank, healthy, n);
      FailedAndSkippedExactly(g, rank, healthy, n);
    }
  }

  function EntryIn(report: map<string, Status>, n: string): Option<Status> {
    if n in report then Some(report[n]) else None
  }

  /** What the report must have on n: ok exactly if all it needs, directly or not, is known and healthy;
      failed exactly if only the node itself is not; skipped, naming d, exactly if d is its first trouble
      and leads to no culprit; nothing exactly if it leads to one. */
  ghost predicate TellsOf(g: Graph, healthy: set<string>, n: string, entry: Option<Status>)
    requires n in g
  {
    && (entry == Some(Ok) <==> Fine(g, healthy, n))
    && (entry == Some(Failed) <==> FineUpTo(g, healthy, n, |g[n].deps|) && n !in healthy)
    && (forall d :: entry == Some(Skipped(d)) <==> FirstTrouble(g, healthy, n, d) && !LeadsToCulprit(g, healthy, d))
    && (entry == None <==> BrokenBelow(g, healthy, n))
  }

  ghost predicate Tells(g: Graph, healthy: set<string>, report: map<string, Status>) {
    report.Keys <= g.Keys && forall n :: n in g ==> TellsOf(g, healthy, n, EntryIn(report, n))
  }

  /** As the boot is started: a null of the detector, and distinct names, are enough. */
  method DetectAndBoot(nodes: seq<BootNode>, healthy: set<string>)
    returns (cycle: Option<seq<string>>, b: Option<Boot>, ghost rank: map<string, nat>)
    requires DistinctNames(nodes)
    ensures cycle.None? <==> Acyclic(ByName(nodes))
    ensures cycle.Some? ==> ClosesCycle(ByName(nodes), cycle.value) && b.None?
    ensures cycle.None? ==>
              b.Some? && IsRank(ByName(nodes), rank) && b.value.report == FinalReport(ByName(nodes), rank, healthy)
              && Tells(ByName(nodes), healthy, b.value.report)
  {
    hide Tells;
    cycle, rank := CycleDetector.DetectCycle(nodes);
    if cycle.Some? { return cycle, None, rank; }
    DistinctMerged(nodes);
    var boot, _, _, ranked := BootAcyclic(nodes, healthy);
    return cycle, Some(boot), ranked;
  }
}
