/**
 What the operations of the request outbox answer and store, field by field and without the functions
 that compute it.
 */
module OutboxAnswers {
  import opened Wrappers
  import opened Outbox
  import opened OutboxRuns
  import opened RequestOutbox

  // ---------------------------------------------------------------- admission

  /** The entry of this request as it is when admitted. */
  predicate IsAdmission(e: Entry, q: Request, now: int, deadlineAt: int) {
    IsRequest(e, q, now, deadlineAt)
    && e.state == Admitted && e.attempts == 0 && e.lastAttemptAt == Unset && e.nextAttemptAt == None && e.lastFailure == None
  }

  /** A true answer: the request is the last entry, in memory and on disk, and the others are as they were. */
  lemma AppendStores(cfg: Config, b: Box, q: Request, now: int, io: Io)
    requires Perform(cfg, b, Append(q, now), io).ok
    ensures var b', n := Perform(cfg, b, Append(q, now), io).box, |b.entries|;
            && |b'.entries| == n + 1 && b'.entries[..n] == b.entries
            && IsAdmission(b'.entries[n], q, now, now + cfg.retryDeadlineMs)
            && OwnFile(cfg, b'.disk) && Stored(cfg, b'.disk) == b'.entries
            && !b'.degraded && !b'.quarantined && b'.disk.quarantine == b.disk.quarantine
  {
    hide FileBytes, EntryBytes;
    WrittenIsStored(cfg, b.disk, b.entries + [NewEntry(cfg, q, now)]);
  }

  /** The answer is true exactly if nothing was ever lost, there is room for one more entry of that size,
      and the file with it is small enough and written; a false one leaves the entries as they were. */
  lemma AppendAnswers(cfg: Config, b: Box, q: Request, now: int, io: Io, e: Entry)
    requires IsAdmission(e, q, now, now + cfg.retryDeadlineMs)
    ensures var r := Perform(cfg, b, Append(q, now), io);
            && (r.ok <==>
                  && !b.quarantined && !b.degraded && |b.entries| < 200 && EntryBytes(e) <= 524_288
                  && FileBytes(cfg.peer, b.entries + [e]) <= 10_000_000 && io.writes)
            && !r.threw
            && (!r.ok ==> r.box.entries == b.entries && r.box.disk == b.disk && r.box.quarantined == b.quarantined)
            && (r.box.degraded <==>
                  b.degraded || (!b.quarantined && |b.entries| < 200 && EntryBytes(e) <= 524_288
                                 && !(FileBytes(cfg.peer, b.entries + [e]) <= 10_000_000 && io.writes)))
  {
    hide FileBytes, EntryBytes;
    assert e == NewEntry(cfg, q, now);
  }

  // ---------------------------------------------------------------- transitions

  lemma FirstIsFound(es: seq<Entry>, id: string, i: nat)
    requires FirstOf(es, id, i)
    ensures Find(es, id) == i
  {
  }

  /** What a transition is refused for, and what it makes of the entry. */
  predicate MayMove(e: Entry, op: Op)
    requires IsTransition(op)
  {
    match op
    case MarkInFlight(_, _) => e.state == Admitted || e.state == RetryWait
    case MarkRetryWait(_, _, _, _) => e.state != TerminalUnknown
    case MarkTerminalUnknown(_, _) => e.state != TerminalUnknown
  }

  /** The first entry of that id. */
  ghost predicate FirstOf(es: seq<Entry>, id: string, i: nat) {
    i < |es| && es[i].id == id && forall j :: 0 <= j < i ==> es[j].id != id
  }

  /** A transition that is true has changed these fields of the first entry of its id and no others, in
      memory and on disk. */
  lemma MoveStores(cfg: Config, b: Box, op: Op, io: Io, i: nat)
    requires IsTransition(op) && FirstOf(b.entries, op.id, i) && Perform(cfg, b, op, io).ok
    ensures var b', e := Perform(cfg, b, op, io).box, b.entries[i];
            && |b'.entries| == |b.entries| && (forall j :: 0 <= j < |b.entries| && j != i ==> b'.entries[j] == b.entries[j])
            && (op.MarkInFlight? ==> b'.entries[i] == e.(state := InFlight, lastAttemptAt := At(op.now)))
            && (op.MarkRetryWait? ==>
                  op.nextAttemptAt.Some?
                  && b'.entries[i] == e.(state := RetryWait, attempts := e.attempts + 1, lastAttemptAt := At(op.now),
                                         nextAttemptAt := op.nextAttemptAt, lastFailure := Some(op.failure)))
            && (op.MarkTerminalUnknown? ==> b'.entries[i] == e.(state := TerminalUnknown, lastFailure := Some(op.failure)))
            && OwnFile(cfg, b'.disk) && Stored(cfg, b'.disk) == b'.entries && b'.degraded == b.degraded
  {
    hide FileBytes, EntryBytes;
    WrittenIsStored(cfg, b.disk, Perform(cfg, b, op, io).box.entries);
  }

  /** It is true exactly if there is such an entry in a state that allows it, what it is to store is a
      time, and the file is small enough and written. */
  lemma MoveAnswers(cfg: Config, b: Box, op: Op, io: Io)
    requires IsTransition(op)
    ensures Perform(cfg, b, op, io).ok <==>
              exists i: nat :: FirstOf(b.entries, op.id, i) && MayMove(b.entries[i], op)
                          && (op.MarkRetryWait? ==> op.nextAttemptAt.Some?)
                          && FileBytes(cfg.peer, b.entries[i := Moved(b.entries[i], op)]) <= 10_000_000 && io.writes
    ensures !Perform(cfg, b, op, io).ok ==> Perform(cfg, b, op, io).box.disk == b.disk
    ensures (forall i: nat :: FirstOf(b.entries, op.id, i) ==> !MayMove(b.entries[i], op)) ==>
              Perform(cfg, b, op, io) == Outcome(b, false)
  {
    hide FileBytes, EntryBytes;
    var i := Find(b.entries, op.id);
    forall k: nat | FirstOf(b.entries, op.id, k) ensures k == i { FirstIsFound(b.entries, op.id, k); }
    if i < |b.entries| { assert FirstOf(b.entries, op.id, i); }
  }

  // ---------------------------------------------------------------- removal

  /** Acknowledging answers true if the id is unknown; otherwise exactly if the file without its first
      entry is written, and then that entry is gone. */
  lemma AcknowledgeAnswers(cfg: Config, b: Box, id: string, io: Io)
    ensures var r := Perform(cfg, b, Acknowledge(id), io);
            && ((forall i :: 0 <= i < |b.entries| ==> b.entries[i].id != id) ==> r.ok && r.box == b)
            && (forall i: nat :: FirstOf(b.entries, id, i) ==>
                  var rest := b.entries[..i] + b.entries[i + 1..];
                  && (r.ok <==> FileBytes(cfg.peer, rest) <= 10_000_000 && io.writes)
                  && r.box.entries == (if r.ok then rest else b.entries)
                  && (r.ok ==> OwnFile(cfg, r.box.disk) && Stored(cfg, r.box.disk) == rest)
                  && (!r.ok ==> r.box.disk == b.disk && r.box.degraded))
  {
    hide FileBytes, EntryBytes;
    forall i: nat | FirstOf(b.entries, id, i) ensures i == Find(b.entries, id) { FirstIsFound(b.entries, id, i); }
    WrittenIsStored(cfg, b.disk, Perform(cfg, b, Acknowledge(id), io).box.entries);
  }

  /** Terminal-unknown entries not older than thirty days. */
  function RecentTerminals(es: seq<Entry>, now: int): nat {
    if es == [] then 0
    else
      var last := es[|es| - 1];
      RecentTerminals(es[..|es| - 1], now)
      + if last.state == TerminalUnknown && last.createdAt >= now - 2_592_000_000 then 1 else 0
  }

  function AtMost(a: nat, b: nat): nat {
    if a < b then a else b
  }

  lemma {:induction false} KeptCounts(es: seq<Entry>, now: int)
    ensures Kept(es, now) == AtMost(RecentTerminals(es, now), 50)
  {
    if es != [] {
      KeptCounts(es[..|es| - 1], now);
    }
  }

  /** Pruning drops exactly the terminal-unknown entries that are older than thirty days, or have fifty
      younger ones before them. */
  lemma {:induction false} PrunesExactly(es: seq<Entry>, now: int, i: nat)
    requires DistinctIds(es) && i < |es|
    ensures es[i] in Without(es, DroppedIds(es, now)) <==>
              (es[i].state == TerminalUnknown ==>
                 es[i].createdAt >= now - 2_592_000_000 && RecentTerminals(es[..i], now) < 50)
  {
    hide Without, DroppedIds, Kept, RecentTerminals;
    WithoutKeepsTheRest(es, DroppedIds(es, now));
    DroppedExactly(es, now, i);
  }

  lemma {:induction false} DroppedExactly(es: seq<Entry>, now: int, i: nat)
    requires DistinctIds(es) && i < |es|
    ensures es[i].id in DroppedIds(es, now) <==>
              es[i].state == TerminalUnknown
              && !(es[i].createdAt >= now - 2_592_000_000 && RecentTerminals(es[..i], now) < 50)
  {
    hide RecentTerminals, Kept;
    var front, last := es[..|es| - 1], es[|es| - 1];
    KeptCounts(front, now);
    if i < |front| {
      DroppedExactly(front, now, i);
      assert front[..i] == es[..i] && front[i] == es[i];
    } else {
      LastIsUnique(es);
      LastNotDroppedEarlier(front, last.id, now);
      assert es[..i] == front;
    }
  }

  // ---------------------------------------------------------------- loading

  /** What `load` demands of a current file, in numbers. */
  lemma LoadDemands(rs: seq<Raw<Entry>>)
    ensures AcceptsV2(rs) <==>
              && |rs| <= 200 && ArrayBytes(EntryBytes, rs) <= 10_000_000
              && (forall i :: 0 <= i < |rs| ==> rs[i].Typed? && Demanded(rs[i].value))
              && (forall i, j :: 0 <= i < j < |rs| ==> rs[i].value.id != rs[j].value.id)
  {
    hide EntryBytes, ArrayBytes;
  }

  predicate Demanded(e: Entry) {
    && e.id != "" && e.methodName != "" && |e.methodName| <= 128 && e.requestId != ""
    && e.createdAt <= e.deadlineAt && !e.lastAttemptAt.NotATime? && EntryBytes(e) <= 524_288
  }

  /** What a restart makes of the entries it takes over: what was in flight waits for a retry that is due
      at once, until its deadline, and nothing else changes. */
  lemma RestartMeans(cfg: Config, disk: Disk, rs: seq<Raw<Entry>>, now: int, io: Io)
    requires disk.main == Some(FileV2(cfg.peer, rs)) && !Open(cfg, disk, now, io).quarantined
    ensures var es := Open(cfg, disk, now, io).entries;
            && |es| == |rs|
            && forall i :: 0 <= i < |rs| ==>
                 && rs[i].Typed? && es[i].state != InFlight
                 && (rs[i].value.state != InFlight ==> es[i] == rs[i].value)
                 && (rs[i].value.state == InFlight ==>
                       es[i] == rs[i].value.(state := RetryWait, nextAttemptAt := None)
                       && forall t :: Due(es[i], t) <==> t < es[i].deadlineAt)
  {
    hide EntryBytes, ArrayBytes, FileBytes, Valid1;
  }

  // ---------------------------------------------------------------- what is due, and when

  /** Admitted work is due until its deadline, a recorded retry from its next attempt until then, and
      what is in flight or terminal-unknown never. */
  lemma DueExactly(e: Entry, t: int)
    ensures e.state == Admitted ==> (Due(e, t) <==> t < e.deadlineAt)
    ensures e.state == RetryWait ==>
              (Due(e, t) <==> t < e.deadlineAt && (e.nextAttemptAt.Some? ==> e.nextAttemptAt.value <= t))
    ensures e.state == InFlight || e.state == TerminalUnknown ==> !Due(e, t)
  {
  }
}
