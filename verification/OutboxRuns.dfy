/**
 Histories of the request outbox: operations whose writes may fail, crashes before or after the
 rename of a checkpoint, restarts. What one can rely on across all of them.
 */
module OutboxRuns {
  import opened Wrappers
  import opened Outbox

  // ---------------------------------------------------------------- what a checkpoint leaves for load

  /** The most that delivery state, times, failure class and a one-digit attempt count ever take. */
  const BOOKKEEPING := 9 + 18 + 12 + 1 + (17 + STAMP_BYTES) + (17 + STAMP_BYTES) + (15 + 20)

  lemma BookkeepingIsBounded(e: Entry)
    requires !e.lastAttemptAt.NotATime? && e.attempts < 10
    ensures EntryBytes(e) <= CoreBytes(e) + BOOKKEEPING
  {
  }

  /** The array inside a file is smaller than the file. */
  lemma ArrayFitsFile(peer: string, es: seq<Entry>)
    requires FileBytes(peer, es) <= MAX_FILE_BYTES
    ensures ArrayBytes(EntryBytes, Typeds(es)) <= MAX_FILE_BYTES
  {
  }

  ghost predicate Loads(es: seq<Entry>) {
    AcceptsV2(Typeds(es))
  }

  /** What `append` leaves to its caller: it checks the size and the room, but neither that the id
      is new nor the other things `load` will demand. A file it wrote loads exactly if those hold. */
  lemma AppendedFileLoads(cfg: Config, b: Box, q: Request, now: int, io: Io)
    requires Loads(b.entries) && Perform(cfg, b, Append(q, now), io).ok
    ensures Loads(Perform(cfg, b, Append(q, now), io).box.entries) <==>
              && (forall i :: 0 <= i < |b.entries| ==> b.entries[i].id != q.id)
              && Valid1(q.id, q.methodName, q.requestId)
              && cfg.retryDeadlineMs >= 0
  {
    var e := NewEntry(cfg, q, now);
    var before, after := Typeds(b.entries), Typeds(b.entries + [e]);
    ArrayFitsFile(cfg.peer, b.entries + [e]);
    assert after[|before|].value == e;
    assert forall i :: 0 <= i < |before| ==> after[i] == before[i];
    if Loads(b.entries + [e]) {
      forall i | 0 <= i < |b.entries| ensures b.entries[i].id != q.id {
        assert after[i].value.id != after[|before|].value.id;
      }
    }
  }

  lemma RewrittenEntryLoads(peer: string, es: seq<Entry>, i: nat, e: Entry)
    requires Loads(es) && i < |es| && FileBytes(peer, es[i := e]) <= MAX_FILE_BYTES
    requires ValidEntry(Typed(e)) && e.id == es[i].id
    ensures Loads(es[i := e]) <==> EntryBytes(e) <= MAX_ENTRY_BYTES
  {
    var rs, rs' := Typeds(es), Typeds(es[i := e]);
    ArrayFitsFile(peer, es[i := e]);
    assert rs'[i].value == e && rs[i].value == es[i];
    assert forall j :: 0 <= j < |es| && j != i ==> rs'[j] == rs[j];
  }

  predicate IsTransition(op: Op) {
    op.MarkInFlight? || op.MarkRetryWait? || op.MarkTerminalUnknown?
  }

  /** The part of an entry that was fixed when it was admitted. */
  predicate SameRequest(e: Entry, f: Entry) {
    && e.id == f.id && e.methodName == f.methodName && e.requestId == f.requestId
    && e.idempotencyKey == f.idempotencyKey && e.body == f.body && e.version == f.version
    && e.payload == f.payload && e.createdAt == f.createdAt && e.deadlineAt == f.deadlineAt
  }

  /** A transition touches the delivery fields of one entry and nothing else. */
  lemma TransitionRewritesOne(cfg: Config, b: Box, op: Op)
    requires IsTransition(op) && IntentOf(cfg, b, op).Intent?
    ensures var i := Find(b.entries, op.id);
            var Intent(next, rollback) := IntentOf(cfg, b, op);
            && i < |b.entries| == |next| == |rollback|
            && next == b.entries[i := next[i]] && rollback == b.entries[i := rollback[i]]
            && SameRequest(next[i], b.entries[i])
            && (!next[i].lastAttemptAt.NotATime? || next[i].lastAttemptAt == b.entries[i].lastAttemptAt)
            && next[i].state != Admitted && b.entries[i].state != TerminalUnknown
            && next[i].attempts == b.entries[i].attempts + (if op.MarkRetryWait? then 1 else 0)
  {
  }

  /** What a transition makes of its entry. */
  function Moved(e: Entry, op: Op): Entry
    requires IsTransition(op)
  {
    match op
    case MarkInFlight(_, now) => e.(state := InFlight, lastAttemptAt := At(now))
    case MarkRetryWait(_, failure, next, now) =>
      e.(state := RetryWait, attempts := e.attempts + 1, lastAttemptAt := At(now), nextAttemptAt := next,
         lastFailure := Some(failure))
    case MarkTerminalUnknown(_, failure) => e.(state := TerminalUnknown, lastFailure := Some(failure))
  }

  /** A delivery transition rewrites one entry in place; the file it leaves loads exactly if that
      entry, with the bookkeeping to come, still fits the entry bound, which only `append` checks. */
  lemma TransitionFileLoads(cfg: Config, b: Box, op: Op, io: Io)
    requires IsTransition(op)
    requires Loads(b.entries) && Perform(cfg, b, op, io).ok
    ensures var i := Find(b.entries, op.id);
            i < |b.entries|
            && (Loads(Perform(cfg, b, op, io).box.entries) <==> EntryBytes(Moved(b.entries[i], op)) <= MAX_ENTRY_BYTES)
  {
    hide IntentOf, EntryBytes, FileBytes, ArrayBytes, Perform, Find, SameRequest;
    TransitionMoves(cfg, b, op, io);
    var i := Find(b.entries, op.id);
    assert ValidEntry(Typeds(b.entries)[i]);
    RewrittenEntryLoads(cfg.peer, b.entries, i, Moved(b.entries[i], op));
  }

  lemma TransitionMoves(cfg: Config, b: Box, op: Op, io: Io)
    requires IsTransition(op) && Perform(cfg, b, op, io).ok
    ensures var i := Find(b.entries, op.id);
            && i < |b.entries| && IntentOf(cfg, b, op).Intent?
            && Perform(cfg, b, op, io).box.entries == b.entries[i := Moved(b.entries[i], op)]
            && FileBytes(cfg.peer, Perform(cfg, b, op, io).box.entries) <= MAX_FILE_BYTES
  {
    hide FileBytes, Find;
  }

  lemma {:induction false} CharsBytesOfPlain(n: nat)
    ensures CharsBytes(seq(n, _ => 'x')) == n
  {
    if n > 0 {
      var s := seq(n, _ => 'x');
      assert s[..n - 1] == seq(n - 1, _ => 'x');
      CharsBytesOfPlain(n - 1);
    }
  }

  lemma SingletonBytes(e: Entry)
    ensures ArrayBytes(EntryBytes, Typeds([e])) == 2 + EntryBytes(e)
  {
    var rs := Typeds([e]);
    assert rs[..0] == [];
    assert ArrayBytes(EntryBytes, rs) == ArrayBytes(EntryBytes, rs[..0]) + RawBytes(EntryBytes, rs[0]);
  }

  lemma PaddedBody(cfg: Config, q: Request, now: int, spare: nat)
    requires q.body == ""
    ensures EntryBytes(NewEntry(cfg, q.(body := seq(spare, _ => 'x')), now)) == EntryBytes(NewEntry(cfg, q, now)) + spare
  {
    CharsBytesSmall();
    CharsBytesOfPlain(spare);
  }

  /** An outbox holding one entry of exactly the largest size admitted. */
  lemma FullSizeEntrySent(cfg: Config, b: Box, e: Entry, now: int)
    requires b == Box([e], false, false, b.disk) && FileBytes(cfg.peer, [e]) + 1000 <= MAX_FILE_BYTES
    requires e.state.Admitted? && e.lastAttemptAt == Unset && EntryBytes(e) == MAX_ENTRY_BYTES
    ensures var sent := Perform(cfg, b, MarkInFlight(e.id, now), Io(true, true));
            sent.ok && sent.box.entries == [e.(state := InFlight, lastAttemptAt := At(now))]
            && sent.box.disk.main == Some(FileV2(cfg.peer, Typeds(sent.box.entries)))
            && EntryBytes(sent.box.entries[0]) > MAX_ENTRY_BYTES
  {
    var e' := e.(state := InFlight, lastAttemptAt := At(now));
    assert Find([e], e.id) == 0;
    assert [e][0 := e'] == [e'];
    SingletonBytes(e);
    SingletonBytes(e');
  }

  lemma OversizedFileIsQuarantined(cfg: Config, disk: Disk, e: Entry, now: int, io: Io)
    requires disk.main == Some(FileV2(cfg.peer, Typeds([e]))) && EntryBytes(e) > MAX_ENTRY_BYTES
    ensures Open(cfg, disk, now, io).quarantined
  {
    assert Typeds([e])[0].value == e;
  }

  /** A request just within the bound is admitted and marked in flight, both durably; the restart
      then quarantines the whole file. */
  lemma AdmittedYetNotReloadable(cfg: Config, now: int)
    returns (q: Request)
    requires cfg.retryDeadlineMs >= 0 && FileBytes(cfg.peer, []) < 1000
    ensures var io := Io(true, true);
            var empty := Box([], false, false, Disk(None, []));
            var admitted := Perform(cfg, empty, Append(q, now), io);
            var sent := Perform(cfg, admitted.box, MarkInFlight(q.id, now), io);
            admitted.ok && Loads(admitted.box.entries) && sent.ok && Open(cfg, sent.box.disk, now, io).quarantined
  {
    q := Request("a", "m", "r", None, "", 1, None);
    var spare := MAX_ENTRY_BYTES - EntryBytes(NewEntry(cfg, q, now));
    PaddedBody(cfg, q, now, spare);
    q := q.(body := seq(spare, _ => 'x'));
    var e := NewEntry(cfg, q, now);
    var io := Io(true, true);
    var empty := Box([], false, false, Disk(None, []));
    SingletonBytes(e);
    assert [] + [e] == [e];
    var admitted := Perform(cfg, empty, Append(q, now), io).box;
    FullSizeEntrySent(cfg, admitted, e, now);
    var disk := Perform(cfg, admitted, MarkInFlight(q.id, now), io).box.disk;
    OversizedFileIsQuarantined(cfg, disk, e.(state := InFlight, lastAttemptAt := At(now)), now, io);
  }

  lemma CharsBytesSmall()
    ensures CharsBytes("") == 0
    ensures forall c: char :: CharsBytes([c]) == CharBytes(c)
  {
    forall c: char ensures CharsBytes([c]) == CharBytes(c) {
      assert [c][..0] == "";
    }
  }

  // ---------------------------------------------------------------- systems and histories

  datatype System = Down(disk: Disk) | Up(box: Box)

  /** `Do` with a failing write is a failed checkpoint; a `Crash` during an operation leaves the disk
      as the operation would, with the write landed or not. */
  datatype Event =
    | Start(now: int, io: Io)
    | CrashStarting(now: int, io: Io)
    | Do(op: Op, io: Io)
    | CrashDoing(op: Op, io: Io)
    | Kill

  ghost function Next(cfg: Config, s: System, e: Event): System {
    match s
    case Down(disk) => (
      match e
      case Start(now, io) => Up(Open(cfg, disk, now, io))
      case CrashStarting(now, io) => Down(Open(cfg, disk, now, io).disk)
      case _ => s
    )
    case Up(b) => (
      match e
      case Do(op, io) => Up(Perform(cfg, b, op, io).box)
      case CrashDoing(op, io) => Down(Perform(cfg, b, op, io).box.disk)
      case Kill => Down(b.disk)
      case _ => s
    )
  }

  ghost function After(cfg: Config, s: System, events: seq<Event>): System {
    if events == [] then s else Next(cfg, After(cfg, s, events[..|events| - 1]), events[|events| - 1])
  }

  // ---------------------------------------------------------------- memory and disk agree

  /** An entry without its diagnostics, which a failed write may reset. */
  function Delivery(e: Entry): Entry {
    e.(lastAttemptAt := Unset, lastFailure := None)
  }

  /** Equal to the eyes of a restart. */
  ghost predicate SameAfterRestart(es: seq<Entry>, fs: seq<Entry>) {
    |es| == |fs| && forall i :: 0 <= i < |es| ==> Delivery(Restarted(es[i])) == Delivery(Restarted(fs[i]))
  }

  ghost predicate AllTyped<T>(rs: seq<Raw<T>>) {
    forall i :: 0 <= i < |rs| ==> rs[i].Typed?
  }

  /** No state file, or one of this peer in the current format. */
  ghost predicate OwnFile(cfg: Config, disk: Disk) {
    match disk.main
    case None => true
    case Some(FileV2(peer, rs)) => peer == cfg.peer && AllTyped(rs)
    case _ => false
  }

  ghost function Stored(cfg: Config, disk: Disk): seq<Entry>
    requires OwnFile(cfg, disk)
  {
    match disk.main
    case None => []
    case Some(FileV2(peer, rs)) => Values(rs)
  }

  ghost predicate Agree(cfg: Config, b: Box) {
    if b.quarantined then b.entries == []
    else OwnFile(cfg, b.disk) && SameAfterRestart(Stored(cfg, b.disk), b.entries)
  }

  lemma WrittenIsStored(cfg: Config, disk: Disk, es: seq<Entry>)
    ensures OwnFile(cfg, Written(cfg, disk, es)) && Stored(cfg, Written(cfg, disk, es)) == es
  {
  }

  /** Whatever the file held, and whether or not the write made while loading succeeds. */
  lemma AgreeAfterOpen(cfg: Config, disk: Disk, now: int, io: Io)
    ensures Agree(cfg, Open(cfg, disk, now, io))
  {
    hide AcceptsV1, MigrateAll, Lands, FileBytes;
    var b := Open(cfg, disk, now, io);
    WrittenIsStored(cfg, disk, b.entries);
    if !b.quarantined && disk.main.Some? && disk.main.value.FileV2? && b.disk == disk {
      assert b.entries == Restart(Stored(cfg, disk));
    }
  }

  /** Rolling back restores every delivery field. */
  lemma RollbackRestores(cfg: Config, b: Box, op: Op)
    requires IntentOf(cfg, b, op).Intent?
    ensures SameAfterRestart(IntentOf(cfg, b, op).rollback, b.entries)
  {
  }

  /** A retry with a next attempt that is no time, of an entry that can be retried: it throws after
      the attempt was counted in memory and before anything is written. */
  predicate Tears(es: seq<Entry>, op: Op) {
    op.MarkRetryWait? && op.nextAttemptAt.None? && Find(es, op.id) < |es| && es[Find(es, op.id)].state != TerminalUnknown
  }

  /** Memory has counted attempts the disk knows nothing of. */
  ghost predicate Ahead(cfg: Config, b: Box) {
    && !b.quarantined && OwnFile(cfg, b.disk) && |Stored(cfg, b.disk)| == |b.entries|
    && (forall i :: 0 <= i < |b.entries| ==> Stored(cfg, b.disk)[i].attempts <= b.entries[i].attempts)
    && (exists i :: 0 <= i < |b.entries| && Stored(cfg, b.disk)[i].attempts < b.entries[i].attempts)
  }

  lemma AheadDisagrees(cfg: Config, b: Box)
    requires Ahead(cfg, b)
    ensures !Agree(cfg, b)
  {
    var es, fs := Stored(cfg, b.disk), b.entries;
    var i :| 0 <= i < |fs| && es[i].attempts < fs[i].attempts;
    assert Delivery(Restarted(es[i])).attempts < Delivery(Restarted(fs[i])).attempts;
  }

  lemma AgreeingAttempts(cfg: Config, b: Box)
    requires Agree(cfg, b) && !b.quarantined
    ensures |Stored(cfg, b.disk)| == |b.entries|
    ensures forall i :: 0 <= i < |b.entries| ==> Stored(cfg, b.disk)[i].attempts == b.entries[i].attempts
  {
    var es, fs := Stored(cfg, b.disk), b.entries;
    forall i | 0 <= i < |fs| ensures es[i].attempts == fs[i].attempts {
      assert Delivery(Restarted(es[i])) == Delivery(Restarted(fs[i]));
    }
  }

  lemma TornIsAhead(cfg: Config, b: Box, op: Op, io: Io)
    requires !b.quarantined && (Agree(cfg, b) || Ahead(cfg, b)) && Tears(b.entries, op)
    ensures Ahead(cfg, Perform(cfg, b, op, io).box)
  {
    var i := Find(b.entries, op.id);
    var b' := Perform(cfg, b, op, io).box;
    if Agree(cfg, b) { AgreeingAttempts(cfg, b); }
    assert b'.entries[i].attempts == b.entries[i].attempts + 1;
    assert b'.disk == b.disk;
  }

  lemma RollbackAttempts(cfg: Config, b: Box, op: Op)
    requires IntentOf(cfg, b, op).Intent?
    ensures var r := IntentOf(cfg, b, op).rollback;
            |r| == |b.entries| && forall i :: 0 <= i < |r| ==> r[i].attempts == b.entries[i].attempts
  {
  }

  /** Only a write that lands brings the disk up to memory again. */
  lemma StaysAhead(cfg: Config, b: Box, op: Op, io: Io)
    requires Ahead(cfg, b) && !Tears(b.entries, op) && !WriteLands(cfg, b, op, io)
    ensures Ahead(cfg, Perform(cfg, b, op, io).box)
  {
    if IntentOf(cfg, b, op).Intent? {
      RollbackAttempts(cfg, b, op);
      hide IntentOf;
    }
  }

  /** The operation changes the file. */
  ghost predicate WriteLands(cfg: Config, b: Box, op: Op, io: Io) {
    IntentOf(cfg, b, op).Intent? && Lands(cfg, IntentOf(cfg, b, op).next, io)
  }

  lemma LandedAgrees(cfg: Config, b: Box, op: Op, io: Io)
    requires WriteLands(cfg, b, op, io) && !b.quarantined
    ensures Agree(cfg, Perform(cfg, b, op, io).box)
  {
    hide IntentOf;
    WrittenIsStored(cfg, b.disk, IntentOf(cfg, b, op).next);
  }

  /** An operation leaves memory and disk in agreement exactly if it does not tear an entry. */
  lemma AgreeAfterOperation(cfg: Config, b: Box, op: Op, io: Io)
    requires Agree(cfg, b)
    ensures Agree(cfg, Perform(cfg, b, op, io).box) <==> !Tears(b.entries, op)
  {
    if b.quarantined {
      QuarantinedNeverWrites(cfg, b, op, io);
    } else if Tears(b.entries, op) {
      TornIsAhead(cfg, b, op, io);
      AheadDisagrees(cfg, Perform(cfg, b, op, io).box);
    } else if WriteLands(cfg, b, op, io) {
      LandedAgrees(cfg, b, op, io);
    } else if IntentOf(cfg, b, op).Intent? {
      RollbackRestores(cfg, b, op);
    }
  }

  /** A quarantined outbox is empty, changes nothing and writes nothing. */
  lemma QuarantinedNeverWrites(cfg: Config, b: Box, op: Op, io: Io)
    requires b.quarantined && b.entries == []
    ensures Perform(cfg, b, op, io).box == b
    ensures Perform(cfg, b, op, io).ok <==> op.Acknowledge? || op.PruneTerminalUnknown?
  {
  }

  /** One admitted request, stored and in memory alike, retried with a next attempt that is no time. */
  lemma TornRetryDisagrees(cfg: Config, q: Request, failure: Failure, now: int, io: Io)
    ensures var es := [NewEntry(cfg, q, now)];
            var b := Box(es, false, false, Written(cfg, Disk(None, []), es));
            var torn := Perform(cfg, b, MarkRetryWait(q.id, failure, None, now), io);
            && Agree(cfg, b) && torn.threw && !Agree(cfg, torn.box)
            && torn.box.entries[0].attempts == 1 && Stored(cfg, torn.box.disk)[0].attempts == 0
  {
    var es := [NewEntry(cfg, q, now)];
    var b := Box(es, false, false, Written(cfg, Disk(None, []), es));
    WrittenIsStored(cfg, Disk(None, []), es);
    assert Find(es, q.id) == 0;
    assert SameAfterRestart(es, es);
    AgreeAfterOperation(cfg, b, MarkRetryWait(q.id, failure, None, now), io);
  }

  ghost predicate Agrees(cfg: Config, s: System) {
    s.Up? ==> Agree(cfg, s.box)
  }

  /** Since the last write that landed, and the last restart, some retry was torn. */
  ghost predicate Unsaved(cfg: Config, disk: Disk, events: seq<Event>) {
    events != [] &&
      var prior, e := events[..|events| - 1], events[|events| - 1];
      var s := After(cfg, Down(disk), prior);
      s.Up? &&
        match e
        case Do(op, io) => Tears(s.box.entries, op) || (Unsaved(cfg, disk, prior) && !WriteLands(cfg, s.box, op, io))
        case Start(_, _) => Unsaved(cfg, disk, prior)
        case CrashStarting(_, _) => Unsaved(cfg, disk, prior)
        case _ => false
  }

  /** In every history from any disk: memory and disk are the same to the eyes of a restart, whether
      writes succeeded or not, except exactly while a torn retry is unsaved. */
  lemma {:induction false} MemoryAndDiskAgree(cfg: Config, disk: Disk, events: seq<Event>)
    ensures Agrees(cfg, After(cfg, Down(disk), events)) <==> !Unsaved(cfg, disk, events)
    ensures var s := After(cfg, Down(disk), events); Unsaved(cfg, disk, events) ==> s.Up? && Ahead(cfg, s.box)
  {
    hide Agree, Ahead, Tears, Perform, Open;
    if events != [] {
      var prior, e := events[..|events| - 1], events[|events| - 1];
      MemoryAndDiskAgree(cfg, disk, prior);
      var s := After(cfg, Down(disk), prior);
      match s
      case Down(d) => if e.Start? { AgreeAfterOpen(cfg, d, e.now, e.io); }
      case Up(b) => if e.Do? { OperationAgreement(cfg, b, e.op, e.io); }
    }
  }

  lemma OperationAgreement(cfg: Config, b: Box, op: Op, io: Io)
    requires Agree(cfg, b) || Ahead(cfg, b)
    ensures var b' := Perform(cfg, b, op, io).box;
            && (Agree(cfg, b') || Ahead(cfg, b'))
            && (Agree(cfg, b') <==> !(Tears(b.entries, op) || (!Agree(cfg, b) && !WriteLands(cfg, b, op, io))))
            && (!Agree(cfg, b') <==> Ahead(cfg, b'))
  {
    var b' := Perform(cfg, b, op, io).box;
    if Ahead(cfg, b) { AheadDisagrees(cfg, b); }
    if Tears(b.entries, op) {
      TornIsAhead(cfg, b, op, io);
    } else if Agree(cfg, b) {
      AgreeAfterOperation(cfg, b, op, io);
    } else if WriteLands(cfg, b, op, io) {
      LandedAgrees(cfg, b, op, io);
    } else {
      StaysAhead(cfg, b, op, io);
    }
    if Ahead(cfg, b') { AheadDisagrees(cfg, b'); }
  }

  /** Corrupt or foreign content is kept, under its own name or a quarantine name, never replaced. */
  lemma QuarantinePreserves(cfg: Config, disk: Disk, now: int, io: Io)
    requires Open(cfg, disk, now, io).quarantined
    ensures var b := Open(cfg, disk, now, io);
            && b.entries == [] && disk.main.Some?
            && (b.disk == disk || b.disk == Disk(None, disk.quarantine + [disk.main.value]))
  {
  }

  /** Migration never refreshes a deadline, however late it happens, and keeps the request. */
  lemma MigrationKeepsDeadlines(cfg: Config, disk: Disk, rs: seq<Raw<EntryV1>>, now: int, io: Io)
    requires disk.main == Some(FileV1(cfg.peer, rs)) && !Open(cfg, disk, now, io).quarantined
    ensures var es := Open(cfg, disk, now, io).entries;
            && |es| == |rs|
            && forall i :: 0 <= i < |rs| ==>
                 && rs[i].Typed? && es[i].id == rs[i].value.id && es[i].methodName == rs[i].value.methodName
                 && es[i].requestId == rs[i].value.requestId && es[i].idempotencyKey == rs[i].value.idempotencyKey
                 && es[i].body == rs[i].value.body && es[i].version == rs[i].value.version
                 && es[i].payload == rs[i].value.payload && es[i].createdAt == rs[i].value.createdAt
                 && es[i].attempts == rs[i].value.attempts && es[i].nextAttemptAt.None?
                 && es[i].lastAttemptAt == rs[i].value.lastAttemptAt
                 && es[i].lastFailure == (if es[i].deadlineAt <= now then Some(Timeout) else None)
                 && es[i].deadlineAt == rs[i].value.createdAt + cfg.retryDeadlineMs
                 && (es[i].state == TerminalUnknown <==> es[i].deadlineAt <= now)
                 && es[i].state in {TerminalUnknown, Admitted}
    ensures var b := Open(cfg, disk, now, io); OwnFile(cfg, b.disk) && Stored(cfg, b.disk) == b.entries
  {
    WrittenIsStored(cfg, disk, Open(cfg, disk, now, io).entries);
  }

  /** A migrated file may itself be refused by the next load: the current format adds fields to every
      entry, and it checks two times that the old one did not. */
  lemma MigratedFileLoads(cfg: Config, disk: Disk, rs: seq<Raw<EntryV1>>, now: int, io: Io)
    requires disk.main == Some(FileV1(cfg.peer, rs)) && !Open(cfg, disk, now, io).quarantined
    ensures Loads(Open(cfg, disk, now, io).entries) <==>
              && (rs != [] ==> cfg.retryDeadlineMs >= 0)
              && forall i :: 0 <= i < |rs| ==>
                   rs[i].Typed? && !rs[i].value.lastAttemptAt.NotATime?
                   && EntryBytes(Migrated(rs[i].value, cfg.retryDeadlineMs, now)) <= MAX_ENTRY_BYTES
  {
    var es := Open(cfg, disk, now, io).entries;
    assert AcceptsV1(rs) && es == MigrateAll(Values(rs), cfg.retryDeadlineMs, now);
    assert Lands(cfg, es, io);
    MigratedListLoads(cfg, rs, now);
  }

  lemma MigratedListLoads(cfg: Config, rs: seq<Raw<EntryV1>>, now: int)
    requires AcceptsV1(rs) && FileBytes(cfg.peer, MigrateAll(Values(rs), cfg.retryDeadlineMs, now)) <= MAX_FILE_BYTES
    ensures Loads(MigrateAll(Values(rs), cfg.retryDeadlineMs, now)) <==>
              && (rs != [] ==> cfg.retryDeadlineMs >= 0)
              && forall i :: 0 <= i < |rs| ==>
                   rs[i].Typed? && !rs[i].value.lastAttemptAt.NotATime?
                   && EntryBytes(Migrated(rs[i].value, cfg.retryDeadlineMs, now)) <= MAX_ENTRY_BYTES
  {
    hide EntryV1Bytes, EntryBytes, ArrayBytes, Valid1;
    var es := MigrateAll(Values(rs), cfg.retryDeadlineMs, now);
    ArrayFitsFile(cfg.peer, es);
    var ts := Typeds(es);
    forall i | 0 <= i < |rs|
      ensures rs[i].Typed? && es[i] == Migrated(rs[i].value, cfg.retryDeadlineMs, now) && ts[i] == Typed(es[i])
      ensures ValidEntry(ts[i]) <==> cfg.retryDeadlineMs >= 0 && !rs[i].value.lastAttemptAt.NotATime?
    {
      assert ValidEntryV1(rs[i]);
    }
    if rs != [] && Loads(es) {
      assert ValidEntry(ts[0]);
    }
  }

  // ---------------------------------------------------------------- durability for a careful caller

  /** Valid for `load`, with room for all bookkeeping, and not retried past the limit. */
  ghost predicate Safe(e: Entry) {
    && Valid1(e.id, e.methodName, e.requestId)
    && e.createdAt <= e.deadlineAt && !e.lastAttemptAt.NotATime?
    && e.attempts <= MAX_ATTEMPTS
    && CoreBytes(e) + BOOKKEEPING <= MAX_ENTRY_BYTES
  }

  ghost predicate SafeList(es: seq<Entry>) {
    |es| <= MAX_ENTRIES && DistinctIds(es) && forall i :: 0 <= i < |es| ==> Safe(es[i])
  }

  ghost predicate SafeDisk(cfg: Config, disk: Disk) {
    OwnFile(cfg, disk) && SafeList(Stored(cfg, disk))
    && ArrayBytes(EntryBytes, Typeds(Stored(cfg, disk))) <= MAX_FILE_BYTES
  }

  ghost predicate SafeSystem(cfg: Config, s: System) {
    match s
    case Down(disk) => SafeDisk(cfg, disk)
    case Up(b) => !b.quarantined && SafeList(b.entries) && SafeDisk(cfg, b.disk)
                  && SameAfterRestart(Stored(cfg, b.disk), b.entries)
  }

  /** What the outbox asks of its caller without checking it: new requests have a new id, valid names
      and room for bookkeeping, an exhausted entry is not retried again, and the next attempt is a time. */
  ghost predicate Careful(cfg: Config, s: System, e: Event) {
    s.Up? && (e.Do? || e.CrashDoing?) ==>
      match e.op
      case Append(q, now) =>
        && (forall i :: 0 <= i < |s.box.entries| ==> s.box.entries[i].id != q.id)
        && Valid1(q.id, q.methodName, q.requestId)
        && CoreBytes(NewEntry(cfg, q, now)) + BOOKKEEPING <= MAX_ENTRY_BYTES
      case MarkRetryWait(id, _, next, _) =>
        next.Some? && forall i :: 0 <= i < |s.box.entries| && s.box.entries[i].id == id ==> s.box.entries[i].attempts < MAX_ATTEMPTS
      case _ => true
  }

  lemma SafeListLoads(es: seq<Entry>)
    requires SafeList(es) && ArrayBytes(EntryBytes, Typeds(es)) <= MAX_FILE_BYTES
    ensures Loads(es)
  {
    forall i | 0 <= i < |es| ensures EntryBytes(es[i]) <= MAX_ENTRY_BYTES {
      BookkeepingIsBounded(es[i]);
    }
  }

  lemma {:induction false} WithoutKeepsTheRest(es: seq<Entry>, ids: set<string>)
    requires DistinctIds(es)
    ensures var r := Without(es, ids);
            && |r| <= |es| && DistinctIds(r)
            && (forall e :: e in r <==> e in es && e.id !in ids)
  {
    if es != [] {
      var front, last := es[..|es| - 1], es[|es| - 1];
      WithoutKeepsTheRest(front, ids);
      assert es == front + [last];
      var rest := Without(front, ids);
      forall e | e in rest ensures e.id != last.id {
        var i :| 0 <= i < |front| && front[i] == e;
        assert es[i].id != es[|front|].id;
      }
    }
  }

  lemma RemovalIsSafe(es: seq<Entry>, i: nat)
    requires SafeList(es) && i < |es|
    ensures SafeList(es[..i] + es[i + 1..])
  {
    var r := es[..i] + es[i + 1..];
    assert forall j :: 0 <= j < |r| ==> r[j] == if j < i then es[j] else es[j + 1];
  }

  lemma PruneIsSafe(es: seq<Entry>, ids: set<string>)
    requires SafeList(es)
    ensures SafeList(Without(es, ids))
  {
    WithoutKeepsTheRest(es, ids);
    var r := Without(es, ids);
    forall i | 0 <= i < |r| ensures Safe(r[i]) {
      assert r[i] in es;
    }
  }

  lemma AppendIsSafe(es: seq<Entry>, e: Entry)
    requires SafeList(es) && |es| < MAX_ENTRIES && Safe(e) && forall i :: 0 <= i < |es| ==> es[i].id != e.id
    ensures SafeList(es + [e])
  {
  }

  lemma RewriteIsSafe(es: seq<Entry>, i: nat, e: Entry)
    requires SafeList(es) && i < |es| && SameRequest(e, es[i])
    requires e.attempts <= MAX_ATTEMPTS && !e.lastAttemptAt.NotATime?
    ensures SafeList(es[i := e])
  {
    assert CoreBytes(e) == CoreBytes(es[i]);
    assert forall j :: 0 <= j < |es| ==> es[i := e][j].id == es[j].id;
  }

  lemma IntentIsSafe(cfg: Config, b: Box, op: Op, io: Io)
    requires SafeList(b.entries) && cfg.retryDeadlineMs >= 0
    requires Careful(cfg, Up(b), Do(op, io)) && IntentOf(cfg, b, op).Intent?
    ensures SafeList(IntentOf(cfg, b, op).next) && SafeList(IntentOf(cfg, b, op).rollback)
  {
    var es := b.entries;
    match op
    case Append(q, now) => AppendIsSafe(es, NewEntry(cfg, q, now));
    case Acknowledge(id) => RemovalIsSafe(es, Find(es, id));
    case PruneTerminalUnknown(now) => PruneIsSafe(es, DroppedIds(es, now));
    case _ =>
      TransitionRewritesOne(cfg, b, op);
      var i := Find(es, op.id);
      assert Safe(es[i]);
      RewriteIsSafe(es, i, IntentOf(cfg, b, op).next[i]);
      RewriteIsSafe(es, i, IntentOf(cfg, b, op).rollback[i]);
  }

  lemma RestartIsSafe(es: seq<Entry>)
    requires SafeList(es)
    ensures SafeList(Restart(es)) && SameAfterRestart(es, Restart(es))
  {
    forall i | 0 <= i < |es| ensures Safe(Restart(es)[i]) {
      assert CoreBytes(Restarted(es[i])) == CoreBytes(es[i]);
    }
  }

  /** A safe file is never quarantined; what is loaded is its restart. */
  lemma SafeDiskOpens(cfg: Config, disk: Disk, now: int, io: Io)
    requires SafeDisk(cfg, disk)
    ensures var b := Open(cfg, disk, now, io);
            b.entries == Restart(Stored(cfg, disk)) && SafeSystem(cfg, Up(b)) && SafeSystem(cfg, Down(b.disk))
            && (b.disk == disk || Stored(cfg, b.disk) == b.entries)
  {
    hide EntryBytes, FileBytes, Valid1, Safe;
    var es := Stored(cfg, disk);
    SafeListLoads(es);
    RestartIsSafe(es);
    WrittenIsStored(cfg, disk, Restart(es));
    if disk.main.Some? {
      assert disk.main.value.entries == Typeds(es);
      if Lands(cfg, Restart(es), io) { ArrayFitsFile(cfg.peer, Restart(es)); }
      assert SameAfterRestart(Restart(es), Restart(es));
    }
  }

  lemma TornOnlyByTearing(cfg: Config, b: Box, op: Op)
    ensures IntentOf(cfg, b, op).Torn? <==> Tears(b.entries, op)
  {
  }

  lemma OperationIsSafe(cfg: Config, b: Box, op: Op, io: Io)
    requires SafeSystem(cfg, Up(b)) && cfg.retryDeadlineMs >= 0 && Careful(cfg, Up(b), Do(op, io))
    ensures SafeSystem(cfg, Up(Perform(cfg, b, op, io).box))
  {
    hide SafeList, FileBytes;
    match IntentOf(cfg, b, op)
    case Nothing(_) =>
    case Intent(next, rollback) =>
      IntentIsSafe(cfg, b, op, io);
      RollbackRestores(cfg, b, op);
      WrittenIsStored(cfg, b.disk, next);
      if Lands(cfg, next, io) { ArrayFitsFile(cfg.peer, next); }
  }

  lemma StepIsSafe(cfg: Config, s: System, e: Event)
    requires SafeSystem(cfg, s) && cfg.retryDeadlineMs >= 0 && Careful(cfg, s, e)
    ensures SafeSystem(cfg, Next(cfg, s, e))
  {
    match s
    case Down(disk) => if e.Start? || e.CrashStarting? { SafeDiskOpens(cfg, disk, e.now, e.io); }
    case Up(b) => if e.Do? || e.CrashDoing? { OperationIsSafe(cfg, b, e.op, e.io); }
  }

  // ---------------------------------------------------------------- following one entry

  /** The entries the system stands by: those in memory, or those a restart would find. */
  ghost function Visible(cfg: Config, s: System): seq<Entry>
    requires SafeSystem(cfg, s)
  {
    match s
    case Down(disk) => Stored(cfg, disk)
    case Up(b) => b.entries
  }

  /** The operation in this event changes the file. */
  ghost predicate Landed(cfg: Config, s: System, e: Event) {
    && s.Up? && (e.Do? || e.CrashDoing?)
    && IntentOf(cfg, s.box, e.op).Intent?
    && Lands(cfg, IntentOf(cfg, s.box, e.op).next, e.io)
  }

  ghost predicate Removes(cfg: Config, s: System, e: Event, id: string) {
    Landed(cfg, s, e) && (e.op == Acknowledge(id) || (e.op.PruneTerminalUnknown? && id in DroppedIds(s.box.entries, e.op.now)))
  }

  ghost predicate Retries(cfg: Config, s: System, e: Event, id: string) {
    Landed(cfg, s, e) && e.op.MarkRetryWait? && e.op.id == id
  }

  /** f is what e has become after k recorded retries. */
  predicate Continues(e: Entry, f: Entry, k: nat) {
    SameRequest(e, f) && f.attempts == e.attempts + k && (e.state == TerminalUnknown ==> f.state == TerminalUnknown)
  }

  ghost predicate Continued(es: seq<Entry>, e: Entry, k: nat) {
    exists f :: f in es && Continues(e, f, k)
  }

  lemma StartsContinued(es: seq<Entry>, e: Entry)
    requires e in es
    ensures Continued(es, e, 0)
  {
    assert Continues(e, e, 0);
  }

  lemma SameAfterRestartContinues(es: seq<Entry>, fs: seq<Entry>, e: Entry)
    requires SameAfterRestart(es, fs) && e in es
    ensures Continued(fs, e, 0)
  {
    var i :| 0 <= i < |es| && es[i] == e;
    assert Delivery(Restarted(es[i])) == Delivery(Restarted(fs[i]));
    assert Continues(e, fs[i], 0);
  }

  lemma SameAfterRestartIsSymmetric(es: seq<Entry>, fs: seq<Entry>)
    requires SameAfterRestart(es, fs)
    ensures SameAfterRestart(fs, es)
  {
  }

  lemma FindIsUnique(es: seq<Entry>, i: nat)
    requires DistinctIds(es) && i < |es|
    ensures Find(es, es[i].id) == i
  {
  }

  lemma AcknowledgedContinues(es: seq<Entry>, r: nat, e: Entry)
    requires DistinctIds(es) && r < |es| && e in es && e.id != es[r].id
    ensures Continued(es[..r] + es[r + 1..], e, 0)
  {
    var next := es[..r] + es[r + 1..];
    var i :| 0 <= i < |es| && es[i] == e;
    assert next[if i < r then i else i - 1] == e;
    StartsContinued(next, e);
  }

  lemma TransitionContinues(cfg: Config, b: Box, op: Op, e: Entry)
    requires DistinctIds(b.entries) && IsTransition(op) && IntentOf(cfg, b, op).Intent? && e in b.entries
    ensures Continued(IntentOf(cfg, b, op).next, e, if op.MarkRetryWait? && op.id == e.id then 1 else 0)
  {
    TransitionRewritesOne(cfg, b, op);
    hide IntentOf;
    var i :| 0 <= i < |b.entries| && b.entries[i] == e;
    FindIsUnique(b.entries, i);
    assert Continues(e, IntentOf(cfg, b, op).next[i], if op.MarkRetryWait? && op.id == e.id then 1 else 0);
  }

  /** A landed operation either removes an entry, which only an acknowledgement of its id or a
      pruning that drops it does, or carries it on. */
  lemma LandedContinues(cfg: Config, b: Box, op: Op, e: Entry)
    requires SafeList(b.entries) && IntentOf(cfg, b, op).Intent? && e in b.entries
    ensures op == Acknowledge(e.id) || (op.PruneTerminalUnknown? && e.id in DroppedIds(b.entries, op.now))
            || Continued(IntentOf(cfg, b, op).next, e, if op.MarkRetryWait? && op.id == e.id then 1 else 0)
  {
    hide Continued;
    var es := b.entries;
    match op
    case Append(_, _) =>
      assert e in es + [NewEntry(cfg, op.request, op.now)];
      StartsContinued(IntentOf(cfg, b, op).next, e);
    case Acknowledge(id) => if id != e.id { AcknowledgedContinues(es, Find(es, id), e); }
    case PruneTerminalUnknown(now) =>
      WithoutKeepsTheRest(es, DroppedIds(es, now));
      if e.id !in DroppedIds(es, now) { StartsContinued(IntentOf(cfg, b, op).next, e); }
    case _ => TransitionContinues(cfg, b, op, e);
  }

  /** An operation seen from one entry, in memory and on disk. */
  lemma OperationContinues(cfg: Config, b: Box, op: Op, io: Io, e: Entry)
    requires SafeSystem(cfg, Up(b)) && Careful(cfg, Up(b), Do(op, io)) && e in b.entries
    ensures var b' := Perform(cfg, b, op, io).box;
            var ev := Do(op, io);
            var k := if Retries(cfg, Up(b), ev, e.id) then 1 else 0;
            Removes(cfg, Up(b), ev, e.id)
            || (Continued(b'.entries, e, k) && OwnFile(cfg, b'.disk) && Continued(Stored(cfg, b'.disk), e, k))
  {
    hide IntentOf, SafeList, SameAfterRestart, Continued;
    SameAfterRestartIsSymmetric(Stored(cfg, b.disk), b.entries);
    SameAfterRestartContinues(b.entries, Stored(cfg, b.disk), e);
    match IntentOf(cfg, b, op)
    case Nothing(_) => StartsContinued(b.entries, e);
    case Torn(_) =>
      TornOnlyByTearing(cfg, b, op);
      assert false;
    case Intent(next, rollback) =>
      LandedContinues(cfg, b, op, e);
      WrittenIsStored(cfg, b.disk, next);
      RollbackRestores(cfg, b, op);
      SameAfterRestartIsSymmetric(rollback, b.entries);
      SameAfterRestartContinues(b.entries, rollback, e);
  }

  /** One step of a history, seen from one entry. */
  lemma StepContinues(cfg: Config, s: System, ev: Event, e: Entry)
    requires SafeSystem(cfg, s) && cfg.retryDeadlineMs >= 0 && Careful(cfg, s, ev)
    requires e in Visible(cfg, s)
    ensures SafeSystem(cfg, Next(cfg, s, ev))
    ensures Removes(cfg, s, ev, e.id)
            || Continued(Visible(cfg, Next(cfg, s, ev)), e, if Retries(cfg, s, ev, e.id) then 1 else 0)
  {
    StepIsSafe(cfg, s, ev);
    hide Open, Perform, Careful, SafeSystem, IntentOf, Continued, Stored, Removes, Retries;
    match s
    case Down(disk) => DownContinues(cfg, disk, ev, e);
    case Up(b) => UpContinues(cfg, b, ev, e);
  }

  lemma DownContinues(cfg: Config, disk: Disk, ev: Event, e: Entry)
    requires SafeSystem(cfg, Down(disk)) && e in Stored(cfg, disk) && SafeSystem(cfg, Next(cfg, Down(disk), ev))
    ensures Continued(Visible(cfg, Next(cfg, Down(disk), ev)), e, 0) && !Retries(cfg, Down(disk), ev, e.id)
  {
    OperationsLand(cfg, Down(disk), ev, e.id);
    assert OwnFile(cfg, disk);
    hide Open, SafeSystem, Continued, Stored, Retries;
    StartsContinued(Stored(cfg, disk), e);
    if ev.Start? || ev.CrashStarting? { OpeningContinues(cfg, disk, ev.now, ev.io, e); }
  }

  lemma UpContinues(cfg: Config, b: Box, ev: Event, e: Entry)
    requires SafeSystem(cfg, Up(b)) && Careful(cfg, Up(b), ev) && e in b.entries && SafeSystem(cfg, Next(cfg, Up(b), ev))
    ensures Removes(cfg, Up(b), ev, e.id)
            || Continued(Visible(cfg, Next(cfg, Up(b), ev)), e, if Retries(cfg, Up(b), ev, e.id) then 1 else 0)
  {
    OperationsLand(cfg, Up(b), ev, e.id);
    hide Perform, SafeSystem, Continued, Stored, Removes, Retries, IntentOf;
    StartsContinued(b.entries, e);
    if ev.Do? || ev.CrashDoing? {
      OperationContinues(cfg, b, ev.op, ev.io, e);
    } else if ev.Kill? {
      KillContinues(cfg, b, e);
    }
  }

  /** Only operations remove or retry, and a crash after the write makes no difference to that. */
  lemma OperationsLand(cfg: Config, s: System, ev: Event, id: string)
    ensures if s.Up? && (ev.Do? || ev.CrashDoing?)
            then (Removes(cfg, s, ev, id) <==> Removes(cfg, s, Do(ev.op, ev.io), id))
                 && (Retries(cfg, s, ev, id) <==> Retries(cfg, s, Do(ev.op, ev.io), id))
            else !Retries(cfg, s, ev, id)
  {
  }

  lemma OpeningContinues(cfg: Config, disk: Disk, now: int, io: Io, e: Entry)
    requires SafeSystem(cfg, Down(disk)) && e in Stored(cfg, disk)
    ensures var b := Open(cfg, disk, now, io);
            Continued(b.entries, e, 0) && OwnFile(cfg, b.disk) && Continued(Stored(cfg, b.disk), e, 0)
  {
    SafeDiskOpens(cfg, disk, now, io);
    hide Open, SafeList, Continued, SameAfterRestart;
    RestartIsSafe(Stored(cfg, disk));
    SameAfterRestartContinues(Stored(cfg, disk), Restart(Stored(cfg, disk)), e);
    StartsContinued(Stored(cfg, disk), e);
  }

  lemma KillContinues(cfg: Config, b: Box, e: Entry)
    requires SafeSystem(cfg, Up(b)) && e in b.entries
    ensures OwnFile(cfg, b.disk) && Continued(Stored(cfg, b.disk), e, 0)
  {
    SafeUpFacts(cfg, b);
    hide SafeList, SameAfterRestart, Continued, Stored;
    SameAfterRestartIsSymmetric(Stored(cfg, b.disk), b.entries);
    SameAfterRestartContinues(b.entries, Stored(cfg, b.disk), e);
  }

  lemma StepCarriesOn(cfg: Config, s: System, ev: Event, e: Entry, k: nat)
    requires SafeSystem(cfg, s) && cfg.retryDeadlineMs >= 0 && Careful(cfg, s, ev)
    requires Continued(Visible(cfg, s), e, k)
    ensures SafeSystem(cfg, Next(cfg, s, ev))
    ensures Removes(cfg, s, ev, e.id)
            || Continued(Visible(cfg, Next(cfg, s, ev)), e, k + if Retries(cfg, s, ev, e.id) then 1 else 0)
  {
    hide SafeSystem, Careful, Removes, Retries, Visible, Next;
    var f :| f in Visible(cfg, s) && Continues(e, f, k);
    StepContinues(cfg, s, ev, f);
    var r := if Retries(cfg, s, ev, e.id) then 1 else 0;
    if !Removes(cfg, s, ev, e.id) {
      var g :| g in Visible(cfg, Next(cfg, s, ev)) && Continues(f, g, r);
      assert Continues(e, g, k + r);
    }
  }

  // ---------------------------------------------------------------- whole histories

  ghost predicate CarefulRun(cfg: Config, s: System, events: seq<Event>) {
    events != [] ==>
      CarefulRun(cfg, s, events[..|events| - 1])
      && Careful(cfg, After(cfg, s, events[..|events| - 1]), events[|events| - 1])
  }

  ghost predicate RemovedIn(cfg: Config, s: System, events: seq<Event>, id: string) {
    events != [] &&
      (RemovedIn(cfg, s, events[..|events| - 1], id)
       || Removes(cfg, After(cfg, s, events[..|events| - 1]), events[|events| - 1], id))
  }

  /** How many retries of that id were recorded durably. */
  ghost function RetriesIn(cfg: Config, s: System, events: seq<Event>, id: string): nat {
    if events == [] then 0
    else
      var prior := events[..|events| - 1];
      RetriesIn(cfg, s, prior, id) + if Retries(cfg, After(cfg, s, prior), events[|events| - 1], id) then 1 else 0
  }

  lemma {:induction false} RunIsSafe(cfg: Config, s: System, events: seq<Event>)
    requires SafeSystem(cfg, s) && cfg.retryDeadlineMs >= 0 && CarefulRun(cfg, s, events)
    ensures SafeSystem(cfg, After(cfg, s, events))
  {
    if events != [] {
      RunIsSafe(cfg, s, events[..|events| - 1]);
      StepIsSafe(cfg, After(cfg, s, events[..|events| - 1]), events[|events| - 1]);
    }
  }

  /** Durability. Through any history of operations, failed writes, crashes and restarts, an entry
      stays with its request, body, creation time and deadline unchanged until an acknowledgement of
      its id or a pruning that drops it reaches the disk; its attempts grow by exactly the retries
      recorded; and once terminal-unknown it stays so. */
  lemma {:induction false} EntriesSurvive(cfg: Config, s: System, events: seq<Event>, e: Entry)
    requires SafeSystem(cfg, s) && cfg.retryDeadlineMs >= 0 && CarefulRun(cfg, s, events)
    requires e in Visible(cfg, s)
    ensures SafeSystem(cfg, After(cfg, s, events))
    ensures RemovedIn(cfg, s, events, e.id)
            || Continued(Visible(cfg, After(cfg, s, events)), e, RetriesIn(cfg, s, events, e.id))
  {
    hide SafeSystem, Careful, Removes, Retries, Visible, Next, Continued;
    if events == [] {
      StartsContinued(Visible(cfg, s), e);
    } else {
      var prior, ev := events[..|events| - 1], events[|events| - 1];
      EntriesSurvive(cfg, s, prior, e);
      if RemovedIn(cfg, s, prior, e.id) {
        StepIsSafe(cfg, After(cfg, s, prior), ev);
      } else {
        StepCarriesOn(cfg, After(cfg, s, prior), ev, e, RetriesIn(cfg, s, prior, e.id));
      }
    }
  }

  /** An entry of this request, admitted at that time. */
  predicate IsRequest(e: Entry, q: Request, now: int, deadlineAt: int) {
    && e.id == q.id && e.methodName == q.methodName && e.requestId == q.requestId && e.idempotencyKey == q.idempotencyKey
    && e.body == q.body && e.version == q.version && e.payload == q.payload
    && e.createdAt == now && e.deadlineAt == deadlineAt
  }

  /** Once `append` has answered true, the request is durable: its id, method, request id, key, body,
      version and payload, the time it was admitted and its deadline, and as many attempts as retries
      were recorded. */
  lemma AppendedRequestSurvives(cfg: Config, b: Box, q: Request, now: int, io: Io, events: seq<Event>)
    requires SafeSystem(cfg, Up(b)) && cfg.retryDeadlineMs >= 0 && Careful(cfg, Up(b), Do(Append(q, now), io))
    requires Perform(cfg, b, Append(q, now), io).ok
    requires CarefulRun(cfg, Up(Perform(cfg, b, Append(q, now), io).box), events)
    ensures var s := Up(Perform(cfg, b, Append(q, now), io).box);
            SafeSystem(cfg, After(cfg, s, events))
            && (RemovedIn(cfg, s, events, q.id)
                || exists f :: f in Visible(cfg, After(cfg, s, events))
                               && IsRequest(f, q, now, now + cfg.retryDeadlineMs) && f.attempts == RetriesIn(cfg, s, events, q.id))
  {
    hide SafeSystem, Careful, CarefulRun, Perform, Continued, IsRequest, After, Visible, RemovedIn, RetriesIn;
    OperationIsSafe(cfg, b, Append(q, now), io);
    var b', e := Perform(cfg, b, Append(q, now), io).box, NewEntry(cfg, q, now);
    AppendedIsVisible(cfg, b, q, now, io);
    EntriesSurvive(cfg, Up(b'), events, e);
    if !RemovedIn(cfg, Up(b'), events, q.id) {
      ContinuedRequest(Visible(cfg, After(cfg, Up(b'), events)), e, q, now, now + cfg.retryDeadlineMs, RetriesIn(cfg, Up(b'), events, q.id));
    }
  }

  lemma AppendedIsVisible(cfg: Config, b: Box, q: Request, now: int, io: Io)
    requires Perform(cfg, b, Append(q, now), io).ok && SafeSystem(cfg, Up(Perform(cfg, b, Append(q, now), io).box))
    ensures var e := NewEntry(cfg, q, now);
            && e in Visible(cfg, Up(Perform(cfg, b, Append(q, now), io).box)) && e.id == q.id
            && IsRequest(e, q, now, now + cfg.retryDeadlineMs) && e.attempts == 0
  {
    assert Perform(cfg, b, Append(q, now), io).box.entries[|b.entries|] == NewEntry(cfg, q, now);
  }

  lemma ContinuedRequest(es: seq<Entry>, e: Entry, q: Request, now: int, deadlineAt: int, k: nat)
    requires Continued(es, e, k) && IsRequest(e, q, now, deadlineAt) && e.attempts == 0
    ensures exists f :: f in es && IsRequest(f, q, now, deadlineAt) && f.attempts == k
  {
    var f :| f in es && Continues(e, f, k);
    assert IsRequest(f, q, now, deadlineAt);
  }

  // ---------------------------------------------------------------- one send at a time

  /** Operations of one running instance that record no retry of that id. */
  ghost predicate NoRetryOf(cfg: Config, s: System, events: seq<Event>, id: string) {
    events != [] ==>
      var prior := events[..|events| - 1];
      NoRetryOf(cfg, s, prior, id) && events[|events| - 1].Do?
      && !Retries(cfg, After(cfg, s, prior), events[|events| - 1], id)
  }

  ghost predicate InFlightOrBeyond(es: seq<Entry>, id: string) {
    forall i :: 0 <= i < |es| && es[i].id == id ==> es[i].state in {InFlight, TerminalUnknown}
  }

  lemma TransitionStaysInFlight(cfg: Config, b: Box, op: Op, io: Io, id: string)
    requires IsTransition(op) && IntentOf(cfg, b, op).Intent?
    requires InFlightOrBeyond(b.entries, id) && (op.MarkRetryWait? ==> op.id != id)
    ensures InFlightOrBeyond(IntentOf(cfg, b, op).next, id)
  {
    TransitionRewritesOne(cfg, b, op);
  }

  lemma RollbackStaysInFlight(cfg: Config, b: Box, op: Op, id: string)
    requires IntentOf(cfg, b, op).Intent? && InFlightOrBeyond(b.entries, id)
    ensures InFlightOrBeyond(IntentOf(cfg, b, op).rollback, id)
  {
  }

  lemma NextStaysInFlight(cfg: Config, b: Box, op: Op, io: Io, id: string)
    requires DistinctIds(b.entries) && IntentOf(cfg, b, op).Intent?
    requires InFlightOrBeyond(b.entries, id) && (op.MarkRetryWait? ==> op.id != id)
    requires op.Append? ==> op.request.id != id
    ensures InFlightOrBeyond(IntentOf(cfg, b, op).next, id)
  {
    var es, next := b.entries, IntentOf(cfg, b, op).next;
    match op
    case Append(_, _) =>
    case Acknowledge(a) =>
      var r := Find(es, a);
      assert forall j :: 0 <= j < |next| ==> next[j] == if j < r then es[j] else es[j + 1];
    case PruneTerminalUnknown(now) =>
      WithoutKeepsTheRest(es, DroppedIds(es, now));
      forall i | 0 <= i < |next| && next[i].id == id ensures next[i].state in {InFlight, TerminalUnknown} {
        assert next[i] in es;
      }
    case _ => TransitionStaysInFlight(cfg, b, op, io, id);
  }

  lemma StepStaysInFlight(cfg: Config, b: Box, op: Op, io: Io, id: string)
    requires DistinctIds(b.entries)
    requires InFlightOrBeyond(b.entries, id) && !Retries(cfg, Up(b), Do(op, io), id) && !Tears(b.entries, op)
    requires op.Append? ==> op.request.id != id
    ensures InFlightOrBeyond(Perform(cfg, b, op, io).box.entries, id)
  {
    TornOnlyByTearing(cfg, b, op);
    hide InFlightOrBeyond, DistinctIds;
    if IntentOf(cfg, b, op).Intent? {
      RollbackStaysInFlight(cfg, b, op, id);
      if Lands(cfg, IntentOf(cfg, b, op).next, io) { NextStaysInFlight(cfg, b, op, io, id); }
    }
  }

  lemma {:induction false} StaysInFlight(cfg: Config, b: Box, events: seq<Event>, id: string)
    requires SafeSystem(cfg, Up(b)) && cfg.retryDeadlineMs >= 0 && CarefulRun(cfg, Up(b), events)
    requires InFlightOrBeyond(b.entries, id) && NoRetryOf(cfg, Up(b), events, id)
    requires forall i :: 0 <= i < |events| && events[i].Do? && events[i].op.Append? ==> events[i].op.request.id != id
    ensures var s := After(cfg, Up(b), events); s.Up? && InFlightOrBeyond(s.box.entries, id)
  {
    hide SafeSystem, InFlightOrBeyond, Perform, Retries, Tears;
    if events != [] {
      var prior, e := events[..|events| - 1], events[|events| - 1];
      StaysInFlight(cfg, b, prior, id);
      RunIsSafe(cfg, Up(b), prior);
      var s := After(cfg, Up(b), prior);
      CarefulNeverTears(cfg, s, e);
      StepStaysInFlight(cfg, s.box, e.op, e.io, id);
    }
  }

  lemma CarefulNeverTears(cfg: Config, s: System, e: Event)
    requires SafeSystem(cfg, s) && Careful(cfg, s, e) && s.Up? && e.Do?
    ensures !Tears(s.box.entries, e.op) && DistinctIds(s.box.entries)
  {
  }

  /** A successful `markInFlight` leaves the only entry of its id in flight. */
  lemma MarkedIsInFlight(cfg: Config, b: Box, id: string, now: int, io: Io)
    requires DistinctIds(b.entries) && Perform(cfg, b, MarkInFlight(id, now), io).ok
    ensures InFlightOrBeyond(Perform(cfg, b, MarkInFlight(id, now), io).box.entries, id)
  {
    TransitionMoves(cfg, b, MarkInFlight(id, now), io);
    var i := Find(b.entries, id);
    assert forall j :: 0 <= j < |b.entries| && j != i ==> b.entries[j].id != id;
  }

  /** Between two successful `markInFlight` of one id lies a recorded retry or a restart: after the
      first, as long as neither happens and the id is not admitted anew, a second one is refused. */
  lemma SecondSendIsRefused(cfg: Config, b: Box, id: string, now: int, io: Io, events: seq<Event>)
    requires SafeSystem(cfg, Up(b)) && cfg.retryDeadlineMs >= 0 && Perform(cfg, b, MarkInFlight(id, now), io).ok
    requires var s := Up(Perform(cfg, b, MarkInFlight(id, now), io).box);
             CarefulRun(cfg, s, events) && NoRetryOf(cfg, s, events, id)
    requires forall i :: 0 <= i < |events| && events[i].Do? && events[i].op.Append? ==> events[i].op.request.id != id
    ensures var s := After(cfg, Up(Perform(cfg, b, MarkInFlight(id, now), io).box), events);
            s.Up? && forall later, io' :: Perform(cfg, s.box, MarkInFlight(id, later), io') == Outcome(s.box, false)
  {
    OperationIsSafe(cfg, b, MarkInFlight(id, now), io);
    MarkedIsInFlight(cfg, b, id, now, io);
    var sent := Perform(cfg, b, MarkInFlight(id, now), io).box;
    StaysInFlight(cfg, sent, events, id);
    InFlightIsRefused(cfg, After(cfg, Up(sent), events).box, id);
  }

  lemma InFlightIsRefused(cfg: Config, b: Box, id: string)
    requires InFlightOrBeyond(b.entries, id)
    ensures forall later, io :: Perform(cfg, b, MarkInFlight(id, later), io) == Outcome(b, false)
  {
  }

  // ---------------------------------------------------------------- removed for good

  ghost predicate Absent(es: seq<Entry>, id: string) {
    forall i :: 0 <= i < |es| ==> es[i].id != id
  }

  lemma TransitionKeepsAbsent(cfg: Config, b: Box, op: Op, id: string)
    requires Absent(b.entries, id) && IsTransition(op) && IntentOf(cfg, b, op).Intent?
    ensures Absent(IntentOf(cfg, b, op).next, id) && Absent(IntentOf(cfg, b, op).rollback, id)
  {
    TransitionRewritesOne(cfg, b, op);
    hide IntentOf;
  }

  lemma IntentKeepsAbsent(cfg: Config, b: Box, op: Op, id: string)
    requires SafeList(b.entries) && Absent(b.entries, id) && IntentOf(cfg, b, op).Intent?
    requires op.Append? ==> op.request.id != id
    ensures Absent(IntentOf(cfg, b, op).next, id) && Absent(IntentOf(cfg, b, op).rollback, id)
  {
    var es, next := b.entries, IntentOf(cfg, b, op).next;
    match op
    case Append(_, _) =>
    case Acknowledge(a) => CutKeepsAbsent(es, Find(es, a), id);
    case PruneTerminalUnknown(now) => PruneKeepsAbsent(es, DroppedIds(es, now), id);
    case _ => TransitionKeepsAbsent(cfg, b, op, id);
  }

  lemma CutKeepsAbsent(es: seq<Entry>, r: nat, id: string)
    requires r < |es| && Absent(es, id)
    ensures Absent(es[..r] + es[r + 1..], id)
  {
    var next := es[..r] + es[r + 1..];
    assert forall j :: 0 <= j < |next| ==> next[j] == if j < r then es[j] else es[j + 1];
  }

  lemma PruneKeepsAbsent(es: seq<Entry>, ids: set<string>, id: string)
    requires DistinctIds(es) && Absent(es, id)
    ensures Absent(Without(es, ids), id)
  {
    WithoutKeepsTheRest(es, ids);
    var next := Without(es, ids);
    forall i | 0 <= i < |next| ensures next[i].id != id { assert next[i] in es; }
  }

  ghost predicate AbsentEverywhere(cfg: Config, s: System, id: string)
    requires SafeSystem(cfg, s)
  {
    match s
    case Down(disk) => Absent(Stored(cfg, disk), id)
    case Up(b) => Absent(b.entries, id) && Absent(Stored(cfg, b.disk), id)
  }

  lemma OperationKeepsAbsent(cfg: Config, b: Box, op: Op, io: Io, id: string)
    requires SafeList(b.entries) && Absent(b.entries, id) && OwnFile(cfg, b.disk) && Absent(Stored(cfg, b.disk), id)
    requires op.Append? ==> op.request.id != id
    ensures var b' := Perform(cfg, b, op, io).box;
            Absent(b'.entries, id) && OwnFile(cfg, b'.disk) && Absent(Stored(cfg, b'.disk), id)
  {
    hide SafeList, IntentOf, Stored, OwnFile, Absent;
    match IntentOf(cfg, b, op)
    case Nothing(_) =>
    case Torn(_) => TornKeepsAbsent(cfg, b, op, id);
    case Intent(next, _) =>
      IntentKeepsAbsent(cfg, b, op, id);
      WrittenIsStored(cfg, b.disk, next);
  }

  lemma SafeUpFacts(cfg: Config, b: Box)
    requires SafeSystem(cfg, Up(b))
    ensures SafeList(b.entries) && DistinctIds(b.entries) && OwnFile(cfg, b.disk)
    ensures SameAfterRestart(Stored(cfg, b.disk), b.entries)
  {
  }

  lemma TornKeepsAbsent(cfg: Config, b: Box, op: Op, id: string)
    requires Absent(b.entries, id) && IntentOf(cfg, b, op).Torn?
    ensures Absent(IntentOf(cfg, b, op).partial, id)
  {
  }

  lemma StepKeepsAbsent(cfg: Config, s: System, e: Event, id: string)
    requires SafeSystem(cfg, s) && cfg.retryDeadlineMs >= 0 && Careful(cfg, s, e) && AbsentEverywhere(cfg, s, id)
    requires (e.Do? || e.CrashDoing?) && e.op.Append? ==> e.op.request.id != id
    ensures SafeSystem(cfg, Next(cfg, s, e)) && AbsentEverywhere(cfg, Next(cfg, s, e), id)
  {
    hide Open, Perform, Careful, SafeList;
    StepIsSafe(cfg, s, e);
    match s
    case Down(disk) => if e.Start? || e.CrashStarting? { SafeDiskOpens(cfg, disk, e.now, e.io); }
    case Up(b) => if e.Do? || e.CrashDoing? { SafeUpFacts(cfg, b); OperationKeepsAbsent(cfg, b, e.op, e.io, id); }
  }

  /** A removed request never comes back, whatever fails or restarts later, unless its id is
      admitted anew. */
  lemma {:induction false} RemovedStaysAway(cfg: Config, s: System, events: seq<Event>, id: string)
    requires SafeSystem(cfg, s) && cfg.retryDeadlineMs >= 0 && CarefulRun(cfg, s, events) && AbsentEverywhere(cfg, s, id)
    requires forall i :: 0 <= i < |events| && (events[i].Do? || events[i].CrashDoing?) && events[i].op.Append? ==> events[i].op.request.id != id
    ensures SafeSystem(cfg, After(cfg, s, events)) && AbsentEverywhere(cfg, After(cfg, s, events), id)
  {
    hide SafeSystem, Careful, AbsentEverywhere, Next;
    if events != [] {
      var prior := events[..|events| - 1];
      RemovedStaysAway(cfg, s, prior, id);
      StepKeepsAbsent(cfg, After(cfg, s, prior), events[|events| - 1], id);
    }
  }

  lemma SameIdsAfterRestart(es: seq<Entry>, fs: seq<Entry>, id: string)
    requires SameAfterRestart(es, fs) && Absent(fs, id)
    ensures Absent(es, id)
  {
    forall j | 0 <= j < |es| ensures es[j].id != id {
      assert Delivery(Restarted(es[j])) == Delivery(Restarted(fs[j]));
    }
  }

  lemma RemovalLeavesAbsent(es: seq<Entry>, i: nat)
    requires DistinctIds(es) && i < |es|
    ensures Absent(es[..i] + es[i + 1..], es[i].id)
  {
    var next := es[..i] + es[i + 1..];
    assert forall j :: 0 <= j < |next| ==> next[j] == if j < i then es[j] else es[j + 1];
  }

  lemma AcknowledgedLists(cfg: Config, b: Box, id: string, io: Io)
    requires DistinctIds(b.entries) && OwnFile(cfg, b.disk) && SameAfterRestart(Stored(cfg, b.disk), b.entries)
    requires Perform(cfg, b, Acknowledge(id), io).ok
    ensures var b' := Perform(cfg, b, Acknowledge(id), io).box;
            Absent(b'.entries, id) && OwnFile(cfg, b'.disk) && Absent(Stored(cfg, b'.disk), id)
  {
    AcknowledgedBox(cfg, b, id, io);
    hide Perform, Stored, OwnFile, SameAfterRestart, DistinctIds;
    var es, i := b.entries, Find(b.entries, id);
    if i == |es| {
      SameIdsAfterRestart(Stored(cfg, b.disk), es, id);
    } else {
      RemovalLeavesAbsent(es, i);
      WrittenIsStored(cfg, b.disk, es[..i] + es[i + 1..]);
    }
  }

  /** A successful acknowledgement is such a removal, in memory and on disk. */
  lemma AcknowledgedIsAbsent(cfg: Config, b: Box, id: string, io: Io)
    requires SafeSystem(cfg, Up(b)) && cfg.retryDeadlineMs >= 0 && Perform(cfg, b, Acknowledge(id), io).ok
    ensures var s := Up(Perform(cfg, b, Acknowledge(id), io).box); SafeSystem(cfg, s) && AbsentEverywhere(cfg, s, id)
  {
    OperationIsSafe(cfg, b, Acknowledge(id), io);
    SafeUpFacts(cfg, b);
    AcknowledgedLists(cfg, b, id, io);
    hide SafeSystem, Perform, Stored, Absent;
  }

  lemma AcknowledgedBox(cfg: Config, b: Box, id: string, io: Io)
    requires Perform(cfg, b, Acknowledge(id), io).ok
    ensures var b', i := Perform(cfg, b, Acknowledge(id), io).box, Find(b.entries, id);
            if i == |b.entries| then b' == b
            else b'.entries == b.entries[..i] + b.entries[i + 1..] && b'.disk == Written(cfg, b.disk, b'.entries)
  {
  }

  // ---------------------------------------------------------------- pruning

  function TerminalCount(es: seq<Entry>): nat {
    if es == [] then 0
    else TerminalCount(es[..|es| - 1]) + if es[|es| - 1].state == TerminalUnknown then 1 else 0
  }

  lemma {:induction false} DroppedIdsAreTerminal(es: seq<Entry>, now: int, id: string)
    requires id in DroppedIds(es, now)
    ensures exists i :: 0 <= i < |es| && es[i].id == id && es[i].state == TerminalUnknown
  {
    var front := es[..|es| - 1];
    if id in DroppedIds(front, now) {
      DroppedIdsAreTerminal(front, now, id);
      var i :| 0 <= i < |front| && front[i].id == id && front[i].state == TerminalUnknown;
      assert es[i] == front[i];
    }
  }

  lemma {:induction false} WithoutIgnoresForeign(es: seq<Entry>, ids: set<string>, id: string)
    requires Absent(es, id)
    ensures Without(es, ids + {id}) == Without(es, ids)
  {
    if es != [] {
      WithoutIgnoresForeign(es[..|es| - 1], ids, id);
    }
  }

  /** What pruning leaves of a list. */
  ghost predicate Pruned(es: seq<Entry>, r: seq<Entry>, now: int) {
    && TerminalCount(r) == Kept(es, now) <= TERMINAL_MAX_ENTRIES
    && (forall e :: e in r && e.state == TerminalUnknown ==> !Expired(e, now))
    && (forall e :: e in es && e.state != TerminalUnknown ==> e in r)
  }

  lemma PrunedKeeping(front: seq<Entry>, rest: seq<Entry>, last: Entry, now: int)
    requires Pruned(front, rest, now)
    requires last.state == TerminalUnknown ==> !Expired(last, now) && Kept(front, now) < TERMINAL_MAX_ENTRIES
    ensures Pruned(front + [last], rest + [last], now)
  {
    var es, r := front + [last], rest + [last];
    assert es[..|front|] == front && r[..|rest|] == rest;
    assert forall e :: e in es <==> e in front || e == last;
    assert forall e :: e in r <==> e in rest || e == last;
  }

  lemma PrunedDropping(front: seq<Entry>, rest: seq<Entry>, last: Entry, now: int)
    requires Pruned(front, rest, now)
    requires last.state == TerminalUnknown && (Expired(last, now) || Kept(front, now) >= TERMINAL_MAX_ENTRIES)
    ensures Pruned(front + [last], rest, now)
  {
    var es := front + [last];
    assert es[..|front|] == front;
    assert forall e :: e in es <==> e in front || e == last;
  }

  lemma LastIsUnique(es: seq<Entry>)
    requires DistinctIds(es) && es != []
    ensures Absent(es[..|es| - 1], es[|es| - 1].id) && DistinctIds(es[..|es| - 1])
  {
  }

  lemma LastNotDroppedEarlier(front: seq<Entry>, id: string, now: int)
    requires Absent(front, id)
    ensures id !in DroppedIds(front, now)
  {
    if id in DroppedIds(front, now) {
      DroppedIdsAreTerminal(front, now, id);
    }
  }

  lemma NothingToPrune(now: int)
    ensures Pruned([], Without([], DroppedIds([], now)), now)
  {
  }

  /** Pruning removes terminal-unknown entries only; it leaves at most the allowed number of them,
      none of which has outlived its retention. */
  lemma {:induction false} PruningKeepsTheRecent(es: seq<Entry>, now: int)
    requires DistinctIds(es)
    ensures Pruned(es, Without(es, DroppedIds(es, now)), now)
  {
    hide Pruned, DistinctIds, Absent, Expired, Kept;
    if es == [] {
      NothingToPrune(now);
    } else {
      var front, last := es[..|es| - 1], es[|es| - 1];
      LastIsUnique(es);
      PruningKeepsTheRecent(front, now);
      WithoutIgnoresForeign(front, DroppedIds(front, now), last.id);
      LastNotDroppedEarlier(front, last.id, now);
      assert es == front + [last];
      var rest := Without(front, DroppedIds(front, now));
      if last.state == TerminalUnknown && (Expired(last, now) || Kept(front, now) >= TERMINAL_MAX_ENTRIES) {
        PrunedDropping(front, rest, last, now);
      } else {
        PrunedKeeping(front, rest, last, now);
      }
    }
  }
}
