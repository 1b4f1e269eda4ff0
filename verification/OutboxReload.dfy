/**
 Which histories leave a state file that the next load takes over, rather than quarantines. The outbox
 checks less when it writes than when it loads, and `load` itself is one of the writers.
 */
module OutboxReload {
  import opened Wrappers
  import opened Outbox
  import opened OutboxRuns

  // ---------------------------------------------------------------- what load takes over

  /** No file, or one that `load` takes over. */
  ghost predicate Readable(cfg: Config, disk: Disk) {
    match disk.main
    case None => true
    case Some(Corrupt) => false
    case Some(FileV1(peer, rs)) => peer == cfg.peer && AcceptsV1(rs)
    case Some(FileV2(peer, rs)) => peer == cfg.peer && AcceptsV2(rs)
  }

  /** The migrated entries of a first-format file reach the disk. */
  ghost predicate MigrationLands(cfg: Config, disk: Disk, now: int, io: Io) {
    disk.main.Some? && disk.main.value.FileV1? && AcceptsV1(disk.main.value.entriesV1)
    && Lands(cfg, MigrateAll(Values(disk.main.value.entriesV1), cfg.retryDeadlineMs, now), io)
  }

  /** `load` quarantines exactly the files that are not readable, and those it fails to migrate. */
  lemma QuarantinedExactly(cfg: Config, disk: Disk, now: int, io: Io)
    ensures Open(cfg, disk, now, io).quarantined <==>
              !Readable(cfg, disk) || (disk.main.Some? && disk.main.value.FileV1? && !MigrationLands(cfg, disk, now, io))
  {
    hide AcceptsV1, AcceptsV2, MigrateAll, FileBytes;
  }

  predicate Fits(e: Entry) {
    EntryBytes(e) <= MAX_ENTRY_BYTES
  }

  /** All that `load` demands of a list of entries, except their sizes. */
  ghost predicate Shaped(es: seq<Entry>) {
    |es| <= MAX_ENTRIES && DistinctIds(es) && forall i :: 0 <= i < |es| ==> ValidEntry(Typed(es[i]))
  }

  ghost predicate AllFit(es: seq<Entry>) {
    forall i :: 0 <= i < |es| ==> Fits(es[i])
  }

  ghost predicate OthersFit(es: seq<Entry>, i: nat) {
    forall j :: 0 <= j < |es| && j != i ==> Fits(es[j])
  }

  lemma LoadsExactly(peer: string, es: seq<Entry>)
    requires FileBytes(peer, es) <= MAX_FILE_BYTES
    ensures Loads(es) <==> Shaped(es) && AllFit(es)
  {
    ArrayFitsFile(peer, es);
    hide EntryBytes, ArrayBytes;
    var rs := Typeds(es);
    assert forall i :: 0 <= i < |es| ==> rs[i].value == es[i];
  }

  // ---------------------------------------------------------------- load as a writer

  /** Normalising makes an in-flight entry without a next attempt one byte longer, and no other. */
  lemma RestartedBytes(e: Entry)
    ensures Fits(Restarted(e)) || !Fits(e) || (e.state == InFlight && e.nextAttemptAt.None? && EntryBytes(e) == MAX_ENTRY_BYTES)
    ensures Fits(e) && e.state == InFlight && e.nextAttemptAt.None? && EntryBytes(e) == MAX_ENTRY_BYTES ==> !Fits(Restarted(e))
  {
  }

  /** No entry that a restart makes longer is at the bound already. */
  predicate RoomToNormalise(es: seq<Entry>) {
    forall i :: 0 <= i < |es| && es[i].state == InFlight && es[i].nextAttemptAt.None? ==> EntryBytes(es[i]) < MAX_ENTRY_BYTES
  }

  lemma RestartIsShaped(es: seq<Entry>)
    requires Shaped(es)
    ensures Shaped(Restart(es))
  {
  }

  /** The file that `load` writes after normalising one it has taken over loads again exactly if no
      in-flight entry without a next attempt was at the bound. */
  lemma NormalisedFileLoads(cfg: Config, rs: seq<Raw<Entry>>, io: Io)
    requires AcceptsV2(rs) && Lands(cfg, Restart(Values(rs)), io)
    ensures Loads(Restart(Values(rs))) <==>
              forall i :: 0 <= i < |rs| && rs[i].value.state == InFlight && rs[i].value.nextAttemptAt.None? ==>
                EntryBytes(rs[i].value) < MAX_ENTRY_BYTES
  {
    var es := Values(rs);
    AcceptedIsShaped(rs);
    RestartIsShaped(es);
    LoadsExactly(cfg.peer, Restart(es));
    RestartFits(es);
    assert forall i :: 0 <= i < |rs| ==> es[i] == rs[i].value;
  }

  lemma AcceptedIsShaped(rs: seq<Raw<Entry>>)
    requires AcceptsV2(rs)
    ensures Shaped(Values(rs)) && AllFit(Values(rs))
  {
    hide EntryBytes, ArrayBytes;
    var es := Values(rs);
    assert forall i :: 0 <= i < |rs| ==> rs[i] == Typed(es[i]);
  }

  lemma AcceptedAreTyped(rs: seq<Raw<Entry>>)
    requires AcceptsV2(rs)
    ensures forall i :: 0 <= i < |rs| ==> rs[i].Typed?
  {
  }

  lemma RestartFits(es: seq<Entry>)
    requires AllFit(es)
    ensures AllFit(Restart(es)) <==> RoomToNormalise(es)
  {
    hide EntryBytes;
    forall i | 0 <= i < |es|
      ensures Fits(Restart(es)[i]) <==> !(es[i].state == InFlight && es[i].nextAttemptAt.None? && EntryBytes(es[i]) == MAX_ENTRY_BYTES)
    {
      RestartedBytes(es[i]);
    }
  }

  // ---------------------------------------------------------------- operations as writers

  lemma RemovalIsShaped(es: seq<Entry>, i: nat)
    requires Shaped(es) && i < |es|
    ensures Shaped(es[..i] + es[i + 1..])
    ensures AllFit(es[..i] + es[i + 1..]) <==> OthersFit(es, i)
  {
    hide Fits, ValidEntry;
    var r := es[..i] + es[i + 1..];
    assert forall j :: 0 <= j < |r| ==> r[j] == if j < i then es[j] else es[j + 1];
    assert forall j :: 0 <= j < |es| && j != i ==> es[j] == r[if j < i then j else j - 1];
  }

  /** Every entry that pruning keeps fits. */
  ghost predicate KeptFit(es: seq<Entry>, now: int) {
    forall e :: e in es && e.id !in DroppedIds(es, now) ==> Fits(e)
  }

  lemma PruneIsShaped(es: seq<Entry>, now: int)
    requires Shaped(es)
    ensures Shaped(Without(es, DroppedIds(es, now)))
    ensures AllFit(Without(es, DroppedIds(es, now))) <==> KeptFit(es, now)
  {
    hide Fits, ValidEntry;
    WithoutKeepsTheRest(es, DroppedIds(es, now));
    var r := Without(es, DroppedIds(es, now));
    forall i | 0 <= i < |r| ensures r[i] in es && r[i].id !in DroppedIds(es, now) {
      assert r[i] in r;
    }
    forall e | e in es && e.id !in DroppedIds(es, now) ensures exists i :: 0 <= i < |r| && r[i] == e {
      assert e in r;
    }
    forall i | 0 <= i < |r| ensures ValidEntry(Typed(r[i])) {
      assert r[i] in es;
    }
  }

  lemma AppendIsShaped(es: seq<Entry>, e: Entry)
    requires Shaped(es) && |es| < MAX_ENTRIES && Fits(e)
    ensures Shaped(es + [e]) && AllFit(es + [e]) <==>
              AllFit(es) && ValidEntry(Typed(e)) && forall i :: 0 <= i < |es| ==> es[i].id != e.id
  {
    hide Fits, ValidEntry;
    var r := es + [e];
    assert r[|es|] == e && forall i :: 0 <= i < |es| ==> r[i] == es[i];
  }

  lemma RewriteIsShaped(es: seq<Entry>, i: nat, e: Entry)
    requires Shaped(es) && i < |es| && ValidEntry(Typed(e)) && e.id == es[i].id
    ensures Shaped(es[i := e])
    ensures AllFit(es[i := e]) <==> OthersFit(es, i) && Fits(e)
  {
    hide Fits, ValidEntry;
    var r := es[i := e];
    assert r[i] == e && forall j :: 0 <= j < |es| && j != i ==> r[j] == es[j];
  }

  /** What must hold of the entries in memory, before a write that lands, for the file it writes to be
      readable. Only `append` checks anything of this, the size of the entry it adds. */
  ghost predicate WritesReadable(cfg: Config, es: seq<Entry>, op: Op) {
    match op
    case Append(q, now) =>
      && AllFit(es) && Valid1(q.id, q.methodName, q.requestId) && cfg.retryDeadlineMs >= 0
      && forall i :: 0 <= i < |es| ==> es[i].id != q.id
    case Acknowledge(id) => OthersFit(es, Find(es, id))
    case PruneTerminalUnknown(now) => KeptFit(es, now)
    case _ => Find(es, op.id) < |es| && OthersFit(es, Find(es, op.id)) && Fits(Moved(es[Find(es, op.id)], op))
  }

  /** The list that an operation writes. */
  function NextEntries(cfg: Config, es: seq<Entry>, op: Op): seq<Entry> {
    match op
    case Append(q, now) => es + [NewEntry(cfg, q, now)]
    case Acknowledge(id) => var i := Find(es, id); if i < |es| then es[..i] + es[i + 1..] else es
    case PruneTerminalUnknown(now) => Without(es, DroppedIds(es, now))
    case _ => var i := Find(es, op.id); if i < |es| then es[i := Moved(es[i], op)] else es
  }

  lemma LandedEntries(cfg: Config, b: Box, op: Op, io: Io)
    requires WriteLands(cfg, b, op, io)
    ensures var next := Perform(cfg, b, op, io).box.entries;
            next == NextEntries(cfg, b.entries, op) && FileBytes(cfg.peer, next) <= MAX_FILE_BYTES
    ensures op.Append? ==> |b.entries| < MAX_ENTRIES && Fits(NewEntry(cfg, op.request, op.now))
    ensures IsTransition(op) || op.Acknowledge? ==> Find(b.entries, op.id) < |b.entries|
  {
    hide FileBytes, EntryBytes, DroppedIds, Without, Find;
  }

  /** Every operation whose write lands leaves a file that loads exactly if this holds. */
  lemma WrittenFileLoads(cfg: Config, b: Box, op: Op, io: Io)
    requires Shaped(b.entries) && WriteLands(cfg, b, op, io)
    ensures Loads(Perform(cfg, b, op, io).box.entries) <==> WritesReadable(cfg, b.entries, op)
    ensures Loads(Perform(cfg, b, op, io).box.entries) ==> Shaped(Perform(cfg, b, op, io).box.entries)
  {
    hide Loads, Shaped, EntryBytes, FileBytes, AllFit, OthersFit, KeptFit, DroppedIds, Without, Fits, Perform, WriteLands;
    var es := b.entries;
    LandedEntries(cfg, b, op, io);
    LoadsExactly(cfg.peer, Perform(cfg, b, op, io).box.entries);
    match op
    case Append(q, now) => AppendIsShaped(es, NewEntry(cfg, q, now));
    case Acknowledge(id) => RemovalIsShaped(es, Find(es, id));
    case PruneTerminalUnknown(now) => PruneIsShaped(es, now);
    case _ =>
      var i := Find(es, op.id);
      EntryOfShaped(es, i);
      RewriteIsShaped(es, i, Moved(es[i], op));
  }

  lemma EntryOfShaped(es: seq<Entry>, i: nat)
    requires Shaped(es) && i < |es|
    ensures ValidEntry(Typed(es[i]))
  {
  }

  /** A removal from entries that would load leaves entries that load. */
  lemma RemovalFileLoads(cfg: Config, b: Box, op: Op, io: Io)
    requires op.Acknowledge? || op.PruneTerminalUnknown?
    requires Loads(b.entries) && WriteLands(cfg, b, op, io)
    ensures Loads(Perform(cfg, b, op, io).box.entries)
  {
    AcceptedIsShaped(Typeds(b.entries));
    assert Values(Typeds(b.entries)) == b.entries;
    WrittenFileLoads(cfg, b, op, io);
    hide Shaped, Fits, DroppedIds, Perform, WriteLands, Loads;
    forall e | e in b.entries ensures Fits(e) {
      var i :| 0 <= i < |b.entries| && b.entries[i] == e;
    }
  }

  // ---------------------------------------------------------------- whole histories

  function DiskOf(s: System): Disk {
    match s
    case Down(disk) => disk
    case Up(b) => b.disk
  }

  /** Memory is fit to be written, but for sizes. A quarantined outbox is empty. */
  ghost predicate Known(cfg: Config, s: System) {
    Readable(cfg, DiskOf(s)) && (s.Up? ==> Shaped(s.box.entries) && (s.box.quarantined ==> s.box.entries == []))
  }

  /** Loading this file, if it writes one itself, writes one that is readable. */
  ghost predicate LoadsHarmlessly(cfg: Config, disk: Disk, now: int, io: Io)
    requires Readable(cfg, disk)
  {
    match disk.main
    case None => true
    case Some(FileV1(_, rs)) =>
      MigrationLands(cfg, disk, now, io) ==>
        && (rs != [] ==> cfg.retryDeadlineMs >= 0)
        && forall i :: 0 <= i < |rs| ==> rs[i].Typed? && !rs[i].value.lastAttemptAt.NotATime?
                                         && Fits(Migrated(rs[i].value, cfg.retryDeadlineMs, now))
    case Some(FileV2(_, rs)) => Lands(cfg, Restart(Values(rs)), io) ==> RoomToNormalise(Values(rs))
  }

  /** The event writes nothing, or what it writes can be read again: said of the state before it. */
  ghost predicate Harmless(cfg: Config, s: System, e: Event)
    requires Known(cfg, s)
  {
    match s
    case Down(disk) => (e.Start? || e.CrashStarting?) ==> LoadsHarmlessly(cfg, disk, e.now, e.io)
    case Up(b) =>
      (e.Do? || e.CrashDoing?) && WriteLands(cfg, b, e.op, e.io) ==> WritesReadable(cfg, b.entries, e.op)
  }

  lemma WrittenIsReadable(cfg: Config, disk: Disk, es: seq<Entry>)
    ensures Readable(cfg, Written(cfg, disk, es)) <==> Loads(es)
  {
  }

  lemma OperationIsHarmless(cfg: Config, b: Box, op: Op, io: Io)
    requires Known(cfg, Up(b))
    ensures var b' := Perform(cfg, b, op, io).box;
            Readable(cfg, b'.disk) <==> (WriteLands(cfg, b, op, io) ==> WritesReadable(cfg, b.entries, op))
    ensures var b' := Perform(cfg, b, op, io).box;
            Readable(cfg, b'.disk) ==> Known(cfg, Up(b'))
  {
    var b' := Perform(cfg, b, op, io).box;
    NothingToWriteInQuarantine(cfg, b, op);
    if WriteLands(cfg, b, op, io) {
      WrittenFileLoads(cfg, b, op, io);
      LandedBox(cfg, b, op, io);
      WrittenIsReadable(cfg, b.disk, b'.entries);
    } else {
      FailedStaysShaped(cfg, b, op, io);
    }
    hide Shaped, Loads, WritesReadable, IntentOf, Lands, Perform, Readable;
  }

  lemma NothingToWriteInQuarantine(cfg: Config, b: Box, op: Op)
    ensures b.quarantined && b.entries == [] ==> !IntentOf(cfg, b, op).Intent?
  {
  }

  /** Entry for entry the same, as far as the shape goes. */
  predicate SameShape(es: seq<Entry>, fs: seq<Entry>) {
    |fs| == |es| && forall i :: 0 <= i < |es| ==>
      && fs[i].id == es[i].id && fs[i].methodName == es[i].methodName && fs[i].requestId == es[i].requestId
      && fs[i].createdAt == es[i].createdAt && fs[i].deadlineAt == es[i].deadlineAt
      && (fs[i].lastAttemptAt.NotATime? ==> fs[i].lastAttemptAt == es[i].lastAttemptAt)
  }

  lemma SameShapeIsShaped(es: seq<Entry>, fs: seq<Entry>)
    requires Shaped(es) && SameShape(es, fs)
    ensures Shaped(fs)
  {
    forall i | 0 <= i < |fs| ensures ValidEntry(Typed(fs[i])) {
      assert ValidEntry(Typed(es[i]));
    }
  }

  lemma FailedHasSameShape(cfg: Config, b: Box, op: Op, io: Io)
    requires !WriteLands(cfg, b, op, io)
    ensures var b' := Perform(cfg, b, op, io).box;
            b'.disk == b.disk && b'.quarantined == b.quarantined && SameShape(b.entries, b'.entries)
  {
    hide FileBytes, EntryBytes, DroppedIds, Without, Find;
  }

  /** Rolled back or torn, memory keeps its shape, and the file is as it was. */
  lemma FailedStaysShaped(cfg: Config, b: Box, op: Op, io: Io)
    requires Shaped(b.entries) && !WriteLands(cfg, b, op, io)
    ensures var b' := Perform(cfg, b, op, io).box;
            b'.disk == b.disk && b'.quarantined == b.quarantined && Shaped(b'.entries)
    ensures b.entries == [] ==> Perform(cfg, b, op, io).box.entries == []
  {
    FailedHasSameShape(cfg, b, op, io);
    hide Perform, Shaped, WriteLands;
    SameShapeIsShaped(b.entries, Perform(cfg, b, op, io).box.entries);
  }

  lemma LandedBox(cfg: Config, b: Box, op: Op, io: Io)
    requires WriteLands(cfg, b, op, io)
    ensures var b' := Perform(cfg, b, op, io).box;
            b'.disk == Written(cfg, b.disk, b'.entries) && b'.quarantined == b.quarantined
  {
  }

  lemma OpeningIsHarmless(cfg: Config, disk: Disk, now: int, io: Io)
    requires Readable(cfg, disk)
    ensures var b := Open(cfg, disk, now, io);
            Readable(cfg, b.disk) <==> LoadsHarmlessly(cfg, disk, now, io)
    ensures var b := Open(cfg, disk, now, io);
            LoadsHarmlessly(cfg, disk, now, io) ==> Known(cfg, Up(b))
  {
    match disk.main
    case None =>
    case Some(FileV1(_, rs)) => MigrationIsHarmless(cfg, disk, rs, now, io);
    case Some(FileV2(_, rs)) => NormalisingIsHarmless(cfg, disk, rs, now, io);
  }

  lemma NormalisingIsHarmless(cfg: Config, disk: Disk, rs: seq<Raw<Entry>>, now: int, io: Io)
    requires Readable(cfg, disk) && disk.main == Some(FileV2(cfg.peer, rs))
    ensures var b := Open(cfg, disk, now, io);
            && (Readable(cfg, b.disk) <==> LoadsHarmlessly(cfg, disk, now, io))
            && !b.quarantined && Shaped(b.entries)
  {
    hide Shaped, AcceptsV2, Lands, Loads, EntryBytes;
    AcceptedAreTyped(rs);
    var es := Values(rs);
    AcceptedIsShaped(rs);
    RestartIsShaped(es);
    WrittenIsReadable(cfg, disk, Restart(es));
    if Lands(cfg, Restart(es), io) {
      NormalisedFileLoads(cfg, rs, io);
    }
    assert forall i :: 0 <= i < |rs| ==> es[i] == rs[i].value;
    if Restart(es) == es { NothingToNormalise(es); }
  }

  lemma NothingToNormalise(es: seq<Entry>)
    requires Restart(es) == es
    ensures RoomToNormalise(es)
  {
    forall i | 0 <= i < |es| ensures es[i].state != InFlight {
      assert Restart(es)[i] == Restarted(es[i]);
    }
  }

  lemma MigrationIsHarmless(cfg: Config, disk: Disk, rs: seq<Raw<EntryV1>>, now: int, io: Io)
    requires Readable(cfg, disk) && disk.main == Some(FileV1(cfg.peer, rs))
    ensures var b := Open(cfg, disk, now, io);
            && (Readable(cfg, b.disk) <==> LoadsHarmlessly(cfg, disk, now, io))
            && (LoadsHarmlessly(cfg, disk, now, io) ==> Shaped(b.entries))
            && (b.quarantined ==> b.entries == [])
  {
    var es := MigrateAll(Values(rs), cfg.retryDeadlineMs, now);
    if Lands(cfg, es, io) {
      MigratedListLoads(cfg, rs, now);
      LoadsExactly(cfg.peer, es);
      WrittenIsReadable(cfg, disk, es);
      hide Shaped, AcceptsV1, Loads, EntryBytes, Lands;
    } else {
      hide AcceptsV1, EntryBytes, Lands;
    }
  }

  lemma StepIsHarmless(cfg: Config, s: System, e: Event)
    requires Known(cfg, s)
    ensures Readable(cfg, DiskOf(Next(cfg, s, e))) <==> Harmless(cfg, s, e)
    ensures Harmless(cfg, s, e) ==> Known(cfg, Next(cfg, s, e))
  {
    hide Open, Perform, Shaped, WritesReadable, LoadsHarmlessly, WriteLands, Readable;
    match s
    case Down(disk) => if e.Start? || e.CrashStarting? { OpeningIsHarmless(cfg, disk, e.now, e.io); }
    case Up(b) => if e.Do? || e.CrashDoing? { OperationIsHarmless(cfg, b, e.op, e.io); }
  }

  /** After no event of the history did the state file become one that the next load quarantines. */
  ghost predicate AlwaysReadable(cfg: Config, disk: Disk, events: seq<Event>) {
    Readable(cfg, DiskOf(After(cfg, Down(disk), events)))
    && (events != [] ==> AlwaysReadable(cfg, disk, events[..|events| - 1]))
  }

  /** Each event of the history was harmless when it came. */
  ghost predicate AlwaysHarmless(cfg: Config, disk: Disk, events: seq<Event>) {
    events != [] ==>
      var prior := events[..|events| - 1];
      AlwaysHarmless(cfg, disk, prior)
      && (Known(cfg, After(cfg, Down(disk), prior)) ==> Harmless(cfg, After(cfg, Down(disk), prior), events[|events| - 1]))
  }

  /** In every history from a readable file, with failed writes, crashes and restarts: the state file
      stays readable throughout exactly if every event was harmless, be it an operation, a
      migration or the normalisation of a load. */
  lemma {:induction false} ReadableExactlyIfHarmless(cfg: Config, disk: Disk, events: seq<Event>)
    requires Readable(cfg, disk)
    ensures AlwaysReadable(cfg, disk, events) <==> AlwaysHarmless(cfg, disk, events)
    ensures AlwaysReadable(cfg, disk, events) ==> Known(cfg, After(cfg, Down(disk), events))
  {
    hide Known, Harmless, Readable, Next;
    if events == [] {
      StartsKnown(cfg, disk);
    } else {
      var prior, e := events[..|events| - 1], events[|events| - 1];
      ReadableExactlyIfHarmless(cfg, disk, prior);
      if AlwaysReadable(cfg, disk, prior) {
        StepIsHarmless(cfg, After(cfg, Down(disk), prior), e);
      }
    }
  }

  lemma StartsKnown(cfg: Config, disk: Disk)
    requires Readable(cfg, disk)
    ensures Known(cfg, Down(disk))
  {
  }

  // ---------------------------------------------------------------- taken over once, not twice

  lemma OneEntryOpens(cfg: Config, disk: Disk, e: Entry, now: int, io: Io)
    requires disk.main == Some(FileV2(cfg.peer, Typeds([e]))) && AcceptsV2(Typeds([e]))
    requires e.state == InFlight && Lands(cfg, [Restarted(e)], io)
    ensures var b := Open(cfg, disk, now, io);
            && !b.quarantined && !b.degraded && b.disk.main == Some(FileV2(cfg.peer, Typeds([Restarted(e)])))
  {
    hide AcceptsV2, Lands;
    assert Values(Typeds([e])) == [e];
    assert Restart([e])[0] == Restarted(e);
    assert Restart([e]) == [Restarted(e)] && [e][0] != Restart([e])[0];
  }

  /** A request of the right size is admitted and marked in flight; the first restart takes the file
      over and normalises it; the second quarantines what the first one wrote. */
  lemma TakenOverOnceOnly(cfg: Config, now: int) returns (q: Request)
    requires cfg.retryDeadlineMs >= 0 && FileBytes(cfg.peer, []) < 1000
    ensures var io := Io(true, true);
            var empty := Box([], false, false, Disk(None, []));
            var admitted := Perform(cfg, empty, Append(q, now), io);
            var sent := Perform(cfg, admitted.box, MarkInFlight(q.id, now), io);
            var first := Open(cfg, sent.box.disk, now, io);
            && admitted.ok && Loads(admitted.box.entries) && sent.ok && Loads(sent.box.entries)
            && !first.quarantined && !first.degraded
            && Open(cfg, first.disk, now, io).quarantined
  {
    q := Request("a", "m", "r", None, "", 1, None);
    CharsBytesSmall();
    var io := Io(true, true);
    var spare := MAX_ENTRY_BYTES - EntryBytes(Sent(NewEntry(cfg, q, now), now));
    PaddedBody(cfg, q, now, spare);
    q := q.(body := seq(spare, _ => 'x'));
    var e := NewEntry(cfg, q, now);
    SentBytes(e, now);
    SentBytes(NewEntry(cfg, q.(body := ""), now), now);
    var empty := Box([], false, false, Disk(None, []));
    AdmittedAlone(cfg, q, now);
    var admitted := Perform(cfg, empty, Append(q, now), io).box;
    SentAlone(cfg, admitted, e, now);
    var sent := Perform(cfg, admitted, MarkInFlight(q.id, now), io).box;
    TightEntryRestarted(cfg, Sent(e, now));
    OneEntryOpens(cfg, sent.disk, Sent(e, now), now, io);
    OversizedFileIsQuarantined(cfg, Open(cfg, sent.disk, now, io).disk, Restarted(Sent(e, now)), now, io);
  }

  function Sent(e: Entry, now: int): Entry {
    e.(state := InFlight, lastAttemptAt := At(now))
  }

  lemma SentBytes(e: Entry, now: int)
    requires e.state == Admitted && e.lastAttemptAt == Unset
    ensures EntryBytes(Sent(e, now)) == EntryBytes(e) + 1 + 17 + STAMP_BYTES
  {
  }

  lemma AdmittedAlone(cfg: Config, q: Request, now: int)
    requires Valid1(q.id, q.methodName, q.requestId) && cfg.retryDeadlineMs >= 0
    requires FileBytes(cfg.peer, []) < 1000 && Fits(NewEntry(cfg, q, now))
    ensures var r := Perform(cfg, Box([], false, false, Disk(None, [])), Append(q, now), Io(true, true));
            && r.ok && r.box.entries == [NewEntry(cfg, q, now)] && !r.box.degraded && !r.box.quarantined
            && Loads(r.box.entries)
  {
    var e := NewEntry(cfg, q, now);
    SingletonBytes(e);
    assert [] + [e] == [e];
    OneLoads(cfg, e);
  }

  lemma OneLoads(cfg: Config, e: Entry)
    requires ValidEntry(Typed(e)) && Fits(e)
    ensures Loads([e])
  {
    SingletonBytes(e);
    assert Typeds([e])[0] == Typed(e);
  }

  lemma SentAlone(cfg: Config, b: Box, e: Entry, now: int)
    requires b == Box([e], false, false, b.disk) && FileBytes(cfg.peer, []) < 1000
    requires e.state == Admitted && ValidEntry(Typed(e)) && Fits(Sent(e, now))
    ensures var r := Perform(cfg, b, MarkInFlight(e.id, now), Io(true, true));
            && r.ok && r.box.entries == [Sent(e, now)] && Loads(r.box.entries)
            && r.box.disk.main == Some(FileV2(cfg.peer, Typeds([Sent(e, now)])))
  {
    assert Find([e], e.id) == 0;
    assert [e][0 := Sent(e, now)] == [Sent(e, now)];
    SingletonBytes(Sent(e, now));
    OneLoads(cfg, Sent(e, now));
  }

  lemma TightEntryRestarted(cfg: Config, e: Entry)
    requires e.state == InFlight && e.nextAttemptAt.None? && EntryBytes(e) == MAX_ENTRY_BYTES
    requires FileBytes(cfg.peer, []) < 1000
    ensures EntryBytes(Restarted(e)) > MAX_ENTRY_BYTES && Lands(cfg, [Restarted(e)], Io(true, true))
  {
    SingletonBytes(Restarted(e));
  }
}
