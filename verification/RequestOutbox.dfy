/**
 The durable request outbox as a class: an in-memory list checkpointed to one file, rolled back
 when the checkpoint fails. The disk is a field whose writes succeed or fail as `io` says; every
 method is proved to leave memory and disk as module Outbox specifies.
 */
module RequestOutbox {
  import opened Wrappers
  import opened Outbox

  datatype Counts = Counts(retryEligible: nat, terminalUnknown: nat, nextAttemptAt: Option<int>)

  /** May be sent now: admitted or waited long enough, and strictly before its deadline. */
  predicate Due(e: Entry, now: int) {
    && (e.state == Admitted || (e.state == RetryWait && (e.nextAttemptAt.None? || e.nextAttemptAt.value <= now)))
    && now < e.deadlineAt
  }

  lemma DueByExclusion(e: Entry, now: int)
    ensures Due(e, now) <==>
              (&& !(e.state != Admitted && e.state != RetryWait)
               && !(e.state == RetryWait && e.nextAttemptAt.Some? && e.nextAttemptAt.value > now)
               && !(e.deadlineAt <= now))
  {
  }

  /** Entry i is due, none of the first k due ones was created earlier, and none before i as early. */
  ghost predicate EarliestDue(es: seq<Entry>, k: nat, i: nat, now: int)
    requires i < k <= |es|
  {
    && Due(es[i], now)
    && (forall j :: 0 <= j < k && Due(es[j], now) ==> es[i].createdAt <= es[j].createdAt)
    && (forall j :: 0 <= j < i && Due(es[j], now) ==> es[i].createdAt < es[j].createdAt)
  }

  ghost function Terminals(es: seq<Entry>): seq<Entry> {
    if es == [] then []
    else Terminals(es[..|es| - 1]) + if es[|es| - 1].state == TerminalUnknown then [es[|es| - 1]] else []
  }

  lemma Reinserted(es: seq<Entry>, i: nat)
    requires i < |es|
    ensures var cut := es[..i] + es[i + 1..]; cut[..i] + [es[i]] + cut[i..] == es
  {
  }

  /** One more entry than before: this request, admitted now, nothing tried yet. */
  ghost predicate Admits(es: seq<Entry>, es': seq<Entry>, q: Request, now: int, retryDeadlineMs: int) {
    && |es'| == |es| + 1 && es'[..|es|] == es
    && var e := es'[|es|];
       && e.id == q.id && e.methodName == q.methodName && e.requestId == q.requestId && e.idempotencyKey == q.idempotencyKey
       && e.body == q.body && e.version == q.version && e.payload == q.payload
       && e.state == Admitted && e.createdAt == now && e.deadlineAt == now + retryDeadlineMs
       && e.attempts == 0 && e.lastAttemptAt == Unset && e.nextAttemptAt == None && e.lastFailure == None
  }

  /** The validation loop over first-format entries, migrating as it goes. */
  method ScanV1(rs: seq<Raw<EntryV1>>, retryDeadlineMs: int, now: int) returns (accepted: bool, migrated: seq<Entry>)
    ensures accepted <==> AcceptsV1(rs)
    ensures accepted ==> migrated == MigrateAll(Values(rs), retryDeadlineMs, now)
  {
    hide EntryV1Bytes, Valid1, ArrayBytes, Migrated;
    migrated := [];
    if |rs| > MAX_ENTRIES || ArrayBytes(EntryV1Bytes, rs) > MAX_FILE_BYTES {
      return false, [];
    }
    var seen: set<string> := {};
    for i := 0 to |rs|
      invariant forall j :: 0 <= j < i ==> ValidEntryV1(rs[j]) && EntryV1Bytes(rs[j].value) <= MAX_ENTRY_BYTES
      invariant forall j, k :: 0 <= j < k < i ==> rs[j].value.id != rs[k].value.id
      invariant seen == set j | 0 <= j < i :: rs[j].value.id
      invariant |migrated| == i
      invariant forall j :: 0 <= j < i ==> migrated[j] == Migrated(rs[j].value, retryDeadlineMs, now)
    {
      if !ValidEntryV1(rs[i]) { return false, []; }
      if rs[i].value.id in seen { return false, []; }
      seen := seen + {rs[i].value.id};
      if EntryV1Bytes(rs[i].value) > MAX_ENTRY_BYTES { return false, []; }
      migrated := migrated + [Migrated(rs[i].value, retryDeadlineMs, now)];
    }
    assert migrated == MigrateAll(Values(rs), retryDeadlineMs, now);
    accepted := true;
  }

  /** The validation loop over second-format entries. */
  method ScanV2(rs: seq<Raw<Entry>>) returns (accepted: bool)
    ensures accepted <==> AcceptsV2(rs)
  {
    hide EntryBytes, Valid1, ArrayBytes;
    if |rs| > MAX_ENTRIES || ArrayBytes(EntryBytes, rs) > MAX_FILE_BYTES {
      return false;
    }
    var seen: set<string> := {};
    for i := 0 to |rs|
      invariant forall j :: 0 <= j < i ==> ValidEntry(rs[j]) && EntryBytes(rs[j].value) <= MAX_ENTRY_BYTES
      invariant forall j, k :: 0 <= j < k < i ==> rs[j].value.id != rs[k].value.id
      invariant seen == set j | 0 <= j < i :: rs[j].value.id
    {
      if !ValidEntry(rs[i]) { return false; }
      if rs[i].value.id in seen { return false; }
      seen := seen + {rs[i].value.id};
      if EntryBytes(rs[i].value) > MAX_ENTRY_BYTES { return false; }
    }
    accepted := true;
  }

  class RequestOutbox {
    const cfg: Config
    var entries: seq<Entry>
    var degraded: bool
    var quarantined: bool
    var disk: Disk

    function View(): Box
      reads this
    {
      Box(entries, degraded, quarantined, disk)
    }

    constructor (cfg: Config, disk: Disk, now: int, io: Io)
      ensures this.cfg == cfg && View() == Open(cfg, disk, now, io)
    {
      this.cfg := cfg;
      this.entries, this.degraded, this.quarantined, this.disk := [], false, false, disk;
      new;
      var loaded := Load(now, io);
      entries := loaded;
    }

    // -------------------------------------------------------------- loading

    /** Move the corrupt file aside, if the rename works. */
    method Quarantine(io: Io)
      modifies `quarantined, `disk
      ensures quarantined && disk == Quarantined(old(View()), io).disk
    {
      quarantined := true;
      if io.moves && disk.main.Some? {
        disk := Disk(None, disk.quarantine + [disk.main.value]);
      }
    }

    method Load(now: int, io: Io) returns (loaded: seq<Entry>)
      requires View() == Box([], false, false, disk)
      modifies this
      ensures View().(entries := loaded) == Open(cfg, old(disk), now, io)
    {
      match disk.main
      case None =>
        loaded := [];
      case Some(FileV1(peer, rs)) =>
        if peer != cfg.peer {
          Quarantine(io);
          loaded := [];
        } else {
          loaded := MigrateV1(rs, now, io);
        }
      case Some(FileV2(peer, rs)) =>
        if peer != cfg.peer {
          Quarantine(io);
          loaded := [];
        } else {
          loaded := ValidateV2(rs, io);
        }
      case Some(Corrupt) =>
        Quarantine(io);
        loaded := [];
    }

    method MigrateV1(rs: seq<Raw<EntryV1>>, now: int, io: Io) returns (loaded: seq<Entry>)
      requires View() == Box([], false, false, disk)
      modifies this
      ensures View().(entries := loaded) == OpenV1(cfg, old(disk), rs, now, io)
    {
      var accepted, migrated := ScanV1(rs, cfg.retryDeadlineMs, now);
      if !accepted {
        Quarantine(io);
        return [];
      }
      var saved := entries;
      entries := migrated;
      var ok := Checkpoint(io);
      if ok { return migrated; }
      entries := saved;
      Quarantine(io);
      return [];
    }

    method ValidateV2(rs: seq<Raw<Entry>>, io: Io) returns (loaded: seq<Entry>)
      requires View() == Box([], false, false, disk)
      modifies this
      ensures View().(entries := loaded) == OpenV2(cfg, old(disk), rs, io)
    {
      var accepted := ScanV2(rs);
      if !accepted {
        Quarantine(io);
        return [];
      }
      var read := Values(rs);
      var normalized := Restart(read);
      if normalized != read {
        var saved := entries;
        entries := normalized;
        var ok := Checkpoint(io);
        if !ok { entries := saved; }
      }
      return normalized;
    }

    // -------------------------------------------------------------- checkpoint

    /** Serialise, write the temporary file, rename it over the state file. */
    method Checkpoint(io: Io) returns (ok: bool)
      modifies `degraded, `disk
      ensures ok == Lands(cfg, entries, io)
      ensures disk == if ok then Written(cfg, old(disk), entries) else old(disk)
      ensures degraded == (old(degraded) || !ok)
    {
      if FileBytes(cfg.peer, entries) > MAX_FILE_BYTES {
        degraded := true;
        return false;
      }
      if !io.writes {
        degraded := true;
        return false;
      }
      disk := disk.(main := Some(FileV2(cfg.peer, Typeds(entries))));
      return true;
    }

    // -------------------------------------------------------------- transitions

    method Append(q: Request, now: int, io: Io) returns (ok: bool)
      modifies this
      ensures Outcome(View(), ok) == Perform(cfg, old(View()), Op.Append(q, now), io)
      ensures ok ==> Admits(old(entries), entries, q, now, cfg.retryDeadlineMs)
      ensures !ok ==> entries == old(entries)
    {
      if quarantined || degraded { return false; }
      if |entries| >= MAX_ENTRIES { return false; }
      var entry := Entry(q.id, q.methodName, q.requestId, q.idempotencyKey, q.body, q.version, q.payload,
                         Admitted, now, now + cfg.retryDeadlineMs, 0, Unset, None, None);
      if EntryBytes(entry) > MAX_ENTRY_BYTES { return false; }
      entries := entries + [entry];
      ok := Checkpoint(io);
      if !ok {
        entries := entries[..|entries| - 1];
      }
    }

    method MarkInFlight(id: string, now: int, io: Io) returns (ok: bool)
      modifies this
      ensures Outcome(View(), ok) == Perform(cfg, old(View()), Op.MarkInFlight(id, now), io)
    {
      var i := Find(entries, id);
      if i == |entries| || entries[i].state == InFlight || entries[i].state == TerminalUnknown { return false; }
      var previous := entries[i].state;
      entries := entries[i := entries[i].(state := InFlight, lastAttemptAt := At(now))];
      ok := Checkpoint(io);
      if !ok {
        entries := entries[i := entries[i].(state := previous, lastAttemptAt := Unset)];
      }
    }

    /** `nextAttemptAt` is None if it is a number that is no time: converting it throws, after three
        fields have been assigned. */
    method MarkRetryWait(id: string, failure: Failure, nextAttemptAt: Option<int>, now: int, io: Io) returns (ok: bool, threw: bool)
      modifies this
      ensures Outcome(View(), ok, threw) == Perform(cfg, old(View()), Op.MarkRetryWait(id, failure, nextAttemptAt, now), io)
    {
      var i := Find(entries, id);
      if i == |entries| || entries[i].state == TerminalUnknown { return false, false; }
      var p := entries[i];
      entries := entries[i := p.(state := RetryWait, attempts := p.attempts + 1, lastAttemptAt := At(now))];
      if nextAttemptAt.None? { return false, true; }
      entries := entries[i := entries[i].(nextAttemptAt := nextAttemptAt, lastFailure := Some(failure))];
      assert entries == old(entries)[i := entries[i]];
      ok := Checkpoint(io);
      threw := false;
      if !ok {
        entries := entries[i := entries[i].(state := p.state, attempts := p.attempts, lastAttemptAt := p.lastAttemptAt,
                                            nextAttemptAt := p.nextAttemptAt, lastFailure := p.lastFailure)];
        assert entries == old(entries);
      }
    }

    method MarkTerminalUnknown(id: string, failure: Failure, io: Io) returns (ok: bool)
      modifies this
      ensures Outcome(View(), ok) == Perform(cfg, old(View()), Op.MarkTerminalUnknown(id, failure), io)
    {
      var i := Find(entries, id);
      if i == |entries| || entries[i].state == TerminalUnknown { return false; }
      var previous := entries[i].state;
      entries := entries[i := entries[i].(state := TerminalUnknown, lastFailure := Some(failure))];
      ok := Checkpoint(io);
      if !ok {
        entries := entries[i := entries[i].(state := previous, lastFailure := None)];
      }
    }

    method Acknowledge(id: string, io: Io) returns (ok: bool)
      modifies this
      ensures Outcome(View(), ok) == Perform(cfg, old(View()), Op.Acknowledge(id), io)
    {
      hide Find, Lands, Written;
      var i := Find(entries, id);
      if i == |entries| { return true; }
      var removed := entries[i];
      entries := entries[..i] + entries[i + 1..];
      ok := Checkpoint(io);
      if !ok {
        Reinserted(old(entries), i);
        entries := entries[..i] + [removed] + entries[i..];
      }
    }

    method PruneTerminalUnknown(now: int, io: Io) returns (ok: bool)
      modifies this
      ensures Outcome(View(), ok) == Perform(cfg, old(View()), Op.PruneTerminalUnknown(now), io)
    {
      var keep := 0;
      var drop: set<string> := {};
      for i := 0 to |entries|
        invariant View() == old(View())
        invariant keep == Kept(entries[..i], now) && drop == DroppedIds(entries[..i], now)
      {
        assert entries[..i + 1][..i] == entries[..i];
        var e := entries[i];
        if e.state == TerminalUnknown {
          if Expired(e, now) || keep >= TERMINAL_MAX_ENTRIES {
            drop := drop + {e.id};
          } else {
            keep := keep + 1;
          }
        }
      }
      assert entries[..|entries|] == entries;
      if drop == {} { return true; }
      var previous := entries;
      entries := Without(entries, drop);
      ok := Checkpoint(io);
      if !ok {
        entries := previous;
      }
    }

    // -------------------------------------------------------------- queries

    method Get(id: string) returns (r: Option<Entry>)
      ensures r.Some? ==> r.value in entries && r.value.id == id
      ensures r.None? <==> forall i :: 0 <= i < |entries| ==> entries[i].id != id
    {
      var i := Find(entries, id);
      r := if i < |entries| then Some(entries[i]) else None;
    }

    /** The earliest-created due entry, the first in the list among equals. */
    method PeekDue(now: int) returns (best: Option<Entry>)
      ensures best.None? <==> forall i :: 0 <= i < |entries| ==> !Due(entries[i], now)
      ensures best.Some? ==> exists i :: 0 <= i < |entries| && entries[i] == best.value && EarliestDue(entries, |entries|, i, now)
    {
      hide Due;
      best := None;
      ghost var at := 0;
      for k := 0 to |entries|
        invariant best.None? <==> forall i :: 0 <= i < k ==> !Due(entries[i], now)
        invariant best.Some? ==> 0 <= at < k && entries[at] == best.value && EarliestDue(entries, k, at, now)
      {
        var e := entries[k];
        DueByExclusion(e, now);
        if e.state != Admitted && e.state != RetryWait { continue; }
        if e.state == RetryWait && e.nextAttemptAt.Some? && e.nextAttemptAt.value > now { continue; }
        if e.deadlineAt <= now { continue; }
        if best.None? || e.createdAt < best.value.createdAt {
          best, at := Some(e), k;
        }
      }
    }

    method CountEntries() returns (c: Counts)
      ensures c.terminalUnknown == |Terminals(entries)| && c.retryEligible + c.terminalUnknown == |entries|
      ensures c.nextAttemptAt.Some? <==>
                exists i :: 0 <= i < |entries| && entries[i].state != TerminalUnknown && entries[i].nextAttemptAt.Some?
      ensures c.nextAttemptAt.Some? ==>
                && (forall i :: 0 <= i < |entries| && entries[i].state != TerminalUnknown && entries[i].nextAttemptAt.Some?
                      ==> c.nextAttemptAt.value <= entries[i].nextAttemptAt.value)
                && (exists i :: 0 <= i < |entries| && entries[i].state != TerminalUnknown && entries[i].nextAttemptAt == c.nextAttemptAt)
    {
      c := Counts(0, 0, None);
      for k := 0 to |entries|
        invariant c.terminalUnknown == |Terminals(entries[..k])| && c.retryEligible + c.terminalUnknown == k
        invariant c.nextAttemptAt.Some? <==>
                    exists i :: 0 <= i < k && entries[i].state != TerminalUnknown && entries[i].nextAttemptAt.Some?
        invariant c.nextAttemptAt.Some? ==>
                    && (forall i :: 0 <= i < k && entries[i].state != TerminalUnknown && entries[i].nextAttemptAt.Some?
                          ==> c.nextAttemptAt.value <= entries[i].nextAttemptAt.value)
                    && (exists i :: 0 <= i < k && entries[i].state != TerminalUnknown && entries[i].nextAttemptAt == c.nextAttemptAt)
      {
        assert entries[..k + 1][..k] == entries[..k];
        var e := entries[k];
        if e.state == TerminalUnknown {
          c := c.(terminalUnknown := c.terminalUnknown + 1);
          continue;
        }
        c := c.(retryEligible := c.retryEligible + 1);
        if e.nextAttemptAt.Some? {
          if c.nextAttemptAt.None? || e.nextAttemptAt.value < c.nextAttemptAt.value {
            c := c.(nextAttemptAt := e.nextAttemptAt);
          }
        }
      }
      assert entries[..|entries|] == entries;
    }
  }
}
