/**
 The durable request outbox as values: entries, their size on disk, the file, and what each
 operation does to memory and disk together. Times are epoch milliseconds.
 Module RequestOutbox proves that the class performs these operations; module OutboxRuns is
 about whole histories with failed writes, crashes and restarts.
 */
module Outbox {
  import opened Wrappers
  import opened Utf8

  const MAX_ATTEMPTS := 5
  const MAX_ENTRIES := 200
  const MAX_ENTRY_BYTES := 524_288
  const MAX_FILE_BYTES := 10_000_000
  const METHOD_MAX := 128
  const TERMINAL_MAX_ENTRIES := 50
  const TERMINAL_RETENTION_MS := 30 * 24 * 60 * 60 * 1000

  datatype DeliveryState = Admitted | InFlight | RetryWait | TerminalUnknown
  datatype Failure = Timeout | SendFailed | SocketLost | GenerationLost | ConnectionRefused

  /** A stored time; an old file may hold text that is not a time at all. */
  datatype Stamp = Unset | At(ms: int) | NotATime(bytes: nat)

  datatype Entry = Entry(
    id: string, methodName: string, requestId: string, idempotencyKey: Option<string>, body: string,
    version: nat, payload: Option<string>,
    state: DeliveryState, createdAt: int, deadlineAt: int, attempts: nat,
    lastAttemptAt: Stamp, nextAttemptAt: Option<int>, lastFailure: Option<Failure>)

  /** An entry of the first file format; `otherBytes` is the size of fields the outbox ignores. */
  datatype EntryV1 = EntryV1(
    id: string, methodName: string, requestId: string, idempotencyKey: Option<string>, body: string,
    version: nat, payload: Option<string>, createdAt: int, attempts: nat, lastAttemptAt: Stamp, otherBytes: nat)

  /** An element of a parsed array: of the right types, or not. */
  datatype Raw<+T> = Typed(value: T) | Mistyped(bytes: nat)

  /** What a state file can hold. `Corrupt` stands for text that is no JSON object with an entries
      array and a known version. */
  datatype Content =
    | Corrupt
    | FileV1(peer: string, entriesV1: seq<Raw<EntryV1>>)
    | FileV2(peer: string, entries: seq<Raw<Entry>>)

  /** The state file and the quarantined copies beside it. */
  datatype Disk = Disk(main: Option<Content>, quarantine: seq<Content>)

  /** Whether writing and renaming the temporary file works, and whether moving a corrupt file does. */
  datatype Io = Io(writes: bool, moves: bool)

  datatype Config = Config(peer: string, retryDeadlineMs: int)

  datatype Box = Box(entries: seq<Entry>, degraded: bool, quarantined: bool, disk: Disk)

  /** `threw` if the operation ended in an exception instead of an answer. */
  datatype Outcome = Outcome(box: Box, ok: bool, threw: bool := false)

  // ---------------------------------------------------------------- size on disk

  /** Bytes of a character inside a JSON string, in UTF-8. */
  function CharBytes(c: char): nat {
    if c == '\"' || c == '\\' || c == '\n' || c == '\r' || c == '\t' || c == 8 as char || c == 12 as char then 2
    else if c < 32 as char then 6
    else if c < 128 as char then 1
    else if c < 2048 as char then 2
    else if c < 65536 as char then 3
    else 4
  }

  function CharsBytes(s: string): nat {
    if s == "" then 0 else CharsBytes(s[..|s| - 1]) + CharBytes(s[|s| - 1])
  }

  function StringBytes(s: string): nat {
    2 + CharsBytes(s)
  }

  function Digits(n: nat): nat {
    if n < 10 then 1 else 1 + Digits(n / 10)
  }

  const STAMP_BYTES := 26

  function StampBytes(t: Stamp): nat {
    match t
    case Unset => 0
    case At(_) => 17 + STAMP_BYTES
    case NotATime(bytes) => 17 + bytes
  }

  function StateBytes(s: DeliveryState): nat {
    match s
    case Admitted => 10
    case InFlight => 11
    case RetryWait => 12
    case TerminalUnknown => 18
  }

  function FailureBytes(f: Failure): nat {
    match f
    case Timeout => 9
    case SendFailed => 13
    case SocketLost => 13
    case GenerationLost => 17
    case ConnectionRefused => 20
  }

  /** Bytes of the fields both file formats share, as `"key":value,` each. */
  function RequestBytes(id: string, methodName: string, requestId: string, key: Option<string>, body: string,
                        version: nat, payload: Option<string>): nat {
    6 + StringBytes(id) + 10 + StringBytes(methodName) + 13 + StringBytes(requestId)
    + (if key.Some? then 18 + StringBytes(key.value) else 0)
    + 8 + StringBytes(body) + 11 + Digits(version)
    + (if payload.Some? then 11 + Bytes(payload.value) else 0)
  }

  /** The part of an entry's size that delivery never changes: its request and its two times. */
  function CoreBytes(e: Entry): nat {
    1 + RequestBytes(e.id, e.methodName, e.requestId, e.idempotencyKey, e.body, e.version, e.payload)
    + 13 + STAMP_BYTES + 14 + STAMP_BYTES
  }

  function EntryBytes(e: Entry): nat {
    CoreBytes(e) + 9 + StateBytes(e.state) + 12 + Digits(e.attempts)
    + StampBytes(e.lastAttemptAt)
    + (if e.nextAttemptAt.Some? then 17 + STAMP_BYTES else 0)
    + (if e.lastFailure.Some? then 15 + FailureBytes(e.lastFailure.value) else 0)
  }

  function EntryV1Bytes(e: EntryV1): nat {
    1 + RequestBytes(e.id, e.methodName, e.requestId, e.idempotencyKey, e.body, e.version, e.payload)
    + 13 + STAMP_BYTES + 12 + Digits(e.attempts) + StampBytes(e.lastAttemptAt) + e.otherBytes
  }

  function RawBytes<T>(size: T -> nat, r: Raw<T>): nat {
    if r.Typed? then size(r.value) else r.bytes
  }

  /** Size of a JSON array of these elements: brackets, elements, and a comma between any two. */
  function ArrayBytes<T>(size: T -> nat, rs: seq<Raw<T>>): nat {
    if rs == [] then 2
    else ArrayBytes(size, rs[..|rs| - 1]) + (if |rs| > 1 then 1 else 0) + RawBytes(size, rs[|rs| - 1])
  }

  function Typeds<T>(es: seq<T>): (rs: seq<Raw<T>>)
    ensures |rs| == |es| && forall i :: 0 <= i < |es| ==> rs[i] == Typed(es[i])
  {
    seq(|es|, i requires 0 <= i < |es| => Typed(es[i]))
  }

  function FileBytes(peer: string, es: seq<Entry>): nat {
    32 + StringBytes(peer) + ArrayBytes(EntryBytes, Typeds(es))
  }

  // ---------------------------------------------------------------- what load accepts

  predicate Valid1(id: string, methodName: string, requestId: string) {
    id != "" && methodName != "" && |methodName| <= METHOD_MAX && requestId != ""
  }

  predicate ValidEntryV1(r: Raw<EntryV1>) {
    r.Typed? && Valid1(r.value.id, r.value.methodName, r.value.requestId)
  }

  predicate ValidEntry(r: Raw<Entry>) {
    r.Typed? && Valid1(r.value.id, r.value.methodName, r.value.requestId)
    && r.value.createdAt <= r.value.deadlineAt && !r.value.lastAttemptAt.NotATime?
  }

  ghost predicate DistinctIds(es: seq<Entry>) {
    forall i, j :: 0 <= i < j < |es| ==> es[i].id != es[j].id
  }

  /** A second-format array that `load` takes over rather than quarantines. */
  ghost predicate AcceptsV2(rs: seq<Raw<Entry>>) {
    && |rs| <= MAX_ENTRIES
    && ArrayBytes(EntryBytes, rs) <= MAX_FILE_BYTES
    && (forall i :: 0 <= i < |rs| ==> ValidEntry(rs[i]) && EntryBytes(rs[i].value) <= MAX_ENTRY_BYTES)
    && (forall i, j :: 0 <= i < j < |rs| ==> rs[i].value.id != rs[j].value.id)
  }

  ghost predicate AcceptsV1(rs: seq<Raw<EntryV1>>) {
    && |rs| <= MAX_ENTRIES
    && ArrayBytes(EntryV1Bytes, rs) <= MAX_FILE_BYTES
    && (forall i :: 0 <= i < |rs| ==> ValidEntryV1(rs[i]) && EntryV1Bytes(rs[i].value) <= MAX_ENTRY_BYTES)
    && (forall i, j :: 0 <= i < j < |rs| ==> rs[i].value.id != rs[j].value.id)
  }

  // ---------------------------------------------------------------- crash normalisation and migration

  /** A restart cannot know whether an in-flight request was delivered: it waits for a retry, due now. */
  function Restarted(e: Entry): Entry {
    if e.state == InFlight then e.(state := RetryWait, nextAttemptAt := None) else e
  }

  function Restart(es: seq<Entry>): (r: seq<Entry>)
    ensures |r| == |es| && forall i :: 0 <= i < |es| ==> r[i] == Restarted(es[i])
  {
    seq(|es|, i requires 0 <= i < |es| => Restarted(es[i]))
  }

  /** The deadline follows from the age of the old entry, not from the time of migration. */
  function Migrated(e: EntryV1, retryDeadlineMs: int, now: int): Entry {
    var deadline := e.createdAt + retryDeadlineMs;
    Entry(e.id, e.methodName, e.requestId, e.idempotencyKey, e.body, e.version, e.payload,
          if deadline <= now then TerminalUnknown else Admitted, e.createdAt, deadline, e.attempts,
          e.lastAttemptAt, None, if deadline <= now then Some(Timeout) else None)
  }

  function Values<T>(rs: seq<Raw<T>>): (es: seq<T>)
    requires forall i :: 0 <= i < |rs| ==> rs[i].Typed?
    ensures |es| == |rs| && forall i :: 0 <= i < |rs| ==> es[i] == rs[i].value
  {
    seq(|rs|, i requires 0 <= i < |rs| => rs[i].value)
  }

  function MigrateAll(es: seq<EntryV1>, retryDeadlineMs: int, now: int): (r: seq<Entry>)
    ensures |r| == |es| && forall i :: 0 <= i < |es| ==> r[i] == Migrated(es[i], retryDeadlineMs, now)
  {
    seq(|es|, i requires 0 <= i < |es| => Migrated(es[i], retryDeadlineMs, now))
  }

  // ---------------------------------------------------------------- operations

  /** Whether the next checkpoint of these entries reaches the disk. */
  predicate Lands(cfg: Config, es: seq<Entry>, io: Io) {
    FileBytes(cfg.peer, es) <= MAX_FILE_BYTES && io.writes
  }

  function Written(cfg: Config, disk: Disk, es: seq<Entry>): Disk {
    disk.(main := Some(FileV2(cfg.peer, Typeds(es))))
  }

  /** Move to `next` if it reaches the disk, otherwise to `rollback` with the outbox degraded. */
  function Commit(cfg: Config, b: Box, next: seq<Entry>, rollback: seq<Entry>, io: Io): Outcome {
    if Lands(cfg, next, io)
    then Outcome(b.(entries := next, disk := Written(cfg, b.disk, next)), true)
    else Outcome(b.(entries := rollback, degraded := true), false)
  }

  /** Index of the first entry with that id, or the number of entries. */
  function Find(es: seq<Entry>, id: string): (i: nat)
    ensures i <= |es|
    ensures i < |es| ==> es[i].id == id
    ensures forall j :: 0 <= j < i ==> es[j].id != id
  {
    if es == [] then 0
    else if es[0].id == id then 0
    else
      var i := Find(es[1..], id);
      assert forall j :: 1 <= j < i + 1 ==> es[j] == es[1..][j - 1];
      i + 1
  }

  datatype Request = Request(id: string, methodName: string, requestId: string, idempotencyKey: Option<string>,
                             body: string, version: nat, payload: Option<string>)

  function NewEntry(cfg: Config, q: Request, now: int): Entry {
    Entry(q.id, q.methodName, q.requestId, q.idempotencyKey, q.body, q.version, q.payload,
          Admitted, now, now + cfg.retryDeadlineMs, 0, Unset, None, None)
  }

  predicate Expired(e: Entry, now: int) {
    e.createdAt < now - TERMINAL_RETENTION_MS
  }

  /** Ids of the terminal-unknown entries that pruning drops: too old, or beyond the number kept. */
  function DroppedIds(es: seq<Entry>, now: int): set<string> {
    if es == [] then {}
    else
      var last, front := es[|es| - 1], es[..|es| - 1];
      if last.state == TerminalUnknown && (Expired(last, now) || Kept(front, now) >= TERMINAL_MAX_ENTRIES)
      then DroppedIds(front, now) + {last.id}
      else DroppedIds(front, now)
  }

  /** How many terminal-unknown entries pruning keeps. */
  function Kept(es: seq<Entry>, now: int): nat {
    if es == [] then 0
    else
      var last, k := es[|es| - 1], Kept(es[..|es| - 1], now);
      if last.state == TerminalUnknown && !(Expired(last, now) || k >= TERMINAL_MAX_ENTRIES) then k + 1 else k
  }

  function Without(es: seq<Entry>, ids: set<string>): seq<Entry> {
    if es == [] then []
    else
      var rest := Without(es[..|es| - 1], ids);
      if es[|es| - 1].id in ids then rest else rest + [es[|es| - 1]]
  }

  /** What `markRetryWait` is given may be no time at all: then printing it throws. */
  datatype Op =
    | Append(request: Request, now: int)
    | MarkInFlight(id: string, now: int)
    | MarkRetryWait(id: string, failure: Failure, nextAttemptAt: Option<int>, now: int)
    | MarkTerminalUnknown(id: string, failure: Failure)
    | Acknowledge(id: string)
    | PruneTerminalUnknown(now: int)

  /** The state change an operation asks for and its undoing; None if it is refused or has nothing
      to do, with the answer it then gives. Torn if it throws with memory already changed. */
  datatype Intent = Intent(next: seq<Entry>, rollback: seq<Entry>) | Nothing(answer: bool) | Torn(partial: seq<Entry>)

  function IntentOf(cfg: Config, b: Box, op: Op): Intent {
    var es := b.entries;
    match op
    case Append(q, now) =>
      if b.quarantined || b.degraded || |es| >= MAX_ENTRIES || EntryBytes(NewEntry(cfg, q, now)) > MAX_ENTRY_BYTES
      then Nothing(false)
      else Intent(es + [NewEntry(cfg, q, now)], es)
    case MarkInFlight(id, now) =>
      var i := Find(es, id);
      if i == |es| || es[i].state == InFlight || es[i].state == TerminalUnknown then Nothing(false)
      else Intent(es[i := es[i].(state := InFlight, lastAttemptAt := At(now))],
                  es[i := es[i].(lastAttemptAt := Unset)])
    case MarkRetryWait(id, failure, next, now) =>
      var i := Find(es, id);
      if i == |es| || es[i].state == TerminalUnknown then Nothing(false)
      else
        var tried := es[i].(state := RetryWait, attempts := es[i].attempts + 1, lastAttemptAt := At(now));
        if next.None? then Torn(es[i := tried])
        else Intent(es[i := tried.(nextAttemptAt := next, lastFailure := Some(failure))], es)
    case MarkTerminalUnknown(id, failure) =>
      var i := Find(es, id);
      if i == |es| || es[i].state == TerminalUnknown then Nothing(false)
      else Intent(es[i := es[i].(state := TerminalUnknown, lastFailure := Some(failure))],
                  es[i := es[i].(lastFailure := None)])
    case Acknowledge(id) =>
      var i := Find(es, id);
      if i == |es| then Nothing(true) else Intent(es[..i] + es[i + 1..], es)
    case PruneTerminalUnknown(now) =>
      if DroppedIds(es, now) == {} then Nothing(true) else Intent(Without(es, DroppedIds(es, now)), es)
  }

  function Perform(cfg: Config, b: Box, op: Op, io: Io): Outcome {
    match IntentOf(cfg, b, op)
    case Nothing(answer) => Outcome(b, answer)
    case Intent(next, rollback) => Commit(cfg, b, next, rollback, io)
    case Torn(partial) => Outcome(b.(entries := partial), false, true)
  }

  // ---------------------------------------------------------------- opening the file

  function Quarantined(b: Box, io: Io): Box {
    var b' := b.(entries := [], quarantined := true);
    if b.disk.main.Some? && io.moves
    then b'.(disk := Disk(None, b.disk.quarantine + [b.disk.main.value]))
    else b'
  }

  ghost function OpenV2(cfg: Config, disk: Disk, rs: seq<Raw<Entry>>, io: Io): Box {
    if AcceptsV2(rs) then
      var loaded := Values(rs);
      var restarted := Restart(loaded);
      if restarted == loaded then Box(restarted, false, false, disk)
      else Commit(cfg, Box([], false, false, disk), restarted, restarted, io).box
    else Quarantined(Box([], false, false, disk), io)
  }

  ghost function OpenV1(cfg: Config, disk: Disk, rs: seq<Raw<EntryV1>>, now: int, io: Io): Box {
    if AcceptsV1(rs) then
      var migrated := MigrateAll(Values(rs), cfg.retryDeadlineMs, now);
      var written := Commit(cfg, Box([], false, false, disk), migrated, [], io);
      if written.ok then written.box else Quarantined(written.box, io)
    else Quarantined(Box([], false, false, disk), io)
  }

  ghost function Open(cfg: Config, disk: Disk, now: int, io: Io): Box {
    match disk.main
    case None => Box([], false, false, disk)
    case Some(Corrupt) => Quarantined(Box([], false, false, disk), io)
    case Some(FileV1(peer, rs)) =>
      if peer != cfg.peer then Quarantined(Box([], false, false, disk), io) else OpenV1(cfg, disk, rs, now, io)
    case Some(FileV2(peer, rs)) =>
      if peer != cfg.peer then Quarantined(Box([], false, false, disk), io) else OpenV2(cfg, disk, rs, io)
  }
}
