/** Round-robin selection of the peers drained in one heartbeat tick. */
module DrainPeers {
  import opened Arithmetic

  function Least(a: int, b: int): int {
    if a < b then a else b
  }

  /** How many peers one tick looks at. */
  function Width(n: nat, maxPeers: int): nat {
    if maxPeers <= 0 then 0 else Least(n, maxPeers)
  }

  /** The non-empty names among the first k places from `start`, cyclically. */
  function Selected(peers: seq<string>, start: nat, k: nat): seq<string>
    requires |peers| > 0
  {
    if k == 0 then []
    else
      var front, p := Selected(peers, start, k - 1), peers[(start + k - 1) % |peers|];
      if p != "" then front + [p] else front
  }

  method SelectDrainPeers(connectedPeers: seq<string>, cursor: nat, maxPeers: int)
    returns (peers: seq<string>, nextCursor: nat)
    ensures connectedPeers == [] ==> peers == [] && nextCursor == cursor
    ensures connectedPeers != [] ==>
              var n := |connectedPeers|;
              && peers == Selected(connectedPeers, cursor % n, Width(n, maxPeers))
              && nextCursor == cursor % n + |peers| < 2 * n
    ensures |peers| <= |connectedPeers| && (maxPeers > 0 ==> |peers| <= maxPeers) && (maxPeers <= 0 ==> peers == [])
    ensures forall i: nat :: i < |connectedPeers| && i < maxPeers ==>
              var name := Place(connectedPeers, cursor, i); name != "" ==> name in peers
  {
    if |connectedPeers| == 0 { return [], cursor; }
    var startIdx := cursor % |connectedPeers|;
    peers := [];
    var i := 0;
    while i < Least(|connectedPeers|, maxPeers)
      invariant 0 <= i <= Width(|connectedPeers|, maxPeers)
      invariant peers == Selected(connectedPeers, startIdx, i) && |peers| <= i
    {
      var peer := connectedPeers[(startIdx + i) % |connectedPeers|];
      if peer != "" { peers := peers + [peer]; }
      i := i + 1;
    }
    nextCursor := startIdx + |peers|;
    SelectedCount(connectedPeers, startIdx, i);
    forall j: nat | j < |connectedPeers| && j < maxPeers && Place(connectedPeers, cursor, j) != ""
      ensures Place(connectedPeers, cursor, j) in peers
    {
      ModOfSum(cursor, j, |connectedPeers|);
      assert Place(connectedPeers, startIdx, j) == Place(connectedPeers, cursor, j);
    }
  }

  // ---------------------------------------------------------------- fairness

  ghost predicate AllNamed(peers: seq<string>) {
    forall i :: 0 <= i < |peers| ==> peers[i] != ""
  }

  lemma {:induction false} SelectedIsInterval(peers: seq<string>, start: nat, k: nat)
    requires |peers| > 0 && AllNamed(peers)
    ensures |Selected(peers, start, k)| == k
    ensures forall i :: 0 <= i < k ==> Selected(peers, start, k)[i] == peers[(start + i) % |peers|]
  {
    if k > 0 {
      SelectedIsInterval(peers, start, k - 1);
    }
  }

  /** Counting on from a place, at most once around. */
  lemma Wraps(s: nat, i: nat, n: nat)
    requires s < n && i < n
    ensures (s + i) % n == if s + i < n then s + i else s + i - n
  {
    if s + i < n {
      RemainderIsUnique(s + i, n, 0, s + i);
    } else {
      RemainderIsUnique(s + i, n, 1, s + i - n);
    }
  }

  /** A tick selects different places: at most n of them from anywhere. */
  lemma TickSelectsDistinctPlaces(start: nat, n: nat, i: nat, j: nat)
    requires i < j < n
    ensures (start + i) % n != (start + j) % n
  {
    ModOfSum(start, i, n);
    ModOfSum(start, j, n);
    Wraps(start % n, i, n);
    Wraps(start % n, j, n);
  }

  /** The cursor before tick t, each tick taking k of n peers and storing its next cursor. */
  function CursorAt(n: nat, k: nat, cursor: nat, t: nat): nat
    requires n > 0
  {
    if t == 0 then cursor else CursorAt(n, k, cursor, t - 1) % n + k
  }

  /** Consecutive ticks take adjacent intervals: tick t starts where t full intervals end. */
  lemma {:induction false} TicksAreAdjacent(n: nat, k: nat, cursor: nat, t: nat)
    requires n > 0
    ensures CursorAt(n, k, cursor, t) % n == (cursor + t * k) % n
    decreases t
  {
    if t > 0 {
      TicksAreAdjacent(n, k, cursor, t - 1);
      var c := CursorAt(n, k, cursor, t - 1);
      ModOfSum(c, k, n);
      ModOfSum(cursor + (t - 1) * k, k, n);
      assert (c + k) % n == (c % n + k) % n;
      assert cursor + t * k == cursor + (t - 1) * k + k;
    }
  }

  lemma DistanceForward(cursor: nat, p: nat, n: nat) returns (d: nat)
    requires n > 0 && p < n
    ensures d < n && (cursor + d) % n == p
  {
    var s := cursor % n;
    d := if s <= p then p - s else p + n - s;
    ModOfSum(cursor, d, n);
    Wraps(s, d, n);
  }

  /** No peer starves: from any cursor, every place is selected within ceil(n / k) ticks. */
  lemma EveryPeerIsReached(n: nat, k: nat, cursor: nat, p: nat) returns (t: nat, i: nat)
    requires 0 < k <= n && p < n
    ensures t < (n + k - 1) / k && i < k
    ensures (CursorAt(n, k, cursor, t) % n + i) % n == p
  {
    var d := DistanceForward(cursor, p, n);
    t, i := d / k, d % k;
    DivMod(d, k);
    QuotientBelowCeiling(d, n, k);
    ReachedAt(n, k, cursor, t, i, d);
  }

  /** The i-th place of tick t is d places on from the first cursor. */
  lemma ReachedAt(n: nat, k: nat, cursor: nat, t: nat, i: nat, d: nat)
    requires n > 0 && d == k * t + i
    ensures (CursorAt(n, k, cursor, t) % n + i) % n == (cursor + d) % n
  {
    hide CursorAt;
    TicksAreAdjacent(n, k, cursor, t);
    Commutes(k, t);
    CountOn(CursorAt(n, k, cursor, t), cursor + t * k, i, n);
  }

  lemma CountOn(c: nat, x: nat, i: nat, n: nat)
    requires n > 0 && c % n == x % n
    ensures (c % n + i) % n == (x + i) % n
  {
    ModOfSum(x, i, n);
  }

  // ---------------------------------------------------------------- with empty names among the peers

  /** The cursor before tick t: each tick moves it by the number of peers it selected, which are the
      named ones among the k places it looked at. */
  function CursorAfter(peers: seq<string>, k: nat, cursor: nat, t: nat): nat
    requires |peers| > 0
  {
    if t == 0 then cursor
    else
      var start := CursorAfter(peers, k, cursor, t - 1) % |peers|;
      start + |Selected(peers, start, k)|
  }

  function PickedAt(peers: seq<string>, k: nat, cursor: nat, t: nat): seq<string>
    requires |peers| > 0
  {
    Selected(peers, CursorAfter(peers, k, cursor, t) % |peers|, k)
  }

  /** The name i places on from `start`, cyclically. */
  function Place(peers: seq<string>, start: nat, i: nat): string
    requires |peers| > 0
  {
    peers[(start + i) % |peers|]
  }

  /** k places from `start`, cyclically, all without a name. */
  ghost predicate EmptyStretch(peers: seq<string>, start: nat, k: nat)
    requires |peers| > 0
  {
    forall i: nat :: i < k ==> Place(peers, start, i) == ""
  }

  ghost predicate HasEmptyStretch(peers: seq<string>, k: nat)
    requires |peers| > 0
  {
    exists start: nat :: start < |peers| && EmptyStretch(peers, start, k)
  }

  lemma {:induction false} SelectedCount(peers: seq<string>, start: nat, k: nat)
    requires |peers| > 0
    ensures |Selected(peers, start, k)| <= k
    ensures |Selected(peers, start, k)| == 0 <==> EmptyStretch(peers, start, k)
    ensures forall i: nat :: i < k && Place(peers, start, i) != "" ==> Place(peers, start, i) in Selected(peers, start, k)
  {
    if k > 0 {
      SelectedCount(peers, start, k - 1);
      LastPlace(peers, start, k);
      hide Place, Selected;
    }
  }

  lemma LastPlace(peers: seq<string>, start: nat, k: nat)
    requires |peers| > 0 && k > 0
    ensures var p := Place(peers, start, k - 1);
            Selected(peers, start, k) == Selected(peers, start, k - 1) + if p != "" then [p] else []
  {
  }

  /** A tick at a non-empty stretch either selects the place d ahead or brings it nearer. */
  lemma {:induction false} ReachedWithin(peers: seq<string>, k: nat, cursor: nat, d: nat) returns (t: nat)
    requires |peers| > 0 && k > 0 && !HasEmptyStretch(peers, k) && Place(peers, cursor, d) != ""
    ensures t <= d && Place(peers, cursor, d) in PickedAt(peers, k, cursor, t)
    decreases d
  {
    var n, start := |peers|, cursor % |peers|;
    ModOfSum(cursor, d, n);
    SelectedCount(peers, start, k);
    assert Place(peers, start, d) == Place(peers, cursor, d);
    if d < k {
      t := 0;
    } else {
      var m := |Selected(peers, start, k)|;
      assert m > 0;
      var next := start + m;
      ModOfSum(cursor, m + (d - m), n);
      assert (next + (d - m)) % n == (cursor + d) % n;
      assert Place(peers, next, d - m) == Place(peers, cursor, d);
      t := ReachedWithin(peers, k, next, d - m);
      TickLater(peers, k, cursor, t);
      t := t + 1;
    }
  }

  lemma {:induction false} TickLater(peers: seq<string>, k: nat, cursor: nat, t: nat)
    requires |peers| > 0
    ensures var start := cursor % |peers|;
            CursorAfter(peers, k, cursor, t + 1) == CursorAfter(peers, k, start + |Selected(peers, start, k)|, t)
  {
    if t > 0 {
      TickLater(peers, k, cursor, t - 1);
    }
  }

  /** On an empty stretch the cursor stands still and nothing is ever selected. */
  lemma {:induction false} StandsStill(peers: seq<string>, k: nat, start: nat, t: nat)
    requires |peers| > 0 && start < |peers| && EmptyStretch(peers, start, k)
    ensures CursorAfter(peers, k, start, t) == start && PickedAt(peers, k, start, t) == []
  {
    SmallRemainder(start, |peers|);
    SelectedCount(peers, start, k);
    if t > 0 {
      StandsStill(peers, k, start, t - 1);
    }
  }

  /** Some tick from that cursor selects the peer at place p. */
  ghost predicate Reached(peers: seq<string>, k: nat, cursor: nat, p: nat)
    requires |peers| > 0 && p < |peers|
  {
    exists t: nat :: peers[p] in PickedAt(peers, k, cursor, t)
  }

  ghost predicate ReachedSoon(peers: seq<string>, k: nat, cursor: nat, p: nat)
    requires |peers| > 0 && p < |peers|
  {
    exists t: nat :: t < |peers| && peers[p] in PickedAt(peers, k, cursor, t)
  }

  /** Every named peer is selected in the end, from every stored cursor, exactly if no k places in a row
      are without a name; and then within as many ticks as there are places. */
  lemma EveryNamedPeerIsReached(peers: seq<string>, k: nat, p: nat)
    requires |peers| > 0 && k > 0 && p < |peers| && peers[p] != ""
    ensures (forall cursor: nat, q: nat :: q < |peers| && peers[q] != "" ==> Reached(peers, k, cursor, q)) <==> !HasEmptyStretch(peers, k)
    ensures !HasEmptyStretch(peers, k) ==>
              forall cursor: nat, q: nat :: q < |peers| && peers[q] != "" ==> ReachedSoon(peers, k, cursor, q)
  {
    hide PickedAt, EmptyStretch, CursorAfter;
    if HasEmptyStretch(peers, k) {
      var start: nat :| start < |peers| && EmptyStretch(peers, start, k);
      forall t: nat ensures PickedAt(peers, k, start, t) == [] { StandsStill(peers, k, start, t); }
      assert !Reached(peers, k, start, p);
    } else {
      forall cursor: nat, q: nat | q < |peers| && peers[q] != ""
        ensures ReachedSoon(peers, k, cursor, q) && Reached(peers, k, cursor, q)
      {
        var d := DistanceForward(cursor, q, |peers|);
        var t := ReachedWithin(peers, k, cursor, d);
      }
    }
  }

  /** `["", "b"]` with a budget of one: from cursor 0 the cursor never moves and "b" is never selected. */
  lemma EmptyNameBlocks(t: nat)
    ensures CursorAfter(["", "b"], 1, 0, t) == 0 && PickedAt(["", "b"], 1, 0, t) == []
  {
    assert EmptyStretch(["", "b"], 0, 1);
    StandsStill(["", "b"], 1, 0, t);
  }

  lemma {:induction false} NamedCursor(peers: seq<string>, k: nat, cursor: nat, t: nat)
    requires |peers| > 0 && AllNamed(peers)
    ensures CursorAfter(peers, k, cursor, t) == CursorAt(|peers|, k, cursor, t)
  {
    if t > 0 {
      NamedCursor(peers, k, cursor, t - 1);
      SelectedIsInterval(peers, CursorAfter(peers, k, cursor, t - 1) % |peers|, k);
    }
  }

  lemma NamedHasNoStretch(peers: seq<string>, k: nat)
    requires |peers| > 0 && AllNamed(peers) && k > 0
    ensures !HasEmptyStretch(peers, k)
  {
    forall start: nat | start < |peers| ensures !EmptyStretch(peers, start, k) {
      assert Place(peers, start, 0) != "";
    }
  }

  /** Without an empty stretch, whoever stands at place p is selected within as many ticks as there are
      places, from any stored cursor; if all peers are named, each tick selects min(n, budget) and
      ceil(n / min(n, budget)) ticks are enough. */
  lemma FairShare(peers: seq<string>, maxPeers: int, cursor: nat, p: nat) returns (t: nat)
    requires |peers| > 0 && p < |peers| && peers[p] != "" && maxPeers >= 1
    requires !HasEmptyStretch(peers, Width(|peers|, maxPeers))
    ensures var n, k := |peers|, Width(|peers|, maxPeers);
            && t < n && peers[p] in PickedAt(peers, k, cursor, t)
            && (AllNamed(peers) ==> |PickedAt(peers, k, cursor, t)| == k == (if n < maxPeers then n else maxPeers) && t < (n + k - 1) / k)
  {
    var n, k := |peers|, Width(|peers|, maxPeers);
    if AllNamed(peers) {
      var i;
      t, i := EveryPeerIsReached(n, k, cursor, p);
      NamedCursor(peers, k, cursor, t);
      var start := CursorAt(n, k, cursor, t) % n;
      SelectedIsInterval(peers, start, k);
      assert Selected(peers, start, k)[i] == peers[p];
      CeilingIsSmall(n, k);
    } else {
      var d := DistanceForward(cursor, p, n);
      t := ReachedWithin(peers, k, cursor, d);
    }
  }

  /** The ticks of a heartbeat over an unchanging set of peers, each storing the cursor for the next. If
      no empty stretch is among them, every named peer has been selected after as many ticks as there
      are places, and if all are named after ceil(n / min(n, budget)). */
  method RunTicks(peers: seq<string>, cursor: nat, maxPeers: int, ticks: nat) returns (picked: seq<seq<string>>, stored: nat)
    requires |peers| > 0
    ensures var n, k := |peers|, Width(|peers|, maxPeers);
            && |picked| == ticks && stored == CursorAfter(peers, k, cursor, ticks)
            && (forall t :: 0 <= t < ticks ==> picked[t] == PickedAt(peers, k, cursor, t))
            && (maxPeers >= 1 && !HasEmptyStretch(peers, k) && (ticks >= n || (AllNamed(peers) && ticks >= (n + k - 1) / k)) ==>
                  forall p :: 0 <= p < n && peers[p] != "" ==> exists t :: 0 <= t < ticks && peers[p] in picked[t])
  {
    hide CursorAfter, Selected, EmptyStretch;
    var n, k := |peers|, Width(|peers|, maxPeers);
    picked, stored := [], cursor;
    NoTickYet(peers, k, cursor);
    for i := 0 to ticks
      invariant |picked| == i && stored == CursorAfter(peers, k, cursor, i)
      invariant forall t :: 0 <= t < i ==> picked[t] == PickedAt(peers, k, cursor, t)
    {
      var selected, next := SelectDrainPeers(peers, stored, maxPeers);
      NextTick(peers, k, cursor, i);
      picked := picked + [selected];
      stored := next;
    }
    if maxPeers >= 1 && !HasEmptyStretch(peers, k) && (ticks >= n || (AllNamed(peers) && ticks >= (n + k - 1) / k)) {
      forall p | 0 <= p < n && peers[p] != "" ensures exists t :: 0 <= t < ticks && peers[p] in picked[t] {
        var t := FairShare(peers, maxPeers, cursor, p);
        assert peers[p] in picked[t];
      }
    }
  }

  lemma NoTickYet(peers: seq<string>, k: nat, cursor: nat)
    requires |peers| > 0
    ensures CursorAfter(peers, k, cursor, 0) == cursor
  {
  }

  lemma NextTick(peers: seq<string>, k: nat, cursor: nat, t: nat)
    requires |peers| > 0
    ensures CursorAfter(peers, k, cursor, t + 1) ==
              CursorAfter(peers, k, cursor, t) % |peers| + |PickedAt(peers, k, cursor, t)|
  {
  }
}
