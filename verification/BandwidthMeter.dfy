/**
  The sliding-window bandwidth meter, a durable object: memory, storage, eviction and an alarm.
  Its decisions agree with the plain history of what was recorded.
 */
module BandwidthMeter {
  import opened Text

  const U64_BOUND: nat := 0x1_0000_0000_0000_0000

  datatype Usage = Usage(ts: nat, bytes: nat)

  /** Memory (`entries`, `loaded`), the durable copy, and the scheduled alarm. */
  datatype Meter = Meter(entries: seq<Usage>, loaded: bool, storage: Option<seq<Usage>>, alarm: Option<nat>)

  datatype MeterError = MissingBytes | MissingLimit | MissingWindow

  function Load(m: Meter): Meter {
    if m.loaded then m
    else m.(entries := if m.storage.Some? then m.storage.value else m.entries, loaded := true)
  }

  /** `now.saturating_sub(window)`. */
  function Cutoff(now: nat, window: nat): nat {
    if now < window then 0 else now - window
  }

  function Prune(entries: seq<Usage>, now: nat, window: nat): seq<Usage> {
    if entries == [] then []
    else if entries[0].ts >= Cutoff(now, window) then [entries[0]] + Prune(entries[1..], now, window)
    else Prune(entries[1..], now, window)
  }

  function Sum(entries: seq<Usage>): nat {
    if entries == [] then 0 else entries[0].bytes + Sum(entries[1..])
  }

  /** A `u64` sum in a release build. */
  function TotalBytes(entries: seq<Usage>): nat {
    Sum(entries) % U64_BOUND
  }

  function SaturatingAdd(a: nat, b: nat): nat {
    if a + b < U64_BOUND then a + b else U64_BOUND - 1
  }

  function WindowMs(windowSecs: nat): nat {
    windowSecs * 1000 % U64_BOUND
  }

  function Stored(m: Meter): seq<Usage> {
    if m.storage.Some? then m.storage.value else []
  }

  function AfterCheck(m: Meter, now: nat, window: nat): Meter {
    var l := Load(m);
    l.(entries := Prune(l.entries, now, window))
  }

  function AfterRecord(m: Meter, now: nat, bytes: nat, window: nat): Meter {
    var es := Prune(Load(m).entries, now, window) + [Usage(now, bytes)];
    Meter(es, true, Some(es), Some(now + window))
  }

  function AfterAlarm(m: Meter): Meter {
    Meter([], true, Some([]), None)
  }

  function AfterEviction(m: Meter): Meter {
    m.(entries := [], loaded := false)
  }

  /** The total a check at `now` compares with the limit. */
  function Used(m: Meter, now: nat, window: nat): nat {
    TotalBytes(AfterCheck(m, now, window).entries)
  }

  class Durable {
    var entries: seq<Usage>
    var loaded: bool
    var storage: Option<seq<Usage>>
    var alarm: Option<nat>

    function State(): Meter
      reads this
    {
      Meter(entries, loaded, storage, alarm)
    }

    constructor ()
      ensures State() == Meter([], false, None, None)
    {
      entries, loaded, storage, alarm := [], false, None, None;
    }

    method EnsureLoaded()
      modifies this
      ensures State() == Load(old(State()))
    {
      if !loaded {
        if storage.Some? {
          entries := storage.value;
        }
        loaded := true;
      }
    }

    method PruneEntries(now: nat, window: nat)
      modifies this
      ensures State() == old(State()).(entries := Prune(old(entries), now, window))
    {
      var kept: seq<Usage> := [];
      for i := 0 to |entries|
        invariant unchanged(this)
        invariant kept + Prune(entries[i..], now, window) == Prune(entries, now, window)
      {
        assert entries[i..][0] == entries[i] && entries[i..][1..] == entries[i + 1..];
        if entries[i].ts >= Cutoff(now, window) {
          kept := kept + [entries[i]];
        }
      }
      entries := kept;
    }

    method HandleCheck(bytes: Option<nat>, limit: Option<nat>, windowSecs: Option<nat>, now: nat)
      returns (r: Result<bool, MeterError>)
      modifies this
      ensures limit.None? ==> r == Err(MissingLimit)
      ensures limit.Some? && windowSecs.None? ==> r == Err(MissingWindow)
      ensures r.Err? ==> State() == old(State())
      ensures limit.Some? && windowSecs.Some? ==>
                && State() == AfterCheck(old(State()), now, WindowMs(windowSecs.value))
                && r == Ok(Decides(old(State()), now, windowSecs.value, if bytes.Some? then bytes.value else 0, limit.value))
    {
      if limit.None? {
        return Err(MissingLimit);
      }
      if windowSecs.None? {
        return Err(MissingWindow);
      }
      EnsureLoaded();
      PruneEntries(now, WindowMs(windowSecs.value));
      var current := TotalBytes(entries);
      var requested := if bytes.Some? then bytes.value else 0;
      if SaturatingAdd(current, requested) > limit.value {
        return Ok(false);
      }
      return Ok(true);
    }

    method HandleRecord(bytes: Option<nat>, windowSecs: Option<nat>, now: nat) returns (r: Result<(), MeterError>)
      modifies this
      ensures bytes.None? ==> r == Err(MissingBytes)
      ensures bytes.Some? && windowSecs.None? ==> r == Err(MissingWindow)
      ensures r.Err? ==> State() == old(State())
      ensures bytes.Some? && windowSecs.Some? ==>
                r == Ok(()) && State() == AfterRecord(old(State()), now, bytes.value, WindowMs(windowSecs.value))
    {
      if bytes.None? {
        return Err(MissingBytes);
      }
      if windowSecs.None? {
        return Err(MissingWindow);
      }
      EnsureLoaded();
      PruneEntries(now, WindowMs(windowSecs.value));
      entries := entries + [Usage(now, bytes.value)];
      storage := Some(entries);
      alarm := Some(now + WindowMs(windowSecs.value));
      return Ok(());
    }

    /** The platform clears the alarm when it fires. */
    method Alarm()
      modifies this
      ensures State() == AfterAlarm(old(State()))
    {
      alarm := None;
      EnsureLoaded();
      entries := [];
      storage := Some(entries);
    }
  }

  // ---- Runs with one window.

  datatype Event = Check(now: nat) | Record(now: nat, bytes: nat) | Alarm(now: nat) | Evict

  /** The meter beside the full history, the clock, the time of the last alarm and how much of the history it cleared. */
  datatype World = World(meter: Meter, history: seq<Usage>, clock: nat, lastAlarm: Option<nat>, cleared: nat)

  const FRESH: World := World(Meter([], false, None, None), [], 0, None, 0)

  predicate Enabled(w: World, e: Event) {
    match e
    case Check(now) => w.clock <= now
    case Record(now, _) => w.clock <= now
    case Alarm(now) => w.clock <= now && w.meter.alarm.Some? && w.meter.alarm.value <= now
    case Evict => true
  }

  function Next(w: World, e: Event, window: nat): World {
    match e
    case Check(now) => w.(meter := AfterCheck(w.meter, now, window), clock := now)
    case Record(now, bytes) =>
      World(AfterRecord(w.meter, now, bytes, window), w.history + [Usage(now, bytes)], now, w.lastAlarm, w.cleared)
    case Alarm(now) => World(AfterAlarm(w.meter), w.history, now, Some(now), |w.history|)
    case Evict => w.(meter := AfterEviction(w.meter))
  }

  predicate IsRun(w: World, es: seq<Event>, window: nat)
    decreases |es|
  {
    es == [] || (Enabled(w, es[0]) && IsRun(Next(w, es[0], window), es[1..], window))
  }

  function EndOf(w: World, es: seq<Event>, window: nat): World
    decreases |es|
  {
    if es == [] then w else EndOf(Next(w, es[0], window), es[1..], window)
  }

  // ---- The invariant: memory and storage are what was recorded since the last alarm, less a stale beginning.

  /** What is kept starts at `n`; between the cleared part and there, all is out of the window for good. */
  ghost predicate DroppedFrom(w: World, kept: seq<Usage>, n: nat, window: nat) {
    w.cleared <= n <= |w.history| && kept == w.history[n..]
    && forall i :: w.cleared <= i < n ==> w.history[i].ts + window < w.clock
  }

  ghost predicate Faithful(w: World, kept: seq<Usage>, window: nat) {
    exists n: nat :: DroppedFrom(w, kept, n, window)
  }

  /** What an alarm cleared had left the window or was on its edge; what came later is not older than the alarm. */
  ghost predicate ClearedByAlarm(w: World, window: nat) {
    w.cleared <= |w.history|
    && (w.lastAlarm.None? ==> w.cleared == 0)
    && (w.lastAlarm.Some? ==>
        && w.lastAlarm.value <= w.clock
        && (forall i :: 0 <= i < w.cleared ==> w.history[i].ts + window <= w.lastAlarm.value)
        && (forall i :: w.cleared <= i < |w.history| ==> w.lastAlarm.value <= w.history[i].ts))
  }

  ghost predicate Chronological(history: seq<Usage>, clock: nat) {
    (forall i, j :: 0 <= i < j < |history| ==> history[i].ts <= history[j].ts)
    && forall i :: 0 <= i < |history| ==> history[i].ts <= clock
  }

  ghost predicate Inv(w: World, window: nat) {
    && Chronological(w.history, w.clock)
    && ClearedByAlarm(w, window)
    && Faithful(w, Stored(w.meter), window)
    && (w.meter.loaded ==> Faithful(w, w.meter.entries, window))
    && (!w.meter.loaded ==> w.meter.entries == [])
    && (w.meter.alarm.Some? ==>
        w.history != [] && w.meter.alarm.value == w.history[|w.history| - 1].ts + window)
  }

  lemma {:induction false} LoadFaithful(w: World, window: nat)
    requires Inv(w, window)
    ensures Faithful(w, Load(w.meter).entries, window)
  {
  }

  ghost predicate Ordered(es: seq<Usage>) {
    forall i, j :: 0 <= i < j < |es| ==> es[i].ts <= es[j].ts
  }

  /** How many leading entries are older than the cutoff. */
  function CutPoint(es: seq<Usage>, now: nat, window: nat): (n: nat)
    ensures n <= |es|
  {
    if es == [] || es[0].ts >= Cutoff(now, window) then 0 else 1 + CutPoint(es[1..], now, window)
  }

  lemma {:induction false} PruneKeepsAll(es: seq<Usage>, now: nat, window: nat)
    requires forall i :: 0 <= i < |es| ==> es[i].ts >= Cutoff(now, window)
    ensures Prune(es, now, window) == es
  {
    if es != [] {
      PruneKeepsAll(es[1..], now, window);
      assert es == [es[0]] + es[1..];
    }
  }

  /** Pruning a chronological sequence cuts off its beginning. */
  lemma {:induction false} PruneCuts(es: seq<Usage>, now: nat, window: nat)
    requires Ordered(es)
    ensures Prune(es, now, window) == es[CutPoint(es, now, window)..]
    ensures forall i :: 0 <= i < CutPoint(es, now, window) ==> es[i].ts + window < now
  {
    if es != [] {
      if es[0].ts >= Cutoff(now, window) {
        PruneKeepsAll(es, now, window);
      } else {
        var n := CutPoint(es[1..], now, window);
        PruneCuts(es[1..], now, window);
        assert es[1..][n..] == es[n + 1..];
        forall i | 0 <= i < n + 1
          ensures es[i].ts + window < now
        {
          assert i > 0 ==> es[i] == es[1..][i - 1];
        }
      }
    }
  }

  lemma {:induction false} DropMore(w: World, kept: seq<Usage>, n: nat, m: nat, now: nat, window: nat)
    requires DroppedFrom(w, kept, n, window) && w.clock <= now && m <= |kept|
    requires forall i :: 0 <= i < m ==> kept[i].ts + window < now
    ensures DroppedFrom(w.(clock := now), kept[m..], n + m, window)
  {
    assert kept[m..] == w.history[n + m..];
    forall i | w.cleared <= i < n + m
      ensures w.history[i].ts + window < now
    {
      assert i >= n ==> w.history[i] == kept[i - n];
    }
  }

  lemma {:induction false} PruneFaithful(w: World, kept: seq<Usage>, now: nat, window: nat)
    requires Chronological(w.history, w.clock) && Faithful(w, kept, window) && w.clock <= now
    ensures Faithful(w.(clock := now), Prune(kept, now, window), window)
    ensures Faithful(w.(clock := now), kept, window)
  {
    var n: nat :| DroppedFrom(w, kept, n, window);
    assert Ordered(kept) by {
      assert forall i :: 0 <= i < |kept| ==> kept[i] == w.history[n + i];
    }
    PruneCuts(kept, now, window);
    DropMore(w, kept, n, CutPoint(kept, now, window), now, window);
    DropMore(w, kept, n, 0, now, window);
    assert kept[0..] == kept;
  }

  lemma {:induction false} AppendFaithful(w: World, kept: seq<Usage>, u: Usage, window: nat)
    requires Faithful(w, kept, window)
    ensures Faithful(w.(history := w.history + [u]), kept + [u], window)
  {
    var n: nat :| DroppedFrom(w, kept, n, window);
    assert (w.history + [u])[n..] == kept + [u];
    assert DroppedFrom(w.(history := w.history + [u]), kept + [u], n, window);
  }

  lemma {:induction false} SameFaithful(w: World, w': World, kept: seq<Usage>, window: nat)
    requires Faithful(w, kept, window)
    requires w'.history == w.history && w'.clock == w.clock && w'.cleared == w.cleared
    ensures Faithful(w', kept, window)
  {
    var n: nat :| DroppedFrom(w, kept, n, window);
    assert DroppedFrom(w', kept, n, window);
  }

  lemma {:induction false} StepKeepsInv(w: World, e: Event, window: nat)
    requires Inv(w, window) && Enabled(w, e)
    ensures Inv(Next(w, e, window), window)
  {
    match e
    case Check(now) => CheckKeepsInv(w, now, window);
    case Record(now, bytes) => RecordKeepsInv(w, now, bytes, window);
    case Alarm(now) => AlarmKeepsInv(w, now, window);
    case Evict =>
      SameFaithful(w, Next(w, e, window), Stored(w.meter), window);
  }

  lemma {:induction false} AlarmKeepsInv(w: World, now: nat, window: nat)
    requires Inv(w, window) && Enabled(w, Alarm(now))
    ensures Inv(Next(w, Alarm(now), window), window)
  {
    var w' := Next(w, Alarm(now), window);
    assert w.history[|w.history|..] == [];
    assert DroppedFrom(w', [], |w.history|, window);
  }

  lemma {:induction false} CheckKeepsInv(w: World, now: nat, window: nat)
    requires Inv(w, window) && w.clock <= now
    ensures Inv(Next(w, Check(now), window), window)
  {
    var w' := Next(w, Check(now), window);
    LoadFaithful(w, window);
    PruneFaithful(w, Load(w.meter).entries, now, window);
    PruneFaithful(w, Stored(w.meter), now, window);
    SameFaithful(w.(clock := now), w', w'.meter.entries, window);
    SameFaithful(w.(clock := now), w', Stored(w.meter), window);
  }

  lemma {:induction false} RecordKeepsInv(w: World, now: nat, bytes: nat, window: nat)
    requires Inv(w, window) && w.clock <= now
    ensures Inv(Next(w, Record(now, bytes), window), window)
  {
    var u := Usage(now, bytes);
    var es := AfterRecord(w.meter, now, bytes, window).entries;
    var w' := Next(w, Record(now, bytes), window);
    RecordedFaithful(w, u, window);
    SameFaithful(w.(clock := now, history := w.history + [u]), w', es, window);
    ChronologicalAppend(w.history, w.clock, u);
    ClearedAppend(w, u, window);
    assert w'.history == w.history + [u] && w'.meter == Meter(es, true, Some(es), Some(now + window));
    assert ClearedByAlarm(w', window);
  }

  lemma {:induction false} ClearedAppend(w: World, u: Usage, window: nat)
    requires ClearedByAlarm(w, window) && w.clock <= u.ts
    ensures ClearedByAlarm(w.(history := w.history + [u], clock := u.ts), window)
  {
  }

  lemma {:induction false} RecordedFaithful(w: World, u: Usage, window: nat)
    requires Inv(w, window) && w.clock <= u.ts
    ensures Faithful(w.(clock := u.ts, history := w.history + [u]),
                     AfterRecord(w.meter, u.ts, u.bytes, window).entries, window)
  {
    LoadFaithful(w, window);
    PruneFaithful(w, Load(w.meter).entries, u.ts, window);
    AppendFaithful(w.(clock := u.ts), Prune(Load(w.meter).entries, u.ts, window), u, window);
  }

  lemma {:induction false} ChronologicalAppend(history: seq<Usage>, clock: nat, u: Usage)
    requires Chronological(history, clock) && clock <= u.ts
    ensures Chronological(history + [u], u.ts)
  {
  }

  lemma {:induction false} RunKeepsInv(w: World, es: seq<Event>, window: nat)
    requires Inv(w, window) && IsRun(w, es, window)
    ensures Inv(EndOf(w, es, window), window)
    decreases |es|
  {
    if es != [] {
      StepKeepsInv(w, es[0], window);
      RunKeepsInv(Next(w, es[0], window), es[1..], window);
    }
  }

  // ---- Agreement with the history.

  /** Bytes recorded strictly inside the window. */
  function SumAfter(history: seq<Usage>, now: nat, window: nat): nat {
    if history == [] then 0
    else (if history[0].ts + window > now then history[0].bytes else 0) + SumAfter(history[1..], now, window)
  }

  /** Bytes recorded inside the window or on its edge. */
  function SumSince(history: seq<Usage>, now: nat, window: nat): nat {
    if history == [] then 0
    else (if history[0].ts + window >= now then history[0].bytes else 0) + SumSince(history[1..], now, window)
  }

  lemma {:induction false} SumCons(u: Usage, es: seq<Usage>)
    ensures Sum([u] + es) == u.bytes + Sum(es)
  {
    assert ([u] + es)[1..] == es;
  }

  lemma {:induction false} PrunedSum(es: seq<Usage>, now: nat, window: nat)
    ensures Sum(Prune(es, now, window)) == SumSince(es, now, window)
    ensures SumAfter(es, now, window) <= SumSince(es, now, window) <= Sum(es)
  {
    if es != [] {
      PrunedSum(es[1..], now, window);
      SumCons(es[0], Prune(es[1..], now, window));
    }
  }

  lemma {:induction false} SumSinceSplit(history: seq<Usage>, n: nat, now: nat, window: nat)
    requires n <= |history|
    ensures SumSince(history, now, window) == SumSince(history[..n], now, window) + SumSince(history[n..], now, window)
    ensures SumAfter(history, now, window) == SumAfter(history[..n], now, window) + SumAfter(history[n..], now, window)
  {
    if n == 0 {
      assert history[0..] == history;
    } else {
      SumSinceSplit(history[1..], n - 1, now, window);
      assert history[1..][..n - 1] == history[..n][1..] && history[1..][n - 1..] == history[n..];
    }
  }

  /** What has left the window adds nothing, and what is inside adds itself to both sums. */
  lemma {:induction false} SumsAtEdge(es: seq<Usage>, now: nat, window: nat)
    ensures (forall i :: 0 <= i < |es| ==> es[i].ts + window < now) ==> SumSince(es, now, window) == 0
    ensures (forall i :: 0 <= i < |es| ==> es[i].ts + window <= now) ==> SumAfter(es, now, window) == 0
    ensures (forall i :: 0 <= i < |es| ==> es[i].ts + window > now) ==> SumAfter(es, now, window) == SumSince(es, now, window)
  {
    if es != [] {
      assert forall i :: 0 <= i < |es[1..]| ==> es[1..][i] == es[i + 1];
      SumsAtEdge(es[1..], now, window);
    }
  }

  /** A check uses exactly what was recorded after the last alarm and is in the window or on its edge. */
  lemma {:induction false} UsedSinceAlarm(w: World, now: nat, window: nat)
    requires Inv(w, window) && w.clock <= now && Sum(w.history) < U64_BOUND
    ensures Used(w.meter, now, window) == SumSince(w.history[w.cleared..], now, window)
  {
    LoadFaithful(w, window);
    var kept := Load(w.meter).entries;
    KeptSum(w, kept, now, window);
    PrunedSum(kept, now, window);
    PrunedSum(w.history, now, window);
    SumSinceSplit(w.history, w.cleared, now, window);
    SmallTotal(SumSince(kept, now, window));
  }

  lemma SmallTotal(n: nat)
    ensures n < U64_BOUND ==> n % U64_BOUND == n
  {
  }

  lemma {:induction false} KeptSum(w: World, kept: seq<Usage>, now: nat, window: nat)
    requires Faithful(w, kept, window) && w.clock <= now
    ensures w.cleared <= |w.history| && SumSince(kept, now, window) == SumSince(w.history[w.cleared..], now, window)
  {
    var n: nat :| DroppedFrom(w, kept, n, window);
    var rest := w.history[w.cleared..];
    var d := n - w.cleared;
    SumSinceSplit(rest, d, now, window);
    assert rest[d..] == kept;
    assert forall i :: 0 <= i < d ==> rest[..d][i] == w.history[w.cleared + i];
    SumsAtEdge(rest[..d], now, window);
  }

  /** The bytes of the cleared part still count exactly on the edge, at the moment of the alarm itself. */
  lemma {:induction false} ClearedSums(w: World, now: nat, window: nat)
    requires ClearedByAlarm(w, window) && w.clock <= now
    ensures SumAfter(w.history[..w.cleared], now, window) == 0
    ensures w.lastAlarm != Some(now) ==> SumSince(w.history[..w.cleared], now, window) == 0
    ensures w.lastAlarm == Some(now) && window > 0 ==>
              SumAfter(w.history[w.cleared..], now, window) == SumSince(w.history[w.cleared..], now, window)
  {
    var before, after := w.history[..w.cleared], w.history[w.cleared..];
    assert forall i :: 0 <= i < |before| ==> before[i] == w.history[i];
    assert forall i :: 0 <= i < |after| ==> after[i] == w.history[w.cleared + i];
    SumsAtEdge(before, now, window);
    SumsAtEdge(after, now, window);
  }

  /**
    Whatever happened before, a check uses exactly the recorded bytes of the window and its
    edge; only if an alarm fired at the very moment of the check are the bytes on the edge gone.
    With a window of no length everything at this moment is on the edge, and what is used is
    what was recorded since that alarm.
   */
  lemma {:induction false} CheckAgreesWithHistory(es: seq<Event>, now: nat, window: nat)
    requires IsRun(FRESH, es, window) && EndOf(FRESH, es, window).clock <= now
    requires Sum(EndOf(FRESH, es, window).history) < U64_BOUND
    ensures var w := EndOf(FRESH, es, window);
            && w.cleared <= |w.history|
            && Used(w.meter, now, window)
               == if w.lastAlarm != Some(now) then SumSince(w.history, now, window)
                  else if window > 0 then SumAfter(w.history, now, window)
                  else SumSince(w.history[w.cleared..], now, window)
  {
    var w := EndOf(FRESH, es, window);
    FreshInv(window);
    RunKeepsInv(FRESH, es, window);
    UsedSinceAlarm(w, now, window);
    SumSinceSplit(w.history, w.cleared, now, window);
    ClearedSums(w, now, window);
  }

  lemma FreshInv(window: nat)
    ensures Inv(FRESH, window)
  {
    assert DroppedFrom(FRESH, [], 0, window);
  }

  /** The edge is lost exactly when an alarm fires at the moment of the check over entries on the edge that carry bytes. */
  lemma {:induction false} EdgeLostExactly(es: seq<Event>, now: nat, window: nat)
    requires IsRun(FRESH, es, window) && EndOf(FRESH, es, window).clock <= now
    requires Sum(EndOf(FRESH, es, window).history) < U64_BOUND
    ensures var w := EndOf(FRESH, es, window);
            && w.cleared <= |w.history|
            && (Used(w.meter, now, window) < SumSince(w.history, now, window)
                <==> w.lastAlarm == Some(now)
                     && exists i :: 0 <= i < w.cleared && w.history[i].ts + window == now && w.history[i].bytes > 0)
  {
    var w := EndOf(FRESH, es, window);
    FreshInv(window);
    RunKeepsInv(FRESH, es, window);
    UsedSinceAlarm(w, now, window);
    SumSinceSplit(w.history, w.cleared, now, window);
    ClearedSums(w, now, window);
    SomeBytes(w.history[..w.cleared], now, window);
    if i :| 0 <= i < w.cleared && w.history[i].ts + window == now && w.history[i].bytes > 0 {
      assert w.history[..w.cleared][i] == w.history[i];
    }
  }

  lemma {:induction false} SomeBytes(es: seq<Usage>, now: nat, window: nat)
    ensures SumSince(es, now, window) > 0 <==> exists i :: 0 <= i < |es| && es[i].ts + window >= now && es[i].bytes > 0
  {
    if es != [] {
      SomeBytes(es[1..], now, window);
      if i :| 0 <= i < |es| && es[i].ts + window >= now && es[i].bytes > 0 && i > 0 {
        assert es[1..][i - 1] == es[i];
      }
      if i :| 0 <= i < |es[1..]| && es[1..][i].ts + window >= now && es[1..][i].bytes > 0 {
        assert es[i + 1] == es[1..][i];
      }
    }
  }

  /** For any amount and window there is a run in which the edge is lost: an alarm on the boundary clears what a check would still count. */
  lemma {:induction false} BoundaryIsLost(now: nat, bytes: nat, window: nat)
    requires 0 < bytes < U64_BOUND
    ensures var es := [Record(now, bytes), Alarm(now + window)];
            var w := EndOf(FRESH, es, window);
            && IsRun(FRESH, es, window)
            && Used(w.meter, now + window, window) == 0
            && SumSince(w.history, now + window, window) == bytes
  {
    var es := [Record(now, bytes), Alarm(now + window)];
    assert es[1..] == [Alarm(now + window)] && es[1..][1..] == [];
    var w1 := Next(FRESH, es[0], window);
    assert w1.history == [Usage(now, bytes)];
    assert IsRun(w1, es[1..], window);
    var w := Next(w1, es[1], window);
    assert EndOf(w1, es[1..], window) == w;
    assert SumSince([Usage(now, bytes)][1..], now + window, window) == 0;
  }

  // ---- Checks leave no trace.

  lemma {:induction false} PruneTwice(es: seq<Usage>, now1: nat, now2: nat, window: nat)
    requires now1 <= now2
    ensures Prune(Prune(es, now1, window), now2, window) == Prune(es, now2, window)
  {
    if es != [] {
      PruneTwice(es[1..], now1, now2, window);
      if es[0].ts >= Cutoff(now1, window) {
        var kept := [es[0]] + Prune(es[1..], now1, window);
        assert kept[0] == es[0] && kept[1..] == Prune(es[1..], now1, window);
        assert Prune(es, now1, window) == kept;
      }
    }
  }

  /** An earlier check changes neither a later decision nor what a reload finds. */
  lemma {:induction false} ChecksAreInvisible(m: Meter, now1: nat, now2: nat, bytes: nat, window: nat)
    requires now1 <= now2
    ensures Used(AfterCheck(m, now1, window), now2, window) == Used(m, now2, window)
    ensures AfterCheck(AfterCheck(m, now1, window), now2, window) == AfterCheck(m, now2, window)
    ensures AfterRecord(AfterCheck(m, now1, window), now2, bytes, window) == AfterRecord(m, now2, bytes, window)
    ensures AfterEviction(AfterCheck(m, now1, window)) == AfterEviction(m)
  {
    PruneTwice(Load(m).entries, now1, now2, window);
  }

  // ---- The decision in plain numbers.

  /**
    A check lets a request through exactly when the bytes recorded within the window of so many
    seconds, or on its edge, and the bytes requested are at most the limit together, unless an
    alarm fired at this moment.
   */
  lemma {:induction false} AllowedExactly(es: seq<Event>, now: nat, windowSecs: nat, requested: nat, limit: nat)
    requires windowSecs * 1000 < 0x1_0000_0000_0000_0000
    requires IsRun(FRESH, es, windowSecs * 1000) && EndOf(FRESH, es, windowSecs * 1000).clock <= now
    requires Sum(EndOf(FRESH, es, windowSecs * 1000).history) + requested < 0x1_0000_0000_0000_0000
    ensures var w := EndOf(FRESH, es, windowSecs * 1000);
            w.lastAlarm != Some(now) ==>
              (Decides(w.meter, now, windowSecs, requested, limit) <==> SumSince(w.history, now, windowSecs * 1000) + requested <= limit)
  {
    var w := EndOf(FRESH, es, windowSecs * 1000);
    CheckAgreesWithHistory(es, now, windowSecs * 1000);
    PrunedSum(w.history, now, windowSecs * 1000);
    SmallTotal(windowSecs * 1000);
  }

  /** What a check answers. */
  /** Totals are added up as machine words: what does not fit wraps around. */
  lemma {:induction false} TotalWraps(u: Usage, es: seq<Usage>)
    requires u.bytes < 0x1_0000_0000_0000_0000
    ensures TotalBytes([]) == 0
    ensures var total := u.bytes + TotalBytes(es);
            TotalBytes([u] + es) == if total < 0x1_0000_0000_0000_0000 then total else total - 0x1_0000_0000_0000_0000
  {
    assert ([u] + es)[1..] == es && Sum([u] + es) == u.bytes + Sum(es);
  }

  predicate Decides(m: Meter, now: nat, windowSecs: nat, requested: nat, limit: nat) {
    SaturatingAdd(Used(m, now, WindowMs(windowSecs)), requested) <= limit
  }

  /** A total that does not fit is taken for the largest one that does. */
  lemma Saturates(a: nat, b: nat)
    ensures a + b < 0x1_0000_0000_0000_0000 ==> SaturatingAdd(a, b) == a + b
    ensures a + b >= 0x1_0000_0000_0000_0000 ==> SaturatingAdd(a, b) == 0xFFFF_FFFF_FFFF_FFFF
  {
  }
}
