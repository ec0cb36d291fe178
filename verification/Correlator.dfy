/**
  The kill-chain correlator (internal/analytics/correlation/temporal.go).

  Within one call of Observe the local window and the stored one share a backing array: clearing
  a matched chain compacts the shared cells and shortens only the stored window, so later chains
  of the same call still see the cells past its end.  Buffer models that array.
 */
module Correlator {
  import opened Options

  datatype ChainRule = ChainRule(name: string, tactic: string, severity: string, window: int, sequence: seq<string>)

  datatype Stamped = Stamped(id: string, kind: string, time: int)

  datatype Event = Event(id: string, kind: string, source: string, timestamp: Option<int>)

  datatype Alert = Alert(rule: string, tactic: string, severity: string, destination: string,
                         chainEvents: seq<string>, triggerId: string)

  const EVENT_ALERT: string := "THREAT_ALERT"
  const MINUTE: int := 60_000_000_000

  datatype Config = Config(chains: seq<ChainRule>, maxAge: int)

  // ---------------------------------------------------------------- windows

  /** The events younger than the cutoff. */
  function Recent(events: seq<Stamped>, cutoff: int): seq<Stamped> {
    if events == [] then []
    else if events[0].time > cutoff then [events[0]] + Recent(events[1..], cutoff)
    else Recent(events[1..], cutoff)
  }

  function Without(events: seq<Stamped>, ids: seq<string>): (kept: seq<Stamped>)
    ensures |kept| <= |events|
  {
    if events == [] then []
    else if events[0].id in ids then Without(events[1..], ids)
    else [events[0]] + Without(events[1..], ids)
  }

  /** The greedy match of the remaining types. */
  function MatchFrom(window: seq<Stamped>, types: seq<string>, cutoff: int): Option<seq<string>>
    decreases |window|
  {
    if types == [] then Some([])
    else if window == [] then None
    else if window[0].time >= cutoff && window[0].kind == types[0] then
      match MatchFrom(window[1..], types[1..], cutoff)
      case None => None
      case Some(ids) => Some([window[0].id] + ids)
    else MatchFrom(window[1..], types, cutoff)
  }

  function Match(window: seq<Stamped>, chain: ChainRule, now: int): Option<seq<string>> {
    if chain.sequence == [] then None else MatchFrom(window, chain.sequence, now - chain.window)
  }

  // ---------------------------------------------------------------- the greedy match is complete

  /** Positions, in order, of in-window events with the given types. */
  ghost predicate Occurs(window: seq<Stamped>, types: seq<string>, cutoff: int, at: seq<int>) {
    && |at| == |types|
    && (forall i :: 0 <= i < |at| ==> 0 <= at[i] < |window|)
    && (forall i, j :: 0 <= i < j < |at| ==> at[i] < at[j])
    && (forall i :: 0 <= i < |at| ==> window[at[i]].time >= cutoff && window[at[i]].kind == types[i])
  }

  ghost function Shift(at: seq<int>, delta: int): seq<int> {
    seq(|at|, i requires 0 <= i < |at| => at[i] + delta)
  }

  lemma OccursLater(window: seq<Stamped>, types: seq<string>, cutoff: int, rest: seq<int>)
    requires window != [] && Occurs(window[1..], types, cutoff, rest)
    ensures Occurs(window, types, cutoff, Shift(rest, 1))
  {}

  lemma OccursNow(window: seq<Stamped>, types: seq<string>, cutoff: int, at: seq<int>)
    requires window != [] && types != [] && window[0].time >= cutoff && window[0].kind == types[0]
    requires Occurs(window, types[1..], cutoff, at) && forall i :: 0 <= i < |at| ==> at[i] > 0
    ensures Occurs(window, types, cutoff, [0] + at)
  {}

  lemma OccursEarlier(window: seq<Stamped>, types: seq<string>, cutoff: int, at: seq<int>)
    requires Occurs(window, types, cutoff, at) && forall i :: 0 <= i < |at| ==> at[i] > 0
    ensures |at| > 0 ==> window != []
    ensures window != [] ==> Occurs(window[1..], types, cutoff, Shift(at, -1))
  {
    if at != [] {
      assert 0 <= at[0] < |window|;
    }
  }

  lemma OccursRest(window: seq<Stamped>, types: seq<string>, cutoff: int, at: seq<int>)
    requires Occurs(window, types, cutoff, at) && at != []
    ensures Occurs(window, types[1..], cutoff, at[1..]) && forall i :: 0 <= i < |at[1..]| ==> at[1..][i] > 0
  {
    var rest := at[1..];
    forall i | 0 <= i < |rest| ensures rest[i] == at[i + 1] && rest[i] > at[0] {}
  }

  /** The types occur there, and these are the IDs of the events. */
  ghost predicate Located(window: seq<Stamped>, types: seq<string>, cutoff: int, at: seq<int>, ids: seq<string>) {
    && Occurs(window, types, cutoff, at)
    && |ids| == |at| && forall i :: 0 <= i < |at| ==> ids[i] == window[at[i]].id
  }

  lemma {:induction false} LocatedLater(window: seq<Stamped>, types: seq<string>, cutoff: int, rest: seq<int>, ids: seq<string>)
    requires window != [] && Located(window[1..], types, cutoff, rest, ids)
    ensures Located(window, types, cutoff, Shift(rest, 1), ids)
  {
    OccursLater(window, types, cutoff, rest);
  }

  lemma {:induction false} LocatedNow(window: seq<Stamped>, types: seq<string>, cutoff: int, rest: seq<int>, ids: seq<string>)
    requires window != [] && types != [] && window[0].time >= cutoff && window[0].kind == types[0]
    requires Located(window[1..], types[1..], cutoff, rest, ids)
    ensures Located(window, types, cutoff, [0] + Shift(rest, 1), [window[0].id] + ids)
  {
    OccursLater(window, types[1..], cutoff, rest);
    OccursNow(window, types, cutoff, Shift(rest, 1));
    IdsNow(window, rest, ids);
  }

  lemma {:induction false} IdsNow(window: seq<Stamped>, rest: seq<int>, ids: seq<string>)
    requires window != [] && |ids| == |rest|
    requires forall i :: 0 <= i < |rest| ==> 0 <= rest[i] < |window| - 1 && ids[i] == window[1..][rest[i]].id
    ensures var at := [0] + Shift(rest, 1);
            forall i :: 0 <= i < |at| ==> 0 <= at[i] < |window| && ([window[0].id] + ids)[i] == window[at[i]].id
  {
    var at := [0] + Shift(rest, 1);
    forall i | 0 <= i < |at| ensures 0 <= at[i] < |window| && ([window[0].id] + ids)[i] == window[at[i]].id {
      if i > 0 {
        assert at[i] == rest[i - 1] + 1;
      }
    }
  }

  lemma {:induction false} MatchLocated(window: seq<Stamped>, types: seq<string>, cutoff: int) returns (at: seq<int>)
    requires MatchFrom(window, types, cutoff).Some?
    ensures Located(window, types, cutoff, at, MatchFrom(window, types, cutoff).value)
    decreases |window|
  {
    if types == [] {
      at := [];
    } else {
      hide Located;
      if window[0].time >= cutoff && window[0].kind == types[0] {
        var rest := MatchLocated(window[1..], types[1..], cutoff);
        LocatedNow(window, types, cutoff, rest, MatchFrom(window[1..], types[1..], cutoff).value);
        at := [0] + Shift(rest, 1);
      } else {
        var rest := MatchLocated(window[1..], types, cutoff);
        LocatedLater(window, types, cutoff, rest, MatchFrom(window[1..], types, cutoff).value);
        at := Shift(rest, 1);
      }
    }
  }

  lemma {:induction false} MatchOccurs(window: seq<Stamped>, types: seq<string>, cutoff: int) returns (at: seq<int>)
    requires MatchFrom(window, types, cutoff).Some?
    ensures Occurs(window, types, cutoff, at)
    ensures var ids := MatchFrom(window, types, cutoff).value;
            |ids| == |at| && forall i :: 0 <= i < |at| ==> ids[i] == window[at[i]].id
  {
    hide MatchFrom;
    at := MatchLocated(window, types, cutoff);
  }

  lemma {:induction false} OccursMatches(window: seq<Stamped>, types: seq<string>, cutoff: int, at: seq<int>)
    requires Occurs(window, types, cutoff, at)
    ensures MatchFrom(window, types, cutoff).Some?
    decreases |window|
  {
    if types != [] {
      assert 0 <= at[0] < |window|;
      if window[0].time >= cutoff && window[0].kind == types[0] {
        OccursRest(window, types, cutoff, at);
        OccursEarlier(window, types[1..], cutoff, at[1..]);
        OccursMatches(window[1..], types[1..], cutoff, Shift(at[1..], -1));
      } else {
        OccursEarlier(window, types, cutoff, at);
        OccursMatches(window[1..], types, cutoff, Shift(at, -1));
      }
    }
  }

  /** The types occur in order among the events that are not older than the cutoff. */
  ghost predicate Subsequence(window: seq<Stamped>, types: seq<string>, cutoff: int) {
    exists at :: Occurs(window, types, cutoff, at)
  }

  /** A chain fires exactly when its sequence is a subsequence of the in-window events. */
  lemma {:induction false} MatchIffSubsequence(window: seq<Stamped>, chain: ChainRule, now: int)
    ensures Match(window, chain, now).Some? <==>
            chain.sequence != [] && Subsequence(window, chain.sequence, now - chain.window)
  {
    hide Occurs, MatchFrom;
    var cutoff := now - chain.window;
    if Match(window, chain, now).Some? {
      var at := MatchOccurs(window, chain.sequence, cutoff);
    }
    if Subsequence(window, chain.sequence, cutoff) {
      var at :| Occurs(window, chain.sequence, cutoff, at);
      OccursMatches(window, chain.sequence, cutoff, at);
    }
  }

  method MatchChain(window: seq<Stamped>, chain: ChainRule, now: int) returns (r: Option<seq<string>>)
    ensures r == Match(window, chain, now)
  {
    var types := chain.sequence;
    if |types| == 0 {
      return None;
    }
    var cutoff := now - chain.window;
    var ids: seq<string>, idx := [], 0;
    assert window[0..] == window && types[0..] == types;
    ghost var goal := MatchFrom(window, types, cutoff);
    assert goal.Some? ==> [] + goal.value == goal.value;
    for i := 0 to |window|
      invariant idx < |types|
      invariant Prefixed(ids, MatchFrom(window[i..], types[idx..], cutoff)) == goal
    {
      var ev := window[i];
      assert window[i..][1..] == window[i + 1..] && types[idx..][1..] == types[idx + 1..];
      if ev.time < cutoff {
        continue;
      }
      if ev.kind == types[idx] {
        PrefixedMore(ids, ev.id, MatchFrom(window[i + 1..], types[idx + 1..], cutoff));
        ids := ids + [ev.id];
        idx := idx + 1;
        if idx == |types| {
          assert ids + [] == ids;
          return Some(ids);
        }
      }
    }
    return None;
  }

  ghost function Prefixed(ids: seq<string>, r: Option<seq<string>>): Option<seq<string>> {
    if r.None? then None else Some(ids + r.value)
  }

  lemma PrefixedMore(ids: seq<string>, id: string, r: Option<seq<string>>)
    ensures Prefixed(ids, if r.None? then None else Some([id] + r.value)) == Prefixed(ids + [id], r)
  {
    if r.Some? {
      assert ids + ([id] + r.value) == (ids + [id]) + r.value;
    }
  }

  // ---------------------------------------------------------------- one call of Observe

  /** The shared backing cells and the length of the stored window. */
  datatype Buffer = Buffer(cells: seq<Stamped>, len: nat) {
    ghost predicate Valid() {
      len <= |cells|
    }

    function Window(): seq<Stamped>
      requires Valid()
    {
      cells[..len]
    }

    /** Compacting the stored window in place leaves the cells past its new end as they were. */
    function Clear(ids: seq<string>): (b: Buffer)
      requires Valid()
      ensures b.Valid() && |b.cells| == |cells|
    {
      var kept := Without(cells[..len], ids);
      Buffer(kept + cells[|kept|..], |kept|)
    }
  }

  function AlertFor(chain: ChainRule, e: Event, ids: seq<string>): Alert {
    Alert(chain.name, chain.tactic, if chain.severity == "" then "HIGH" else chain.severity, e.source, ids, e.id)
  }

  datatype Outcome = Outcome(buffer: Buffer, alerts: seq<Alert>)

  /** The chains in order: each is matched against all the cells, a match clears the stored window. */
  function Fire(chains: seq<ChainRule>, e: Event, now: int, buffer: Buffer): (o: Outcome)
    requires buffer.Valid()
    ensures o.buffer.Valid()
  {
    if chains == [] then Outcome(buffer, [])
    else
      match Match(buffer.cells, chains[0], now)
      case None => Fire(chains[1..], e, now, buffer)
      case Some(ids) =>
        var rest := Fire(chains[1..], e, now, buffer.Clear(ids));
        Outcome(rest.buffer, [AlertFor(chains[0], e, ids)] + rest.alerts)
  }

  lemma {:induction false} FireNext(chains: seq<ChainRule>, i: nat, e: Event, now: int, b: Buffer)
    requires i < |chains| && b.Valid()
    ensures Fire(chains[i..], e, now, b)
            == match Match(b.cells, chains[i], now)
               case None => Fire(chains[i + 1..], e, now, b)
               case Some(ids) =>
                 var rest := Fire(chains[i + 1..], e, now, b.Clear(ids));
                 Outcome(rest.buffer, [AlertFor(chains[i], e, ids)] + rest.alerts)
  {
    hide Match;
    assert chains[i..][1..] == chains[i + 1..];
  }

  /** The chains from i on turn the buffer and the alerts so far into those of the whole call. */
  ghost predicate Firing(chains: seq<ChainRule>, i: nat, e: Event, now: int, b: Buffer, alerts: seq<Alert>, buffer: Buffer, all: seq<Alert>) {
    && i <= |chains| && b.Valid()
    && var rest := Fire(chains[i..], e, now, b); rest.buffer == buffer && alerts + rest.alerts == all
  }

  lemma {:induction false} FiringStarts(chains: seq<ChainRule>, e: Event, now: int, b: Buffer, alerts: seq<Alert>)
    requires b.Valid()
    ensures var o := Fire(chains, e, now, b); Firing(chains, 0, e, now, b, alerts, o.buffer, alerts + o.alerts)
  {
    hide Fire;
    assert chains[0..] == chains;
  }

  lemma {:induction false} FiringNext(chains: seq<ChainRule>, i: nat, e: Event, now: int, b: Buffer,
                                      alerts: seq<Alert>, buffer: Buffer, all: seq<Alert>)
    requires Firing(chains, i, e, now, b, alerts, buffer, all) && i < |chains|
    ensures match Match(b.cells, chains[i], now)
            case None => Firing(chains, i + 1, e, now, b, alerts, buffer, all)
            case Some(ids) => Firing(chains, i + 1, e, now, b.Clear(ids), alerts + [AlertFor(chains[i], e, ids)], buffer, all)
  {
    FireNext(chains, i, e, now, b);
    hide Fire, Match, AlertFor;
    var m := Match(b.cells, chains[i], now);
    if m.Some? {
      var a, rest := AlertFor(chains[i], e, m.value), Fire(chains[i + 1..], e, now, b.Clear(m.value));
      assert alerts + ([a] + rest.alerts) == (alerts + [a]) + rest.alerts;
    }
  }

  lemma {:induction false} FiringEnds(chains: seq<ChainRule>, e: Event, now: int, b: Buffer, alerts: seq<Alert>, buffer: Buffer, all: seq<Alert>)
    requires Firing(chains, |chains|, e, now, b, alerts, buffer, all)
    ensures b == buffer && alerts == all
  {
    assert chains[|chains|..] == [] && alerts + [] == alerts;
  }

  type Windows = map<string, seq<Stamped>>

  function WindowOf(windows: Windows, source: string): seq<Stamped> {
    if source in windows then windows[source] else []
  }

  predicate Ignored(e: Event) {
    e.source == "" || e.kind == EVENT_ALERT
  }

  /** One call: the event, what the clock shows, and whether an alert callback is registered by then. */
  datatype Input = Input(event: Event, clock: int, callback: bool) {
    function Now(): int {
      if event.timestamp.Some? then event.timestamp.value else clock
    }
  }

  datatype Result = Result(windows: Windows, alerts: seq<Alert>)

  /** The window before matching: eviction, or not, and the new event. */
  function Extended(cfg: Config, evict: bool, existing: seq<Stamped>, e: Event, now: int): seq<Stamped> {
    (if evict then Recent(existing, now - cfg.maxAge) else existing) + [Stamped(e.id, e.kind, now)]
  }

  datatype Settled = Settled(window: seq<Stamped>, alerts: seq<Alert>)

  /** What a call stores for its source, and the alerts it raises. */
  function OnSource(cfg: Config, evict: bool, existing: seq<Stamped>, input: Input): Settled {
    var cells := Extended(cfg, evict, existing, input.event, input.Now());
    if !input.callback then Settled(cells, [])
    else
      var o := Fire(cfg.chains, input.event, input.Now(), Buffer(cells, |cells|));
      Settled(o.buffer.Window(), o.alerts)
  }

  /** One call; evict says whether old events are dropped, as the code does. */
  function Observed(cfg: Config, evict: bool, windows: Windows, input: Input): Result {
    var source := input.event.source;
    if Ignored(input.event) then Result(windows, [])
    else
      var settled := OnSource(cfg, evict, WindowOf(windows, source), input);
      Result(windows[source := settled.window], settled.alerts)
  }

  // ---------------------------------------------------------------- the object

  lemma {:induction false} RecentConcat(a: seq<Stamped>, b: seq<Stamped>, cutoff: int)
    ensures Recent(a + b, cutoff) == Recent(a, cutoff) + Recent(b, cutoff)
    decreases |a|
  {
    if a == [] {
      assert a + b == b;
    } else {
      assert (a + b)[1..] == a[1..] + b;
      RecentConcat(a[1..], b, cutoff);
    }
  }

  lemma {:induction false} WithoutConcat(a: seq<Stamped>, b: seq<Stamped>, ids: seq<string>)
    ensures Without(a + b, ids) == Without(a, ids) + Without(b, ids)
    decreases |a|
  {
    if a == [] {
      assert a + b == b;
    } else {
      assert (a + b)[1..] == a[1..] + b;
      WithoutConcat(a[1..], b, ids);
    }
  }

  lemma WithoutSnoc(s: seq<Stamped>, i: nat, ids: seq<string>)
    requires i < |s|
    ensures Without(s[..i + 1], ids) == Without(s[..i], ids) + if s[i].id in ids then [] else [s[i]]
  {
    assert s[..i + 1] == s[..i] + [s[i]];
    WithoutConcat(s[..i], [s[i]], ids);
  }

  /** The compaction loop of fireChainAlert on the shared cells. */
  method ClearInPlace(a: array<Stamped>, len: nat, ids: seq<string>) returns (n: nat)
    requires len <= a.Length
    modifies a
    ensures n <= a.Length && Buffer(a[..], n) == Buffer(old(a[..]), len).Clear(ids)
  {
    ghost var was := a[..];
    n := 0;
    for i := 0 to len
      invariant n <= i && a[n..] == was[n..]
      invariant a[..n] == Without(was[..i], ids)
    {
      WithoutSnoc(was, i, ids);
      hide Without;
      assert a[i] == a[n..][i - n] == was[i];
      if a[i].id !in ids {
        ghost var before := a[..n];
        a[n] := a[i];
        n := n + 1;
        assert a[..n] == before + [was[i]];
      }
    }
    assert was[..len] == was[..][..len];
    assert a[..] == a[..n] + a[n..];
  }

  class TemporalCorrelator {
    var windows: Windows
    const chains: seq<ChainRule>
    const maxAge: int
    var callback: bool
    /** What the callback has been given. */
    var alerts: seq<Alert>

    ghost function Settings(): Config {
      Config(chains, maxAge)
    }

    constructor (chains: seq<ChainRule>)
      ensures windows == map[] && alerts == [] && !callback && this.chains == chains
      ensures maxAge >= MINUTE && forall c :: c in chains ==> c.window <= maxAge
      ensures maxAge == MINUTE || exists c :: c in chains && c.window == maxAge
    {
      var age := MINUTE;
      for i := 0 to |chains|
        invariant age >= MINUTE && forall j :: 0 <= j < i ==> chains[j].window <= age
        invariant age == MINUTE || exists c :: c in chains && c.window == age
      {
        if chains[i].window > age {
          age := chains[i].window;
        }
      }
      windows, alerts, callback := map[], [], false;
      this.chains, maxAge := chains, age;
    }

    /** Registers a callback, or removes it by a nil one. */
    method SetAlertCallback(present: bool)
      modifies this
      ensures callback == present && windows == old(windows) && alerts == old(alerts)
    {
      callback := present;
    }

    method Observe(e: Event, clock: int)
      modifies this
      ensures callback == old(callback)
      ensures var r := Observed(Settings(), true, old(windows), Input(e, clock, callback));
              windows == r.windows && alerts == old(alerts) + r.alerts
      ensures e.source == "" || e.kind == "THREAT_ALERT" ==> windows == old(windows) && alerts == old(alerts)
      ensures forall s :: s in windows <==> s in old(windows) || (s == e.source != "" && e.kind != "THREAT_ALERT")
      ensures forall s :: s in old(windows) && s != e.source ==> windows[s] == old(windows)[s]
      ensures !callback && e.source != "" && e.kind != "THREAT_ALERT" ==>
                var w, time := windows[e.source], if e.timestamp.Some? then e.timestamp.value else clock;
                w != [] && w[|w| - 1] == Stamped(e.id, e.kind, time) && alerts == old(alerts)
    {
      if e.source == "" || e.kind == EVENT_ALERT {
        assert alerts + [] == alerts;
        return;
      }
      var now := if e.timestamp.Some? then e.timestamp.value else clock;
      var existing := WindowOf(windows, e.source);
      var trimmed := Evict(existing, now - maxAge);
      trimmed := trimmed + [Stamped(e.id, e.kind, now)];
      windows := windows[e.source := trimmed];
      FireChains(e, now, trimmed);
    }

    /** The loop over the chains; trimmed and the stored window share their cells. */
    method FireChains(e: Event, now: int, trimmed: seq<Stamped>)
      requires e.source in windows && windows[e.source] == trimmed
      modifies this
      ensures callback == old(callback)
      ensures !callback ==> windows == old(windows) && alerts == old(alerts)
      ensures callback ==>
                var o := Fire(chains, e, now, Buffer(trimmed, |trimmed|));
                windows == old(windows)[e.source := o.buffer.Window()] && alerts == old(alerts) + o.alerts
    {
      var cells := new Stamped[|trimmed|](i requires 0 <= i < |trimmed| => trimmed[i]);
      var len: nat := |trimmed|;
      ghost var goal := Fire(chains, e, now, Buffer(trimmed, |trimmed|));
      ghost var all := alerts + goal.alerts;
      FiringStarts(chains, e, now, Buffer(trimmed, |trimmed|), alerts);
      assert cells[..] == trimmed == cells[..len];
      assert windows == windows[e.source := trimmed];
      hide Fire, Match, Firing, AlertFor, Buffer.Clear;
      for i := 0 to |chains|
        invariant len <= cells.Length && callback == old(callback) && fresh(cells)
        invariant !callback ==> windows == old(windows) && alerts == old(alerts)
        invariant callback ==> windows == old(windows)[e.source := cells[..len]]
        invariant callback ==> Firing(chains, i, e, now, Buffer(cells[..], len), alerts, goal.buffer, all)
      {
        var chain := chains[i];
        var ids := MatchChain(cells[..], chain, now);
        if callback {
          FiringNext(chains, i, e, now, Buffer(cells[..], len), alerts, goal.buffer, all);
        }
        if ids.Some? && callback {
          var alert := AlertFor(chain, e, ids.value);
          len := ClearInPlace(cells, len, ids.value);
          windows := windows[e.source := cells[..len]];
          alerts := alerts + [alert];
        }
      }
      if callback {
        FiringEnds(chains, e, now, Buffer(cells[..], len), alerts, goal.buffer, all);
      }
    }
  }

  /** The eviction loop. */
  method Evict(existing: seq<Stamped>, cutoff: int) returns (trimmed: seq<Stamped>)
    ensures trimmed == Recent(existing, cutoff)
  {
    trimmed := [];
    assert existing[..0] == [];
    for i := 0 to |existing|
      invariant trimmed == Recent(existing[..i], cutoff)
    {
      assert existing[..i + 1] == existing[..i] + [existing[i]];
      RecentConcat(existing[..i], [existing[i]], cutoff);
      if existing[i].time > cutoff {
        trimmed := trimmed + [existing[i]];
      }
    }
    assert existing[..|existing|] == existing;
  }
}
