/**
  What the alerts of a run name: which events, in which order, how often.
 */
module CorrelatorAlerts {
  import opened Correlator
  import opened CorrelatorRuns
  import opened CorrelatorHistory
  import opened Options

  /** Everything observed from a source, in order. */
  function Log(inputs: seq<Input>, source: string): seq<Stamped>
    decreases |inputs|
  {
    if inputs == [] then []
    else
      var earlier, last := inputs[..|inputs| - 1], inputs[|inputs| - 1];
      if From(last, source) then Log(earlier, source) + [Stamp(last)] else Log(earlier, source)
  }

  // ---------------------------------------------------------------- stored events are logged events

  /** The window sits in the log at these increasing positions. */
  ghost predicate Embeds(w: seq<Stamped>, log: seq<Stamped>, at: seq<int>) {
    && |at| == |w|
    && (forall i :: 0 <= i < |at| ==> 0 <= at[i] < |log| && log[at[i]] == w[i])
    && (forall i, j :: 0 <= i < j < |at| ==> at[i] < at[j])
  }

  ghost predicate Within(w: seq<Stamped>, log: seq<Stamped>) {
    exists at :: Embeds(w, log, at)
  }

  lemma {:induction false} EmbedsRest(w: seq<Stamped>, log: seq<Stamped>, at: seq<int>)
    requires Embeds(w, log, at) && w != []
    ensures Embeds(w[1..], log, at[1..]) && forall i :: 0 <= i < |at[1..]| ==> at[1..][i] > at[0]
  {
    var rest := at[1..];
    forall i | 0 <= i < |rest| ensures rest[i] == at[i + 1] && rest[i] > at[0] {}
  }

  lemma {:induction false} EmbedsFirst(w: seq<Stamped>, log: seq<Stamped>, p: int, at: seq<int>)
    requires 0 <= p < |log| && Embeds(w, log, at) && forall i :: 0 <= i < |at| ==> at[i] > p
    ensures Embeds([log[p]] + w, log, [p] + at)
  {}

  /** Positions after p. */
  ghost predicate Beyond(at: seq<int>, p: int) {
    forall i :: 0 <= i < |at| ==> at[i] > p
  }

  lemma {:induction false} RecentEmbeds(w: seq<Stamped>, log: seq<Stamped>, at: seq<int>, cutoff: int, p: int) returns (to: seq<int>)
    requires Embeds(w, log, at) && Beyond(at, p)
    ensures Embeds(Recent(w, cutoff), log, to) && Beyond(to, p)
    decreases |w|
  {
    if w == [] {
      to := [];
    } else {
      EmbedsRest(w, log, at);
      if w[0].time > cutoff {
        var rest := RecentEmbeds(w[1..], log, at[1..], cutoff, at[0]);
        EmbedsFirst(Recent(w[1..], cutoff), log, at[0], rest);
        to := [at[0]] + rest;
      } else {
        to := RecentEmbeds(w[1..], log, at[1..], cutoff, p);
      }
    }
  }

  lemma {:induction false} WithoutEmbeds(w: seq<Stamped>, log: seq<Stamped>, at: seq<int>, ids: seq<string>, p: int) returns (to: seq<int>)
    requires Embeds(w, log, at) && Beyond(at, p)
    ensures Embeds(Without(w, ids), log, to) && Beyond(to, p)
    decreases |w|
  {
    if w == [] {
      to := [];
    } else {
      EmbedsRest(w, log, at);
      if w[0].id !in ids {
        var rest := WithoutEmbeds(w[1..], log, at[1..], ids, at[0]);
        EmbedsFirst(Without(w[1..], ids), log, at[0], rest);
        to := [at[0]] + rest;
      } else {
        to := WithoutEmbeds(w[1..], log, at[1..], ids, p);
      }
    }
  }

  lemma {:induction false} WithinCut(w: seq<Stamped>, log: seq<Stamped>, cutoff: int, ids: seq<string>)
    requires Within(w, log)
    ensures Within(Recent(w, cutoff), log) && Within(Without(w, ids), log)
  {
    hide Embeds, Recent, Without;
    var at :| Embeds(w, log, at);
    EmbedsBounded(w, log, at);
    var young := RecentEmbeds(w, log, at, cutoff, -1);
    var kept := WithoutEmbeds(w, log, at, ids, -1);
  }

  lemma EmbedsBounded(w: seq<Stamped>, log: seq<Stamped>, at: seq<int>)
    requires Embeds(w, log, at)
    ensures Beyond(at, -1)
  {}

  lemma {:induction false} WithinMore(w: seq<Stamped>, log: seq<Stamped>, ev: Stamped)
    requires Within(w, log)
    ensures Within(w + [ev], log + [ev])
  {
    var at :| Embeds(w, log, at);
    assert Embeds(w + [ev], log + [ev], at + [|log|]);
  }

  /** Over every run, the stored window of a source is a subsequence of its log. */
  lemma {:induction false} StoredIsLogged(cfg: Config, inputs: seq<Input>, source: string)
    ensures Within(WindowOf(WindowsAfter(cfg, true, inputs), source), Log(inputs, source))
    decreases |inputs|
  {
    if inputs == [] {
      assert Embeds([], [], []);
    } else {
      var earlier, last := inputs[..|inputs| - 1], inputs[|inputs| - 1];
      StoredIsLogged(cfg, earlier, source);
      hide Within, OnSource;
      if From(last, source) {
        CallIsLogged(cfg, WindowOf(WindowsAfter(cfg, true, earlier), source), Log(earlier, source), last);
      }
    }
  }

  lemma {:induction false} CallIsLogged(cfg: Config, stored: seq<Stamped>, log: seq<Stamped>, next: Input)
    requires Within(stored, log)
    ensures Within(Extended(cfg, true, stored, next.event, next.Now()), log + [Stamp(next)])
    ensures Within(OnSource(cfg, true, stored, next).window, log + [Stamp(next)])
  {
    hide Within, Recent, Fire, Without;
    var e, now := next.event, next.Now();
    var cells := Extended(cfg, true, stored, e, now);
    WithinCut(stored, log, now - cfg.maxAge, []);
    WithinMore(Recent(stored, now - cfg.maxAge), log, Stamp(next));
    if next.callback {
      FireWindow(cfg.chains, e, now, Buffer(cells, |cells|));
      assert cells[..|cells|] == cells;
      WithinCut(cells, log + [Stamp(next)], 0, SpentIds(Fire(cfg.chains, e, now, Buffer(cells, |cells|)).alerts));
    }
  }

  lemma {:induction false} LogNext(inputs: seq<Input>, i: nat)
    requires i < |inputs| && !Ignored(inputs[i].event)
    ensures Log(inputs[..i + 1], inputs[i].event.source) == Log(inputs[..i], inputs[i].event.source) + [Stamp(inputs[i])]
  {
    assert inputs[..i + 1][..i] == inputs[..i];
  }

  /** The cells a call of a run works on are a subsequence of the log. */
  lemma {:induction false} CellsAreLogged(cfg: Config, inputs: seq<Input>, i: nat)
    requires i < |inputs| && !Ignored(inputs[i].event)
    ensures Within(CellsNext(cfg, inputs[..i], inputs[i]), Log(inputs[..i + 1], inputs[i].event.source))
  {
    var source := inputs[i].event.source;
    StoredIsLogged(cfg, inputs[..i], source);
    LogNext(inputs, i);
    hide Within, Log, Extended, OnSource;
    CallIsLogged(cfg, WindowOf(WindowsAfter(cfg, true, inputs[..i]), source), Log(inputs[..i], source), inputs[i]);
  }

  // ---------------------------------------------------------------- the first alert of a call

  /** The alert carries the chain's labels and points at the event that completed it and at its source. */
  ghost predicate Labelled(a: Alert, c: ChainRule, e: Event) {
    && a.rule == c.name && a.tactic == c.tactic
    && a.severity == (if c.severity == "" then "HIGH" else c.severity)
    && a.destination == e.source && a.triggerId == e.id
  }

  /** The alert names, by their IDs, log events at increasing positions: the chain's types, inside its window. */
  ghost predicate Reports(a: Alert, c: ChainRule, e: Event, log: seq<Stamped>, now: int, at: seq<int>) {
    && Labelled(a, c, e)
    && Occurs(log, c.sequence, now - c.window, at)
    && |a.chainEvents| == |at|
    && forall k :: 0 <= k < |at| ==> a.chainEvents[k] == log[at[k]].id
  }

  ghost predicate Genuine(a: Alert, chains: seq<ChainRule>, e: Event, log: seq<Stamped>, now: int) {
    exists c, at :: c in chains && Reports(a, c, e, log, now, at)
  }

  ghost function Through(at: seq<int>, to: seq<int>): seq<int>
    requires forall i :: 0 <= i < |at| ==> 0 <= at[i] < |to|
  {
    seq(|at|, i requires 0 <= i < |at| => to[at[i]])
  }

  lemma {:induction false} ReportsThrough(a: Alert, c: ChainRule, e: Event, w: seq<Stamped>, log: seq<Stamped>, now: int, at: seq<int>, to: seq<int>)
    requires Reports(a, c, e, w, now, at) && Embeds(w, log, to)
    ensures Reports(a, c, e, log, now, Through(at, to))
  {}

  lemma {:induction false} FirstMatchReports(chains: seq<ChainRule>, w: seq<Stamped>, now: int, e: Event)
    requires FirstMatch(chains, w, now).Some?
    ensures Genuine(AlertFor(FirstMatch(chains, w, now).value.0, e, FirstMatch(chains, w, now).value.1), chains, e, w, now)
    decreases |chains|
  {
    hide MatchFrom, Reports;
    var c, ids := FirstMatch(chains, w, now).value.0, FirstMatch(chains, w, now).value.1;
    if Match(w, chains[0], now).Some? {
      var at := MatchOccurs(w, c.sequence, now - c.window);
      ReportsIs(AlertFor(c, e, ids), c, e, w, now, at);
    } else {
      FirstMatchReports(chains[1..], w, now, e);
    }
  }

  lemma ReportsIs(a: Alert, c: ChainRule, e: Event, w: seq<Stamped>, now: int, at: seq<int>)
    requires Labelled(a, c, e) && Occurs(w, c.sequence, now - c.window, at)
    requires |a.chainEvents| == |at| && forall k :: 0 <= k < |at| ==> a.chainEvents[k] == w[at[k]].id
    ensures Reports(a, c, e, w, now, at)
  {}

  /** The alerts of a call are those of the chains on its cells. */
  lemma {:induction false} CallFires(cfg: Config, inputs: seq<Input>, i: nat)
    requires i < |inputs| && Run(cfg, true, inputs)[i] != []
    ensures !Ignored(inputs[i].event)
    ensures var cells := CellsNext(cfg, inputs[..i], inputs[i]);
            Run(cfg, true, inputs)[i] == Fire(cfg.chains, inputs[i].event, inputs[i].Now(), Buffer(cells, |cells|)).alerts
  {
    RunAt(cfg, true, inputs, i);
    hide Run, WindowsAfter, Fire, Extended;
  }

  /**
    Over every run and every set of chains, the first alert of a call tells the truth: the events
    it names were observed from the source, one after the other, with the chain's types and
    inside its window.
   */
  lemma {:induction false} FirstAlertGenuine(cfg: Config, inputs: seq<Input>, i: nat)
    requires i < |inputs| && Run(cfg, true, inputs)[i] != []
    ensures Genuine(Run(cfg, true, inputs)[i][0], cfg.chains, inputs[i].event, Log(inputs[..i + 1], inputs[i].event.source), inputs[i].Now())
  {
    hide Run, Fire, FirstMatch, StartsWith, Genuine, Within, Log, CellsNext;
    CallFires(cfg, inputs, i);
    CellsAreLogged(cfg, inputs, i);
    var e, now, cells := inputs[i].event, inputs[i].Now(), CellsNext(cfg, inputs[..i], inputs[i]);
    FireStarts(cfg.chains, e, now, Buffer(cells, |cells|));
    StartsGenuine(cfg.chains, Run(cfg, true, inputs)[i], cells, now, e);
    GenuineWithin(Run(cfg, true, inputs)[i][0], cfg.chains, e, cells, Log(inputs[..i + 1], e.source), now);
  }

  lemma {:induction false} StartsGenuine(chains: seq<ChainRule>, alerts: seq<Alert>, w: seq<Stamped>, now: int, e: Event)
    requires StartsWith(alerts, FirstMatch(chains, w, now), e) && alerts != []
    ensures Genuine(alerts[0], chains, e, w, now)
  {
    hide FirstMatch, Genuine;
    FirstMatchReports(chains, w, now, e);
  }

  lemma {:induction false} GenuineWithin(a: Alert, chains: seq<ChainRule>, e: Event, w: seq<Stamped>, log: seq<Stamped>, now: int)
    requires Genuine(a, chains, e, w, now) && Within(w, log)
    ensures Genuine(a, chains, e, log, now)
  {
    hide Reports, Embeds;
    var c, at :| c in chains && Reports(a, c, e, w, now, at);
    var to :| Embeds(w, log, to);
    ReportsBounded(a, c, e, w, now, at, log, to);
    ReportsThrough(a, c, e, w, log, now, at, to);
  }

  lemma ReportsBounded(a: Alert, c: ChainRule, e: Event, w: seq<Stamped>, now: int, at: seq<int>, log: seq<Stamped>, to: seq<int>)
    requires Reports(a, c, e, w, now, at) && Embeds(w, log, to)
    ensures forall i :: 0 <= i < |at| ==> 0 <= at[i] < |to|
  {}

  // ---------------------------------------------------------------- every alert of a call

  /** Some event of the source carries this ID and type and is not older than the cutoff. */
  ghost predicate Seen(events: seq<Stamped>, id: string, kind: string, cutoff: int) {
    exists ev :: ev in events && ev.id == id && ev.kind == kind && ev.time >= cutoff
  }

  /** Entry by entry the alert names an event of the chain's type inside the window. */
  ghost predicate Names(a: Alert, c: ChainRule, e: Event, events: seq<Stamped>, now: int) {
    && Labelled(a, c, e)
    && |a.chainEvents| == |c.sequence|
    && forall k :: 0 <= k < |a.chainEvents| ==> Seen(events, a.chainEvents[k], c.sequence[k], now - c.window)
  }

  ghost predicate AllName(alerts: seq<Alert>, chains: seq<ChainRule>, e: Event, events: seq<Stamped>, now: int) {
    forall a :: a in alerts ==> exists c :: c in chains && Names(a, c, e, events, now)
  }

  lemma {:induction false} MatchNames(c: ChainRule, e: Event, now: int, cells: seq<Stamped>, events: seq<Stamped>, ids: seq<string>)
    requires Match(cells, c, now) == Some(ids) && forall ev :: ev in cells ==> ev in events
    ensures Names(AlertFor(c, e, ids), c, e, events, now)
  {
    var at := MatchOccurs(cells, c.sequence, now - c.window);
    hide MatchFrom;
    forall k | 0 <= k < |ids| ensures Seen(events, ids[k], c.sequence[k], now - c.window) {
      assert cells[at[k]] in cells;
    }
  }

  lemma {:induction false} FireNames(chains: seq<ChainRule>, e: Event, now: int, b: Buffer, events: seq<Stamped>)
    requires b.Valid() && forall ev :: ev in b.cells ==> ev in events
    ensures AllName(Fire(chains, e, now, b).alerts, chains, e, events, now)
    decreases |chains|
  {
    if chains != [] {
      hide Names, Match;
      var m := Match(b.cells, chains[0], now);
      if m.None? {
        FireNames(chains[1..], e, now, b, events);
      } else {
        ClearWindow(b, m.value);
        FireNames(chains[1..], e, now, b.Clear(m.value), events);
        MatchNames(chains[0], e, now, b.cells, events, m.value);
      }
    }
  }

  lemma {:induction false} WithinMembers(w: seq<Stamped>, log: seq<Stamped>)
    requires Within(w, log)
    ensures forall ev :: ev in w ==> ev in log
  {
    var at :| Embeds(w, log, at);
  }

  /** Every entry of every alert names an observed event of the right type inside the window. */
  lemma {:induction false} AlertsNameObserved(cfg: Config, inputs: seq<Input>, i: nat)
    requires i < |inputs|
    ensures AllName(Run(cfg, true, inputs)[i], cfg.chains, inputs[i].event, Log(inputs[..i + 1], inputs[i].event.source), inputs[i].Now())
  {
    hide Run, Fire, Within, Log, Names, CellsNext;
    if Run(cfg, true, inputs)[i] != [] {
      CallFires(cfg, inputs, i);
      CellsAreLogged(cfg, inputs, i);
      var cells, log := CellsNext(cfg, inputs[..i], inputs[i]), Log(inputs[..i + 1], inputs[i].event.source);
      WithinMembers(cells, log);
      FireNames(cfg.chains, inputs[i].event, inputs[i].Now(), Buffer(cells, |cells|), log);
    }
  }

  // ---------------------------------------------------------------- distinct events

  ghost predicate NoRepeats(s: seq<string>) {
    forall i, j :: 0 <= i < j < |s| ==> s[i] != s[j]
  }

  ghost predicate Shares(c: ChainRule, d: ChainRule) {
    exists t :: t in c.sequence && t in d.sequence
  }

  /** No chain repeats a type and no two chains share one. */
  ghost predicate DisjointTypes(chains: seq<ChainRule>) {
    && (forall i :: 0 <= i < |chains| ==> NoRepeats(chains[i].sequence))
    && (forall i, j :: 0 <= i < j < |chains| ==> !Shares(chains[i], chains[j]))
  }

  /** An ID stands for one event. */
  ghost predicate Identifies(events: seq<Stamped>) {
    forall x, y :: x in events && y in events && x.id == y.id ==> x == y
  }

  lemma {:induction false} DisjointTail(chains: seq<ChainRule>)
    requires DisjointTypes(chains) && chains != []
    ensures DisjointTypes(chains[1..]) && NoRepeats(chains[0].sequence)
    ensures forall c :: c in chains[1..] ==> !Shares(chains[0], c)
  {
    hide NoRepeats, Shares;
    var rest := chains[1..];
    forall i, j | 0 <= i < j < |rest| ensures !Shares(rest[i], rest[j]) {
      assert rest[i] == chains[i + 1] && rest[j] == chains[j + 1];
    }
    forall c | c in rest ensures !Shares(chains[0], c) {
      var i :| 0 <= i < |rest| && rest[i] == c;
      assert c == chains[i + 1];
    }
  }

  lemma {:induction false} NamesDistinct(a: Alert, c: ChainRule, e: Event, events: seq<Stamped>, now: int)
    requires Names(a, c, e, events, now) && Identifies(events) && NoRepeats(c.sequence)
    ensures NoRepeats(a.chainEvents)
  {}

  lemma {:induction false} NamedEvent(a: Alert, c: ChainRule, e: Event, events: seq<Stamped>, now: int, id: string) returns (ev: Stamped)
    requires Names(a, c, e, events, now) && id in a.chainEvents
    ensures ev in events && ev.id == id && ev.kind in c.sequence
  {
    var k :| 0 <= k < |a.chainEvents| && a.chainEvents[k] == id;
    assert Seen(events, a.chainEvents[k], c.sequence[k], now - c.window);
    ev :| ev in events && ev.id == id && ev.kind == c.sequence[k];
  }

  lemma {:induction false} NamesApart(a: Alert, c: ChainRule, b: Alert, d: ChainRule, e: Event, events: seq<Stamped>, now: int, id: string)
    requires Names(a, c, e, events, now) && Names(b, d, e, events, now) && Identifies(events) && !Shares(c, d)
    requires id in a.chainEvents
    ensures id !in b.chainEvents
  {
    hide Names;
    if id in b.chainEvents {
      var x := NamedEvent(a, c, e, events, now, id);
      var y := NamedEvent(b, d, e, events, now, id);
    }
  }

  lemma {:induction false} SpentBy(alerts: seq<Alert>, id: string) returns (a: Alert)
    requires id in SpentIds(alerts)
    ensures a in alerts && id in a.chainEvents
    decreases |alerts|
  {
    if id in alerts[0].chainEvents {
      a := alerts[0];
    } else {
      a := SpentBy(alerts[1..], id);
    }
  }

  lemma {:induction false} NoRepeatsConcat(a: seq<string>, b: seq<string>)
    requires NoRepeats(a) && NoRepeats(b) && forall id :: id in a ==> id !in b
    ensures NoRepeats(a + b)
  {
    forall i, j | 0 <= i < j < |a + b| ensures (a + b)[i] != (a + b)[j] {
      if i < |a| <= j {
        assert a[i] in a && b[j - |a|] in b;
      }
    }
  }

  lemma {:induction false} FireDistinct(chains: seq<ChainRule>, e: Event, now: int, b: Buffer, events: seq<Stamped>)
    requires b.Valid() && Identifies(events) && DisjointTypes(chains) && forall ev :: ev in b.cells ==> ev in events
    ensures NoRepeats(SpentIds(Fire(chains, e, now, b).alerts))
    decreases |chains|
  {
    if chains != [] {
      DisjointTail(chains);
      hide Names, Match, DisjointTypes, NoRepeats, Identifies, Shares;
      var m := Match(b.cells, chains[0], now);
      if m.None? {
        FireDistinct(chains[1..], e, now, b, events);
      } else {
        var first, rest := AlertFor(chains[0], e, m.value), Fire(chains[1..], e, now, b.Clear(m.value)).alerts;
        assert Fire(chains, e, now, b).alerts[1..] == rest;
        ClearWindow(b, m.value);
        FireDistinct(chains[1..], e, now, b.Clear(m.value), events);
        MatchNames(chains[0], e, now, b.cells, events, m.value);
        NamesDistinct(first, chains[0], e, events, now);
        FireNames(chains[1..], e, now, b.Clear(m.value), events);
        forall id | id in m.value ensures id !in SpentIds(rest) {
          if id in SpentIds(rest) {
            var a := SpentBy(rest, id);
            var c :| c in chains[1..] && Names(a, c, e, events, now);
            NamesApart(first, chains[0], a, c, e, events, now, id);
          }
        }
        NoRepeatsConcat(m.value, SpentIds(rest));
      }
    } else {
      assert SpentIds([]) == [];
    }
  }

  lemma {:induction false} LogMembers(inputs: seq<Input>, source: string, ev: Stamped) returns (k: nat)
    requires ev in Log(inputs, source)
    ensures k < |inputs| && From(inputs[k], source) && Stamp(inputs[k]) == ev
    decreases |inputs|
  {
    var earlier, last := inputs[..|inputs| - 1], inputs[|inputs| - 1];
    if From(last, source) && Stamp(last) == ev {
      k := |inputs| - 1;
    } else {
      k := LogMembers(earlier, source, ev);
    }
  }

  lemma {:induction false} LogIdentifies(inputs: seq<Input>, n: nat, source: string)
    requires UniqueIds(inputs) && n <= |inputs|
    ensures Identifies(Log(inputs[..n], source))
  {
    hide Log;
    var log := Log(inputs[..n], source);
    forall x, y | x in log && y in log && x.id == y.id ensures x == y {
      var i := LogMembers(inputs[..n], source, x);
      var j := LogMembers(inputs[..n], source, y);
    }
  }

  /**
    Chains of any length: when none repeats a type and no two share one, all the alerts of a call
    together name every event at most once.
   */
  lemma {:induction false} CallSpendsOnce(cfg: Config, inputs: seq<Input>, i: nat)
    requires UniqueIds(inputs) && DisjointTypes(cfg.chains) && i < |inputs|
    ensures NoRepeats(SpentIds(Run(cfg, true, inputs)[i]))
  {
    hide Run, Fire, Within, Log, NoRepeats, CellsNext, DisjointTypes, UniqueIds, Identifies;
    if Run(cfg, true, inputs)[i] == [] {
      NoRepeatsEmpty();
    } else {
      CallFires(cfg, inputs, i);
      CellsAreLogged(cfg, inputs, i);
      var cells, log := CellsNext(cfg, inputs[..i], inputs[i]), Log(inputs[..i + 1], inputs[i].event.source);
      WithinMembers(cells, log);
      LogIdentifies(inputs, i + 1, inputs[i].event.source);
      FireDistinct(cfg.chains, inputs[i].event, inputs[i].Now(), Buffer(cells, |cells|), log);
    }
  }

  lemma NoRepeatsEmpty()
    ensures NoRepeats([])
  {}
}
