/**
  Whole runs of the correlator: eviction is invisible, and no event is spent twice.
 */
module CorrelatorRuns {
  import opened Correlator
  import opened Options

  /** The alerts of each call, in order. */
  function RunFrom(cfg: Config, evict: bool, windows: Windows, inputs: seq<Input>): (calls: seq<seq<Alert>>)
    ensures |calls| == |inputs|
    decreases |inputs|
  {
    if inputs == [] then []
    else
      var r := Observed(cfg, evict, windows, inputs[0]);
      [r.alerts] + RunFrom(cfg, evict, r.windows, inputs[1..])
  }

  function Run(cfg: Config, evict: bool, inputs: seq<Input>): (calls: seq<seq<Alert>>)
    ensures |calls| == |inputs|
  {
    RunFrom(cfg, evict, map[], inputs)
  }

  // ---------------------------------------------------------------- clearing

  ghost predicate Has(events: seq<Stamped>, id: string) {
    exists ev :: ev in events && ev.id == id
  }

  lemma {:induction false} WithoutMembers(w: seq<Stamped>, ids: seq<string>)
    ensures forall ev :: ev in Without(w, ids) <==> ev in w && ev.id !in ids
    decreases |w|
  {
    if w != [] {
      WithoutMembers(w[1..], ids);
      assert w == [w[0]] + w[1..];
    }
  }

  lemma {:induction false} WithoutTwice(w: seq<Stamped>, a: seq<string>, b: seq<string>)
    ensures Without(Without(w, a), b) == Without(w, a + b)
    decreases |w|
  {
    if w != [] {
      WithoutTwice(w[1..], a, b);
      if w[0].id !in a {
        assert Without(w, a)[1..] == Without(w[1..], a);
      }
    }
  }

  lemma {:induction false} WithoutNone(w: seq<Stamped>)
    ensures Without(w, []) == w
    decreases |w|
  {
    if w != [] {
      WithoutNone(w[1..]);
    }
  }

  lemma {:induction false} WithoutDisjoint(w: seq<Stamped>, ids: seq<string>)
    requires forall ev :: ev in w ==> ev.id !in ids
    ensures Without(w, ids) == w
    decreases |w|
  {
    if w != [] {
      WithoutDisjoint(w[1..], ids);
    }
  }

  lemma {:induction false} MatchedIds(window: seq<Stamped>, types: seq<string>, cutoff: int, id: string)
    requires MatchFrom(window, types, cutoff).Some? && id in MatchFrom(window, types, cutoff).value
    ensures Has(window, id)
  {
    var at := MatchOccurs(window, types, cutoff);
    var i :| 0 <= i < |at| && MatchFrom(window, types, cutoff).value[i] == id;
    assert window[at[i]] in window;
  }

  function SpentIds(alerts: seq<Alert>): seq<string> {
    if alerts == [] then [] else alerts[0].chainEvents + SpentIds(alerts[1..])
  }

  lemma {:induction false} ClearWindow(b: Buffer, ids: seq<string>)
    requires b.Valid()
    ensures b.Clear(ids).Window() == Without(b.Window(), ids)
    ensures forall ev :: ev in b.Clear(ids).cells ==> ev in b.cells
  {
    WithoutMembers(b.Window(), ids);
    var kept := Without(b.cells[..b.len], ids);
    hide Without;
    forall ev | ev in b.Clear(ids).cells ensures ev in b.cells {
      assert ev in kept || ev in b.cells[|kept|..];
    }
  }

  /** What a call leaves in the stored window, and where its alerts come from. */
  lemma {:induction false} FireWindow(chains: seq<ChainRule>, e: Event, now: int, b: Buffer)
    requires b.Valid()
    ensures var o := Fire(chains, e, now, b);
            && o.buffer.Window() == Without(b.Window(), SpentIds(o.alerts))
            && forall id :: id in SpentIds(o.alerts) ==> Has(b.cells, id)
    decreases |chains|
  {
    if chains == [] {
      WithoutNone(b.Window());
    } else {
      var m := Match(b.cells, chains[0], now);
      if m.None? {
        FireWindow(chains[1..], e, now, b);
      } else {
        FireWindowMatched(chains, e, now, b, m.value);
      }
    }
  }

  lemma {:induction false} FireWindowMatched(chains: seq<ChainRule>, e: Event, now: int, b: Buffer, ids: seq<string>)
    requires b.Valid() && chains != [] && Match(b.cells, chains[0], now) == Some(ids)
    ensures var o := Fire(chains, e, now, b);
            && o.buffer.Window() == Without(b.Window(), SpentIds(o.alerts))
            && forall id :: id in SpentIds(o.alerts) ==> Has(b.cells, id)
    decreases |chains|, 0
  {
    var cleared := b.Clear(ids);
    FireWindow(chains[1..], e, now, cleared);
    ClearWindow(b, ids);
    var o, rest := Fire(chains, e, now, b), Fire(chains[1..], e, now, cleared);
    assert o.alerts[1..] == rest.alerts;
    assert SpentIds(o.alerts) == ids + SpentIds(rest.alerts);
    WithoutTwice(b.Window(), ids, SpentIds(rest.alerts));
    hide Fire, Without, SpentIds;
    forall id | id in ids + SpentIds(rest.alerts) ensures Has(b.cells, id) {
      if id in ids {
        MatchedIds(b.cells, chains[0].sequence, now - chains[0].window, id);
      } else {
        var ev :| ev in cleared.cells && ev.id == id;
      }
    }
  }

  // ---------------------------------------------------------------- no event is spent twice

  /** Observed events carry distinct IDs. */
  ghost predicate UniqueIds(inputs: seq<Input>) {
    forall i, j :: 0 <= i < j < |inputs| && !Ignored(inputs[i].event) && !Ignored(inputs[j].event)
                   ==> inputs[i].event.id != inputs[j].event.id
  }

  ghost predicate NoneOf(windows: Windows, id: string) {
    forall s :: s in windows ==> !Has(windows[s], id)
  }

  /** Different sources hold different IDs, and no coming event reuses a stored ID. */
  ghost predicate Separate(windows: Windows, inputs: seq<Input>) {
    && (forall s, t, id :: s in windows && t in windows && s != t && Has(windows[s], id) ==> !Has(windows[t], id))
    && (forall j :: 0 <= j < |inputs| && !Ignored(inputs[j].event) ==> NoneOf(windows, inputs[j].event.id))
  }

  lemma {:induction false} RecentMembers(w: seq<Stamped>, cutoff: int)
    ensures forall ev :: ev in Recent(w, cutoff) ==> ev in w
    decreases |w|
  {
    if w != [] {
      RecentMembers(w[1..], cutoff);
    }
  }

  lemma {:induction false} ExtendedHas(cfg: Config, evict: bool, existing: seq<Stamped>, e: Event, now: int, id: string)
    requires Has(Extended(cfg, evict, existing, e, now), id)
    ensures Has(existing, id) || id == e.id
  {
    RecentMembers(existing, now - cfg.maxAge);
    hide Recent;
  }

  /** What one call does to the IDs of the stored windows. */
  lemma {:induction false} ObservedIds(cfg: Config, evict: bool, windows: Windows, input: Input, id: string)
    requires !Ignored(input.event)
    ensures var e, r := input.event, Observed(cfg, evict, windows, input);
            && r.windows.Keys == windows.Keys + {e.source}
            && (forall s :: s in windows && s != e.source ==> r.windows[s] == windows[s])
            && (Has(r.windows[e.source], id) ==> Has(WindowOf(windows, e.source), id) || id == e.id)
            && (id in SpentIds(r.alerts) ==>
                  && (Has(WindowOf(windows, e.source), id) || id == e.id)
                  && !Has(r.windows[e.source], id))
  {
    var e, now := input.event, input.Now();
    var existing := WindowOf(windows, e.source);
    var cells := Extended(cfg, evict, existing, e, now);
    hide Extended, Fire;
    if Has(cells, id) {
      ExtendedHas(cfg, evict, existing, e, now, id);
    }
    if input.callback {
      var b := Buffer(cells, |cells|);
      FireWindow(cfg.chains, e, now, b);
      var o := Fire(cfg.chains, e, now, b);
      assert b.Window() == cells;
      WithoutMembers(cells, SpentIds(o.alerts));
    }
  }

  lemma {:induction false} StaysSeparate(cfg: Config, evict: bool, windows: Windows, inputs: seq<Input>)
    requires inputs != [] && UniqueIds(inputs) && Separate(windows, inputs)
    ensures UniqueIds(inputs[1..])
    ensures Separate(Observed(cfg, evict, windows, inputs[0]).windows, inputs[1..])
  {
    var e := inputs[0].event;
    var next := Observed(cfg, evict, windows, inputs[0]).windows;
    hide Has;
    if !Ignored(e) {
      forall id ensures Has(next[e.source], id) ==> Has(WindowOf(windows, e.source), id) || id == e.id {
        ObservedIds(cfg, evict, windows, inputs[0], id);
      }
      ObservedIds(cfg, evict, windows, inputs[0], "");
      hide Observed;
      EmptyHas();
      assert NoneOf(windows, e.id);
      forall s, t, id | s in next && t in next && s != t && Has(next[s], id) ensures !Has(next[t], id) {
      }
    }
  }

  lemma EmptyHas()
    ensures forall id :: !Has([], id)
  {}

  /** An ID that is in no window and on no coming event is never reported again. */
  lemma {:induction false} NeverReported(cfg: Config, evict: bool, windows: Windows, inputs: seq<Input>, id: string, k: nat)
    requires k < |inputs| && NoneOf(windows, id)
    requires forall j :: 0 <= j < |inputs| && !Ignored(inputs[j].event) ==> inputs[j].event.id != id
    ensures id !in SpentIds(RunFrom(cfg, evict, windows, inputs)[k])
    decreases |inputs|
  {
    hide SpentIds, Observed, NoneOf;
    StaysUnseen(cfg, evict, windows, inputs[0], id);
    if k > 0 {
      NeverReported(cfg, evict, Observed(cfg, evict, windows, inputs[0]).windows, inputs[1..], id, k - 1);
    }
  }

  lemma {:induction false} StaysUnseen(cfg: Config, evict: bool, windows: Windows, input: Input, id: string)
    requires NoneOf(windows, id) && (Ignored(input.event) || input.event.id != id)
    ensures var r := Observed(cfg, evict, windows, input); NoneOf(r.windows, id) && id !in SpentIds(r.alerts)
  {
    if Ignored(input.event) {
      hide OnSource, Has;
    } else {
      ObservedIds(cfg, evict, windows, input, id);
      EmptyHas();
      hide Has, Observed, SpentIds;
    }
  }

  lemma {:induction false} SpentOnceFrom(cfg: Config, evict: bool, windows: Windows, inputs: seq<Input>, i: nat, j: nat, id: string)
    requires UniqueIds(inputs) && Separate(windows, inputs) && i < j < |inputs|
    requires id in SpentIds(RunFrom(cfg, evict, windows, inputs)[i])
    ensures id !in SpentIds(RunFrom(cfg, evict, windows, inputs)[j])
    decreases |inputs|
  {
    var r := Observed(cfg, evict, windows, inputs[0]);
    if i > 0 {
      StaysSeparate(cfg, evict, windows, inputs);
      hide Separate, UniqueIds, Observed, SpentIds;
      SpentOnceFrom(cfg, evict, r.windows, inputs[1..], i - 1, j - 1, id);
    } else {
      hide Observed, SpentIds, NoneOf, Separate;
      SpentIsGone(cfg, evict, windows, inputs, id);
      NeverReported(cfg, evict, r.windows, inputs[1..], id, j - 1);
    }
  }

  /** An ID that a call reports is in no window afterwards. */
  lemma {:induction false} SpentIsGone(cfg: Config, evict: bool, windows: Windows, inputs: seq<Input>, id: string)
    requires inputs != [] && UniqueIds(inputs) && Separate(windows, inputs)
    requires id in SpentIds(Observed(cfg, evict, windows, inputs[0]).alerts)
    ensures NoneOf(Observed(cfg, evict, windows, inputs[0]).windows, id)
    ensures forall j :: 0 <= j < |inputs[1..]| && !Ignored(inputs[1..][j].event) ==> inputs[1..][j].event.id != id
  {
    var e, rest := inputs[0].event, inputs[1..];
    ReportedNotIgnored(cfg, evict, windows, inputs[0]);
    ObservedIds(cfg, evict, windows, inputs[0], id);
    EmptyHas();
    hide Has, Observed, SpentIds;
    forall j | 0 <= j < |rest| && !Ignored(rest[j].event) ensures rest[j].event.id != id {
      assert rest[j] == inputs[j + 1];
    }
  }

  lemma {:induction false} ReportedNotIgnored(cfg: Config, evict: bool, windows: Windows, input: Input)
    requires SpentIds(Observed(cfg, evict, windows, input).alerts) != []
    ensures !Ignored(input.event)
  {
    hide OnSource;
  }

  /**
    Over every run and every set of chains, no event ID appears in the chain events of alerts
    raised by two different calls.
   */
  lemma {:induction false} NoEventSpentTwice(cfg: Config, inputs: seq<Input>, i: nat, j: nat, id: string)
    requires UniqueIds(inputs) && i < j < |inputs|
    requires id in SpentIds(Run(cfg, true, inputs)[i])
    ensures id !in SpentIds(Run(cfg, true, inputs)[j])
  {
    SpentOnceFrom(cfg, true, map[], inputs, i, j, id);
  }

  // ---------------------------------------------------------------- eviction is invisible

  /** What the code promises about its settings. */
  ghost predicate Covers(cfg: Config) {
    forall c :: c in cfg.chains ==> c.window <= cfg.maxAge
  }

  /** Every chain is shorter than the eviction age. */
  ghost predicate Strict(cfg: Config) {
    forall c :: c in cfg.chains ==> c.window < cfg.maxAge
  }

  /** A stored event and a later one: time does not run back, and they are not maxAge apart. */
  ghost predicate Follows(cfg: Config, ev: Stamped, id: string, now: int) {
    ev.id != id && ev.time <= now && (now - ev.time == cfg.maxAge ==> Strict(cfg))
  }

  ghost predicate Orderly(cfg: Config, inputs: seq<Input>) {
    forall i, j :: 0 <= i < j < |inputs| && !Ignored(inputs[i].event) && !Ignored(inputs[j].event)
                   && inputs[i].event.source == inputs[j].event.source
                   ==> Follows(cfg, Stamped(inputs[i].event.id, inputs[i].event.kind, inputs[i].Now()),
                               inputs[j].event.id, inputs[j].Now())
  }

  /** Stored events are in time order and have different IDs. */
  ghost predicate Increasing(w: seq<Stamped>) {
    forall i, j :: 0 <= i < j < |w| ==> w[i].time <= w[j].time && w[i].id != w[j].id
  }

  ghost predicate Dead(cfg: Config, ev: Stamped, now: int) {
    ev.time <= now - cfg.maxAge
  }

  /** The stored events can be followed by this one, and the first cut of them are dead by then. */
  ghost predicate Ready(cfg: Config, full: seq<Stamped>, cut: nat, id: string, now: int)
    requires cut <= |full|
  {
    && (forall ev :: ev in full ==> Follows(cfg, ev, id, now))
    && (forall ev :: ev in full[..cut] ==> Dead(cfg, ev, now))
  }

  /** The trimmed window is the full one without a prefix that no coming event can match with. */
  ghost predicate Trims(cfg: Config, trimmed: seq<Stamped>, full: seq<Stamped>, source: string, inputs: seq<Input>) {
    && |trimmed| <= |full| && trimmed == full[|full| - |trimmed|..]
    && Increasing(full)
    && (forall j :: 0 <= j < |inputs| && !Ignored(inputs[j].event) && inputs[j].event.source == source
                    ==> Ready(cfg, full, |full| - |trimmed|, inputs[j].event.id, inputs[j].Now()))
  }

  ghost predicate AllTrim(cfg: Config, trimmed: Windows, full: Windows, inputs: seq<Input>) {
    forall s :: Trims(cfg, WindowOf(trimmed, s), WindowOf(full, s), s, inputs)
  }

  lemma {:induction false} MatchSkips(dead: seq<Stamped>, w: seq<Stamped>, types: seq<string>, cutoff: int)
    requires forall ev :: ev in dead ==> ev.time < cutoff
    ensures MatchFrom(dead + w, types, cutoff) == MatchFrom(w, types, cutoff)
    decreases |dead|
  {
    if dead == [] {
      assert dead + w == w;
    } else {
      assert (dead + w)[0] == dead[0] && (dead + w)[1..] == dead[1..] + w;
      MatchSkips(dead[1..], w, types, cutoff);
    }
  }

  /** The cells of a call with dead events in front. */
  function Behind(dead: seq<Stamped>, b: Buffer): (r: Buffer)
    requires b.Valid()
    ensures r.Valid()
  {
    Buffer(dead + b.cells, |dead| + b.len)
  }

  lemma {:induction false} ClearBehind(dead: seq<Stamped>, b: Buffer, ids: seq<string>)
    requires b.Valid() && forall ev :: ev in dead ==> ev.id !in ids
    ensures Behind(dead, b).Clear(ids) == Behind(dead, b.Clear(ids))
  {
    var kept := Without(b.cells[..b.len], ids);
    assert (dead + b.cells)[..|dead| + b.len] == dead + b.cells[..b.len];
    WithoutConcat(dead, b.cells[..b.len], ids);
    WithoutDisjoint(dead, ids);
    hide Without;
    assert (dead + b.cells)[|dead| + |kept|..] == b.cells[|kept|..];
    assert (dead + kept) + b.cells[|kept|..] == dead + (kept + b.cells[|kept|..]);
  }

  ghost predicate Apart(dead: seq<Stamped>, cells: seq<Stamped>) {
    forall ev :: ev in dead ==> !Has(cells, ev.id)
  }

  /** Dead events in front of the cells change no alert of the call. */
  lemma {:induction false} FireBehind(chains: seq<ChainRule>, e: Event, now: int, dead: seq<Stamped>, b: Buffer)
    requires b.Valid() && Apart(dead, b.cells)
    requires forall c, ev :: c in chains && ev in dead ==> ev.time < now - c.window
    ensures var o, o' := Fire(chains, e, now, b), Fire(chains, e, now, Behind(dead, b));
            o'.alerts == o.alerts && o'.buffer == Behind(dead, o.buffer)
    decreases |chains|
  {
    if chains != [] {
      var c := chains[0];
      assert c in chains && forall x :: x in chains[1..] ==> x in chains;
      MatchSkips(dead, b.cells, c.sequence, now - c.window);
      var m := Match(b.cells, c, now);
      assert Match(Behind(dead, b).cells, c, now) == m;
      hide MatchFrom, Without, Has;
      if m.None? {
        FireBehind(chains[1..], e, now, dead, b);
      } else {
        MatchedApart(dead, b, c, now);
        ClearBehind(dead, b, m.value);
        FireBehind(chains[1..], e, now, dead, b.Clear(m.value));
      }
    }
  }

  lemma {:induction false} MatchedApart(dead: seq<Stamped>, b: Buffer, c: ChainRule, now: int)
    requires b.Valid() && Apart(dead, b.cells) && Match(b.cells, c, now).Some?
    ensures forall ev :: ev in dead ==> ev.id !in Match(b.cells, c, now).value
    ensures Apart(dead, b.Clear(Match(b.cells, c, now).value).cells)
  {
    var ids := Match(b.cells, c, now).value;
    ClearWindow(b, ids);
    hide MatchFrom, Without;
    forall ev | ev in dead ensures ev.id !in ids {
      if ev.id in ids {
        MatchedIds(b.cells, c.sequence, now - c.window, ev.id);
      }
    }
  }

  lemma {:induction false} RecentIsSuffix(w: seq<Stamped>, cutoff: int)
    requires Increasing(w)
    ensures var young := Recent(w, cutoff);
            && |young| <= |w| && young == w[|w| - |young|..]
            && forall ev :: ev in w[..|w| - |young|] ==> ev.time <= cutoff
    decreases |w|
  {
    if w != [] {
      RecentIsSuffix(w[1..], cutoff);
      if w[0].time > cutoff {
        RecentAll(w, cutoff);
      } else {
        var young := Recent(w[1..], cutoff);
        assert w[..|w| - |young|] == [w[0]] + w[1..][..|w| - 1 - |young|];
      }
    }
  }

  lemma {:induction false} RecentAll(w: seq<Stamped>, cutoff: int)
    requires forall ev :: ev in w ==> ev.time > cutoff
    ensures Recent(w, cutoff) == w
    decreases |w|
  {
    if w != [] {
      RecentAll(w[1..], cutoff);
    }
  }

  lemma {:induction false} WithoutIncreasing(w: seq<Stamped>, ids: seq<string>)
    requires Increasing(w)
    ensures Increasing(Without(w, ids))
    decreases |w|
  {
    if w != [] {
      WithoutIncreasing(w[1..], ids);
      WithoutMembers(w[1..], ids);
      var rest := Without(w[1..], ids);
      forall ev | ev in rest ensures w[0].time <= ev.time && w[0].id != ev.id {
        var i :| 0 <= i < |w[1..]| && w[1..][i] == ev;
        assert w[i + 1] == ev;
      }
      hide Without;
      assert forall i :: 0 <= i < |rest| ==> rest[i] in rest;
    }
  }

  lemma {:induction false} SuffixIncreasing(w: seq<Stamped>, cut: nat)
    requires Increasing(w) && cut <= |w|
    ensures Increasing(w[cut..])
  {
    forall i, j | 0 <= i < j < |w[cut..]| ensures w[cut..][i].time <= w[cut..][j].time && w[cut..][i].id != w[cut..][j].id {
      assert w[cut..][i] == w[cut + i] && w[cut..][j] == w[cut + j];
    }
  }

  lemma {:induction false} IncreasingMore(cfg: Config, w: seq<Stamped>, e: Event, now: int)
    requires Increasing(w) && forall ev :: ev in w ==> Follows(cfg, ev, e.id, now)
    ensures Increasing(w + [Stamped(e.id, e.kind, now)])
  {
    hide Strict;
    assert forall i :: 0 <= i < |w| ==> w[i] in w;
  }

  /** The window of one source before matching, with and without eviction. */
  lemma {:induction false} CallOnSource(cfg: Config, e: Event, now: int, full: seq<Stamped>, cut: nat)
    returns (dead: seq<Stamped>)
    requires cut <= |full| && Increasing(full) && Ready(cfg, full, cut, e.id, now)
    ensures Extended(cfg, false, full, e, now) == dead + Extended(cfg, true, full[cut..], e, now)
    ensures forall ev :: ev in dead ==> ev in full && Dead(cfg, ev, now)
    ensures Increasing(Extended(cfg, false, full, e, now))
  {
    hide *;
    var cutoff, trimmed := now - cfg.maxAge, full[cut..];
    SuffixIncreasing(full, cut);
    RecentIsSuffix(trimmed, cutoff);
    ReadyFollows(cfg, full, cut, e.id, now);
    IncreasingMore(cfg, full, e, now);
    var young := Recent(trimmed, cutoff);
    dead := full[..|full| - |young|];
    Reassembled(full, cut, young, Stamped(e.id, e.kind, now));
    ExtendedIs(cfg, full, cut, e, now);
    forall ev | ev in dead ensures ev in full && Dead(cfg, ev, now) {
      ReadyDead(cfg, full, cut, e.id, now, ev);
    }
  }

  lemma Reassembled(full: seq<Stamped>, cut: nat, young: seq<Stamped>, x: Stamped)
    requires cut <= |full| && |young| <= |full| - cut && young == full[cut..][|full| - cut - |young|..]
    ensures full + [x] == full[..|full| - |young|] + (young + [x])
    ensures forall ev :: ev in full[..|full| - |young|] ==>
              ev in full && (ev in full[..cut] || ev in full[cut..][..|full| - cut - |young|])
  {
    var dead := full[..|full| - |young|];
    forall ev | ev in dead ensures ev in full[..cut] || ev in full[cut..][..|full| - cut - |young|] {
      var i :| 0 <= i < |dead| && dead[i] == ev;
      if i < cut {
        assert full[..cut][i] == ev;
      } else {
        assert full[cut..][..|full| - cut - |young|][i - cut] == ev;
      }
    }
  }

  lemma ExtendedIs(cfg: Config, full: seq<Stamped>, cut: nat, e: Event, now: int)
    requires cut <= |full|
    ensures Extended(cfg, false, full, e, now) == full + [Stamped(e.id, e.kind, now)]
    ensures Extended(cfg, true, full[cut..], e, now)
            == Recent(full[cut..], now - cfg.maxAge) + [Stamped(e.id, e.kind, now)]
  {}

  lemma ReadyFollows(cfg: Config, full: seq<Stamped>, cut: nat, id: string, now: int)
    requires cut <= |full| && Ready(cfg, full, cut, id, now)
    ensures forall ev :: ev in full ==> Follows(cfg, ev, id, now)
  {}

  lemma ReadyDead(cfg: Config, full: seq<Stamped>, cut: nat, id: string, now: int, ev: Stamped)
    requires cut <= |full| && Ready(cfg, full, cut, id, now)
    ensures ev in full[..cut] || ev.time <= now - cfg.maxAge ==> Dead(cfg, ev, now)
  {}

  lemma DeadIsOutside(cfg: Config, ev: Stamped, id: string, now: int, c: ChainRule)
    requires Covers(cfg) && Follows(cfg, ev, id, now) && Dead(cfg, ev, now) && c in cfg.chains
    ensures ev.time < now - c.window
  {}

  lemma {:induction false} IncreasingApart(dead: seq<Stamped>, w: seq<Stamped>)
    requires Increasing(dead + w)
    ensures Apart(dead, w)
  {
    forall x, y | x in dead && y in w ensures x.id != y.id {
      var i :| 0 <= i < |dead| && dead[i] == x;
      var j :| 0 <= j < |w| && w[j] == y;
      assert (dead + w)[i] == x && (dead + w)[|dead| + j] == y;
    }
  }

  /** The stored windows after the call still differ by dead events only. */
  lemma {:induction false} FireOnSource(cfg: Config, e: Event, now: int, dead: seq<Stamped>, cells: seq<Stamped>)
    returns (kept: seq<Stamped>)
    requires Covers(cfg) && Increasing(dead + cells)
    requires forall ev :: ev in dead ==> Follows(cfg, ev, e.id, now) && Dead(cfg, ev, now)
    ensures var o := Fire(cfg.chains, e, now, Buffer(cells, |cells|));
            var o' := Fire(cfg.chains, e, now, Buffer(dead + cells, |dead| + |cells|));
            o'.alerts == o.alerts && o.buffer.Window() == kept && o'.buffer.Window() == dead + kept
    ensures Increasing(dead + kept) && forall ev :: ev in kept ==> ev in cells
  {
    var b := Buffer(cells, |cells|);
    IncreasingApart(dead, cells);
    forall c, ev | c in cfg.chains && ev in dead ensures ev.time < now - c.window {
      DeadIsOutside(cfg, ev, e.id, now, c);
    }
    FireBehind(cfg.chains, e, now, dead, b);
    FireWindow(cfg.chains, e, now, b);
    hide Fire, Increasing, Without, Follows, Dead;
    var o := Fire(cfg.chains, e, now, b);
    var spent := SpentIds(o.alerts);
    assert b.Window() == cells;
    kept := o.buffer.Window();
    assert Behind(dead, o.buffer).Window() == dead + kept;
    WithoutMembers(cells, spent);
    KeptIncreasing(dead, cells, spent);
  }

  lemma {:induction false} KeptIncreasing(dead: seq<Stamped>, cells: seq<Stamped>, ids: seq<string>)
    requires Increasing(dead + cells) && forall id :: id in ids ==> Has(cells, id)
    ensures Increasing(dead + Without(cells, ids))
  {
    IncreasingApart(dead, cells);
    WithoutIncreasing(dead + cells, ids);
    hide Increasing, Without;
    WithoutConcat(dead, cells, ids);
    WithoutDisjoint(dead, ids);
  }

  // ---------------------------------------------------------------- whole runs

  lemma {:induction false} OrderlyTail(cfg: Config, inputs: seq<Input>)
    requires Orderly(cfg, inputs) && inputs != []
    ensures Orderly(cfg, inputs[1..])
  {
    hide Follows;
  }

  lemma {:induction false} TrimsTail(cfg: Config, trimmed: seq<Stamped>, full: seq<Stamped>, s: string, inputs: seq<Input>)
    requires Trims(cfg, trimmed, full, s, inputs) && inputs != []
    ensures Trims(cfg, trimmed, full, s, inputs[1..])
  {
    hide Ready, Increasing;
    forall j | 0 <= j < |inputs[1..]| && !Ignored(inputs[1..][j].event) && inputs[1..][j].event.source == s
      ensures Ready(cfg, full, |full| - |trimmed|, inputs[1..][j].event.id, inputs[1..][j].Now())
    {
      assert inputs[1..][j] == inputs[j + 1];
    }
  }

  /** After a call the next events of the source are still ready for what is stored. */
  lemma {:induction false} TrimsAfter(cfg: Config, full: seq<Stamped>, cut: nat, dead: seq<Stamped>, kept: seq<Stamped>, inputs: seq<Input>)
    requires inputs != [] && !Ignored(inputs[0].event) && Orderly(cfg, inputs)
    requires cut <= |full| && Trims(cfg, full[cut..], full, inputs[0].event.source, inputs)
    requires Increasing(dead + kept)
    requires forall ev :: ev in dead ==> ev in full && Dead(cfg, ev, inputs[0].Now())
    requires forall ev :: ev in kept ==> ev in full || ev == Stamped(inputs[0].event.id, inputs[0].event.kind, inputs[0].Now())
    ensures Trims(cfg, kept, dead + kept, inputs[0].event.source, inputs[1..])
  {
    var e, s, rest := inputs[0].event, inputs[0].event.source, inputs[1..];
    var new_ := Stamped(e.id, e.kind, inputs[0].Now());
    assert (dead + kept)[|dead|..] == kept && (dead + kept)[..|dead|] == dead;
    hide Increasing, Strict;
    forall j | 0 <= j < |rest| && !Ignored(rest[j].event) && rest[j].event.source == s
      ensures Ready(cfg, dead + kept, |dead|, rest[j].event.id, rest[j].Now())
    {
      assert rest[j] == inputs[j + 1];
      assert Ready(cfg, full, cut, inputs[j + 1].event.id, inputs[j + 1].Now());
      assert Follows(cfg, new_, inputs[j + 1].event.id, inputs[j + 1].Now());
    }
  }

  /** A call changes the window of its source only. */
  lemma {:induction false} ObservedWindows(cfg: Config, evict: bool, windows: Windows, input: Input, source: string)
    ensures var r := Observed(cfg, evict, windows, input);
            if Ignored(input.event) then r == Result(windows, [])
            else
              var settled := OnSource(cfg, evict, WindowOf(windows, input.event.source), input);
              && r.alerts == settled.alerts
              && WindowOf(r.windows, source) == if source == input.event.source then settled.window else WindowOf(windows, source)
  {
    hide OnSource;
  }

  /** One call, with and without eviction, from windows that differ by dead events only. */
  lemma {:induction false} CallInvisible(cfg: Config, trimmed: Windows, full: Windows, inputs: seq<Input>)
    requires inputs != [] && Covers(cfg) && Orderly(cfg, inputs) && AllTrim(cfg, trimmed, full, inputs)
    ensures var r, r' := Observed(cfg, true, trimmed, inputs[0]), Observed(cfg, false, full, inputs[0]);
            r.alerts == r'.alerts && AllTrim(cfg, r.windows, r'.windows, inputs[1..])
  {
    hide Trims, OnSource, Orderly, Covers, Observed, WindowOf, Ignored;
    var e := inputs[0].event;
    var r, r' := Observed(cfg, true, trimmed, inputs[0]), Observed(cfg, false, full, inputs[0]);
    ObservedWindows(cfg, true, trimmed, inputs[0], e.source);
    ObservedWindows(cfg, false, full, inputs[0], e.source);
    if !Ignored(e) {
      SourceInvisible(cfg, WindowOf(trimmed, e.source), WindowOf(full, e.source), inputs);
    }
    forall s ensures Trims(cfg, WindowOf(r.windows, s), WindowOf(r'.windows, s), s, inputs[1..]) {
      ObservedWindows(cfg, true, trimmed, inputs[0], s);
      ObservedWindows(cfg, false, full, inputs[0], s);
      if Ignored(e) || s != e.source {
        TrimsTail(cfg, WindowOf(trimmed, s), WindowOf(full, s), s, inputs);
      }
    }
  }

  lemma {:induction false} SourceInvisible(cfg: Config, trimmed: seq<Stamped>, full: seq<Stamped>, inputs: seq<Input>)
    requires inputs != [] && !Ignored(inputs[0].event) && Covers(cfg) && Orderly(cfg, inputs)
    requires Trims(cfg, trimmed, full, inputs[0].event.source, inputs)
    ensures var r := OnSource(cfg, true, trimmed, inputs[0]);
            var r' := OnSource(cfg, false, full, inputs[0]);
            r.alerts == r'.alerts && Trims(cfg, r.window, r'.window, inputs[0].event.source, inputs[1..])
  {
    var e, now, cut := inputs[0].event, inputs[0].Now(), |full| - |trimmed|;
    assert Ready(cfg, full, cut, e.id, now);
    var dead := CallOnSource(cfg, e, now, full, cut);
    var cells := Extended(cfg, true, trimmed, e, now);
    ExtendedMembers(cfg, trimmed, full, cut, e, now);
    assert forall ev :: ev in dead ==> Follows(cfg, ev, e.id, now);
    assert Extended(cfg, false, full, e, now) == dead + cells;
    hide Increasing, Fire, Orderly, Follows, Dead, Extended, Ready, Covers;
    if inputs[0].callback {
      var kept := FireOnSource(cfg, e, now, dead, cells);
      TrimsAfter(cfg, full, cut, dead, kept, inputs);
    } else {
      TrimsAfter(cfg, full, cut, dead, cells, inputs);
    }
  }

  lemma {:induction false} ExtendedMembers(cfg: Config, trimmed: seq<Stamped>, full: seq<Stamped>, cut: nat, e: Event, now: int)
    requires cut <= |full| && trimmed == full[cut..]
    ensures forall ev :: ev in Extended(cfg, true, trimmed, e, now) ==> ev in full || ev == Stamped(e.id, e.kind, now)
  {
    RecentMembers(trimmed, now - cfg.maxAge);
    hide Recent;
  }

  lemma {:induction false} InvisibleFrom(cfg: Config, trimmed: Windows, full: Windows, inputs: seq<Input>)
    requires Covers(cfg) && Orderly(cfg, inputs) && AllTrim(cfg, trimmed, full, inputs)
    ensures RunFrom(cfg, true, trimmed, inputs) == RunFrom(cfg, false, full, inputs)
    decreases |inputs|
  {
    if inputs != [] {
      CallInvisible(cfg, trimmed, full, inputs);
      OrderlyTail(cfg, inputs);
      hide Observed, AllTrim, Orderly, Covers;
      InvisibleFrom(cfg, Observed(cfg, true, trimmed, inputs[0]).windows, Observed(cfg, false, full, inputs[0]).windows,
                    inputs[1..]);
    }
  }

  /**
    Evicting old events changes no alert of any run: the correlator raises, call by call, exactly
    the alerts of one that keeps every uncleared event for ever.
   */
  lemma {:induction false} EvictionInvisible(cfg: Config, inputs: seq<Input>)
    requires Covers(cfg) && Orderly(cfg, inputs)
    ensures Run(cfg, true, inputs) == Run(cfg, false, inputs)
  {
    hide Orderly, Covers;
    InvisibleFrom(cfg, map[], map[], inputs);
  }
}
