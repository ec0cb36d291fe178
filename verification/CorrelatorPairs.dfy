/**
  Chains of at most two different types, such as all the shipped ones: every alert of every call is
  genuine and ends in the event of the call.
 */
module CorrelatorPairs {
  import opened Correlator
  import opened CorrelatorRuns
  import opened CorrelatorHistory
  import opened CorrelatorAlerts
  import opened Options

  /** No chain is longer than the bound or repeats a type. */
  ghost predicate Short(chains: seq<ChainRule>, bound: nat) {
    forall c :: c in chains ==> |c.sequence| <= bound && NoRepeats(c.sequence)
  }

  // ---------------------------------------------------------------- silent windows

  /** No chain matches. */
  ghost predicate Silent(chains: seq<ChainRule>, w: seq<Stamped>, now: int) {
    forall c :: c in chains ==> Match(w, c, now).None?
  }

  lemma {:induction false} OccursThrough(w: seq<Stamped>, log: seq<Stamped>, types: seq<string>, cutoff: int, cutoff': int,
                                         at: seq<int>, to: seq<int>)
    requires Occurs(w, types, cutoff, at) && Embeds(w, log, to) && cutoff' <= cutoff
    ensures (forall i :: 0 <= i < |at| ==> 0 <= at[i] < |to|) && Occurs(log, types, cutoff', Through(at, to))
  {}

  /** Part of a silent window is silent, then and later. */
  lemma {:induction false} SilentWithin(chains: seq<ChainRule>, w: seq<Stamped>, log: seq<Stamped>, now: int, later: int)
    requires Within(w, log) && Silent(chains, log, now) && now <= later
    ensures Silent(chains, w, later)
  {
    hide Occurs, Embeds, MatchFrom;
    var to :| Embeds(w, log, to);
    forall c | c in chains ensures Match(w, c, later).None? {
      if Match(w, c, later).Some? {
        var at := MatchOccurs(w, c.sequence, later - c.window);
        OccursThrough(w, log, c.sequence, later - c.window, now - c.window, at, to);
        OccursMatches(log, c.sequence, now - c.window, Through(at, to));
      }
    }
  }

  /** Where the window before the new event is silent, an occurrence ends in the new event. */
  lemma {:induction false} EndsInNew(w: seq<Stamped>, c: ChainRule, now: int, at: seq<int>)
    requires w != [] && c.sequence != [] && Occurs(w, c.sequence, now - c.window, at)
    requires Match(w[..|w| - 1], c, now).None?
    ensures at[|at| - 1] == |w| - 1
  {
    var n := |w| - 1;
    if at[|at| - 1] < n {
      assert Occurs(w[..n], c.sequence, now - c.window, at);
      OccursMatches(w[..n], c.sequence, now - c.window, at);
    }
  }

  // ---------------------------------------------------------------- the cells of a call

  ghost predicate Distinct(w: seq<Stamped>) {
    forall i, j :: 0 <= i < j < |w| ==> w[i].id != w[j].id
  }

  /** The cells come from the window of the call, in order, and the stored ones each from another place before the last. */
  ghost predicate Mapped(b: Buffer, w: seq<Stamped>, f: seq<int>) {
    && b.Valid() && |f| == |b.cells|
    && (forall i :: 0 <= i < |f| ==> 0 <= f[i] < |w| && b.cells[i] == w[f[i]])
    && (forall i, j :: 0 <= i < j < |f| ==> f[i] <= f[j])
    && (forall i, j :: 0 <= i < j < b.len ==> f[i] < f[j])
    && (forall i :: 0 <= i < b.len ==> f[i] < |w| - 1)
  }

  lemma {:induction false} WithoutOne(s: seq<Stamped>, ids: seq<string>, p: nat)
    requires p < |s| && forall i :: 0 <= i < |s| ==> (s[i].id in ids <==> i == p)
    ensures Without(s, ids) == s[..p] + s[p + 1..]
  {
    var front, back := s[..p], s[p + 1..];
    assert s == front + ([s[p]] + back);
    WithoutConcat(front, [s[p]] + back, ids);
    WithoutConcat([s[p]], back, ids);
    WithoutDisjoint(front, ids);
    WithoutDisjoint(back, ids);
    assert Without([s[p]], ids) == [] by { assert [s[p]][1..] == []; }
    hide Without;
    assert [] + back == back;
  }

  /** Clearing the new event and one other. */
  ghost predicate Clears(w: seq<Stamped>, ids: seq<string>, q: nat) {
    && q < |w|
    && forall i :: 0 <= i < |w| ==> (w[i].id in ids <==> i == q || i == |w| - 1)
  }

  lemma {:induction false} ClearMapped(b: Buffer, w: seq<Stamped>, f: seq<int>, ids: seq<string>, q: nat) returns (g: seq<int>)
    requires Mapped(b, w, f) && Clears(w, ids, q)
    ensures Mapped(b.Clear(ids), w, g)
  {
    StoredHits(b, w, f, ids, q);
    if p :| 0 <= p < b.len && f[p] == q {
      OnlyHit(b, w, f, q, p);
      hide Mapped, Clears, Without;
      ClearOne(b, ids, p);
      g := f[..p] + f[p + 1..b.len] + f[b.len - 1..];
      RemovedMapped(b, w, f, p, g);
    } else {
      hide Mapped, Clears, Without;
      ClearNone(b, ids);
      g := f;
    }
  }

  /** The stored events that are cleared. */
  lemma {:induction false} StoredHits(b: Buffer, w: seq<Stamped>, f: seq<int>, ids: seq<string>, q: nat)
    requires Mapped(b, w, f) && Clears(w, ids, q)
    ensures b.len <= |b.cells| == |f| && forall i :: 0 <= i < b.len ==> (b.cells[i].id in ids <==> f[i] == q)
  {
    forall i | 0 <= i < b.len ensures b.cells[i].id in ids <==> f[i] == q {
      assert b.cells[i] == w[f[i]];
    }
  }

  lemma {:induction false} OnlyHit(b: Buffer, w: seq<Stamped>, f: seq<int>, q: nat, p: nat)
    requires Mapped(b, w, f) && p < b.len && f[p] == q
    ensures forall i :: 0 <= i < b.len ==> (f[i] == q <==> i == p)
  {}

  lemma {:induction false} ClearOne(b: Buffer, ids: seq<string>, p: nat)
    requires b.Valid() && p < b.len && forall i :: 0 <= i < b.len ==> (b.cells[i].id in ids <==> i == p)
    ensures b.Clear(ids) == Buffer(b.cells[..p] + b.cells[p + 1..b.len] + b.cells[b.len - 1..], b.len - 1)
  {
    var stored := b.cells[..b.len];
    WithoutOne(stored, ids, p);
    hide Without;
    assert stored[..p] == b.cells[..p] && stored[p + 1..] == b.cells[p + 1..b.len];
  }

  lemma {:induction false} ClearNone(b: Buffer, ids: seq<string>)
    requires b.Valid() && forall i :: 0 <= i < b.len ==> b.cells[i].id !in ids
    ensures b.Clear(ids) == b
  {
    var stored := b.cells[..b.len];
    WithoutDisjoint(stored, ids);
    hide Without;
    assert stored + b.cells[b.len..] == b.cells;
  }

  lemma {:induction false} RemovedMapped(b: Buffer, w: seq<Stamped>, f: seq<int>, p: nat, g: seq<int>)
    requires Mapped(b, w, f) && p < b.len && g == f[..p] + f[p + 1..b.len] + f[b.len - 1..]
    ensures Mapped(Buffer(b.cells[..p] + b.cells[p + 1..b.len] + b.cells[b.len - 1..], b.len - 1), w, g)
  {
    var n, cells := b.len - 1, b.cells[..p] + b.cells[p + 1..b.len] + b.cells[b.len - 1..];
    ghost var from := seq(|f|, i => if i < p || i >= n then i else i + 1);
    forall i | 0 <= i < |f| ensures g[i] == f[from[i]] && cells[i] == b.cells[from[i]] {}
    forall i, j | 0 <= i < j < |f| ensures from[i] <= from[j] && (j < n ==> from[i] < from[j]) {}
    MappedThrough(b, w, f, Buffer(cells, n), from, g);
  }

  lemma {:induction false} MappedThrough(b: Buffer, w: seq<Stamped>, f: seq<int>, b': Buffer, from: seq<int>, g: seq<int>)
    requires Mapped(b, w, f) && |from| == |g| == |b'.cells| == |f| && b'.len <= b.len
    requires forall i :: 0 <= i < |from| ==> 0 <= from[i] < |f| && g[i] == f[from[i]] && b'.cells[i] == b.cells[from[i]]
    requires forall i :: 0 <= i < b'.len ==> from[i] < b.len
    requires forall i, j :: 0 <= i < j < |from| ==> from[i] <= from[j]
    requires forall i, j :: 0 <= i < j < b'.len ==> from[i] < from[j]
    ensures Mapped(b', w, g)
  {}

  /** The first clearing of a call drops the new event, and leaves the cells as if it had not been stored. */
  lemma {:induction false} ClearFirst(w: seq<Stamped>, ids: seq<string>)
    requires w != [] && w[|w| - 1].id in ids
    ensures Buffer(w, |w|).Clear(ids) == Buffer(w, |w| - 1).Clear(ids)
  {
    WithoutSnoc(w, |w| - 1, ids);
    assert w[..|w|] == w;
  }

  ghost function Identity(n: nat): seq<int> {
    seq(n, i => i)
  }

  lemma {:induction false} StartMapped(w: seq<Stamped>)
    requires w != []
    ensures Mapped(Buffer(w, |w| - 1), w, Identity(|w|))
  {}

  // ---------------------------------------------------------------- the alerts of a call

  /** A match on the cells is a match on the window of the call, and ends in the new event. */
  lemma {:induction false} MatchMapped(b: Buffer, w: seq<Stamped>, f: seq<int>, c: ChainRule, now: int) returns (to: seq<int>)
    requires w != [] && Mapped(b, w, f) && Match(b.cells, c, now).Some?
    requires |c.sequence| <= 2 && NoRepeats(c.sequence) && Match(w[..|w| - 1], c, now).None?
    ensures Occurs(w, c.sequence, now - c.window, to) && to != [] && to[|to| - 1] == |w| - 1
    ensures var ids := Match(b.cells, c, now).value;
            |ids| == |to| && forall k :: 0 <= k < |to| ==> ids[k] == w[to[k]].id
  {
    hide MatchFrom;
    var at := MatchOccurs(b.cells, c.sequence, now - c.window);
    to := Through(at, f);
    OccursMapped(b, w, f, c.sequence, now - c.window, at);
    hide Mapped, Occurs;
    EndsInNew(w, c, now, to);
  }

  lemma {:induction false} OccursMapped(b: Buffer, w: seq<Stamped>, f: seq<int>, types: seq<string>, cutoff: int, at: seq<int>)
    requires Mapped(b, w, f) && Occurs(b.cells, types, cutoff, at) && |types| <= 2 && NoRepeats(types)
    ensures |at| == |types| && forall i :: 0 <= i < |at| ==> 0 <= at[i] < |f| && b.cells[at[i]] == w[f[at[i]]]
    ensures Occurs(w, types, cutoff, Through(at, f))
  {
    var to := Through(at, f);
    assert |to| == 2 ==> to[0] <= to[1] && w[to[0]].kind == types[0] && w[to[1]].kind == types[1];
  }

  lemma {:induction false} MatchClears(w: seq<Stamped>, to: seq<int>, ids: seq<string>)
    requires Distinct(w) && w != [] && 0 < |to| <= 2 && |ids| == |to| && to[|to| - 1] == |w| - 1
    requires forall k :: 0 <= k < |to| ==> 0 <= to[k] < |w| && ids[k] == w[to[k]].id
    ensures Clears(w, ids, to[0])
  {
    assert ids[0] == w[to[0]].id && ids[|to| - 1] == w[|w| - 1].id;
    forall i | 0 <= i < |w| ensures w[i].id in ids <==> i == to[0] || i == |w| - 1 {
      assert w[i].id in ids <==> w[i].id == ids[0] || w[i].id == ids[|to| - 1];
    }
  }

  /** The chains that end in this type. */
  function Ending(chains: seq<ChainRule>, kind: string): nat {
    if chains == [] then 0
    else
      var types := chains[0].sequence;
      (if types != [] && types[|types| - 1] == kind then 1 else 0) + Ending(chains[1..], kind)
  }

  /** The alert reports a place of the window where the chain occurs, ending in the last event. */
  ghost predicate EndsHere(a: Alert, chains: seq<ChainRule>, e: Event, w: seq<Stamped>, now: int) {
    exists c, at :: c in chains && Reports(a, c, e, w, now, at) && at != [] && at[|at| - 1] == |w| - 1
  }

  lemma {:induction false} FirePairs(chains: seq<ChainRule>, e: Event, now: int, b: Buffer, w: seq<Stamped>, f: seq<int>)
    requires w != [] && Distinct(w) && Short(chains, 2) && Silent(chains, w[..|w| - 1], now)
    requires Mapped(b, w, f)
    ensures forall a :: a in Fire(chains, e, now, b).alerts ==> EndsHere(a, chains, e, w, now)
    ensures |Fire(chains, e, now, b).alerts| <= Ending(chains, w[|w| - 1].kind)
    decreases |chains|
  {
    if chains != [] {
      var c := chains[0];
      assert c in chains && forall d :: d in chains[1..] ==> d in chains;
      hide Match, Mapped, Reports, NoRepeats, Distinct;
      var m := Match(b.cells, c, now);
      if m.None? {
        assert b.Valid() by { MappedValid(b, w, f); }
        FirePairs(chains[1..], e, now, b, w, f);
        EndsHereMore(chains, e, w, now);
      } else {
        var to := MatchMapped(b, w, f, c, now);
        OccursEnd(w, c, now, to);
        MatchClears(w, to, m.value);
        var g := ClearMapped(b, w, f, m.value, to[0]);
        ReportsIs(AlertFor(c, e, m.value), c, e, w, now, to);
        FirePairs(chains[1..], e, now, b.Clear(m.value), w, g);
        EndsHereMore(chains, e, w, now);
      }
    }
  }

  lemma MappedValid(b: Buffer, w: seq<Stamped>, f: seq<int>)
    requires Mapped(b, w, f)
    ensures b.Valid()
  {}

  lemma OccursEnd(w: seq<Stamped>, c: ChainRule, now: int, to: seq<int>)
    requires Occurs(w, c.sequence, now - c.window, to) && to != [] && to[|to| - 1] == |w| - 1
    ensures |c.sequence| == |to| && c.sequence[|c.sequence| - 1] == w[|w| - 1].kind
    ensures forall k :: 0 <= k < |to| ==> 0 <= to[k] < |w|
  {}

  lemma EndsHereMore(chains: seq<ChainRule>, e: Event, w: seq<Stamped>, now: int)
    requires chains != []
    ensures forall a :: EndsHere(a, chains[1..], e, w, now) ==> EndsHere(a, chains, e, w, now)
  {
    hide Reports;
    assert forall d :: d in chains[1..] ==> d in chains;
  }

  /** Whether the new event is stored at first makes no difference: the first clearing drops it. */
  lemma {:induction false} FireFromStart(chains: seq<ChainRule>, e: Event, now: int, w: seq<Stamped>)
    requires w != [] && Short(chains, 2) && Silent(chains, w[..|w| - 1], now)
    ensures Fire(chains, e, now, Buffer(w, |w|)).alerts == Fire(chains, e, now, Buffer(w, |w| - 1)).alerts
    decreases |chains|
  {
    if chains != [] {
      var c := chains[0];
      assert c in chains && forall d :: d in chains[1..] ==> d in chains;
      hide Match, NoRepeats;
      if Match(w, c, now).None? {
        FireFromStart(chains[1..], e, now, w);
      } else {
        StartMapped(w);
        var to := MatchMapped(Buffer(w, |w| - 1), w, Identity(|w|), c, now);
        ClearFirst(w, Match(w, c, now).value);
      }
    }
  }

  lemma {:induction false} CallPairs(chains: seq<ChainRule>, e: Event, now: int, w: seq<Stamped>)
    requires w != [] && Distinct(w) && Short(chains, 2) && Silent(chains, w[..|w| - 1], now)
    ensures var alerts := Fire(chains, e, now, Buffer(w, |w|)).alerts;
            && (forall a :: a in alerts ==> EndsHere(a, chains, e, w, now))
            && |alerts| <= Ending(chains, w[|w| - 1].kind)
  {
    hide Fire, Short, Distinct, Silent;
    StartMapped(w);
    FireFromStart(chains, e, now, w);
    FirePairs(chains, e, now, Buffer(w, |w| - 1), w, Identity(|w|));
  }

  // ---------------------------------------------------------------- runs

  /** Chains within the bound, a callback from the start, time running forward, unique IDs. */
  ghost predicate Regular(cfg: Config, inputs: seq<Input>, bound: nat) {
    && Short(cfg.chains, bound) && Forward(inputs) && UniqueIds(inputs)
    && forall i :: 0 <= i < |inputs| ==> inputs[i].callback
  }

  lemma {:induction false} LogDistinct(inputs: seq<Input>, source: string)
    requires UniqueIds(inputs)
    ensures Distinct(Log(inputs, source))
    decreases |inputs|
  {
    if inputs != [] {
      var n := |inputs| - 1;
      var earlier, last := inputs[..n], inputs[n];
      LogDistinct(earlier, source);
      if From(last, source) {
        var log := Log(earlier, source);
        forall ev | ev in log ensures ev.id != last.event.id {
          var k := LogMembers(earlier, source, ev);
        }
        assert forall i :: 0 <= i < |log| ==> log[i] in log;
      }
    }
  }

  lemma {:induction false} WithinDistinct(w: seq<Stamped>, log: seq<Stamped>)
    requires Within(w, log) && Distinct(log)
    ensures Distinct(w)
  {
    var to :| Embeds(w, log, to);
    forall i, j | 0 <= i < j < |w| ensures w[i].id != w[j].id {
      assert to[i] < to[j];
    }
  }

  lemma {:induction false} WithinSelf(w: seq<Stamped>)
    ensures Within(w, w)
  {
    assert Embeds(w, w, Identity(|w|));
  }

  /** What a call stores is silent at its time, if what it found was. */
  lemma {:induction false} CallStaysSilent(cfg: Config, stored: seq<Stamped>, next: Input, since: int)
    requires Short(cfg.chains, 2) && Silent(cfg.chains, stored, since) && since <= next.Now() && next.callback
    requires Distinct(Extended(cfg, true, stored, next.event, next.Now()))
    ensures Silent(cfg.chains, OnSource(cfg, true, stored, next).window, next.Now())
  {
    var e, now := next.event, next.Now();
    var w := Extended(cfg, true, stored, e, now);
    FrontSilent(cfg, stored, next, since);
    CallPairs(cfg.chains, e, now, w);
    FireStarts(cfg.chains, e, now, Buffer(w, |w|));
    FireWindow(cfg.chains, e, now, Buffer(w, |w|));
    var alerts := Fire(cfg.chains, e, now, Buffer(w, |w|)).alerts;
    assert Buffer(w, |w|).Window() == w;
    hide Fire, Short, Silent, Without, Extended, EndsHere;
    if alerts == [] {
      FirstMatchSilent(cfg.chains, w, now);
      assert SpentIds([]) == [];
      WithoutNone(w);
    } else {
      assert EndsHere(alerts[0], cfg.chains, e, w, now);
      SpendsLast(alerts, cfg.chains, e, w, now);
      WithoutLast(w, SpentIds(alerts));
      SilentWithin(cfg.chains, Without(w, SpentIds(alerts)), w[..|w| - 1], now, now);
    }
  }

  lemma {:induction false} FrontSilent(cfg: Config, stored: seq<Stamped>, next: Input, since: int)
    requires Silent(cfg.chains, stored, since) && since <= next.Now()
    ensures var w := Extended(cfg, true, stored, next.event, next.Now());
            w != [] && w[|w| - 1] == Stamp(next) && Silent(cfg.chains, w[..|w| - 1], next.Now())
  {
    hide Recent, Silent, Within, Without;
    var young := Recent(stored, next.Now() - cfg.maxAge);
    WithinSelf(stored);
    WithinCut(stored, stored, next.Now() - cfg.maxAge, []);
    SilentWithin(cfg.chains, young, stored, since, next.Now());
    assert (young + [Stamp(next)])[..|young|] == young;
  }

  lemma {:induction false} FirstMatchSilent(chains: seq<ChainRule>, w: seq<Stamped>, now: int)
    requires FirstMatch(chains, w, now).None?
    ensures Silent(chains, w, now)
    decreases |chains|
  {
    hide Match;
    if chains != [] {
      FirstMatchSilent(chains[1..], w, now);
      assert chains == [chains[0]] + chains[1..];
    }
  }

  lemma {:induction false} EndsWithId(a: Alert, chains: seq<ChainRule>, e: Event, w: seq<Stamped>, now: int)
    requires EndsHere(a, chains, e, w, now)
    ensures w != [] && a.chainEvents != [] && a.chainEvents[|a.chainEvents| - 1] == w[|w| - 1].id
  {
    var c, at :| c in chains && Reports(a, c, e, w, now, at) && at != [] && at[|at| - 1] == |w| - 1;
  }

  lemma {:induction false} SpendsLast(alerts: seq<Alert>, chains: seq<ChainRule>, e: Event, w: seq<Stamped>, now: int)
    requires alerts != [] && EndsHere(alerts[0], chains, e, w, now)
    ensures w != [] && w[|w| - 1].id in SpentIds(alerts)
  {
    hide EndsHere;
    EndsWithId(alerts[0], chains, e, w, now);
    var ids := alerts[0].chainEvents;
    assert ids[|ids| - 1] in ids;
  }

  lemma {:induction false} WithoutLast(w: seq<Stamped>, ids: seq<string>)
    requires w != [] && w[|w| - 1].id in ids
    ensures Within(Without(w, ids), w[..|w| - 1])
  {
    var n := |w| - 1;
    WithoutSnoc(w, n, ids);
    assert w[..n + 1] == w;
    WithinSelf(w[..n]);
    WithinCut(w[..n], w[..n], 0, ids);
    hide Without, Within;
    assert Without(w[..n], ids) + [] == Without(w[..n], ids);
  }

  lemma {:induction false} RegularFirst(cfg: Config, inputs: seq<Input>, bound: nat, n: nat)
    requires Regular(cfg, inputs, bound) && n <= |inputs|
    ensures Regular(cfg, inputs[..n], bound)
  {
    hide Short;
    ForwardFirst(inputs, n);
  }

  /** What the next call finds. */
  lemma {:induction false} CellsDistinct(cfg: Config, inputs: seq<Input>, i: nat)
    requires UniqueIds(inputs) && i < |inputs| && !Ignored(inputs[i].event)
    ensures Distinct(CellsNext(cfg, inputs[..i], inputs[i]))
  {
    hide Distinct, Log, CellsNext, Within;
    LogDistinct(inputs[..i + 1], inputs[i].event.source);
    CellsAreLogged(cfg, inputs, i);
    WithinDistinct(CellsNext(cfg, inputs[..i], inputs[i]), Log(inputs[..i + 1], inputs[i].event.source));
  }

  /** Silent since the latest event of the source. */
  ghost predicate SilentSince(chains: seq<ChainRule>, stored: seq<Stamped>, last: Option<int>) {
    if last.None? then stored == [] else Silent(chains, stored, last.value)
  }

  lemma {:induction false} SilentThen(chains: seq<ChainRule>, stored: seq<Stamped>, last: Option<int>, now: int) returns (since: int)
    requires SilentSince(chains, stored, last) && (last.None? || last.value <= now)
    ensures since <= now && Silent(chains, stored, since)
  {
    since := if last.None? then now else last.value;
    if last.None? {
      forall c | c in chains ensures Match([], c, since).None? {}
    }
  }

  /** Over every regular run no chain matches what is stored, at any time since the latest event. */
  lemma {:induction false} StoredIsSilent(cfg: Config, inputs: seq<Input>, source: string)
    requires Regular(cfg, inputs, 2)
    ensures SilentSince(cfg.chains, WindowOf(WindowsAfter(cfg, true, inputs), source), LastTime(inputs, source))
    decreases |inputs|
  {
    if inputs != [] {
      var n := |inputs| - 1;
      var earlier, last := inputs[..n], inputs[n];
      RegularFirst(cfg, inputs, 2, n);
      StoredIsSilent(cfg, earlier, source);
      if From(last, source) {
        ForwardLast(inputs, n, last);
        CellsDistinct(cfg, inputs, n);
        hide Forward, UniqueIds, SilentSince, Silent, OnSource, Short, Distinct, Extended;
        var stored := WindowOf(WindowsAfter(cfg, true, earlier), source);
        var since := SilentThen(cfg.chains, stored, LastTime(earlier, source), last.Now());
        CallStaysSilent(cfg, stored, last, since);
        SilentNow(cfg.chains, OnSource(cfg, true, stored, last).window, last.Now());
      }
    }
  }

  lemma SilentNow(chains: seq<ChainRule>, stored: seq<Stamped>, now: int)
    requires Silent(chains, stored, now)
    ensures SilentSince(chains, stored, Some(now))
  {}

  /** The alerts of a call of a regular run. */
  lemma {:induction false} CallEndsHere(cfg: Config, inputs: seq<Input>, i: nat)
    requires Regular(cfg, inputs, 2) && i < |inputs| && !Ignored(inputs[i].event)
    ensures var w := CellsNext(cfg, inputs[..i], inputs[i]);
            && w != [] && w[|w| - 1] == Stamp(inputs[i])
            && (forall a :: a in Run(cfg, true, inputs)[i] ==> EndsHere(a, cfg.chains, inputs[i].event, w, inputs[i].Now()))
            && |Run(cfg, true, inputs)[i]| <= Ending(cfg.chains, inputs[i].event.kind)
  {
    var earlier, next := inputs[..i], inputs[i];
    var stored := WindowOf(WindowsAfter(cfg, true, earlier), next.event.source);
    RunAt(cfg, true, inputs, i);
    RegularFirst(cfg, inputs, 2, i);
    StoredIsSilent(cfg, earlier, next.event.source);
    ForwardLast(inputs, i, next);
    CellsDistinct(cfg, inputs, i);
    hide Run, WindowsAfter, LastTime, Fire, Extended, Short, Distinct, SilentSince, Silent, Forward, UniqueIds, EndsHere;
    var since := SilentThen(cfg.chains, stored, LastTime(earlier, next.event.source), next.Now());
    FrontSilent(cfg, stored, next, since);
    CallPairs(cfg.chains, next.event, next.Now(), CellsNext(cfg, earlier, next));
  }

  /**
    When no chain is longer than two types or repeats one, every alert of every call tells the truth:
    the events it names were observed from the source, one after the other, with the chain's types
    and inside its window.
   */
  lemma {:induction false} EveryAlertGenuine(cfg: Config, inputs: seq<Input>, i: nat, a: Alert)
    requires Regular(cfg, inputs, 2) && i < |inputs| && a in Run(cfg, true, inputs)[i]
    ensures Genuine(a, cfg.chains, inputs[i].event, Log(inputs[..i + 1], inputs[i].event.source), inputs[i].Now())
  {
    hide Run, Regular, CellsNext, Within, Log, Genuine, EndsHere;
    CallFires(cfg, inputs, i);
    CallEndsHere(cfg, inputs, i);
    CellsAreLogged(cfg, inputs, i);
    var w := CellsNext(cfg, inputs[..i], inputs[i]);
    EndsHereGenuine(a, cfg.chains, inputs[i].event, w, inputs[i].Now());
    GenuineWithin(a, cfg.chains, inputs[i].event, w, Log(inputs[..i + 1], inputs[i].event.source), inputs[i].Now());
  }

  lemma EndsHereGenuine(a: Alert, chains: seq<ChainRule>, e: Event, w: seq<Stamped>, now: int)
    requires EndsHere(a, chains, e, w, now)
    ensures Genuine(a, chains, e, w, now)
  {
    hide Reports;
  }

  // ---------------------------------------------------------------- how often an event is named

  /**
    Every alert of a call ends in the event of the call, and there are at most as many alerts as
    chains that end in its type.
   */
  lemma {:induction false} AlertsEndNow(cfg: Config, inputs: seq<Input>, i: nat)
    requires Regular(cfg, inputs, 2) && i < |inputs|
    ensures forall a :: a in Run(cfg, true, inputs)[i] ==>
              a.chainEvents != [] && a.chainEvents[|a.chainEvents| - 1] == inputs[i].event.id
    ensures |Run(cfg, true, inputs)[i]| <= Ending(cfg.chains, inputs[i].event.kind)
  {
    hide Run, Regular, CellsNext, EndsHere, Ending;
    if Run(cfg, true, inputs)[i] != [] {
      CallFires(cfg, inputs, i);
      CallEndsHere(cfg, inputs, i);
      var w := CellsNext(cfg, inputs[..i], inputs[i]);
      forall a | a in Run(cfg, true, inputs)[i]
        ensures a.chainEvents != [] && a.chainEvents[|a.chainEvents| - 1] == inputs[i].event.id
      {
        EndsWithId(a, cfg.chains, inputs[i].event, w, inputs[i].Now());
      }
    }
  }

  /** Two alerts of one call always share an event, so a call names each event once exactly when it raises at most one. */
  lemma {:induction false} SpendsOnceIff(cfg: Config, inputs: seq<Input>, i: nat)
    requires Regular(cfg, inputs, 2) && i < |inputs|
    ensures NoRepeats(SpentIds(Run(cfg, true, inputs)[i])) <==> |Run(cfg, true, inputs)[i]| <= 1
  {
    var alerts := Run(cfg, true, inputs)[i];
    AlertsEndNow(cfg, inputs, i);
    if alerts != [] {
      AlertNamesOnce(cfg, inputs, i, alerts[0]);
    }
    hide Run, Regular, Ending;
    if |alerts| == 1 {
      assert alerts[1..] == [] && alerts[0].chainEvents + [] == alerts[0].chainEvents;
    } else if |alerts| >= 2 {
      var first, second, rest := alerts[0].chainEvents, alerts[1].chainEvents, SpentIds(alerts[1..][1..]);
      assert alerts[1..][0] == alerts[1] && SpentIds(alerts) == first + (second + rest);
      var k, l := |first| - 1, |first| + |second| - 1;
      assert SpentIds(alerts)[k] == SpentIds(alerts)[l];
    }
  }

  lemma {:induction false} AlertNamesOnce(cfg: Config, inputs: seq<Input>, i: nat, a: Alert)
    requires Regular(cfg, inputs, 2) && i < |inputs| && a in Run(cfg, true, inputs)[i]
    ensures NoRepeats(a.chainEvents)
  {
    var log := Log(inputs[..i + 1], inputs[i].event.source);
    EveryAlertGenuine(cfg, inputs, i, a);
    LogDistinct(inputs[..i + 1], inputs[i].event.source);
    hide Run, Log, Short, Reports;
    var c, at :| c in cfg.chains && Reports(a, c, inputs[i].event, log, inputs[i].Now(), at);
    ReportsOnce(a, c, inputs[i].event, log, inputs[i].Now(), at);
  }

  lemma ReportsOnce(a: Alert, c: ChainRule, e: Event, log: seq<Stamped>, now: int, at: seq<int>)
    requires Reports(a, c, e, log, now, at) && Distinct(log)
    ensures NoRepeats(a.chainEvents)
  {}

  /** No two chains end in the same type. */
  ghost predicate DistinctEnds(chains: seq<ChainRule>) {
    forall i, j :: 0 <= i < j < |chains| && chains[i].sequence != [] && chains[j].sequence != []
                   ==> Last(chains[i]) != Last(chains[j])
  }

  function Last(c: ChainRule): string
    requires c.sequence != []
  {
    c.sequence[|c.sequence| - 1]
  }

  lemma {:induction false} EndingAtMostOnce(chains: seq<ChainRule>, kind: string)
    requires DistinctEnds(chains)
    ensures Ending(chains, kind) <= 1
    ensures (forall c :: c in chains && c.sequence != [] ==> Last(c) != kind) ==> Ending(chains, kind) == 0
    decreases |chains|
  {
    if chains != [] {
      var rest := chains[1..];
      forall i, j | 0 <= i < j < |rest| && rest[i].sequence != [] && rest[j].sequence != [] ensures Last(rest[i]) != Last(rest[j]) {
        assert rest[i] == chains[i + 1] && rest[j] == chains[j + 1];
      }
      EndingAtMostOnce(rest, kind);
      if chains[0].sequence != [] && Last(chains[0]) == kind {
        forall c | c in rest && c.sequence != [] ensures Last(c) != kind {
          var j :| 0 <= j < |rest| && rest[j] == c;
          assert chains[j + 1] == c;
        }
      }
    }
  }

  /** Chains that may share their first types: when no two end alike, a call names each event at most once. */
  lemma {:induction false} DistinctEndsSpendOnce(cfg: Config, inputs: seq<Input>, i: nat)
    requires Regular(cfg, inputs, 2) && DistinctEnds(cfg.chains) && i < |inputs|
    ensures |Run(cfg, true, inputs)[i]| <= 1 && NoRepeats(SpentIds(Run(cfg, true, inputs)[i]))
  {
    hide Run, Regular, Ending, NoRepeats, SpentIds, DistinctEnds;
    AlertsEndNow(cfg, inputs, i);
    EndingAtMostOnce(cfg.chains, inputs[i].event.kind);
    SpendsOnceIff(cfg, inputs, i);
  }

  // ---------------------------------------------------------------- the shipped rules

  function DefaultChains(): seq<ChainRule> {
    [ChainRule("RECON_TO_PORTSCAN", "TA0043", "HIGH", 10 * MINUTE, ["ARP", "PORT_SCAN"]),
     ChainRule("TOR_EVASION_SCAN", "TA0005", "CRITICAL", 5 * MINUTE, ["TOR", "PORT_SCAN"]),
     ChainRule("TOR_EVASION_DNS", "TA0011", "HIGH", 5 * MINUTE, ["TOR", "DNS"]),
     ChainRule("CANARY_THEN_SCAN", "TA0007", "CRITICAL", 15 * MINUTE, ["CANARY", "PORT_SCAN"]),
     ChainRule("PROXY_TO_SCAN", "TA0003", "HIGH", 5 * MINUTE, ["PROXY", "PORT_SCAN"])]
  }

  lemma {:induction false} DefaultChainsShort()
    ensures Short(DefaultChains(), 2)
  {
    forall c | c in DefaultChains() ensures |c.sequence| <= 2 && NoRepeats(c.sequence) {
      assert |c.sequence| == 2 && c.sequence[0] != c.sequence[1];
    }
  }

  lemma {:induction false} DefaultEnds(kind: string)
    ensures kind != "PORT_SCAN" ==> Ending(DefaultChains(), kind) <= 1
  {
    var all := DefaultChains();
    assert all[0..] == all && all[5..] == [];
    EndingStep(all, 4, kind);
    EndingStep(all, 3, kind);
    EndingStep(all, 2, kind);
    EndingStep(all, 1, kind);
    EndingStep(all, 0, kind);
  }

  lemma EndingStep(chains: seq<ChainRule>, i: nat, kind: string)
    requires i < |chains| && chains[i].sequence != []
    ensures Ending(chains[i..], kind) == (if Last(chains[i]) == kind then 1 else 0) + Ending(chains[i + 1..], kind)
  {
    assert chains[i..][1..] == chains[i + 1..];
  }

  /**
    With the shipped rules every alert of every call is genuine, and only a port scan can make one
    call name an event more than once.
   */
  lemma {:induction false} ShippedAlerts(cfg: Config, inputs: seq<Input>, i: nat)
    requires cfg.chains == DefaultChains() && Forward(inputs) && UniqueIds(inputs) && i < |inputs|
    requires forall j :: 0 <= j < |inputs| ==> inputs[j].callback
    ensures forall a :: a in Run(cfg, true, inputs)[i] ==>
              Genuine(a, cfg.chains, inputs[i].event, Log(inputs[..i + 1], inputs[i].event.source), inputs[i].Now())
    ensures inputs[i].event.kind != "PORT_SCAN" ==> NoRepeats(SpentIds(Run(cfg, true, inputs)[i]))
  {
    DefaultChainsShort();
    hide Run, Ending, NoRepeats, SpentIds, Forward, UniqueIds, Short, Genuine, Log, DefaultChains;
    forall a | a in Run(cfg, true, inputs)[i]
      ensures Genuine(a, cfg.chains, inputs[i].event, Log(inputs[..i + 1], inputs[i].event.source), inputs[i].Now())
    {
      EveryAlertGenuine(cfg, inputs, i, a);
    }
    AlertsEndNow(cfg, inputs, i);
    DefaultEnds(inputs[i].event.kind);
    SpendsOnceIff(cfg, inputs, i);
  }
}
