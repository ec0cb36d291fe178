/**
  What eviction hides: every call of every run, chain by chain, against the unevicted history.
 */
module CorrelatorHistory {
  import opened Correlator
  import opened CorrelatorRuns
  import opened Options

  // ---------------------------------------------------------------- one eviction

  /** The events a chain looks at. */
  function InWindow(w: seq<Stamped>, cutoff: int): seq<Stamped> {
    if w == [] then []
    else if w[0].time >= cutoff then [w[0]] + InWindow(w[1..], cutoff)
    else InWindow(w[1..], cutoff)
  }

  /** A match depends on those events only. */
  lemma {:induction false} MatchLooksInWindow(w: seq<Stamped>, types: seq<string>, cutoff: int)
    ensures MatchFrom(InWindow(w, cutoff), types, cutoff) == MatchFrom(w, types, cutoff)
    decreases |w|
  {
    if w != [] {
      MatchLooksInWindow(w[1..], types, cutoff);
      if w[0].time >= cutoff {
        assert InWindow(w, cutoff)[1..] == InWindow(w[1..], cutoff);
        if types != [] {
          MatchLooksInWindow(w[1..], types[1..], cutoff);
        }
      }
    }
  }

  predicate OnLimit(w: seq<Stamped>, limit: int) {
    exists ev :: ev in w && ev.time == limit
  }

  /** Eviction takes from a chain's view exactly the events on the limit. */
  lemma {:induction false} EvictedView(w: seq<Stamped>, limit: int, cutoff: int)
    requires limit <= cutoff
    ensures limit < cutoff || !OnLimit(w, limit) ==> InWindow(Recent(w, limit), cutoff) == InWindow(w, cutoff)
    ensures |InWindow(Recent(w, limit), cutoff)| <= |InWindow(w, cutoff)|
    ensures limit == cutoff && OnLimit(w, limit) ==> |InWindow(Recent(w, limit), cutoff)| < |InWindow(w, cutoff)|
    decreases |w|
  {
    if w != [] {
      EvictedView(w[1..], limit, cutoff);
      assert w == [w[0]] + w[1..];
      if w[0].time > limit {
        assert Recent(w, limit)[1..] == Recent(w[1..], limit);
      }
    }
  }

  function Kinds(w: seq<Stamped>): (kinds: seq<string>)
    ensures |kinds| == |w|
  {
    if w == [] then [] else [w[0].kind] + Kinds(w[1..])
  }

  lemma {:induction false} MatchWhole(w: seq<Stamped>, cutoff: int)
    ensures MatchFrom(InWindow(w, cutoff), Kinds(InWindow(w, cutoff)), cutoff).Some?
    decreases |w|
  {
    if w != [] {
      MatchWhole(w[1..], cutoff);
      if w[0].time >= cutoff {
        var view := InWindow(w, cutoff);
        assert view[1..] == InWindow(w[1..], cutoff) && Kinds(view)[1..] == Kinds(view[1..]);
      }
    }
  }

  lemma {:induction false} MatchFits(w: seq<Stamped>, types: seq<string>, cutoff: int)
    requires MatchFrom(w, types, cutoff).Some?
    ensures |types| <= |w|
    decreases |w|
  {
    if types != [] {
      if w[0].time >= cutoff && w[0].kind == types[0] {
        MatchFits(w[1..], types[1..], cutoff);
      } else {
        MatchFits(w[1..], types, cutoff);
      }
    }
  }

  /** Every sequence of types has the same match in both windows. */
  ghost predicate MatchAlike(w: seq<Stamped>, w': seq<Stamped>, cutoff: int) {
    forall types :: MatchFrom(w, types, cutoff) == MatchFrom(w', types, cutoff)
  }

  /**
    Exactly when eviction changes no match of a chain, whatever its sequence: its window is shorter
    than the eviction age, or no stored event lies precisely on the age limit.
   */
  lemma {:induction false} EvictionBoundary(w: seq<Stamped>, now: int, window: int, maxAge: int)
    requires window <= maxAge
    ensures MatchAlike(Recent(w, now - maxAge), w, now - window) <==> window < maxAge || !OnLimit(w, now - maxAge)
  {
    hide *;
    var limit, cutoff := now - maxAge, now - window;
    var young := Recent(w, limit);
    EvictedView(w, limit, cutoff);
    if window < maxAge || !OnLimit(w, limit) {
      ViewsAlike(young, w, cutoff);
    } else if MatchAlike(young, w, cutoff) {
      var types := Kinds(InWindow(w, cutoff));
      MatchWhole(w, cutoff);
      MatchLooksInWindow(w, types, cutoff);
      MatchLooksInWindow(young, types, cutoff);
      AlikeAt(young, w, types, cutoff);
      MatchFits(InWindow(young, cutoff), types, cutoff);
    }
  }

  lemma {:induction false} ViewsAlike(w: seq<Stamped>, w': seq<Stamped>, cutoff: int)
    requires InWindow(w, cutoff) == InWindow(w', cutoff)
    ensures MatchAlike(w, w', cutoff)
  {
    hide InWindow, MatchFrom;
    forall types ensures MatchFrom(w, types, cutoff) == MatchFrom(w', types, cutoff) {
      MatchLooksInWindow(w, types, cutoff);
      MatchLooksInWindow(w', types, cutoff);
    }
  }

  lemma AlikeAt(w: seq<Stamped>, w': seq<Stamped>, types: seq<string>, cutoff: int)
    requires MatchAlike(w, w', cutoff)
    ensures MatchFrom(w, types, cutoff) == MatchFrom(w', types, cutoff)
  {}

  // ---------------------------------------------------------------- the history of a run

  /** The stored windows after these calls. */
  function WindowsAfter(cfg: Config, evict: bool, inputs: seq<Input>): Windows
    decreases |inputs|
  {
    if inputs == [] then map[]
    else
      var last := inputs[|inputs| - 1];
      Observed(cfg, evict, WindowsAfter(cfg, evict, inputs[..|inputs| - 1]), last).windows
  }

  /** The alerts of the next call. */
  function AlertsNext(cfg: Config, inputs: seq<Input>, next: Input): seq<Alert> {
    Observed(cfg, true, WindowsAfter(cfg, true, inputs), next).alerts
  }

  function Stamp(input: Input): Stamped {
    Stamped(input.event.id, input.event.kind, input.Now())
  }

  predicate From(input: Input, source: string) {
    !Ignored(input.event) && input.event.source == source
  }

  /** Every event observed from a source that no alert has spent, however old. */
  function History(cfg: Config, inputs: seq<Input>, source: string): seq<Stamped>
    decreases |inputs|
  {
    if inputs == [] then []
    else
      var earlier, last := inputs[..|inputs| - 1], inputs[|inputs| - 1];
      if !From(last, source) then History(cfg, earlier, source)
      else Without(History(cfg, earlier, source) + [Stamp(last)], SpentIds(AlertsNext(cfg, earlier, last)))
  }

  /** The time of the latest event of a source. */
  function LastTime(inputs: seq<Input>, source: string): Option<int>
    decreases |inputs|
  {
    if inputs == [] then None
    else if From(inputs[|inputs| - 1], source) then Some(inputs[|inputs| - 1].Now())
    else LastTime(inputs[..|inputs| - 1], source)
  }

  /** Time does not run backwards on any source. */
  ghost predicate Forward(inputs: seq<Input>) {
    forall i, j :: 0 <= i < j < |inputs| && !Ignored(inputs[i].event) && From(inputs[j], inputs[i].event.source)
                   ==> inputs[i].Now() <= inputs[j].Now()
  }

  lemma {:induction false} RecentTwice(w: seq<Stamped>, cutoff: int, later: int)
    requires cutoff <= later
    ensures Recent(Recent(w, cutoff), later) == Recent(w, later)
    decreases |w|
  {
    if w != [] {
      RecentTwice(w[1..], cutoff, later);
      if w[0].time > cutoff {
        assert Recent(w, cutoff)[1..] == Recent(w[1..], cutoff);
      }
    }
  }

  lemma {:induction false} RecentWithout(w: seq<Stamped>, ids: seq<string>, cutoff: int)
    ensures Recent(Without(w, ids), cutoff) == Without(Recent(w, cutoff), ids)
    decreases |w|
  {
    if w != [] {
      RecentWithout(w[1..], ids, cutoff);
      if w[0].id !in ids {
        assert Without(w, ids)[1..] == Without(w[1..], ids);
      }
      if w[0].time > cutoff {
        assert Recent(w, cutoff)[1..] == Recent(w[1..], cutoff);
      }
    }
  }

  lemma {:induction false} RecentNew(w: seq<Stamped>, ev: Stamped, cutoff: int)
    requires ev.time > cutoff
    ensures Recent(w + [ev], cutoff) == Recent(w, cutoff) + [ev]
  {
    RecentConcat(w, [ev], cutoff);
    assert Recent([ev], cutoff) == [ev] + Recent([ev][1..], cutoff);
  }

  /** The stored window is the history without what is too old. */
  ghost predicate Evicted(cfg: Config, stored: seq<Stamped>, history: seq<Stamped>, last: Option<int>) {
    if last.None? then stored == history == [] else stored == Recent(history, last.value - cfg.maxAge)
  }

  /** What a call sees and stores, against the history. */
  lemma {:induction false} CallOnHistory(cfg: Config, stored: seq<Stamped>, history: seq<Stamped>, last: Option<int>, next: Input)
    requires cfg.maxAge > 0 && Evicted(cfg, stored, history, last) && (last.None? || last.value <= next.Now())
    ensures Extended(cfg, true, stored, next.event, next.Now()) == Recent(history + [Stamp(next)], next.Now() - cfg.maxAge)
    ensures var r := OnSource(cfg, true, stored, next);
            r.window == Recent(Without(history + [Stamp(next)], SpentIds(r.alerts)), next.Now() - cfg.maxAge)
  {
    var e, now := next.event, next.Now();
    var new_, limit := Stamp(next), now - cfg.maxAge;
    if last.Some? {
      RecentTwice(history, last.value - cfg.maxAge, limit);
    }
    RecentNew(history, new_, limit);
    var cells := Extended(cfg, true, stored, e, now);
    hide Recent, Fire, Without;
    if next.callback {
      FireWindow(cfg.chains, e, now, Buffer(cells, |cells|));
      assert cells[..|cells|] == cells;
      RecentWithout(history + [new_], SpentIds(Fire(cfg.chains, e, now, Buffer(cells, |cells|)).alerts), limit);
    } else {
      WithoutNone(history + [new_]);
    }
  }

  lemma {:induction false} ForwardFirst(inputs: seq<Input>, n: nat)
    requires Forward(inputs) && n <= |inputs|
    ensures Forward(inputs[..n])
  {
    hide From, Input.Now;
  }

  lemma {:induction false} ForwardLast(inputs: seq<Input>, n: nat, next: Input)
    requires n <= |inputs|
    requires forall i :: 0 <= i < n && !Ignored(inputs[i].event) && From(next, inputs[i].event.source) ==> inputs[i].Now() <= next.Now()
    requires !Ignored(next.event)
    ensures LastTime(inputs[..n], next.event.source).None? || LastTime(inputs[..n], next.event.source).value <= next.Now()
    decreases n
  {
    if n > 0 {
      hide Input.Now;
      assert inputs[..n][..n - 1] == inputs[..n - 1];
      ForwardLast(inputs, n - 1, next);
    }
  }

  /** Over every run, what is stored for a source is its history without what is too old. */
  lemma {:induction false} StoredIsRecent(cfg: Config, inputs: seq<Input>, source: string)
    requires cfg.maxAge > 0 && Forward(inputs)
    ensures Evicted(cfg, WindowOf(WindowsAfter(cfg, true, inputs), source), History(cfg, inputs, source), LastTime(inputs, source))
    decreases |inputs|
  {
    if inputs != [] {
      var n := |inputs| - 1;
      var earlier, last := inputs[..n], inputs[n];
      ForwardFirst(inputs, n);
      StoredIsRecent(cfg, earlier, source);
      if From(last, source) {
        ForwardLast(inputs, n, last);
        hide Forward, Evicted, OnSource, Without;
        CallOnHistory(cfg, WindowOf(WindowsAfter(cfg, true, earlier), source), History(cfg, earlier, source),
                      LastTime(earlier, source), last);
        EvictedNow(cfg, WindowOf(WindowsAfter(cfg, true, inputs), source), History(cfg, inputs, source), last.Now());
      }
    }
  }

  lemma EvictedNow(cfg: Config, stored: seq<Stamped>, history: seq<Stamped>, now: int)
    ensures stored == Recent(history, now - cfg.maxAge) ==> Evicted(cfg, stored, history, Some(now))
  {}

  // ---------------------------------------------------------------- eviction over a run

  /** The cells that the next call matches its chains against. */
  function CellsNext(cfg: Config, inputs: seq<Input>, next: Input): seq<Stamped> {
    Extended(cfg, true, WindowOf(WindowsAfter(cfg, true, inputs), next.event.source), next.event, next.Now())
  }

  function HistoryNext(cfg: Config, inputs: seq<Input>, next: Input): seq<Stamped> {
    History(cfg, inputs, next.event.source) + [Stamp(next)]
  }

  /** The chain is shorter than the eviction age, or no event lies on the limit. */
  predicate SeesAll(cfg: Config, inputs: seq<Input>, next: Input, c: ChainRule) {
    c.window < cfg.maxAge
    || (c.window == cfg.maxAge && !OnLimit(HistoryNext(cfg, inputs, next), next.Now() - cfg.maxAge))
  }

  /** Over every run the cells of a call are its history without what is too old. */
  lemma {:induction false} CellsAreRecent(cfg: Config, inputs: seq<Input>, i: nat)
    requires cfg.maxAge > 0 && Forward(inputs) && i < |inputs| && !Ignored(inputs[i].event)
    ensures CellsNext(cfg, inputs[..i], inputs[i]) == Recent(HistoryNext(cfg, inputs[..i], inputs[i]), inputs[i].Now() - cfg.maxAge)
  {
    var earlier, next := inputs[..i], inputs[i];
    ForwardLast(inputs, i, next);
    ForwardFirst(inputs, i);
    hide WindowsAfter, History, LastTime, Extended, Evicted, Recent, Forward, WindowOf, Ignored, Input.Now;
    StoredIsRecent(cfg, earlier, next.event.source);
    CallOnHistory(cfg, WindowOf(WindowsAfter(cfg, true, earlier), next.event.source), History(cfg, earlier, next.event.source),
                  LastTime(earlier, next.event.source), next);
  }

  /**
    Over every run with time moving forward on each source: a call matches a chain that is shorter
    than the eviction age as if nothing had ever been evicted.  A chain as long as the eviction age
    is matched so, whatever its sequence, exactly when no unspent event lies on the limit.
   */
  lemma {:induction false} EvictionHidesNothing(cfg: Config, inputs: seq<Input>, i: nat, c: ChainRule)
    requires cfg.maxAge > 0 && Forward(inputs) && i < |inputs| && !Ignored(inputs[i].event)
    ensures SeesAll(cfg, inputs[..i], inputs[i], c) ==>
              Match(CellsNext(cfg, inputs[..i], inputs[i]), c, inputs[i].Now())
              == Match(HistoryNext(cfg, inputs[..i], inputs[i]), c, inputs[i].Now())
    ensures c.window <= cfg.maxAge ==>
              (MatchAlike(CellsNext(cfg, inputs[..i], inputs[i]), HistoryNext(cfg, inputs[..i], inputs[i]), inputs[i].Now() - c.window)
               <==> SeesAll(cfg, inputs[..i], inputs[i], c))
  {
    hide CellsNext, HistoryNext, MatchFrom, Recent, MatchAlike, OnLimit, Forward, Input.Now;
    var earlier, next := inputs[..i], inputs[i];
    var now := next.Now();
    CellsAreRecent(cfg, inputs, i);
    if c.window <= cfg.maxAge {
      EvictionBoundary(HistoryNext(cfg, earlier, next), now, c.window, cfg.maxAge);
      if SeesAll(cfg, earlier, next, c) {
        AlikeAt(CellsNext(cfg, earlier, next), HistoryNext(cfg, earlier, next), c.sequence, now - c.window);
      }
    }
  }

  // ---------------------------------------------------------------- calls of a run

  lemma {:induction false} RunFromAt(cfg: Config, evict: bool, windows: Windows, inputs: seq<Input>, k: nat, i: nat)
    requires k <= i < |inputs| && windows == WindowsAfter(cfg, evict, inputs[..k])
    ensures RunFrom(cfg, evict, windows, inputs[k..])[i - k]
            == Observed(cfg, evict, WindowsAfter(cfg, evict, inputs[..i]), inputs[i]).alerts
    decreases i - k
  {
    hide Observed;
    assert inputs[k..][0] == inputs[k];
    if k < i {
      assert inputs[k..][1..] == inputs[k + 1..] && inputs[..k + 1][..k] == inputs[..k];
      var r := Observed(cfg, evict, windows, inputs[k]);
      RunFromAt(cfg, evict, r.windows, inputs, k + 1, i);
      assert RunFrom(cfg, evict, windows, inputs[k..])[i - k] == RunFrom(cfg, evict, r.windows, inputs[k + 1..])[i - (k + 1)];
    }
  }

  lemma {:induction false} RunAt(cfg: Config, evict: bool, inputs: seq<Input>, i: nat)
    requires i < |inputs|
    ensures Run(cfg, evict, inputs)[i]
            == Observed(cfg, evict, WindowsAfter(cfg, evict, inputs[..i]), inputs[i]).alerts
  {
    hide Observed, RunFrom;
    assert inputs[0..] == inputs;
    RunFromAt(cfg, evict, map[], inputs, 0, i);
  }

  /** The first chain, in configuration order, that matches. */
  function FirstMatch(chains: seq<ChainRule>, window: seq<Stamped>, now: int): Option<(ChainRule, seq<string>)> {
    if chains == [] then None
    else if Match(window, chains[0], now).Some? then Some((chains[0], Match(window, chains[0], now).value))
    else FirstMatch(chains[1..], window, now)
  }

  /** The alerts of a call start with that of the first matching chain, and are none without one. */
  ghost predicate StartsWith(alerts: seq<Alert>, first: Option<(ChainRule, seq<string>)>, e: Event) {
    match first
    case None => alerts == []
    case Some((c, ids)) => alerts != [] && alerts[0] == AlertFor(c, e, ids)
  }

  lemma {:induction false} FireStarts(chains: seq<ChainRule>, e: Event, now: int, b: Buffer)
    requires b.Valid()
    ensures StartsWith(Fire(chains, e, now, b).alerts, FirstMatch(chains, b.cells, now), e)
    decreases |chains|
  {
    hide Match;
    if chains != [] && Match(b.cells, chains[0], now).None? {
      FireStarts(chains[1..], e, now, b);
    }
  }

  lemma {:induction false} FirstMatchSame(chains: seq<ChainRule>, w: seq<Stamped>, w': seq<Stamped>, now: int)
    requires forall c :: c in chains ==> Match(w, c, now) == Match(w', c, now)
    ensures FirstMatch(chains, w, now) == FirstMatch(chains, w', now)
    decreases |chains|
  {
    hide Match;
    if chains != [] {
      FirstMatchSame(chains[1..], w, w', now);
    }
  }

  /** The same over the alerts of a run: each call alerts as its history demands. */
  lemma {:induction false} CallStarts(cfg: Config, inputs: seq<Input>, i: nat)
    requires cfg.maxAge > 0 && Forward(inputs) && i < |inputs| && inputs[i].callback && !Ignored(inputs[i].event)
    requires forall c :: c in cfg.chains ==> SeesAll(cfg, inputs[..i], inputs[i], c)
    ensures StartsWith(Run(cfg, true, inputs)[i],
                       FirstMatch(cfg.chains, HistoryNext(cfg, inputs[..i], inputs[i]), inputs[i].Now()), inputs[i].event)
  {
    hide Match, SeesAll, Run, StartsWith, Fire, FirstMatch, WindowsAfter, Forward, HistoryNext, Extended;
    var earlier, next := inputs[..i], inputs[i];
    RunAt(cfg, true, inputs, i);
    var cells := CellsNext(cfg, earlier, next);
    FireStarts(cfg.chains, next.event, next.Now(), Buffer(cells, |cells|));
    forall c | c in cfg.chains ensures Match(cells, c, next.Now()) == Match(HistoryNext(cfg, earlier, next), c, next.Now()) {
      EvictionHidesNothing(cfg, inputs, i, c);
    }
    FirstMatchSame(cfg.chains, cells, HistoryNext(cfg, earlier, next), next.Now());
  }

  // ---------------------------------------------------------------- on the limit

  /** The greedy match takes the first event of the next type. */
  lemma {:induction false} MatchAt(w: seq<Stamped>, types: seq<string>, cutoff: int, i: nat)
    requires i < |w| && types != [] && w[i].kind == types[0] && forall k :: 0 <= k < i ==> w[k].kind != types[0]
    requires w[i].time >= cutoff
    ensures MatchFrom(w, types, cutoff)
            == match MatchFrom(w[i + 1..], types[1..], cutoff) case None => None case Some(ids) => Some([w[i].id] + ids)
    decreases i
  {
    if i > 0 {
      assert w[1..][i - 1..][1..] == w[i + 1..] && w[1..][i..] == w[i + 1..];
      MatchAt(w[1..], types, cutoff, i - 1);
    }
  }

  lemma {:induction false} MatchPair(w: seq<Stamped>, c: ChainRule, now: int, i: nat, j: nat)
    requires i < j < |w| && c.sequence == [w[i].kind, w[j].kind] && w[i].time >= now - c.window && w[j].time >= now - c.window
    requires (forall k :: 0 <= k < i ==> w[k].kind != w[i].kind) && (forall k :: i < k < j ==> w[k].kind != w[j].kind)
    ensures Match(w, c, now) == Some([w[i].id, w[j].id])
  {
    var rest, cutoff := w[i + 1..], now - c.window;
    MatchAt(w, c.sequence, cutoff, i);
    assert c.sequence[1..] == [w[j].kind] && c.sequence[1..][1..] == [];
    MatchAt(rest, c.sequence[1..], cutoff, j - i - 1);
    assert MatchFrom(rest[j - i - 1 + 1..], [], cutoff) == Some([]);
    hide MatchFrom;
    assert [w[j].id] + [] == [w[j].id] && [w[i].id] + [w[j].id] == [w[i].id, w[j].id];
  }

  lemma {:induction false} TooFew(w: seq<Stamped>, c: ChainRule, now: int)
    requires |w| < |c.sequence|
    ensures Match(w, c, now).None?
  {
    if Match(w, c, now).Some? {
      MatchFits(w, c.sequence, now - c.window);
    }
  }

  lemma {:induction false} CallWithout(cfg: Config, evict: bool, windows: Windows, input: Input)
    requires !Ignored(input.event)
    ensures var cells := Extended(cfg, evict, WindowOf(windows, input.event.source), input.event, input.Now());
            var r := Observed(cfg, evict, windows, input);
            && (input.callback ==> StartsWith(r.alerts, FirstMatch(cfg.chains, cells, input.Now()), input.event))
            && (!input.callback ==> r.alerts == [])
            && (r.alerts == [] ==> WindowOf(r.windows, input.event.source) == cells)
  {
    hide Fire, Extended, FirstMatch, StartsWith;
    var cells := Extended(cfg, evict, WindowOf(windows, input.event.source), input.event, input.Now());
    var b := Buffer(cells, |cells|);
    FireStarts(cfg.chains, input.event, input.Now(), b);
    FireWindow(cfg.chains, input.event, input.Now(), b);
    assert b.Window() == cells && SpentIds([]) == [];
    WithoutNone(cells);
  }

  /** Two events of one source, exactly the eviction age apart. */
  ghost predicate AgeApart(cfg: Config, a: Input, b: Input) {
    !Ignored(a.event) && From(b, a.event.source) && b.Now() == a.Now() + cfg.maxAge
  }

  /** The two events are all a correlator without eviction has after the second, and the second alone otherwise. */
  lemma {:induction false} AgeApartCells(cfg: Config, evict: bool, a: Input, b: Input)
    requires AgeApart(cfg, a, b) && cfg.maxAge > 0
    ensures Extended(cfg, evict, [], a.event, a.Now()) == [Stamp(a)]
    ensures Extended(cfg, evict, [Stamp(a)], b.event, b.Now()) == if evict then [Stamp(b)] else [Stamp(a), Stamp(b)]
  {
    assert Recent([Stamp(a)], a.Now()) == Recent([Stamp(a)][1..], a.Now());
  }

  /**
    Every chain of two types as long as the eviction age loses its alert to eviction: without it
    the second of two events exactly that far apart completes the chain.
   */
  lemma {:induction false} BoundaryIsVisible(cfg: Config, c: ChainRule, a: Input, b: Input)
    requires cfg.chains == [c] && b.callback && cfg.maxAge == c.window >= MINUTE && AgeApart(cfg, a, b)
    requires c.sequence == [a.event.kind, b.event.kind]
    ensures Run(cfg, true, [a, b])[1] == [] && Run(cfg, false, [a, b])[1] != []
  {
    BoundaryCall(cfg, true, c, a, b);
    BoundaryCall(cfg, false, c, a, b);
  }

  lemma {:induction false} BoundaryCall(cfg: Config, evict: bool, c: ChainRule, a: Input, b: Input)
    requires cfg.chains == [c] && b.callback && cfg.maxAge == c.window >= MINUTE && AgeApart(cfg, a, b)
    requires c.sequence == [a.event.kind, b.event.kind]
    ensures Run(cfg, evict, [a, b])[1] == [] <==> evict
  {
    var inputs, s := [a, b], a.event.source;
    RunAt(cfg, evict, inputs, 1);
    AgeApartCells(cfg, evict, a, b);
    var windows := WindowsAfter(cfg, evict, inputs[..1]);
    assert inputs[..1][..0] == [] && WindowsAfter(cfg, evict, []) == map[];
    CallWithout(cfg, evict, map[], a);
    CallWithout(cfg, evict, windows, b);
    hide Run, Observed, Extended, Match;
    TooFew([Stamp(a)], c, a.Now());
    assert [c][1..] == [] && FirstMatch([c][1..], [Stamp(a)], a.Now()).None?;
    assert FirstMatch([c], [Stamp(a)], a.Now()).None?;
    if evict {
      TooFew([Stamp(b)], c, b.Now());
      assert FirstMatch([c][1..], [Stamp(b)], b.Now()).None?;
    } else {
      MatchPair([Stamp(a), Stamp(b)], c, b.Now(), 0, 1);
    }
  }
}
