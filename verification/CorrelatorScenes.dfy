/**
  Runs that show what can go wrong: stale cells, late callbacks, repeated IDs and clocks that run
  back.  They make the conditions of the theorems about runs exact.
 */
module CorrelatorScenes {
  import opened Correlator
  import opened CorrelatorRuns
  import opened CorrelatorHistory
  import opened CorrelatorAlerts
  import opened CorrelatorPairs
  import opened Options

  // ---------------------------------------------------------------- what the stale cells do

  /** One source, one event a nanosecond, each event's ID its own type, a callback from one of them on. */
  function Scene(kinds: seq<string>, from: nat): (inputs: seq<Input>)
    ensures |inputs| == |kinds|
  {
    seq(|kinds|, i requires 0 <= i < |kinds| => Input(Event(kinds[i], kinds[i], "s", Some(i)), 0, from <= i))
  }

  function SceneCells(kinds: seq<string>): (cells: seq<Stamped>)
    ensures |cells| == |kinds|
  {
    seq(|kinds|, i requires 0 <= i < |kinds| => Stamped(kinds[i], kinds[i], i))
  }

  ghost predicate Plain(kinds: seq<string>) {
    |kinds| < MINUTE && EVENT_ALERT !in kinds
  }

  /** With a callback, no chain matches after any of the first n events. */
  ghost predicate Quiet(cfg: Config, kinds: seq<string>, from: nat, n: nat)
    requires n <= |kinds|
  {
    forall k :: from < k <= n ==> forall c :: c in cfg.chains ==> Match(SceneCells(kinds[..k]), c, k - 1).None?
  }

  lemma {:induction false} FirstMatchNone(chains: seq<ChainRule>, w: seq<Stamped>, now: int)
    requires forall c :: c in chains ==> Match(w, c, now).None?
    ensures FirstMatch(chains, w, now).None?
    decreases |chains|
  {
    hide Match;
    if chains != [] {
      FirstMatchNone(chains[1..], w, now);
    }
  }

  /** The event that extends a scene finds all the earlier ones. */
  lemma {:induction false} SceneExtended(cfg: Config, kinds: seq<string>, from: nat, n: nat)
    requires cfg.maxAge == MINUTE && Plain(kinds) && n < |kinds|
    ensures !Ignored(Scene(kinds, from)[n].event)
    ensures Extended(cfg, true, SceneCells(kinds[..n]), Scene(kinds, from)[n].event, n) == SceneCells(kinds[..n + 1])
  {
    RecentAll(SceneCells(kinds[..n]), n - MINUTE);
    hide Recent;
    assert kinds[n] in kinds;
  }

  lemma {:induction false} SceneStored(cfg: Config, kinds: seq<string>, from: nat, n: nat)
    requires cfg.maxAge == MINUTE && Plain(kinds) && n <= |kinds| && Quiet(cfg, kinds, from, n)
    ensures WindowOf(WindowsAfter(cfg, true, Scene(kinds, from)[..n]), "s") == SceneCells(kinds[..n])
    decreases n
  {
    if n > 0 {
      var inputs, cells := Scene(kinds, from), SceneCells(kinds[..n]);
      assert inputs[..n][..n - 1] == inputs[..n - 1];
      SceneStored(cfg, kinds, from, n - 1);
      SceneExtended(cfg, kinds, from, n - 1);
      hide SceneCells, Extended, Fire, Match, Plain;
      if from < n {
        FirstMatchNone(cfg.chains, cells, n - 1);
      }
      CallWithout(cfg, true, WindowsAfter(cfg, true, inputs[..n - 1]), inputs[n - 1]);
    }
  }

  /** A call after a quiet scene fires on all of its events. */
  lemma {:induction false} SceneFires(cfg: Config, kinds: seq<string>, from: nat)
    requires cfg.maxAge == MINUTE && Plain(kinds) && from < |kinds| && Quiet(cfg, kinds, from, |kinds| - 1)
    ensures Run(cfg, true, Scene(kinds, from))[|kinds| - 1]
            == Fire(cfg.chains, Scene(kinds, from)[|kinds| - 1].event, |kinds| - 1, Buffer(SceneCells(kinds), |kinds|)).alerts
  {
    var n := |kinds| - 1;
    SceneStored(cfg, kinds, from, n);
    SceneExtended(cfg, kinds, from, n);
    assert kinds[..n + 1] == kinds;
    hide Run, WindowsAfter, Fire, Extended, SceneCells, Quiet;
    RunAt(cfg, true, Scene(kinds, from), n);
  }

  /** A chain of two types does not match where no event of the second follows one of the first. */
  lemma {:induction false} NoPair(w: seq<Stamped>, c: ChainRule, now: int)
    requires |c.sequence| == 2
    requires forall i, j :: 0 <= i < j < |w| ==> w[i].kind != c.sequence[0] || w[j].kind != c.sequence[1]
    ensures Match(w, c, now).None?
  {
    hide MatchFrom;
    if Match(w, c, now).Some? {
      var i, j := PairPlaces(w, c, now);
    }
  }

  lemma {:induction false} PairPlaces(w: seq<Stamped>, c: ChainRule, now: int) returns (i: int, j: int)
    requires |c.sequence| == 2 && Match(w, c, now).Some?
    ensures 0 <= i < j < |w| && w[i].kind == c.sequence[0] && w[j].kind == c.sequence[1]
  {
    var at := MatchOccurs(w, c.sequence, now - c.window);
    i, j := at[0], at[1];
  }

  lemma {:induction false} QuietPair(kinds: seq<string>, k: nat, c: ChainRule)
    requires k <= |kinds| && |c.sequence| == 2
    requires forall i, j :: 0 <= i < j < k ==> kinds[i] != c.sequence[0] || kinds[j] != c.sequence[1]
    ensures Match(SceneCells(kinds[..k]), c, k - 1).None?
  {
    hide Match;
    NoPair(SceneCells(kinds[..k]), c, k - 1);
  }

  /** Nor does a chain one of whose types is missing. */
  lemma {:induction false} QuietMissing(kinds: seq<string>, k: nat, c: ChainRule, t: nat)
    requires k <= |kinds| && t < |c.sequence| && forall i :: 0 <= i < k ==> kinds[i] != c.sequence[t]
    ensures Match(SceneCells(kinds[..k]), c, k - 1).None?
  {
    hide Match;
    if Match(SceneCells(kinds[..k]), c, k - 1).Some? {
      var i := TypePlace(SceneCells(kinds[..k]), c, k - 1, t);
    }
  }

  lemma {:induction false} TypePlace(w: seq<Stamped>, c: ChainRule, now: int, t: nat) returns (i: int)
    requires t < |c.sequence| && Match(w, c, now).Some?
    ensures 0 <= i < |w| && w[i].kind == c.sequence[t]
  {
    var at := MatchOccurs(w, c.sequence, now - c.window);
    i := at[t];
  }

  /** Two chains one after the other on the same cells; the first one matches. */
  lemma {:induction false} FireTwo(first: ChainRule, second: ChainRule, e: Event, now: int,
                                   cells: seq<Stamped>, ids: seq<string>, left: seq<Stamped>)
    requires Match(cells, first, now) == Some(ids) && Buffer(cells, |cells|).Clear(ids).cells == left
    ensures var m := Match(left, second, now);
            Fire([first, second], e, now, Buffer(cells, |cells|)).alerts
            == [AlertFor(first, e, ids)] + if m.None? then [] else [AlertFor(second, e, m.value)]
  {
    hide Match;
    var b := Buffer(cells, |cells|).Clear(ids);
    assert [first, second][1..] == [second] && [second][1..] == [];
    assert forall x: Buffer :: x.Valid() ==> Fire([], e, now, x).alerts == [];
  }

  predicate Pair(cfg: Config, first: seq<string>, second: seq<string>) {
    && cfg.maxAge == MINUTE && |cfg.chains| == 2
    && cfg.chains[0].sequence == first && cfg.chains[1].sequence == second
    && cfg.chains[0].window == cfg.chains[1].window == MINUTE
  }

  lemma {:induction false} QuietBoth(cfg: Config, kinds: seq<string>, from: nat, n: nat)
    requires n <= |kinds| && |cfg.chains| == 2
    requires forall k :: from < k <= n ==> Match(SceneCells(kinds[..k]), cfg.chains[0], k - 1).None?
    requires forall k :: from < k <= n ==> Match(SceneCells(kinds[..k]), cfg.chains[1], k - 1).None?
    ensures Quiet(cfg, kinds, from, n)
  {
    hide Match, SceneCells;
    assert forall c :: c in cfg.chains ==> c == cfg.chains[0] || c == cfg.chains[1];
  }

  /** What the last call of a quiet scene reports for two chains. */
  lemma {:induction false} SceneAlerts(cfg: Config, kinds: seq<string>, from: nat, ids: seq<string>, left: seq<Stamped>, ids': seq<string>)
    requires cfg.maxAge == MINUTE && |cfg.chains| == 2 && from < |kinds| && Plain(kinds) && Quiet(cfg, kinds, from, |kinds| - 1)
    requires Match(SceneCells(kinds), cfg.chains[0], |kinds| - 1) == Some(ids)
    requires Buffer(SceneCells(kinds), |kinds|).Clear(ids).cells == left
    requires Match(left, cfg.chains[1], |kinds| - 1) == Some(ids')
    ensures var alerts := Run(cfg, true, Scene(kinds, from))[|kinds| - 1];
            |alerts| == 2 && alerts[0].chainEvents == ids && alerts[1].chainEvents == ids'
  {
    hide Run, Fire, Match, SceneCells, Quiet, Plain;
    SceneFires(cfg, kinds, from);
    assert cfg.chains == [cfg.chains[0], cfg.chains[1]];
    FireTwo(cfg.chains[0], cfg.chains[1], Scene(kinds, from)[|kinds| - 1].event, |kinds| - 1, SceneCells(kinds), ids, left);
  }

  /** Chains that share types: both report the same two events. */
  lemma {:induction false} SharedTypesRepeat(cfg: Config)
    requires Pair(cfg, ["A", "B"], ["A", "B"])
    ensures var alerts := Run(cfg, true, Scene(["A", "B"], 0))[1];
            |alerts| == 2 && alerts[0].chainEvents == alerts[1].chainEvents == ["A", "B"]
  {
    hide Run, Fire, Match, Quiet;
    var kinds := ["A", "B"];
    var a, b := Stamped("A", "A", 0), Stamped("B", "B", 1);
    var cells := [a, b];
    assert SceneCells(kinds) == cells;
    QuietPair(kinds, 1, cfg.chains[0]);
    QuietPair(kinds, 1, cfg.chains[1]);
    QuietBoth(cfg, kinds, 0, 1);
    MatchPair(cells, cfg.chains[0], 1, 0, 1);
    MatchPair(cells, cfg.chains[1], 1, 0, 1);
    assert cells[1..] == [b] && [b][1..] == [] && cells[..2] == cells;
    assert Without([b], kinds) == [] && Without(cells, kinds) == [];
    SceneAlerts(cfg, kinds, 0, kinds, cells, kinds);
  }

  /** A chain that repeats a type: its alert names one event twice, a sequence that never occurred. */
  lemma {:induction false} RepeatedTypeDoubles(cfg: Config)
    requires Pair(cfg, ["A", "C"], ["B", "B"])
    ensures UniqueIds(Scene(["A", "B", "C"], 0))
    ensures var alerts := Run(cfg, true, Scene(["A", "B", "C"], 0))[2];
            |alerts| == 2 && alerts[0].chainEvents == ["A", "C"] && alerts[1].chainEvents == ["B", "B"]
  {
    hide Run, Fire, Match, Quiet;
    var kinds, ids := ["A", "B", "C"], ["A", "C"];
    var a, b, c := Stamped("A", "A", 0), Stamped("B", "B", 1), Stamped("C", "C", 2);
    var cells, left := [a, b, c], [b, b, c];
    assert SceneCells(kinds) == cells;
    QuietPair(kinds, 1, cfg.chains[0]);
    QuietPair(kinds, 2, cfg.chains[0]);
    QuietPair(kinds, 1, cfg.chains[1]);
    QuietPair(kinds, 2, cfg.chains[1]);
    QuietBoth(cfg, kinds, 0, 2);
    MatchPair(cells, cfg.chains[0], 2, 0, 2);
    MatchPair(left, cfg.chains[1], 2, 0, 1);
    assert cells[1..] == [b, c] && [b, c][1..] == [c] && [c][1..] == [] && cells[..3] == cells;
    assert Without([c], ids) == [] && Without([b, c], ids) == [b] && Without(cells, ids) == [b];
    SceneAlerts(cfg, kinds, 0, ids, left, ["B", "B"]);
  }

  /** Chains without repeated or shared types: the second alert can still name its events in the wrong order. */
  lemma {:induction false} StaleCellsReorder(cfg: Config)
    requires Pair(cfg, ["R", "S", "N"], ["Y", "X"])
    ensures DisjointTypes(cfg.chains) && UniqueIds(Scene(["R", "S", "X", "Y", "N"], 0))
    ensures var alerts := Run(cfg, true, Scene(["R", "S", "X", "Y", "N"], 0))[4];
            |alerts| == 2 && alerts[0].chainEvents == ["R", "S", "N"] && alerts[1].chainEvents == ["Y", "X"]
  {
    hide Run, Fire, Match, Quiet;
    var kinds, ids := ["R", "S", "X", "Y", "N"], ["R", "S", "N"];
    var r, s, x, y, n := Stamped("R", "R", 0), Stamped("S", "S", 1), Stamped("X", "X", 2), Stamped("Y", "Y", 3), Stamped("N", "N", 4);
    var cells, left := [r, s, x, y, n], [x, y, x, y, n];
    assert SceneCells(kinds) == cells;
    forall k | 0 < k <= 4 ensures Match(SceneCells(kinds[..k]), cfg.chains[0], k - 1).None? {
      QuietMissing(kinds, k, cfg.chains[0], 2);
    }
    forall k | 0 < k <= 4 ensures Match(SceneCells(kinds[..k]), cfg.chains[1], k - 1).None? {
      QuietPair(kinds, k, cfg.chains[1]);
    }
    QuietBoth(cfg, kinds, 0, 4);
    ReorderMatch(cells, cfg.chains[0]);
    MatchPair(left, cfg.chains[1], 4, 1, 2);
    ReorderCleared(cells, left);
    SceneAlerts(cfg, kinds, 0, ids, left, ["Y", "X"]);
  }

  lemma {:induction false} ReorderMatch(cells: seq<Stamped>, c: ChainRule)
    requires cells == SceneCells(["R", "S", "X", "Y", "N"]) && c.sequence == ["R", "S", "N"] && c.window == MINUTE
    ensures Match(cells, c, 4) == Some(["R", "S", "N"])
  {
    var cutoff := 4 - MINUTE;
    assert c.sequence[1..] == ["S", "N"] && ["S", "N"][1..] == ["N"] && ["N"][1..] == [];
    assert cells[1..][1..] == cells[2..] && cells[2..][3..] == [];
    assert MatchFrom([], [], cutoff) == Some([]);
    MatchAt(cells, c.sequence, cutoff, 0);
    MatchAt(cells[1..], ["S", "N"], cutoff, 0);
    MatchAt(cells[2..], ["N"], cutoff, 2);
    hide MatchFrom;
    assert ["N"] + [] == ["N"] && ["S"] + ["N"] == ["S", "N"] && ["R"] + ["S", "N"] == ["R", "S", "N"];
  }

  lemma {:induction false} ReorderCleared(cells: seq<Stamped>, left: seq<Stamped>)
    requires cells == SceneCells(["R", "S", "X", "Y", "N"]) && left == [cells[2], cells[3]] + cells[2..]
    ensures Buffer(cells, 5).Clear(["R", "S", "N"]).cells == left
  {
    var ids, x, y, n := ["R", "S", "N"], cells[2], cells[3], cells[4];
    assert cells[1..][1..] == [x, y, n] && [x, y, n][1..] == [y, n] && [y, n][1..] == [n] && [n][1..] == [];
    assert Without([n], ids) == [] && Without([y, n], ids) == [y] && Without([x, y, n], ids) == [x, y];
    assert Without(cells[1..], ids) == [x, y] && Without(cells, ids) == [x, y] && cells[..5] == cells;
  }

  /** Two chains that end alike: both alerts name the event they end in. */
  lemma {:induction false} SharedEndRepeats(cfg: Config)
    requires Pair(cfg, ["A", "C"], ["B", "C"])
    ensures Regular(cfg, Scene(["A", "B", "C"], 0), 2)
    ensures var alerts := Run(cfg, true, Scene(["A", "B", "C"], 0))[2];
            |alerts| == 2 && alerts[0].chainEvents == ["A", "C"] && alerts[1].chainEvents == ["B", "C"]
  {
    hide Run, Regular, Scene;
    SharedEndRegular(cfg);
    SharedEndAlerts(cfg);
  }

  lemma {:induction false} SharedEndRegular(cfg: Config)
    requires Pair(cfg, ["A", "C"], ["B", "C"])
    ensures Regular(cfg, Scene(["A", "B", "C"], 0), 2)
  {
    PairShort(cfg, 2);
    hide Short, Regular, Scene;
    SceneRegular(cfg, ["A", "B", "C"], 2);
  }

  lemma {:induction false} SharedEndAlerts(cfg: Config)
    requires Pair(cfg, ["A", "C"], ["B", "C"])
    ensures var alerts := Run(cfg, true, Scene(["A", "B", "C"], 0))[2];
            |alerts| == 2 && alerts[0].chainEvents == ["A", "C"] && alerts[1].chainEvents == ["B", "C"]
  {
    hide Run, Fire, Match, Quiet;
    var kinds, ids := ["A", "B", "C"], ["A", "C"];
    var a, b, c := Stamped("A", "A", 0), Stamped("B", "B", 1), Stamped("C", "C", 2);
    var cells, left := [a, b, c], [b, b, c];
    assert SceneCells(kinds) == cells;
    forall k | 0 < k <= 2 ensures forall i :: 0 <= i < 2 ==> Match(SceneCells(kinds[..k]), cfg.chains[i], k - 1).None? {
      QuietMissing(kinds, k, cfg.chains[0], 1);
      QuietMissing(kinds, k, cfg.chains[1], 1);
    }
    QuietBoth(cfg, kinds, 0, 2);
    MatchPair(cells, cfg.chains[0], 2, 0, 2);
    MatchPair(left, cfg.chains[1], 2, 0, 2);
    assert cells[1..] == [b, c] && [b, c][1..] == [c] && [c][1..] == [] && cells[..3] == cells;
    assert Without([c], ids) == [] && Without([b, c], ids) == [b] && Without(cells, ids) == [b];
    SceneAlerts(cfg, kinds, 0, ids, left, ["B", "C"]);
  }

  lemma {:induction false} PairShort(cfg: Config, bound: nat)
    requires |cfg.chains| == 2 && forall i :: 0 <= i < 2 ==> |cfg.chains[i].sequence| <= bound && NoRepeats(cfg.chains[i].sequence)
    ensures Short(cfg.chains, bound)
  {
    hide NoRepeats;
    assert forall c :: c in cfg.chains ==> c == cfg.chains[0] || c == cfg.chains[1];
  }

  lemma {:induction false} SceneRegular(cfg: Config, kinds: seq<string>, bound: nat)
    requires Short(cfg.chains, bound) && NoRepeats(kinds)
    ensures Regular(cfg, Scene(kinds, 0), bound)
  {
    hide Short;
  }

  /** A callback registered late: two types a chain are then not enough to keep the order. */
  lemma {:induction false} LateCallbackReorders(cfg: Config)
    requires Pair(cfg, ["A", "B"], ["Y", "X"])
    ensures var alerts := Run(cfg, true, Scene(["A", "B", "X", "Y"], 3))[3];
            |alerts| == 2 && alerts[0].chainEvents == ["A", "B"] && alerts[1].chainEvents == ["Y", "X"]
  {
    hide Run, Fire, Match, Quiet;
    var kinds, ids := ["A", "B", "X", "Y"], ["A", "B"];
    var a, b, x, y := Stamped("A", "A", 0), Stamped("B", "B", 1), Stamped("X", "X", 2), Stamped("Y", "Y", 3);
    var cells, left := [a, b, x, y], [x, y, x, y];
    assert SceneCells(kinds) == cells;
    QuietBoth(cfg, kinds, 3, 3);
    MatchPair(cells, cfg.chains[0], 3, 0, 1);
    MatchPair(left, cfg.chains[1], 3, 1, 2);
    assert cells[1..] == [b, x, y] && [b, x, y][1..] == [x, y] && [x, y][1..] == [y] && [y][1..] == [] && cells[..4] == cells;
    assert Without([y], ids) == [y] && Without([x, y], ids) == [x, y] && Without([b, x, y], ids) == [x, y];
    assert Without(cells, ids) == [x, y];
    SceneAlerts(cfg, kinds, 3, ids, left, ["Y", "X"]);
  }

  // ---------------------------------------------------------------- two types is the exact bound

  /** Whatever the chains of at most this length and the run, every alert is genuine. */
  ghost predicate Trustworthy(bound: nat) {
    forall cfg: Config, inputs: seq<Input>, i: nat, a: Alert ::
      i < |inputs| && Regular(cfg, inputs, bound) && a in Run(cfg, true, inputs)[i] ==>
        Genuine(a, cfg.chains, inputs[i].event, Log(inputs[..i + 1], inputs[i].event.source), inputs[i].Now())
  }

  lemma {:induction false} SceneLog(kinds: seq<string>, n: nat)
    requires n <= |kinds| && EVENT_ALERT !in kinds
    ensures Log(Scene(kinds, 0)[..n], "s") == SceneCells(kinds[..n])
    decreases n
  {
    if n > 0 {
      var inputs := Scene(kinds, 0);
      assert inputs[..n][..n - 1] == inputs[..n - 1] && kinds[n - 1] in kinds;
      SceneLog(kinds, n - 1);
      assert SceneCells(kinds[..n]) == SceneCells(kinds[..n - 1]) + [Stamp(inputs[n - 1])];
    }
  }

  /** A genuine alert of two events names them in the order of the log. */
  lemma {:induction false} GenuineInOrder(a: Alert, chains: seq<ChainRule>, e: Event, log: seq<Stamped>, now: int) returns (i: int, j: int)
    requires Genuine(a, chains, e, log, now) && |a.chainEvents| == 2
    ensures 0 <= i < j < |log| && log[i].id == a.chainEvents[0] && log[j].id == a.chainEvents[1]
  {
    var c, at :| c in chains && Reports(a, c, e, log, now, at);
    i, j := at[0], at[1];
  }

  lemma {:induction false} ReorderedIsNotGenuine(chains: seq<ChainRule>, a: Alert, e: Event, log: seq<Stamped>, now: int)
    requires a.chainEvents == ["Y", "X"] && log == SceneCells(["R", "S", "X", "Y", "N"])
    ensures !Genuine(a, chains, e, log, now)
  {
    hide Genuine;
    if Genuine(a, chains, e, log, now) {
      var i, j := GenuineInOrder(a, chains, e, log, now);
    }
  }

  /** Alerts can be trusted for all chains up to a length exactly when that length is at most two. */
  lemma {:induction false} TrustworthyIff(bound: nat)
    ensures Trustworthy(bound) <==> bound <= 2
  {
    hide Run, Genuine, Log, Short;
    if bound <= 2 {
      forall cfg: Config, inputs: seq<Input>, i: nat, a: Alert
        | i < |inputs| && Regular(cfg, inputs, bound) && a in Run(cfg, true, inputs)[i]
        ensures Genuine(a, cfg.chains, inputs[i].event, Log(inputs[..i + 1], inputs[i].event.source), inputs[i].Now())
      {
        RegularMore(cfg, inputs, bound, 2);
        EveryAlertGenuine(cfg, inputs, i, a);
      }
    } else {
      var first, second := ChainRule("1", "", "", MINUTE, ["R", "S", "N"]), ChainRule("2", "", "", MINUTE, ["Y", "X"]);
      var cfg, kinds := Config([first, second], MINUTE), ["R", "S", "X", "Y", "N"];
      var inputs := Scene(kinds, 0);
      PairShort(cfg, bound);
      SceneRegular(cfg, kinds, bound);
      StaleCellsReorder(cfg);
      SceneLog(kinds, 5);
      assert kinds[..5] == kinds;
      var i: nat, a := 4, Run(cfg, true, inputs)[4][1];
      ReorderedIsNotGenuine(cfg.chains, a, inputs[i].event, Log(inputs[..i + 1], inputs[i].event.source), inputs[i].Now());
      assert a in Run(cfg, true, inputs)[i];
    }
  }

  lemma RegularMore(cfg: Config, inputs: seq<Input>, bound: nat, more: nat)
    requires Regular(cfg, inputs, bound) && bound <= more
    ensures Regular(cfg, inputs, more)
  {}

  // ---------------------------------------------------------------- what eviction needs

  /** An event of the one source, with a callback. */
  function At(id: string, kind: string, time: int): Input {
    Input(Event(id, kind, "s", Some(time)), 0, true)
  }

  /** A call that matches nothing stores the cells it works on. */
  lemma {:induction false} QuietCall(cfg: Config, evict: bool, earlier: seq<Input>, next: Input, cells: seq<Stamped>)
    requires !Ignored(next.event) && Silent(cfg.chains, cells, next.Now())
    requires Extended(cfg, evict, WindowOf(WindowsAfter(cfg, evict, earlier), next.event.source), next.event, next.Now()) == cells
    ensures WindowOf(WindowsAfter(cfg, evict, earlier + [next]), next.event.source) == cells
  {
    assert (earlier + [next])[..|earlier|] == earlier;
    FirstMatchNone(cfg.chains, cells, next.Now());
    CallWithout(cfg, evict, WindowsAfter(cfg, evict, earlier), next);
    hide Observed, Extended, Match;
  }

  /** The last of these calls fires on these cells. */
  lemma {:induction false} LastCall(cfg: Config, evict: bool, earlier: seq<Input>, next: Input, cells: seq<Stamped>)
    requires !Ignored(next.event) && next.callback
    requires Extended(cfg, evict, WindowOf(WindowsAfter(cfg, evict, earlier), next.event.source), next.event, next.Now()) == cells
    ensures Run(cfg, evict, earlier + [next])[|earlier|] == Fire(cfg.chains, next.event, next.Now(), Buffer(cells, |cells|)).alerts
  {
    var inputs := earlier + [next];
    assert inputs[..|earlier|] == earlier && inputs[|earlier|] == next;
    RunAt(cfg, evict, inputs, |earlier|);
    hide Run, Extended, Fire, WindowsAfter;
  }

  lemma {:induction false} ExtendedOne(cfg: Config, evict: bool, old_: seq<Stamped>, gone: bool, next: Input)
    requires forall ev :: ev in old_ ==> if gone then ev.time <= next.Now() - cfg.maxAge else ev.time > next.Now() - cfg.maxAge
    ensures Extended(cfg, evict, old_, next.event, next.Now()) == (if evict && gone then [] else old_) + [Stamp(next)]
  {
    if gone {
      RecentNone(old_, next.Now() - cfg.maxAge);
    } else {
      RecentAll(old_, next.Now() - cfg.maxAge);
    }
  }

  lemma {:induction false} RecentNone(w: seq<Stamped>, cutoff: int)
    requires forall ev :: ev in w ==> ev.time <= cutoff
    ensures Recent(w, cutoff) == []
    decreases |w|
  {
    if w != [] {
      RecentNone(w[1..], cutoff);
    }
  }

  /** A clock that runs back: an event evicted by a later one is missing when time returns. */
  lemma {:induction false} BackwardClockVisible(cfg: Config, c: ChainRule)
    requires cfg.chains == [c] && c.sequence == ["A", "B"] && 0 <= c.window < cfg.maxAge
    ensures var inputs := [At("1", "A", 0), At("2", "X", cfg.maxAge), At("3", "B", 0)];
            UniqueIds(inputs) && Run(cfg, true, inputs)[2] == [] && Run(cfg, false, inputs)[2] != []
  {
    BackwardCall(cfg, true, c);
    BackwardCall(cfg, false, c);
  }

  lemma {:induction false} BackwardCall(cfg: Config, evict: bool, c: ChainRule)
    requires cfg.chains == [c] && c.sequence == ["A", "B"] && 0 <= c.window < cfg.maxAge
    ensures Run(cfg, evict, [At("1", "A", 0), At("2", "X", cfg.maxAge), At("3", "B", 0)])[2] == [] <==> evict
  {
    var x, y, z := At("1", "A", 0), At("2", "X", cfg.maxAge), At("3", "B", 0);
    var two := if evict then [Stamp(y)] else [Stamp(x), Stamp(y)];
    var cells := two + [Stamp(z)];
    hide Run, WindowsAfter, Extended, Match, Fire;
    BackwardStored(cfg, evict, c);
    LastCall(cfg, evict, [x, y], z, cells);
    assert [x, y] + [z] == [x, y, z];
    FiresAlone(c, z.event, 0, cells);
    if evict {
      NoPair(cells, c, 0);
    } else {
      MatchPair(cells, c, 0, 0, 2);
    }
  }

  lemma {:induction false} BackwardStored(cfg: Config, evict: bool, c: ChainRule)
    requires cfg.chains == [c] && c.sequence == ["A", "B"] && 0 < cfg.maxAge
    ensures var x, y, z := At("1", "A", 0), At("2", "X", cfg.maxAge), At("3", "B", 0);
            Extended(cfg, evict, WindowOf(WindowsAfter(cfg, evict, [x, y]), "s"), z.event, 0)
            == (if evict then [Stamp(y)] else [Stamp(x), Stamp(y)]) + [Stamp(z)]
  {
    var x, y, z := At("1", "A", 0), At("2", "X", cfg.maxAge), At("3", "B", 0);
    var two := if evict then [Stamp(y)] else [Stamp(x), Stamp(y)];
    StartsEmpty(cfg, evict);
    hide WindowsAfter, Extended, Match;
    assert [] + [x] == [x] && [x] + [y] == [x, y];
    ExtendedOne(cfg, evict, [], false, x);
    NoPair([Stamp(x)], c, 0);
    QuietCall(cfg, evict, [], x, [Stamp(x)]);
    ExtendedOne(cfg, evict, [Stamp(x)], true, y);
    NoPair(two, c, cfg.maxAge);
    QuietCall(cfg, evict, [x], y, two);
    ExtendedOne(cfg, evict, two, false, z);
  }

  lemma StartsEmpty(cfg: Config, evict: bool)
    ensures WindowOf(WindowsAfter(cfg, evict, []), "s") == []
  {}

  lemma {:induction false} FiresAlone(c: ChainRule, e: Event, now: int, cells: seq<Stamped>)
    ensures Fire([c], e, now, Buffer(cells, |cells|)).alerts == [] <==> Match(cells, c, now).None?
  {
    FireStarts([c], e, now, Buffer(cells, |cells|));
    hide Fire, Match;
    assert [c][1..] == [] && FirstMatch([c][1..], cells, now).None?;
  }

  /** Repeated IDs: clearing an event also clears an evicted one of the same ID, and with it moves other cells. */
  lemma {:induction false} RepeatedIdVisible(cfg: Config, c: ChainRule, d: ChainRule)
    requires cfg.chains == [c, d] && c.sequence == ["A", "T"] && d.sequence == ["B", "A"]
    requires 0 <= c.window < cfg.maxAge && 0 <= d.window < cfg.maxAge
    ensures var t := cfg.maxAge;
            var inputs := [At("1", "D", 0), At("1", "A", t), At("2", "B", t), At("3", "T", t)];
            Forward(inputs) && |Run(cfg, true, inputs)[3]| == 1 && |Run(cfg, false, inputs)[3]| == 2
  {
    RepeatedIdCall(cfg, true, c, d);
    RepeatedIdCall(cfg, false, c, d);
  }

  lemma {:induction false} RepeatedIdCall(cfg: Config, evict: bool, c: ChainRule, d: ChainRule)
    requires cfg.chains == [c, d] && c.sequence == ["A", "T"] && d.sequence == ["B", "A"]
    requires 0 <= c.window < cfg.maxAge && 0 <= d.window < cfg.maxAge
    ensures var t := cfg.maxAge;
            |Run(cfg, evict, [At("1", "D", 0), At("1", "A", t), At("2", "B", t), At("3", "T", t)])[3]| == if evict then 1 else 2
  {
    var t := cfg.maxAge;
    var o, x, y, z := At("1", "D", 0), At("1", "A", t), At("2", "B", t), At("3", "T", t);
    hide Run, WindowsAfter, Extended, Match, Fire;
    RepeatedIdStored(cfg, evict, c, d);
    var dead := if evict then [] else [Stamp(o)];
    LastCall(cfg, evict, [o, x, y], z, dead + [Stamp(x), Stamp(y), Stamp(z)]);
    assert [o, x, y] + [z] == [o, x, y, z];
    RepeatedIdFires(c, d, z.event, t, dead, Stamp(x), Stamp(y), Stamp(z));
  }

  lemma {:induction false} RepeatedIdFires(c: ChainRule, d: ChainRule, e: Event, t: int,
                                           dead: seq<Stamped>, x: Stamped, y: Stamped, z: Stamped)
    requires c.sequence == ["A", "T"] && d.sequence == ["B", "A"] && c.window >= 0 && d.window >= 0
    requires |dead| <= 1 && forall ev :: ev in dead ==> ev.id == "1" && ev.kind == "D"
    requires x == Stamped("1", "A", t) && y == Stamped("2", "B", t) && z == Stamped("3", "T", t)
    ensures var cells := dead + [x, y, z];
            |Fire([c, d], e, t, Buffer(cells, |cells|)).alerts| == if dead == [] then 1 else 2
  {
    hide Match, Fire;
    var cells := dead + [x, y, z];
    var left := [y] + cells[1..];
    MatchPair(cells, c, t, |dead|, |dead| + 2);
    RepeatedIdCleared(dead, x, y, z);
    FireTwo(c, d, e, t, cells, ["1", "3"], left);
    if dead == [] {
      NoPair(left, d, t);
    } else {
      MatchPair(left, d, t, 0, 1);
    }
  }

  lemma {:induction false} RepeatedIdCleared(dead: seq<Stamped>, x: Stamped, y: Stamped, z: Stamped)
    requires x.id == "1" && y.id == "2" && z.id == "3" && |dead| <= 1 && forall ev :: ev in dead ==> ev.id == "1"
    ensures var cells := dead + [x, y, z]; Buffer(cells, |cells|).Clear(["1", "3"]).cells == [y] + cells[1..]
  {
    var ids, cells, tail := ["1", "3"], dead + [x, y, z], [x, y, z];
    assert tail[1..] == [y, z] && [y, z][1..] == [z] && [z][1..] == [] && cells[..|cells|] == cells;
    assert Without([z], ids) == [] && Without([y, z], ids) == [y] && Without(tail, ids) == [y];
    assert dead != [] ==> cells[1..] == tail;
    assert dead == [] ==> cells == tail;
  }

  lemma {:induction false} RepeatedIdStored(cfg: Config, evict: bool, c: ChainRule, d: ChainRule)
    requires cfg.chains == [c, d] && c.sequence == ["A", "T"] && d.sequence == ["B", "A"] && 0 < cfg.maxAge
    ensures var t := cfg.maxAge;
            var o, x, y, z := At("1", "D", 0), At("1", "A", t), At("2", "B", t), At("3", "T", t);
            Extended(cfg, evict, WindowOf(WindowsAfter(cfg, evict, [o, x, y]), "s"), z.event, t)
            == (if evict then [] else [Stamp(o)]) + [Stamp(x), Stamp(y), Stamp(z)]
  {
    var t := cfg.maxAge;
    var o, x, y, z := At("1", "D", 0), At("1", "A", t), At("2", "B", t), At("3", "T", t);
    RepeatedIdBefore(cfg, evict, c, d);
    hide WindowsAfter, Extended, Match;
    var dead, two := if evict then [] else [Stamp(o)], [Stamp(x), Stamp(y)];
    assert [o, x] + [y] == [o, x, y] && [Stamp(x)] + [Stamp(y)] == two && two + [Stamp(z)] == [Stamp(x), Stamp(y), Stamp(z)];
    ExtendedMixed(cfg, evict, dead, [Stamp(x)], y);
    SilentBoth(cfg.chains, dead + two, t);
    QuietCall(cfg, evict, [o, x], y, dead + two);
    ExtendedMixed(cfg, evict, dead, two, z);
  }

  lemma {:induction false} RepeatedIdBefore(cfg: Config, evict: bool, c: ChainRule, d: ChainRule)
    requires cfg.chains == [c, d] && c.sequence == ["A", "T"] && d.sequence == ["B", "A"] && 0 < cfg.maxAge
    ensures var o, x := At("1", "D", 0), At("1", "A", cfg.maxAge);
            WindowOf(WindowsAfter(cfg, evict, [o, x]), "s") == (if evict then [] else [Stamp(o)]) + [Stamp(x)]
  {
    var o, x := At("1", "D", 0), At("1", "A", cfg.maxAge);
    StartsEmpty(cfg, evict);
    hide WindowsAfter, Extended, Match;
    var dead := if evict then [] else [Stamp(o)];
    assert [] + [o] == [o] && [o] + [x] == [o, x];
    ExtendedOne(cfg, evict, [], false, o);
    SilentBoth(cfg.chains, [Stamp(o)], 0);
    QuietCall(cfg, evict, [], o, [Stamp(o)]);
    ExtendedOne(cfg, evict, [Stamp(o)], true, x);
    SilentBoth(cfg.chains, dead + [Stamp(x)], cfg.maxAge);
    QuietCall(cfg, evict, [o], x, dead + [Stamp(x)]);
  }

  /** Without eviction old events stay; with it there are none left. */
  lemma {:induction false} ExtendedMixed(cfg: Config, evict: bool, dead: seq<Stamped>, young: seq<Stamped>, next: Input)
    requires (evict ==> dead == []) && forall ev :: ev in young ==> ev.time > next.Now() - cfg.maxAge
    ensures Extended(cfg, evict, dead + young, next.event, next.Now()) == dead + (young + [Stamp(next)])
  {
    RecentAll(young, next.Now() - cfg.maxAge);
    hide Recent;
    assert dead == [] ==> dead + young == young;
  }

  lemma {:induction false} SilentBoth(chains: seq<ChainRule>, w: seq<Stamped>, now: int)
    requires |chains| == 2 && |chains[0].sequence| == |chains[1].sequence| == 2
    requires forall i, j :: 0 <= i < j < |w| ==>
               && (w[i].kind != chains[0].sequence[0] || w[j].kind != chains[0].sequence[1])
               && (w[i].kind != chains[1].sequence[0] || w[j].kind != chains[1].sequence[1])
    ensures Silent(chains, w, now)
  {
    hide Match;
    NoPair(w, chains[0], now);
    NoPair(w, chains[1], now);
    assert forall c :: c in chains ==> c == chains[0] || c == chains[1];
  }
}
