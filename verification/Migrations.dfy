/**
  Schema migrations (internal/storage/migrations/migrations.go, runner.go).

  The database is the persisted applied ID together with the set of migrations whose effect it
  holds; each migration body and the new applied ID are written in one transaction, which commits
  or fails as a whole.
 */
module Migrations {

  datatype Migration = Migration(id: nat, description: string, hasUp: bool, hasDown: bool)

  datatype Db = Db(applied: nat, inEffect: set<nat>)

  // ---------------------------------------------------------------- the registry

  /** Registration panics on a duplicate. */
  ghost predicate Registry(reg: seq<Migration>) {
    forall i, j :: 0 <= i < j < |reg| ==> reg[i].id != reg[j].id
  }

  /** Strictly increasing identifiers, above a bound. */
  ghost predicate Ordered(ms: seq<Migration>, above: int) {
    && (forall i :: 0 <= i < |ms| ==> ms[i].id > above)
    && (forall i, j :: 0 <= i < j < |ms| ==> ms[i].id < ms[j].id)
  }

  function Insert(m: Migration, ms: seq<Migration>): seq<Migration> {
    if ms == [] || m.id < ms[0].id then [m] + ms else [ms[0]] + Insert(m, ms[1..])
  }

  /** The registered migrations in order of identifier. */
  function All(reg: seq<Migration>): seq<Migration> {
    if reg == [] then [] else Insert(reg[0], All(reg[1..]))
  }

  lemma {:induction false} InsertOrders(m: Migration, ms: seq<Migration>, above: int)
    requires Ordered(ms, above) && m.id > above && forall x :: x in ms ==> x.id != m.id
    ensures Ordered(Insert(m, ms), above) && forall x :: x in Insert(m, ms) <==> x == m || x in ms
    decreases |ms|
  {
    if ms != [] && m.id >= ms[0].id {
      assert ms[0] in ms;
      assert Ordered(ms[1..], ms[0].id);
      InsertOrders(m, ms[1..], ms[0].id);
      assert ms == [ms[0]] + ms[1..];
    }
  }

  lemma {:induction false} AllOrders(reg: seq<Migration>)
    requires Registry(reg)
    ensures Ordered(All(reg), -1) && forall m :: m in All(reg) <==> m in reg
    decreases |reg|
  {
    if reg != [] {
      AllOrders(reg[1..]);
      assert reg == [reg[0]] + reg[1..];
      assert reg[0] in reg;
      forall x | x in All(reg[1..]) ensures x.id != reg[0].id {
        assert x in reg[1..];
        var j :| 0 <= j < |reg[1..]| && reg[1..][j] == x;
        assert reg[j + 1] == x;
      }
      InsertOrders(reg[0], All(reg[1..]), -1);
    }
  }

  /** The linear duplicate scan of Register; the panic is the refusal. */
  method Register(reg: seq<Migration>, m: Migration) returns (ok: bool, reg': seq<Migration>)
    requires Registry(reg)
    ensures ok <==> forall x :: x in reg ==> x.id != m.id
    ensures ok ==> Registry(reg') && reg' == reg + [m]
    ensures !ok ==> reg' == reg
  {
    for i := 0 to |reg|
      invariant forall j :: 0 <= j < i ==> reg[j].id != m.id
    {
      if reg[i].id == m.id {
        assert reg[i] in reg;
        return false, reg;
      }
    }
    return true, reg + [m];
  }

  // ---------------------------------------------------------------- status

  function Pending(all: seq<Migration>, applied: nat): seq<Migration> {
    if all == [] then []
    else if all[0].id > applied then [all[0]] + Pending(all[1..], applied)
    else Pending(all[1..], applied)
  }

  function Available(all: seq<Migration>): nat {
    if all == [] then 0 else all[|all| - 1].id
  }

  lemma {:induction false} PendingAll(ms: seq<Migration>, applied: nat)
    requires forall i :: 0 <= i < |ms| ==> ms[i].id > applied
    ensures Pending(ms, applied) == ms
    decreases |ms|
  {
    if ms != [] {
      PendingAll(ms[1..], applied);
    }
  }

  /** The pending migrations are a final stretch of the ordered list. */
  lemma {:induction false} PendingSuffix(all: seq<Migration>, above: int, applied: nat)
    requires Ordered(all, above)
    ensures var p := Pending(all, applied);
            && |p| <= |all| && p == all[|all| - |p|..]
            && Ordered(p, applied)
            && forall i :: 0 <= i < |all| - |p| ==> all[i].id <= applied
    decreases |all|
  {
    if all != [] {
      if all[0].id > applied {
        assert forall i :: 0 < i < |all| ==> all[0].id < all[i].id;
        PendingAll(all, applied);
      } else {
        assert Pending(all, applied) == Pending(all[1..], applied);
        PendingSuffix(all[1..], all[0].id, applied);
        hide *;
        SuffixOfTail(all, Pending(all[1..], applied), applied);
      }
    }
  }

  lemma {:induction false} SuffixOfTail(all: seq<Migration>, p: seq<Migration>, applied: nat)
    requires |p| < |all| && all[0].id <= applied && p == all[1..][|all| - 1 - |p|..]
    requires forall i :: 0 <= i < |all| - 1 - |p| ==> all[1..][i].id <= applied
    ensures p == all[|all| - |p|..] && forall i :: 0 <= i < |all| - |p| ==> all[i].id <= applied
  {
    forall i | 0 <= i < |all| - |p| ensures all[i].id <= applied {
      if i > 0 {
        assert all[i] == all[1..][i - 1];
      }
    }
  }

  lemma {:induction false} PendingNext(all: seq<Migration>, above: int, applied: nat)
    requires Ordered(all, above) && Pending(all, applied) != []
    ensures var p := Pending(all, applied); p[0].id > applied && Pending(all, p[0].id) == p[1..]
    decreases |all|
  {
    if all[0].id > applied {
      assert forall i :: 0 < i < |all| ==> all[0].id < all[i].id;
      PendingAll(all, applied);
      PendingAll(all[1..], all[0].id);
    } else {
      PendingNext(all[1..], all[0].id, applied);
    }
  }

  // ---------------------------------------------------------------- running up

  /** Applies pending migrations until one has no Up or fails to commit. */
  function Climb(db: Db, pending: seq<Migration>, commits: nat -> bool): Db
    decreases |pending|
  {
    if pending == [] || !pending[0].hasUp || !commits(pending[0].id) then db
    else Climb(Db(pending[0].id, db.inEffect + {pending[0].id}), pending[1..], commits)
  }

  function RanUp(db: Db, all: seq<Migration>, commits: nat -> bool): Db {
    if db.applied > Available(all) then db else Climb(db, Pending(all, db.applied), commits)
  }

  ghost predicate Registered(all: seq<Migration>, id: nat) {
    exists m :: m in all && m.id == id
  }

  /** The migrations in effect are the registered ones up to the applied ID; an ID of zero is never pending. */
  ghost predicate Consistent(db: Db, all: seq<Migration>) {
    forall id :: id in db.inEffect <==> 0 < id <= db.applied && Registered(all, id)
  }

  lemma {:induction false} ClimbKeeps(db: Db, all: seq<Migration>, commits: nat -> bool)
    requires Ordered(all, -1) && Consistent(db, all)
    ensures Consistent(Climb(db, Pending(all, db.applied), commits), all)
    decreases |Pending(all, db.applied)|
  {
    var p := Pending(all, db.applied);
    if p != [] && p[0].hasUp && commits(p[0].id) {
      var next := Db(p[0].id, db.inEffect + {p[0].id});
      StepKeeps(db, all, next);
      PendingNext(all, -1, db.applied);
      hide Pending, Consistent;
      ClimbKeeps(next, all, commits);
    }
  }

  lemma {:induction false} StepKeeps(db: Db, all: seq<Migration>, next: Db)
    requires Ordered(all, -1) && Consistent(db, all) && Pending(all, db.applied) != []
    requires var m := Pending(all, db.applied)[0]; next == Db(m.id, db.inEffect + {m.id})
    ensures Consistent(next, all)
  {
    var p := Pending(all, db.applied);
    PendingSuffix(all, -1, db.applied);
    hide Pending;
    var k := |all| - |p|;
    assert all[k] == p[0] && p[0] in all;
    forall id ensures id in next.inEffect <==> 0 < id <= next.applied && Registered(all, id) {
      if 0 < id <= next.applied && Registered(all, id) {
        var m :| m in all && m.id == id;
        var i :| 0 <= i < |all| && all[i] == m;
        assert i <= k;
      }
    }
  }

  /** A run that was interrupted and then retried ends where an uninterrupted one does. */
  lemma {:induction false} RetryCompletes(db: Db, all: seq<Migration>, commits: nat -> bool, always: nat -> bool)
    requires Ordered(all, -1) && forall id :: always(id)
    ensures var once := Climb(db, Pending(all, db.applied), commits);
            Climb(once, Pending(all, once.applied), always) == Climb(db, Pending(all, db.applied), always)
    decreases |Pending(all, db.applied)|
  {
    var p := Pending(all, db.applied);
    if p != [] {
      if p[0].hasUp && commits(p[0].id) {
        var next := Db(p[0].id, db.inEffect + {p[0].id});
        PendingNext(all, -1, db.applied);
        RetryCompletes(next, all, commits, always);
      }
    }
  }

  lemma {:induction false} RanUpOnce(db: Db, all: seq<Migration>, commits: nat -> bool, always: nat -> bool)
    requires Ordered(all, -1) && forall id :: always(id)
    ensures RanUp(RanUp(db, all, commits), all, always) == RanUp(db, all, always)
  {
    if db.applied <= Available(all) {
      RetryCompletes(db, all, commits, always);
      ClimbBounded(db, all, commits);
    }
  }

  /** One run after the other, each stopped wherever its transactions fail. */
  function RanUps(db: Db, all: seq<Migration>, attempts: seq<nat -> bool>): Db
    decreases |attempts|
  {
    if |attempts| == 0 then db else RanUps(RanUp(db, all, attempts[0]), all, attempts[1..])
  }

  /** Any number of interrupted runs and then a complete one end where a single complete run does. */
  lemma {:induction false} RanUpRetry(db: Db, all: seq<Migration>, attempts: seq<nat -> bool>, always: nat -> bool)
    requires Ordered(all, -1) && forall id :: always(id)
    ensures RanUp(RanUps(db, all, attempts), all, always) == RanUp(db, all, always)
    decreases |attempts|
  {
    hide RanUp, Ordered;
    if |attempts| > 0 {
      RanUpOnce(db, all, attempts[0], always);
      RanUpRetry(RanUp(db, all, attempts[0]), all, attempts[1..], always);
    }
  }

  lemma {:induction false} ClimbBounded(db: Db, all: seq<Migration>, commits: nat -> bool)
    requires Ordered(all, -1) && db.applied <= Available(all)
    ensures Climb(db, Pending(all, db.applied), commits).applied <= Available(all)
    decreases |Pending(all, db.applied)|
  {
    var p := Pending(all, db.applied);
    if p != [] && p[0].hasUp && commits(p[0].id) {
      PendingSuffix(all, -1, db.applied);
      assert p[0] == all[|all| - |p|];
      PendingNext(all, -1, db.applied);
      hide Pending;
      ClimbBounded(Db(p[0].id, db.inEffect + {p[0].id}), all, commits);
    }
  }

  lemma {:induction false} NothingPendingIffCurrent(all: seq<Migration>, applied: nat)
    requires Ordered(all, -1) && applied <= Available(all)
    ensures Pending(all, applied) == [] <==> applied == Available(all)
  {
    PendingSuffix(all, -1, applied);
    var p := Pending(all, applied);
    hide Pending;
    if p != [] {
      assert p[|p| - 1] == all[|all| - 1];
    }
  }

  /** What RunUp leaves behind, in terms of the registry. */
  ghost predicate ClimbedTo(db: Db, next: Db, all: seq<Migration>, commits: nat -> bool) {
    && db.applied <= next.applied && (next.applied == db.applied || Registered(all, next.applied))
    && (forall id: nat :: id in next.inEffect <==> id in db.inEffect || (Registered(all, id) && db.applied < id <= next.applied))
    && (forall m :: m in all && db.applied < m.id <= next.applied ==> m.hasUp && commits(m.id))
    && (next.applied == Available(all) || exists m :: StopsAt(all, next.applied, m, commits))
  }

  /** The next migration in order has no Up or does not commit. */
  ghost predicate StopsAt(all: seq<Migration>, applied: nat, m: Migration, commits: nat -> bool) {
    m in all && m.id > applied && (!m.hasUp || !commits(m.id)) && forall o :: o in all && o.id > applied ==> m.id <= o.id
  }

  lemma {:induction false} FirstPending(all: seq<Migration>, applied: nat)
    requires Ordered(all, -1) && Pending(all, applied) != []
    ensures var m := Pending(all, applied)[0];
            m in all && m.id > applied && forall o :: o in all && o.id > applied ==> m.id <= o.id
  {
    PendingSuffix(all, -1, applied);
    var p := Pending(all, applied);
    hide Pending;
    var k := |all| - |p|;
    assert all[k] == p[0];
    forall o | o in all && o.id > applied ensures p[0].id <= o.id {
      var i :| 0 <= i < |all| && all[i] == o;
      assert i >= k;
    }
  }

  /**
    RunUp applies the registered migrations in order, each exactly once, and stops only at the
    highest one or in front of one that has no Up or does not commit.
   */
  lemma {:induction false} RanUpMeans(db: Db, all: seq<Migration>, commits: nat -> bool)
    requires Ordered(all, -1) && db.applied <= Available(all)
    ensures ClimbedTo(db, RanUp(db, all, commits), all, commits)
    decreases |Pending(all, db.applied)|
  {
    var p := Pending(all, db.applied);
    NothingPendingIffCurrent(all, db.applied);
    if p != [] {
      FirstPending(all, db.applied);
      var m := p[0];
      if m.hasUp && commits(m.id) {
        var next := Db(m.id, db.inEffect + {m.id});
        ClimbNext(db, all, p, commits);
        hide Pending, Climb;
        RanUpMeans(next, all, commits);
        ClimbedOne(db, next, RanUp(next, all, commits), all, m, commits);
      } else {
        assert StopsAt(all, db.applied, m, commits);
      }
    }
  }

  lemma {:induction false} ClimbedOne(db: Db, next: Db, end: Db, all: seq<Migration>, m: Migration, commits: nat -> bool)
    requires Ordered(all, -1) && ClimbedTo(next, end, all, commits) && next == Db(m.id, db.inEffect + {m.id})
    requires m in all && m.id > db.applied && m.hasUp && commits(m.id)
    requires forall o :: o in all && o.id > db.applied ==> m.id <= o.id
    ensures ClimbedTo(db, end, all, commits)
  {
    hide StopsAt;
    assert Registered(all, m.id);
    forall o | o in all && db.applied < o.id <= end.applied ensures o.hasUp && commits(o.id) {
      if o.id == m.id {
        SameId(all, o, m);
      }
    }
    forall id: nat ensures id in end.inEffect <==> id in db.inEffect || (Registered(all, id) && db.applied < id <= end.applied) {
      if Registered(all, id) && db.applied < id {
        var o :| o in all && o.id == id;
      }
    }
  }

  lemma SameId(all: seq<Migration>, o: Migration, m: Migration)
    requires Ordered(all, -1) && o in all && m in all && o.id == m.id
    ensures o == m
  {
    var i :| 0 <= i < |all| && all[i] == o;
    var j :| 0 <= j < |all| && all[j] == m;
  }

  // ---------------------------------------------------------------- running down

  /** The highest identifier below a given one, or zero. */
  function Below(all: seq<Migration>, id: nat): nat {
    if all == [] then 0
    else
      var rest := Below(all[..|all| - 1], id);
      var m := all[|all| - 1].id;
      if m < id && m > rest then m else rest
  }

  lemma {:induction false} BelowIsHighest(all: seq<Migration>, id: nat)
    ensures Below(all, id) < id || Below(all, id) == 0
    ensures Below(all, id) == 0 || exists m :: m in all && m.id == Below(all, id)
    ensures forall m :: m in all && m.id < id ==> m.id <= Below(all, id)
    decreases |all|
  {
    if all != [] {
      var front, last := all[..|all| - 1], all[|all| - 1];
      BelowIsHighest(front, id);
      assert all == front + [last];
    }
  }

  ghost predicate Reverts(all: seq<Migration>, id: nat) {
    exists m :: m in all && m.id == id && m.hasDown
  }

  ghost function RanDown(db: Db, all: seq<Migration>, commits: bool): Db {
    if db.applied == 0 || !Reverts(all, db.applied) || !commits then db
    else Db(Below(all, db.applied), db.inEffect - {db.applied})
  }

  lemma {:induction false} DownKeeps(db: Db, all: seq<Migration>, commits: bool)
    requires Consistent(db, all)
    ensures Consistent(RanDown(db, all, commits), all)
  {
    BelowIsHighest(all, db.applied);
    hide Below;
  }

  // ---------------------------------------------------------------- whole runs

  datatype Op = Up(upCommits: nat -> bool) | Down(downCommits: bool) | Boot(auto: bool, bootCommits: nat -> bool)

  ghost function Step(all: seq<Migration>, db: Db, op: Op): Db {
    match op
    case Up(commits) => RanUp(db, all, commits)
    case Down(commits) => RanDown(db, all, commits)
    case Boot(auto, commits) => if auto then RanUp(db, all, commits) else db
  }

  ghost function Run(all: seq<Migration>, ops: seq<Op>): Db {
    if ops == [] then Db(0, {}) else Step(all, Run(all, ops[..|ops| - 1]), ops[|ops| - 1])
  }

  /** Whatever steps fail, the database holds exactly the migrations up to the applied ID. */
  lemma {:induction false} RunConsistent(all: seq<Migration>, ops: seq<Op>)
    requires Ordered(all, -1)
    ensures Consistent(Run(all, ops), all)
    decreases |ops|
  {
    if ops != [] {
      var db, op := Run(all, ops[..|ops| - 1]), ops[|ops| - 1];
      RunConsistent(all, ops[..|ops| - 1]);
      hide Consistent, Climb, RanDown;
      match op
      case Up(commits) => ClimbKeeps(db, all, commits);
      case Down(commits) => DownKeeps(db, all, commits);
      case Boot(auto, commits) => ClimbKeeps(db, all, commits);
    }
  }

  // ---------------------------------------------------------------- the runner

  datatype Outcome = Done | DowngradeDetected | PendingMigrations | Failed

  class Database {
    var db: Db

    constructor ()
      ensures db == Db(0, {})
    {
      db := Db(0, {});
    }

    /** bucket says whether the transaction that ensures the schema bucket commits. */
    method RunUp(all: seq<Migration>, bucket: bool, commits: nat -> bool) returns (last: nat, r: Outcome)
      requires Ordered(all, -1)
      modifies this
      ensures db == if bucket then RanUp(old(db), all, commits) else old(db)
      ensures r == Done <==> bucket && old(db).applied <= Available(all) && db.applied == Available(all)
      ensures r == Done ==> last == db.applied
      ensures r == DowngradeDetected <==> bucket && old(db).applied > Available(all)
      ensures r != PendingMigrations
    {
      last := 0;
      if !bucket {
        return 0, Failed;
      }
      var pending := Pending(all, db.applied);
      NothingPending(all, db.applied);
      hide Pending, Climb;
      if db.applied > Available(all) {
        return 0, DowngradeDetected;
      }
      if |pending| == 0 {
        ClimbNothing(db, commits);
        return db.applied, Done;
      }
      ghost var goal := Climb(db, pending, commits);
      assert pending[0..] == pending;
      for i := 0 to |pending|
        invariant Climb(db, pending[i..], commits) == goal
        invariant db.applied <= Available(all) && pending[i..] == Pending(all, db.applied)
        invariant i > 0 ==> last == db.applied
      {
        var m := pending[i];
        ClimbNext(db, all, pending[i..], commits);
        assert pending[i..][0] == m && pending[i..][1..] == pending[i + 1..];
        if !m.hasUp {
          NothingPending(all, db.applied);
          return last, Failed;
        }
        if !commits(m.id) {
          NothingPending(all, db.applied);
          return last, Failed;
        }
        db := Db(m.id, db.inEffect + {m.id});
        last := m.id;
      }
      ClimbNothing(db, commits);
      NothingPending(all, db.applied);
      return last, Done;
    }

    /** The schema bucket is ensured here and once more by RunUp. */
    method CheckBoot(all: seq<Migration>, bucket: bool, auto: bool, bucketAgain: bool, commits: nat -> bool) returns (r: Outcome)
      requires Ordered(all, -1)
      modifies this
      ensures db == if bucket && auto && bucketAgain then RanUp(old(db), all, commits) else old(db)
      ensures r == Done <==> bucket && old(db).applied <= Available(all) && db.applied == Available(all)
      ensures r == DowngradeDetected <==> bucket && old(db).applied > Available(all)
      ensures r == PendingMigrations <==> bucket && old(db).applied < Available(all) && !auto
    {
      if !bucket {
        return Failed;
      }
      NothingPending(all, db.applied);
      var pending := Pending(all, db.applied);
      if db.applied > Available(all) {
        return DowngradeDetected;
      }
      if |pending| == 0 {
        ClimbNothing(db, commits);
        return Done;
      }
      if !auto {
        return PendingMigrations;
      }
      var last;
      last, r := RunUp(all, bucketAgain, commits);
    }

    method RunDown(all: seq<Migration>, commits: bool) returns (newApplied: nat, r: Outcome)
      requires Ordered(all, -1)
      modifies this
      ensures db == RanDown(old(db), all, commits)
      ensures r == Done <==> old(db).applied != 0 && Reverts(all, old(db).applied) && commits
      ensures newApplied == db.applied
      ensures r != Done ==> db == old(db)
      ensures r == Done ==> newApplied < old(db).applied && (newApplied == 0 || Registered(all, newApplied))
      ensures r == Done ==> forall m :: m in all && m.id < old(db).applied ==> m.id <= newApplied
      ensures r == Done ==> forall id :: id in db.inEffect <==> id in old(db).inEffect && id != old(db).applied
    {
      if db.applied == 0 {
        return 0, Failed;
      }
      var found, target := false, Migration(0, "", false, false);
      for i := 0 to |all|
        invariant found <==> exists j :: 0 <= j < i && all[j].id == db.applied
        invariant found ==> target in all && target.id == db.applied
      {
        if all[i].id == db.applied && !found {
          found, target := true, all[i];
        }
      }
      assert found ==> forall m :: m in all && m.id == db.applied ==> m == target;
      if !found || !target.hasDown {
        return db.applied, Failed;
      }
      newApplied := 0;
      for i := 0 to |all|
        invariant newApplied == Below(all[..i], target.id)
      {
        assert all[..i + 1][..i] == all[..i];
        if all[i].id < target.id && all[i].id > newApplied {
          newApplied := all[i].id;
        }
      }
      assert all[..|all|] == all;
      if !commits {
        return db.applied, Failed;
      }
      BelowIsHighest(all, target.id);
      db := Db(newApplied, db.inEffect - {target.id});
      return newApplied, Done;
    }
  }

  lemma {:induction false} ClimbNothing(db: Db, commits: nat -> bool)
    ensures Climb(db, [], commits) == db
  {}

  /** What a status snapshot says. */
  lemma {:induction false} NothingPending(all: seq<Migration>, applied: nat)
    requires Ordered(all, -1)
    ensures applied <= Available(all) ==> (Pending(all, applied) == [] <==> applied == Available(all))
  {
    if applied <= Available(all) {
      NothingPendingIffCurrent(all, applied);
    }
  }

  lemma {:induction false} ClimbNext(db: Db, all: seq<Migration>, pending: seq<Migration>, commits: nat -> bool)
    requires Ordered(all, -1) && pending == Pending(all, db.applied) && pending != []
    ensures var m := pending[0];
            && pending[1..] == Pending(all, m.id) && m.id <= Available(all)
            && Climb(db, pending, commits)
               == if m.hasUp && commits(m.id) then Climb(Db(m.id, db.inEffect + {m.id}), pending[1..], commits) else db
  {
    PendingNext(all, -1, db.applied);
    PendingSuffix(all, -1, db.applied);
    assert pending[0] == all[|all| - |pending|];
  }
}
