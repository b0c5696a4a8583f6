/** The kernel's named counting semaphores: value, recorded holder and the queue of
    blocked processes; and what any run of waits and posts on one of them comes to. */
module Semaphores {
  import opened Base

  const NOBODY: int := -1

  datatype Sem = Sem(id: string, val: int, takenBy: int, blocked: seq<int>)

  /** sem_kernel_wait2: true if the caller blocks. */
  function Waited(s: Sem, pid: int): (Sem, bool) {
    var v := s.val - 1;
    if v == 0 then (s.(val := v, takenBy := pid), false)
    else if v < 0 then (s.(val := v, blocked := s.blocked + [pid]), true)
    else (s.(val := v), false)
  }

  /** sem_kernel_post: the process that wakes, if any. */
  function Posted(s: Sem): (Sem, Option<int>) {
    var v := s.val + 1;
    var s' := s.(val := v, takenBy := if v >= 1 then NOBODY else s.takenBy);
    if s.blocked == [] then (s', None) else (s'.(blocked := s.blocked[1..]), Some(s.blocked[0]))
  }

  /** No two semaphores have the same name. */
  ghost predicate UniqueIds(sems: seq<Sem>) {
    forall i, j :: 0 <= i < j < |sems| ==> sems[i].id != sems[j].id
  }

  /** The position of a semaphore, or -1. */
  ghost function Named(sems: seq<Sem>, id: string): (k: int)
    ensures -1 <= k < |sems| && (k >= 0 ==> sems[k].id == id)
    ensures forall i :: 0 <= i < (if k < 0 then |sems| else k) ==> sems[i].id != id
  {
    if sems == [] then -1
    else if sems[0].id == id then 0
    else var k := Named(sems[1..], id); if k < 0 then -1 else k + 1
  }

  class Kernel {
    var sems: seq<Sem>
    var listos: seq<int>

    ghost predicate Valid()
      reads this
    {
      UniqueIds(sems)
    }

    constructor ()
      ensures Valid() && sems == [] && listos == []
    {
      sems, listos := [], [];
    }

    /** buscar_semaforo2 */
    method Buscar(id: string) returns (k: int)
      ensures k == Named(sems, id)
    {
      k := 0;
      while k < |sems|
        invariant 0 <= k <= |sems| && forall i :: 0 <= i < k ==> sems[i].id != id
      {
        if sems[k].id == id { return; }
        k := k + 1;
      }
      k := -1;
    }

    method Init(id: string, value: int) returns (r: int)
      requires Valid()
      modifies `sems
      ensures Valid() && r in {0, -1} && (r == 0 <==> Named(old(sems), id) < 0)
      ensures sems == if r == 0 then old(sems) + [Sem(id, value, NOBODY, [])] else old(sems)
    {
      var k := Buscar(id);
      if k >= 0 { return -1; }
      sems := sems + [Sem(id, value, NOBODY, [])];
      return 0;
    }

    /** sem_kernel_wait2 on the semaphore at position k. */
    method Wait(pid: int, k: int) returns (blocks: bool)
      requires Valid() && 0 <= k < |sems|
      modifies `sems
      ensures Valid() && sems == old(sems)[k := Waited(old(sems)[k], pid).0] && blocks == Waited(old(sems)[k], pid).1
      ensures sems[k].id == old(sems)[k].id && sems[k].val == old(sems)[k].val - 1 && blocks == (sems[k].val < 0)
      ensures sems[k].takenBy == (if sems[k].val == 0 then pid else old(sems)[k].takenBy)
      ensures sems[k].blocked == old(sems)[k].blocked + (if blocks then [pid] else [])
    {
      sems := sems[k := sems[k].(val := sems[k].val - 1)];
      if sems[k].val == 0 {
        sems := sems[k := sems[k].(takenBy := pid)];
        return false;
      }
      if sems[k].val < 0 {
        sems := sems[k := sems[k].(blocked := sems[k].blocked + [pid])];
        return true;
      }
      return false;
    }

    /** sem_kernel_post: the value grows, and the process blocked first, if any, is woken. */
    method Post(id: string) returns (r: int)
      requires Valid()
      modifies `sems, `listos
      ensures Valid() && r in {0, -1} && (r == 0 <==> Named(old(sems), id) >= 0)
      ensures r == -1 ==> sems == old(sems) && listos == old(listos)
      ensures r == 0 ==>
                var k := Named(old(sems), id); var p := Posted(old(sems)[k]);
                && sems == old(sems)[k := p.0]
                && listos == old(listos) + (if p.1.Some? then [p.1.value] else [])
                && sems[k].id == id && sems[k].val == old(sems)[k].val + 1
                && sems[k].takenBy == (if sems[k].val >= 1 then NOBODY else old(sems)[k].takenBy)
                && listos + sems[k].blocked == old(listos) + old(sems)[k].blocked
                && |listos| == |old(listos)| + (if old(sems)[k].blocked == [] then 0 else 1)
    {
      var k := Buscar(id);
      if k < 0 { return -1; }
      sems := sems[k := sems[k].(val := sems[k].val + 1)];
      if sems[k].val >= 1 { sems := sems[k := sems[k].(takenBy := NOBODY)]; }
      if sems[k].blocked != [] {
        listos := listos + [sems[k].blocked[0]];
        sems := sems[k := sems[k].(blocked := sems[k].blocked[1..])];
      }
      return 0;
    }
  }

  // ---------------------------------------------------------------- whole runs

  datatype Op = Wait(pid: int) | Post

  /** What happened so far: who asked, who was let through (in that order). */
  datatype Log = Log(asked: seq<int>, granted: seq<int>, posts: nat)

  function After(s: Sem, log: Log, op: Op): (Sem, Log) {
    match op
    case Wait(pid) =>
      var w := Waited(s, pid);
      (w.0, log.(asked := log.asked + [pid], granted := if w.1 then log.granted else log.granted + [pid]))
    case Post =>
      var p := Posted(s);
      (p.0, log.(granted := if p.1.Some? then log.granted + [p.1.value] else log.granted, posts := log.posts + 1))
  }

  function Run(s: Sem, ops: seq<Op>): (Sem, Log)
  {
    if ops == [] then (s, Log([], [], 0))
    else var r := Run(s, ops[..|ops| - 1]); After(r.0, r.1, ops[|ops| - 1])
  }

  function Min(a: int, b: int): int {
    if a < b then a else b
  }

  /** The semaphore and its history fit together, for initial value v. */
  ghost predicate Balanced(v: int, s: Sem, log: Log) {
    && s.val == v + log.posts - |log.asked|
    && |s.blocked| == (if s.val < 0 then -s.val else 0)
    && log.granted + s.blocked == log.asked
  }

  lemma {:induction false} StepBalanced(v: int, s: Sem, log: Log, op: Op)
    requires Balanced(v, s, log)
    ensures Balanced(v, After(s, log, op).0, After(s, log, op).1)
  {
    match op
    case Wait(pid) =>
      assert s.val <= 0 || s.blocked == [];
      assert log.granted + (s.blocked + [pid]) == log.asked + [pid];
      if s.blocked == [] { assert (log.granted + [pid]) + [] == log.asked + [pid]; }
    case Post =>
      if s.blocked != [] {
        assert (log.granted + [s.blocked[0]]) + s.blocked[1..] == log.granted + s.blocked;
      }
  }

  lemma {:induction false} StartBalanced(id: string, v: int)
    requires v >= 0
    ensures Balanced(v, Sem(id, v, NOBODY, []), Log([], [], 0))
  {
  }

  lemma {:induction false} RunBalanced(id: string, v: int, ops: seq<Op>)
    requires v >= 0
    ensures var r := Run(Sem(id, v, NOBODY, []), ops); Balanced(v, r.0, r.1)
  {
    hide Balanced, After;
    StartBalanced(id, v);
    if ops != [] {
      RunBalanced(id, v, ops[..|ops| - 1]);
      var r := Run(Sem(id, v, NOBODY, []), ops[..|ops| - 1]);
      StepBalanced(v, r.0, r.1, ops[|ops| - 1]);
    }
  }

  /** In every run from a value that is not negative, requests are granted in the
      order they were made, as many as initial value and posts allow; the others
      are blocked, in that order too, and their number is what the value lacks. */
  lemma {:induction false} FairCounting(id: string, v: int, ops: seq<Op>)
    requires v >= 0
    ensures var r := Run(Sem(id, v, NOBODY, []), ops);
      && |r.1.granted| <= |r.1.asked|
      && r.1.granted == r.1.asked[..|r.1.granted|] && r.0.blocked == r.1.asked[|r.1.granted|..]
      && |r.1.granted| == Min(|r.1.asked|, v + r.1.posts)
      && |r.0.blocked| == (if r.0.val < 0 then -r.0.val else 0)
  {
    hide Run;
    RunBalanced(id, v, ops);
    var r := Run(Sem(id, v, NOBODY, []), ops);
    BalancedMeans(v, r.0, r.1);
  }

  lemma {:induction false} BalancedMeans(v: int, s: Sem, log: Log)
    requires v >= 0 && Balanced(v, s, log)
    ensures |log.granted| <= |log.asked|
    ensures log.granted == log.asked[..|log.granted|] && s.blocked == log.asked[|log.granted|..]
    ensures |log.granted| == Min(|log.asked|, v + log.posts)
    ensures |s.blocked| == (if s.val < 0 then -s.val else 0)
  {
    assert log.asked == log.granted + s.blocked;
    assert |log.asked| == |log.granted| + |s.blocked|;
  }

  /** The value after some operations: each wait takes one, each post gives one. */
  function Level(v: int, ops: seq<Op>): int {
    if ops == [] then v
    else Level(v, ops[..|ops| - 1]) + (if ops[|ops| - 1].Post? then 1 else -1)
  }

  /** Operation j is a wait that brings the value to exactly 0. */
  ghost predicate Grabs(v: int, ops: seq<Op>, j: int) {
    0 <= j < |ops| && ops[j].Wait? && Level(v, ops[..j + 1]) == 0
  }

  /** Operation j is a post that brings the value to 1 or more. */
  ghost predicate Frees(v: int, ops: seq<Op>, j: int) {
    0 <= j < |ops| && ops[j].Post? && Level(v, ops[..j + 1]) >= 1
  }

  /** Operation j is the last that grabbed, and nothing freed since. */
  ghost predicate HeldSince(v: int, ops: seq<Op>, j: int) {
    Grabs(v, ops, j) && forall i :: j < i < |ops| ==> !Grabs(v, ops, i) && !Frees(v, ops, i)
  }

  lemma {:induction false} SameBefore(v: int, ops: seq<Op>, op: Op)
    ensures forall j :: 0 <= j < |ops| ==> Grabs(v, ops + [op], j) == Grabs(v, ops, j)
    ensures forall j :: 0 <= j < |ops| ==> Frees(v, ops + [op], j) == Frees(v, ops, j)
    ensures Level(v, ops + [op]) == Level(v, ops) + (if op.Post? then 1 else -1)
    ensures Grabs(v, ops + [op], |ops|) == (op.Wait? && Level(v, ops + [op]) == 0)
    ensures Frees(v, ops + [op], |ops|) == (op.Post? && Level(v, ops + [op]) >= 1)
  {
    hide Level;
    forall n | 0 <= n <= |ops| ensures (ops + [op])[..n] == ops[..n] {}
    assert (ops + [op])[..|ops| + 1] == ops + [op];
    assert Level(v, ops + [op]) == Level(v, ops) + (if op.Post? then 1 else -1) by { LevelMore(v, ops, op); }
  }

  lemma {:induction false} LevelMore(v: int, ops: seq<Op>, op: Op)
    ensures Level(v, ops + [op]) == Level(v, ops) + (if op.Post? then 1 else -1)
  {
    assert (ops + [op])[..|ops|] == ops;
  }

  /** In every run, from any initial value, the recorded holder is the process of the
      last wait that brought the value to 0, if no post since then brought it to 1 or
      more; otherwise nobody is recorded. */
  lemma {:induction false} HolderIs(id: string, v: int, ops: seq<Op>)
    ensures var s := Run(Sem(id, v, NOBODY, []), ops).0;
      && s.id == id && s.val == Level(v, ops)
      && (forall j :: HeldSince(v, ops, j) ==> s.takenBy == ops[j].pid)
      && ((forall j :: !HeldSince(v, ops, j)) ==> s.takenBy == NOBODY)
  {
    if ops != [] {
      var before, op := ops[..|ops| - 1], ops[|ops| - 1];
      assert ops == before + [op];
      HolderIs(id, v, before);
      SameBefore(v, before, op);
      HolderStep(v, before, op, Run(Sem(id, v, NOBODY, []), before).0);
    }
  }

  lemma {:induction false} HolderStep(v: int, ops: seq<Op>, op: Op, s: Sem)
    requires s.val == Level(v, ops)
    requires forall j :: HeldSince(v, ops, j) ==> s.takenBy == ops[j].pid
    requires (forall j :: !HeldSince(v, ops, j)) ==> s.takenBy == NOBODY
    ensures var s' := (if op.Wait? then Waited(s, op.pid).0 else Posted(s).0); var more := ops + [op];
      && s'.val == Level(v, more)
      && (forall j :: HeldSince(v, more, j) ==> s'.takenBy == more[j].pid)
      && ((forall j :: !HeldSince(v, more, j)) ==> s'.takenBy == NOBODY)
  {
    hide Level, Grabs, Frees;
    SameBefore(v, ops, op);
    var more, last := ops + [op], |ops|;
    GrabsInside(v, more);
    GrabsInside(v, ops);
    if Grabs(v, more, last) {
      assert HeldSince(v, more, last);
      assert forall j :: HeldSince(v, more, j) ==> j == last;
    } else if Frees(v, more, last) {
      assert forall j :: !HeldSince(v, more, j);
    } else {
      assert forall j :: HeldSince(v, more, j) == HeldSince(v, ops, j);
    }
  }

  lemma {:induction false} GrabsInside(v: int, ops: seq<Op>)
    ensures forall j :: Grabs(v, ops, j) ==> 0 <= j < |ops| && ops[j].Wait?
  {
  }

  /** Blocked processes match the value in every run exactly when it began at 0 or more. */
  lemma {:induction false} NegativeStart(id: string, v: int)
    ensures (forall ops: seq<Op> :: Matches(Run(Sem(id, v, NOBODY, []), ops).0)) <==> v >= 0
  {
    if v >= 0 {
      forall ops: seq<Op> ensures Matches(Run(Sem(id, v, NOBODY, []), ops).0) { RunBalanced(id, v, ops); }
    } else {
      assert !Matches(Run(Sem(id, v, NOBODY, []), []).0);
    }
  }

  ghost predicate Matches(s: Sem) {
    |s.blocked| == if s.val < 0 then -s.val else 0
  }
}
