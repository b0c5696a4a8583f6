/** The planner's threads as one interleaved machine: the long-term, medium-term and
    CPU threads and the receptors, meeting only at counting semaphores and queues.
    Any of them may take its next step at any time. */
module Planner {
  import opened Base

  /** Where a process is. `Admitting` is between the long-term planner taking it and
      enlisting it; `Closing` is from its MATE_CLOSE to the end of its receptor. */
  datatype Place = New | Admitting | Ready | Running | Blocked | Closing | Asleep | Awake | Gone

  datatype Long = L0 | L1 | L2 | LAwake | LNew | L3(p: int) | L4
  datatype Medium = M0 | M1 | M2(p: int) | M3(p: int) | M4
  datatype Cpu = C0 | C1 | C2(p: int) | C3 | C4 | C5 | C6(p: int)

  /** The semaphores are controlador_multiprogramacion (cm), cola_new_con_elementos (cn),
      cola_suspendido_bloquedo_con_elementos (cs) and lista_ejecutando_con_elementos (le);
      fin counts posts of each process's semaforo_fin_evento. toAnnounce and toPublish are
      steps between adding to a queue and posting its semaphore. A CPU at C6 still waits
      for the event of a process that was enlisted again behind its back. */
  datatype State = State(
    cm: int, cn: int, cs: int, le: int,
    nuevos: seq<int>, dormidos: seq<int>, despiertos: seq<int>, listos: seq<int>,
    place: map<int, Place>, fin: set<int>,
    long: Long, medium: Medium, cpus: seq<Cpu>,
    toAnnounce: nat, toPublish: nat)

  datatype Step =
    | Arrive(p: int)                 // NEW_INSTANCE: into cola_new
    | Announce                       // ... and its post
    | LongToken | LongElement | LongLook | LongPop | LongEnlist(at: nat) | LongPublish
    | CpuTake(k: nat) | CpuRemove(k: nat)
    | Block(k: nat)                  // the running process blocks and stays in memory
    | Suspend(k: nat)                // ... or is suspended: bloquear_por_mediano_plazo
    | SuspendPost(k: nat) | PlacePost(k: nat)  // ... and its two posts
    | Hasten(k: nat, at: nat)        // bloqueado_a_listo, of a process whose CPU has not marked it yet
    | BlockLate(k: nat)              // then its CPU finds the event, and leaves it in memory
    | SuspendLate(k: nat)            // ... or suspends it all the same
    | EventTaken(k: nat, m: nat)     // ... or another CPU that runs it by now finds the event
    | Close(k: nat) | CpuForget(k: nat)  // MATE_CLOSE; eliminar_carpincho
    | Exit(p: int)                   // the receptor's last post
    | Wake(p: int, at: nat)          // bloqueado_a_listo, not suspended
    | Publish                        // ... and its post
    | Event(p: int)                  // bloqueado_a_listo, suspended
    | MediumTake | MediumPop | MediumEvent | MediumPush | MediumPost

  /** What a step does: nothing if it is not enabled, a crash if it takes from an empty queue. */
  datatype Outcome = Moved(s: State) | Disabled | Crash

  function Start(degree: nat, cpus: nat): State {
    State(degree, 0, 0, 0, [], [], [], [], map[], {}, L0, M0, seq(cpus, _ => C0), 0, 0)
  }

  function Insert(q: seq<int>, at: nat, p: int): seq<int> {
    if at <= |q| then q[..at] + [p] + q[at..] else q + [p]
  }

  predicate At(s: State, p: int, here: Place) {
    p in s.place && s.place[p] == here
  }

  function Take(s: State, a: Step): Outcome {
    match a
    case Arrive(p) =>
      if p in s.place then Disabled
      else Moved(s.(nuevos := s.nuevos + [p], place := s.place[p := New], toAnnounce := s.toAnnounce + 1))
    case Announce =>
      if s.toAnnounce == 0 then Disabled else Moved(s.(toAnnounce := s.toAnnounce - 1, cn := s.cn + 1))
    case LongToken =>
      if s.long != L0 || s.cm <= 0 then Disabled else Moved(s.(cm := s.cm - 1, long := L1))
    case LongElement =>
      if s.long != L1 || s.cn <= 0 then Disabled else Moved(s.(cn := s.cn - 1, long := L2))
    case LongLook =>
      if s.long != L2 then Disabled else Moved(s.(long := if s.despiertos != [] then LAwake else LNew))
    case LongPop =>
      if s.long == LAwake then
        if s.despiertos == [] then Crash
        else Moved(s.(despiertos := s.despiertos[1..], place := s.place[s.despiertos[0] := Admitting],
                      long := L3(s.despiertos[0])))
      else if s.long == LNew then
        if s.nuevos == [] then Crash
        else Moved(s.(nuevos := s.nuevos[1..], place := s.place[s.nuevos[0] := Admitting], long := L3(s.nuevos[0])))
      else Disabled
    case LongEnlist(at) =>
      if !s.long.L3? then Disabled
      else Moved(s.(listos := Insert(s.listos, at, s.long.p), place := s.place[s.long.p := Ready], long := L4))
    case LongPublish =>
      if s.long != L4 then Disabled else Moved(s.(le := s.le + 1, long := L0))
    case CpuTake(k) =>
      if k >= |s.cpus| || s.cpus[k] != C0 || s.le <= 0 then Disabled
      else Moved(s.(le := s.le - 1, cpus := s.cpus[k := C1]))
    case CpuRemove(k) =>
      if k >= |s.cpus| || s.cpus[k] != C1 then Disabled
      else if s.listos == [] then Crash
      else Moved(s.(listos := s.listos[1..], place := s.place[s.listos[0] := Running],
                    cpus := s.cpus[k := C2(s.listos[0])]))
    case Block(k) =>
      if k >= |s.cpus| || !s.cpus[k].C2? then Disabled
      else Moved(s.(place := s.place[s.cpus[k].p := Blocked], cpus := s.cpus[k := C0]))
    case Suspend(k) =>
      if k >= |s.cpus| || !s.cpus[k].C2? then Disabled
      else Moved(s.(dormidos := s.dormidos + [s.cpus[k].p], place := s.place[s.cpus[k].p := Asleep],
                    cpus := s.cpus[k := C4]))
    case SuspendPost(k) =>
      if k >= |s.cpus| || s.cpus[k] != C4 then Disabled else Moved(s.(cs := s.cs + 1, cpus := s.cpus[k := C5]))
    case PlacePost(k) =>
      if k >= |s.cpus| || s.cpus[k] != C5 then Disabled else Moved(s.(cm := s.cm + 1, cpus := s.cpus[k := C0]))
    case Hasten(k, at) =>
      if k >= |s.cpus| || !s.cpus[k].C2? then Disabled
      else Moved(s.(listos := Insert(s.listos, at, s.cpus[k].p), place := s.place[s.cpus[k].p := Ready],
                    toPublish := s.toPublish + 1, cpus := s.cpus[k := C6(s.cpus[k].p)]))
    case BlockLate(k) =>
      if k >= |s.cpus| || !s.cpus[k].C6? then Disabled else Moved(s.(cpus := s.cpus[k := C0]))
    case SuspendLate(k) =>
      if k >= |s.cpus| || !s.cpus[k].C6? then Disabled
      else Moved(s.(dormidos := s.dormidos + [s.cpus[k].p], place := s.place[s.cpus[k].p := Asleep],
                    cpus := s.cpus[k := C4]))
    case EventTaken(k, m) =>
      if k >= |s.cpus| || m >= |s.cpus| || !s.cpus[k].C6? || s.cpus[m] != C2(s.cpus[k].p) then Disabled
      else Moved(s.(cpus := s.cpus[k := s.cpus[m]][m := s.cpus[k]]))
    case Close(k) =>
      if k >= |s.cpus| || !s.cpus[k].C2? then Disabled
      else Moved(s.(place := s.place[s.cpus[k].p := Closing], cpus := s.cpus[k := C3]))
    case CpuForget(k) =>
      if k >= |s.cpus| || s.cpus[k] != C3 then Disabled else Moved(s.(cpus := s.cpus[k := C0]))
    case Exit(p) =>
      if !At(s, p, Closing) then Disabled else Moved(s.(place := s.place[p := Gone], cm := s.cm + 1))
    case Wake(p, at) =>
      if !At(s, p, Blocked) then Disabled
      else Moved(s.(listos := Insert(s.listos, at, p), place := s.place[p := Ready], toPublish := s.toPublish + 1))
    case Publish =>
      if s.toPublish == 0 then Disabled else Moved(s.(toPublish := s.toPublish - 1, le := s.le + 1))
    case Event(p) =>
      if !At(s, p, Asleep) || p in s.fin then Disabled else Moved(s.(fin := s.fin + {p}))
    case MediumTake =>
      if s.medium != M0 || s.cs <= 0 then Disabled else Moved(s.(cs := s.cs - 1, medium := M1))
    case MediumPop =>
      if s.medium != M1 then Disabled
      else if s.dormidos == [] then Crash
      else Moved(s.(dormidos := s.dormidos[1..], medium := M2(s.dormidos[0])))
    case MediumEvent =>
      if !s.medium.M2? || s.medium.p !in s.fin then Disabled
      else Moved(s.(fin := s.fin - {s.medium.p}, medium := M3(s.medium.p)))
    case MediumPush =>
      if !s.medium.M3? then Disabled
      else Moved(s.(despiertos := s.despiertos + [s.medium.p], place := s.place[s.medium.p := Awake], medium := M4))
    case MediumPost =>
      if s.medium != M4 then Disabled else Moved(s.(cn := s.cn + 1, medium := M0))
  }

  /** A run under any interleaving: steps that are not enabled are passed over. */
  function Run(degree: nat, cpus: nat, steps: seq<Step>): Outcome {
    if steps == [] then Moved(Start(degree, cpus))
    else
      match Run(degree, cpus, steps[..|steps| - 1])
      case Crash => Crash
      case Disabled => Disabled
      case Moved(s) =>
        var o := Take(s, steps[|steps| - 1]);
        if o.Disabled? then Moved(s) else o
  }

  // ---------------------------------------------------------------- what holds

  predicate Inside(here: Place) {
    here in {Admitting, Ready, Running, Blocked, Closing}
  }

  /** Admitted processes that are neither suspended nor gone. */
  ghost function Admitted(s: State): set<int> {
    set p | p in s.place && Inside(s.place[p])
  }

  /** The CPU threads that have got to this point. */
  ghost function Threads(cpus: seq<Cpu>, c: Cpu): set<int> {
    set k | 0 <= k < |cpus| && cpus[k] == c
  }

  ghost predicate NoDup(q: seq<int>) {
    forall i, j :: 0 <= i < j < |q| ==> q[i] != q[j]
  }

  /** The queue holds the processes that are in this place, each once. */
  ghost predicate Holds(s: State, q: seq<int>, here: Place) {
    NoDup(q) && forall p :: p in q <==> At(s, p, here)
  }

  /** Processes, and the threads that have them in hand, are where `place` says. */
  ghost predicate Placed(s: State) {
    && Holds(s, s.nuevos, New) && Holds(s, s.despiertos, Awake) && Holds(s, s.listos, Ready)
    && (forall p :: At(s, p, Admitting) <==> s.long == L3(p))
    && NoDup(s.dormidos)
    && (forall p :: At(s, p, Asleep) <==> p in s.dormidos || s.medium == M2(p) || s.medium == M3(p))
    && (forall p :: p in s.dormidos ==> s.medium != M2(p) && s.medium != M3(p))
    && (forall k :: 0 <= k < |s.cpus| && s.cpus[k].C2? ==> At(s, s.cpus[k].p, Running))
    && (forall k, m :: 0 <= k < m < |s.cpus| && s.cpus[k].C2? ==> s.cpus[m] != s.cpus[k])
  }

  function B(b: bool): int {
    if b then 1 else 0
  }

  /** The long-term planner has passed both its semaphores and has no process yet. */
  predicate Seeking(l: Long) {
    l == L2 || l == LAwake || l == LNew
  }

  /** Each queue holds as many processes as its semaphore says, counting the threads
      that are between the queue and the semaphore. */
  ghost predicate Queued(s: State) {
    && s.cm >= 0 && s.cn >= 0 && s.cs >= 0 && s.le >= 0
    && |s.nuevos| + |s.despiertos| == s.cn + s.toAnnounce + B(Seeking(s.long)) + B(s.medium == M4)
    && (s.long == LAwake ==> s.despiertos != []) && (s.long == LNew ==> s.nuevos != [])
    && |s.listos| == s.le + s.toPublish + |Threads(s.cpus, C1)| + B(s.long == L4)
    && |s.dormidos| == s.cs + |Threads(s.cpus, C4)| + B(s.medium == M1)
  }

  /** The places for admitted processes are all either free, taken, given back but not yet
      posted, or in the long-term planner's hand. */
  ghost predicate Accounted(s: State, degree: nat) {
    s.cm + |Admitted(s)| + |Threads(s.cpus, C4)| + |Threads(s.cpus, C5)| + B(s.long == L1 || Seeking(s.long)) == degree
  }

  ghost predicate Counted(s: State, degree: nat) {
    Queued(s) && Accounted(s, degree)
  }

  ghost predicate Sound(s: State, degree: nat) {
    Placed(s) && Counted(s, degree)
  }

  // -------------------------------------------------- queues and places, step by step

  lemma {:induction false} AdmittedAfter(s: State, s': State, p: int, to: Place)
    requires s'.place == s.place[p := to]
    ensures |Admitted(s')| == |Admitted(s)| + B(Inside(to)) - B(p in s.place && Inside(s.place[p]))
  {
    hide Inside;
    var a, a' := Admitted(s), Admitted(s');
    forall q ensures q in a' <==> if q == p then Inside(to) else q in a {}
    assert a' == if Inside(to) then a + {p} else a - {p};
    OneMore(a, p);
  }

  lemma {:induction false} AdmittedSame(s: State, s': State)
    requires s'.place == s.place
    ensures Admitted(s') == Admitted(s)
  {
  }

  lemma {:induction false} HoldsOther(s: State, s': State, q: seq<int>, here: Place, p: int, to: Place)
    requires Holds(s, q, here) && s'.place == s.place[p := to] && !At(s, p, here) && to != here
    ensures Holds(s', q, here)
  {
  }

  lemma {:induction false} HoldsIn(s: State, s': State, q: seq<int>, here: Place, p: int, at: nat)
    requires Holds(s, q, here) && s'.place == s.place[p := here] && !At(s, p, here)
    ensures Holds(s', Insert(q, at, p), here) && Holds(s', q + [p], here)
    ensures |Insert(q, at, p)| == |q| + 1
  {
    InsertNew(q, at, p);
    InsertNew(q, |q|, p);
    assert Insert(q, |q|, p) == q + [p];
    hide Insert, NoDup;
  }

  lemma {:induction false} InsertNew(q: seq<int>, at: nat, p: int)
    requires NoDup(q) && p !in q
    ensures NoDup(Insert(q, at, p)) && |Insert(q, at, p)| == |q| + 1
    ensures forall x :: x in Insert(q, at, p) <==> x == p || x in q
  {
    var r := Insert(q, at, p);
    var m := if at <= |q| then at else |q|;
    assert forall i :: 0 <= i < |r| ==> r[i] == if i < m then q[i] else if i == m then p else q[i - 1];
    forall x | x in q ensures x in r {
      var i :| 0 <= i < |q| && q[i] == x;
      assert r[if i < m then i else i + 1] == x;
    }
    assert r[m] == p;
  }

  lemma {:induction false} HoldsOut(s: State, s': State, q: seq<int>, here: Place, to: Place)
    requires Holds(s, q, here) && q != [] && s'.place == s.place[q[0] := to] && to != here
    ensures Holds(s', q[1..], here) && At(s, q[0], here)
  {
    assert q[0] in q;
    forall x ensures x in q[1..] <==> x in q && x != q[0] {
      if x in q && x != q[0] {
        var i :| 0 <= i < |q| && q[i] == x;
        assert q[1..][i - 1] == x;
      }
    }
  }

  lemma {:induction false} HoldsFirst(s: State, q: seq<int>, here: Place)
    requires Holds(s, q, here) && q != []
    ensures At(s, q[0], here)
  {
    assert q[0] in q;
  }

  lemma {:induction false} Longer(q: seq<int>, at: nat, p: int)
    ensures |Insert(q, at, p)| == |q| + 1 && Insert(q, at, p) != []
  {
  }

  lemma {:induction false} HoldsSame(s: State, s': State, q: seq<int>, here: Place)
    requires Holds(s, q, here) && s'.place == s.place
    ensures Holds(s', q, here)
  {
  }

  lemma {:induction false} ThreadGoes(cpus: seq<Cpu>, k: nat, c: Cpu, x: Cpu)
    requires k < |cpus|
    ensures |Threads(cpus[k := c], x)| == |Threads(cpus, x)| + B(c == x) - B(cpus[k] == x)
  {
    var a, a' := Threads(cpus, x), Threads(cpus[k := c], x);
    forall m ensures m in a' <==> if m == k then c == x else m in a {}
    assert a' == if c == x then a + {k} else a - {k};
    OneMore(a, k);
    assert k in a <==> cpus[k] == x;
  }

  lemma {:induction false} OneMore(a: set<int>, k: int)
    ensures |a + {k}| == |a| + B(k !in a) && |a - {k}| == |a| - B(k in a)
  {
    if k in a { assert a + {k} == a; } else { assert a - {k} == a; }
  }

  lemma {:induction false} CpuGoes(cpus: seq<Cpu>, k: nat, c: Cpu)
    requires k < |cpus|
    ensures forall x :: x in {C1, C4, C5} ==>
              |Threads(cpus[k := c], x)| == |Threads(cpus, x)| + B(c == x) - B(cpus[k] == x)
  {
    hide Threads;
    forall x | x in {C1, C4, C5}
      ensures |Threads(cpus[k := c], x)| == |Threads(cpus, x)| + B(c == x) - B(cpus[k] == x)
    {
      ThreadGoes(cpus, k, c, x);
    }
  }

  /** A step that changes no place keeps everything placed if it keeps queues and hands. */
  lemma {:induction false} PlacedSame(s: State, s': State)
    requires Placed(s) && s'.place == s.place && s'.nuevos == s.nuevos && s'.despiertos == s.despiertos &&
             s'.listos == s.listos
    requires s'.dormidos == s.dormidos && s'.cpus == s.cpus
    requires forall p :: (s'.long == L3(p) <==> s.long == L3(p))
    requires forall p :: (s'.medium == M2(p) || s'.medium == M3(p)) <==> (s.medium == M2(p) || s.medium == M3(p))
    ensures Placed(s')
  {
    HoldsSame(s, s', s.nuevos, New);
    HoldsSame(s, s', s.despiertos, Awake);
    HoldsSame(s, s', s.listos, Ready);
  }

  // ------------------------------------------------------- queues and semaphores

  /** No step takes from an empty queue, whichever process is in which: not even a post
      that comes too early, or a suspension that comes too late, can bring that about. */
  lemma {:induction false} QueuedStep(s: State, a: Step)
    requires Queued(s)
    ensures !Take(s, a).Crash? && (Take(s, a).Moved? ==> Queued(Take(s, a).s))
  {
    match a
    case CpuTake(_) => QueuedCpu(s, a);
    case CpuRemove(_) => QueuedCpu(s, a);
    case Block(_) => QueuedCpu(s, a);
    case Suspend(_) => QueuedCpu(s, a);
    case SuspendPost(_) => QueuedCpu(s, a);
    case PlacePost(_) => QueuedCpu(s, a);
    case BlockLate(_) => QueuedCpu(s, a);
    case SuspendLate(_) => QueuedCpu(s, a);
    case Close(_) => QueuedCpu(s, a);
    case CpuForget(_) => QueuedCpu(s, a);
    case Hasten(k, at) =>
      if Take(s, a).Moved? {
        hide Threads, Insert;
        Longer(s.listos, at, s.cpus[k].p);
        CpuGoes(s.cpus, k, C6(s.cpus[k].p));
      }
    case EventTaken(k, m) =>
      if Take(s, a).Moved? {
        hide Threads;
        CpuGoes(s.cpus, k, s.cpus[m]);
        CpuGoes(s.cpus[k := s.cpus[m]], m, s.cpus[k]);
      }
    case _ => QueuedOther(s, a);
  }

  lemma {:induction false} QueuedCpu(s: State, a: Step)
    requires Queued(s)
    requires a.CpuTake? || a.CpuRemove? || a.Block? || a.Suspend? || a.SuspendPost? || a.PlacePost? || a.BlockLate? ||
             a.SuspendLate? || a.Close? || a.CpuForget?
    ensures !Take(s, a).Crash? && (Take(s, a).Moved? ==> Queued(Take(s, a).s))
  {
    if a.k < |s.cpus| {
      assert s.cpus[a.k] == C1 ==> a.k in Threads(s.cpus, C1);
      hide Threads;
      if Take(s, a).Moved? { CpuGoes(s.cpus, a.k, Take(s, a).s.cpus[a.k]); }
    }
  }

  lemma {:induction false} QueuedOther(s: State, a: Step)
    requires Queued(s) && (Take(s, a).Moved? ==> Take(s, a).s.cpus == s.cpus)
    requires !a.CpuRemove?
    ensures !Take(s, a).Crash? && (Take(s, a).Moved? ==> Queued(Take(s, a).s))
  {
    hide Threads, Insert;
    if a.LongEnlist? && s.long.L3? { Longer(s.listos, a.at, s.long.p); }
    if a.Wake? { Longer(s.listos, a.at, a.p); }
  }

  // ------------------------------------------------------------- every step

  /** The steps that only pass a semaphore or post one. */
  lemma {:induction false} SemaphoreSteps(s: State, degree: nat, a: Step)
    requires Sound(s, degree)
    requires a.Announce? || a.LongToken? || a.LongElement? || a.LongLook? || a.LongPublish? || a.Publish? ||
             a.Event? || a.MediumTake? ||
             a.MediumEvent? || a.MediumPost?
    ensures !Take(s, a).Crash? && (Take(s, a).Moved? ==> Sound(Take(s, a).s, degree))
  {
    var o := Take(s, a);
    QueuedStep(s, a);
    if o.Moved? {
      hide Placed, Queued, Admitted, Threads;
      PlacedSame(s, o.s);
      AdmittedSame(s, o.s);
    }
  }

  lemma {:induction false} ArrivePlaced(s: State, s': State, p: int)
    requires Placed(s) && p !in s.place &&
             s' == s.(nuevos := s.nuevos + [p], place := s.place[p := New], toAnnounce := s.toAnnounce + 1)
    ensures Placed(s')
  {
    hide Holds;
    HoldsIn(s, s', s.nuevos, New, p, 0);
    HoldsOther(s, s', s.despiertos, Awake, p, New);
    HoldsOther(s, s', s.listos, Ready, p, New);
  }

  lemma {:induction false} ArriveCounted(s: State, s': State, degree: nat, p: int)
    requires Sound(s, degree) && p !in s.place &&
             s' == s.(nuevos := s.nuevos + [p], place := s.place[p := New], toAnnounce := s.toAnnounce + 1)
    ensures Counted(s', degree)
  {
    hide Placed, Holds, Admitted, Threads, NoDup;
    AdmittedAfter(s, s', p, New);
  }

  lemma {:induction false} ArriveStep(s: State, degree: nat, p: int)
    requires Sound(s, degree) && p !in s.place
    ensures Sound(Take(s, Arrive(p)).s, degree)
  {
    var s' := Take(s, Arrive(p)).s;
    hide Placed, Counted;
    ArrivePlaced(s, s', p);
    ArriveCounted(s, s', degree, p);
  }

  lemma {:induction false} WakeUpPlaced(s: State, s': State, p: int)
    requires Placed(s) && s.long == LAwake && s.despiertos != [] && p == s.despiertos[0] &&
             s' == s.(despiertos := s.despiertos[1..], place := s.place[p := Admitting], long := L3(p))
    ensures Placed(s')
  {
    hide Holds;
    HoldsOut(s, s', s.despiertos, Awake, Admitting);
    HoldsOther(s, s', s.nuevos, New, p, Admitting);
    HoldsOther(s, s', s.listos, Ready, p, Admitting);
  }

  lemma {:induction false} WakeUpCounted(s: State, s': State, degree: nat, p: int)
    requires Sound(s, degree) && s.long == LAwake && s.despiertos != [] && p == s.despiertos[0] &&
             s' == s.(despiertos := s.despiertos[1..], place := s.place[p := Admitting], long := L3(p))
    ensures Counted(s', degree)
  {
    HoldsFirst(s, s.despiertos, Awake);
    hide Placed, Holds, Admitted, Threads, NoDup;
    AdmittedAfter(s, s', p, Admitting);
  }

  lemma {:induction false} AdmitPlaced(s: State, s': State, p: int)
    requires Placed(s) && s.long == LNew && s.nuevos != [] && p == s.nuevos[0] &&
             s' == s.(nuevos := s.nuevos[1..], place := s.place[p := Admitting], long := L3(p))
    ensures Placed(s')
  {
    hide Holds;
    HoldsOut(s, s', s.nuevos, New, Admitting);
    HoldsOther(s, s', s.despiertos, Awake, p, Admitting);
    HoldsOther(s, s', s.listos, Ready, p, Admitting);
  }

  lemma {:induction false} AdmitCounted(s: State, s': State, degree: nat, p: int)
    requires Sound(s, degree) && s.long == LNew && s.nuevos != [] && p == s.nuevos[0] &&
             s' == s.(nuevos := s.nuevos[1..], place := s.place[p := Admitting], long := L3(p))
    ensures Counted(s', degree)
  {
    HoldsFirst(s, s.nuevos, New);
    hide Placed, Holds, Admitted, Threads, NoDup;
    AdmittedAfter(s, s', p, Admitting);
  }

  lemma {:induction false} LongPopStep(s: State, degree: nat)
    requires Sound(s, degree) && (s.long == LAwake || s.long == LNew)
    ensures Take(s, LongPop).Moved? && Sound(Take(s, LongPop).s, degree)
    ensures Take(s, LongPop).s.long.L3? && var p := Take(s, LongPop).s.long.p;
            At(s, p, if s.long == LAwake then Awake else New) && At(Take(s, LongPop).s, p, Admitting)
  {
    var s' := Take(s, LongPop).s;
    hide Placed;
    if s.long == LAwake {
      WakeUpPlaced(s, s', s.despiertos[0]);
      WakeUpCounted(s, s', degree, s.despiertos[0]);
    } else {
      AdmitPlaced(s, s', s.nuevos[0]);
      AdmitCounted(s, s', degree, s.nuevos[0]);
    }
  }

  lemma {:induction false} EnlistPlaced(s: State, s': State, p: int, at: nat)
    requires Placed(s) && s.long == L3(p) &&
             s' == s.(listos := Insert(s.listos, at, p), place := s.place[p := Ready], long := L4)
    ensures Placed(s')
  {
    hide Holds;
    assert At(s, p, Admitting);
    HoldsIn(s, s', s.listos, Ready, p, at);
    HoldsOther(s, s', s.nuevos, New, p, Ready);
    HoldsOther(s, s', s.despiertos, Awake, p, Ready);
  }

  lemma {:induction false} EnlistCounted(s: State, s': State, degree: nat, p: int, at: nat)
    requires Sound(s, degree) && s.long == L3(p) &&
             s' == s.(listos := Insert(s.listos, at, p), place := s.place[p := Ready], long := L4)
    ensures Counted(s', degree)
  {
    assert At(s, p, Admitting);
    Longer(s.listos, at, p);
    hide Placed, Holds, Admitted, Threads, NoDup;
    AdmittedAfter(s, s', p, Ready);
  }

  lemma {:induction false} LongEnlistStep(s: State, degree: nat, at: nat)
    requires Sound(s, degree) && s.long.L3?
    ensures Sound(Take(s, LongEnlist(at)).s, degree)
  {
    var s' := Take(s, LongEnlist(at)).s;
    hide Placed, Counted;
    EnlistPlaced(s, s', s.long.p, at);
    EnlistCounted(s, s', degree, s.long.p, at);
  }

  lemma {:induction false} IdlePlaced(s: State, s': State, k: nat, c: Cpu)
    requires Placed(s) && s'.place == s.place && s'.nuevos == s.nuevos && s'.despiertos == s.despiertos &&
             s'.listos == s.listos
    requires s'.dormidos == s.dormidos && s'.long == s.long && s'.medium == s.medium
    requires k < |s.cpus| && s'.cpus == s.cpus[k := c] && !c.C2?
    ensures Placed(s')
  {
    hide Holds;
    HoldsSame(s, s', s.nuevos, New);
    HoldsSame(s, s', s.despiertos, Awake);
    HoldsSame(s, s', s.listos, Ready);
  }

  /** A CPU's step that touches no process. */
  lemma {:induction false} CpuIdleSteps(s: State, degree: nat, a: Step)
    requires Sound(s, degree) && (a.CpuTake? || a.CpuForget? || a.SuspendPost? || a.PlacePost?)
    ensures !Take(s, a).Crash? && (Take(s, a).Moved? ==> Sound(Take(s, a).s, degree))
  {
    var o := Take(s, a);
    if o.Moved? {
      hide Placed, Admitted, Threads;
      IdlePlaced(s, o.s, a.k, o.s.cpus[a.k]);
      CpuGoes(s.cpus, a.k, o.s.cpus[a.k]);
      AdmittedSame(s, o.s);
    }
  }

  lemma {:induction false} DispatchPlaced(s: State, s': State, k: nat, p: int)
    requires Placed(s) && k < |s.cpus| && s.cpus[k] == C1 && s.listos != [] && p == s.listos[0] &&
             s' == s.(listos := s.listos[1..], place := s.place[p := Running], cpus := s.cpus[k := C2(p)])
    ensures Placed(s')
  {
    hide Holds;
    HoldsOut(s, s', s.listos, Ready, Running);
    HoldsOther(s, s', s.nuevos, New, p, Running);
    HoldsOther(s, s', s.despiertos, Awake, p, Running);
    assert forall m :: 0 <= m < |s.cpus| ==> s.cpus[m] != C2(p);
  }

  lemma {:induction false} DispatchCounted(s: State, s': State, degree: nat, k: nat, p: int)
    requires Sound(s, degree) && k < |s.cpus| && s.cpus[k] == C1 && s.listos != [] && p == s.listos[0] &&
             s' == s.(listos := s.listos[1..], place := s.place[p := Running], cpus := s.cpus[k := C2(p)])
    ensures Counted(s', degree)
  {
    HoldsFirst(s, s.listos, Ready);
    hide Placed, Holds, Admitted, Threads, NoDup;
    AdmittedAfter(s, s', p, Running);
    CpuGoes(s.cpus, k, C2(p));
  }

  lemma {:induction false} CpuRemoveStep(s: State, degree: nat, k: nat)
    requires Sound(s, degree) && k < |s.cpus| && s.cpus[k] == C1
    ensures Take(s, CpuRemove(k)).Moved? && Sound(Take(s, CpuRemove(k)).s, degree)
  {
    assert k in Threads(s.cpus, C1);
    hide Placed, Threads;
    var s', p := Take(s, CpuRemove(k)).s, s.listos[0];
    DispatchPlaced(s, s', k, p);
    DispatchCounted(s, s', degree, k, p);
  }

  function LeavesFor(a: Step): Place {
    if a.Block? then Blocked else if a.Suspend? then Asleep else Closing
  }

  /** The running process stops running. */
  lemma {:induction false} CpuLeaveSteps(s: State, degree: nat, a: Step)
    requires Sound(s, degree) && (a.Block? || a.Suspend? || a.Close?) && a.k < |s.cpus| && s.cpus[a.k].C2?
    ensures Take(s, a).Moved? && Sound(Take(s, a).s, degree)
  {
    var s', p := Take(s, a).s, s.cpus[a.k].p;
    assert At(s, p, Running);
    LeavePlaced(s, a);
    hide Placed, Queued, Admitted, Threads;
    QueuedStep(s, a);
    AdmittedAfter(s, s', p, LeavesFor(a));
    CpuGoes(s.cpus, a.k, s'.cpus[a.k]);
  }

  lemma {:induction false} SleepPlaced(s: State, s': State, k: nat)
    requires Placed(s) && k < |s.cpus| && s.cpus[k].C2? && Take(s, Suspend(k)) == Moved(s')
    ensures Placed(s')
  {
    hide Holds;
    var p := s.cpus[k].p;
    assert At(s, p, Running);
    HoldsOther(s, s', s.nuevos, New, p, Asleep);
    HoldsOther(s, s', s.despiertos, Awake, p, Asleep);
    HoldsOther(s, s', s.listos, Ready, p, Asleep);
    InsertNew(s.dormidos, |s.dormidos|, p);
    assert Insert(s.dormidos, |s.dormidos|, p) == s.dormidos + [p];
  }

  lemma {:induction false} LeavePlaced(s: State, a: Step)
    requires Placed(s) && (a.Block? || a.Suspend? || a.Close?) && a.k < |s.cpus| && s.cpus[a.k].C2?
    ensures Take(s, a).Moved? && Placed(Take(s, a).s)
  {
    hide Holds;
    var s', p := Take(s, a).s, s.cpus[a.k].p;
    assert At(s, p, Running);
    if a.Suspend? {
      SleepPlaced(s, s', a.k);
    } else {
      HoldsOther(s, s', s.nuevos, New, p, LeavesFor(a));
      HoldsOther(s, s', s.despiertos, Awake, p, LeavesFor(a));
      HoldsOther(s, s', s.listos, Ready, p, LeavesFor(a));
    }
  }

  lemma {:induction false} ExitPlaced(s: State, s': State, p: int)
    requires Placed(s) && At(s, p, Closing) && s' == s.(place := s.place[p := Gone], cm := s.cm + 1)
    ensures Placed(s')
  {
    hide Holds;
    HoldsOther(s, s', s.nuevos, New, p, Gone);
    HoldsOther(s, s', s.despiertos, Awake, p, Gone);
    HoldsOther(s, s', s.listos, Ready, p, Gone);
  }

  lemma {:induction false} ExitStep(s: State, degree: nat, p: int)
    requires Sound(s, degree) && At(s, p, Closing)
    ensures Sound(Take(s, Exit(p)).s, degree)
  {
    var s' := Take(s, Exit(p)).s;
    hide Placed, Queued;
    QueuedStep(s, Exit(p));
    ExitPlaced(s, s', p);
    hide Admitted, Threads;
    AdmittedAfter(s, s', p, Gone);
  }

  lemma {:induction false} WakePlaced(s: State, s': State, p: int, at: nat)
    requires Placed(s) && At(s, p, Blocked) && s'.listos == Insert(s.listos, at, p) && s'.place == s.place[p := Ready]
    requires s'.nuevos == s.nuevos && s'.despiertos == s.despiertos && s'.dormidos == s.dormidos && s'.long == s.long
    requires s'.medium == s.medium && s'.cpus == s.cpus
    ensures Placed(s')
  {
    hide Holds;
    HoldsIn(s, s', s.listos, Ready, p, at);
    HoldsOther(s, s', s.nuevos, New, p, Ready);
    HoldsOther(s, s', s.despiertos, Awake, p, Ready);
  }

  lemma {:induction false} WakeStep(s: State, degree: nat, p: int, at: nat)
    requires Sound(s, degree) && At(s, p, Blocked)
    ensures Sound(Take(s, Wake(p, at)).s, degree)
  {
    var s' := Take(s, Wake(p, at)).s;
    hide Placed, Queued;
    QueuedStep(s, Wake(p, at));
    WakePlaced(s, s', p, at);
    hide Admitted, Threads;
    AdmittedAfter(s, s', p, Ready);
  }

  /** A process is enlisted again before its CPU has marked it: places and accounts are kept. */
  lemma {:induction false} HastenStep(s: State, degree: nat, k: nat, at: nat)
    requires Sound(s, degree) && k < |s.cpus| && s.cpus[k].C2?
    ensures Sound(Take(s, Hasten(k, at)).s, degree)
  {
    var s', p := Take(s, Hasten(k, at)).s, s.cpus[k].p;
    assert At(s, p, Running);
    hide Queued;
    QueuedStep(s, Hasten(k, at));
    HastenPlaced(s, s', k, at);
    hide Placed, Admitted, Threads, Insert;
    AdmittedAfter(s, s', p, Ready);
    CpuGoes(s.cpus, k, C6(p));
  }

  lemma {:induction false} HastenPlaced(s: State, s': State, k: nat, at: nat)
    requires Placed(s) && k < |s.cpus| && s.cpus[k].C2? && Take(s, Hasten(k, at)) == Moved(s')
    ensures Placed(s')
  {
    hide Holds;
    var p := s.cpus[k].p;
    assert At(s, p, Running);
    HoldsIn(s, s', s.listos, Ready, p, at);
    HoldsOther(s, s', s.nuevos, New, p, Ready);
    HoldsOther(s, s', s.despiertos, Awake, p, Ready);
  }

  /** The event of such a process goes to its first CPU, or to the one that runs it now. */
  lemma {:induction false} LateSteps(s: State, degree: nat, a: Step)
    requires Sound(s, degree) && (a.BlockLate? || a.EventTaken?)
    ensures !Take(s, a).Crash? && (Take(s, a).Moved? ==> Sound(Take(s, a).s, degree))
  {
    var o := Take(s, a);
    QueuedStep(s, a);
    if o.Moved? {
      if a.BlockLate? {
        IdlePlaced(s, o.s, a.k, C0);
      } else {
        SwapPlaced(s, o.s, a.k, a.m);
        hide Placed, Queued, Admitted, Threads;
        CpuGoes(s.cpus[a.k := s.cpus[a.m]], a.m, s.cpus[a.k]);
      }
      hide Placed, Queued, Admitted, Threads;
      CpuGoes(s.cpus, a.k, if a.BlockLate? then C0 else s.cpus[a.m]);
      AdmittedSame(s, o.s);
    }
  }

  lemma {:induction false} SwapPlaced(s: State, s': State, k: nat, m: nat)
    requires Placed(s) && k < |s.cpus| && m < |s.cpus| && s.cpus[k].C6? && s.cpus[m] == C2(s.cpus[k].p)
    requires s' == s.(cpus := s.cpus[k := s.cpus[m]][m := s.cpus[k]])
    ensures Placed(s')
  {
    hide Holds;
    HoldsSame(s, s', s.nuevos, New);
    HoldsSame(s, s', s.despiertos, Awake);
    HoldsSame(s, s', s.listos, Ready);
  }

  lemma {:induction false} MediumPopStep(s: State, degree: nat)
    requires Sound(s, degree) && s.medium == M1
    ensures Take(s, MediumPop).Moved? && Sound(Take(s, MediumPop).s, degree)
  {
    hide Admitted, Threads;
    var s', p := Take(s, MediumPop).s, s.dormidos[0];
    forall x ensures x in s.dormidos[1..] <==> x in s.dormidos && x != p {
      if x in s.dormidos && x != p {
        var i :| 0 <= i < |s.dormidos| && s.dormidos[i] == x;
        assert s.dormidos[1..][i - 1] == x;
      }
    }
    HoldsSame(s, s', s.nuevos, New);
    HoldsSame(s, s', s.despiertos, Awake);
    HoldsSame(s, s', s.listos, Ready);
    AdmittedSame(s, s');
  }

  lemma {:induction false} PushPlaced(s: State, s': State, p: int)
    requires Placed(s) && s.medium == M3(p)
    requires s' == s.(despiertos := s.despiertos + [p], place := s.place[p := Awake], medium := M4)
    ensures Placed(s')
  {
    hide Holds;
    assert At(s, p, Asleep);
    HoldsIn(s, s', s.despiertos, Awake, p, 0);
    HoldsOther(s, s', s.nuevos, New, p, Awake);
    HoldsOther(s, s', s.listos, Ready, p, Awake);
  }

  lemma {:induction false} MediumPushStep(s: State, degree: nat)
    requires Sound(s, degree) && s.medium.M3?
    ensures Sound(Take(s, MediumPush).s, degree)
  {
    var s', p := Take(s, MediumPush).s, s.medium.p;
    hide Queued;
    QueuedStep(s, MediumPush);
    assert At(s, p, Asleep);
    PushPlaced(s, s', p);
    hide Placed, Admitted, Threads;
    AdmittedAfter(s, s', p, Awake);
  }

  /** No step takes from an empty queue, and every step keeps the accounts but one: the
      suspension of a process that was enlisted again before its CPU marked it. */
  lemma {:induction false} TakeSound(s: State, degree: nat, a: Step)
    requires Sound(s, degree)
    ensures !Take(s, a).Crash? && (Take(s, a).Moved? && !a.SuspendLate? ==> Sound(Take(s, a).s, degree))
  {
    QueuedStep(s, a);
    hide Sound;
    match a
    case Arrive(p) => if p !in s.place { ArriveStep(s, degree, p); }
    case LongPop => if s.long == LAwake || s.long == LNew { LongPopStep(s, degree); }
    case LongEnlist(at) => if s.long.L3? { LongEnlistStep(s, degree, at); }
    case CpuTake(_) => CpuIdleSteps(s, degree, a);
    case CpuForget(_) => CpuIdleSteps(s, degree, a);
    case SuspendPost(_) => CpuIdleSteps(s, degree, a);
    case PlacePost(_) => CpuIdleSteps(s, degree, a);
    case CpuRemove(k) => if k < |s.cpus| && s.cpus[k] == C1 { CpuRemoveStep(s, degree, k); }
    case Block(k) => if k < |s.cpus| && s.cpus[k].C2? { CpuLeaveSteps(s, degree, a); }
    case Suspend(k) => if k < |s.cpus| && s.cpus[k].C2? { CpuLeaveSteps(s, degree, a); }
    case Close(k) => if k < |s.cpus| && s.cpus[k].C2? { CpuLeaveSteps(s, degree, a); }
    case Hasten(k, at) => if k < |s.cpus| && s.cpus[k].C2? { HastenStep(s, degree, k, at); }
    case BlockLate(_) => LateSteps(s, degree, a);
    case EventTaken(_, _) => LateSteps(s, degree, a);
    case SuspendLate(_) =>
    case Exit(p) => if At(s, p, Closing) { ExitStep(s, degree, p); }
    case Wake(p, at) => if At(s, p, Blocked) { WakeStep(s, degree, p, at); }
    case MediumPop => if s.medium == M1 { MediumPopStep(s, degree); }
    case MediumPush => if s.medium.M3? { MediumPushStep(s, degree); }
    case _ => SemaphoreSteps(s, degree, a);
  }

  lemma {:induction false} StartSound(degree: nat, cpus: nat)
    ensures Sound(Start(degree, cpus), degree)
  {
    var s := Start(degree, cpus);
    assert Admitted(s) == {} && Threads(s.cpus, C1) == {} && Threads(s.cpus, C4) == {} && Threads(s.cpus, C5) == {};
  }

  /** Some step of the run suspends a process that was enlisted again too early. */
  predicate SuspendsLate(steps: seq<Step>) {
    exists i :: 0 <= i < |steps| && steps[i].SuspendLate?
  }

  /** Under every interleaving, early posts and late suspensions included: the long-term
      planner never takes a process when there is none, no CPU removes from an empty ready
      list, the medium-term planner never pops an empty queue. And unless a process is
      suspended late, admitted processes that are not suspended never outnumber the degree
      of multiprogramming. */
  lemma {:induction false} EveryRun(degree: nat, cpus: nat, steps: seq<Step>)
    ensures var o := Run(degree, cpus, steps);
      o.Moved? && Queued(o.s) && (!SuspendsLate(steps) ==> Sound(o.s, degree) && |Admitted(o.s)| <= degree)
  {
    hide Placed;
    if steps == [] {
      StartSound(degree, cpus);
    } else {
      var n := |steps| - 1;
      EveryRun(degree, cpus, steps[..n]);
      QueuedStep(Run(degree, cpus, steps[..n]).s, steps[n]);
      if !SuspendsLate(steps) {
        forall i | 0 <= i < n ensures !steps[..n][i].SuspendLate? { assert !steps[i].SuspendLate?; }
        TakeSound(Run(degree, cpus, steps[..n]).s, degree, steps[n]);
      }
    }
  }

  // ------------------------------------------------- who is served, and in what order

  /** The processes that wait in this place, in the order they are served: the medium-term
      planner keeps the one in its hand until its event has come. */
  ghost function Line(s: State, here: Place): seq<int>
    requires here in {New, Asleep, Awake}
  {
    if here == New then s.nuevos
    else if here == Awake then s.despiertos
    else (if s.medium.M2? || s.medium.M3? then [s.medium.p] else []) + s.dormidos
  }

  lemma {:induction false} LineHolds(s: State, here: Place)
    requires Placed(s) && here in {New, Asleep, Awake}
    ensures Holds(s, Line(s, here), here)
  {
    if here == Asleep {
      hide Holds;
      LineAsleep(s);
    }
  }

  lemma {:induction false} LineAsleep(s: State)
    requires NoDup(s.dormidos)
    requires forall p :: At(s, p, Asleep) <==> p in s.dormidos || s.medium == M2(p) || s.medium == M3(p)
    requires forall p :: p in s.dormidos ==> s.medium != M2(p) && s.medium != M3(p)
    ensures Holds(s, Line(s, Asleep), Asleep)
  {
    if s.medium.M2? || s.medium.M3? {
      InHand(s.medium.p, s.dormidos);
      hide NoDup;
    } else {
      assert Line(s, Asleep) == s.dormidos;
    }
  }

  lemma {:induction false} InHand(x: int, q: seq<int>)
    requires NoDup(q) && x !in q
    ensures NoDup([x] + q) && forall p :: p in [x] + q <==> p == x || p in q
  {
    assert forall i :: 0 < i < |[x] + q| ==> ([x] + q)[i] == q[i - 1] && ([x] + q)[i] in q;
  }

  /** A line grows behind and shrinks in front. */
  ghost predicate Queues(before: seq<int>, after: seq<int>) {
    || after == before
    || (|after| == |before| + 1 && after[..|before|] == before)
    || (before != [] && after == before[1..])
  }

  lemma {:induction false} LineStep(s: State, a: Step, s': State, here: Place)
    requires Placed(s) && Take(s, a) == Moved(s') && !a.SuspendLate? && here in {New, Asleep, Awake}
    ensures Queues(Line(s, here), Line(s', here))
  {
    hide Placed, Queues, Take;
    if here == New {
      LineNew(s, a);
    } else if here == Awake {
      LineAwake(s, a);
    } else {
      LineSleeps(s, a);
    }
  }

  lemma {:induction false} LineNew(s: State, a: Step)
    requires Take(s, a).Moved?
    ensures Queues(s.nuevos, Take(s, a).s.nuevos)
  {
  }

  lemma {:induction false} LineAwake(s: State, a: Step)
    requires Take(s, a).Moved?
    ensures Queues(s.despiertos, Take(s, a).s.despiertos)
  {
  }

  lemma {:induction false} LineSleeps(s: State, a: Step)
    requires Take(s, a).Moved? && !a.SuspendLate?
    ensures Queues(Line(s, Asleep), Line(Take(s, a).s, Asleep))
  {
    if a.Suspend? {
      var l := Line(s, Asleep);
      assert Line(Take(s, a).s, Asleep) == l + [s.cpus[a.k].p];
      assert (l + [s.cpus[a.k].p])[..|l|] == l;
    } else if OfMedium(a) {
      LineMedium(s, a);
    } else {
      SleepersKept(s, a);
      hide Take;
    }
  }

  predicate OfMedium(a: Step) {
    a.MediumTake? || a.MediumPop? || a.MediumEvent? || a.MediumPush? || a.MediumPost?
  }

  lemma {:induction false} SleepersKept(s: State, a: Step)
    requires Take(s, a).Moved? && !a.Suspend? && !a.SuspendLate? && !OfMedium(a)
    ensures Take(s, a).s.dormidos == s.dormidos && Take(s, a).s.medium == s.medium
  {
  }

  lemma {:induction false} LineMedium(s: State, a: Step)
    requires Take(s, a).Moved? && OfMedium(a)
    ensures Queues(Line(s, Asleep), Line(Take(s, a).s, Asleep))
  {
    var l, l' := Line(s, Asleep), Line(Take(s, a).s, Asleep);
    if a.MediumPop? {
      assert l' == l;
    } else if a.MediumPush? {
      assert l' == s.dormidos == l[1..];
    }
  }

  /** p is in the line, and q, if there too, comes later. */
  ghost predicate Before(line: seq<int>, p: int, q: int) {
    exists i :: 0 <= i < |line| && line[i] == p && forall j :: 0 <= j < |line| && line[j] == q ==> i < j
  }

  lemma {:induction false} BeforeStep(line: seq<int>, line': seq<int>, p: int, q: int)
    requires NoDup(line) && Before(line, p, q) && Queues(line, line') && p in line' && p != q && NoDup(line')
    ensures Before(line', p, q) && (q in line ==> q in line')
  {
    var i :| 0 <= i < |line| && line[i] == p && forall j :: 0 <= j < |line| && line[j] == q ==> i < j;
    if line != [] && line' == line[1..] {
      var m :| 0 <= m < |line'| && line'[m] == p;
      assert line[m + 1] == p && m + 1 == i;
      assert forall j :: 0 <= j < |line'| ==> line'[j] == line[j + 1];
      if q in line {
        var n :| 0 <= n < |line| && line[n] == q;
        assert line'[n - 1] == q;
      }
    } else {
      assert forall j :: 0 <= j < |line| ==> line'[j] == line[j];
      assert line'[i] == p;
    }
  }

  /** Where a run has got to: no run gets stuck or fails. */
  function Reached(degree: nat, cpus: nat, steps: seq<Step>): State {
    EveryRun(degree, cpus, steps);
    Run(degree, cpus, steps).s
  }

  /** p waits in this place all through the steps `more` that follow `steps`. */
  ghost predicate WaitsOn(degree: nat, cpus: nat, steps: seq<Step>, more: seq<Step>, p: int, here: Place) {
    forall n :: 0 <= n <= |more| ==> At(Reached(degree, cpus, steps + more[..n]), p, here)
  }

  lemma {:induction false} OneStep(degree: nat, cpus: nat, steps: seq<Step>, a: Step)
    ensures var s, s' := Reached(degree, cpus, steps), Reached(degree, cpus, steps + [a]);
      && Queued(s) && s' == (if Take(s, a).Moved? then Take(s, a).s else s)
      && (!SuspendsLate(steps + [a]) ==> !SuspendsLate(steps) && !a.SuspendLate? && Sound(s, degree))
  {
    hide Take, Queued, Sound;
    var more := steps + [a];
    assert more[..|steps|] == steps && more[|steps|] == a;
    EveryRun(degree, cpus, steps);
    EveryRun(degree, cpus, more);
    if i :| 0 <= i < |steps| && steps[i].SuspendLate? { assert more[i].SuspendLate?; }
  }

  /** While p waits, whoever was not there when it began to stays behind it. */
  lemma {:induction false} StaysBehind(degree: nat, cpus: nat, steps: seq<Step>, more: seq<Step>, p: int, q: int,
                                       here: Place)
    requires here in {New, Asleep, Awake} && !SuspendsLate(steps + more) && WaitsOn(degree, cpus, steps, more, p, here)
    requires !At(Reached(degree, cpus, steps), q, here)
    ensures Before(Line(Reached(degree, cpus, steps + more), here), p, q)
    decreases |more|
  {
    hide Run, Line, At, Placed, Before, SuspendsLate, Take;
    assert steps + more[..0] == steps && steps + more[..|more|] == steps + more;
    if more == [] {
      SoundThen(degree, cpus, steps);
      LineHolds(Reached(degree, cpus, steps), here);
      BeforeAlone(Line(Reached(degree, cpus, steps), here), p, q);
    } else {
      ShorterWait(degree, cpus, steps, more, p, here);
      StaysBehind(degree, cpus, steps, more[..|more| - 1], p, q, here);
      BehindStep(degree, cpus, steps + more[..|more| - 1], more[|more| - 1], p, q, here);
    }
  }

  lemma {:induction false} ShorterWait(degree: nat, cpus: nat, steps: seq<Step>, more: seq<Step>, p: int, here: Place)
    requires more != [] && !SuspendsLate(steps + more) && WaitsOn(degree, cpus, steps, more, p, here)
    ensures var less := more[..|more| - 1];
      && !SuspendsLate(steps + less) && WaitsOn(degree, cpus, steps, less, p, here)
      && steps + more == (steps + less) + [more[|more| - 1]]
      && At(Reached(degree, cpus, steps + more), p, here)
  {
    hide At, Reached;
    var less := more[..|more| - 1];
    assert steps + more[..|more|] == steps + more == (steps + less) + [more[|more| - 1]];
    forall n | 0 <= n <= |less| ensures less[..n] == more[..n] {}
    forall i | 0 <= i < |steps + less| ensures !(steps + less)[i].SuspendLate? {
      assert (steps + less)[i] == (steps + more)[i];
    }
  }

  lemma {:induction false} SoundThen(degree: nat, cpus: nat, steps: seq<Step>)
    requires !SuspendsLate(steps)
    ensures Sound(Reached(degree, cpus, steps), degree)
  {
    EveryRun(degree, cpus, steps);
  }

  lemma {:induction false} BeforeAlone(line: seq<int>, p: int, q: int)
    requires p in line && q !in line
    ensures Before(line, p, q)
  {
  }

  lemma {:induction false} BehindStep(degree: nat, cpus: nat, steps: seq<Step>, a: Step, p: int, q: int, here: Place)
    requires here in {New, Asleep, Awake} && !SuspendsLate(steps + [a]) && p != q
    requires Before(Line(Reached(degree, cpus, steps), here), p, q)
    requires At(Reached(degree, cpus, steps + [a]), p, here)
    ensures Before(Line(Reached(degree, cpus, steps + [a]), here), p, q)
    ensures At(Reached(degree, cpus, steps), q, here) ==> At(Reached(degree, cpus, steps + [a]), q, here)
  {
    hide Run, Line, Placed, Before, SuspendsLate, Take, Queues;
    OneStep(degree, cpus, steps, a);
    SoundThen(degree, cpus, steps + [a]);
    var s, s' := Reached(degree, cpus, steps), Reached(degree, cpus, steps + [a]);
    LineHolds(s, here);
    LineHolds(s', here);
    if Take(s, a).Moved? {
      LineStep(s, a, s', here);
      BeforeStep(Line(s, here), Line(s', here), p, q);
    }
  }

  /** Nobody is overtaken: who comes to cola_new, is suspended, or comes to suspendido_listo
      while p waits there is still there as long as p is. */
  lemma {:induction false} NoOvertaking(degree: nat, cpus: nat, steps: seq<Step>, more: seq<Step>, p: int, q: int,
                                        here: Place, n: nat)
    requires here in {New, Asleep, Awake} && !SuspendsLate(steps + more) && WaitsOn(degree, cpus, steps, more, p, here)
    requires !At(Reached(degree, cpus, steps), q, here)
    requires n <= |more| && At(Reached(degree, cpus, steps + more[..n]), q, here)
    ensures At(Reached(degree, cpus, steps + more), q, here)
    decreases |more|
  {
    hide Run, Reached, Line, At, Placed, Before, SuspendsLate, Take;
    assert more[..|more|] == more;
    if n < |more| {
      var less := more[..|more| - 1];
      assert less[..n] == more[..n] && more[..0] == [] && steps + [] == steps;
      ShorterWait(degree, cpus, steps, more, p, here);
      NoOvertaking(degree, cpus, steps, less, p, q, here, n);
      StaysBehind(degree, cpus, steps, less, p, q, here);
      BehindStep(degree, cpus, steps + less, more[|more| - 1], p, q, here);
    }
  }

  /** While the long-term planner is between its look and its pop, it keeps what it saw:
      both queues can only grow behind. */
  lemma {:induction false} SeenStep(s: State, a: Step)
    requires s.long in {LAwake, LNew} && !a.LongPop? && Take(s, a).Moved?
    ensures var s' := Take(s, a).s; s'.long == s.long && s.despiertos <= s'.despiertos && s.nuevos <= s'.nuevos
  {
  }

  lemma {:induction false} Seen(degree: nat, cpus: nat, steps: seq<Step>, between: seq<Step>)
    requires Reached(degree, cpus, steps).long == L2 && LongPop !in between
    ensures var s, s' := Reached(degree, cpus, steps), Reached(degree, cpus, steps + [LongLook] + between);
      && s'.long == (if s.despiertos != [] then LAwake else LNew)
      && s.despiertos <= s'.despiertos && s.nuevos <= s'.nuevos
      && (s.despiertos == [] ==> s.nuevos != [])
    decreases |between|
  {
    hide Reached;
    OneStep(degree, cpus, steps, LongLook);
    if between == [] {
      assert steps + [LongLook] + [] == steps + [LongLook];
    } else {
      var less, a := between[..|between| - 1], between[|between| - 1];
      Seen(degree, cpus, steps, less);
      assert steps + [LongLook] + between == (steps + [LongLook] + less) + [a];
      OneStep(degree, cpus, steps + [LongLook] + less, a);
      var t := Reached(degree, cpus, steps + [LongLook] + less);
      if Take(t, a).Moved? {
        hide Take;
        SeenStep(t, a);
      }
    }
  }

  /** Whatever other threads do between the look and the pop: if a suspended process that is
      ready waited at the look, the one admitted is the oldest of those; a new process is
      admitted only if none waited, and it is the oldest in cola_new. */
  lemma {:induction false} Admission(degree: nat, cpus: nat, steps: seq<Step>, between: seq<Step>)
    requires Reached(degree, cpus, steps).long == L2 && LongPop !in between
    ensures var s, t := Reached(degree, cpus, steps), Reached(degree, cpus, steps + [LongLook] + between);
      var t' := Reached(degree, cpus, steps + [LongLook] + between + [LongPop]);
      && (s.despiertos == [] ==> s.nuevos != [])
      && var p := (if s.despiertos != [] then s.despiertos[0] else s.nuevos[0]);
      && At(t', p, Admitting) && t'.long == L3(p) &&
         (forall q :: q != p && At(t', q, Admitting) ==> At(t, q, Admitting))
      && (if s.despiertos != [] then t.despiertos == [p] + t'.despiertos && t.nuevos == t'.nuevos
          else t.nuevos == [p] + t'.nuevos && t.despiertos == t'.despiertos)
  {
    hide Reached;
    Seen(degree, cpus, steps, between);
    OneStep(degree, cpus, steps + [LongLook] + between, LongPop);
  }

  /** The same by places: whoever is suspended and ready at the look comes before any new process. */
  lemma {:induction false} AwakeFirst(degree: nat, cpus: nat, steps: seq<Step>, between: seq<Step>, q: int, p: int)
    requires !SuspendsLate(steps + [LongLook] + between + [LongPop])
    requires Reached(degree, cpus, steps).long == L2 && LongPop !in between &&
             At(Reached(degree, cpus, steps), q, Awake)
    requires At(Reached(degree, cpus, steps + [LongLook] + between + [LongPop]), p, Admitting)
    ensures At(Reached(degree, cpus, steps), p, Awake)
  {
    hide Run, Reached, Placed, SuspendsLate;
    var most := steps + [LongLook] + between;
    Admission(degree, cpus, steps, between);
    OneStep(degree, cpus, most, LongPop);
    assert steps + ([LongLook] + between + [LongPop]) == most + [LongPop];
    EarlierOnTime(steps, [LongLook] + between + [LongPop]);
    SoundThen(degree, cpus, steps);
    SoundThen(degree, cpus, most + [LongPop]);
    QueueAwake(Reached(degree, cpus, steps), q);
    QueueAwake(Reached(degree, cpus, steps), Reached(degree, cpus, steps).despiertos[0]);
    OneAdmitting(Reached(degree, cpus, most + [LongPop]), p);
  }

  lemma {:induction false} EarlierOnTime(steps: seq<Step>, more: seq<Step>)
    requires !SuspendsLate(steps + more)
    ensures !SuspendsLate(steps)
  {
    forall i | 0 <= i < |steps| ensures !steps[i].SuspendLate? { assert steps[i] == (steps + more)[i]; }
  }

  lemma {:induction false} QueueAwake(s: State, q: int)
    requires Placed(s)
    ensures At(s, q, Awake) <==> q in s.despiertos
  {
  }

  lemma {:induction false} OneAdmitting(s: State, p: int)
    requires Placed(s) && At(s, p, Admitting)
    ensures s.long == L3(p)
  {
  }

  /** A step moves at most one process, and only along these ways. */
  predicate Way(from: Option<Place>, to: Place) {
    match to
    case New => from == None
    case Admitting => from == Some(New) || from == Some(Awake)
    case Ready => from == Some(Admitting) || from == Some(Running) || from == Some(Blocked)
    case Running => from == Some(Ready)
    case Blocked => from == Some(Running)
    case Closing => from == Some(Running)
    case Asleep => from == Some(Running)
    case Awake => from == Some(Asleep)
    case Gone => from == Some(Closing)
  }

  function Where(s: State, p: int): Option<Place> {
    if p in s.place then Some(s.place[p]) else None
  }

  ghost predicate MovesOnly(s: State, s': State, p: int) {
    forall q :: q != p ==> Where(s', q) == Where(s, q)
  }

  /** In every state reached on time: a step moves nobody, or one process along one of the
      ways; and a CPU runs the first of the ready list. */
  lemma {:induction false} Moves(s: State, degree: nat, a: Step, p: int)
    requires Sound(s, degree) && Take(s, a).Moved? && !a.SuspendLate? && Where(Take(s, a).s, p) != Where(s, p)
    ensures var s' := Take(s, a).s;
      && MovesOnly(s, s', p) && p in s'.place && Way(Where(s, p), s'.place[p])
      && (s'.place[p] == Running ==> s.listos == [p] + s'.listos)
      && (s'.place[p] == Awake ==> a.MediumPush? && s.medium == M3(p))
  {
    hide Queued, Accounted, Placed, Threads, Way, MovesOnly;
    WhereTheyAre(s);
    match a
    case LongPop => MovesLong(s, a, p);
    case LongEnlist(_) => MovesLong(s, a, p);
    case Arrive(_) => MovesOther(s, a, p);
    case Exit(_) => MovesOther(s, a, p);
    case Wake(_, _) => MovesOther(s, a, p);
    case MediumPush => MovesOther(s, a, p);
    case CpuRemove(_) => MovesOn(s, a, p);
    case _ => MovesCpu(s, a, p);
  }

  /** Heads of queues, and processes in a thread's hand, are where `place` says. */
  ghost predicate Sited(s: State) {
    && (s.nuevos != [] ==> At(s, s.nuevos[0], New)) && (s.despiertos != [] ==> At(s, s.despiertos[0], Awake))
    && (s.listos != [] ==> At(s, s.listos[0], Ready)) && (s.long.L3? ==> At(s, s.long.p, Admitting))
    && (s.medium.M3? ==> At(s, s.medium.p, Asleep))
    && forall k :: 0 <= k < |s.cpus| && s.cpus[k].C2? ==> At(s, s.cpus[k].p, Running)
  }

  lemma {:induction false} WhereTheyAre(s: State)
    requires Placed(s)
    ensures Sited(s)
  {
    if s.nuevos != [] { HoldsFirst(s, s.nuevos, New); }
    if s.despiertos != [] { HoldsFirst(s, s.despiertos, Awake); }
    if s.listos != [] { HoldsFirst(s, s.listos, Ready); }
    hide Holds;
  }

  lemma {:induction false} MovesLong(s: State, a: Step, p: int)
    requires Sited(s) && (a.LongPop? || a.LongEnlist?) && Take(s, a).Moved? && Where(Take(s, a).s, p) != Where(s, p)
    ensures var s' := Take(s, a).s;
      MovesOnly(s, s', p) && p in s'.place && Way(Where(s, p), s'.place[p]) && s'.place[p] !in {Running, Awake}
  {
  }

  lemma {:induction false} MovesOther(s: State, a: Step, p: int)
    requires Sited(s) && (a.Arrive? || a.Exit? || a.Wake? || a.MediumPush?) && Take(s, a).Moved? &&
             Where(Take(s, a).s, p) != Where(s, p)
    ensures var s' := Take(s, a).s;
      && MovesOnly(s, s', p) && p in s'.place && Way(Where(s, p), s'.place[p]) && s'.place[p] != Running
      && (s'.place[p] == Awake ==> a.MediumPush? && s.medium == M3(p))
  {
  }

  lemma {:induction false} MovesOn(s: State, a: Step, p: int)
    requires Sited(s) && a.CpuRemove? && Take(s, a).Moved? && Where(Take(s, a).s, p) != Where(s, p)
    ensures var s' := Take(s, a).s;
      && MovesOnly(s, s', p) && p in s'.place && Way(Where(s, p), s'.place[p]) && s'.place[p] == Running
      && s.listos == [p] + s'.listos
  {
  }

  lemma {:induction false} MovesCpu(s: State, a: Step, p: int)
    requires Sited(s) && !(a.LongPop? || a.LongEnlist? || a.Arrive? || a.Exit? || a.Wake? || a.MediumPush?)
    requires !a.CpuRemove? && !a.SuspendLate? && Take(s, a).Moved? && Where(Take(s, a).s, p) != Where(s, p)
    ensures var s' := Take(s, a).s;
      MovesOnly(s, s', p) && p in s'.place && Way(Where(s, p), s'.place[p]) && s'.place[p] !in {Running, Awake}
  {
  }

  /** The ready list keeps its order: a process is put in somewhere, or the first is taken. */
  lemma {:induction false} ReadyKeepsOrder(s: State, a: Step)
    requires Take(s, a).Moved?
    ensures var q, r := s.listos, Take(s, a).s.listos;
      r == q || (q != [] && r == q[1..]) || exists m, p :: 0 <= m <= |q| && r == q[..m] + [p] + q[m..]
  {
    hide Insert;
    match a
    case LongEnlist(at) => InsertIs(s.listos, at, s.long.p);
    case Hasten(k, at) => InsertIs(s.listos, at, s.cpus[k].p);
    case Wake(p, at) => InsertIs(s.listos, at, p);
    case _ =>
  }

  lemma {:induction false} InsertIs(q: seq<int>, at: nat, p: int)
    ensures exists m, x :: 0 <= m <= |q| && Insert(q, at, p) == q[..m] + [x] + q[m..]
    ensures at <= |q| ==> Insert(q, at, p) == q[..at] + [p] + q[at..]
  {
    var m := if at <= |q| then at else |q|;
    assert Insert(q, at, p) == q[..m] + [p] + q[m..];
  }

  /** p is suspended and its event has not come. */
  ghost predicate NoEventYet(s: State, p: int) {
    At(s, p, Asleep) && p !in s.fin && s.medium != M3(p)
  }

  lemma {:induction false} NoEventStep(s: State, degree: nat, a: Step, p: int)
    requires Sound(s, degree) && NoEventYet(s, p) && a != Event(p) && !a.SuspendLate? && Take(s, a).Moved?
    ensures NoEventYet(Take(s, a).s, p)
  {
    hide Sound, Placed, Queued, Take, Sited, MovesOnly;
    var s' := Take(s, a).s;
    if Where(s', p) != Where(s, p) { Moves(s, degree, a, p); }
    NoEventHand(s, a, p);
  }

  lemma {:induction false} NoEventHand(s: State, a: Step, p: int)
    requires p !in s.fin && s.medium != M3(p) && a != Event(p) && Take(s, a).Moved?
    ensures p !in Take(s, a).s.fin && Take(s, a).s.medium != M3(p)
  {
  }

  /** Nobody suspended comes back before its event. */
  lemma {:induction false} SleepsOn(degree: nat, cpus: nat, steps: seq<Step>, more: seq<Step>, p: int)
    requires !SuspendsLate(steps + more) && Event(p) !in more && NoEventYet(Reached(degree, cpus, steps), p)
    ensures NoEventYet(Reached(degree, cpus, steps + more), p)
    decreases |more|
  {
    hide Reached, Take, Sound, SuspendsLate, NoEventYet;
    if more == [] {
      assert steps + [] == steps;
    } else {
      var less, a := more[..|more| - 1], more[|more| - 1];
      assert steps + more == (steps + less) + [a];
      OneStep(degree, cpus, steps + less, a);
      SleepsOn(degree, cpus, steps, less, p);
      if Take(Reached(degree, cpus, steps + less), a).Moved? {
        NoEventStep(Reached(degree, cpus, steps + less), degree, a, p);
      }
    }
  }

  /** How often p's event came, and how often p came back from its suspension. */
  ghost function Tally(degree: nat, cpus: nat, steps: seq<Step>, p: int): (nat, nat) {
    if steps == [] then (0, 0)
    else
      var n := |steps| - 1;
      var less := steps[..n];
      var s, s', t := Reached(degree, cpus, less), Reached(degree, cpus, steps), Tally(degree, cpus, less, p);
      (t.0 + (if steps[n] == Event(p) && Take(s, steps[n]).Moved? then 1 else 0),
       t.1 + (if !At(s, p, Awake) && At(s', p, Awake) then 1 else 0))
  }

  /** Each return takes an event of its own. */
  lemma {:induction false} OneEventEach(degree: nat, cpus: nat, steps: seq<Step>, p: int)
    requires !SuspendsLate(steps)
    ensures var t, s := Tally(degree, cpus, steps, p), Reached(degree, cpus, steps);
      t.1 <= t.0 && t.0 == t.1 + B(p in s.fin) + B(s.medium == M3(p))
  {
    hide Run, SuspendsLate, Take, Sound, Queued;
    if steps == [] {
      RunNothing(degree, cpus);
    } else {
      var less, a := steps[..|steps| - 1], steps[|steps| - 1];
      assert steps == less + [a];
      OneStep(degree, cpus, less, a);
      OneEventEach(degree, cpus, less, p);
      var s := Reached(degree, cpus, less);
      if Take(s, a).Moved? { EventStep(s, degree, a, p); }
    }
  }

  lemma {:induction false} EventStep(s: State, degree: nat, a: Step, p: int)
    requires Sound(s, degree) && !a.SuspendLate? && Take(s, a).Moved?
    ensures var s' := Take(s, a).s;
      B(p in s'.fin) + B(s'.medium == M3(p)) + B(!At(s, p, Awake) && At(s', p, Awake)) ==
      B(p in s.fin) + B(s.medium == M3(p)) + B(a == Event(p))
  {
    hide Placed, Queued, Sited, MovesOnly, Take, Way;
    WhereTheyAre(s);
    if a.MediumPush? {
      PushStep(s, p);
    } else {
      if Where(Take(s, a).s, p) != Where(s, p) { Moves(s, degree, a, p); }
      NoPushStep(s, a, p);
    }
  }

  lemma {:induction false} PushStep(s: State, p: int)
    requires Sited(s) && Take(s, MediumPush).Moved?
    ensures var s' := Take(s, MediumPush).s;
      && s'.fin == s.fin && s'.medium != M3(p)
      && (!At(s, p, Awake) && At(s', p, Awake) <==> s.medium == M3(p))
  {
  }

  lemma {:induction false} NoPushStep(s: State, a: Step, p: int)
    requires !a.MediumPush? && Take(s, a).Moved?
    ensures B(p in Take(s, a).s.fin) + B(Take(s, a).s.medium == M3(p)) ==
            B(p in s.fin) + B(s.medium == M3(p)) + B(a == Event(p))
  {
  }

  /** What the threads do by themselves, without a process or its instance doing anything. */
  predicate Internal(a: Step) {
    match a
    case Announce | Publish => true
    case LongToken | LongElement | LongLook | LongPop | LongEnlist(_) | LongPublish => true
    case CpuTake(_) | CpuRemove(_) | SuspendPost(_) | PlacePost(_) | CpuForget(_) => true
    case MediumTake | MediumPop | MediumEvent | MediumPush | MediumPost => true
    case _ => false
  }

  /** The threads rest only for a reason: then nobody waits to be admitted, or all places are
      taken; nobody is ready, or each CPU has a process; nobody suspended is left to look at, or
      the medium-term planner waits for the event of the one it has. */
  lemma {:induction false} RestsForReason(s: State, degree: nat)
    requires Sound(s, degree) && forall a :: Internal(a) ==> Take(s, a).Disabled?
    ensures |s.nuevos| + |s.despiertos| == 0 || |Admitted(s)| == degree
    ensures s.listos == [] || forall k :: 0 <= k < |s.cpus| ==> s.cpus[k].C2? || s.cpus[k].C6?
    ensures s.dormidos == [] || (s.medium.M2? && s.medium.p !in s.fin)
  {
    hide Placed, Take, Internal;
    RestLong(s);
    RestMedium(s);
    forall k: nat | k < |s.cpus| ensures (s.cpus[k] == C0 && s.le <= 0) || s.cpus[k].C2? || s.cpus[k].C6? {
      RestCpu(s, k);
    }
    assert Threads(s.cpus, C1) == {} && Threads(s.cpus, C4) == {} && Threads(s.cpus, C5) == {};
  }

  lemma {:induction false} RestLong(s: State)
    requires Queued(s) && forall a :: Internal(a) ==> Take(s, a).Disabled?
    ensures s.toAnnounce == 0 && s.toPublish == 0
    ensures (s.long == L0 && s.cm <= 0) || (s.long == L1 && s.cn <= 0)
  {
    hide Queued, Threads;
    Rests(s, Announce);
    Rests(s, Publish);
    Rests(s, LongToken);
    Rests(s, LongElement);
    Rests(s, LongLook);
    Rests(s, LongPop);
    Rests(s, LongEnlist(0));
    Rests(s, LongPublish);
  }

  lemma {:induction false} Rests(s: State, a: Step)
    requires Internal(a) && forall b :: Internal(b) ==> Take(s, b).Disabled?
    ensures Take(s, a).Disabled?
  {
  }

  lemma {:induction false} RestMedium(s: State)
    requires Queued(s) && forall a :: Internal(a) ==> Take(s, a).Disabled?
    ensures (s.medium == M0 && s.cs <= 0) || (s.medium.M2? && s.medium.p !in s.fin)
  {
    hide Queued, Take;
    Rests(s, MediumTake);
    Rests(s, MediumPop);
    Rests(s, MediumEvent);
    Rests(s, MediumPush);
    Rests(s, MediumPost);
    MediumRests(s);
  }

  lemma {:induction false} MediumRests(s: State)
    requires Take(s, MediumTake).Disabled? && Take(s, MediumPop).Disabled? && Take(s, MediumEvent).Disabled?
    requires Take(s, MediumPush).Disabled? && Take(s, MediumPost).Disabled?
    ensures (s.medium == M0 && s.cs <= 0) || (s.medium.M2? && s.medium.p !in s.fin)
  {
  }

  lemma {:induction false} RestCpu(s: State, k: nat)
    requires k < |s.cpus| && forall a :: Internal(a) ==> Take(s, a).Disabled?
    ensures (s.cpus[k] == C0 && s.le <= 0) || s.cpus[k].C2? || s.cpus[k].C6?
  {
    Rests(s, CpuTake(k));
    Rests(s, CpuRemove(k));
    Rests(s, SuspendPost(k));
    Rests(s, PlacePost(k));
    Rests(s, CpuForget(k));
  }

  /** One more step of a run. */
  lemma {:induction false} Then(degree: nat, cpus: nat, steps: seq<Step>, a: Step, s: State) returns (more: seq<Step>)
    requires Run(degree, cpus, steps).Moved? && Take(Run(degree, cpus, steps).s, a) == Moved(s)
    ensures Run(degree, cpus, more) == Moved(s)
    ensures SuspendsLate(steps) || a.SuspendLate? ==> SuspendsLate(more)
  {
    more := steps + [a];
    assert more[..|steps|] == steps && more[|steps|] == a;
    if i :| 0 <= i < |steps| && steps[i].SuspendLate? { assert more[i].SuspendLate?; }
  }

  /** Process 1 arrives. */
  lemma {:induction false} Begun() returns (steps: seq<Step>)
    ensures Run(1, 2, steps) == Moved(State(0, 0, 0, 0, [1], [], [], [], map[1 := New], {}, L2, M0, [C0, C0], 0, 0))
  {
    hide Run, SuspendsLate;
    steps := [];
    RunNothing(1, 2);
    steps := Then(1, 2, steps, Arrive(1),
                  State(1, 0, 0, 0, [1], [], [], [], map[1 := New], {}, L0, M0, [C0, C0], 1, 0));
    steps := Then(1, 2, steps, Announce, State(1, 1, 0, 0, [1], [], [], [], map[1 := New], {}, L0, M0, [C0, C0], 0, 0));
    steps := Then(1, 2, steps, LongToken,
                  State(0, 1, 0, 0, [1], [], [], [], map[1 := New], {}, L1, M0, [C0, C0], 0, 0));
    steps := Then(1, 2, steps, LongElement,
                  State(0, 0, 0, 0, [1], [], [], [], map[1 := New], {}, L2, M0, [C0, C0], 0, 0));
  }

  /** It is admitted. */
  lemma {:induction false} Admitted1(before: seq<Step>) returns (steps: seq<Step>)
    requires Run(1, 2, before) == Moved(State(0, 0, 0, 0, [1], [], [], [], map[1 := New], {}, L2, M0, [C0, C0], 0, 0))
    ensures Run(1, 2, steps) == Moved(State(0, 0, 0, 1, [], [], [], [1], map[1 := Ready], {}, L0, M0, [C0, C0], 0, 0))
  {
    hide Run, SuspendsLate;
    steps := before;
    steps := Then(1, 2, steps, LongLook,
                  State(0, 0, 0, 0, [1], [], [], [], map[1 := New], {}, LNew, M0, [C0, C0], 0, 0));
    steps := Then(1, 2, steps, LongPop,
                  State(0, 0, 0, 0, [], [], [], [], map[1 := Admitting], {}, L3(1), M0, [C0, C0], 0, 0));
    steps := Then(1, 2, steps, LongEnlist(0),
                  State(0, 0, 0, 0, [], [], [], [1], map[1 := Ready], {}, L4, M0, [C0, C0], 0, 0));
    steps := Then(1, 2, steps, LongPublish,
                  State(0, 0, 0, 1, [], [], [], [1], map[1 := Ready], {}, L0, M0, [C0, C0], 0, 0));
  }

  /** Process 2 arrives. */
  lemma {:induction false} Waiting2(before: seq<Step>) returns (steps: seq<Step>)
    requires Run(1, 2, before) == Moved(State(0, 0, 0, 1, [], [], [], [1], map[1 := Ready], {}, L0, M0, [C0, C0], 0, 0))
    ensures Run(1, 2, steps) ==
            Moved(State(0, 1, 0, 1, [2], [], [], [1], map[1 := Ready, 2 := New], {}, L0, M0, [C0, C0], 0, 0))
  {
    hide Run, SuspendsLate;
    steps := before;
    steps := Then(1, 2, steps, Arrive(2),
                  State(0, 0, 0, 1, [2], [], [], [1], map[1 := Ready, 2 := New], {}, L0, M0, [C0, C0], 1, 0));
    steps := Then(1, 2, steps, Announce,
                  State(0, 1, 0, 1, [2], [], [], [1], map[1 := Ready, 2 := New], {}, L0, M0, [C0, C0], 0, 0));
  }

  /** Process 1 runs. */
  lemma {:induction false} Running1(before: seq<Step>) returns (steps: seq<Step>)
    requires Run(1, 2, before) ==
             Moved(State(0, 1, 0, 1, [2], [], [], [1], map[1 := Ready, 2 := New], {}, L0, M0, [C0, C0], 0, 0))
    ensures Run(1, 2, steps) ==
            Moved(State(0, 1, 0, 0, [2], [], [], [], map[1 := Running, 2 := New], {}, L0, M0, [C2(1), C0], 0, 0))
  {
    hide Run, SuspendsLate;
    steps := before;
    steps := Then(1, 2, steps, CpuTake(0),
                  State(0, 1, 0, 0, [2], [], [], [1], map[1 := Ready, 2 := New], {}, L0, M0, [C1, C0], 0, 0));
    steps := Then(1, 2, steps, CpuRemove(0),
                  State(0, 1, 0, 0, [2], [], [], [], map[1 := Running, 2 := New], {}, L0, M0, [C2(1), C0], 0, 0));
  }

  /** It is enlisted again too early. */
  lemma {:induction false} Hastened1(before: seq<Step>) returns (steps: seq<Step>)
    requires Run(1, 2, before) ==
             Moved(State(0, 1, 0, 0, [2], [], [], [], map[1 := Running, 2 := New], {}, L0, M0, [C2(1), C0], 0, 0))
    ensures Run(1, 2, steps) ==
            Moved(State(0, 1, 0, 1, [2], [], [], [1], map[1 := Ready, 2 := New], {}, L0, M0, [C6(1), C0], 0, 0))
  {
    hide Run, SuspendsLate;
    steps := before;
    steps := Then(1, 2, steps, Hasten(0, 0),
                  State(0, 1, 0, 0, [2], [], [], [1], map[1 := Ready, 2 := New], {}, L0, M0, [C6(1), C0], 0, 1));
    steps := Then(1, 2, steps, Publish,
                  State(0, 1, 0, 1, [2], [], [], [1], map[1 := Ready, 2 := New], {}, L0, M0, [C6(1), C0], 0, 0));
  }

  /** It is suspended all the same. */
  lemma {:induction false} SuspendedLate1(before: seq<Step>) returns (steps: seq<Step>)
    requires Run(1, 2, before) ==
             Moved(State(0, 1, 0, 1, [2], [], [], [1], map[1 := Ready, 2 := New], {}, L0, M0, [C6(1), C0], 0, 0))
    ensures Run(1, 2, steps) ==
            Moved(State(0, 1, 1, 1, [2], [1], [], [1], map[1 := Asleep, 2 := New], {}, L0, M0, [C5, C0], 0, 0))
    ensures SuspendsLate(steps)
  {
    hide Run, SuspendsLate;
    steps := before;
    steps := Then(1, 2, steps, SuspendLate(0),
                  State(0, 1, 0, 1, [2], [1], [], [1], map[1 := Asleep, 2 := New], {}, L0, M0, [C4, C0], 0, 0));
    steps := Then(1, 2, steps, SuspendPost(0),
                  State(0, 1, 1, 1, [2], [1], [], [1], map[1 := Asleep, 2 := New], {}, L0, M0, [C5, C0], 0, 0));
  }

  /** Its place is given back. */
  lemma {:induction false} PlaceBack(before: seq<Step>) returns (steps: seq<Step>)
    requires Run(1, 2, before) ==
             Moved(State(0, 1, 1, 1, [2], [1], [], [1], map[1 := Asleep, 2 := New], {}, L0, M0, [C5, C0], 0, 0))
    requires SuspendsLate(before)
    ensures Run(1, 2, steps) ==
            Moved(State(1, 1, 1, 0, [2], [1], [], [1], map[1 := Asleep, 2 := New], {}, L0, M0, [C0, C1], 0, 0))
    ensures SuspendsLate(steps)
  {
    hide Run, SuspendsLate;
    steps := before;
    steps := Then(1, 2, steps, PlacePost(0),
                  State(1, 1, 1, 1, [2], [1], [], [1], map[1 := Asleep, 2 := New], {}, L0, M0, [C0, C0], 0, 0));
    steps := Then(1, 2, steps, CpuTake(1),
                  State(1, 1, 1, 0, [2], [1], [], [1], map[1 := Asleep, 2 := New], {}, L0, M0, [C0, C1], 0, 0));
  }

  /** It runs again, and its place is taken. */
  lemma {:induction false} RunningAgain(before: seq<Step>) returns (steps: seq<Step>)
    requires Run(1, 2, before) ==
             Moved(State(1, 1, 1, 0, [2], [1], [], [1], map[1 := Asleep, 2 := New], {}, L0, M0, [C0, C1], 0, 0))
    requires SuspendsLate(before)
    ensures Run(1, 2, steps) ==
            Moved(State(0, 1, 1, 0, [2], [1], [], [], map[1 := Running, 2 := New], {}, L1, M0, [C0, C2(1)], 0, 0))
    ensures SuspendsLate(steps)
  {
    hide Run, SuspendsLate;
    steps := before;
    steps := Then(1, 2, steps, CpuRemove(1),
                  State(1, 1, 1, 0, [2], [1], [], [], map[1 := Running, 2 := New], {}, L0, M0, [C0, C2(1)], 0, 0));
    steps := Then(1, 2, steps, LongToken,
                  State(0, 1, 1, 0, [2], [1], [], [], map[1 := Running, 2 := New], {}, L1, M0, [C0, C2(1)], 0, 0));
  }

  /** Process 2 is let in. */
  lemma {:induction false} BothIn(before: seq<Step>) returns (steps: seq<Step>)
    requires Run(1, 2, before) ==
             Moved(State(0, 1, 1, 0, [2], [1], [], [], map[1 := Running, 2 := New], {}, L1, M0, [C0, C2(1)], 0, 0))
    requires SuspendsLate(before)
    ensures Run(1, 2, steps) ==
        Moved(State(0, 0, 1, 0, [], [1], [], [], map[1 := Running, 2 := Admitting], {}, L3(2), M0, [C0, C2(1)], 0, 0))
    ensures SuspendsLate(steps)
  {
    hide Run, SuspendsLate;
    steps := before;
    steps := Then(1, 2, steps, LongElement,
                  State(0, 0, 1, 0, [2], [1], [], [], map[1 := Running, 2 := New], {}, L2, M0, [C0, C2(1)], 0, 0));
    steps := Then(1, 2, steps, LongLook,
                  State(0, 0, 1, 0, [2], [1], [], [], map[1 := Running, 2 := New], {}, LNew, M0, [C0, C2(1)], 0, 0));
    steps := Then(1, 2, steps, LongPop,
        State(0, 0, 1, 0, [], [1], [], [], map[1 := Running, 2 := Admitting], {}, L3(2), M0, [C0, C2(1)], 0, 0));
  }

  lemma {:induction false} RunNothing(degree: nat, cpus: nat)
    ensures Run(degree, cpus, []) == Moved(Start(degree, cpus))
    ensures cpus == 2 ==> Start(degree, cpus).cpus == [C0, C0]
  {
  }

  /** That condition is needed: with degree 1, process 1 is posted before its CPU marks it,
      suspended all the same, and run by the other CPU; the place given back lets in
      process 2, and both are in memory. */
  lemma {:induction false} TooMany() returns (steps: seq<Step>)
    ensures SuspendsLate(steps)
    ensures var o := Run(1, 2, steps); o.Moved? && |Admitted(o.s)| == 2
  {
    steps := Begun();
    steps := Admitted1(steps);
    steps := Waiting2(steps);
    steps := Running1(steps);
    steps := Hastened1(steps);
    steps := SuspendedLate1(steps);
    steps := PlaceBack(steps);
    steps := RunningAgain(steps);
    steps := BothIn(steps);
    assert Admitted(Run(1, 2, steps).s) == {1, 2};
  }
}
