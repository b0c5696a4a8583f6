/** Deadlock detection: the wait-for nodes read off the semaphores, and the search
    that consumes them looking for a circle. */
module Deadlock {
  import opened Base
  import opened Semaphores

  /** A process that is recorded as holding one semaphore and is blocked on another. */
  datatype Node = Node(pid: int, held: string, waits: string)

  // -------------------------------------------------------- reading the graph

  /** The first semaphore, from i on, in whose queue the process is, or |sems|. */
  function BlockedAt(sems: seq<Sem>, pid: int, i: int): (k: int)
    requires 0 <= i <= |sems|
    ensures i <= k <= |sems| && (k < |sems| ==> pid in sems[k].blocked)
    ensures forall m :: i <= m < k ==> pid !in sems[m].blocked
    decreases |sems| - i
  {
    if i == |sems| || pid in sems[i].blocked then i else BlockedAt(sems, pid, i + 1)
  }

  /** The node semaphore i gives rise to, if its recorded holder is blocked somewhere. */
  function NodeOf(sems: seq<Sem>, i: int): Option<Node>
    requires 0 <= i < |sems|
  {
    var h := sems[i].takenBy;
    if h == NOBODY then None
    else
      var k := BlockedAt(sems, h, 0);
      if k == |sems| then None else Some(Node(h, sems[i].id, sems[k].id))
  }

  ghost function NodesUpTo(sems: seq<Sem>, n: int): seq<Node>
    requires 0 <= n <= |sems|
  {
    if n == 0 then []
    else NodesUpTo(sems, n - 1) + (match NodeOf(sems, n - 1) case None => [] case Some(x) => [x])
  }

  /** No two nodes hold the same semaphore. */
  ghost predicate OneEach(ns: seq<Node>) {
    forall i, j :: 0 <= i < j < |ns| ==> ns[i].held != ns[j].held
  }

  /** The nodes are exactly the edges of the recorded graph, one per held semaphore. */
  lemma {:induction false} NodesAre(sems: seq<Sem>, n: int)
    requires UniqueIds(sems) && 0 <= n <= |sems|
    ensures OneEach(NodesUpTo(sems, n))
    ensures forall x :: x in NodesUpTo(sems, n) <==> Gives(sems, n, x)
  {
    if n > 0 {
      NodesAre(sems, n - 1);
      hide Gives, UniqueIds, NodeOf;
      var before := NodesUpTo(sems, n - 1);
      NodeHeld(sems, n - 1);
      forall x ensures x in NodesUpTo(sems, n) <==> Gives(sems, n, x) {
        GivesMore(sems, n, x);
      }
      forall x | x in before ensures x.held != sems[n - 1].id {
        GivesHeld(sems, n - 1, x);
      }
    }
  }

  /** The nodes hold semaphores before position n, in the order of the semaphores. */
  ghost predicate InOrder(sems: seq<Sem>, ns: seq<Node>, n: int) {
    && (forall i :: 0 <= i < |ns| ==> 0 <= Named(sems, ns[i].held) < n)
    && forall i, j :: 0 <= i < j < |ns| ==> Named(sems, ns[i].held) < Named(sems, ns[j].held)
  }

  lemma {:induction false} NodesInOrder(sems: seq<Sem>, n: int)
    requires UniqueIds(sems) && 0 <= n <= |sems|
    ensures InOrder(sems, NodesUpTo(sems, n), n)
  {
    if n > 0 {
      NodesInOrder(sems, n - 1);
      NodeHeld(sems, n - 1);
      NamedIs(sems, n - 1);
      InOrderMore(sems, NodesUpTo(sems, n - 1), n);
      hide InOrder, Named;
    }
  }

  lemma {:induction false} InOrderMore(sems: seq<Sem>, ns: seq<Node>, n: int)
    requires InOrder(sems, ns, n - 1) && n > 0
    ensures InOrder(sems, ns + [], n)
    ensures forall x: Node :: Named(sems, x.held) == n - 1 ==> InOrder(sems, ns + [x], n)
  {
    hide Named;
    assert ns + [] == ns;
  }

  lemma {:induction false} NamedIs(sems: seq<Sem>, k: int)
    requires UniqueIds(sems) && 0 <= k < |sems|
    ensures Named(sems, sems[k].id) == k
  {
    assert Named(sems, sems[k].id) <= k;
  }

  lemma {:induction false} NodeHeld(sems: seq<Sem>, i: int)
    requires 0 <= i < |sems|
    ensures NodeOf(sems, i).Some? ==> NodeOf(sems, i).value.held == sems[i].id
  {
  }

  lemma {:induction false} GivesMore(sems: seq<Sem>, n: int, x: Node)
    requires 0 < n <= |sems|
    ensures Gives(sems, n, x) <==> Gives(sems, n - 1, x) || NodeOf(sems, n - 1) == Some(x)
  {
    hide NodeOf;
    if i :| 0 <= i < n && NodeOf(sems, i) == Some(x) {
      assert i < n - 1 ==> Gives(sems, n - 1, x);
    }
  }

  /** One of the first n semaphores gives rise to this node. */
  ghost predicate Gives(sems: seq<Sem>, n: int, x: Node)
    requires 0 <= n <= |sems|
  {
    exists i :: 0 <= i < n && NodeOf(sems, i) == Some(x)
  }

  lemma {:induction false} GivesHeld(sems: seq<Sem>, n: int, x: Node)
    requires UniqueIds(sems) && 0 <= n < |sems| && Gives(sems, n, x)
    ensures x.held != sems[n].id
  {
    var i :| 0 <= i < n && NodeOf(sems, i) == Some(x);
    assert x.held == sems[i].id;
  }

  // -------------------------------------------------------------- the search

  /** comparar_lista: the first node that holds what alf waits for, or -1. */
  ghost function Holder(alf: Node, ns: seq<Node>): (k: int)
    ensures -1 <= k < |ns| && (k >= 0 ==> ns[k].held == alf.waits)
    ensures forall i :: 0 <= i < (if k < 0 then |ns| else k) ==> ns[i].held != alf.waits
  {
    if ns == [] then -1
    else if ns[0].held == alf.waits then 0
    else var k := Holder(alf, ns[1..]); if k < 0 then -1 else k + 1
  }

  datatype Hunt = Hunt(closed: bool, list: seq<Node>, aux: seq<Node>)

  /** encontrar_circulo, its recursive answer taken as returned. */
  ghost function Chase(a: Node, list: seq<Node>, aux: seq<Node>): Hunt
    decreases |list|
  {
    var aux' := aux + [a];
    if Holder(a, aux') >= 0 then Hunt(true, list, aux')
    else
      var k := Holder(a, list);
      if k >= 0 then Chase(list[k], Without(list, k), aux') else Hunt(false, list, aux')
  }

  /** verificar_espera_circular. As written, what earlier starts left in aux stays there. */
  ghost function Verify(repaired: bool, list: seq<Node>, aux: seq<Node>): (h: Hunt)
    decreases |list|
  {
    if list == [] then Hunt(false, list, aux)
    else if list[0].pid > 0 then
      var h := Chase(list[0], list[1..], if repaired then [] else aux);
      ChaseShrinks(list[0], list[1..], if repaired then [] else aux);
      if h.closed then h else Verify(repaired, h.list, h.aux)
    else Verify(repaired, list[1..], aux)
  }

  lemma {:induction false} ChaseShrinks(a: Node, list: seq<Node>, aux: seq<Node>)
    ensures |Chase(a, list, aux).list| <= |list|
    decreases |list|
  {
    var k := Holder(a, list);
    if Holder(a, aux + [a]) < 0 && k >= 0 { ChaseShrinks(list[k], Without(list, k), aux + [a]); }
  }

  class Detector {
    const repaired: bool
    var lista: seq<Node>
    var aux: seq<Node>

    constructor (mended: bool)
      ensures repaired == mended && lista == [] && aux == []
    {
      repaired := mended;
      lista, aux := [], [];
    }

    /** The first half of deteccion_deadlock, with buscar_en_otras_listas. */
    method Enlistar(sems: seq<Sem>)
      modifies `lista
      ensures lista == NodesUpTo(sems, |sems|)
    {
      lista := [];
      var i := 0;
      while i < |sems|
        invariant 0 <= i <= |sems| && lista == NodesUpTo(sems, i)
      {
        if sems[i].takenBy != NOBODY {
          var n := BuscarEnOtrasListas(sems, sems[i].takenBy, sems[i].id);
          if n.Some? { lista := lista + [n.value]; }
        }
        i := i + 1;
      }
    }

    method BuscarEnOtrasListas(sems: seq<Sem>, pid: int, retenido: string) returns (n: Option<Node>)
      ensures var k := BlockedAt(sems, pid, 0); n == if k == |sems| then None else Some(Node(pid, retenido, sems[k].id))
    {
      var i := 0;
      while i < |sems|
        invariant 0 <= i <= |sems| && BlockedAt(sems, pid, 0) == BlockedAt(sems, pid, i)
      {
        var j := 0;
        while j < |sems[i].blocked|
          invariant 0 <= j <= |sems[i].blocked| && pid !in sems[i].blocked[..j]
        {
          if sems[i].blocked[j] == pid { return Some(Node(pid, retenido, sems[i].id)); }
          j := j + 1;
        }
        assert sems[i].blocked[..|sems[i].blocked|] == sems[i].blocked;
        i := i + 1;
      }
      return None;
    }

    method CompararLista(alf: Node, ns: seq<Node>) returns (k: int)
      ensures k == Holder(alf, ns)
    {
      k := 0;
      while k < |ns|
        invariant 0 <= k <= |ns| && forall i :: 0 <= i < k ==> ns[i].held != alf.waits
      {
        if ns[k].held == alf.waits { return; }
        k := k + 1;
      }
      k := -1;
    }

    method EncontrarCirculo(a: Node) returns (cerrado: bool)
      modifies `lista, `aux
      ensures Hunt(cerrado, lista, aux) == Chase(a, old(lista), old(aux))
      decreases |lista|
    {
      hide Holder;
      aux := aux + [a];
      var k := CompararLista(a, aux);
      if k >= 0 { return true; }
      k := CompararLista(a, lista);
      if k >= 0 {
        var b := lista[k];
        lista := lista[..k] + lista[k + 1..];
        cerrado := EncontrarCirculo(b);
      } else {
        cerrado := false;
      }
    }

    method VerificarEsperaCircular() returns (cerrado: bool)
      modifies `lista, `aux
      ensures Hunt(cerrado, lista, aux) == Verify(repaired, old(lista), [])
    {
      hide Holder, Chase;
      aux := [];
      cerrado := false;
      while lista != [] && !cerrado
        invariant if cerrado then Hunt(true, lista, aux) == Verify(repaired, old(lista), [])
                  else Verify(repaired, lista, aux) == Verify(repaired, old(lista), [])
        decreases |lista|, !cerrado
      {
        var a := lista[0];
        ghost var antes := lista;
        lista := lista[1..];
        if a.pid > 0 {
          if repaired { aux := []; }
          ChaseShrinks(a, lista, aux);
          cerrado := EncontrarCirculo(a);
        }
      }
    }

    /** deteccion_deadlock up to its first answer. */
    method Detectar(sems: seq<Sem>) returns (hay: bool)
      requires UniqueIds(sems) && HoldersLive(sems)
      modifies this
      ensures hay <==> WaitCircle(sems) || (!repaired && Merges(NodesUpTo(sems, |sems|)))
    {
      Enlistar(sems);
      hay := VerificarEsperaCircular();
      DetectionExact(sems);
    }
  }

  // ------------------------------------------------------- circles and chains

  /** Each node waits for what the next one holds. */
  ghost predicate Linked(c: seq<Node>) {
    forall i :: 0 <= i && i + 1 < |c| ==> c[i].waits == c[i + 1].held
  }

  ghost predicate Circle(c: seq<Node>) {
    |c| > 0 && Linked(c) && c[|c| - 1].waits == c[0].held
  }

  ghost predicate Among(c: seq<Node>, ns: seq<Node>) {
    forall x :: x in c ==> x in ns
  }

  ghost predicate HasCircle(ns: seq<Node>) {
    exists c :: Circle(c) && Among(c, ns)
  }

  /** A chain of different nodes that from some point on is a circle. */
  ghost predicate TailAndCircle(c: seq<Node>, k: int) {
    0 <= k < |c| && Linked(c) && Circle(c[k..])
  }

  /** From a on, the chain runs into a circle. */
  ghost predicate RunsIntoCircle(a: Node, ns: seq<Node>) {
    exists c, k :: TailAndCircle(c, k) && c[0] == a && Among(c, ns)
  }

  /** Nobody here holds what x waits for. */
  ghost predicate Dead(x: Node, ns: seq<Node>) {
    forall y :: y in ns ==> y.held != x.waits
  }

  /** What a chase adds to aux is a chain that begins with a: if the answer is yes it
      ends at a node that waits for one in aux; if no, at a dead end. Nothing is
      lost: each node is still in the list or has moved to aux. */
  ghost predicate Chased(a: Node, list: seq<Node>, aux: seq<Node>, h: Hunt) {
    && |aux| < |h.aux| && h.aux[..|aux|] == aux && h.aux[|aux|] == a && Linked(h.aux[|aux|..])
    && (if h.closed then Holder(h.aux[|h.aux| - 1], h.aux) >= 0
        else Dead(h.aux[|h.aux| - 1], h.aux) && Dead(h.aux[|h.aux| - 1], h.list))
    && multiset(h.aux) + multiset(h.list) == multiset(aux) + multiset{a} + multiset(list)
  }

  lemma {:induction false} ChaseChain(a: Node, list: seq<Node>, aux: seq<Node>)
    ensures Chased(a, list, aux, Chase(a, list, aux))
    decreases |list|
  {
    hide Chased, Holder;
    var k := Holder(a, list);
    if Holder(a, aux + [a]) >= 0 {
      ChasedAtOnce(a, list, aux, true);
    } else if k < 0 {
      ChasedAtOnce(a, list, aux, false);
    } else {
      ChaseChain(list[k], Without(list, k), aux + [a]);
      ChasedOn(a, list, aux, k, Chase(list[k], Without(list, k), aux + [a]));
    }
  }

  lemma {:induction false} ChasedAtOnce(a: Node, list: seq<Node>, aux: seq<Node>, closed: bool)
    requires if closed then Holder(a, aux + [a]) >= 0 else Holder(a, aux + [a]) < 0 && Holder(a, list) < 0
    ensures Chased(a, list, aux, Hunt(closed, list, aux + [a]))
  {
    var m := aux + [a];
    assert m[..|aux|] == aux && m[|aux|..] == [a];
  }

  lemma {:induction false} ChasedOn(a: Node, list: seq<Node>, aux: seq<Node>, k: int, h: Hunt)
    requires 0 <= k < |list| && list[k].held == a.waits && Chased(list[k], Without(list, k), aux + [a], h)
    ensures Chased(a, list, aux, h)
  {
    hide Holder;
    var m := aux + [a];
    TakeOut(list, k);
    assert h.aux[..|m|][|aux|] == a;
    LinkedMore(a, h.aux, |aux|);
    assert h.aux[..|aux|] == h.aux[..|m|][..|aux|];
  }

  /** A chain grows at the front. */
  lemma {:induction false} LinkedMore(a: Node, all: seq<Node>, n: nat)
    requires n + 1 < |all| && all[n] == a && a.waits == all[n + 1].held && Linked(all[n + 1..])
    ensures Linked(all[n..])
  {
    var c, d := all[n..], all[n + 1..];
    forall i | 0 <= i && i + 1 < |c| ensures c[i].waits == c[i + 1].held {
      assert c[i + 1] == d[i];
      if i > 0 { assert c[i] == d[i - 1]; }
    }
  }

  /** Different positions hold different semaphores, also in part of a list, reordered. */
  lemma {:induction false} OneEachPart(part: seq<Node>, ns: seq<Node>)
    requires OneEach(ns) && multiset(part) <= multiset(ns)
    ensures OneEach(part)
    ensures forall x, y :: x in part && y in part && x.held == y.held ==> x == y
  {
    forall x, y | x in ns && y in ns && x.held == y.held ensures x == y {
      SameNode(ns, x, y);
    }
    forall x | x in part ensures x in ns {
      assert x in multiset(part) && x in multiset(ns);
    }
    forall i, j | 0 <= i < j < |part| ensures part[i].held != part[j].held {
      OnceOnly(ns, part[i]);
      if part[i] == part[j] { Twice(part, i, j); }
    }
  }

  lemma {:induction false} SameNode(ns: seq<Node>, x: Node, y: Node)
    requires OneEach(ns) && x in ns && y in ns && x.held == y.held
    ensures x == y
  {
    var i :| 0 <= i < |ns| && ns[i] == x;
    var j :| 0 <= j < |ns| && ns[j] == y;
  }

  lemma {:induction false} OnceOnly(ns: seq<Node>, x: Node)
    requires OneEach(ns)
    ensures multiset(ns)[x] <= 1
  {
    if ns != [] {
      var m := ns[..|ns| - 1];
      assert ns == m + [ns[|ns| - 1]];
      OnceOnly(m, x);
      if x == ns[|ns| - 1] {
        forall i | 0 <= i < |m| ensures m[i] != x { assert ns[i].held != ns[|ns| - 1].held; }
        assert x !in m;
      }
    }
  }

  lemma {:induction false} Twice(part: seq<Node>, i: int, j: int)
    requires 0 <= i < j < |part| && part[i] == part[j]
    ensures multiset(part)[part[i]] >= 2
  {
    assert part == part[..j] + [part[j]] + part[j + 1..];
    assert part[..j][i] == part[i];
  }

  /** Following the waits from one node, there is only one way. */
  lemma {:induction false} OneWay(ns: seq<Node>, d: seq<Node>, c: seq<Node>)
    requires OneEach(ns) && Among(d, ns) && Among(c, ns) && Linked(d) && Linked(c)
    requires |d| > 0 && |c| > 0 && c[0] == d[0] && Dead(d[|d| - 1], ns)
    ensures |c| <= |d| && c == d[..|c|]
  {
    if |c| > 1 {
      var n := |c| - 1;
      var b := c[..n];
      assert forall x :: x in b ==> x in c;
      OneWay(ns, d, b);
      assert c[n - 1] == b[n - 1] == d[n - 1] && c[n - 1].waits == c[n].held && c[n] in ns;
      if n < |d| {
        SameNode(ns, c[n], d[n]);
        assert c == b + [c[n]];
      }
    }
  }

  /** Started with an empty auxiliary list, the search says yes exactly when the chain
      from that node runs into a circle; the list is then a tail and that circle. */
  lemma {:induction false} ChaseFromEmpty(a: Node, list: seq<Node>)
    requires OneEach([a] + list)
    ensures var h := Chase(a, list, []);
      && (h.closed <==> RunsIntoCircle(a, [a] + list))
      &&
         (h.closed ==>
          |h.aux| > 0 && h.aux[0] == a && Among(h.aux, [a] + list) &&
          TailAndCircle(h.aux, Holder(h.aux[|h.aux| - 1], h.aux)))
  {
    var ns, h := [a] + list, Chase(a, list, []);
    ChaseChain(a, list, []);
    assert h.aux[0..] == h.aux;
    Accounted(a, list, h);
    OneEachPart(h.aux, ns);
    var last := h.aux[|h.aux| - 1];
    if h.closed {
      ClosedIsCircle(h.aux, Holder(last, h.aux));
      assert RunsIntoCircle(a, ns);
    } else {
      forall x | x in ns ensures x.held != last.waits {
        assert x in multiset(ns);
        assert x in h.aux || x in h.list;
      }
      forall c: seq<Node>, k ensures !(TailAndCircle(c, k) && c[0] == a && Among(c, ns)) {
        if 0 <= k < |c| && Linked(c) && c[0] == a && Among(c, ns) { DeadEndNoCircle(ns, h.aux, c, k); }
      }
    }
  }

  lemma {:induction false} Accounted(a: Node, list: seq<Node>, h: Hunt)
    requires multiset(h.aux) + multiset(h.list) == multiset([]) + multiset{a} + multiset(list)
    ensures multiset(h.aux) + multiset(h.list) == multiset([a] + list)
    ensures multiset(h.aux) <= multiset([a] + list) && Among(h.aux, [a] + list)
  {
    forall x | x in h.aux ensures x in [a] + list {
      assert x in multiset(h.aux) + multiset(h.list);
    }
  }

  lemma {:induction false} ClosedIsCircle(c: seq<Node>, k: int)
    requires Linked(c) && 0 <= k < |c| && c[|c| - 1].waits == c[k].held
    ensures TailAndCircle(c, k)
  {
    var d := c[k..];
    forall i | 0 <= i && i + 1 < |d| ensures d[i].waits == d[i + 1].held {
      assert d[i] == c[k + i] && d[i + 1] == c[k + i + 1];
    }
  }

  lemma {:induction false} DeadEndNoCircle(ns: seq<Node>, d: seq<Node>, c: seq<Node>, k: int)
    requires OneEach(ns) && OneEach(d) && Among(d, ns) && Linked(d) && |d| > 0 && Dead(d[|d| - 1], ns)
    requires 0 <= k < |c| && Linked(c) && Among(c, ns) && c[0] == d[0]
    ensures !TailAndCircle(c, k)
  {
    OneWay(ns, d, c);
    var n := |c|;
    assert c[n - 1] == d[n - 1] && c[k] == d[k] && c[k] in ns;
    if n < |d| { assert d[n - 1].waits == d[n].held && d[k].held != d[n].held; }
    assert c[n - 1].waits != c[k].held;
    assert c[k..][n - k - 1] == c[n - 1] && c[k..][0] == c[k];
  }

  // ------------------------------------------------------- the whole search

  /** Every node seen so far leads, if anywhere, to one seen so far of lower rank. */
  ghost predicate Ranked(gone: seq<Node>, rank: map<string, nat>, top: nat, ns: seq<Node>) {
    && (forall x :: x in gone ==> x.held in rank)
    && (forall h :: h in rank ==> rank[h] < top && exists x :: x in gone && x.held == h)
    && (forall x, y :: x in gone && y in ns && y.held == x.waits ==> y in gone && rank[y.held] < rank[x.held])
  }

  lemma {:induction false} RankedNoCircle(gone: seq<Node>, rank: map<string, nat>, top: nat, ns: seq<Node>)
    requires Ranked(gone, rank, top, ns) && multiset(gone) == multiset(ns)
    ensures !HasCircle(ns)
  {
    forall x | x in ns ensures x in gone { assert x in multiset(ns); }
    forall c: seq<Node> ensures !(Circle(c) && Among(c, ns)) {
      if |c| > 0 && Linked(c) && Among(c, ns) {
        Falling(gone, rank, top, ns, c, |c| - 1);
        assert c[|c| - 1] in gone && c[0] in ns;
      }
    }
  }

  lemma {:induction false} Falling(gone: seq<Node>, rank: map<string, nat>, top: nat, ns: seq<Node>, c: seq<Node>,
                                   i: nat)
    requires Ranked(gone, rank, top, ns) && (forall x :: x in ns ==> x in gone) && Linked(c) && Among(c, ns) && i < |c|
    ensures c[0].held in rank && c[i].held in rank && rank[c[i].held] <= rank[c[0].held]
  {
    assert c[0] in ns && c[i] in ns;
    if i > 0 {
      Falling(gone, rank, top, ns, c, i - 1);
      assert c[i - 1] in ns && c[i - 1].waits == c[i].held;
    }
  }

  /** The ranks once a chain that came to a dead end has been seen too. */
  function Extended(rank: map<string, nat>, top: nat, c: seq<Node>): map<string, nat>
    decreases |c|
  {
    if c == [] then rank else Extended(rank, top, c[1..])[c[0].held := top + |c|]
  }

  lemma {:induction false} ExtendedAt(rank: map<string, nat>, top: nat, c: seq<Node>)
    requires OneEach(c) && forall x :: x in c ==> x.held !in rank
    ensures var r := Extended(rank, top, c);
      && (forall i :: 0 <= i < |c| ==> c[i].held in r && r[c[i].held] == top + |c| - i)
      && (forall h :: h in rank ==> h in r && r[h] == rank[h])
      && (forall h :: h in r ==> h in rank || exists i :: 0 <= i < |c| && c[i].held == h)
    decreases |c|
  {
    if c != [] {
      var d := c[1..];
      assert forall x :: x in d ==> x in c;
      ExtendedAt(rank, top, d);
      assert c[0] in c;
      var r := Extended(rank, top, c);
      assert r == Extended(rank, top, d)[c[0].held := top + |c|];
      hide Extended;
      forall i | 0 <= i < |c| ensures c[i].held in r && r[c[i].held] == top + |c| - i {
        if i > 0 { assert d[i - 1] == c[i] && c[0].held != c[i].held; }
      }
      forall h | h in r && h !in rank ensures exists i :: 0 <= i < |c| && c[i].held == h {
        if h != c[0].held {
          var i :| 0 <= i < |d| && d[i].held == h;
          assert c[i + 1] == d[i];
        }
      }
    }
  }

  lemma {:induction false} RankedMore(gone: seq<Node>, rank: map<string, nat>, top: nat, ns: seq<Node>, c: seq<Node>,
                                      list: seq<Node>)
    returns (r: map<string, nat>, top': nat)
    requires Ranked(gone, rank, top, ns) && OneEach(ns) && multiset(gone) + multiset(c) + multiset(list) == multiset(ns)
    requires |c| > 0 && Linked(c) && Dead(c[|c| - 1], c) && Dead(c[|c| - 1], list)
    ensures Ranked(gone + c, r, top', ns)
  {
    var all := gone + c;
    r, top' := Extended(rank, top, c), top + |c| + 1;
    hide OneEach, Linked, Dead, Ranked, Extended;
    PartsApart(gone, c, list, ns);
    NotRanked(gone, rank, top, ns, c);
    ExtendedAt(rank, top, c);
    RankedBelow(gone, rank, top, ns, c, r);
    RankedHeld(gone, rank, top, ns, c, r);
    forall x, y | x in all && y in ns && y.held == x.waits ensures y in all && r[y.held] < r[x.held] {
      RankedNext(gone, rank, top, ns, c, list, x, y);
    }
    RankedIs(all, r, top', ns);
  }

  lemma {:induction false} RankedIs(gone: seq<Node>, rank: map<string, nat>, top: nat, ns: seq<Node>)
    requires forall x :: x in gone ==> x.held in rank
    requires forall h :: h in rank ==> rank[h] < top && exists x :: x in gone && x.held == h
    requires forall x, y :: x in gone && y in ns && y.held == x.waits ==>
               y in gone && y.held in rank && x.held in rank && rank[y.held] < rank[x.held]
    ensures Ranked(gone, rank, top, ns)
  {
  }

  lemma {:induction false} RankedHeld(gone: seq<Node>, rank: map<string, nat>, top: nat, ns: seq<Node>, c: seq<Node>,
                                      r: map<string, nat>)
    requires Ranked(gone, rank, top, ns)
    requires forall i :: 0 <= i < |c| ==> c[i].held in r
    requires forall h :: h in rank ==> h in r
    ensures forall x :: x in gone + c ==> x.held in r
  {
  }

  lemma {:induction false} RankedNext(gone: seq<Node>, rank: map<string, nat>, top: nat, ns: seq<Node>, c: seq<Node>,
                                      list: seq<Node>, x: Node, y: Node)
    requires Ranked(gone, rank, top, ns) && OneEach(ns) && multiset(gone) + multiset(c) + multiset(list) == multiset(ns)
    requires |c| > 0 && Linked(c) && Dead(c[|c| - 1], c) && Dead(c[|c| - 1], list)
    requires forall z :: z in c ==> z.held !in rank
    requires x in gone + c && y in ns && y.held == x.waits
    ensures var r := Extended(rank, top, c); y in gone + c && y.held in r && x.held in r && r[y.held] < r[x.held]
  {
    hide OneEach, Linked, Dead, Extended;
    if x in gone {
      OneEachOf(gone, c, list, ns);
      ExtendedAt(rank, top, c);
      assert y in gone && x.held in rank && y.held in rank;
    } else {
      var i :| 0 <= i < |c| && c[i] == x;
      RankedStep(gone, rank, top, ns, c, list, i, y);
    }
  }

  lemma {:induction false} OneEachOf(gone: seq<Node>, c: seq<Node>, list: seq<Node>, ns: seq<Node>)
    requires OneEach(ns) && multiset(gone) + multiset(c) + multiset(list) == multiset(ns)
    ensures OneEach(c)
  {
    PartsApart(gone, c, list, ns);
  }

  lemma {:induction false} NotRanked(gone: seq<Node>, rank: map<string, nat>, top: nat, ns: seq<Node>, c: seq<Node>)
    requires Ranked(gone, rank, top, ns) && forall x, y :: x in c && y in gone ==> x.held != y.held
    ensures forall x :: x in c ==> x.held !in rank
  {
    forall x | x in c ensures x.held !in rank {
      assert x.held in rank ==> exists y :: y in gone && y.held == x.held;
    }
  }

  lemma {:induction false} RankedBelow(gone: seq<Node>, rank: map<string, nat>, top: nat, ns: seq<Node>, c: seq<Node>,
                                       r: map<string, nat>)
    requires Ranked(gone, rank, top, ns)
    requires forall i :: 0 <= i < |c| ==> c[i].held in r && r[c[i].held] == top + |c| - i
    requires forall h :: h in rank ==> h in r && r[h] == rank[h]
    requires forall h :: h in r ==> h in rank || exists i :: 0 <= i < |c| && c[i].held == h
    ensures forall h :: h in r ==> r[h] < top + |c| + 1 && exists x :: x in gone + c && x.held == h
  {
    forall h | h in r ensures r[h] < top + |c| + 1 && exists x :: x in gone + c && x.held == h {
      if h in rank {
        var x :| x in gone && x.held == h;
        assert x in gone + c;
      } else {
        var i :| 0 <= i < |c| && c[i].held == h;
        assert c[i] in gone + c;
      }
    }
  }

  lemma {:induction false} RankedStep(gone: seq<Node>, rank: map<string, nat>, top: nat, ns: seq<Node>, c: seq<Node>,
                                      list: seq<Node>, i: int, y: Node)
    requires Ranked(gone, rank, top, ns) && OneEach(ns) && multiset(gone) + multiset(c) + multiset(list) == multiset(ns)
    requires 0 <= i < |c| && Linked(c) && Dead(c[|c| - 1], c) && Dead(c[|c| - 1], list)
    requires forall x :: x in c ==> x.held !in rank
    requires y in ns && y.held == c[i].waits
    ensures y in gone + c
    ensures var r := Extended(rank, top, c); c[i].held in r && y.held in r && r[y.held] < r[c[i].held]
  {
    PartsApart(gone, c, list, ns);
    ExtendedAt(rank, top, c);
    if i + 1 < |c| {
      assert c[i + 1] in ns && c[i].waits == c[i + 1].held;
      SameNode(ns, y, c[i + 1]);
    } else {
      assert y !in c && y !in list;
      assert y in gone && y.held in rank;
    }
  }

  /** Three parts of a list in which no two nodes hold the same. */
  lemma {:induction false} PartsApart(gone: seq<Node>, c: seq<Node>, list: seq<Node>, ns: seq<Node>)
    requires OneEach(ns) && multiset(gone) + multiset(c) + multiset(list) == multiset(ns)
    ensures OneEach(c) && forall x, y :: x in c && y in gone ==> x.held != y.held
    ensures forall x :: x in ns <==> x in gone || x in c || x in list
  {
    OneEachPart(c, ns);
    forall x ensures x in ns <==> x in gone || x in c || x in list {
      assert x in multiset(ns) <==> x in multiset(gone) + multiset(c) + multiset(list);
    }
    forall x, y | x in c && y in gone ensures x.held != y.held {
      assert x in ns && y in ns;
      OnceOnly(ns, x);
      assert x == y ==> (multiset(gone) + multiset(c) + multiset(list))[x] >= 2;
      if x.held == y.held { SameNode(ns, x, y); }
    }
  }

  ghost predicate Live(ns: seq<Node>) {
    forall x :: x in ns ==> x.pid > 0
  }

  /** The search answers no only if there is no circle, whichever way it is coded. */
  lemma {:induction false} VerifyNo(repaired: bool, list: seq<Node>, aux: seq<Node>, gone: seq<Node>,
                                    rank: map<string, nat>, top: nat, ns: seq<Node>)
    requires OneEach(ns) && Live(ns) && multiset(gone) + multiset(list) == multiset(ns)
    requires Ranked(gone, rank, top, ns) && (!repaired ==> aux == gone)
    ensures !Verify(repaired, list, aux).closed ==> !HasCircle(ns)
    decreases |list|
  {
    hide Ranked, OneEach, HasCircle, Linked, Dead, Chase, Verify;
    if list == [] {
      RankedNoCircle(gone, rank, top, ns);
    } else {
      var from := if repaired then [] else aux;
      FirstIsLive(list, gone, ns);
      VerifyStep(repaired, list, aux);
      ChaseShrinks(list[0], list[1..], from);
      var h := Chase(list[0], list[1..], from);
      if !h.closed {
        var c := ChaseMoves(list, from, gone, ns);
        var rank', top' := RankedMore(gone, rank, top, ns, c, h.list);
        VerifyNo(repaired, h.list, h.aux, gone + c, rank', top', ns);
      }
    }
  }

  lemma {:induction false} FirstIsLive(list: seq<Node>, gone: seq<Node>, ns: seq<Node>)
    requires Live(ns) && list != [] && multiset(gone) + multiset(list) == multiset(ns)
    ensures list[0].pid > 0
  {
    assert list[0] in multiset(gone) + multiset(list);
    assert list[0] in ns;
  }

  lemma {:induction false} VerifyStep(repaired: bool, list: seq<Node>, aux: seq<Node>)
    requires list != [] && list[0].pid > 0
    ensures var h := Chase(list[0], list[1..], if repaired then [] else aux);
      Verify(repaired, list, aux) == if h.closed then h else Verify(repaired, h.list, h.aux)
  {
    ChaseShrinks(list[0], list[1..], if repaired then [] else aux);
  }

  /** A chase that came to a dead end has moved its chain out of the list. */
  lemma {:induction false} ChaseMoves(list: seq<Node>, from: seq<Node>, gone: seq<Node>, ns: seq<Node>)
    returns (c: seq<Node>)
    requires list != [] && multiset(gone) + multiset(list) == multiset(ns) && !Chase(list[0], list[1..], from).closed
    ensures var h := Chase(list[0], list[1..], from);
      && h.aux == from + c && |c| > 0 && c[0] == list[0] && Linked(c)
      && multiset(gone) + multiset(c) + multiset(h.list) == multiset(ns) &&
         multiset(gone + c) + multiset(h.list) == multiset(ns)
      && Dead(c[|c| - 1], c) && Dead(c[|c| - 1], h.list) && Dead(c[|c| - 1], from)
  {
    hide Chase, Holder, Linked, Dead;
    var a, rest := list[0], list[1..];
    assert list == [a] + rest;
    ChaseChain(a, rest, from);
    var h := Chase(a, rest, from);
    c := h.aux[|from|..];
    assert h.aux == from + c && c[|c| - 1] == h.aux[|h.aux| - 1];
    DeadParts(c[|c| - 1], from, c);
    MovedCount(multiset(gone), multiset(from), multiset(c), multiset(h.list), multiset{a}, multiset(rest),
               multiset(ns));
  }

  lemma {:induction false} DeadParts(x: Node, a: seq<Node>, b: seq<Node>)
    requires Dead(x, a + b)
    ensures Dead(x, a) && Dead(x, b)
  {
    assert forall y :: y in a || y in b ==> y in a + b;
  }

  lemma {:induction false} MovedCount<T>(g: multiset<T>, f: multiset<T>, c: multiset<T>, l: multiset<T>,
                                         a: multiset<T>, r: multiset<T>, ns: multiset<T>)
    requires g + (a + r) == ns && f + c + l == f + a + r
    ensures g + c + l == ns
  {
    forall t ensures (g + c + l)[t] == ns[t] {
      assert (f + c + l)[t] == (f + a + r)[t] && (g + (a + r))[t] == ns[t];
    }
  }

  /** Completeness: a circle in the recorded graph is always reported, even by the
      search as written. */
  lemma {:induction false} CircleIsFound(repaired: bool, ns: seq<Node>)
    requires OneEach(ns) && Live(ns) && HasCircle(ns)
    ensures Verify(repaired, ns, []).closed
  {
    VerifyNo(repaired, ns, [], [], map[], 0, ns);
  }

  /** Soundness of the repaired search: it reports a tail and a real circle. */
  lemma {:induction false} FoundIsCircle(list: seq<Node>, aux: seq<Node>, ns: seq<Node>)
    requires OneEach(ns) && multiset(list) <= multiset(ns)
    ensures var h := Verify(true, list, aux);
      h.closed ==>
        |h.aux| > 0 && Among(h.aux, ns) && TailAndCircle(h.aux, Holder(h.aux[|h.aux| - 1], h.aux)) && HasCircle(ns)
    decreases |list|
  {
    hide OneEach, TailAndCircle, HasCircle, Chase, Holder, Among;
    if list != [] {
      var a, rest := list[0], list[1..];
      assert list == [a] + rest;
      if a.pid > 0 {
        var h := Chase(a, rest, []);
        ChaseShrinks(a, rest, []);
        PartChase(a, rest, list, ns);
        if !h.closed { FoundIsCircle(h.list, h.aux, ns); }
      } else {
        FoundIsCircle(rest, aux, ns);
      }
    }
  }

  lemma {:induction false} PartChase(a: Node, rest: seq<Node>, list: seq<Node>, ns: seq<Node>)
    requires list == [a] + rest && OneEach(ns) && multiset(list) <= multiset(ns)
    ensures var h := Chase(a, rest, []);
      && multiset(h.list) <= multiset(ns)
      &&
         (h.closed ==>
            |h.aux| > 0 && Among(h.aux, ns) && TailAndCircle(h.aux, Holder(h.aux[|h.aux| - 1], h.aux)) && HasCircle(ns))
  {
    hide OneEach, Linked, Chase, Holder, Circle, HasCircle, TailAndCircle, Dead;
    var h := Chase(a, rest, []);
    OneEachPart(list, ns);
    ChaseFromEmpty(a, rest);
    ChaseChain(a, rest, []);
    Accounted(a, rest, h);
    PartMulti(h.list, h.aux, list, ns);
    if h.closed { TailHasCircle(h.aux, Holder(h.aux[|h.aux| - 1], h.aux), ns); }
  }

  lemma {:induction false} PartMulti(l: seq<Node>, x: seq<Node>, list: seq<Node>, ns: seq<Node>)
    requires multiset(x) + multiset(l) == multiset(list) && multiset(list) <= multiset(ns)
    ensures multiset(l) <= multiset(ns) && Among(x, ns)
  {
    forall t ensures multiset(l)[t] <= multiset(ns)[t] && multiset(x)[t] <= multiset(ns)[t] {
      assert (multiset(x) + multiset(l))[t] == multiset(list)[t];
    }
    forall t | t in x ensures t in ns { assert t in multiset(x) && t in multiset(ns); }
  }

  lemma {:induction false} TailHasCircle(c: seq<Node>, k: int, ns: seq<Node>)
    requires TailAndCircle(c, k) && Among(c, ns)
    ensures HasCircle(ns)
  {
    assert Circle(c[k..]) && Among(c[k..], ns);
  }

  /** The search as written can report a circle where there is none: the second start
      runs into what the first one left behind. */
  lemma {:induction false} FalseAlarm(x: Node, y: Node)
    requires x == Node(1, "A", "B") && y == Node(2, "C", "A")
    ensures Verify(false, [x, y], []).closed && !HasCircle([x, y]) && !Verify(true, [x, y], []).closed
  {
    assert [x, y][1..] == [y] && [y][1..] == [];
    assert Holder(x, [] + [x]) < 0 && Holder(x, [y]) < 0;
    assert Chase(x, [y], []) == Hunt(false, [y], [x]);
    assert Holder(y, [x] + [y]) == 0;
    assert Holder(y, [y]) < 0 && Holder(y, []) < 0;
    assert Chase(y, [], []) == Hunt(false, [], [y]);
    assert Verify(true, [], [y]) == Hunt(false, [], [y]);
    assert Verify(true, [y], [x]) == Hunt(false, [], [y]);
    VerifyNo(true, [x, y], [], [], map[], 0, [x, y]);
  }

  // ------------------------------- exactly when the search as written says yes

  ghost predicate Path(ns: seq<Node>, p: seq<Node>, x: Node, y: Node) {
    |p| > 0 && p[0] == x && p[|p| - 1] == y && Linked(p) && Among(p, ns)
  }

  ghost predicate Reach(ns: seq<Node>, x: Node, y: Node) {
    exists p :: Path(ns, p, x, y)
  }

  ghost predicate Meet(ns: seq<Node>, x: Node, y: Node) {
    exists m :: Reach(ns, x, m) && Reach(ns, y, m)
  }

  /** Two chains run together, and no node up to the earlier one leads to the later. */
  ghost predicate MergeAt(ns: seq<Node>, i: int, j: int) {
    0 <= i < j < |ns| && Meet(ns, ns[i], ns[j]) && forall k :: 0 <= k <= i ==> !Reach(ns, ns[k], ns[j])
  }

  ghost predicate Merges(ns: seq<Node>) {
    exists i, j :: MergeAt(ns, i, j)
  }

  /** list is what remains of ns, in order, at the positions idx. */
  ghost predicate Remains(list: seq<Node>, ns: seq<Node>, idx: seq<int>) {
    && |idx| == |list|
    && (forall t :: 0 <= t < |idx| ==> 0 <= idx[t] < |ns| && list[t] == ns[idx[t]])
    && (forall t, u :: 0 <= t < u < |idx| ==> idx[t] < idx[u])
  }

  /** Each node seen belongs to the chain that began at position st of it: a node seen,
      no later than itself, that leads to it; and a chain keeps together. */
  ghost predicate Begun(gone: seq<Node>, ns: seq<Node>, st: map<string, int>) {
    && (forall x :: x in gone ==> x.held in st && BegunAt(gone, ns, x, st[x.held]))
    && (forall x, y :: x in gone && y in ns && y.held == x.waits ==> y in gone && st[y.held] == st[x.held])
  }

  ghost predicate BegunAt(gone: seq<Node>, ns: seq<Node>, x: Node, s: int) {
    && 0 <= s < |ns| && ns[s] in gone && Reach(ns, ns[s], x)
    && forall i :: 0 <= i < |ns| && ns[i] == x ==> s <= i
  }

  ghost predicate BegunBefore(st: map<string, int>, idx: seq<int>) {
    forall h, t :: h in st && 0 <= t < |idx| ==> st[h] < idx[t]
  }

  /** Along a path, nodes seen lead to nodes seen, of the same chain. */
  lemma {:induction false} PathStays(gone: seq<Node>, ns: seq<Node>, st: map<string, int>, p: seq<Node>, x: Node,
                                     y: Node)
    requires Begun(gone, ns, st) && Path(ns, p, x, y) && x in gone
    ensures y in gone && st[y.held] == st[x.held]
    decreases |p|
  {
    if |p| > 1 {
      assert p[1] in ns && p[0].waits == p[1].held;
      var q := p[1..];
      assert forall z :: z in q ==> z in p;
      forall i | 0 <= i && i + 1 < |q| ensures q[i].waits == q[i + 1].held {
        assert q[i] == p[i + 1] && q[i + 1] == p[i + 2];
      }
      PathStays(gone, ns, st, q, p[1], y);
    }
  }

  lemma {:induction false} NotYetSeen(list: seq<Node>, gone: seq<Node>, ns: seq<Node>, x: Node)
    requires OneEach(ns) && multiset(gone) + multiset(list) == multiset(ns)
    ensures x in ns <==> x in gone || x in list
    ensures !(x in gone && x in list)
  {
    OnceOnly(ns, x);
    assert x in multiset(ns) <==> x in multiset(gone) + multiset(list);
    assert multiset(gone)[x] + multiset(list)[x] == multiset(ns)[x] <= 1;
  }

  /** Positions before those that remain are of nodes seen. */
  lemma {:induction false} EarlierSeen(list: seq<Node>, gone: seq<Node>, ns: seq<Node>, idx: seq<int>, k: int)
    requires OneEach(ns) && multiset(gone) + multiset(list) == multiset(ns) && Remains(list, ns, idx)
    requires list != [] && 0 <= k < idx[0]
    ensures ns[k] in gone
  {
    NotYetSeen(list, gone, ns, ns[k]);
    forall t | 0 <= t < |list| ensures list[t] != ns[k] {
      assert idx[0] <= idx[t] && ns[k].held != ns[idx[t]].held;
    }
  }

  lemma {:induction false} LaterRemain(list: seq<Node>, ns: seq<Node>, idx: seq<int>, x: Node, i: int)
    requires OneEach(ns) && Remains(list, ns, idx) && x in list && 0 <= i < |ns| && ns[i] == x
    ensures idx[0] <= i
  {
    var t :| 0 <= t < |list| && list[t] == x;
    assert idx[0] <= idx[t];
  }

  /** A start that runs into an earlier chain: two chains merge. */
  lemma {:induction false} RunsIntoEarlier(list: seq<Node>, gone: seq<Node>, ns: seq<Node>, idx: seq<int>,
                                           st: map<string, int>, c: seq<Node>, x: Node)
    requires OneEach(ns) && multiset(gone) + multiset(list) == multiset(ns) && Remains(list, ns, idx) && list != []
    requires Begun(gone, ns, st) && BegunBefore(st, idx)
    requires |c| > 0 && c[0] == list[0] && Linked(c) && Among(c, ns) && x in gone && x.held == c[|c| - 1].waits
    ensures Merges(ns)
  {
    var i, j := st[x.held], idx[0];
    BegunEarlier(list, gone, ns, idx, st, x);
    NotYetSeen(list, gone, ns, x);
    ReachMore(ns, c, x);
    hide Begun, Reach, Remains, OneEach, BegunBefore, Linked, Among, Path;
    forall k | 0 <= k <= i ensures !Reach(ns, ns[k], ns[j]) {
      NotReached(list, gone, ns, idx, st, k);
    }
    assert MergeAt(ns, i, j);
  }

  lemma {:induction false} BegunEarlier(list: seq<Node>, gone: seq<Node>, ns: seq<Node>, idx: seq<int>,
                                        st: map<string, int>, x: Node)
    requires Remains(list, ns, idx) && list != [] && Begun(gone, ns, st) && BegunBefore(st, idx) && x in gone
    ensures x.held in st && 0 <= st[x.held] < idx[0] < |ns| && Reach(ns, ns[st[x.held]], x) && ns[idx[0]] == list[0]
  {
    assert BegunAt(gone, ns, x, st[x.held]);
  }

  lemma {:induction false} ReachMore(ns: seq<Node>, c: seq<Node>, x: Node)
    requires |c| > 0 && Linked(c) && Among(c, ns) && x in ns && x.held == c[|c| - 1].waits
    ensures Reach(ns, c[0], x)
  {
    var p := c + [x];
    assert Path(ns, p, c[0], x);
  }

  /** What was seen does not lead to what remains. */
  lemma {:induction false} NotReached(list: seq<Node>, gone: seq<Node>, ns: seq<Node>, idx: seq<int>,
                                      st: map<string, int>, k: int)
    requires OneEach(ns) && multiset(gone) + multiset(list) == multiset(ns) && Remains(list, ns, idx) && list != []
    requires Begun(gone, ns, st) && 0 <= k < idx[0] < |ns|
    ensures !Reach(ns, ns[k], ns[idx[0]])
  {
    EarlierSeen(list, gone, ns, idx, k);
    assert ns[idx[0]] == list[0];
    NotYetSeen(list, gone, ns, list[0]);
    forall q ensures !Path(ns, q, ns[k], list[0]) {
      if Path(ns, q, ns[k], list[0]) { PathStays(gone, ns, st, q, ns[k], list[0]); }
    }
  }

  /** All seen, each chain by itself: no two chains merge. */
  lemma {:induction false} NoMerge(gone: seq<Node>, ns: seq<Node>, st: map<string, int>)
    requires multiset(gone) == multiset(ns) && Begun(gone, ns, st)
    ensures !Merges(ns)
  {
    forall x | x in ns ensures x in gone { assert x in multiset(ns); }
    forall i, j ensures !MergeAt(ns, i, j) {
      if 0 <= i < j < |ns| && Meet(ns, ns[i], ns[j]) {
        var m :| Reach(ns, ns[i], m) && Reach(ns, ns[j], m);
        var p :| Path(ns, p, ns[i], m);
        var q :| Path(ns, q, ns[j], m);
        PathStays(gone, ns, st, p, ns[i], m);
        PathStays(gone, ns, st, q, ns[j], m);
        assert BegunAt(gone, ns, ns[i], st[ns[i].held]) && BegunAt(gone, ns, ns[j], st[ns[j].held]);
        assert Reach(ns, ns[st[ns[i].held]], ns[j]);
      }
    }
  }

  /** The beginnings, once a chain that came to a dead end has been seen too. */
  lemma {:induction false} BegunMore(list: seq<Node>, gone: seq<Node>, ns: seq<Node>, idx: seq<int>,
                                     st: map<string, int>,
                                     c: seq<Node>, rest: seq<Node>) returns (st': map<string, int>)
    requires OneEach(ns) && multiset(gone) + multiset(list) == multiset(ns) && Remains(list, ns, idx) && list != []
    requires Begun(gone, ns, st) && multiset(gone) + multiset(c) + multiset(rest) == multiset(ns)
    requires |c| > 0 && c[0] == list[0] && Linked(c) && Dead(c[|c| - 1], c) && Dead(c[|c| - 1], rest) &&
             Dead(c[|c| - 1], gone)
    ensures Begun(gone + c, ns, st')
    ensures forall h :: h in st' ==> st'[h] == idx[0] || (h in st && st'[h] == st[h])
  {
    hide StartMap;
    st' := StartMap(st, c, idx[0]);
    PartsApart(gone, c, rest, ns);
    BegunAll(list, gone, ns, idx, st, c, rest);
    BegunTogether(gone, ns, st, c, rest, idx[0]);
  }

  /** st, with the nodes of c beginning at s. */
  ghost function StartMap(st: map<string, int>, c: seq<Node>, s: int): (r: map<string, int>)
    ensures forall x :: x in c ==> x.held in r && r[x.held] == s
    ensures forall h :: h in st && (forall x :: x in c ==> x.held != h) ==> h in r && r[h] == st[h]
    ensures forall h :: h in r ==> r[h] == s || (h in st && r[h] == st[h])
  {
    var mine := set x | x in c :: x.held;
    map h | h in st.Keys + mine :: if h in mine then s else st[h]
  }

  lemma {:induction false} BegunAll(list: seq<Node>, gone: seq<Node>, ns: seq<Node>, idx: seq<int>,
                                    st: map<string, int>, c: seq<Node>, rest: seq<Node>)
    requires OneEach(ns) && multiset(gone) + multiset(list) == multiset(ns) && Remains(list, ns, idx) && list != []
    requires Begun(gone, ns, st) && multiset(gone) + multiset(c) + multiset(rest) == multiset(ns)
    requires |c| > 0 && c[0] == list[0] && Linked(c)
    ensures var st' := StartMap(st, c, idx[0]);
      forall x :: x in gone + c ==> x.held in st' && BegunAt(gone + c, ns, x, st'[x.held])
  {
    hide StartMap;
    var st', all := StartMap(st, c, idx[0]), gone + c;
    PartsApart(gone, c, rest, ns);
    forall x | x in all ensures x.held in st' && BegunAt(all, ns, x, st'[x.held]) {
      if x in gone {
        BegunStill(gone, all, ns, x, st[x.held]);
      } else {
        var i :| 0 <= i < |c| && c[i] == x;
        BegunHere(list, gone, ns, idx, c, rest, i);
        assert c[0] in all;
      }
    }
  }

  lemma {:induction false} BegunTogether(gone: seq<Node>, ns: seq<Node>, st: map<string, int>, c: seq<Node>,
                                         rest: seq<Node>, s: int)
    requires OneEach(ns) && Begun(gone, ns, st) && multiset(gone) + multiset(c) + multiset(rest) == multiset(ns)
    requires |c| > 0 && Linked(c) && Dead(c[|c| - 1], c) && Dead(c[|c| - 1], rest) && Dead(c[|c| - 1], gone)
    ensures var st' := StartMap(st, c, s);
      forall x, y :: x in gone + c && y in ns && y.held == x.waits ==>
        y in gone + c && y.held in st' && x.held in st' && st'[y.held] == st'[x.held]
  {
    hide StartMap, Linked, Dead, OneEach;
    var st', all := StartMap(st, c, s), gone + c;
    forall x, y | x in all && y in ns && y.held == x.waits
      ensures y in all && y.held in st' && x.held in st' && st'[y.held] == st'[x.held]
    {
      if x in gone {
        GoneTogether(gone, ns, st, c, rest, s, x, y);
      } else {
        var i :| 0 <= i < |c| && c[i] == x;
        NextInChain(gone, ns, c, rest, i, y);
      }
    }
  }

  lemma {:induction false} GoneTogether(gone: seq<Node>, ns: seq<Node>, st: map<string, int>, c: seq<Node>,
                                        rest: seq<Node>, s: int, x: Node, y: Node)
    requires OneEach(ns) && Begun(gone, ns, st) && multiset(gone) + multiset(c) + multiset(rest) == multiset(ns)
    requires x in gone && y in ns && y.held == x.waits
    ensures var st' := StartMap(st, c, s);
      y in gone && y.held in st' && x.held in st' && st'[y.held] == st'[x.held]
  {
    PartsApart(gone, c, rest, ns);
    hide StartMap, OneEach, BegunAt;
    assert y in gone;
    assert forall z :: z in c ==> z.held != x.held && z.held != y.held;
  }

  lemma {:induction false} BegunStill(gone: seq<Node>, all: seq<Node>, ns: seq<Node>, x: Node, s: int)
    requires BegunAt(gone, ns, x, s) && forall z :: z in gone ==> z in all
    ensures BegunAt(all, ns, x, s)
  {
  }

  lemma {:induction false} NextInChain(gone: seq<Node>, ns: seq<Node>, c: seq<Node>, rest: seq<Node>, i: int, y: Node)
    requires OneEach(ns) && multiset(gone) + multiset(c) + multiset(rest) == multiset(ns)
    requires 0 <= i < |c| && Linked(c) && Dead(c[|c| - 1], c) && Dead(c[|c| - 1], rest) && Dead(c[|c| - 1], gone)
    requires y in ns && y.held == c[i].waits
    ensures y in c
  {
    PartsApart(gone, c, rest, ns);
    if i + 1 < |c| {
      assert c[i + 1] in ns && c[i].waits == c[i + 1].held;
      SameNode(ns, y, c[i + 1]);
    }
  }

  lemma {:induction false} BegunHere(list: seq<Node>, gone: seq<Node>, ns: seq<Node>, idx: seq<int>, c: seq<Node>,
                                     rest: seq<Node>, i: int)
    requires OneEach(ns) && multiset(gone) + multiset(list) == multiset(ns) && Remains(list, ns, idx) && list != []
    requires multiset(gone) + multiset(c) + multiset(rest) == multiset(ns)
    requires 0 <= i < |c| && c[0] == list[0] && Linked(c)
    ensures c[0] == ns[idx[0]] && Reach(ns, ns[idx[0]], c[i])
    ensures forall k :: 0 <= k < |ns| && ns[k] == c[i] ==> idx[0] <= k
  {
    PartsApart(gone, c, rest, ns);
    assert c[i] in ns && c[i] !in gone;
    NotYetSeen(list, gone, ns, c[i]);
    assert Path(ns, c[..i + 1], c[0], c[i]);
    forall k | 0 <= k < |ns| && ns[k] == c[i] ensures idx[0] <= k {
      LaterRemain(list, ns, idx, c[i], k);
    }
  }

  /** What a chase leaves of the list still remains in order. */
  lemma {:induction false} ChaseRemains(a: Node, list: seq<Node>, aux: seq<Node>, ns: seq<Node>, idx: seq<int>)
    returns (idx': seq<int>)
    requires Remains(list, ns, idx)
    ensures Remains(Chase(a, list, aux).list, ns, idx') && forall t :: 0 <= t < |idx'| ==> idx'[t] in idx
    decreases |list|
  {
    hide Holder;
    idx' := idx;
    var k := Holder(a, list);
    if Holder(a, aux + [a]) < 0 && k >= 0 {
      var fewer := idx[..k] + idx[k + 1..];
      assert forall t :: 0 <= t < |fewer| ==> fewer[t] == idx[if t < k then t else t + 1];
      idx' := ChaseRemains(list[k], Without(list, k), aux + [a], ns, fewer);
    }
  }

  lemma {:induction false} AsWrittenSearch(list: seq<Node>, gone: seq<Node>, ns: seq<Node>, idx: seq<int>,
                                           st: map<string, int>)
    requires OneEach(ns) && Live(ns) && multiset(gone) + multiset(list) == multiset(ns) && Remains(list, ns, idx)
    requires Begun(gone, ns, st) && BegunBefore(st, idx)
    ensures Verify(false, list, gone).closed ==> HasCircle(ns) || Merges(ns)
    ensures !Verify(false, list, gone).closed ==> !Merges(ns)
    decreases |list|
  {
    hide Begun, BegunBefore, OneEach, HasCircle, Merges, Linked, Dead, Chase, Verify, Remains;
    if list == [] {
      VerifyNothing(gone);
      NoMerge(gone, ns, st);
    } else {
      FirstIsLive(list, gone, ns);
      VerifyStep(false, list, gone);
      ChaseShrinks(list[0], list[1..], gone);
      var h := Chase(list[0], list[1..], gone);
      if h.closed {
        AsWrittenCloses(list, gone, ns, idx, st);
      } else {
        var c := ChaseMoves(list, gone, gone, ns);
        var st' := BegunMore(list, gone, ns, idx, st, c, h.list);
        var idx' := AsWrittenGoesOn(list, gone, ns, idx, st, st');
        AsWrittenSearch(h.list, h.aux, ns, idx', st');
      }
    }
  }

  lemma {:induction false} VerifyNothing(aux: seq<Node>)
    ensures !Verify(false, [], aux).closed
  {
  }

  lemma {:induction false} AsWrittenGoesOn(list: seq<Node>, gone: seq<Node>, ns: seq<Node>, idx: seq<int>,
                                           st: map<string, int>, st': map<string, int>)
    returns (idx': seq<int>)
    requires Remains(list, ns, idx) && list != [] && BegunBefore(st, idx)
    requires forall h :: h in st' ==> st'[h] == idx[0] || (h in st && st'[h] == st[h])
    ensures Remains(Chase(list[0], list[1..], gone).list, ns, idx') && BegunBefore(st', idx')
  {
    var later := idx[1..];
    assert forall t :: 0 <= t < |later| ==> later[t] == idx[t + 1];
    idx' := ChaseRemains(list[0], list[1..], gone, ns, later);
    forall h, t | h in st' && 0 <= t < |idx'| ensures st'[h] < idx'[t] {
      var u :| 0 <= u < |later| && later[u] == idx'[t];
      assert idx[0] < idx[u + 1];
    }
  }

  lemma {:induction false} AsWrittenCloses(list: seq<Node>, gone: seq<Node>, ns: seq<Node>, idx: seq<int>,
                                           st: map<string, int>)
    requires OneEach(ns) && multiset(gone) + multiset(list) == multiset(ns) && Remains(list, ns, idx) && list != []
    requires Begun(gone, ns, st) && BegunBefore(st, idx) && Chase(list[0], list[1..], gone).closed
    ensures HasCircle(ns) || Merges(ns)
  {
    hide Begun, BegunBefore, OneEach, HasCircle, Merges, Dead, Chase, Remains, Chased;
    var h := Chase(list[0], list[1..], gone);
    ChaseChain(list[0], list[1..], gone);
    var c, k := ChasedParts(list[0], list[1..], gone, h);
    AmongAll(gone, c, h.list, list, ns);
    if k >= |gone| {
      ClosedIsCircle(c, k - |gone|);
      TailHasCircle(c, k - |gone|, ns);
    } else {
      RunsIntoEarlier(list, gone, ns, idx, st, c, gone[k]);
    }
  }

  /** A chase that closed: the chain it added, and where its last node points. */
  lemma {:induction false} ChasedParts(a: Node, list: seq<Node>, aux: seq<Node>, h: Hunt) returns (c: seq<Node>, k: int)
    requires Chased(a, list, aux, h) && h.closed
    ensures h.aux == aux + c && |c| > 0 && c[0] == a && Linked(c) && 0 <= k < |aux| + |c|
    ensures c[|c| - 1].waits == if k >= |aux| then c[k - |aux|].held else aux[k].held
    ensures multiset(aux + c) + multiset(h.list) == multiset(aux) + multiset{a} + multiset(list)
  {
    c := h.aux[|aux|..];
    assert h.aux == aux + c && c[|c| - 1] == h.aux[|h.aux| - 1];
    k := Holder(c[|c| - 1], h.aux);
    assert k < |aux| ==> h.aux[k] == aux[k];
    assert k >= |aux| ==> h.aux[k] == c[k - |aux|];
  }

  lemma {:induction false} AmongAll(gone: seq<Node>, c: seq<Node>, l: seq<Node>, list: seq<Node>, ns: seq<Node>)
    requires multiset(gone) + multiset(list) == multiset(ns) && list != []
    requires multiset(gone + c) + multiset(l) == multiset(gone) + multiset{list[0]} + multiset(list[1..])
    ensures Among(c, ns)
  {
    assert list == [list[0]] + list[1..];
    forall x | x in c ensures x in ns {
      assert x in gone + c && x in multiset(gone + c) + multiset(l);
      assert x in multiset(gone) + multiset(list) && x in multiset(ns);
    }
  }

  /** The search as written says yes exactly when there is a circle, or when two
      chains run together and the later start is not led to by an earlier node. */
  lemma {:induction false} AsWrittenExact(ns: seq<Node>)
    requires OneEach(ns) && Live(ns)
    ensures Verify(false, ns, []).closed <==> HasCircle(ns) || Merges(ns)
  {
    var idx := seq(|ns|, i requires 0 <= i < |ns| => i);
    AsWrittenSearch(ns, [], ns, idx, map[]);
    VerifyNo(false, ns, [], [], map[], 0, ns);
  }

  // --------------------------------------------- from semaphores to the answer

  /** Recorded holders that are blocked are processes, whose numbers are positive. */
  ghost predicate HoldersLive(sems: seq<Sem>) {
    forall i :: 0 <= i < |sems| && NodeOf(sems, i).Some? ==> sems[i].takenBy > 0
  }

  /** The recorded holder of semaphore i is blocked, first of all, on semaphore k. */
  ghost predicate WaitsFor(sems: seq<Sem>, i: int, k: int) {
    0 <= i < |sems| && 0 <= k < |sems| && sems[i].takenBy != NOBODY && BlockedAt(sems, sems[i].takenBy, 0) == k
  }

  ghost predicate WaitChain(sems: seq<Sem>, w: seq<int>) {
    forall j :: 0 < j < |w| ==> WaitsFor(sems, w[j - 1], w[j])
  }

  /** Some semaphores' recorded holders wait for one another, round in a circle. */
  ghost predicate WaitCircle(sems: seq<Sem>) {
    exists w: seq<int> :: |w| > 0 && WaitChain(sems, w) && WaitsFor(sems, w[|w| - 1], w[0])
  }

  /** End to end: from the semaphores' records to the answer, repaired or as written. */
  lemma {:induction false} DetectionExact(sems: seq<Sem>)
    requires UniqueIds(sems) && HoldersLive(sems)
    ensures var ns := NodesUpTo(sems, |sems|);
      && (Verify(true, ns, []).closed <==> WaitCircle(sems))
      && (Verify(false, ns, []).closed <==> WaitCircle(sems) || Merges(ns))
  {
    var ns := NodesUpTo(sems, |sems|);
    NodesRecorded(sems);
    hide Recorded, HoldersLive, UniqueIds, WaitCircle, HasCircle, Merges, Verify, NodesUpTo, TailAndCircle;
    if HasCircle(ns) {
      CircleIsFound(true, ns);
      CircleOfNodes(sems, ns);
    }
    if WaitCircle(sems) { CircleOfSems(sems, ns); }
    FoundIsCircle(ns, [], ns);
    AsWrittenExact(ns);
  }

  lemma {:induction false} NodesRecorded(sems: seq<Sem>)
    requires UniqueIds(sems) && HoldersLive(sems)
    ensures var ns := NodesUpTo(sems, |sems|); OneEach(ns) && Live(ns) && forall x :: x in ns <==> Recorded(sems, x)
  {
    NodesAre(sems, |sems|);
    forall x | x in NodesUpTo(sems, |sems|) ensures x.pid > 0 {
      var i :| 0 <= i < |sems| && NodeOf(sems, i) == Some(x);
    }
  }

  /** A node's semaphores, by name. */
  lemma {:induction false} NodeNamed(sems: seq<Sem>, x: Node, i: int)
    requires UniqueIds(sems) && 0 <= i < |sems| && NodeOf(sems, i) == Some(x)
    ensures Named(sems, x.held) == i && WaitsFor(sems, i, Named(sems, x.waits))
  {
    var k := BlockedAt(sems, x.pid, 0);
    assert sems[i].id == x.held && sems[k].id == x.waits;
  }

  ghost predicate Recorded(sems: seq<Sem>, x: Node) {
    Gives(sems, |sems|, x)
  }

  lemma {:induction false} RecordedNamed(sems: seq<Sem>, x: Node)
    requires UniqueIds(sems) && Recorded(sems, x)
    ensures WaitsFor(sems, Named(sems, x.held), Named(sems, x.waits))
  {
    var i :| 0 <= i < |sems| && NodeOf(sems, i) == Some(x);
    NodeNamed(sems, x, i);
  }

  lemma {:induction false} WaitRecorded(sems: seq<Sem>, i: int, k: int)
    requires WaitsFor(sems, i, k)
    ensures Recorded(sems, Node(sems[i].takenBy, sems[i].id, sems[k].id))
  {
    assert NodeOf(sems, i) == Some(Node(sems[i].takenBy, sems[i].id, sems[k].id));
  }

  lemma {:induction false} CircleOfNodes(sems: seq<Sem>, ns: seq<Node>)
    requires UniqueIds(sems) && HasCircle(ns) && forall x :: x in ns ==> Recorded(sems, x)
    ensures WaitCircle(sems)
  {
    hide Recorded, WaitsFor, UniqueIds, Named;
    var c: seq<Node> :| Circle(c) && Among(c, ns);
    var w := seq(|c|, j requires 0 <= j < |c| => Named(sems, c[j].held));
    forall j | 0 <= j < |c| ensures WaitsFor(sems, w[j], Named(sems, c[j].waits)) {
      assert c[j] in ns;
      RecordedNamed(sems, c[j]);
    }
    forall j | 0 < j < |w| ensures WaitsFor(sems, w[j - 1], w[j]) {
      var n := j - 1;
      assert WaitsFor(sems, w[n], Named(sems, c[n].waits)) && c[n].waits == c[n + 1].held;
    }
    assert WaitChain(sems, w);
    assert WaitsFor(sems, w[|w| - 1], Named(sems, c[|c| - 1].waits));
  }

  /** Who comes next on the way round w. */
  function Next(w: seq<int>, j: int): int
    requires 0 <= j < |w|
  {
    if j + 1 < |w| then w[j + 1] else w[0]
  }

  lemma {:induction false} CircleOfSems(sems: seq<Sem>, ns: seq<Node>)
    requires WaitCircle(sems) && forall x :: Recorded(sems, x) ==> x in ns
    ensures HasCircle(ns)
  {
    hide Recorded, BlockedAt;
    var w: seq<int> :| |w| > 0 && WaitChain(sems, w) && WaitsFor(sems, w[|w| - 1], w[0]);
    forall j | 0 <= j < |w| ensures WaitsFor(sems, w[j], Next(w, j)) {
      var n := j + 1;
      if n < |w| { assert WaitsFor(sems, w[n - 1], w[n]); }
    }
    hide WaitsFor, WaitChain;
    NodesRound(sems, ns, w);
  }

  ghost function EdgeOf(sems: seq<Sem>, i: int, k: int): (x: Node)
    requires WaitsFor(sems, i, k)
    ensures x.held == sems[i].id && x.waits == sems[k].id && Recorded(sems, x)
  {
    WaitRecorded(sems, i, k);
    Node(sems[i].takenBy, sems[i].id, sems[k].id)
  }

  lemma {:induction false} NodesRound(sems: seq<Sem>, ns: seq<Node>, w: seq<int>)
    requires |w| > 0 && (forall j :: 0 <= j < |w| ==> WaitsFor(sems, w[j], Next(w, j))) &&
             forall x :: Recorded(sems, x) ==> x in ns
    ensures HasCircle(ns)
  {
    hide Recorded, WaitsFor;
    var c := seq(|w|, j requires 0 <= j < |w| => EdgeOf(sems, w[j], Next(w, j)));
    forall j | 0 <= j && j + 1 < |c| ensures c[j].waits == c[j + 1].held {
      assert c[j] == EdgeOf(sems, w[j], w[j + 1]);
    }
    assert c[|c| - 1] == EdgeOf(sems, w[|w| - 1], w[0]);
    assert Circle(c) && Among(c, ns);
  }
}
