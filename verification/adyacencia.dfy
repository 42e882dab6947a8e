/** Weighted adjacency lists and the operations the traversals apply to them:
    the stable sort by descending weight and the selection of unvisited
    neighbours. */
module Adyacencia {
  import opened Wrappers

  /** One entry `(vecino_id, score)` of a weighted adjacency list. */
  datatype Arista = Arista(destino: string, peso: real)

  type Adyacencias = map<string, seq<Arista>>

  /** The adjacency list of `id`, or the empty list when `id` has none. */
  function Obtener(adj: Adyacencias, id: string): seq<Arista> {
    if id in adj then adj[id] else []
  }

  /** The ids a list of entries points to. */
  function DestinosDe(l: seq<Arista>): set<string> {
    set e | e in l :: e.destino
  }

  /** The neighbours of `id`. */
  function Vecinos(adj: Adyacencias, id: string): set<string> {
    DestinosDe(Obtener(adj, id))
  }

  /** No two entries point to the same vertex. */
  predicate DestinosDistintos(l: seq<Arista>) {
    forall x, y | 0 <= x < y < |l| :: l[x].destino != l[y].destino
  }

  predicate Descendente(l: seq<Arista>) {
    forall i, j | 0 <= i < j < |l| :: l[i].peso >= l[j].peso
  }

  /** The entries of weight `w`, in list order. */
  function ConPeso(l: seq<Arista>, w: real): (r: seq<Arista>)
    ensures |r| <= |l|
  {
    if l == [] then []
    else (if l[0].peso == w then [l[0]] else []) + ConPeso(l[1..], w)
  }

  lemma {:induction false} ConPesoConcatenar(x: seq<Arista>, y: seq<Arista>, w: real)
    ensures ConPeso(x + y, w) == ConPeso(x, w) + ConPeso(y, w)
  {
    if x == [] {
      assert x + y == y;
    } else {
      var h := if x[0].peso == w then [x[0]] else [];
      assert (x + y)[0] == x[0];
      assert (x + y)[1..] == x[1..] + y;
      calc {
        ConPeso(x + y, w);
        h + ConPeso(x[1..] + y, w);
        { ConPesoConcatenar(x[1..], y, w); }
        h + (ConPeso(x[1..], w) + ConPeso(y, w));
        (h + ConPeso(x[1..], w)) + ConPeso(y, w);
        ConPeso(x, w) + ConPeso(y, w);
      }
    }
  }

  /** Inserts `e` before the first entry of weight at most its own. */
  function Insertar(e: Arista, l: seq<Arista>): (r: seq<Arista>)
    requires Descendente(l)
    ensures Descendente(r)
    ensures forall x | x in r :: x == e || x in l
  {
    if l == [] then [e]
    else if l[0].peso <= e.peso then [e] + l
    else
      var resto := Insertar(e, l[1..]);
      assert l == [l[0]] + l[1..];
      assert forall x | x in resto :: l[0].peso >= x.peso;
      [l[0]] + resto
  }

  lemma {:induction false} InsertarPermuta(e: Arista, l: seq<Arista>)
    requires Descendente(l)
    ensures multiset(Insertar(e, l)) == multiset(l) + multiset{e}
  {
    if l != [] && l[0].peso > e.peso {
      InsertarPermuta(e, l[1..]);
      assert l == [l[0]] + l[1..];
    }
  }

  /** Insertion is stable: `e` goes before every entry of its own weight. */
  lemma ConPesoUno(x: Arista, w: real)
    ensures ConPeso([x], w) == if x.peso == w then [x] else []
  {
    assert [x][1..] == [];
  }

  lemma {:induction false} InsertarConPeso(e: Arista, l: seq<Arista>, w: real)
    requires Descendente(l)
    ensures ConPeso(Insertar(e, l), w) == (if e.peso == w then [e] else []) + ConPeso(l, w)
  {
    var h := if e.peso == w then [e] else [];
    ConPesoUno(e, w);
    if l == [] {
      assert Insertar(e, l) == [e];
    } else if l[0].peso <= e.peso {
      assert Insertar(e, l) == [e] + l;
      ConPesoConcatenar([e], l, w);
    } else {
      var resto := Insertar(e, l[1..]);
      assert Insertar(e, l) == [l[0]] + resto;
      assert l == [l[0]] + l[1..];
      InsertarConPeso(e, l[1..], w);
      ConPesoConcatenar([l[0]], resto, w);
      ConPesoConcatenar([l[0]], l[1..], w);
      ConPesoUno(l[0], w);
      if e.peso == w {
        assert ConPeso([l[0]], w) == [];
      } else {
        assert h == [];
      }
    }
  }

  /** Python's built-in sort by score, reversed: descending by
      weight and stable, so entries of equal weight keep their list order. */
  function OrdenarPorPeso(l: seq<Arista>): (r: seq<Arista>)
    ensures Descendente(r)
    ensures multiset(r) == multiset(l)
    ensures forall w :: ConPeso(r, w) == ConPeso(l, w)
  {
    if l == [] then []
    else
      var resto := OrdenarPorPeso(l[1..]);
      assert l == [l[0]] + l[1..];
      InsertarPermuta(l[0], resto);
      forall w ensures ConPeso(Insertar(l[0], resto), w) == ConPeso(l, w) {
        InsertarConPeso(l[0], resto, w);
        ConPesoConcatenar([l[0]], l[1..], w);
      }
      Insertar(l[0], resto)
  }

  lemma OrdenarConservaDestinos(l: seq<Arista>)
    ensures DestinosDe(OrdenarPorPeso(l)) == DestinosDe(l)
  {
    var r := OrdenarPorPeso(l);
    forall e ensures e in r <==> e in l {
      assert e in r <==> e in multiset(r);
      assert e in l <==> e in multiset(l);
    }
  }

  /** The targets of `l`, entry by entry. */
  function Destinos(l: seq<Arista>): (r: seq<string>)
    ensures |r| == |l| && forall i | 0 <= i < |l| :: r[i] == l[i].destino
  {
    if l == [] then [] else [l[0].destino] + Destinos(l[1..])
  }

  /** The targets of `l` not in `vis`, in list order. */
  function Pendientes(l: seq<Arista>, vis: seq<string>): (r: seq<string>)
    ensures forall y :: y in r <==> y in DestinosDe(l) && y !in vis
  {
    if l == [] then []
    else
      assert l == [l[0]] + l[1..];
      (if l[0].destino !in vis then [l[0].destino] else []) + Pendientes(l[1..], vis)
  }

  lemma {:induction false} PendientesConcatenar(x: seq<Arista>, y: seq<Arista>, vis: seq<string>)
    ensures Pendientes(x + y, vis) == Pendientes(x, vis) + Pendientes(y, vis)
  {
    if x == [] {
      assert x + y == y;
    } else {
      assert (x + y)[0] == x[0];
      assert (x + y)[1..] == x[1..] + y;
      PendientesConcatenar(x[1..], y, vis);
    }
  }

  /** Entry `k` of `l` points to `y`, which is not in `vis`, and every
      earlier entry points into `vis`. */
  predicate PrimerPendiente(l: seq<Arista>, vis: seq<string>, k: int, y: string) {
    && 0 <= k < |l|
    && l[k].destino == y && y !in vis
    && forall i | 0 <= i < k :: l[i].destino in vis
  }

  lemma {:induction false} PendientesPrimero(l: seq<Arista>, vis: seq<string>)
    requires Pendientes(l, vis) != []
    ensures exists k :: PrimerPendiente(l, vis, k, Pendientes(l, vis)[0])
  {
    if l[0].destino !in vis {
      assert PrimerPendiente(l, vis, 0, Pendientes(l, vis)[0]);
    } else {
      assert Pendientes(l, vis) == Pendientes(l[1..], vis);
      PendientesPrimero(l[1..], vis);
      var k' :| PrimerPendiente(l[1..], vis, k', Pendientes(l, vis)[0]);
      var k := k' + 1;
      forall i | 0 <= i < k ensures l[i].destino in vis {
        if i > 0 {
          assert l[i] == l[1..][i - 1];
        }
      }
      assert PrimerPendiente(l, vis, k, Pendientes(l, vis)[0]);
    }
  }

  /** The first target of `l` not in `vis`. */
  function PrimeroNoVisitado(l: seq<Arista>, vis: seq<string>): (r: Option<string>)
    ensures r.None? ==> forall y | y in DestinosDe(l) :: y in vis
    ensures r.Some? ==> r.value in DestinosDe(l) && r.value !in vis
    ensures r.Some? ==> exists k :: PrimerPendiente(l, vis, k, r.value)
  {
    var p := Pendientes(l, vis);
    if |p| == 0 then
      assert forall y | y in DestinosDe(l) :: y in vis;
      None
    else
      PendientesPrimero(l, vis);
      Some(p[0])
  }
}
