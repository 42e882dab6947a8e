/** The two ranking queries of `GrafoContenido`: `dfs_autoplay`, a
    depth-first walk over the similarity graph, and `bfs_ver_similar`, a
    breadth-first walk over the marathon graph. Both keep the ids in the
    order they are first visited and return the first seven. */
module Recorridos {
  import opened Wrappers
  import opened Secuencias
  import opened Contenedores
  import opened Adyacencia
  import opened Grafo

  /** Both queries return at most the first seven visited ids. */
  const Limite: nat := 7

  /** Every id a walk from `s` can meet: `s` itself and every edge target. */
  function UniversoAdy(adj: Adyacencias, s: string): set<string> {
    {s} + set k, e | k in adj && e in adj[k] :: e.destino
  }

  lemma VecinosEnUniverso(adj: Adyacencias, s: string, x: string)
    ensures Vecinos(adj, x) <= UniversoAdy(adj, s)
  {
    forall y | y in Vecinos(adj, x) ensures y in UniversoAdy(adj, s) {
      var e :| e in Obtener(adj, x) && e.destino == y;
    }
  }

  /** `x` is a neighbour of some id of `vis`. */
  predicate VecinoDeAlguno(adj: Adyacencias, vis: seq<string>, x: string) {
    exists j | 0 <= j < |vis| :: x in Vecinos(adj, vis[j])
  }

  /** Every id after the first was reached from an id listed before it. */
  predicate Encadenado(adj: Adyacencias, vis: seq<string>) {
    forall i | 0 < i < |vis| :: VecinoDeAlguno(adj, vis[..i], vis[i])
  }

  /** No neighbour of a listed id is missing from the list: with the start
      id in it, the list holds everything reachable from the start. */
  predicate CerradoBajoVecinos(adj: Adyacencias, vis: seq<string>) {
    forall x, y | x in vis && y in Vecinos(adj, x) :: y in vis
  }

  lemma VecinoDeAlgunoCrece(adj: Adyacencias, vis: seq<string>, x: string, nodo: string)
    requires VecinoDeAlguno(adj, vis, x)
    ensures VecinoDeAlguno(adj, vis + [nodo], x)
  {
    var j :| 0 <= j < |vis| && x in Vecinos(adj, vis[j]);
    assert (vis + [nodo])[j] == vis[j];
  }

  lemma EncadenadoCrece(adj: Adyacencias, vis: seq<string>, nodo: string)
    requires Encadenado(adj, vis)
    requires vis != [] ==> VecinoDeAlguno(adj, vis, nodo)
    ensures Encadenado(adj, vis + [nodo])
  {
    var v := vis + [nodo];
    forall i | 0 < i < |v| ensures VecinoDeAlguno(adj, v[..i], v[i]) {
      if i < |vis| {
        assert v[..i] == vis[..i] && v[i] == vis[i];
      } else {
        assert v[..i] == vis && v[i] == nodo;
      }
    }
  }

  // ---------------------------------------------------------------------
  // Depth-first: `dfs_autoplay`
  // ---------------------------------------------------------------------

  /** The neighbour a depth-first walk must visit right after `pre`'s last
      id: the heaviest one not yet visited (ties in list order), if any. */
  function SiguienteVoraz(adj: Adyacencias, pre: seq<string>): Option<string>
    requires pre != []
  {
    PrimeroNoVisitado(OrdenarPorPeso(Obtener(adj, pre[|pre| - 1])), pre)
  }

  /** After each id, the walk goes on to its heaviest unvisited neighbour
      whenever there is one. */
  predicate Voraz(adj: Adyacencias, vis: seq<string>) {
    forall i | 0 < i < |vis| ::
      SiguienteVoraz(adj, vis[..i]).Some? ==> vis[i] == SiguienteVoraz(adj, vis[..i]).value
  }

  /** The local variables `visitados` and `pila` of `dfs_autoplay`. */
  datatype EstadoDfs = EstadoDfs(visitados: seq<string>, pila: Pila<string>)

  /** The inner `for` over `reversed(vecinos_ordenados)`: from the last entry
      to the first, pushes each target not yet visited. The last push, the
      top of the stack, is the first pending target of `l`. */
  function ApilarInverso(p: Pila<string>, vis: seq<string>, l: seq<Arista>): (r: Pila<string>)
    ensures r.items == p.items + Invertir(Pendientes(l, vis))
    decreases |l|
  {
    if l == [] then p
    else
      var n := |l| - 1;
      var d := l[n].destino;
      var p' := if d !in vis then p.Apilar(d) else p;
      ApilarInversoPaso(p, vis, l);
      ApilarInverso(p', vis, l[..n])
  }

  /** Pushing the last pending target, then the rest in reverse, pushes
      all of them in reverse. */
  lemma ApilarInversoPaso(p: Pila<string>, vis: seq<string>, l: seq<Arista>)
    requires l != []
    ensures var n := |l| - 1;
            var d := l[n].destino;
            (if d !in vis then p.items + [d] else p.items) + Invertir(Pendientes(l[..n], vis))
              == p.items + Invertir(Pendientes(l, vis))
  {
    var n := |l| - 1;
    var previos, ultimo := Pendientes(l[..n], vis), Pendientes([l[n]], vis);
    assert l == l[..n] + [l[n]];
    PendientesConcatenar(l[..n], [l[n]], vis);
    InvertirConcatenar(previos, ultimo);
    PendientesUno(l[n], vis);
    var inv := Invertir(previos);
    if l[n].destino !in vis {
      Asociar(p.items, [l[n].destino], inv);
    } else {
      assert [] + inv == inv;
    }
  }

  lemma Asociar(a: seq<string>, b: seq<string>, c: seq<string>)
    ensures (a + b) + c == a + (b + c)
  {
  }

  lemma PendientesUno(e: Arista, vis: seq<string>)
    ensures Invertir(Pendientes([e], vis)) == if e.destino !in vis then [e.destino] else []
  {
    assert [e][1..] == [];
  }

  /** One turn of the `while` loop of `dfs_autoplay`. */
  function PasoDfs(adj: Adyacencias, e: EstadoDfs): EstadoDfs
    requires !e.pila.EstaVacia()
  {
    var (nodo, resto) := e.pila.Desapilar().value;
    if nodo in e.visitados then EstadoDfs(e.visitados, resto)
    else
      var vis := e.visitados + [nodo];
      EstadoDfs(vis, ApilarInverso(resto, vis, OrdenarPorPeso(Obtener(adj, nodo))))
  }

  /** The targets pushed after visiting `nodo`, bottom first. */
  function Apilados(adj: Adyacencias, vis: seq<string>, nodo: string): seq<string> {
    Invertir(Pendientes(OrdenarPorPeso(Obtener(adj, nodo)), vis + [nodo]))
  }

  lemma PasoDfsForma(adj: Adyacencias, e: EstadoDfs)
    requires !e.pila.EstaVacia()
    ensures var n := |e.pila.items| - 1;
            var nodo := e.pila.items[n];
            var resto := e.pila.items[..n];
            PasoDfs(adj, e) == if nodo in e.visitados then EstadoDfs(e.visitados, Pila(resto))
                               else EstadoDfs(e.visitados + [nodo], Pila(resto + Apilados(adj, e.visitados, nodo)))
  {
  }

  /** The top of the stack is the heaviest unvisited neighbour of the id
      visited last, whenever there is one. */
  predicate CimaVoraz(adj: Adyacencias, vis: seq<string>, pila: seq<string>) {
    vis != [] && SiguienteVoraz(adj, vis).Some? ==>
      pila != [] && pila[|pila| - 1] == SiguienteVoraz(adj, vis).value
  }

  /** Every neighbour of a visited id is visited or waiting on the stack. */
  predicate Frontera(adj: Adyacencias, vis: seq<string>, pila: seq<string>) {
    forall x, y | x in vis && y in Vecinos(adj, x) :: y in vis || y in pila
  }

  /** Every waiting id is a neighbour of a visited one. */
  predicate Descubiertos(adj: Adyacencias, vis: seq<string>, pila: seq<string>) {
    vis != [] ==> forall x | x in pila :: VecinoDeAlguno(adj, vis, x)
  }

  predicate Inicio(s: string, vis: seq<string>, pila: seq<string>) {
    && NoDup(vis)
    && (vis == [] ==> pila == [s])
    && (vis != [] ==> vis[0] == s)
  }

  predicate EnUniverso(adj: Adyacencias, s: string, vis: seq<string>, pila: seq<string>) {
    && (forall x | x in vis :: x in UniversoAdy(adj, s))
    && (forall x | x in pila :: x in UniversoAdy(adj, s))
  }

  /** What holds of the walk at the head of the `while` loop. */
  predicate InvDfs(adj: Adyacencias, s: string, e: EstadoDfs) {
    && Inicio(s, e.visitados, e.pila.items)
    && EnUniverso(adj, s, e.visitados, e.pila.items)
    && Descubiertos(adj, e.visitados, e.pila.items)
    && Encadenado(adj, e.visitados)
    && Frontera(adj, e.visitados, e.pila.items)
    && Voraz(adj, e.visitados)
    && CimaVoraz(adj, e.visitados, e.pila.items)
  }

  /** Popping an id already visited: only the stack shrinks. */
  lemma SaltoDfs(adj: Adyacencias, s: string, vis: seq<string>, resto: seq<string>, nodo: string)
    requires nodo in vis
    requires Inicio(s, vis, resto + [nodo]) && EnUniverso(adj, s, vis, resto + [nodo])
    requires Descubiertos(adj, vis, resto + [nodo]) && Frontera(adj, vis, resto + [nodo])
    ensures Inicio(s, vis, resto) && EnUniverso(adj, s, vis, resto)
    ensures Descubiertos(adj, vis, resto) && Frontera(adj, vis, resto)
  {
    forall x | x in resto ensures x in resto + [nodo] {
    }
  }

  /** Popping an id already visited leaves no greedy choice pending. */
  lemma SaltoDfsCima(adj: Adyacencias, vis: seq<string>, resto: seq<string>, nodo: string)
    requires nodo in vis
    requires CimaVoraz(adj, vis, resto + [nodo])
    ensures CimaVoraz(adj, vis, resto)
  {
    assert (resto + [nodo])[|resto|] == nodo;
  }

  /** Visiting a new id keeps the bookkeeping facts. */
  lemma VisitaDfsBase(adj: Adyacencias, s: string, vis: seq<string>, resto: seq<string>, nodo: string)
    requires nodo !in vis
    requires Inicio(s, vis, resto + [nodo]) && EnUniverso(adj, s, vis, resto + [nodo])
    requires Descubiertos(adj, vis, resto + [nodo])
    ensures var pila := resto + Apilados(adj, vis, nodo);
      && Inicio(s, vis + [nodo], pila) && EnUniverso(adj, s, vis + [nodo], pila)
      && Descubiertos(adj, vis + [nodo], pila)
  {
    var v := vis + [nodo];
    var orden := OrdenarPorPeso(Obtener(adj, nodo));
    var pend := Pendientes(orden, v);
    var pila := resto + Invertir(pend);
    OrdenarConservaDestinos(Obtener(adj, nodo));
    VecinosEnUniverso(adj, s, nodo);
    assert nodo in resto + [nodo];
    if vis == [] {
      assert resto == [];
    }
    forall x | x in pila ensures VecinoDeAlguno(adj, v, x) && x in UniversoAdy(adj, s) {
      if x in resto {
        assert x in resto + [nodo];
        VecinoDeAlgunoCrece(adj, vis, x, nodo);
      } else {
        InvertirMiembro(pend, x);
        assert v[|vis|] == nodo;
      }
    }
  }

  /** Visiting a new id keeps every neighbour of a visited id in sight. */
  lemma VisitaDfsFrontera(adj: Adyacencias, vis: seq<string>, resto: seq<string>, nodo: string)
    requires Frontera(adj, vis, resto + [nodo])
    ensures Frontera(adj, vis + [nodo], resto + Apilados(adj, vis, nodo))
  {
    var v := vis + [nodo];
    var orden := OrdenarPorPeso(Obtener(adj, nodo));
    var pend := Pendientes(orden, v);
    var pila := resto + Invertir(pend);
    OrdenarConservaDestinos(Obtener(adj, nodo));
    forall x, y | x in v && y in Vecinos(adj, x) ensures y in v || y in pila {
      if y !in v {
        if x == nodo {
          assert y in pend;
          InvertirMiembro(pend, y);
        } else {
          assert x in vis;
          assert y in resto + [nodo];
        }
      }
    }
  }

  /** Visiting a new id keeps the greedy order. */
  lemma VisitaDfsVoraz(adj: Adyacencias, vis: seq<string>, resto: seq<string>, nodo: string)
    requires Voraz(adj, vis) && CimaVoraz(adj, vis, resto + [nodo])
    ensures Voraz(adj, vis + [nodo])
  {
    var v := vis + [nodo];
    forall i | 0 < i < |v|
      ensures SiguienteVoraz(adj, v[..i]).Some? ==> v[i] == SiguienteVoraz(adj, v[..i]).value
    {
      if i < |vis| {
        assert v[..i] == vis[..i] && v[i] == vis[i];
      } else {
        assert v[..i] == vis && v[i] == nodo;
        assert (resto + [nodo])[|resto|] == nodo;
      }
    }
  }

  /** After visiting a new id, its heaviest unvisited neighbour is on top. */
  lemma VisitaDfsCima(adj: Adyacencias, vis: seq<string>, resto: seq<string>, nodo: string)
    ensures CimaVoraz(adj, vis + [nodo], resto + Apilados(adj, vis, nodo))
  {
    var v := vis + [nodo];
    var pend := Pendientes(OrdenarPorPeso(Obtener(adj, nodo)), v);
    if SiguienteVoraz(adj, v).Some? {
      assert v[|v| - 1] == nodo;
      assert |pend| > 0 && pend[0] == SiguienteVoraz(adj, v).value;
      assert Invertir(pend)[|pend| - 1] == pend[0];
    }
  }

  lemma SaltoDfsInvariante(adj: Adyacencias, s: string, vis: seq<string>, resto: seq<string>, nodo: string)
    requires nodo in vis && InvDfs(adj, s, EstadoDfs(vis, Pila(resto + [nodo])))
    ensures InvDfs(adj, s, EstadoDfs(vis, Pila(resto)))
  {
    SaltoDfs(adj, s, vis, resto, nodo);
    SaltoDfsCima(adj, vis, resto, nodo);
  }

  lemma VisitaDfsInvariante(adj: Adyacencias, s: string, vis: seq<string>, resto: seq<string>, nodo: string)
    requires nodo !in vis && InvDfs(adj, s, EstadoDfs(vis, Pila(resto + [nodo])))
    ensures InvDfs(adj, s, EstadoDfs(vis + [nodo], Pila(resto + Apilados(adj, vis, nodo))))
  {
    VisitaDfsBase(adj, s, vis, resto, nodo);
    assert nodo in resto + [nodo];
    if vis != [] {
      assert VecinoDeAlguno(adj, vis, nodo);
    }
    EncadenadoCrece(adj, vis, nodo);
    VisitaDfsFrontera(adj, vis, resto, nodo);
    VisitaDfsVoraz(adj, vis, resto, nodo);
    VisitaDfsCima(adj, vis, resto, nodo);
  }

  /** A turn keeps the invariant. */
  lemma PasoDfsInvariante(adj: Adyacencias, s: string, e: EstadoDfs)
    requires InvDfs(adj, s, e) && !e.pila.EstaVacia()
    ensures InvDfs(adj, s, PasoDfs(adj, e))
  {
    var n := |e.pila.items| - 1;
    var nodo, resto := e.pila.items[n], e.pila.items[..n];
    var vis := e.visitados;
    assert e.pila.items == resto + [nodo];
    if nodo in vis {
      assert PasoDfs(adj, e) == EstadoDfs(vis, Pila(resto));
      SaltoDfsInvariante(adj, s, vis, resto, nodo);
    } else {
      assert PasoDfs(adj, e) == EstadoDfs(vis + [nodo], Pila(resto + Apilados(adj, vis, nodo)));
      VisitaDfsInvariante(adj, s, vis, resto, nodo);
    }
  }

  /** A turn makes progress: it visits an id not visited before, or it
      shortens the stack. */
  lemma PasoDfsProgreso(adj: Adyacencias, e: EstadoDfs)
    requires !e.pila.EstaVacia()
    ensures var r := PasoDfs(adj, e);
            var nodo := e.pila.items[|e.pila.items| - 1];
      || (r.visitados == e.visitados && |r.pila.items| < |e.pila.items|)
      || (Conjunto(r.visitados) == Conjunto(e.visitados) + {nodo} && nodo !in e.visitados)
  {
    var nodo := e.pila.items[|e.pila.items| - 1];
    assert Conjunto(e.visitados + [nodo]) == Conjunto(e.visitados) + {nodo};
  }

  /** Python's `dfs_autoplay(start_id)`. `recorrido` is the whole visit order
      (`visitados` before the final slice). */
  method DfsAutoplay(g: GrafoContenido, s: string) returns (r: seq<string>, ghost recorrido: seq<string>)
    ensures 1 <= |r| <= Limite && r[0] == s && NoDup(r)
    ensures |r| == Min(Limite, |recorrido|) && r == recorrido[..|r|]
    ensures recorrido[0] == s && NoDup(recorrido)
    ensures Encadenado(g.similitud, recorrido)
    ensures CerradoBajoVecinos(g.similitud, recorrido)
    ensures Voraz(g.similitud, recorrido)
  {
    var e := EstadoDfs([], PilaVacia().Apilar(s));
    while !e.pila.EstaVacia()
      invariant InvDfs(g.similitud, s, e)
      decreases UniversoAdy(g.similitud, s) - Conjunto(e.visitados), |e.pila.items|
    {
      PasoDfsInvariante(g.similitud, s, e);
      PasoDfsProgreso(g.similitud, e);
      e := PasoDfs(g.similitud, e);
    }
    DfsTerminado(g.similitud, s, e);
    recorrido := e.visitados;
    r := Tomar(e.visitados, Limite);
    NoDupPrefijo(e.visitados, |r|);
  }

  /** With the stack empty, the invariant is the walk's whole contract. */
  lemma DfsTerminado(adj: Adyacencias, s: string, e: EstadoDfs)
    requires InvDfs(adj, s, e) && e.pila.EstaVacia()
    ensures e.visitados != [] && e.visitados[0] == s && NoDup(e.visitados)
    ensures Encadenado(adj, e.visitados) && Voraz(adj, e.visitados)
    ensures CerradoBajoVecinos(adj, e.visitados)
  {
  }

  // ---------------------------------------------------------------------
  // Breadth-first: `bfs_ver_similar`
  // ---------------------------------------------------------------------

  /** Earlier ids were reached no later than later ones: whenever a prefix
      of the walk has a neighbour-edge into some id, it has one into every
      id (but the first) listed before it. */
  predicate PorNiveles(adj: Adyacencias, vis: seq<string>) {
    forall i, j, a | 0 < i < j < |vis| && 0 <= a <= |vis| ::
      VecinoDeAlguno(adj, vis[..a], vis[j]) ==> VecinoDeAlguno(adj, vis[..a], vis[i])
  }

  /** The local variables `visitados` and `cola` of `bfs_ver_similar`. */
  datatype EstadoBfs = EstadoBfs(visitados: seq<string>, cola: Cola<string>)

  /** The inner `for` over `vecinos_ordenados`: enqueues, in list order,
      each target neither visited nor already queued. */
  function EncolarNuevos(c: Cola<string>, vis: seq<string>, l: seq<Arista>): (r: Cola<string>)
    ensures NuevosAlFinal(c.items, vis, l, r.items)
    decreases |l|
  {
    if l == [] then c
    else
      var d := l[0].destino;
      var c' := if d !in vis && !c.Contiene(d) then c.Encolar(d) else c;
      var r := EncolarNuevos(c', vis, l[1..]);
      EncolarNuevosPaso(c.items, c'.items, vis, l, r.items);
      EncolarNuevosOrden(c.items, c'.items, vis, l, r.items);
      r
  }

  /** `r` is `c` followed by targets of `l`, each neither in `vis` nor in
      `c`, such that every target of `l` is in `vis` or in `r`, and with no
      repetition added; the targets added are exactly the new ones, each at
      its first entry in `l`. */
  predicate NuevosAlFinal(c: seq<string>, vis: seq<string>, l: seq<Arista>, r: seq<string>) {
    && NuevosDetras(c, vis, l, r)
    && r[|c|..] == PrimeraVez(Destinos(l), Conjunto(vis) + Conjunto(c))
  }

  /** The part of `NuevosAlFinal` that does not fix the order. */
  predicate NuevosDetras(c: seq<string>, vis: seq<string>, l: seq<Arista>, r: seq<string>) {
    && |c| <= |r| && r[..|c|] == c
    && (forall y | y in DestinosDe(l) :: y in vis || y in r)
    && (forall i | |c| <= i < |r| :: r[i] in DestinosDe(l) && r[i] !in vis && r[i] !in c)
    && (NoDup(c) ==> NoDup(r))
  }

  lemma EncolarNuevosPaso(c: seq<string>, c': seq<string>, vis: seq<string>, l: seq<Arista>, r: seq<string>)
    requires l != []
    requires c' == if l[0].destino !in vis && l[0].destino !in c then c + [l[0].destino] else c
    requires NuevosDetras(c', vis, l[1..], r)
    ensures NuevosDetras(c, vis, l, r)
  {
    var d := l[0].destino;
    assert DestinosDe(l) == {d} + DestinosDe(l[1..]) by {
      assert l == [l[0]] + l[1..];
    }
    assert r[..|c'|] == c';
    assert r[..|c|] == c;
    forall y | y in c' ensures y in r {
      var k :| 0 <= k < |c'| && c'[k] == y;
      assert r[k] == y;
    }
    assert d in vis || d in c';
    forall i | |c| <= i < |r| ensures r[i] in DestinosDe(l) && r[i] !in vis && r[i] !in c {
      if i < |c'| {
        assert r[i] == c'[i] == d;
      }
    }
    if NoDup(c) {
      assert NoDup(c');
    }
  }

  /** The order part of `EncolarNuevosPaso`: what the first entry adds,
      followed by what the rest adds beyond it. */
  lemma EncolarNuevosOrden(c: seq<string>, c': seq<string>, vis: seq<string>, l: seq<Arista>, r: seq<string>)
    requires l != []
    requires c' == if l[0].destino !in vis && l[0].destino !in c then c + [l[0].destino] else c
    requires |c'| <= |r| && r[..|c'|] == c'
    requires r[|c'|..] == PrimeraVez(Destinos(l[1..]), Conjunto(vis) + Conjunto(c'))
    ensures r[|c|..] == PrimeraVez(Destinos(l), Conjunto(vis) + Conjunto(c))
  {
    var d, resto := l[0].destino, Destinos(l[1..]);
    var w := Conjunto(vis) + Conjunto(c);
    assert Destinos(l) == [d] + resto;
    PrimeraVezCons(d, resto, w);
    assert d in w <==> d in vis || d in c;
    if d in w {
      assert w + {d} == w;
    } else {
      ConjuntoAnexar(c, d);
      assert w + {d} == Conjunto(vis) + Conjunto(c');
      SufijoAnexar(r, c, d);
    }
  }

  lemma ConjuntoAnexar(c: seq<string>, d: string)
    ensures Conjunto(c + [d]) == Conjunto(c) + {d}
  {
  }

  lemma SufijoAnexar(r: seq<string>, c: seq<string>, d: string)
    requires |c| < |r| && r[..|c| + 1] == c + [d]
    ensures r[|c|..] == [d] + r[|c| + 1..]
  {
    assert r[|c|] == r[..|c| + 1][|c|];
  }

  /** One turn of the `while` loop of `bfs_ver_similar`. */
  function PasoBfs(adj: Adyacencias, e: EstadoBfs): EstadoBfs
    requires !e.cola.EstaVacia()
  {
    var (nodo, resto) := e.cola.Desencolar().value;
    if nodo in e.visitados then EstadoBfs(e.visitados, resto)
    else
      var vis := e.visitados + [nodo];
      EstadoBfs(vis, EncolarNuevos(resto, vis, OrdenarPorPeso(Obtener(adj, nodo))))
  }

  /** The queue after visiting `nodo` with `resto` behind it. */
  function Encolados(adj: Adyacencias, vis: seq<string>, resto: seq<string>, nodo: string): seq<string> {
    EncolarNuevos(Cola(resto), vis + [nodo], OrdenarPorPeso(Obtener(adj, nodo))).items
  }

  predicate InicioBfs(s: string, vis: seq<string>, cola: seq<string>) {
    && NoDup(vis + cola)
    && (vis == [] ==> cola == [s])
    && (vis != [] ==> vis[0] == s)
  }

  /** The level-order facts of `PorNiveles`, for the prefixes of `vis`
      and the ids of `d`. */
  predicate NivelesHasta(adj: Adyacencias, vis: seq<string>, d: seq<string>) {
    forall i, j, a | 0 < i < j < |d| && 0 <= a <= |vis| ::
      VecinoDeAlguno(adj, vis[..a], d[j]) ==> VecinoDeAlguno(adj, vis[..a], d[i])
  }

  /** The level-order facts, over everything discovered so far. */
  predicate Niveles(adj: Adyacencias, vis: seq<string>, cola: seq<string>) {
    NivelesHasta(adj, vis, vis + cola)
  }

  /** What holds of the walk at the head of the `while` loop. */
  predicate InvBfs(adj: Adyacencias, s: string, e: EstadoBfs) {
    && InicioBfs(s, e.visitados, e.cola.items)
    && EnUniverso(adj, s, e.visitados, e.cola.items)
    && Descubiertos(adj, e.visitados, e.cola.items)
    && Encadenado(adj, e.visitados + e.cola.items)
    && Frontera(adj, e.visitados, e.cola.items)
    && Niveles(adj, e.visitados, e.cola.items)
  }

  lemma VecinoDeAlgunoPrefijo(adj: Adyacencias, p: seq<string>, q: seq<string>, x: string)
    requires |p| <= |q| && q[..|p|] == p
    requires VecinoDeAlguno(adj, p, x)
    ensures VecinoDeAlguno(adj, q, x)
  {
    var j :| 0 <= j < |p| && x in Vecinos(adj, p[j]);
    assert q[j] == p[j];
  }

  /** With no id both visited and queued, the id dequeued is always new:
      the `if` of the loop never skips. */
  lemma FrenteNuevo(s: string, vis: seq<string>, cola: seq<string>)
    requires InicioBfs(s, vis, cola) && cola != []
    ensures cola[0] !in vis
  {
    var d := vis + cola;
    assert d[|vis|] == cola[0];
    assert forall k | 0 <= k < |vis| :: d[k] == vis[k];
  }

  /** `cola` is the queue after visiting `nodo`: the old rest, then new
      neighbours of `nodo`, so that every neighbour is visited or queued. */
  predicate TrasVisita(adj: Adyacencias, vis: seq<string>, resto: seq<string>, nodo: string, cola: seq<string>) {
    && |resto| <= |cola| && cola == resto + cola[|resto|..]
    && (forall y | y in cola[|resto|..] :: y in Vecinos(adj, nodo) && y !in vis + [nodo] && y !in resto)
    && (forall y | y in Vecinos(adj, nodo) :: y in vis + [nodo] || y in cola)
    && (NoDup(resto) ==> NoDup(cola))
  }

  lemma EncoladosForma(adj: Adyacencias, vis: seq<string>, resto: seq<string>, nodo: string)
    ensures TrasVisita(adj, vis, resto, nodo, Encolados(adj, vis, resto, nodo))
  {
    var orden := OrdenarPorPeso(Obtener(adj, nodo));
    var cola := Encolados(adj, vis, resto, nodo);
    OrdenarConservaDestinos(Obtener(adj, nodo));
    assert cola[..|resto|] == resto;
    assert cola == cola[..|resto|] + cola[|resto|..];
    forall y | y in cola[|resto|..] ensures y in Vecinos(adj, nodo) && y !in vis + [nodo] && y !in resto {
      var k :| 0 <= k < |cola| - |resto| && cola[|resto|..][k] == y;
      assert cola[|resto| + k] == y;
    }
  }

  /** Visiting the front id keeps every id discovered once. */
  lemma VisitaBfsInicio(adj: Adyacencias, s: string, vis: seq<string>, resto: seq<string>, nodo: string, cola: seq<string>)
    requires TrasVisita(adj, vis, resto, nodo, cola)
    requires InicioBfs(s, vis, [nodo] + resto)
    ensures InicioBfs(s, vis + [nodo], cola)
  {
    var v := vis + [nodo];
    var d := vis + ([nodo] + resto);
    assert d == v + resto;
    NoDupPartes(v, resto);
    forall x | x in v ensures x !in cola {
      assert x !in cola[|resto|..];
    }
    NoDupConcatenar(v, cola);
    if vis == [] {
      assert ([nodo] + resto)[0] == nodo;
    } else {
      assert v[0] == vis[0];
    }
  }

  /** Visiting the front id keeps every queued id within reach. */
  lemma VisitaBfsDescubiertos(adj: Adyacencias, s: string, vis: seq<string>, resto: seq<string>, nodo: string, cola: seq<string>)
    requires TrasVisita(adj, vis, resto, nodo, cola)
    requires vis == [] ==> resto == []
    requires EnUniverso(adj, s, vis, [nodo] + resto) && Descubiertos(adj, vis, [nodo] + resto)
    ensures
      && EnUniverso(adj, s, vis + [nodo], cola) && Descubiertos(adj, vis + [nodo], cola)
  {
    var v := vis + [nodo];
    VecinosEnUniverso(adj, s, nodo);
    assert nodo in [nodo] + resto;
    forall x | x in cola ensures VecinoDeAlguno(adj, v, x) && x in UniversoAdy(adj, s) {
      if x in resto {
        assert x in [nodo] + resto;
        VecinoDeAlgunoCrece(adj, vis, x, nodo);
      } else {
        assert x in cola[|resto|..];
        assert v[|vis|] == nodo;
      }
    }
  }

  /** Visiting the front id keeps every neighbour of a visited id in sight. */
  lemma VisitaBfsFrontera(adj: Adyacencias, vis: seq<string>, resto: seq<string>, nodo: string, cola: seq<string>)
    requires TrasVisita(adj, vis, resto, nodo, cola)
    requires Frontera(adj, vis, [nodo] + resto)
    ensures Frontera(adj, vis + [nodo], cola)
  {
    var v := vis + [nodo];
    forall x, y | x in v && y in Vecinos(adj, x) ensures y in v || y in cola {
      if y !in v && x != nodo {
        assert y in [nodo] + resto;
        assert y in resto;
      }
    }
  }

  /** Appending neighbours of a listed id keeps a list chained. */
  lemma EncadenadoAnexar(adj: Adyacencias, d: seq<string>, k: nat, n: seq<string>)
    requires Encadenado(adj, d) && k < |d|
    requires forall y | y in n :: y in Vecinos(adj, d[k])
    ensures Encadenado(adj, d + n)
  {
    var d' := d + n;
    forall i | 0 < i < |d'| ensures VecinoDeAlguno(adj, d'[..i], d'[i]) {
      if i < |d| {
        assert d'[..i] == d[..i] && d'[i] == d[i];
      } else {
        assert d'[i] == n[i - |d|];
        assert d'[..i][k] == d[k];
      }
    }
  }

  /** Appending ids nobody visited has an edge into keeps the level order. */
  lemma NivelesAnexar(adj: Adyacencias, vis: seq<string>, d: seq<string>, n: seq<string>)
    requires NivelesHasta(adj, vis, d)
    requires forall y | y in n :: y !in d
    requires forall x, y | x in vis && y in Vecinos(adj, x) :: y in d
    ensures NivelesHasta(adj, vis, d + n)
  {
    var d' := d + n;
    forall i, j, a | 0 < i < j < |d'| && 0 <= a <= |vis|
      ensures VecinoDeAlguno(adj, vis[..a], d'[j]) ==> VecinoDeAlguno(adj, vis[..a], d'[i])
    {
      if j < |d| {
        assert d'[j] == d[j] && d'[i] == d[i];
      } else {
        var y := d'[j];
        assert y in n by {
          assert y == n[j - |d|];
        }
        forall k | 0 <= k < a ensures y !in Vecinos(adj, vis[..a][k]) {
          assert vis[..a][k] in vis;
        }
      }
    }
  }

  /** Visiting the next discovered id keeps the level order, once every
      discovered id but the first has an edge from a visited one. */
  lemma NivelesVisitar(adj: Adyacencias, vis: seq<string>, v: seq<string>, d: seq<string>)
    requires |v| == |vis| + 1 && v[..|vis|] == vis
    requires NivelesHasta(adj, vis, d)
    requires forall i | 0 < i < |d| :: VecinoDeAlguno(adj, v, d[i])
    ensures NivelesHasta(adj, v, d)
  {
    forall i, j, a | 0 < i < j < |d| && 0 <= a <= |v|
      ensures VecinoDeAlguno(adj, v[..a], d[j]) ==> VecinoDeAlguno(adj, v[..a], d[i])
    {
      if a <= |vis| {
        assert v[..a] == vis[..a];
      } else {
        assert v[..a] == v;
      }
    }
  }

  /** Once chained, every discovered id but the first has an edge from a
      visited one. */
  lemma AlcanzadosDesde(adj: Adyacencias, v: seq<string>, cola: seq<string>)
    requires Encadenado(adj, v + cola) && Descubiertos(adj, v, cola) && v != []
    ensures forall i | 0 < i < |v + cola| :: VecinoDeAlguno(adj, v, (v + cola)[i])
  {
    var d := v + cola;
    forall i | 0 < i < |d| ensures VecinoDeAlguno(adj, v, d[i]) {
      if i < |v| {
        assert d[..i] == v[..i];
        VecinoDeAlgunoPrefijo(adj, v[..i], v, d[i]);
      } else {
        assert d[i] == cola[i - |v|];
      }
    }
  }

  /** Visiting the front id keeps every discovered id reached from one
      listed before it. */
  lemma VisitaBfsEncadenado(adj: Adyacencias, vis: seq<string>, resto: seq<string>, nodo: string, cola: seq<string>)
    requires TrasVisita(adj, vis, resto, nodo, cola)
    requires Encadenado(adj, vis + ([nodo] + resto))
    ensures Encadenado(adj, (vis + [nodo]) + cola)
  {
    var d := vis + ([nodo] + resto);
    var n := cola[|resto|..];
    assert (vis + [nodo]) + cola == d + n;
    assert d[|vis|] == nodo;
    EncadenadoAnexar(adj, d, |vis|, n);
  }

  /** Visiting the front id keeps the level order. */
  lemma VisitaBfsNiveles(adj: Adyacencias, vis: seq<string>, resto: seq<string>, nodo: string, cola: seq<string>)
    requires |resto| <= |cola| && cola == resto + cola[|resto|..]
    requires forall y | y in cola[|resto|..] :: y !in vis + [nodo] && y !in resto
    requires Frontera(adj, vis, [nodo] + resto) && Niveles(adj, vis, [nodo] + resto)
    requires Encadenado(adj, (vis + [nodo]) + cola) && Descubiertos(adj, vis + [nodo], cola)
    ensures Niveles(adj, vis + [nodo], cola)
  {
    var v := vis + [nodo];
    var d := vis + ([nodo] + resto);
    var n := cola[|resto|..];
    var d' := v + cola;
    assert d' == d + n;
    forall y | y in n ensures y !in d {
      assert y !in v && y !in resto;
    }
    forall x, y | x in vis && y in Vecinos(adj, x) ensures y in d {
      assert y in vis || y in [nodo] + resto;
    }
    NivelesAnexar(adj, vis, d, n);
    AlcanzadosDesde(adj, v, cola);
    NivelesVisitar(adj, vis, v, d');
    assert NivelesHasta(adj, v, v + cola);
  }

  /** Visiting a new id enqueues, behind the rest of the queue, exactly its
      neighbours neither visited nor queued, heaviest first with ties in
      list order, each once. */
  lemma PasoBfsEncola(adj: Adyacencias, e: EstadoBfs)
    requires !e.cola.EstaVacia() && e.cola.items[0] !in e.visitados
    ensures var nodo, resto := e.cola.items[0], e.cola.items[1..];
      PasoBfs(adj, e).cola.items
        == resto + PrimeraVez(Destinos(OrdenarPorPeso(Obtener(adj, nodo))),
                              Conjunto(e.visitados + [nodo]) + Conjunto(resto))
  {
    var nodo, resto := e.cola.items[0], e.cola.items[1..];
    var vis := e.visitados;
    assert e.cola.items == [nodo] + resto;
    var c := EncolarNuevos(Cola(resto), vis + [nodo], OrdenarPorPeso(Obtener(adj, nodo)));
    assert PasoBfs(adj, e) == EstadoBfs(vis + [nodo], c);
    NuevosForma(resto, vis + [nodo], OrdenarPorPeso(Obtener(adj, nodo)), c.items);
  }

  lemma NuevosForma(c: seq<string>, vis: seq<string>, l: seq<Arista>, r: seq<string>)
    requires NuevosAlFinal(c, vis, l, r)
    ensures r == c + PrimeraVez(Destinos(l), Conjunto(vis) + Conjunto(c))
  {
    assert r == r[..|c|] + r[|c|..];
  }

  /** A turn keeps the invariant, and the id it dequeues is never one
      already visited. */
  lemma PasoBfsInvariante(adj: Adyacencias, s: string, e: EstadoBfs)
    requires InvBfs(adj, s, e) && !e.cola.EstaVacia()
    ensures e.cola.items[0] !in e.visitados
    ensures InvBfs(adj, s, PasoBfs(adj, e))
    ensures PasoBfs(adj, e).visitados == e.visitados + [e.cola.items[0]]
    ensures var nodo, resto := e.cola.items[0], e.cola.items[1..];
      PasoBfs(adj, e).cola.items
        == resto + PrimeraVez(Destinos(OrdenarPorPeso(Obtener(adj, nodo))),
                              Conjunto(e.visitados + [nodo]) + Conjunto(resto))
  {
    var nodo, resto := e.cola.items[0], e.cola.items[1..];
    var vis := e.visitados;
    assert e.cola.items == [nodo] + resto;
    FrenteNuevo(s, vis, e.cola.items);
    var cola := Encolados(adj, vis, resto, nodo);
    assert PasoBfs(adj, e) == EstadoBfs(vis + [nodo], Cola(cola));
    EncoladosForma(adj, vis, resto, nodo);
    VisitaBfsInicio(adj, s, vis, resto, nodo, cola);
    if vis == [] {
      assert resto == [];
    }
    VisitaBfsDescubiertos(adj, s, vis, resto, nodo, cola);
    VisitaBfsFrontera(adj, vis, resto, nodo, cola);
    VisitaBfsEncadenado(adj, vis, resto, nodo, cola);
    VisitaBfsNiveles(adj, vis, resto, nodo, cola);
    PasoBfsEncola(adj, e);
  }

  /** Python's `bfs_ver_similar(start_id)`. `recorrido` is the whole visit
      order (`visitados` before the final slice). */
  method BfsVerSimilar(g: GrafoContenido, s: string) returns (r: seq<string>, ghost recorrido: seq<string>)
    ensures 1 <= |r| <= Limite && r[0] == s && NoDup(r)
    ensures |r| == Min(Limite, |recorrido|) && r == recorrido[..|r|]
    ensures recorrido[0] == s && NoDup(recorrido)
    ensures Encadenado(g.maraton, recorrido)
    ensures CerradoBajoVecinos(g.maraton, recorrido)
    ensures PorNiveles(g.maraton, recorrido)
  {
    var e := EstadoBfs([], ColaVacia().Encolar(s));
    while !e.cola.EstaVacia()
      invariant InvBfs(g.maraton, s, e)
      decreases UniversoAdy(g.maraton, s) - Conjunto(e.visitados)
    {
      PasoBfsInvariante(g.maraton, s, e);
      assert Conjunto(e.visitados + [e.cola.items[0]]) == Conjunto(e.visitados) + {e.cola.items[0]};
      e := PasoBfs(g.maraton, e);
    }
    BfsTerminado(g.maraton, s, e);
    recorrido := e.visitados;
    r := Tomar(e.visitados, Limite);
    NoDupPrefijo(e.visitados, |r|);
  }

  /** With the queue empty, the invariant is the walk's whole contract. */
  lemma BfsTerminado(adj: Adyacencias, s: string, e: EstadoBfs)
    requires InvBfs(adj, s, e) && e.cola.EstaVacia()
    ensures e.visitados != [] && e.visitados[0] == s && NoDup(e.visitados)
    ensures Encadenado(adj, e.visitados) && PorNiveles(adj, e.visitados)
    ensures CerradoBajoVecinos(adj, e.visitados)
  {
    assert e.visitados + e.cola.items == e.visitados;
  }
}
