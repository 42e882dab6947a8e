/** `generar_topologico`: a recursive post-order depth-first walk over the
    sequel graph with one visited set shared by every call, whose finishing
    order, reversed, is the answer. It tolerates cycles: an id is entered at
    most once, so a back edge is ignored rather than reported. */
module Topologico {
  import opened Wrappers
  import opened Secuencias
  import opened Grafo

  // ---------------------------------------------------------------------
  // Paths in the sequel graph
  // ---------------------------------------------------------------------

  /** `p` follows sequel links: each id is a listed sequel of the one
      before it. */
  predicate Camino(g: GrafoContenido, p: seq<string>) {
    forall k | 0 < k < |p| :: p[k] in Secuelas(g, p[k - 1])
  }

  /** `b` can be reached from `a` by following zero or more sequel links. */
  ghost predicate Alcanza(g: GrafoContenido, a: string, b: string) {
    exists p | Camino(g, p) && |p| > 0 :: p[0] == a && p[|p| - 1] == b
  }

  /** `x` can be reached from some id of `ns`. */
  ghost predicate AlcanzaDesde(g: GrafoContenido, ns: seq<string>, x: string) {
    exists y | y in ns :: Alcanza(g, y, x)
  }

  /** No sequel link closes a cycle. */
  ghost predicate Aciclico(g: GrafoContenido) {
    forall x, y | y in Secuelas(g, x) :: !Alcanza(g, y, x)
  }

  lemma AlcanzaPropio(g: GrafoContenido, a: string)
    ensures Alcanza(g, a, a)
  {
    assert Camino(g, [a]);
  }

  lemma AlcanzaPaso(g: GrafoContenido, a: string, b: string, c: string)
    requires Alcanza(g, a, b) && c in Secuelas(g, b)
    ensures Alcanza(g, a, c)
  {
    var p :| Camino(g, p) && |p| > 0 && p[0] == a && p[|p| - 1] == b;
    var q := p + [c];
    forall k | 0 < k < |q| ensures q[k] in Secuelas(g, q[k - 1]) {
      if k < |p| {
        assert q[k] == p[k] && q[k - 1] == p[k - 1];
      }
    }
    assert Camino(g, q) && q[0] == a && q[|q| - 1] == c;
  }

  lemma AlcanzaTransitivo(g: GrafoContenido, a: string, b: string, c: string)
    requires Alcanza(g, a, b) && Alcanza(g, b, c)
    ensures Alcanza(g, a, c)
  {
    var p :| Camino(g, p) && |p| > 0 && p[0] == a && p[|p| - 1] == b;
    var q :| Camino(g, q) && |q| > 0 && q[0] == b && q[|q| - 1] == c;
    var t := p + q[1..];
    forall k | 0 < k < |t| ensures t[k] in Secuelas(g, t[k - 1]) {
      if k < |p| {
        assert t[k] == p[k] && t[k - 1] == p[k - 1];
      } else {
        var k' := k - |p| + 1;
        assert t[k] == q[k'] && t[k - 1] == q[k' - 1];
      }
    }
    assert Camino(g, t) && t[0] == a && t[|t| - 1] == c;
  }

  /** Following one link and then a path is a path. */
  lemma AlcanzaAntes(g: GrafoContenido, a: string, b: string, c: string)
    requires b in Secuelas(g, a) && Alcanza(g, b, c)
    ensures Alcanza(g, a, c)
  {
    AlcanzaPropio(g, a);
    AlcanzaPaso(g, a, a, b);
    AlcanzaTransitivo(g, a, b, c);
  }

  /** An id reached from `a` by at least one link is a listed sequel. */
  lemma AlcanzaDestino(g: GrafoContenido, a: string, b: string)
    requires Alcanza(g, a, b)
    ensures b == a || exists k | k in g.sagas :: b in g.sagas[k]
  {
    var p :| Camino(g, p) && |p| > 0 && p[0] == a && p[|p| - 1] == b;
    if |p| > 1 {
      var n := |p| - 1;
      assert b in Secuelas(g, p[n - 1]);
    }
  }

  // ---------------------------------------------------------------------
  // The recursion
  // ---------------------------------------------------------------------

  /** The closure's shared state: the set `visitados` and the list `orden`
      of finished ids. */
  datatype EstadoTopo = EstadoTopo(visitados: set<string>, orden: seq<string>)

  /** Every listed sequel is in `u`. */
  predicate SecuelasEn(g: GrafoContenido, u: set<string>) {
    forall k, x | k in g.sagas && x in g.sagas[k] :: x in u
  }

  /** The ids a walk that starts inside `inicio` can enter. */
  function Universo(g: GrafoContenido, inicio: set<string>): (u: set<string>)
    ensures inicio <= u && SecuelasEn(g, u)
  {
    inicio + set k, x | k in g.sagas && x in g.sagas[k] :: x
  }

  /** Python's inner `dfs_topo(nodo)`. The set `u` bounds the ids the walk
      can enter and gives the recursion its measure. */
  function Visitar(g: GrafoContenido, u: set<string>, nodo: string, e: EstadoTopo): (r: EstadoTopo)
    requires nodo in u && SecuelasEn(g, u)
    ensures e.visitados <= r.visitados && nodo in r.visitados
    ensures nodo in e.visitados ==> r == e
    decreases u - e.visitados, 0, 0
  {
    if nodo in e.visitados then e
    else
      var dentro := EstadoTopo(e.visitados + {nodo}, e.orden);
      var hijos := VisitarTodos(g, u, Secuelas(g, nodo), dentro);
      EstadoTopo(hijos.visitados, hijos.orden + [nodo])
  }

  /** `dfs_topo` on each id of `ns` in turn: the `for vecino` loop, and the
      top-level loop over the vertex ids. */
  function VisitarTodos(g: GrafoContenido, u: set<string>, ns: seq<string>, e: EstadoTopo): (r: EstadoTopo)
    requires SecuelasEn(g, u) && forall x | x in ns :: x in u
    ensures e.visitados <= r.visitados
    ensures forall x | x in ns :: x in r.visitados
    decreases u - e.visitados, 1, |ns|
  {
    if ns == [] then e
    else VisitarTodos(g, u, ns[1..], Visitar(g, u, ns[0], e))
  }

  const Inicial: EstadoTopo := EstadoTopo({}, [])

  /** Python's `generar_topologico(start_id)`, the start id defaulting to
      `None`. A start id is used when it is truthy: present and not the
      empty string. */
  function GenerarTopologico(g: GrafoContenido, inicio: Option<string> := None): seq<string> {
    if inicio.Some? && inicio.value != "" then
      var s := inicio.value;
      Invertir(Visitar(g, Universo(g, {s}), s, Inicial).orden)
    else
      Invertir(VisitarTodos(g, Universo(g, Conjunto(g.ids)), g.ids, Inicial).orden)
  }

  // ---------------------------------------------------------------------
  // What the recursion keeps
  // ---------------------------------------------------------------------

  /** Ids entered but not yet finished: the open calls of the recursion. */
  function EnCurso(e: EstadoTopo): set<string> {
    e.visitados - Conjunto(e.orden)
  }

  /** Every finished id was entered, and none finished twice. */
  predicate Sano(e: EstadoTopo) {
    Conjunto(e.orden) <= e.visitados && NoDup(e.orden)
  }

  /** `r` is `e` with a block of newly finished ids appended: exactly the
      ids entered in between, each once. */
  predicate Extiende(e: EstadoTopo, r: EstadoTopo) {
    && e.visitados <= r.visitados
    && |e.orden| <= |r.orden| && r.orden[..|e.orden|] == e.orden
    && Conjunto(r.orden[|e.orden|..]) == r.visitados - e.visitados
    && NoDup(r.orden[|e.orden|..])
  }

  /** Post-order at position `i`: each sequel of `o[i]` finished before it,
      unless it reaches `o[i]` back (a cycle). */
  ghost predicate Posterior(g: GrafoContenido, o: seq<string>, i: nat)
    requires i < |o|
  {
    forall y | y in Secuelas(g, o[i]) :: y in o[..i] || Alcanza(g, y, o[i])
  }

  ghost predicate PosteriorDesde(g: GrafoContenido, o: seq<string>, d: nat) {
    forall i | d <= i < |o| :: Posterior(g, o, i)
  }

  lemma ConjuntoConcatenar(a: seq<string>, b: seq<string>)
    ensures Conjunto(a + b) == Conjunto(a) + Conjunto(b)
  {
  }

  /** A block that extends a sound state leaves it sound, with the same
      open calls. */
  lemma ExtiendeSano(e: EstadoTopo, r: EstadoTopo)
    requires Sano(e) && Extiende(e, r)
    ensures Sano(r) && EnCurso(r) == EnCurso(e)
  {
    var b := r.orden[|e.orden|..];
    assert r.orden == e.orden + b;
    ConjuntoConcatenar(e.orden, b);
    forall x | x in e.orden ensures x !in b {
      assert x in Conjunto(e.orden);
    }
    NoDupConcatenar(e.orden, b);
  }

  lemma ExtiendeMismo(e: EstadoTopo)
    ensures Extiende(e, e)
  {
    assert e.orden[..|e.orden|] == e.orden;
  }

  lemma ExtiendeTransitivo(e: EstadoTopo, m: EstadoTopo, r: EstadoTopo)
    requires Extiende(e, m) && Extiende(m, r)
    ensures Extiende(e, r)
  {
    var b1, b2 := m.orden[|e.orden|..], r.orden[|m.orden|..];
    assert m.orden == e.orden + b1;
    assert r.orden == m.orden + b2;
    assert r.orden[|e.orden|..] == b1 + b2;
    assert r.orden[..|e.orden|] == e.orden;
    ConjuntoConcatenar(b1, b2);
    forall x | x in b1 ensures x !in b2 {
      assert x in Conjunto(b1);
    }
    NoDupConcatenar(b1, b2);
  }

  /** Appending keeps the post-order facts of earlier positions. */
  lemma PosteriorUnir(g: GrafoContenido, o: seq<string>, o': seq<string>, d: nat)
    requires d <= |o| <= |o'| && o'[..|o|] == o
    requires PosteriorDesde(g, o, d) && PosteriorDesde(g, o', |o|)
    ensures PosteriorDesde(g, o', d)
  {
    forall i | d <= i < |o'| ensures Posterior(g, o', i) {
      if i < |o| {
        assert o'[i] == o[i] && o'[..i] == o[..i];
        assert Posterior(g, o, i);
      }
    }
  }

  lemma EnCursoAlcanza(g: GrafoContenido, e: EstadoTopo, nodo: string)
    requires forall p | p in EnCurso(e) :: Alcanza(g, p, nodo)
    ensures forall p, x | p in EnCurso(e) + {nodo} && x in Secuelas(g, nodo) :: Alcanza(g, p, x)
  {
    forall p, x | p in EnCurso(e) + {nodo} && x in Secuelas(g, nodo) ensures Alcanza(g, p, x) {
      if p == nodo {
        AlcanzaPropio(g, nodo);
      }
      AlcanzaPaso(g, p, nodo, x);
    }
  }

  /** What one `dfs_topo(nodo)` call does to the shared state, given that
      every open call reaches `nodo`: it appends a block of newly entered
      ids, all reached from `nodo`, each in post-order. */
  lemma {:induction false} VisitarCorrecto(g: GrafoContenido, u: set<string>, nodo: string, e: EstadoTopo)
    requires nodo in u && SecuelasEn(g, u) && Sano(e)
    requires forall p | p in EnCurso(e) :: Alcanza(g, p, nodo)
    ensures var r := Visitar(g, u, nodo, e);
      && Sano(r) && Extiende(e, r) && EnCurso(r) == EnCurso(e)
      && (forall x | x in r.visitados - e.visitados :: Alcanza(g, nodo, x))
      && PosteriorDesde(g, r.orden, |e.orden|)
    decreases u - e.visitados, 0, 0
  {
    var r := Visitar(g, u, nodo, e);
    if nodo in e.visitados {
      ExtiendeMismo(e);
    } else {
      var ns := Secuelas(g, nodo);
      var dentro := EstadoTopo(e.visitados + {nodo}, e.orden);
      var hijos := VisitarTodos(g, u, ns, dentro);
      assert r == EstadoTopo(hijos.visitados, hijos.orden + [nodo]);
      assert EnCurso(dentro) == EnCurso(e) + {nodo};
      EnCursoAlcanza(g, e, nodo);
      VisitarTodosCorrecto(g, u, ns, dentro);
      VisitarBloque(nodo, e, hijos, r);
      VisitarAlcanza(g, nodo, e, r, hijos);
      VisitarPosterior(g, nodo, e, hijos, r);
    }
  }

  /** The step of `VisitarCorrecto` after the loop over the sequels: the
      block grows by `nodo`. */
  lemma VisitarBloque(nodo: string, e: EstadoTopo, hijos: EstadoTopo, r: EstadoTopo)
    requires nodo !in e.visitados && Sano(e)
    requires r == EstadoTopo(hijos.visitados, hijos.orden + [nodo])
    requires Extiende(EstadoTopo(e.visitados + {nodo}, e.orden), hijos)
    ensures Sano(r) && Extiende(e, r) && EnCurso(r) == EnCurso(e)
  {
    var b := hijos.orden[|e.orden|..];
    assert hijos.orden == e.orden + b;
    assert r.orden[|e.orden|..] == b + [nodo];
    assert r.orden[..|e.orden|] == e.orden;
    assert nodo !in b by {
      assert nodo !in Conjunto(b);
    }
    ConjuntoConcatenar(b, [nodo]);
    NoDupConcatenar(b, [nodo]);
    assert Extiende(e, r);
    ExtiendeSano(e, r);
  }

  /** Everything the call enters is reached from `nodo`. */
  lemma VisitarAlcanza(g: GrafoContenido, nodo: string, e: EstadoTopo, r: EstadoTopo, hijos: EstadoTopo)
    requires r.visitados == hijos.visitados
    requires forall x | x in hijos.visitados - (e.visitados + {nodo}) :: AlcanzaDesde(g, Secuelas(g, nodo), x)
    ensures forall x | x in r.visitados - e.visitados :: Alcanza(g, nodo, x)
  {
    forall x | x in r.visitados - e.visitados ensures Alcanza(g, nodo, x) {
      if x == nodo {
        AlcanzaPropio(g, nodo);
      } else {
        assert x in hijos.visitados - (e.visitados + {nodo});
        assert AlcanzaDesde(g, Secuelas(g, nodo), x);
        var y :| y in Secuelas(g, nodo) && Alcanza(g, y, x);
        AlcanzaAntes(g, nodo, y, x);
      }
    }
  }

  /** `nodo` finishes after each of its sequels, bar those on the open
      calls, which reach it back. */
  lemma VisitarPosterior(g: GrafoContenido, nodo: string, e: EstadoTopo, hijos: EstadoTopo, r: EstadoTopo)
    requires r == EstadoTopo(hijos.visitados, hijos.orden + [nodo])
    requires |e.orden| <= |hijos.orden|
    requires forall p | p in EnCurso(e) :: Alcanza(g, p, nodo)
    requires forall x | x in Secuelas(g, nodo) :: x in hijos.visitados
    requires EnCurso(hijos) == EnCurso(e) + {nodo}
    requires PosteriorDesde(g, hijos.orden, |e.orden|)
    ensures PosteriorDesde(g, r.orden, |e.orden|)
  {
    var n := |hijos.orden|;
    assert r.orden[n] == nodo && r.orden[..n] == hijos.orden;
    forall y | y in Secuelas(g, nodo) ensures y in r.orden[..n] || Alcanza(g, y, nodo) {
      if y !in Conjunto(hijos.orden) {
        assert y in EnCurso(hijos);
        if y == nodo {
          AlcanzaPropio(g, nodo);
        }
      }
    }
    assert Posterior(g, r.orden, n);
    assert PosteriorDesde(g, r.orden, n);
    PosteriorUnir(g, hijos.orden, r.orden, |e.orden|);
  }

  /** What `dfs_topo` over each id of `ns` does, given that every open call
      reaches each of them. */
  lemma {:induction false} VisitarTodosCorrecto(g: GrafoContenido, u: set<string>, ns: seq<string>, e: EstadoTopo)
    requires SecuelasEn(g, u) && (forall x | x in ns :: x in u) && Sano(e)
    requires forall p, x | p in EnCurso(e) && x in ns :: Alcanza(g, p, x)
    ensures var r := VisitarTodos(g, u, ns, e);
      && Sano(r) && Extiende(e, r) && EnCurso(r) == EnCurso(e)
      && (forall x | x in r.visitados - e.visitados :: AlcanzaDesde(g, ns, x))
      && PosteriorDesde(g, r.orden, |e.orden|)
    decreases u - e.visitados, 1, |ns|
  {
    if ns == [] {
      ExtiendeMismo(e);
    } else {
      var m := Visitar(g, u, ns[0], e);
      VisitarCorrecto(g, u, ns[0], e);
      var r := VisitarTodos(g, u, ns[1..], m);
      assert r == VisitarTodos(g, u, ns, e);
      VisitarTodosCorrecto(g, u, ns[1..], m);
      ExtiendeTransitivo(e, m, r);
      ExtiendeSano(e, r);
      TodosAlcanza(g, ns, e, m, r);
      PosteriorUnir(g, m.orden, r.orden, |e.orden|);
    }
  }

  lemma TodosAlcanza(g: GrafoContenido, ns: seq<string>, e: EstadoTopo, m: EstadoTopo, r: EstadoTopo)
    requires ns != []
    requires forall x | x in m.visitados - e.visitados :: Alcanza(g, ns[0], x)
    requires forall x | x in r.visitados - m.visitados :: AlcanzaDesde(g, ns[1..], x)
    ensures forall x | x in r.visitados - e.visitados :: AlcanzaDesde(g, ns, x)
  {
    forall x | x in r.visitados - e.visitados ensures AlcanzaDesde(g, ns, x) {
      if x in m.visitados {
        assert ns[0] in ns;
      } else {
        assert AlcanzaDesde(g, ns[1..], x);
        var y :| y in ns[1..] && Alcanza(g, y, x);
        assert y in ns;
      }
    }
  }

  /** Every sequel of a finished id has been entered. */
  predicate Cerrado(g: GrafoContenido, e: EstadoTopo) {
    forall x, y | x in e.orden && y in Secuelas(g, x) :: y in e.visitados
  }

  /** `v` holds every sequel of its members. */
  predicate CerradoBajo(g: GrafoContenido, v: set<string>) {
    forall x, y | x in v && y in Secuelas(g, x) :: y in v
  }

  /** An id finishes only after the loop over its sequels has entered
      each of them, so the finished ids stay closed. */
  lemma {:induction false} VisitarCerrado(g: GrafoContenido, u: set<string>, nodo: string, e: EstadoTopo)
    requires nodo in u && SecuelasEn(g, u) && Cerrado(g, e)
    ensures Cerrado(g, Visitar(g, u, nodo, e))
    decreases u - e.visitados, 0, 0
  {
    if nodo !in e.visitados {
      var ns := Secuelas(g, nodo);
      var dentro := EstadoTopo(e.visitados + {nodo}, e.orden);
      var hijos := VisitarTodos(g, u, ns, dentro);
      VisitarTodosCerrado(g, u, ns, dentro);
      assert Visitar(g, u, nodo, e) == EstadoTopo(hijos.visitados, hijos.orden + [nodo]);
    }
  }

  lemma {:induction false} VisitarTodosCerrado(g: GrafoContenido, u: set<string>, ns: seq<string>, e: EstadoTopo)
    requires SecuelasEn(g, u) && (forall x | x in ns :: x in u) && Cerrado(g, e)
    ensures Cerrado(g, VisitarTodos(g, u, ns, e))
    decreases u - e.visitados, 1, |ns|
  {
    if ns != [] {
      VisitarCerrado(g, u, ns[0], e);
      VisitarTodosCerrado(g, u, ns[1..], Visitar(g, u, ns[0], e));
    }
  }

  /** A path that starts inside a closed set stays inside it. */
  lemma {:induction false} CerradoCamino(g: GrafoContenido, v: set<string>, p: seq<string>)
    requires CerradoBajo(g, v)
    requires Camino(g, p) && |p| > 0 && p[0] in v
    ensures p[|p| - 1] in v
    decreases |p|
  {
    if |p| > 1 {
      var n := |p| - 1;
      var q := p[..n];
      forall k | 0 < k < |q| ensures q[k] in Secuelas(g, q[k - 1]) {
        assert q[k] == p[k] && q[k - 1] == p[k - 1];
      }
      CerradoCamino(g, v, q);
      assert p[n] in Secuelas(g, p[n - 1]);
    }
  }

  lemma CerradoAlcanza(g: GrafoContenido, v: set<string>, a: string, b: string)
    requires CerradoBajo(g, v) && a in v && Alcanza(g, a, b)
    ensures b in v
  {
    var p :| Camino(g, p) && |p| > 0 && p[0] == a && p[|p| - 1] == b;
    CerradoCamino(g, v, p);
  }

  /** Once no call is open, the entered ids are the finished ones, and
      they are closed. */
  lemma TerminadoCerrado(g: GrafoContenido, r: EstadoTopo)
    requires Sano(r) && EnCurso(r) == {} && Cerrado(g, r)
    ensures CerradoBajo(g, r.visitados) && r.visitados == Conjunto(r.orden)
  {
    forall x | x in r.visitados ensures x in Conjunto(r.orden) {
      assert x !in EnCurso(r);
    }
    forall x, y | x in r.visitados && y in Secuelas(g, x) ensures y in r.visitados {
      assert x in Conjunto(r.orden);
    }
  }

  // ---------------------------------------------------------------------
  // The answer
  // ---------------------------------------------------------------------

  /** The finishing order behind `generar_topologico`'s answer, and the
      facts the recursion leaves about it. */
  function Posorden(g: GrafoContenido, inicio: Option<string>): seq<string> {
    if inicio.Some? && inicio.value != "" then
      var s := inicio.value;
      Visitar(g, Universo(g, {s}), s, Inicial).orden
    else
      VisitarTodos(g, Universo(g, Conjunto(g.ids)), g.ids, Inicial).orden
  }

  /** A whole walk from the empty state leaves a closed set of entered
      ids, all finished. */
  lemma VisitarTerminado(g: GrafoContenido, u: set<string>, s: string)
    requires s in u && SecuelasEn(g, u)
    ensures var r := Visitar(g, u, s, Inicial);
      CerradoBajo(g, r.visitados) && r.visitados == Conjunto(r.orden) && s in r.visitados
  {
    assert Sano(Inicial) && EnCurso(Inicial) == {} && Cerrado(g, Inicial);
    VisitarCorrecto(g, u, s, Inicial);
    VisitarCerrado(g, u, s, Inicial);
    TerminadoCerrado(g, Visitar(g, u, s, Inicial));
  }

  lemma VisitarTodosTerminado(g: GrafoContenido, u: set<string>, ns: seq<string>)
    requires SecuelasEn(g, u) && forall x | x in ns :: x in u
    ensures var r := VisitarTodos(g, u, ns, Inicial);
      CerradoBajo(g, r.visitados) && r.visitados == Conjunto(r.orden)
  {
    assert Sano(Inicial) && EnCurso(Inicial) == {} && Cerrado(g, Inicial);
    VisitarTodosCorrecto(g, u, ns, Inicial);
    VisitarTodosCerrado(g, u, ns, Inicial);
    TerminadoCerrado(g, VisitarTodos(g, u, ns, Inicial));
  }

  /** With a start id, the walk finishes every id reachable from it. */
  lemma PosordenDesdeInicio(g: GrafoContenido, s: string)
    requires s != ""
    ensures forall x | Alcanza(g, s, x) :: x in Posorden(g, Some(s))
  {
    var u := Universo(g, {s});
    var r := Visitar(g, u, s, Inicial);
    VisitarTerminado(g, u, s);
    forall x | Alcanza(g, s, x) ensures x in r.orden {
      CerradoAlcanza(g, r.visitados, s, x);
      assert x in Conjunto(r.orden);
    }
  }

  /** Without one, it finishes every id reachable from a vertex id. */
  lemma PosordenSinInicio(g: GrafoContenido, inicio: Option<string>)
    requires !(inicio.Some? && inicio.value != "")
    ensures forall x | AlcanzaDesde(g, g.ids, x) :: x in Posorden(g, inicio)
  {
    var u := Universo(g, Conjunto(g.ids));
    var r := VisitarTodos(g, u, g.ids, Inicial);
    VisitarTodosTerminado(g, u, g.ids);
    forall x | AlcanzaDesde(g, g.ids, x) ensures x in r.orden {
      var y :| y in g.ids && Alcanza(g, y, x);
      assert y in r.visitados;
      CerradoAlcanza(g, r.visitados, y, x);
      assert x in Conjunto(r.orden);
    }
  }

  lemma PosordenCorrecto(g: GrafoContenido, inicio: Option<string>)
    ensures var o := Posorden(g, inicio);
      && NoDup(o) && PosteriorDesde(g, o, 0)
      && GenerarTopologico(g, inicio) == Invertir(o)
      && (inicio.Some? && inicio.value != "" ==>
            o != [] && o[|o| - 1] == inicio.value
            && (forall x | x in o :: Alcanza(g, inicio.value, x))
            && forall x | Alcanza(g, inicio.value, x) :: x in o)
      && (!(inicio.Some? && inicio.value != "") ==>
            (forall x | x in g.ids :: x in o)
            && (forall x | x in o :: AlcanzaDesde(g, g.ids, x))
            && forall x | AlcanzaDesde(g, g.ids, x) :: x in o)
  {
    var o := Posorden(g, inicio);
    assert Sano(Inicial) && EnCurso(Inicial) == {};
    if inicio.Some? && inicio.value != "" {
      var s := inicio.value;
      var r := Visitar(g, Universo(g, {s}), s, Inicial);
      VisitarCorrecto(g, Universo(g, {s}), s, Inicial);
      assert o[..0] == [];
      assert r.orden == r.orden[0..];
      assert r.orden == Visitar(g, Universo(g, {s}), s, Inicial).orden;
      assert o[|o| - 1] == s;
      forall x | x in o ensures Alcanza(g, s, x) {
        assert x in Conjunto(r.orden[0..]);
      }
      PosordenDesdeInicio(g, s);
    } else {
      var u := Universo(g, Conjunto(g.ids));
      var r := VisitarTodos(g, u, g.ids, Inicial);
      VisitarTodosCorrecto(g, u, g.ids, Inicial);
      assert r.orden == r.orden[0..];
      forall x | x in o ensures AlcanzaDesde(g, g.ids, x) {
        assert x in Conjunto(r.orden[0..]);
      }
      forall x | x in g.ids ensures x in o {
        assert x in Conjunto(r.orden[0..]);
      }
      PosordenSinInicio(g, inicio);
    }
  }

  /** The answer never repeats an id, cycles or not. */
  lemma TopologicoSinRepetidos(g: GrafoContenido, inicio: Option<string>)
    ensures NoDup(GenerarTopologico(g, inicio))
  {
    PosordenCorrecto(g, inicio);
    InvertirNoDup(Posorden(g, inicio));
  }

  /** With a truthy start id, the answer starts with it and holds exactly
      the ids reachable from it by sequel links. */
  lemma TopologicoDesdeInicio(g: GrafoContenido, s: string)
    requires s != ""
    ensures var r := GenerarTopologico(g, Some(s));
      && r != [] && r[0] == s
      && (forall x | x in r :: Alcanza(g, s, x))
      && forall x | Alcanza(g, s, x) :: x in r
  {
    var o := Posorden(g, Some(s));
    PosordenCorrecto(g, Some(s));
    forall x ensures x in Invertir(o) <==> x in o {
      InvertirMiembro(o, x);
    }
  }

  /** Without a start id, the answer holds every vertex id and exactly the
      ids reachable from one. */
  lemma TopologicoCompleto(g: GrafoContenido, inicio: Option<string>)
    requires !(inicio.Some? && inicio.value != "")
    ensures var r := GenerarTopologico(g, inicio);
      && (forall x | x in g.ids :: x in r)
      && (forall x | x in r :: AlcanzaDesde(g, g.ids, x))
      && (forall x | AlcanzaDesde(g, g.ids, x) :: x in r)
  {
    var o := Posorden(g, inicio);
    PosordenCorrecto(g, inicio);
    forall x ensures x in Invertir(o) <==> x in o {
      InvertirMiembro(o, x);
    }
  }

  /** Called without a start id, the answer covers every vertex id. */
  lemma TopologicoPorDefecto(g: GrafoContenido)
    ensures var r := GenerarTopologico(g);
      && NoDup(r)
      && (forall x | x in g.ids :: x in r)
      && (forall x | x in r :: AlcanzaDesde(g, g.ids, x))
  {
    TopologicoCompleto(g, None);
    TopologicoSinRepetidos(g, None);
  }

  /** Once every sequel link points to a vertex (as `generar_orden` leaves
      it), the answer without a start id is a permutation of the vertex
      ids. */
  lemma TopologicoPermutacion(g: GrafoContenido, inicio: Option<string>)
    requires !(inicio.Some? && inicio.value != "")
    requires Valido(g)
    ensures var r := GenerarTopologico(g, inicio);
      NoDup(r) && Conjunto(r) == g.vertices.Keys
  {
    ValidoSecuelas(g);
    TopologicoSobre(g, inicio, g.vertices.Keys);
  }

  lemma TopologicoSobre(g: GrafoContenido, inicio: Option<string>, vs: set<string>)
    requires !(inicio.Some? && inicio.value != "")
    requires Conjunto(g.ids) == vs && SecuelasEn(g, vs)
    ensures var r := GenerarTopologico(g, inicio);
      NoDup(r) && Conjunto(r) == vs
  {
    var r := GenerarTopologico(g, inicio);
    TopologicoSinRepetidos(g, inicio);
    TopologicoCompleto(g, inicio);
    forall x | x in r ensures x in vs {
      var y :| y in g.ids && Alcanza(g, y, x);
      AlcanzaDestino(g, y, x);
      assert y in Conjunto(g.ids);
    }
    forall x | x in vs ensures x in r {
      assert x in Conjunto(g.ids);
    }
  }

  lemma ValidoSecuelas(g: GrafoContenido)
    requires Valido(g)
    ensures Conjunto(g.ids) == g.vertices.Keys && SecuelasEn(g, g.vertices.Keys)
  {
  }

  /** Every sequel link between two ids of the answer points forward,
      unless its target reaches its source back (the link closes a
      cycle). */
  lemma TopologicoAristas(g: GrafoContenido, inicio: Option<string>)
    ensures var r := GenerarTopologico(g, inicio);
      forall i, j | 0 <= i < |r| && 0 <= j < |r| && r[j] in Secuelas(g, r[i]) ::
        i < j || Alcanza(g, r[j], r[i])
  {
    var o := Posorden(g, inicio);
    var r := GenerarTopologico(g, inicio);
    PosordenCorrecto(g, inicio);
    var n := |o|;
    forall i, j | 0 <= i < |r| && 0 <= j < |r| && r[j] in Secuelas(g, r[i])
      ensures i < j || Alcanza(g, r[j], r[i])
    {
      var i', j' := n - 1 - i, n - 1 - j;
      assert r[i] == o[i'] && r[j] == o[j'];
      assert Posterior(g, o, i');
      if r[j] in o[..i'] {
        var k :| 0 <= k < i' && o[..i'][k] == r[j];
        assert o[k] == o[j'];
      }
    }
  }

  /** On an acyclic sequel graph the answer is a topological order: every
      link between two of its ids points forward. */
  lemma TopologicoAciclico(g: GrafoContenido, inicio: Option<string>)
    requires Aciclico(g)
    ensures var r := GenerarTopologico(g, inicio);
      forall i, j | 0 <= i < |r| && 0 <= j < |r| && r[j] in Secuelas(g, r[i]) :: i < j
  {
    TopologicoAristas(g, inicio);
  }
}
