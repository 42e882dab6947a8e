/** `generar_similitud`: scores every unordered pair of vertices once, in
    insertion order, and links the pair in each of the two weighted graphs
    whose threshold its score reaches. */
module GeneracionAristas {
  import opened Wrappers
  import opened Secuencias
  import opened Contenidos
  import opened Pesos
  import opened Adyacencia
  import opened Grafo

  predicate Indexado(g: GrafoContenido) {
    && NoDup(g.ids)
    && forall i | 0 <= i < |g.ids| :: g.ids[i] in g.vertices && g.vertices[g.ids[i]].id == g.ids[i]
  }

  /** Scoring pair `(ids[i], ids[j])`, `i < j`, must not raise: an item
      with a director is never compared with a later `Serie` it is not
      sequel-linked to. */
  predicate ParesComparables(g: GrafoContenido)
    requires Indexado(g)
  {
    forall i, j | 0 <= i < j < |g.ids| ::
      Puntuable(g.vertices[g.ids[i]], g.vertices[g.ids[j]])
  }

  /** The score of pair `i < j` under `algoritmo`, with the earlier vertex
      as first argument, as the loop calls it. The 0.0 it gives outside
      that range, or when some pair of the graph is not comparable, is a
      filler and not a score: the generation requires comparable pairs and
      only asks for `i < j`. */
  function Puntaje(g: GrafoContenido, tipo: Option<string>, algoritmo: string): (nat, nat) -> real {
    (i: nat, j: nat) =>
      if Indexado(g) && ParesComparables(g) && i < j < |g.ids| then PesoPar(g, i, j, tipo, algoritmo) else 0.0
  }

  function PesoPar(g: GrafoContenido, i: nat, j: nat, tipo: Option<string>, algoritmo: string): real
    requires Indexado(g) && ParesComparables(g) && i < j < |g.ids|
  {
    ObtenerPesosAristas(g.vertices[g.ids[i]], g.vertices[g.ids[j]], tipo, Some(algoritmo))
  }

  /** `puntaje` gives every pair `i < j` its score under `algoritmo`. */
  predicate Puntua(g: GrafoContenido, tipo: Option<string>, algoritmo: string, puntaje: (nat, nat) -> real)
    requires Indexado(g) && ParesComparables(g)
  {
    forall i: nat, j: nat {:trigger PesoPar(g, i, j, tipo, algoritmo)} | i < j < |g.ids| ::
      puntaje(i, j) == PesoPar(g, i, j, tipo, algoritmo)
  }

  /** The edge vertex `m` receives towards vertex `n` when the pair is
      scored: none for `m == n`, none below the threshold. */
  function Enlace(g: GrafoContenido, m: nat, n: nat, umbral: real, puntaje: (nat, nat) -> real)
    : seq<Arista>
    requires Indexado(g) && m < |g.ids| && n < |g.ids|
  {
    if m == n then []
    else
      var p := Min(m, n);
      var q := Max(m, n);
      var w := puntaje(p, q);
      if w >= umbral && g.vertices[g.ids[p]].id != g.vertices[g.ids[q]].id
      then [Arista(g.ids[n], w)] else []
  }

  /** The edges vertex `m` receives from the pairs it forms with the first
      `hi` vertices, in the order the loop appends them. */
  function Lista(g: GrafoContenido, m: nat, hi: nat, umbral: real, puntaje: (nat, nat) -> real)
    : seq<Arista>
    requires Indexado(g) && m < |g.ids| && hi <= |g.ids|
    decreases hi
  {
    if hi == 0 then []
    else Lista(g, m, hi - 1, umbral, puntaje) + Enlace(g, m, hi - 1, umbral, puntaje)
  }

  /** Every edge vertex `m` receives reaches the threshold and points to
      another vertex among the first `hi`. */
  lemma {:induction false} ListaDestinos(g: GrafoContenido, m: nat, hi: nat,
                                         umbral: real, puntaje: (nat, nat) -> real)
    requires Indexado(g) && m < |g.ids| && hi <= |g.ids|
    ensures forall e | e in Lista(g, m, hi, umbral, puntaje) ::
              e.peso >= umbral && e.destino in g.ids[..hi] && e.destino != g.ids[m]
    decreases hi
  {
    if hi > 0 {
      ListaDestinos(g, m, hi - 1, umbral, puntaje);
      assert g.ids[..hi] == g.ids[..hi - 1] + [g.ids[hi - 1]];
    }
  }

  /** Python's two `append` calls for one linked pair. */
  function Conectar(adj: Adyacencias, a: string, b: string, w: real): (r: Adyacencias)
    requires a in adj && b in adj && a != b
    ensures r.Keys == adj.Keys
    ensures r[a] == adj[a] + [Arista(b, w)] && r[b] == adj[b] + [Arista(a, w)]
    ensures forall k | k in adj && k != a && k != b :: r[k] == adj[k]
  {
    var adj1 := adj[a := adj[a] + [Arista(b, w)]];
    adj1[b := adj1[b] + [Arista(a, w)]]
  }

  /** How many leading vertices vertex `m` has been paired with once the
      loop reaches pair `(i, j)`: pairs are visited in lexicographic order,
      so `m` has met every vertex if `m < i`, the vertices below `j` if
      `m == i`, and otherwise those below `i`, plus `i` once `(i, m)` is done. */
  function Alcance(m: nat, i: nat, j: nat, n: nat): nat {
    if m < i then n
    else if m == i then j
    else if m < j then i + 1
    else i
  }

  /** The state of one adjacency map when the loop reaches pair `(i, j)`. */
  predicate Parcial(g: GrafoContenido, adj0: Adyacencias, adj: Adyacencias, i: nat, j: nat,
                    umbral: real, puntaje: (nat, nat) -> real)
    requires Indexado(g)
    requires (i < j <= |g.ids|) || (i == |g.ids| && j == i + 1)
  {
    && adj0.Keys == g.vertices.Keys
    && adj.Keys == adj0.Keys
    && forall m | 0 <= m < |g.ids| :: ParcialEn(g, adj0, adj, m, Alcance(m, i, j, |g.ids|), umbral, puntaje)
  }

  /** Vertex `m`'s list holds its initial entries followed by the edges of
      its pairs with the first `hi` vertices. */
  predicate ParcialEn(g: GrafoContenido, adj0: Adyacencias, adj: Adyacencias, m: nat, hi: nat,
                      umbral: real, puntaje: (nat, nat) -> real)
    requires Indexado(g) && m < |g.ids| && hi <= |g.ids|
    requires adj0.Keys == g.vertices.Keys && adj.Keys == adj0.Keys
  {
    adj[g.ids[m]] == adj0[g.ids[m]] + Lista(g, m, hi, umbral, puntaje)
  }

  lemma ParcialInicio(g: GrafoContenido, adj0: Adyacencias, umbral: real, puntaje: (nat, nat) -> real)
    requires Indexado(g) && adj0.Keys == g.vertices.Keys
    ensures Parcial(g, adj0, adj0, 0, 1, umbral, puntaje)
  {
    forall m | 0 <= m < |g.ids|
      ensures ParcialEn(g, adj0, adj0, m, Alcance(m, 0, 1, |g.ids|), umbral, puntaje)
    {
      if m == 0 {
        assert Lista(g, m, 1, umbral, puntaje) == Lista(g, m, 0, umbral, puntaje) + [];
      }
    }
  }

  /** One iteration of the inner loop. */
  lemma ParcialPaso(g: GrafoContenido, adj0: Adyacencias, adj: Adyacencias, i: nat, j: nat,
                    umbral: real, puntaje: (nat, nat) -> real)
    requires Indexado(g) && i < j < |g.ids|
    requires Parcial(g, adj0, adj, i, j, umbral, puntaje)
    ensures var w := puntaje(i, j);
            var a := g.vertices[g.ids[i]];
            var b := g.vertices[g.ids[j]];
            a.id == g.ids[i] && b.id == g.ids[j] && a.id != b.id &&
            Parcial(g, adj0, if w >= umbral && a.id != b.id then Conectar(adj, a.id, b.id, w) else adj,
                    i, j + 1, umbral, puntaje)
  {
    var w := puntaje(i, j);
    var a := g.vertices[g.ids[i]];
    var b := g.vertices[g.ids[j]];
    var adj' := if w >= umbral && a.id != b.id then Conectar(adj, a.id, b.id, w) else adj;
    var j' := j + 1;
    forall m | 0 <= m < |g.ids|
      ensures ParcialEn(g, adj0, adj', m, Alcance(m, i, j', |g.ids|), umbral, puntaje)
    {
      assert ParcialEn(g, adj0, adj, m, Alcance(m, i, j, |g.ids|), umbral, puntaje);
      PasoVertice(g, adj0, adj, adj', i, j, m, umbral, puntaje);
    }
  }

  /** What one iteration does to the list of vertex `m`. */
  lemma PasoVertice(g: GrafoContenido, adj0: Adyacencias, adj: Adyacencias, adj': Adyacencias,
                    i: nat, j: nat, m: nat, umbral: real, puntaje: (nat, nat) -> real)
    requires Indexado(g) && i < j < |g.ids| && m < |g.ids|
    requires adj.Keys == g.vertices.Keys && adj0.Keys == g.vertices.Keys
    requires adj[g.ids[m]] == adj0[g.ids[m]] + Lista(g, m, Alcance(m, i, j, |g.ids|), umbral, puntaje)
    requires var w := puntaje(i, j);
             var a := g.vertices[g.ids[i]];
             var b := g.vertices[g.ids[j]];
             adj' == if w >= umbral && a.id != b.id then Conectar(adj, a.id, b.id, w) else adj
    ensures adj'[g.ids[m]] == adj0[g.ids[m]] + Lista(g, m, Alcance(m, i, j + 1, |g.ids|), umbral, puntaje)
  {
    if m == i {
      assert Alcance(m, i, j, |g.ids|) == j && Alcance(m, i, j + 1, |g.ids|) == j + 1;
      PasoExtremo(g, adj0, adj, adj', i, j, umbral, puntaje);
      Prolongar(adj0[g.ids[i]], adj[g.ids[i]], adj'[g.ids[i]], Lista(g, i, j, umbral, puntaje),
                Enlace(g, i, j, umbral, puntaje), Lista(g, i, j + 1, umbral, puntaje));
    } else if m == j {
      assert Alcance(m, i, j, |g.ids|) == i && Alcance(m, i, j + 1, |g.ids|) == i + 1;
      PasoExtremo(g, adj0, adj, adj', i, j, umbral, puntaje);
      Prolongar(adj0[g.ids[j]], adj[g.ids[j]], adj'[g.ids[j]], Lista(g, j, i, umbral, puntaje),
                Enlace(g, j, i, umbral, puntaje), Lista(g, j, i + 1, umbral, puntaje));
    } else {
      PasoAjeno(g, adj, adj', i, j, m, umbral, puntaje);
      assert Alcance(m, i, j + 1, |g.ids|) == Alcance(m, i, j, |g.ids|);
    }
  }

  /** One iteration leaves the lists of the other vertices alone. */
  lemma PasoAjeno(g: GrafoContenido, adj: Adyacencias, adj': Adyacencias,
                  i: nat, j: nat, m: nat, umbral: real, puntaje: (nat, nat) -> real)
    requires Indexado(g) && i < j < |g.ids| && m < |g.ids| && m != i && m != j
    requires adj.Keys == g.vertices.Keys
    requires var w := puntaje(i, j);
             var a := g.vertices[g.ids[i]];
             var b := g.vertices[g.ids[j]];
             adj' == if w >= umbral && a.id != b.id then Conectar(adj, a.id, b.id, w) else adj
    ensures adj'[g.ids[m]] == adj[g.ids[m]]
  {
    assert g.ids[m] != g.ids[i] && g.ids[m] != g.ids[j];
  }

  lemma Prolongar(previa: seq<Arista>, l: seq<Arista>, l': seq<Arista>,
                  antes: seq<Arista>, e: seq<Arista>, despues: seq<Arista>)
    requires l == previa + antes && l' == l + e && despues == antes + e
    ensures l' == previa + despues
  {
  }

  /** What one iteration appends to the lists of the two vertices it pairs. */
  lemma PasoExtremo(g: GrafoContenido, adj0: Adyacencias, adj: Adyacencias, adj': Adyacencias,
                    i: nat, j: nat, umbral: real, puntaje: (nat, nat) -> real)
    requires Indexado(g) && i < j < |g.ids|
    requires adj.Keys == g.vertices.Keys && adj0.Keys == g.vertices.Keys
    requires var w := puntaje(i, j);
             var a := g.vertices[g.ids[i]];
             var b := g.vertices[g.ids[j]];
             adj' == if w >= umbral && a.id != b.id then Conectar(adj, a.id, b.id, w) else adj
    ensures adj'[g.ids[i]] == adj[g.ids[i]] + Enlace(g, i, j, umbral, puntaje)
    ensures adj'[g.ids[j]] == adj[g.ids[j]] + Enlace(g, j, i, umbral, puntaje)
    ensures Lista(g, i, j + 1, umbral, puntaje) == Lista(g, i, j, umbral, puntaje) + Enlace(g, i, j, umbral, puntaje)
    ensures Lista(g, j, i + 1, umbral, puntaje) == Lista(g, j, i, umbral, puntaje) + Enlace(g, j, i, umbral, puntaje)
  {
    var a := g.vertices[g.ids[i]];
    var b := g.vertices[g.ids[j]];
    assert a.id == g.ids[i] && b.id == g.ids[j];
  }

  /** The end of the inner loop for row `i` is the start of row `i + 1`. */
  lemma ParcialFila(g: GrafoContenido, adj0: Adyacencias, adj: Adyacencias, i: nat,
                    umbral: real, puntaje: (nat, nat) -> real)
    requires Indexado(g) && i < |g.ids|
    requires Parcial(g, adj0, adj, i, |g.ids|, umbral, puntaje)
    ensures Parcial(g, adj0, adj, i + 1, i + 2, umbral, puntaje)
  {
    var i1, i2 := i + 1, i + 2;
    forall m | 0 <= m < |g.ids|
      ensures ParcialEn(g, adj0, adj, m, Alcance(m, i1, i2, |g.ids|), umbral, puntaje)
    {
      assert ParcialEn(g, adj0, adj, m, Alcance(m, i, |g.ids|, |g.ids|), umbral, puntaje);
      FilaVertice(g, m, i, umbral, puntaje);
    }
  }

  /** Vertex `m` has met the same vertices at the end of row `i` as at the
      start of row `i + 1`: only `m == i + 1` changes bound, by its
      (empty) pair with itself. */
  lemma FilaVertice(g: GrafoContenido, m: nat, i: nat, umbral: real, puntaje: (nat, nat) -> real)
    requires Indexado(g) && i < |g.ids| && m < |g.ids|
    ensures Lista(g, m, Alcance(m, i + 1, i + 2, |g.ids|), umbral, puntaje)
         == Lista(g, m, Alcance(m, i, |g.ids|, |g.ids|), umbral, puntaje)
  {
    if m == i + 1 {
      assert Alcance(m, i, |g.ids|, |g.ids|) == i + 1 && Alcance(m, i + 1, i + 2, |g.ids|) == i + 2;
      assert Enlace(g, m, i + 1, umbral, puntaje) == [];
      assert Lista(g, m, i + 2, umbral, puntaje)
          == Lista(g, m, i + 1, umbral, puntaje) + Enlace(g, m, i + 1, umbral, puntaje);
    } else {
      assert Alcance(m, i + 1, i + 2, |g.ids|) == Alcance(m, i, |g.ids|, |g.ids|);
    }
  }

  /** Python's `generar_similitud(umbral, tipo)`, whose threshold defaults
      to 4 and content type to `None`: every vertex's similarity
      and marathon lists are extended by exactly the edges `Lista` lists for
      the whole vertex sequence under the matching score; nothing else changes. */
  method GenerarSimilitud(g: GrafoContenido, umbral: real := 4.0, tipo: Option<string> := None) returns (r: GrafoContenido)
    requires Valido(g) && ParesComparables(g)
    ensures Valido(r)
    ensures r.vertices == g.vertices && r.ids == g.ids && r.sagas == g.sagas
    ensures forall m | 0 <= m < |g.ids| ::
              r.similitud[g.ids[m]]
              == g.similitud[g.ids[m]] + Lista(g, m, |g.ids|, umbral, Puntaje(g, tipo, "similares"))
    ensures forall m | 0 <= m < |g.ids| ::
              r.maraton[g.ids[m]]
              == g.maraton[g.ids[m]] + Lista(g, m, |g.ids|, umbral, Puntaje(g, tipo, "maraton"))
    ensures Frescas(g) ==> AristasGeneradas(r.similitud, umbral) && AristasGeneradas(r.maraton, umbral)
  {
    ghost var ps, pm := Puntaje(g, tipo, "similares"), Puntaje(g, tipo, "maraton");
    ValidoIndexado(g);
    PuntajePuntua(g, tipo, "similares");
    PuntajePuntua(g, tipo, "maraton");
    var sim, mar := RecorrerPares(g, umbral, tipo, ps, pm);
    r := g.(similitud := sim, maraton := mar);
    GeneradoValido(g, r, umbral, ps, pm);
    ParcialCompleto(g, g.similitud, sim, umbral, ps);
    ParcialCompleto(g, g.maraton, mar, umbral, pm);
    if Frescas(g) {
      AristasFrescas(g, g.similitud, sim, umbral, ps);
      AristasFrescas(g, g.maraton, mar, umbral, pm);
    }
  }

  /** Every similarity and marathon list is empty, as `agregar` leaves them. */
  predicate Frescas(g: GrafoContenido) {
    && (forall k | k in g.similitud :: g.similitud[k] == [])
    && (forall k | k in g.maraton :: g.maraton[k] == [])
  }

  /** What one generation leaves in an adjacency map that started empty:
      every edge reaches the threshold, points to another vertex, and is
      matched by the reverse edge of the same weight; no list names the
      same vertex twice. */
  predicate AristasGeneradas(adj: Adyacencias, umbral: real) {
    && (forall k, e | k in adj && e in adj[k] ::
          e.peso >= umbral && e.destino != k && e.destino in adj && Arista(k, e.peso) in adj[e.destino])
    && (forall k | k in adj :: DestinosDistintos(adj[k]))
  }

  lemma AristasFrescas(g: GrafoContenido, adj0: Adyacencias, adj: Adyacencias, umbral: real,
                       puntaje: (nat, nat) -> real)
    requires Indexado(g) && forall k | k in g.vertices :: k in g.ids
    requires adj0.Keys == g.vertices.Keys && adj.Keys == adj0.Keys
    requires forall k | k in adj0 :: adj0[k] == []
    requires forall m | 0 <= m < |g.ids| :: adj[g.ids[m]] == adj0[g.ids[m]] + Lista(g, m, |g.ids|, umbral, puntaje)
    ensures AristasGeneradas(adj, umbral)
  {
    forall k | k in adj
      ensures forall e | e in adj[k] ::
                e.peso >= umbral && e.destino != k && e.destino in adj && Arista(k, e.peso) in adj[e.destino]
      ensures DestinosDistintos(adj[k])
    {
      var m :| 0 <= m < |g.ids| && g.ids[m] == k;
      assert adj[k] == Lista(g, m, |g.ids|, umbral, puntaje);
      ListaSinRepetidos(g, m, |g.ids|, umbral, puntaje);
      forall e | e in adj[k]
        ensures e.peso >= umbral && e.destino != k && e.destino in adj && Arista(k, e.peso) in adj[e.destino]
      {
        AristaFresca(g, adj0, adj, m, e, umbral, puntaje);
      }
    }
  }

  /** One edge of a freshly generated list, and its reverse. */
  lemma AristaFresca(g: GrafoContenido, adj0: Adyacencias, adj: Adyacencias, m: nat, e: Arista,
                     umbral: real, puntaje: (nat, nat) -> real)
    requires Indexado(g) && m < |g.ids|
    requires adj0.Keys == g.vertices.Keys && adj.Keys == adj0.Keys
    requires forall k | k in adj0 :: adj0[k] == []
    requires forall m | 0 <= m < |g.ids| :: adj[g.ids[m]] == adj0[g.ids[m]] + Lista(g, m, |g.ids|, umbral, puntaje)
    requires e in Lista(g, m, |g.ids|, umbral, puntaje)
    ensures e.peso >= umbral && e.destino != g.ids[m] && e.destino in adj
    ensures Arista(g.ids[m], e.peso) in adj[e.destino]
  {
    ListaDestinos(g, m, |g.ids|, umbral, puntaje);
    assert g.ids[..|g.ids|] == g.ids;
    var n :| 0 <= n < |g.ids| && g.ids[n] == e.destino;
    assert e == Arista(g.ids[n], e.peso);
    ListaSimetrica(g, m, n, e.peso, umbral, puntaje);
    assert adj[g.ids[n]] == adj0[g.ids[n]] + Lista(g, n, |g.ids|, umbral, puntaje);
  }

  lemma ValidoIndexado(g: GrafoContenido)
    requires Valido(g)
    ensures Indexado(g)
    ensures g.similitud.Keys == g.vertices.Keys && g.maraton.Keys == g.vertices.Keys
  {
  }

  /** `Puntaje` is the loop's scoring of every pair. */
  lemma PuntajePuntua(g: GrafoContenido, tipo: Option<string>, algoritmo: string)
    requires Indexado(g) && ParesComparables(g)
    ensures Puntua(g, tipo, algoritmo, Puntaje(g, tipo, algoritmo))
  {
  }

  /** The two nested loops over the pairs `i < j` of the vertex sequence. */
  method RecorrerPares(g: GrafoContenido, umbral: real, tipo: Option<string>,
                       ghost ps: (nat, nat) -> real, ghost pm: (nat, nat) -> real)
    returns (sim: Adyacencias, mar: Adyacencias)
    requires Indexado(g) && ParesComparables(g)
    requires Puntua(g, tipo, "similares", ps) && Puntua(g, tipo, "maraton", pm)
    requires g.similitud.Keys == g.vertices.Keys && g.maraton.Keys == g.vertices.Keys
    ensures Parcial(g, g.similitud, sim, |g.ids|, |g.ids| + 1, umbral, ps)
    ensures Parcial(g, g.maraton, mar, |g.ids|, |g.ids| + 1, umbral, pm)
  {
    sim := g.similitud;
    mar := g.maraton;
    ParcialInicio(g, g.similitud, umbral, ps);
    ParcialInicio(g, g.maraton, umbral, pm);
    var i := 0;
    while i < |g.ids|
      invariant 0 <= i <= |g.ids|
      invariant Parcial(g, g.similitud, sim, i, i + 1, umbral, ps)
      invariant Parcial(g, g.maraton, mar, i, i + 1, umbral, pm)
    {
      sim, mar := RecorrerFila(g, sim, mar, i, umbral, tipo, ps, pm);
      ParcialFila(g, g.similitud, sim, i, umbral, ps);
      ParcialFila(g, g.maraton, mar, i, umbral, pm);
      i := i + 1;
    }
  }

  /** Both maps at the loop's pair `(i, j)`. */
  predicate Ambas(g: GrafoContenido, sim: Adyacencias, mar: Adyacencias, i: nat, j: nat,
                  umbral: real, ps: (nat, nat) -> real, pm: (nat, nat) -> real)
    requires Indexado(g)
    requires (i < j <= |g.ids|) || (i == |g.ids| && j == i + 1)
  {
    Parcial(g, g.similitud, sim, i, j, umbral, ps) && Parcial(g, g.maraton, mar, i, j, umbral, pm)
  }

  /** The inner loop: pairs `(i, j)` for `j` from `i + 1` upwards. */
  method RecorrerFila(g: GrafoContenido, sim0: Adyacencias, mar0: Adyacencias, i: nat,
                      umbral: real, tipo: Option<string>, ghost ps: (nat, nat) -> real, ghost pm: (nat, nat) -> real)
    returns (sim: Adyacencias, mar: Adyacencias)
    requires Indexado(g) && ParesComparables(g) && i < |g.ids|
    requires Puntua(g, tipo, "similares", ps) && Puntua(g, tipo, "maraton", pm)
    requires Parcial(g, g.similitud, sim0, i, i + 1, umbral, ps)
    requires Parcial(g, g.maraton, mar0, i, i + 1, umbral, pm)
    ensures Ambas(g, sim, mar, i, |g.ids|, umbral, ps, pm)
  {
    sim, mar := sim0, mar0;
    var j := i + 1;
    while j < |g.ids|
      invariant i < j <= |g.ids|
      invariant Ambas(g, sim, mar, i, j, umbral, ps, pm)
    {
      sim, mar, j := PuntuarPar(g, sim, mar, i, j, umbral, tipo, ps, pm);
    }
  }

  /** The body of the inner loop: scores pair `(ids[i], ids[j])` under both
      policies and links it in each graph whose threshold the score reaches. */
  method PuntuarPar(g: GrafoContenido, sim: Adyacencias, mar: Adyacencias, i: nat, j: nat,
                    umbral: real, tipo: Option<string>, ghost ps: (nat, nat) -> real, ghost pm: (nat, nat) -> real)
    returns (sim': Adyacencias, mar': Adyacencias, j': nat)
    requires Indexado(g) && ParesComparables(g) && i < j < |g.ids|
    requires Puntua(g, tipo, "similares", ps) && Puntua(g, tipo, "maraton", pm)
    requires Ambas(g, sim, mar, i, j, umbral, ps, pm)
    ensures j' == j + 1
    ensures Ambas(g, sim', mar', i, j', umbral, ps, pm)
  {
    j' := j + 1;
    var a := g.vertices[g.ids[i]];
    var b := g.vertices[g.ids[j]];
    var scoreSimilares := ObtenerPesosAristas(a, b, tipo, Some("similares"));
    var scoreMaraton := ObtenerPesosAristas(a, b, tipo, Some("maraton"));
    assert scoreSimilares == PesoPar(g, i, j, tipo, "similares") == ps(i, j);
    assert scoreMaraton == PesoPar(g, i, j, tipo, "maraton") == pm(i, j);
    ParcialPaso(g, g.similitud, sim, i, j, umbral, ps);
    ParcialPaso(g, g.maraton, mar, i, j, umbral, pm);
    sim', mar' := sim, mar;
    if scoreSimilares >= umbral && a.id != b.id {
      sim' := Conectar(sim, a.id, b.id, scoreSimilares);
    }
    if scoreMaraton >= umbral && a.id != b.id {
      mar' := Conectar(mar, a.id, b.id, scoreMaraton);
    }
  }

  /** Once every pair is done, each list holds exactly its vertex's edges. */
  lemma ParcialCompleto(g: GrafoContenido, adj0: Adyacencias, adj: Adyacencias, umbral: real,
                        puntaje: (nat, nat) -> real)
    requires Indexado(g)
    requires Parcial(g, adj0, adj, |g.ids|, |g.ids| + 1, umbral, puntaje)
    ensures forall m | 0 <= m < |g.ids| ::
              adj[g.ids[m]] == adj0[g.ids[m]] + Lista(g, m, |g.ids|, umbral, puntaje)
  {
    forall m | 0 <= m < |g.ids|
      ensures adj[g.ids[m]] == adj0[g.ids[m]] + Lista(g, m, |g.ids|, umbral, puntaje)
    {
      assert ParcialEn(g, adj0, adj, m, Alcance(m, |g.ids|, |g.ids| + 1, |g.ids|), umbral, puntaje);
    }
  }

  lemma GeneradoValido(g: GrafoContenido, r: GrafoContenido, umbral: real,
                       ps: (nat, nat) -> real, pm: (nat, nat) -> real)
    requires Valido(g)
    requires r.vertices == g.vertices && r.ids == g.ids && r.sagas == g.sagas
    requires Parcial(g, g.similitud, r.similitud, |g.ids|, |g.ids| + 1, umbral, ps)
    requires Parcial(g, g.maraton, r.maraton, |g.ids|, |g.ids| + 1, umbral, pm)
    ensures Valido(r)
  {
    ExtensionConocida(g, g.similitud, r.similitud, umbral, ps);
    ExtensionConocida(g, g.maraton, r.maraton, umbral, pm);
  }

  /** Appending the generated lists keeps every edge pointing to a vertex. */
  lemma ExtensionConocida(g: GrafoContenido, adj0: Adyacencias, adj: Adyacencias, umbral: real,
                          puntaje: (nat, nat) -> real)
    requires Indexado(g) && forall k | k in g.vertices :: k in g.ids
    requires Parcial(g, adj0, adj, |g.ids|, |g.ids| + 1, umbral, puntaje)
    requires forall k, e | k in adj0 && e in adj0[k] :: e.destino in g.vertices
    ensures forall k, e | k in adj && e in adj[k] :: e.destino in g.vertices
  {
    forall k, e | k in adj && e in adj[k] ensures e.destino in g.vertices {
      assert k in g.ids;
      var m :| 0 <= m < |g.ids| && g.ids[m] == k;
      assert ParcialEn(g, adj0, adj, m, Alcance(m, |g.ids|, |g.ids| + 1, |g.ids|), umbral, puntaje);
      ListaDestinos(g, m, |g.ids|, umbral, puntaje);
      assert e in adj0[k] || e in Lista(g, m, |g.ids|, umbral, puntaje);
    }
  }

  /** Vertex `m` gets an edge to vertex `n` with weight `w` exactly when
      they are distinct, `n` is among the first `hi` vertices, and `w` is
      their pair's score and reaches the threshold. */
  lemma {:induction false} EnLista(g: GrafoContenido, m: nat, n: nat, hi: nat, w: real,
                                   umbral: real, puntaje: (nat, nat) -> real)
    requires Indexado(g) && m < |g.ids| && n < |g.ids| && hi <= |g.ids|
    ensures Arista(g.ids[n], w) in Lista(g, m, hi, umbral, puntaje)
        <==> n < hi && n != m && w == puntaje(Min(m, n), Max(m, n)) && w >= umbral
    decreases hi
  {
    if hi > 0 {
      EnLista(g, m, n, hi - 1, w, umbral, puntaje);
      EnEnlace(g, m, n, hi - 1, w, umbral, puntaje);
      assert Lista(g, m, hi, umbral, puntaje)
          == Lista(g, m, hi - 1, umbral, puntaje) + Enlace(g, m, hi - 1, umbral, puntaje);
    }
  }

  /** The pair `(m, k)` gives `m` an edge to vertex `n` with weight `w`
      exactly when `n` is `k`, distinct from `m`, and `w` is the pair's
      score and reaches the threshold. */
  lemma EnEnlace(g: GrafoContenido, m: nat, n: nat, k: nat, w: real,
                 umbral: real, puntaje: (nat, nat) -> real)
    requires Indexado(g) && m < |g.ids| && n < |g.ids| && k < |g.ids|
    ensures Arista(g.ids[n], w) in Enlace(g, m, k, umbral, puntaje)
        <==> n == k && n != m && w == puntaje(Min(m, n), Max(m, n)) && w >= umbral
  {
    if m != k {
      var p, q := Min(m, k), Max(m, k);
      assert g.vertices[g.ids[p]].id == g.ids[p] != g.ids[q] == g.vertices[g.ids[q]].id;
    }
    if n != k {
      assert g.ids[n] != g.ids[k];
    }
  }

  /** Both graphs are undirected: `m` links to `n` with weight `w` exactly
      when `n` links to `m` with the same weight. */
  lemma ListaSimetrica(g: GrafoContenido, m: nat, n: nat, w: real,
                       umbral: real, puntaje: (nat, nat) -> real)
    requires Indexado(g) && m < |g.ids| && n < |g.ids|
    ensures Arista(g.ids[n], w) in Lista(g, m, |g.ids|, umbral, puntaje)
        <==> Arista(g.ids[m], w) in Lista(g, n, |g.ids|, umbral, puntaje)
  {
    EnLista(g, m, n, |g.ids|, w, umbral, puntaje);
    EnLista(g, n, m, |g.ids|, w, umbral, puntaje);
  }

  /** Each pair is scored once: no vertex gets two edges to the same vertex
      from one call. */
  lemma {:induction false} ListaSinRepetidos(g: GrafoContenido, m: nat, hi: nat,
                                             umbral: real, puntaje: (nat, nat) -> real)
    requires Indexado(g) && m < |g.ids| && hi <= |g.ids|
    ensures DestinosDistintos(Lista(g, m, hi, umbral, puntaje))
    decreases hi
  {
    if hi > 0 {
      ListaSinRepetidos(g, m, hi - 1, umbral, puntaje);
      ListaDestinos(g, m, hi - 1, umbral, puntaje);
      var previa := Lista(g, m, hi - 1, umbral, puntaje);
      var nuevo := Enlace(g, m, hi - 1, umbral, puntaje);
      var l := Lista(g, m, hi, umbral, puntaje);
      assert l == previa + nuevo;
      assert |nuevo| <= 1;
      forall x, y | 0 <= x < y < |l| ensures l[x].destino != l[y].destino {
        assert l[x] == previa[x];
        if y >= |previa| {
          assert l[y] == nuevo[0] && nuevo[0].destino == g.ids[hi - 1];
          assert previa[x] in previa;
          assert previa[x].destino in g.ids[..hi - 1];
          var k :| 0 <= k < hi - 1 && g.ids[k] == previa[x].destino;
          assert g.ids[k] != g.ids[hi - 1];
        } else {
          assert l[y] == previa[y];
          assert previa[x].destino != previa[y].destino;
        }
      }
    }
  }

  /** A pair linked by a sequel scores 100.0 under both policies, so any
      threshold up to 100.0 links it, in both directions, in both graphs. */
  lemma SecuelaEnlazada(g: GrafoContenido, tipo: Option<string>, umbral: real, m: nat, n: nat)
    requires Indexado(g) && ParesComparables(g) && m < |g.ids| && n < |g.ids| && m != n
    requires SecuelaRelacionada(g.vertices[g.ids[m]], g.vertices[g.ids[n]])
    requires umbral <= PesoSecuela
    ensures Arista(g.ids[n], PesoSecuela) in Lista(g, m, |g.ids|, umbral, Puntaje(g, tipo, "similares"))
    ensures Arista(g.ids[n], PesoSecuela) in Lista(g, m, |g.ids|, umbral, Puntaje(g, tipo, "maraton"))
  {
    var p, q := Min(m, n), Max(m, n);
    assert SecuelaRelacionada(g.vertices[g.ids[p]], g.vertices[g.ids[q]]);
    assert Puntaje(g, tipo, "similares")(p, q) == PesoSecuela;
    assert Puntaje(g, tipo, "maraton")(p, q) == PesoSecuela;
    EnLista(g, m, n, |g.ids|, PesoSecuela, umbral, Puntaje(g, tipo, "similares"));
    EnLista(g, m, n, |g.ids|, PesoSecuela, umbral, Puntaje(g, tipo, "maraton"));
  }
}
