/** `GrafoContenido`: the vertex map and the three adjacency maps, with the
    construction steps that do not score pairs. */
module Grafo {
  import opened Wrappers
  import opened Secuencias
  import opened Contenidos
  import opened Adyacencia

  /** `vertices_contenido` is a Python dict: `ids` keeps its keys in
      insertion order, which drives pair enumeration and the top-level
      topological loop. */
  datatype GrafoContenido = GrafoContenido(
    vertices: map<string, Contenido>,
    ids: seq<string>,
    similitud: Adyacencias,
    maraton: Adyacencias,
    sagas: map<string, seq<string>>)

  /** The sequel list of `id`, or the empty list when `id` has none. */
  function Secuelas(g: GrafoContenido, id: string): seq<string> {
    if id in g.sagas then g.sagas[id] else []
  }

  /** Every adjacency entry points to a known vertex. */
  predicate DestinosConocidos(g: GrafoContenido) {
    && (forall k, e | k in g.similitud && e in g.similitud[k] :: e.destino in g.vertices)
    && (forall k, e | k in g.maraton && e in g.maraton[k] :: e.destino in g.vertices)
    && (forall k, x | k in g.sagas && x in g.sagas[k] :: x in g.vertices)
  }

  /** Every vertex, and nothing else, has its three adjacency lists. */
  predicate ListasPorVertice(g: GrafoContenido) {
    && g.similitud.Keys == g.vertices.Keys
    && g.maraton.Keys == g.vertices.Keys
    && g.sagas.Keys == g.vertices.Keys
  }

  /** The invariant every sequence of `agregar` calls keeps. */
  predicate Valido(g: GrafoContenido) {
    && NoDup(g.ids)
    && (forall k | k in g.vertices :: k in g.ids)
    && (forall k | k in g.ids :: k in g.vertices)
    && ListasPorVertice(g)
    && (forall k | k in g.vertices :: g.vertices[k].id == k)
    && DestinosConocidos(g)
  }

  /** Python's `GrafoContenido()`. */
  function Vacio(): (g: GrafoContenido)
    ensures Valido(g) && g.vertices == map[] && g.ids == []
  {
    GrafoContenido(map[], [], map[], map[], map[])
  }

  /** Python's `agregar(contenido)`: maps the id to the item and resets its
      three adjacency lists; a re-added id keeps its position. */
  function Agregar(g: GrafoContenido, c: Contenido): (r: GrafoContenido)
    ensures Valido(g) ==> Valido(r)
    ensures r.vertices == g.vertices[c.id := c]
    ensures r.similitud == g.similitud[c.id := []] && r.maraton == g.maraton[c.id := []]
    ensures r.sagas == g.sagas[c.id := []]
    ensures r.ids == if c.id in g.vertices then g.ids else g.ids + [c.id]
  {
    var ids := if c.id in g.vertices then g.ids else g.ids + [c.id];
    var r := GrafoContenido(
      g.vertices[c.id := c],
      ids,
      g.similitud[c.id := []],
      g.maraton[c.id := []],
      g.sagas[c.id := []]);
    AgregarValido(g, c, r);
    r
  }

  lemma AgregarValido(g: GrafoContenido, c: Contenido, r: GrafoContenido)
    requires r.ids == if c.id in g.vertices then g.ids else g.ids + [c.id]
    requires r.vertices == g.vertices[c.id := c]
    requires r.similitud == g.similitud[c.id := []] && r.maraton == g.maraton[c.id := []]
    requires r.sagas == g.sagas[c.id := []]
    ensures Valido(g) ==> Valido(r)
  {
    if Valido(g) {
      AgregarIds(g, c, r.ids);
      AgregarDestinos(g, c, r);
      AgregarClaves(g, c, r);
    }
  }

  lemma AgregarClaves(g: GrafoContenido, c: Contenido, r: GrafoContenido)
    requires g.similitud.Keys == g.vertices.Keys && g.maraton.Keys == g.vertices.Keys
    requires g.sagas.Keys == g.vertices.Keys
    requires forall k | k in g.vertices :: g.vertices[k].id == k
    requires r.vertices == g.vertices[c.id := c]
    requires r.similitud == g.similitud[c.id := []] && r.maraton == g.maraton[c.id := []]
    requires r.sagas == g.sagas[c.id := []]
    ensures r.similitud.Keys == r.vertices.Keys
    ensures r.maraton.Keys == r.vertices.Keys
    ensures r.sagas.Keys == r.vertices.Keys
    ensures forall k | k in r.vertices :: r.vertices[k].id == k
  {
    assert r.vertices.Keys == g.vertices.Keys + {c.id};
  }

  lemma AgregarIds(g: GrafoContenido, c: Contenido, ids: seq<string>)
    requires Valido(g)
    requires ids == if c.id in g.vertices then g.ids else g.ids + [c.id]
    ensures NoDup(ids)
    ensures forall k | k in g.vertices[c.id := c] :: k in ids
    ensures forall k | k in ids :: k in g.vertices[c.id := c]
  {
  }

  lemma AgregarDestinos(g: GrafoContenido, c: Contenido, r: GrafoContenido)
    requires Valido(g)
    requires r.vertices == g.vertices[c.id := c]
    requires r.similitud == g.similitud[c.id := []] && r.maraton == g.maraton[c.id := []]
    requires r.sagas == g.sagas[c.id := []]
    ensures DestinosConocidos(r)
  {
  }

  /** Adding the same id twice leaves one entry holding the latest item. */
  lemma AgregarDosVeces(g: GrafoContenido, c1: Contenido, c2: Contenido)
    requires c1.id == c2.id
    ensures Agregar(Agregar(g, c1), c2) == Agregar(g, c2)
  {
    var k := c1.id;
    assert g.vertices[k := c1][k := c2] == g.vertices[k := c2];
    assert g.similitud[k := []][k := []] == g.similitud[k := []];
    assert g.maraton[k := []][k := []] == g.maraton[k := []];
    assert g.sagas[k := []][k := []] == g.sagas[k := []];
  }

  /** Python's `ver_adyacencia_orden(nodo_id)`. */
  function VerAdyacenciaOrden(g: GrafoContenido, id: string): (r: seq<string>)
    ensures DestinosConocidos(g) ==> forall x | x in r :: x in g.vertices
    ensures id in g.sagas ==> r == g.sagas[id]
    ensures id !in g.sagas ==> r == []
  {
    Secuelas(g, id)
  }

  /** After `generar_orden`, an item's order list gains its listed sequels
      that are vertices, in listed order. */
  lemma VerOrdenGenerado(g: GrafoContenido, id: string)
    requires Valido(g) && id in g.vertices
    ensures VerAdyacenciaOrden(GenerarOrden(g), id)
            == VerAdyacenciaOrden(g, id) + Conocidos(g.vertices[id].ids_secuelas, g.vertices)
  {
  }

  /** The listed sequels that are vertices, in listed order. */
  function Conocidos(secuelas: seq<string>, vertices: map<string, Contenido>): (r: seq<string>)
    ensures forall x :: x in r <==> x in secuelas && x in vertices
    ensures |r| <= |secuelas|
    ensures (forall x | x in secuelas :: x in vertices) ==> r == secuelas
  {
    if secuelas == [] then []
    else
      assert secuelas == [secuelas[0]] + secuelas[1..];
      (if secuelas[0] in vertices then [secuelas[0]] else []) + Conocidos(secuelas[1..], vertices)
  }

  /** The filter keeps the order of its input: it distributes over `+`. */
  lemma {:induction false} ConocidosConcatenar(s: seq<string>, t: seq<string>, vertices: map<string, Contenido>)
    ensures Conocidos(s + t, vertices) == Conocidos(s, vertices) + Conocidos(t, vertices)
  {
    if s == [] {
      assert s + t == t;
    } else {
      assert (s + t)[0] == s[0];
      assert (s + t)[1..] == s[1..] + t;
      ConocidosConcatenar(s[1..], t, vertices);
    }
  }

  lemma ConocidosUno(x: string, vertices: map<string, Contenido>)
    ensures Conocidos([x], vertices) == if x in vertices then [x] else []
  {
    assert [x][1..] == [];
  }

  /** The loop of `generar_orden` over the items whose ids are in `pend`. */
  function EnlazarSecuelas(sagas: map<string, seq<string>>, vertices: map<string, Contenido>, pend: seq<string>)
    : (r: map<string, seq<string>>)
    requires NoDup(pend)
    requires forall k | k in pend :: k in vertices && k in sagas && vertices[k].id == k
    ensures r.Keys == sagas.Keys
    ensures forall k | k in pend :: r[k] == sagas[k] + Conocidos(vertices[k].ids_secuelas, vertices)
    ensures forall k | k in sagas && k !in pend :: r[k] == sagas[k]
    decreases |pend|
  {
    if pend == [] then sagas
    else
      var c := vertices[pend[0]];
      var sagas' := sagas[c.id := sagas[c.id] + Conocidos(c.ids_secuelas, vertices)];
      assert forall k | k in pend[1..] :: k != pend[0] && k in pend;
      EnlazarSecuelas(sagas', vertices, pend[1..])
  }

  /** Python's `generar_orden()`: each item points to those of its listed
      sequels that are vertices, in listed order, appended to its list. */
  function GenerarOrden(g: GrafoContenido): (r: GrafoContenido)
    requires Valido(g)
    ensures Valido(r)
    ensures r.vertices == g.vertices && r.ids == g.ids
    ensures r.similitud == g.similitud && r.maraton == g.maraton
    ensures forall k | k in g.vertices ::
              r.sagas[k] == g.sagas[k] + Conocidos(g.vertices[k].ids_secuelas, g.vertices)
  {
    g.(sagas := EnlazarSecuelas(g.sagas, g.vertices, g.ids))
  }

  /** An element of the collection given to `construir_desde_contenidos`:
      an item object, or a raw JSON record of some type `R`. */
  datatype Entrada<R> = Objeto(contenido: Contenido) | Diccionario(registro: R)

  const TiposConocidos: set<string> := {"peliculas", "documentales", "series"}

  /** The item an entry contributes, if any. A raw record is skipped when no
      content type is given, when the type is unknown, or when the decoder
      (`from_dict` of the type's class) fails. */
  function Aceptado<R>(e: Entrada<R>, tipo: Option<string>, decodificar: (string, R) -> Option<Contenido>)
    : Option<Contenido>
  {
    match e
    case Objeto(c) => Some(c)
    case Diccionario(d) =>
      if tipo.None? then None
      else if tipo.value !in TiposConocidos then None
      else decodificar(tipo.value, d)
  }

  /** The last accepted entry of `es` with id `k`: the one whose data a
      vertex ends up holding. */
  function UltimoAceptado<R>(es: seq<Entrada<R>>, k: string, tipo: Option<string>,
                             decodificar: (string, R) -> Option<Contenido>): (r: Option<Contenido>)
    ensures r.Some? ==> r.value.id == k
    decreases |es|
  {
    if es == [] then None
    else
      var n := |es| - 1;
      var a := Aceptado(es[n], tipo, decodificar);
      if a.Some? && a.value.id == k then a else UltimoAceptado(es[..n], k, tipo, decodificar)
  }

  /** The ids of the accepted entries of `es`, in entry order. */
  function IdsAceptados<R>(es: seq<Entrada<R>>, tipo: Option<string>,
                           decodificar: (string, R) -> Option<Contenido>): (r: seq<string>)
    ensures |r| <= |es|
    decreases |es|
  {
    if es == [] then []
    else
      var n := |es| - 1;
      var previos := IdsAceptados(es[..n], tipo, decodificar);
      match Aceptado(es[n], tipo, decodificar)
      case None => previos
      case Some(c) => previos + [c.id]
  }

  /** The elements of `s` outside `vistos`, each once, at the position of
      its first occurrence. */
  function PrimeraVez(s: seq<string>, vistos: set<string>): (r: seq<string>)
    ensures NoDup(r)
    decreases |s|
  {
    if s == [] then []
    else
      var n := |s| - 1;
      var p := PrimeraVez(s[..n], vistos);
      if s[n] in vistos || s[n] in p then p
      else
        NoDupConcatenar(p, [s[n]]);
        p + [s[n]]
  }

  lemma {:induction false} PrimeraVezMiembro(s: seq<string>, vistos: set<string>, x: string)
    ensures x in PrimeraVez(s, vistos) <==> x in s && x !in vistos
    decreases |s|
  {
    if s != [] {
      var n := |s| - 1;
      assert s == s[..n] + [s[n]];
      PrimeraVezMiembro(s[..n], vistos, x);
    }
  }

  lemma PrimeraVezUltimo(s: seq<string>, vistos: set<string>)
    requires s != []
    ensures var p, x := PrimeraVez(s[..|s| - 1], vistos), s[|s| - 1];
            PrimeraVez(s, vistos) == if x in vistos || x in p then p else p + [x]
  {
  }

  /** A later occurrence adds nothing: the part of `s + t` new after `s` is
      what `t` brings beyond `vistos` and `s`. */
  lemma {:induction false} PrimeraVezConcatenar(s: seq<string>, t: seq<string>, vistos: set<string>)
    ensures PrimeraVez(s + t, vistos) == PrimeraVez(s, vistos) + PrimeraVez(t, vistos + Conjunto(s))
    decreases |t|
  {
    if t == [] {
      assert s + t == s;
    } else {
      var n, x := |t| - 1, t[|t| - 1];
      var p := PrimeraVez(s + t[..n], vistos);
      var q := PrimeraVez(t[..n], vistos + Conjunto(s));
      PrimeraVezConcatenar(s, t[..n], vistos);
      var u := s + t;
      assert u[..|u| - 1] == s + t[..n] && u[|u| - 1] == x;
      PrimeraVezUltimo(u, vistos);
      PrimeraVezUltimo(t, vistos + Conjunto(s));
      assert x in Conjunto(s) <==> x in s;
      PrimeraVezMiembro(s, vistos, x);
      if x in vistos || x in p {
        assert x in vistos + Conjunto(s) || x in q;
      } else {
        assert !(x in vistos + Conjunto(s) || x in q);
        assert p + [x] == PrimeraVez(s, vistos) + (q + [x]);
      }
    }
  }

  /** The first element is new exactly when it is outside `vistos`, and the
      rest counts it as seen. */
  lemma PrimeraVezCons(x: string, s: seq<string>, vistos: set<string>)
    ensures PrimeraVez([x] + s, vistos) == (if x in vistos then [] else [x]) + PrimeraVez(s, vistos + {x})
  {
    var uno := [x];
    PrimeraVezConcatenar(uno, s, vistos);
    PrimeraVezUno(x, vistos);
    assert Conjunto(uno) == {x};
  }

  lemma PrimeraVezUno(x: string, vistos: set<string>)
    ensures PrimeraVez([x], vistos) == if x in vistos then [] else [x]
  {
    assert [x][..0] == [];
  }

  /** Python's `construir_desde_contenidos(contenidos, tipo)`: adds every
      accepted entry in order; the content type defaults to `None`. */
  function ConstruirDesdeContenidos<R>(g: GrafoContenido, es: seq<Entrada<R>>, tipo: Option<string> := None,
                                       decodificar: (string, R) -> Option<Contenido>): (r: GrafoContenido)
    ensures Valido(g) ==> Valido(r)
    ensures ListasPorVertice(g) ==> ListasPorVertice(r)
    ensures |r.ids| <= |g.ids| + |es|
    decreases |es|
  {
    if es == [] then g
    else
      var n := |es| - 1;
      var previo := ConstruirDesdeContenidos(g, es[..n], tipo, decodificar);
      match Aceptado(es[n], tipo, decodificar)
      case None => previo
      case Some(c) => Agregar(previo, c)
  }

  /** What the bulk build leaves under id `k`: the last accepted entry with
      that id wins and gets empty adjacency lists; an id no accepted entry
      carries keeps its vertex and lists; no other id appears. */
  lemma {:induction false} ConstruirEn<R>(g: GrafoContenido, es: seq<Entrada<R>>, tipo: Option<string>,
                                          decodificar: (string, R) -> Option<Contenido>, k: string)
    requires ListasPorVertice(g)
    ensures var r := ConstruirDesdeContenidos(g, es, tipo, decodificar);
            var u := UltimoAceptado(es, k, tipo, decodificar);
            && (k in r.vertices <==> k in g.vertices || u.Some?)
            && (u.Some? ==> r.vertices[k] == u.value && r.similitud[k] == [] && r.maraton[k] == [] && r.sagas[k] == [])
            && (k in g.vertices && u.None? ==>
                  && r.vertices[k] == g.vertices[k] && r.similitud[k] == g.similitud[k]
                  && r.maraton[k] == g.maraton[k] && r.sagas[k] == g.sagas[k])
    decreases |es|
  {
    if es != [] {
      var n := |es| - 1;
      var previo := ConstruirDesdeContenidos(g, es[..n], tipo, decodificar);
      ConstruirEn(g, es[..n], tipo, decodificar, k);
      var a := Aceptado(es[n], tipo, decodificar);
      if a.Some? {
        var r := Agregar(previo, a.value);
        assert ConstruirDesdeContenidos(g, es, tipo, decodificar) == r;
        if a.value.id == k {
          assert UltimoAceptado(es, k, tipo, decodificar) == a;
        } else {
          assert UltimoAceptado(es, k, tipo, decodificar) == UltimoAceptado(es[..n], k, tipo, decodificar);
        }
      } else {
        assert ConstruirDesdeContenidos(g, es, tipo, decodificar) == previo;
        assert UltimoAceptado(es, k, tipo, decodificar) == UltimoAceptado(es[..n], k, tipo, decodificar);
      }
    }
  }

  /** The bulk build keeps the existing ids in place and appends each new
      accepted id once, in order of its first accepted entry; the vertex
      set grows by exactly the accepted ids. */
  lemma {:induction false} ConstruirOrden<R>(g: GrafoContenido, es: seq<Entrada<R>>, tipo: Option<string>,
                                             decodificar: (string, R) -> Option<Contenido>)
    ensures var r := ConstruirDesdeContenidos(g, es, tipo, decodificar);
            var a := IdsAceptados(es, tipo, decodificar);
            && r.ids == g.ids + PrimeraVez(a, g.vertices.Keys)
            && r.vertices.Keys == g.vertices.Keys + Conjunto(a)
    decreases |es|
  {
    if es != [] {
      var n := |es| - 1;
      ConstruirOrden(g, es[..n], tipo, decodificar);
      var a := IdsAceptados(es[..n], tipo, decodificar);
      match Aceptado(es[n], tipo, decodificar)
      case None =>
      case Some(c) =>
        assert IdsAceptados(es, tipo, decodificar) == a + [c.id];
        PrimeraVezConcatenar(a, [c.id], g.vertices.Keys);
        assert [c.id][..0] == [];
        PrimeraVezUltimo([c.id], g.vertices.Keys + Conjunto(a));
        assert Conjunto(a + [c.id]) == Conjunto(a) + {c.id};
        assert c.id in Conjunto(a) <==> c.id in a;
    }
  }
}
