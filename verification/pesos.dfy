/** Pairwise edge weights under the two scoring policies: "maraton"
    (favours low-weight tone/format tags and keywords) and "similares"
    (favours high-weight genre tags and the director). */
module Pesos {
  import opened Wrappers
  import opened Contenidos
  import opened Taxonomia
  import OrdenLexico
  import Secuencias

  /** The weight every pair linked by a sequel gets, whatever else they share. */
  const PesoSecuela: real := 100.0

  datatype Politica = Similares | Maraton

  /** `b` is a listed sequel of `a` or the other way round. */
  predicate SecuelaRelacionada(a: Contenido, b: Contenido) {
    b.id in a.ids_secuelas || a.id in b.ids_secuelas
  }

  /** Python evaluates `b.director` whenever `a` has a director, which
      raises `AttributeError` if `b` is a `Serie`; callers avoid that. */
  predicate DirectoresComparables(a: Contenido, b: Contenido) {
    TieneDirector(a) ==> TieneDirector(b)
  }

  /** Python can score the pair: the sequel test returns before
      `b.director` is read, so only an unlinked pair needs comparable
      directors. */
  predicate Puntuable(a: Contenido, b: Contenido) {
    !SecuelaRelacionada(a, b) ==> DirectoresComparables(a, b)
  }

  /** The director bonus applies: the first item has a director attribute
      and both items' directors are equal. Two absent (`None`) directors
      compare equal. */
  predicate MismoDirector(a: Contenido, b: Contenido)
    requires DirectoresComparables(a, b)
  {
    TieneDirector(a) && a.clase.director == b.clase.director
  }

  function EtiquetasComunes(a: Contenido, b: Contenido): set<string> {
    a.etiquetas.Keys * b.etiquetas.Keys
  }

  function PalabrasComunes(a: Contenido, b: Contenido): set<string> {
    a.palabras_claves * b.palabras_claves
  }

  /** The smaller of the two items' intensities for `tag`, a missing tag
      counting as 0. */
  function ValorBase(a: Contenido, b: Contenido, tag: string): real {
    var x := Intensidad(a, tag);
    var y := Intensidad(b, tag);
    if y < x then y else x
  }

  /** How a tag's multiplier is chosen: by the if-chain of one of the two
      scoring functions, or by the policy table applied to the tag's bucket. */
  datatype Regla =
    | CadenaMaraton(e: Etiquetas)
    | CadenaSimilares(e: Etiquetas)
    | Tabla(p: Politica, e: Etiquetas)

  /** The per-bucket multipliers of the two policies. */
  function Multiplicador(p: Politica, c: Categoria): real {
    match (p, c)
    case (Similares, Alta) => 5.0
    case (Similares, Media) => 2.5
    case (Similares, Baja) => 0.5
    case (Maraton, Alta) => 0.5
    case (Maraton, Media) => 2.5
    case (Maraton, Baja) => 5.0
    case (_, Otra) => 1.0
  }

  function BonoDirector(p: Politica): real {
    if p == Similares then 2.0 else 0.5
  }

  function PesoPalabra(p: Politica): real {
    if p == Similares then 2.0 else 5.0
  }

  function MultiplicadorDe(r: Regla, tag: string): real {
    match r
    case CadenaMaraton(e) =>
      // low first, then medium, then high
      if tag in e.bajo then 5.0
      else if tag in e.medio then 2.5
      else if tag in e.alto then 0.5
      else 1.0
    case CadenaSimilares(e) =>
      if tag in e.alto then 5.0
      else if tag in e.medio then 2.5
      else if tag in e.bajo then 0.5
      else 1.0
    case Tabla(p, e) => Multiplicador(p, CategoriaDe(e, tag))
  }

  /** Sum over `tags` of `min(intensity) * multiplier`. The tags are taken
      from the least string upwards; with exact reals the order does not
      change the sum. */
  function SumaEtiquetas(a: Contenido, b: Contenido, tags: set<string>, r: Regla): real
    decreases tags
  {
    if tags == {} then 0.0
    else
      var t := OrdenLexico.Menor(tags);
      ValorBase(a, b, t) * MultiplicadorDe(r, t) + SumaEtiquetas(a, b, tags - {t}, r)
  }

  /** Two rules that agree on every tag of the set give the same sum. */
  lemma {:induction false} SumaMismaRegla(a: Contenido, b: Contenido, tags: set<string>, r1: Regla, r2: Regla)
    requires forall t | t in tags :: MultiplicadorDe(r1, t) == MultiplicadorDe(r2, t)
    ensures SumaEtiquetas(a, b, tags, r1) == SumaEtiquetas(a, b, tags, r2)
    decreases tags
  {
    if tags != {} {
      var t := OrdenLexico.Menor(tags);
      SumaMismaRegla(a, b, tags - {t}, r1, r2);
    }
  }

  /** With disjoint buckets, both source if-chains agree with the table. */
  lemma CadenasSonTabla(tipo: Option<string>, tag: string)
    ensures var e := EtiquetasPredefinidas(tipo);
      && MultiplicadorDe(CadenaMaraton(e), tag) == MultiplicadorDe(Tabla(Maraton, e), tag)
      && MultiplicadorDe(CadenaSimilares(e), tag) == MultiplicadorDe(Tabla(Similares, e), tag)
  {
  }

  /** The weight of a scoring policy: the sequel sentinel, or the director
      bonus plus the tag contributions by bucket plus the keyword bonus. */
  function PesoReferencia(a: Contenido, b: Contenido, tipo: Option<string>, p: Politica): real
    requires Puntuable(a, b)
  {
    if SecuelaRelacionada(a, b) then PesoSecuela
    else
      (if MismoDirector(a, b) then BonoDirector(p) else 0.0)
      + SumaEtiquetas(a, b, EtiquetasComunes(a, b), Tabla(p, EtiquetasPredefinidas(tipo)))
      + PesoPalabra(p) * (|PalabrasComunes(a, b)| as real)
  }

  /** Python's `_calcular_pesos_maraton(a, b, tipo)`, the type defaulting to `None`. */
  function CalcularPesosMaraton(a: Contenido, b: Contenido, tipo: Option<string> := None): (r: real)
    requires Puntuable(a, b)
    ensures SecuelaRelacionada(a, b) ==> r == PesoSecuela
    ensures r == PesoReferencia(a, b, tipo, Maraton)
  {
    if SecuelaRelacionada(a, b) then 100.0
    else
      var peso := if MismoDirector(a, b) then 0.5 else 0.0;
      var e := EtiquetasPredefinidas(tipo);
      var comunes := EtiquetasComunes(a, b);
      forall t | t in comunes
        ensures MultiplicadorDe(CadenaMaraton(e), t) == MultiplicadorDe(Tabla(Maraton, e), t)
      {
        CadenasSonTabla(tipo, t);
      }
      SumaMismaRegla(a, b, comunes, CadenaMaraton(e), Tabla(Maraton, e));
      peso + SumaEtiquetas(a, b, comunes, CadenaMaraton(e)) + 5.0 * (|PalabrasComunes(a, b)| as real)
  }

  /** Python's `_calcular_pesos_similares(a, b, tipo)`, the type defaulting to `None`. */
  function CalcularPesosSimilares(a: Contenido, b: Contenido, tipo: Option<string> := None): (r: real)
    requires Puntuable(a, b)
    ensures SecuelaRelacionada(a, b) ==> r == PesoSecuela
    ensures r == PesoReferencia(a, b, tipo, Similares)
  {
    if SecuelaRelacionada(a, b) then 100.0
    else
      var peso := if MismoDirector(a, b) then 2.0 else 0.0;
      var e := EtiquetasPredefinidas(tipo);
      var comunes := EtiquetasComunes(a, b);
      forall t | t in comunes
        ensures MultiplicadorDe(CadenaSimilares(e), t) == MultiplicadorDe(Tabla(Similares, e), t)
      {
        CadenasSonTabla(tipo, t);
      }
      SumaMismaRegla(a, b, comunes, CadenaSimilares(e), Tabla(Similares, e));
      peso + SumaEtiquetas(a, b, comunes, CadenaSimilares(e)) + 2.0 * (|PalabrasComunes(a, b)| as real)
  }

  /** Python's `obtener_pesos_aristas(a, b, tipo, algoritmo)`, with both
      trailing parameters defaulting to `None`. */
  function ObtenerPesosAristas(a: Contenido, b: Contenido, tipo: Option<string> := None,
                               algoritmo: Option<string> := None): (r: real)
    requires algoritmo == Some("similares") || algoritmo == Some("maraton") ==> Puntuable(a, b)
    ensures algoritmo == Some("similares") ==> r == PesoReferencia(a, b, tipo, Similares)
    ensures algoritmo == Some("maraton") ==> r == PesoReferencia(a, b, tipo, Maraton)
    ensures algoritmo != Some("similares") && algoritmo != Some("maraton") ==> r == 0.0
    ensures algoritmo in {Some("similares"), Some("maraton")} && SecuelaRelacionada(a, b) ==> r == PesoSecuela
  {
    var peso := 0.0;
    var peso := if algoritmo == Some("similares") then CalcularPesosSimilares(a, b, tipo) else peso;
    var peso := if algoritmo == Some("maraton") then CalcularPesosMaraton(a, b, tipo) else peso;
    peso
  }

  /** Called without a policy name, the dispatcher scores every pair 0. */
  lemma PesoSinAlgoritmo(a: Contenido, b: Contenido)
    ensures ObtenerPesosAristas(a, b) == 0.0
  {
  }

  lemma {:induction false} SumaNoNegativa(a: Contenido, b: Contenido, tags: set<string>, p: Politica, e: Etiquetas)
    requires IntensidadesValidas(a) && IntensidadesValidas(b)
    ensures SumaEtiquetas(a, b, tags, Tabla(p, e)) >= 0.0
    decreases tags
  {
    if tags != {} {
      var t := OrdenLexico.Menor(tags);
      assert ValorBase(a, b, t) >= 0.0;
      assert Multiplicador(p, CategoriaDe(e, t)) > 0.0;
      SumaNoNegativa(a, b, tags - {t}, p, e);
    }
  }

  /** With intensities in [0, 1] no weight is negative. */
  lemma PesosNoNegativos(a: Contenido, b: Contenido, tipo: Option<string>)
    requires Puntuable(a, b)
    requires IntensidadesValidas(a) && IntensidadesValidas(b)
    ensures CalcularPesosMaraton(a, b, tipo) >= 0.0
    ensures CalcularPesosSimilares(a, b, tipo) >= 0.0
  {
    var e := EtiquetasPredefinidas(tipo);
    SumaNoNegativa(a, b, EtiquetasComunes(a, b), Maraton, e);
    SumaNoNegativa(a, b, EtiquetasComunes(a, b), Similares, e);
  }

  /** Nothing shared, no sequel link, no director bonus: both weights are 0. */
  lemma PesosNulos(a: Contenido, b: Contenido, tipo: Option<string>)
    requires DirectoresComparables(a, b)
    requires !SecuelaRelacionada(a, b) && !MismoDirector(a, b)
    requires EtiquetasComunes(a, b) == {} && PalabrasComunes(a, b) == {}
    ensures CalcularPesosMaraton(a, b, tipo) == 0.0
    ensures CalcularPesosSimilares(a, b, tipo) == 0.0
  {
  }

  lemma {:induction false} SumaSimetrica(a: Contenido, b: Contenido, tags: set<string>, r: Regla)
    ensures SumaEtiquetas(a, b, tags, r) == SumaEtiquetas(b, a, tags, r)
    decreases tags
  {
    if tags != {} {
      var t := OrdenLexico.Menor(tags);
      SumaSimetrica(a, b, tags - {t}, r);
    }
  }

  lemma PesoReferenciaSimetrico(a: Contenido, b: Contenido, tipo: Option<string>, p: Politica)
    requires !SecuelaRelacionada(a, b) ==> (TieneDirector(a) <==> TieneDirector(b))
    ensures PesoReferencia(a, b, tipo, p) == PesoReferencia(b, a, tipo, p)
  {
    assert EtiquetasComunes(a, b) == EtiquetasComunes(b, a);
    assert PalabrasComunes(a, b) == PalabrasComunes(b, a);
    SumaSimetrica(a, b, EtiquetasComunes(a, b), Tabla(p, EtiquetasPredefinidas(tipo)));
  }

  /** The weights do not depend on which item comes first, as long as both
      or neither have a director attribute. */
  lemma PesosSimetricos(a: Contenido, b: Contenido, tipo: Option<string>)
    requires !SecuelaRelacionada(a, b) ==> (TieneDirector(a) <==> TieneDirector(b))
    ensures CalcularPesosMaraton(a, b, tipo) == CalcularPesosMaraton(b, a, tipo)
    ensures CalcularPesosSimilares(a, b, tipo) == CalcularPesosSimilares(b, a, tipo)
  {
    PesoReferenciaSimetrico(a, b, tipo, Maraton);
    PesoReferenciaSimetrico(a, b, tipo, Similares);
  }

  lemma SumaUnaEtiqueta(a: Contenido, b: Contenido, tag: string, r: Regla)
    ensures SumaEtiquetas(a, b, {tag}, r) == ValorBase(a, b, tag) * MultiplicadorDe(r, tag)
  {
    assert OrdenLexico.Menor({tag}) == tag;
    assert {tag} - {tag} == {};
  }

  /** One shared low-weight tag at full intensity, nothing else shared:
      the marathon weight is 5.0 and the similarity weight is 0.5. */
  lemma EtiquetaBajaCompartida(a: Contenido, b: Contenido, tipo: Option<string>, tag: string)
    requires DirectoresComparables(a, b)
    requires !SecuelaRelacionada(a, b) && !MismoDirector(a, b) && PalabrasComunes(a, b) == {}
    requires EtiquetasComunes(a, b) == {tag} && tag in EtiquetasPredefinidas(tipo).bajo
    requires Intensidad(a, tag) == 1.0 && Intensidad(b, tag) == 1.0
    ensures CalcularPesosMaraton(a, b, tipo) == 5.0
    ensures CalcularPesosSimilares(a, b, tipo) == 0.5
  {
    var e := EtiquetasPredefinidas(tipo);
    assert CategoriaDe(e, tag) == Baja;
    assert ValorBase(a, b, tag) == 1.0;
    SumaUnaEtiqueta(a, b, tag, Tabla(Maraton, e));
    SumaUnaEtiqueta(a, b, tag, Tabla(Similares, e));
  }
}
