/** The fixed tag taxonomy: per content type, the tags of high, medium and
    low weight. A tag in none of the three sets is in the "other" bucket. */
module Taxonomia {
  import opened Wrappers

  datatype Etiquetas = Etiquetas(alto: set<string>, medio: set<string>, bajo: set<string>) {
    /** No tag has two weights. */
    predicate Disjuntas() {
      alto !! medio && alto !! bajo && medio !! bajo
    }
  }

  /** The bucket a tag falls into for a given taxonomy. */
  datatype Categoria = Alta | Media | Baja | Otra

  /** Python's `_obtener_etiquetas_predefinidas(tipo)`; `tipo` is `None`
      when the caller gives no content type. */
  function EtiquetasPredefinidas(tipo: Option<string>): (e: Etiquetas)
    ensures e.Disjuntas()
    ensures tipo !in {Some("peliculas"), Some("documentales"), Some("series")} ==>
              e.alto == {} && e.medio == {} && e.bajo == {}
  {
    if tipo == Some("peliculas") then DePeliculas()
    else if tipo == Some("documentales") then DeDocumentales()
    else if tipo == Some("series") then DeSeries()
    else Etiquetas({}, {}, {})
  }

  function DePeliculas(): (e: Etiquetas)
    ensures e.Disjuntas()
  {
    Etiquetas(
      {"Dinosaurios", "Fantasía de Mundo", "Cyberpunk", "Arqueología", "Juventud", "Superhéroes"},
      {"Tecnología", "Distopía", "Histórica", "Mar", "Magia", "Sobrenatural"},
      {"Acción", "Aventura", "Comedia", "Drama", "Familia"})
  }

  function DeDocumentales(): (e: Etiquetas)
    ensures e.Disjuntas()
  {
    Etiquetas(
      {"Ciencia", "Historia", "Medio-Ambiente", "Crimen-Real", "Biografía", "Política"},
      {"Música", "Arte", "Exploración", "Guerra", "Deporte", "Tecnología"},
      {"Entrevista", "Narración-en-off", "Investigación", "Social", "Viajes"})
  }

  function DeSeries(): (e: Etiquetas)
    ensures e.Disjuntas()
  {
    Etiquetas(
      {"Fantasia-Oscura", "Ciencia-Ficción", "Thriller-Psicológico", "Misterio", "Western", "Histórica"},
      {"Policial", "Comedia-Negra", "Juvenil", "Superhéroes", "Romance", "Acción-Militar"},
      {"Sitcom", "Procedimental", "Telenovela", "Animación", "Épica"})
  }


  /** The bucket of `tag`, in the order high, medium, low, other. */
  function CategoriaDe(e: Etiquetas, tag: string): Categoria {
    if tag in e.alto then Alta
    else if tag in e.medio then Media
    else if tag in e.bajo then Baja
    else Otra
  }

  /** Every tag lands in exactly the bucket whose set holds it. */
  lemma CategoriaExacta(tipo: Option<string>, tag: string)
    ensures var e := EtiquetasPredefinidas(tipo);
      && (CategoriaDe(e, tag) == Alta <==> tag in e.alto)
      && (CategoriaDe(e, tag) == Media <==> tag in e.medio)
      && (CategoriaDe(e, tag) == Baja <==> tag in e.bajo)
      && (CategoriaDe(e, tag) == Otra <==> tag !in e.alto + e.medio + e.bajo)
  {
  }
}
