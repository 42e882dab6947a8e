/** The fields of a catalogue item the recommendation engine reads.
    `ContenidoBase` and its subclasses are plain containers; only `id`,
    `etiquetas`, `palabras_claves`, `ids_secuelas` and, for films and
    documentaries, `director` are consulted. */
module Contenidos {
  import opened Wrappers

  /** The concrete class of an item. `Pelicula` and `Documental` carry a
      `director` attribute, which may be `None` when the record omitted it;
      a `Serie` has no such attribute at all. */
  datatype Clase =
    | Pelicula(director: Option<string>)
    | Documental(director: Option<string>)
    | Serie

  datatype Contenido = Contenido(
    id: string,
    etiquetas: map<string, real>,
    palabras_claves: set<string>,
    ids_secuelas: seq<string>,
    clase: Clase)

  /** Whether the item's class has a director attribute: films and
      documentaries do, series do not. */
  predicate TieneDirector(c: Contenido) {
    !c.clase.Serie?
  }

  /** The item's intensity for `tag`, or 0 when it does not carry the tag. */
  function Intensidad(c: Contenido, tag: string): real {
    if tag in c.etiquetas then c.etiquetas[tag] else 0.0
  }

  /** Intensities lie in [0, 1], as the scoring docstring states. */
  predicate IntensidadesValidas(c: Contenido) {
    forall t | t in c.etiquetas :: 0.0 <= c.etiquetas[t] <= 1.0
  }
}
