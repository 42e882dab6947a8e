# Recommendation engine of the streaming catalogue, in Dafny

This project models the recommendation core of a small streaming-catalogue
application. That core has two parts.

- **Scoring.** The helpers in `plataforma/contenidos/_helpers.py` score a
  pair of catalogue items (films, documentaries, series) under two policies:
  - "similares" favours shared genre tags and the director;
  - "maraton" favours shared tone/format tags and keywords.

  Both policies use a fixed taxonomy of high-, medium- and low-weight tags
  per content type. A sequel link between the two items overrides everything
  else with the sentinel weight 100.0. The helpers also supply the
  list-backed stack (`Pila`) and queue (`Cola`) the traversals use.
- **The content graph.** `GrafoContenido` in `plataforma/grafo_contenido.py`
  keeps the items and three adjacency maps:
  - the weighted, undirected similarity and marathon graphs;
  - the directed sequel graph.

  It builds them (`agregar`, `construir_desde_contenidos`,
  `generar_similitud`, `generar_orden`) and answers three queries:
  - `dfs_autoplay`: a greedy depth-first walk over the similarity graph,
    cut to 7 ids;
  - `bfs_ver_similar`: a breadth-first walk over the marathon graph, cut to
    7 ids;
  - `generar_topologico`: a cycle-tolerant post-order walk over the sequel
    graph, reversed.

Modules, one file each:

| file | module | contents |
|---|---|---|
| `wrappers.dfy` | `Wrappers` | `Option`, `Result` |
| `secuencias.dfy` | `Secuencias` | `NoDup`, `Invertir`, `Tomar`, `Conjunto` and their lemmas |
| `orden_lexico.dfy` | `OrdenLexico` | the least string of a finite set: the order in which a set of tags is summed |
| `contenido.dfy` | `Contenidos` | the item record; the director as an optional value carried by the item's class |
| `taxonomia.dfy` | `Taxonomia` | the tag table per content type and a tag's bucket |
| `pesos.dfy` | `Pesos` | the two scoring functions, the dispatcher, and a table-driven reference weight |
| `contenedores.dfy` | `Contenedores` | `Pila` and `Cola` |
| `adyacencia.dfy` | `Adyacencia` | weighted adjacency lists, the stable sort by descending weight, unvisited targets |
| `grafo.dfy` | `Grafo` | the graph record and its invariant; `agregar`, `generar_orden`, `ver_adyacencia_orden`, bulk build |
| `similitud.dfy` | `GeneracionAristas` | `generar_similitud` as two nested loops over the pairs, with its result stated per vertex |
| `recorridos.dfy` | `Recorridos` | `dfs_autoplay` and `bfs_ver_similar` as loops over a step function, with the invariants they keep |
| `topologico.dfy` | `Topologico` | `generar_topologico` as mutually recursive functions over the shared visited set and finishing order |

Modelling choices:
- Python dicts become a `map` plus, for the vertex map, a `seq` of keys in
  insertion order. Re-adding a key keeps its position. This order drives the
  pair loop of `generar_similitud` and the top-level loop of
  `generar_topologico`.
- Intensities and weights are exact `real`s.
- A content type is `Option<string>`, with `None` for Python's `None`.
- Python's default arguments are Dafny parameter defaults: the threshold
  of `generar_similitud` defaults to 4.0, and the parameters that default
  to `None` in Python default to `None` here too. They are the content type
  of `generar_similitud`, `construir_desde_contenidos`,
  `_calcular_pesos_maraton`, `_calcular_pesos_similares` and
  `obtener_pesos_aristas`, the policy name of `obtener_pesos_aristas`, and
  the start id of `generar_topologico`.
- The queries return the cut result `r` together with a ghost `recorrido`:
  the whole visit order before `[:7]`.

Behaviour worth noting, modelled as the code has it:
- **Unknown start id.** A query seeded with an id that is not a vertex
  returns that id alone, not an empty result. The start id is always
  visited first.
- **Director bonus.** Only the first item's class is checked for a
  `director` attribute.
  - Two films whose directors are both absent (`None`) earn the bonus.
  - Scoring a film or documentary against a later series raises
    `AttributeError`, unless the two are sequel-linked: the sequel test
    returns 100.0 before the director is read. The model makes this a
    precondition (`Puntuable`, and `ParesComparables` for a whole graph).
- **Which graph each walk reads.** The depth-first query reads the
  similarity graph and the breadth-first query reads the marathon graph.
  The comments on the two maps (`plataforma/grafo_contenido.py:12-15`)
  name them the other way round.
- **What `agregar` resets.** Re-adding an id keeps the latest item and also
  empties that id's three adjacency lists.
- **Unknown content type.** The taxonomy lookup returns empty dicts rather
  than sets. Membership tests behave the same, so every tag falls into the
  "other" bucket.
- **Symmetry and threshold of the generated graphs.** These hold for the
  edges one `generar_similitud` call appends to lists that start empty.
  Each list is extended, not replaced, so a second call appends a second
  copy of every edge.

## Model

| member | source | states |
|---|---|---|
| Contenedores.Pila.Desapilar | plataforma/contenidos/_helpers.py:14-17 | popping fails exactly on an empty stack; otherwise pushing the popped item back restores the stack |
| Contenedores.ApilarDesapilar | plataforma/contenidos/_helpers.py:11-17 | LIFO: a pop right after a push returns the pushed item and the stack as it was |
| Contenedores.VaciarApilarTodos | plataforma/contenidos/_helpers.py:11-17 | pushing a sequence and then popping until empty yields the sequence reversed, then the older items |
| Contenedores.Cola.Desencolar | plataforma/contenidos/_helpers.py:39-43 | dequeuing fails exactly on an empty queue; otherwise it returns the front and the queue behind it |
| Contenedores.VaciarEnOrden | plataforma/contenidos/_helpers.py:36-43 | dequeuing until empty yields the items in the order they sit in the queue |
| Contenedores.VaciarEncolarTodos | plataforma/contenidos/_helpers.py:36-43 | FIFO: enqueued items come out in enqueue order, after the items already waiting |
| Taxonomia.EtiquetasPredefinidas | plataforma/contenidos/_helpers.py:69-91 | the three buckets are pairwise disjoint for every content type; an unknown or absent type gives three empty buckets |
| Taxonomia.DePeliculas | plataforma/contenidos/_helpers.py:74-77 | the film table's three buckets are pairwise disjoint |
| Taxonomia.DeDocumentales | plataforma/contenidos/_helpers.py:80-83 | the documentary table's three buckets are pairwise disjoint |
| Taxonomia.DeSeries | plataforma/contenidos/_helpers.py:86-89 | the series table's three buckets are pairwise disjoint |
| Taxonomia.CategoriaExacta | plataforma/contenidos/_helpers.py:157-173 | a tag is classed high, medium or low exactly when it is in that bucket, and "other" exactly when it is in none |
| Pesos.CadenasSonTabla | plataforma/contenidos/_helpers.py:113-129 | both scoring functions' if-chains give every tag the multiplier the policy table assigns to its bucket |
| Pesos.CalcularPesosMaraton | plataforma/contenidos/_helpers.py:94-136 | a sequel link in either direction gives 100.0, whatever the directors; otherwise the result is director bonus 0.5, plus the sum of min-intensity times bucket multiplier (low 5.0, medium 2.5, high 0.5, other 1.0), plus 5.0 per shared keyword |
| Pesos.CalcularPesosSimilares | plataforma/contenidos/_helpers.py:138-179 | a sequel link in either direction gives 100.0, whatever the directors; otherwise the result is director bonus 2.0, plus the sum of min-intensity times bucket multiplier (high 5.0, medium 2.5, low 0.5, other 1.0), plus 2.0 per shared keyword |
| Pesos.ObtenerPesosAristas | plataforma/contenidos/_helpers.py:183-215 | "similares" gives the similarity weight and "maraton" the marathon weight; any other name, or none, gives 0 for any pair; a sequel pair gets 100.0 under both names |
| Pesos.PesoSinAlgoritmo | plataforma/contenidos/_helpers.py:183-215 | called with the default arguments, the dispatcher gives 0 |
| Pesos.PesosNoNegativos | plataforma/contenidos/_helpers.py:99-136 | with intensities in [0, 1], both weights are non-negative |
| Pesos.PesosNulos | plataforma/contenidos/_helpers.py:143-179 | no sequel link, no director bonus, no shared tag and no shared keyword give 0 under both policies |
| Pesos.PesosSimetricos | plataforma/contenidos/_helpers.py:94-179 | swapping the two items changes neither weight when both or neither have a director attribute |
| Pesos.EtiquetaBajaCompartida | plataforma/contenidos/_helpers.py:116-118 | one shared low-weight tag at full intensity and nothing else shared give 5.0 for the marathon weight and 0.5 for the similarity weight |
| Adyacencia.OrdenarPorPeso | plataforma/grafo_contenido.py:152-157 | the sort by descending weight is a permutation, is descending, and is stable: entries of equal weight keep their order |
| Adyacencia.OrdenarConservaDestinos | plataforma/grafo_contenido.py:152-157 | sorting keeps exactly the same set of neighbours |
| Adyacencia.Pendientes | plataforma/grafo_contenido.py:160-163 | an id is among the pending targets exactly when some entry points to it and it is not yet visited |
| Adyacencia.PrimeroNoVisitado | plataforma/grafo_contenido.py:160-163 | the result is the target of the first entry pointing outside the visited ids, every earlier entry pointing inside; there is none only when every neighbour is visited |
| Grafo.Vacio | plataforma/grafo_contenido.py:5-17 | a new graph has no vertices and satisfies the graph invariant |
| Grafo.Agregar | plataforma/grafo_contenido.py:19-27 | the id maps to the item with three empty lists; every other entry is unchanged; a new id goes last in the key order and a known one keeps its place; the graph invariant is kept |
| Grafo.AgregarDosVeces | plataforma/grafo_contenido.py:19-27 | adding two items with the same id is the same as adding only the second |
| Grafo.VerAdyacenciaOrden | plataforma/grafo_contenido.py:46-53 | an id with a list gives that list and one without gives []; when every sequel link points to a vertex, every id returned is a vertex |
| Grafo.VerOrdenGenerado | plataforma/grafo_contenido.py:84-87 | after `generar_orden` a vertex's order list is its old list followed by its listed sequels that are vertices, in listed order |
| Grafo.Conocidos | plataforma/grafo_contenido.py:85-87 | keeps exactly the listed sequels that are vertices, and all of them when all are |
| Grafo.ConocidosConcatenar | plataforma/grafo_contenido.py:85-87 | the filter keeps its input's order: filtering a concatenation concatenates the filtered parts |
| Grafo.ConocidosUno | plataforma/grafo_contenido.py:85-87 | a single listed sequel is kept exactly when it is a vertex |
| Grafo.EnlazarSecuelas | plataforma/grafo_contenido.py:84-87 | each visited item's list gains its known sequels in listed order; no other list changes |
| Grafo.GenerarOrden | plataforma/grafo_contenido.py:84-87 | every vertex's sequel list gains its known listed sequels; vertices and the weighted graphs are unchanged; the invariant is kept |
| Grafo.ConstruirDesdeContenidos | plataforma/grafo_contenido.py:89-124 | the bulk build keeps the graph invariant and adds at most one vertex per entry |
| Grafo.ConstruirEn | plataforma/grafo_contenido.py:108-124 | after the bulk build an id is a vertex exactly when it was one or some accepted entry carries it; the last such entry wins, with empty lists; any other vertex keeps its item and lists |
| Grafo.ConstruirOrden | plataforma/grafo_contenido.py:108-124 | the bulk build keeps the old key order as a prefix and appends each new accepted id once, in order of its first accepted entry; the vertex set grows by exactly the accepted ids |
| GeneracionAristas.GenerarSimilitud | plataforma/grafo_contenido.py:55-77 | each vertex's two weighted lists grow by exactly its generated edges under the matching policy; on empty lists both graphs come out thresholded, loop-free, symmetric and free of repeated targets |
| GeneracionAristas.RecorrerPares | plataforma/grafo_contenido.py:60-77 | once both loops finish, every vertex has received the edges of all its pairs in both maps |
| GeneracionAristas.RecorrerFila | plataforma/grafo_contenido.py:61-77 | the inner loop for row `i` gives vertex `i` its pairs with every later vertex |
| GeneracionAristas.PuntuarPar | plataforma/grafo_contenido.py:62-77 | scoring one pair appends each endpoint's edge to the graphs whose threshold the score reaches, and nothing else |
| GeneracionAristas.Conectar | plataforma/grafo_contenido.py:70-71 | linking a pair appends the edge to both endpoints' lists and leaves every other list alone |
| GeneracionAristas.ListaDestinos | plataforma/grafo_contenido.py:68-77 | every generated edge reaches the threshold and points to another vertex |
| GeneracionAristas.EnEnlace | plataforma/grafo_contenido.py:62-77 | one pair gives a vertex an edge exactly to the other vertex, with the pair's score, when that score reaches the threshold |
| GeneracionAristas.EnLista | plataforma/grafo_contenido.py:60-77 | a vertex gets an edge to another vertex with weight `w` exactly when `w` is their pair's score and reaches the threshold |
| GeneracionAristas.ListaSimetrica | plataforma/grafo_contenido.py:60-77 | `m` gets an edge to `n` with weight `w` exactly when `n` gets one to `m` with the same weight |
| GeneracionAristas.ListaSinRepetidos | plataforma/grafo_contenido.py:58-62 | each pair is scored once: no generated list names the same vertex twice |
| GeneracionAristas.AristasFrescas | plataforma/grafo_contenido.py:68-77 | generated into empty lists, every edge reaches the threshold, avoids its own vertex and has its reverse edge; no list repeats a target |
| GeneracionAristas.SecuelaEnlazada | plataforma/grafo_contenido.py:58-77 | a sequel pair is linked with weight 100.0 in both graphs under any threshold up to 100.0 |
| Recorridos.ApilarInverso | plataforma/grafo_contenido.py:160-163 | the unvisited neighbours are pushed in reverse sorted order, so the heaviest sits on top |
| Recorridos.PasoDfsInvariante | plataforma/grafo_contenido.py:144-163 | one turn keeps the depth-first invariant: start first, no repeats, every visited id reached from an earlier one, every neighbour visited or stacked, the heaviest unvisited neighbour on top |
| Recorridos.PasoDfsProgreso | plataforma/grafo_contenido.py:144-163 | a turn either visits a new id or shortens the stack |
| Recorridos.DfsAutoplay | plataforma/grafo_contenido.py:126-165 | the answer starts with the start id, has 1 to 7 ids and no repeats, and is a prefix of the visit order; that order is closed under neighbours, reaches each id from an earlier one, and after each id visits its heaviest unvisited neighbour when there is one |
| Recorridos.EncolarNuevos | plataforma/grafo_contenido.py:201-205 | only targets neither visited nor queued are appended; afterwards every target is visited or queued; the queue gains no repeats; the appended ids are exactly the new targets, each at its first entry in the list |
| Recorridos.PasoBfsEncola | plataforma/grafo_contenido.py:189-205 | visiting a new id enqueues behind the rest of the queue exactly its neighbours neither visited nor queued, in descending weight order with ties in list order, each once |
| Recorridos.PasoBfsInvariante | plataforma/grafo_contenido.py:185-205 | the dequeued id is never already visited; the queue stays repeat-free and disjoint from the visited ids; every neighbour is visited or queued; discovery stays in level order; the new queue is the old rest followed by the new neighbours, heaviest first |
| Recorridos.BfsVerSimilar | plataforma/grafo_contenido.py:167-207 | the answer starts with the start id, has 1 to 7 ids and no repeats, and is a prefix of the visit order; that order is closed under neighbours, reaches each id from an earlier one, and is level by level: ids are visited in the order they were discovered |
| Topologico.Visitar | plataforma/grafo_contenido.py:221-227 | a call never unmarks an id, always marks its own node, and changes nothing when the node was already visited |
| Topologico.VisitarTodos | plataforma/grafo_contenido.py:232-234 | visiting a list marks every id in it |
| Topologico.VisitarCorrecto | plataforma/grafo_contenido.py:221-227 | a call appends exactly the newly entered ids, each once, all reachable from its node, each after its sequels unless a sequel reaches back to it |
| Topologico.VisitarTodosCorrecto | plataforma/grafo_contenido.py:225-226 | the loop over sequels appends exactly the newly entered ids, each once and in post-order, all reachable from the list |
| Topologico.VisitarCerrado | plataforma/grafo_contenido.py:221-227 | an id finishes only after each of its sequels has been entered |
| Topologico.VisitarTodosCerrado | plataforma/grafo_contenido.py:225-226 | the loop over a list keeps every finished id's sequels entered |
| Topologico.PosordenDesdeInicio | plataforma/grafo_contenido.py:221-231 | with a start id, every id reachable from it by sequel links finishes |
| Topologico.PosordenSinInicio | plataforma/grafo_contenido.py:221-235 | without one, every id reachable from a vertex id finishes |
| Topologico.PosordenCorrecto | plataforma/grafo_contenido.py:218-235 | the answer is the reversed finishing order, which has no repeats and is a post-order; with a start id it ends with that id and holds exactly the ids it reaches; otherwise it holds every vertex id and exactly the ids they reach |
| Topologico.TopologicoSinRepetidos | plataforma/grafo_contenido.py:218-235 | the answer never repeats an id, even on cyclic sequel graphs |
| Topologico.TopologicoDesdeInicio | plataforma/grafo_contenido.py:221-231 | with a truthy start id the answer is non-empty, starts with that id and holds exactly the ids reachable from it |
| Topologico.TopologicoCompleto | plataforma/grafo_contenido.py:221-235 | without a start id the answer holds every vertex id and exactly the ids reachable from one |
| Topologico.TopologicoPorDefecto | plataforma/grafo_contenido.py:209-235 | called with the default (no start id), the answer has no repeats, holds every vertex id and only ids reachable from one |
| Topologico.TopologicoPermutacion | plataforma/grafo_contenido.py:232-235 | without a start id, on a graph whose sequel links point to vertices, the answer is a permutation of the vertex ids |
| Topologico.TopologicoAristas | plataforma/grafo_contenido.py:221-235 | a sequel link between two ids of the answer points forward unless its target reaches its source back |
| Topologico.TopologicoAciclico | plataforma/grafo_contenido.py:209-235 | on an acyclic sequel graph every link between two ids of the answer points forward |

## Left out

- Presentation, persistence and records: the menu, the JSON stores, the
  client records and the item classes are out of scope. Only the item
  fields the engine reads are modelled.
- `from_dict`: each class's decoder is the parameter `decodificar` of the
  bulk build. It returns `None` where Python raises, and that entry is
  skipped.
- `Pila.__iter__` and `Cola.__iter__` are not modelled. They read a
  `self.items` attribute the classes do not define, so they always raise.
- `ver_adyacencia_similitud` is not modelled: its body is only comments.
  `ver_vertices` is the key sequence `ids`.
- Floating point: weights are exact reals, so IEEE rounding is not
  modelled.
- Set iteration order: shared tags are summed from the least string up.
  Python iterates a `set` in hash order. With exact reals the sum does not
  depend on the order.
- Python's recursion limit is not modelled. `dfs_topo` recurses once per
  link on the current path, so a sequel chain longer than about a thousand
  items would raise `RecursionError`.
- Pesos.CalcularPesosMaraton: the `AttributeError` of a film or
  documentary scored against a series it is not sequel-linked to is
  excluded by a precondition, not modelled as an error result.
- Pesos.CalcularPesosSimilares: the same precondition as the marathon
  score.
- Pesos.ObtenerPesosAristas: the same precondition, for the two policy
  names only.
- GeneracionAristas.GenerarSimilitud: requires the graph invariant and
  comparable directors for every pair that is not sequel-linked. It states symmetry, threshold and
  loop-freedom only for lists that start empty. On non-empty lists it
  states only what is appended.
- Recorridos.DfsAutoplay: it does not state which id follows a dead end.
  That is the most recently pushed id not yet visited. The contract fixes
  the start, the greedy choice after every id with an unvisited neighbour,
  connectivity and closure.
- Recorridos.BfsVerSimilar: its own contract states the level order but
  not the order among the children of one parent. That order (heaviest
  first, ties in list order) is stated per turn by
  Recorridos.PasoBfsInvariante, which the loop applies at every turn.
- Topologico.TopologicoAciclico: it asks the whole sequel graph to be
  acyclic, not just the part reachable from the start id. For a cyclic
  graph, TopologicoAristas states what does hold.
- Grafo.ConstruirDesdeContenidos: the per-id content of the result is
  stated separately, by Grafo.ConstruirEn, and the key order by
  Grafo.ConstruirOrden.
