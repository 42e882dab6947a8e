/** The list-backed stack (`Pila`) and queue (`Cola`) the traversals use.
    Both raise `IndexError` when emptied further; here that is a `Failure`. */
module Contenedores {
  import opened Wrappers
  import Secuencias

  /** LIFO stack; the top is the last element of `items`. */
  datatype Pila<T(==)> = Pila(items: seq<T>) {

    predicate EstaVacia() {
      |items| == 0
    }

    function Apilar(x: T): (p: Pila<T>)
      ensures !p.EstaVacia() && p.Contiene(x)
      ensures |p.items| == |items| + 1
    {
      Pila(items + [x])
    }

    /** Removes and returns the top; fails on an empty stack. */
    function Desapilar(): (r: Result<(T, Pila<T>)>)
      ensures r.Failure? <==> EstaVacia()
      ensures r.Success? ==> r.value.1.Apilar(r.value.0) == this
    {
      if EstaVacia() then Failure("pop from empty stack")
      else Success((items[|items| - 1], Pila(items[..|items| - 1])))
    }

    /** Python's `x in pila`. */
    predicate Contiene(x: T) {
      x in items
    }
  }

  function PilaVacia<T(==)>(): (p: Pila<T>)
    ensures p.EstaVacia()
  {
    Pila([])
  }

  /** LIFO: popping right after a push returns the pushed item and the
      stack as it was. */
  lemma ApilarDesapilar<T>(p: Pila<T>, x: T)
    ensures p.Apilar(x).Desapilar() == Success((x, p))
  {
    assert (p.items + [x])[..|p.items|] == p.items;
  }

  /** FIFO queue; the front is the first element of `items`. */
  datatype Cola<T(==)> = Cola(items: seq<T>) {

    predicate EstaVacia() {
      |items| == 0
    }

    function Encolar(x: T): (c: Cola<T>)
      ensures !c.EstaVacia() && c.Contiene(x)
      ensures |c.items| == |items| + 1
    {
      Cola(items + [x])
    }

    /** Removes and returns the front; fails on an empty queue. */
    function Desencolar(): (r: Result<(T, Cola<T>)>)
      ensures r.Failure? <==> EstaVacia()
      ensures r.Success? ==> [r.value.0] + r.value.1.items == items
    {
      if EstaVacia() then Failure("dequeue from empty queue")
      else Success((items[0], Cola(items[1..])))
    }

    /** Python's `x in cola`: list membership. */
    predicate Contiene(x: T) {
      x in items
    }
  }

  function ColaVacia<T(==)>(): (c: Cola<T>)
    ensures c.EstaVacia()
  {
    Cola([])
  }

  /** The items dequeued one by one until the queue is empty. */
  function Vaciar<T>(c: Cola<T>): seq<T>
    decreases |c.items|
  {
    match c.Desencolar()
    case Failure(_) => []
    case Success((x, resto)) => [x] + Vaciar(resto)
  }

  function EncolarTodos<T>(c: Cola<T>, xs: seq<T>): Cola<T>
    decreases |xs|
  {
    if xs == [] then c else EncolarTodos(c.Encolar(xs[0]), xs[1..])
  }

  /** Dequeuing until empty yields the items in the order they sit in the queue. */
  lemma {:induction false} VaciarEnOrden<T>(c: Cola<T>)
    ensures Vaciar(c) == c.items
    decreases |c.items|
  {
    if !c.EstaVacia() {
      var resto := Cola(c.items[1..]);
      assert c.Desencolar() == Success((c.items[0], resto));
      VaciarEnOrden(resto);
      assert c.items == [c.items[0]] + resto.items;
    }
  }

  lemma {:induction false} EncolarTodosAlFinal<T>(c: Cola<T>, xs: seq<T>)
    ensures EncolarTodos(c, xs).items == c.items + xs
    decreases |xs|
  {
    if xs != [] {
      EncolarTodosAlFinal(c.Encolar(xs[0]), xs[1..]);
      assert c.items + [xs[0]] + xs[1..] == c.items + xs;
    }
  }

  /** FIFO: items come out in the order they were enqueued, after the ones
      already waiting. */
  lemma VaciarEncolarTodos<T>(c: Cola<T>, xs: seq<T>)
    ensures Vaciar(EncolarTodos(c, xs)) == Vaciar(c) + xs
  {
    VaciarEnOrden(c);
    VaciarEnOrden(EncolarTodos(c, xs));
    EncolarTodosAlFinal(c, xs);
  }

  /** Python's `pila.desapilar()` on a stack built by pushes: LIFO order. */
  function VaciarPila<T>(p: Pila<T>): seq<T>
    decreases |p.items|
  {
    match p.Desapilar()
    case Failure(_) => []
    case Success((x, resto)) => [x] + VaciarPila(resto)
  }

  function ApilarTodos<T>(p: Pila<T>, xs: seq<T>): Pila<T>
    decreases |xs|
  {
    if xs == [] then p else ApilarTodos(p.Apilar(xs[0]), xs[1..])
  }

  /** LIFO: items pushed come out in reverse order, before the older ones. */
  lemma {:induction false} VaciarApilarTodos<T>(p: Pila<T>, xs: seq<T>)
    ensures VaciarPila(ApilarTodos(p, xs)) == Secuencias.Invertir(xs) + VaciarPila(p)
    decreases |xs|
  {
    if xs != [] {
      var q := p.Apilar(xs[0]);
      VaciarApilarTodos(q, xs[1..]);
      ApilarDesapilar(p, xs[0]);
      assert VaciarPila(q) == [xs[0]] + VaciarPila(p);
      calc {
        VaciarPila(ApilarTodos(p, xs));
        VaciarPila(ApilarTodos(q, xs[1..]));
        Secuencias.Invertir(xs[1..]) + ([xs[0]] + VaciarPila(p));
        (Secuencias.Invertir(xs[1..]) + [xs[0]]) + VaciarPila(p);
        Secuencias.Invertir(xs) + VaciarPila(p);
      }
    }
  }
}
