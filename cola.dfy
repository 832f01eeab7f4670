/** `Cola`: a queue kept as a singly linked chain of nodes from `inicio` (the front) to `rabo`
    (the rear), with the counter `elementos`. Its abstract value `Contents` lists the elements
    from the front to the rear, which is also the order in which its iterator visits them. */
module Colas {
  import opened Errores

  class Nodo<T> {
    var elemento: T
    var siguiente: Nodo?<T>

    constructor (elemento: T)
      ensures this.elemento == elemento && siguiente == null
    {
      this.elemento := elemento;
      siguiente := null;
    }
  }

  class Cola<T(==)> {
    var inicio: Nodo?<T>
    var rabo: Nodo?<T>
    var elementos: int

    ghost var Contents: seq<T>
    ghost var Nodos: seq<Nodo<T>>
    ghost var Repr: set<object>

    /** The queue owns its nodes and they form its chain. */
    ghost predicate Valid()
      reads this, Repr
      ensures Valid() ==> this in Repr
    {
      && this in Repr
      && (forall i :: 0 <= i < |Nodos| ==> Nodos[i] in Repr)
      && Encadenada()
    }

    /** The chain from `inicio` through `siguiente` is exactly `Nodos`, ends at `rabo` and holds
        `Contents`; `elementos` is its length and no node occurs twice. */
    ghost predicate Encadenada()
      reads this, Nodos
    {
      && |Nodos| == |Contents| == elementos
      && inicio == (if Nodos == [] then null else Nodos[0])
      && rabo == (if Nodos == [] then null else Nodos[|Nodos| - 1])
      && (forall i {:trigger Nodos[i].elemento} :: 0 <= i < |Nodos| ==> Nodos[i].elemento == Contents[i])
      && (forall i {:trigger Nodos[i].siguiente} :: 0 <= i < |Nodos| - 1 ==> Nodos[i].siguiente == Nodos[i + 1])
      && (rabo != null ==> rabo.siguiente == null)
      && (forall i, j :: 0 <= i < j < |Nodos| ==> Nodos[i] != Nodos[j])
    }

    /** `Cola()`: the empty queue. */
    constructor ()
      ensures Valid() && fresh(Repr) && Contents == []
    {
      inicio, rabo, elementos := null, null, 0;
      Contents, Nodos, Repr := [], [], {this};
    }

    /** `Cola(T[])`: queues the elements of `a` in order, so the front is `a[0]`. */
    constructor DeArreglo(a: array<T>)
      ensures Valid() && fresh(Repr)
      ensures Contents == a[..]
    {
      inicio, rabo, elementos := null, null, 0;
      Contents, Nodos, Repr := [], [], {this};
      new;
      for k := 0 to a.Length
        invariant Valid() && fresh(Repr)
        invariant Contents == a[..k]
      {
        var _ := Queue(Some(a[k]));
        assert a[..k + 1] == a[..k] + [a[k]];
      }
      assert a[..] == a[..a.Length];
    }

    /** `queue`: a null element throws `IllegalArgumentException`; any other is linked after the
        rear (or becomes both ends of an empty queue). */
    method Queue(elemento: Option<T>) returns (r: Outcome)
      requires Valid()
      modifies Repr
      ensures Valid() && fresh(Repr - old(Repr))
      ensures elemento.None? ==> r == Fail(IllegalArgumentException) && Contents == old(Contents)
      ensures elemento.Some? ==> r == Pass && Contents == old(Contents) + [elemento.value]
    {
      if elemento.None? {
        return Fail(IllegalArgumentException);
      }
      var nuevoNodo := new Nodo(elemento.value);
      if inicio == null {
        inicio, rabo := nuevoNodo, nuevoNodo;
      } else {
        rabo.siguiente := nuevoNodo;
        rabo := nuevoNodo;
      }
      elementos := elementos + 1;
      Contents, Nodos, Repr := Contents + [elemento.value], Nodos + [nuevoNodo], Repr + {nuevoNodo};
      return Pass;
    }

    /** `dequeue`: an empty queue throws `NoSuchElementException`; otherwise the front is removed
        and returned, and removing the only element clears both ends. */
    method Dequeue() returns (r: Result<T>)
      requires Valid()
      modifies this
      ensures Valid() && Repr == old(Repr)
      ensures old(Contents) == [] ==> r == Err(NoSuchElementException) && Contents == []
      ensures old(Contents) != [] ==> r == Ok(old(Contents)[0]) && Contents == old(Contents)[1..]
      ensures |old(Contents)| == 1 ==> inicio == null && rabo == null
    {
      if EsVacio() {
        return Err(NoSuchElementException);
      }
      var elemento := inicio.elemento;
      if elementos == 1 {
        inicio, rabo := null, null;
      } else {
        inicio := inicio.siguiente;
      }
      elementos := elementos - 1;
      Contents, Nodos := Contents[1..], Nodos[1..];
      return Ok(elemento);
    }

    /** `peek`: the front, or null when the queue is empty; nothing changes. */
    function Peek(): (r: Option<T>)
      reads this, Repr
      requires Valid()
      ensures Contents == [] ==> r == None
      ensures Contents != [] ==> r == Some(Contents[0])
    {
      if inicio == null then None else Some(inicio.elemento)
    }

    /** `agrega`: the collection operation, which is `queue`. */
    method Agrega(elemento: Option<T>) returns (r: Outcome)
      requires Valid()
      modifies Repr
      ensures Valid() && fresh(Repr - old(Repr))
      ensures elemento.None? ==> r == Fail(IllegalArgumentException) && Contents == old(Contents)
      ensures elemento.Some? ==> r == Pass && Contents == old(Contents) + [elemento.value]
    {
      r := Queue(elemento);
    }

    /** `elimina`: dequeues the front whatever the argument is; an empty queue throws
        `NoSuchElementException`. */
    method Elimina(elemento: Option<T>) returns (r: Outcome)
      requires Valid()
      modifies this
      ensures Valid() && Repr == old(Repr)
      ensures old(Contents) == [] ==> r == Fail(NoSuchElementException) && Contents == []
      ensures old(Contents) != [] ==> r == Pass && Contents == old(Contents)[1..]
    {
      var sacado := Dequeue();
      r := if sacado.Ok? then Pass else Fail(sacado.error);
    }

    /** `contiene`: walks the queue from the front comparing each element with `elemento`; a
        null argument equals no element. */
    method Contiene(elemento: Option<T>) returns (r: bool)
      requires Valid()
      ensures r <==> elemento.Some? && elemento.value in Contents
    {
      var aux := inicio;
      ghost var k := 0;
      while aux != null
        invariant 0 <= k <= |Nodos|
        invariant aux == if k < |Nodos| then Nodos[k] else null
        invariant elemento.Some? ==> elemento.value !in Contents[..k]
        decreases |Nodos| - k
      {
        if Some(aux.elemento) == elemento {
          return true;
        }
        assert Contents[..k + 1] == Contents[..k] + [Contents[k]];
        aux := aux.siguiente;
        k := k + 1;
      }
      assert Contents[..k] == Contents;
      return false;
    }

    /** `esVacio`: tests `inicio`; it holds exactly when there are no elements. */
    predicate EsVacio()
      reads this, Repr
      requires Valid()
      ensures EsVacio() <==> Contents == []
    {
      inicio == null
    }

    /** `getTamanio`: the counter equals the number of elements. */
    function GetTamanio(): (n: int)
      reads this, Repr
      requires Valid()
      ensures n == |Contents|
      ensures n == 0 <==> EsVacio()
    {
      elementos
    }

    /** The iterator: visits the elements from the front to the rear, that is, in the order
        `Contents` lists them. */
    method Iterar() returns (s: seq<T>)
      requires Valid()
      ensures s == Contents
    {
      s := [];
      var siguiente := inicio;
      while siguiente != null
        invariant 0 <= |s| <= |Nodos|
        invariant siguiente == if |s| < |Nodos| then Nodos[|s|] else null
        invariant s == Contents[..|s|]
        decreases |Nodos| - |s|
      {
        s := s + [siguiente.elemento];
        siguiente := siguiente.siguiente;
      }
      assert Contents[..|s|] == Contents;
    }
  }

  /** First in, first out: queueing the elements of `xs` on an empty queue and then dequeuing
      `|xs|` times yields them in the order they were queued, and empties the queue. */
  method OrdenFifo<T(==)>(c: Cola<T>, xs: seq<T>) returns (salida: seq<T>)
    requires c.Valid() && c.Contents == []
    modifies c.Repr
    ensures c.Valid() && c.Contents == []
    ensures salida == xs
  {
    for k := 0 to |xs|
      invariant c.Valid() && fresh(c.Repr - old(c.Repr))
      invariant c.Contents == xs[..k]
    {
      var _ := c.Queue(Some(xs[k]));
      assert xs[..k + 1] == xs[..k] + [xs[k]];
    }
    assert xs[..|xs|] == xs;
    salida := [];
    while |salida| < |xs|
      invariant c.Valid() && fresh(c.Repr - old(c.Repr))
      invariant |salida| <= |xs| && salida + c.Contents == xs
      decreases |xs| - |salida|
    {
      var r := c.Dequeue();
      salida := salida + [r.value];
    }
  }
}
