/** `Pila`: a stack kept as a singly linked chain of nodes starting at `tope`, with the counter
    `elementos`. Its abstract value `Contents` lists the elements from the top down, which is
    also the order in which its iterator visits them. */
module Pilas {
  import opened Errores
  import opened ListaSpec

  class Nodo<T> {
    var elemento: T
    var siguiente: Nodo?<T>

    constructor (elemento: T)
      ensures this.elemento == elemento && siguiente == null
    {
      this.elemento := elemento;
      siguiente := null;
    }
  }

  class Pila<T(==)> {
    var tope: Nodo?<T>
    var elementos: int

    ghost var Contents: seq<T>
    ghost var Nodos: seq<Nodo<T>>
    ghost var Repr: set<object>

    /** The stack owns its nodes and they form its chain. */
    ghost predicate Valid()
      reads this, Repr
      ensures Valid() ==> this in Repr
    {
      && this in Repr
      && (forall i :: 0 <= i < |Nodos| ==> Nodos[i] in Repr)
      && Encadenada()
    }

    /** The chain from `tope` through `siguiente` is exactly `Nodos` and holds `Contents`;
        `elementos` is its length. */
    ghost predicate Encadenada()
      reads this, Nodos
    {
      && |Nodos| == |Contents| == elementos
      && tope == (if Nodos == [] then null else Nodos[0])
      && (forall i {:trigger Nodos[i].elemento} :: 0 <= i < |Nodos| ==> Nodos[i].elemento == Contents[i])
      && (forall i {:trigger Nodos[i].siguiente} :: 0 <= i < |Nodos| - 1 ==> Nodos[i].siguiente == Nodos[i + 1])
      && (Nodos != [] ==> Nodos[|Nodos| - 1].siguiente == null)
    }

    /** `Pila()`: the empty stack. */
    constructor ()
      ensures Valid() && fresh(Repr) && Contents == []
    {
      tope, elementos := null, 0;
      Contents, Nodos, Repr := [], [], {this};
    }

    /** `Pila(T[])`: pushes the elements of `a` in order, so `a[0]` ends at the bottom and the
        last element on top. */
    constructor DeArreglo(a: array<T>)
      ensures Valid() && fresh(Repr)
      ensures Contents == Invertida(a[..])
    {
      tope, elementos := null, 0;
      Contents, Nodos, Repr := [], [], {this};
      new;
      for k := 0 to a.Length
        invariant Valid() && fresh(Repr)
        invariant Contents == Invertida(a[..k])
      {
        var _ := Push(Some(a[k]));
        InvertidaSnoc(a[..k], a[k]);
        assert a[..k + 1] == a[..k] + [a[k]];
      }
      assert a[..] == a[..a.Length];
    }

    /** `Pila(Pila)`: pushes the elements of `pila` in its iteration order, from its top down,
        so the new stack holds them reversed (its top is the bottom of `pila`). */
    constructor Copia(pila: Pila<T>)
      requires pila.Valid()
      ensures Valid() && fresh(Repr)
      ensures Contents == Invertida(pila.Contents)
    {
      tope, elementos := null, 0;
      Contents, Nodos, Repr := [], [], {this};
      new;
      ghost var s := pila.Contents;
      var aux := pila.tope;
      ghost var k := 0;
      while aux != null
        invariant Valid() && fresh(Repr) && pila.Valid() && pila.Contents == s
        invariant 0 <= k <= |s|
        invariant aux == if k < |s| then pila.Nodos[k] else null
        invariant Contents == Invertida(s[..k])
        decreases |s| - k
      {
        var _ := Push(Some(aux.elemento));
        InvertidaSnoc(s[..k], s[k]);
        assert s[..k + 1] == s[..k] + [s[k]];
        aux := aux.siguiente;
        k := k + 1;
      }
      assert s[..k] == s;
    }

    /** `push`: a null element throws `IllegalArgumentException`; any other becomes the new
        top. */
    method Push(elemento: Option<T>) returns (r: Outcome)
      requires Valid()
      modifies this
      ensures Valid() && fresh(Repr - old(Repr))
      ensures elemento.None? ==> r == Fail(IllegalArgumentException) && Contents == old(Contents)
      ensures elemento.Some? ==> r == Pass && Contents == [elemento.value] + old(Contents)
    {
      if elemento.None? {
        return Fail(IllegalArgumentException);
      }
      var nuevoNodo := new Nodo(elemento.value);
      nuevoNodo.siguiente := tope;
      tope := nuevoNodo;
      elementos := elementos + 1;
      Contents, Nodos, Repr := [elemento.value] + Contents, [nuevoNodo] + Nodos, Repr + {nuevoNodo};
      return Pass;
    }

    /** `pop`: an empty stack throws `NoSuchElementException`; otherwise the top is removed and
        returned. */
    method Pop() returns (r: Result<T>)
      requires Valid()
      modifies this
      ensures Valid() && Repr == old(Repr)
      ensures old(Contents) == [] ==> r == Err(NoSuchElementException) && Contents == []
      ensures old(Contents) != [] ==> r == Ok(old(Contents)[0]) && Contents == old(Contents)[1..]
    {
      if EsVacio() {
        return Err(NoSuchElementException);
      }
      var elemento := tope.elemento;
      tope := tope.siguiente;
      elementos := elementos - 1;
      Contents, Nodos := Contents[1..], Nodos[1..];
      return Ok(elemento);
    }

    /** `peek`: the top, or null when the stack is empty; nothing changes. */
    function Peek(): (r: Option<T>)
      reads this, Repr
      requires Valid()
      ensures Contents == [] ==> r == None
      ensures Contents != [] ==> r == Some(Contents[0])
    {
      if EsVacio() then None else Some(tope.elemento)
    }

    /** `agrega`: the collection operation, which is `push`. */
    method Agrega(elemento: Option<T>) returns (r: Outcome)
      requires Valid()
      modifies this
      ensures Valid() && fresh(Repr - old(Repr))
      ensures elemento.None? ==> r == Fail(IllegalArgumentException) && Contents == old(Contents)
      ensures elemento.Some? ==> r == Pass && Contents == [elemento.value] + old(Contents)
    {
      r := Push(elemento);
    }

    /** `elimina`: pops the top whatever the argument is; an empty stack throws
        `NoSuchElementException`. */
    method Elimina(elemento: Option<T>) returns (r: Outcome)
      requires Valid()
      modifies this
      ensures Valid() && Repr == old(Repr)
      ensures old(Contents) == [] ==> r == Fail(NoSuchElementException) && Contents == []
      ensures old(Contents) != [] ==> r == Pass && Contents == old(Contents)[1..]
    {
      var sacado := Pop();
      r := if sacado.Ok? then Pass else Fail(sacado.error);
    }

    /** `contiene`: walks the stack from the top comparing each element with `elemento`; a null
        argument equals no element. */
    method Contiene(elemento: Option<T>) returns (r: bool)
      requires Valid()
      ensures r <==> elemento.Some? && elemento.value in Contents
    {
      var aux := tope;
      ghost var k := 0;
      while aux != null
        invariant 0 <= k <= |Nodos|
        invariant aux == if k < |Nodos| then Nodos[k] else null
        invariant elemento.Some? ==> elemento.value !in Contents[..k]
        decreases |Nodos| - k
      {
        if Some(aux.elemento) == elemento {
          return true;
        }
        assert Contents[..k + 1] == Contents[..k] + [Contents[k]];
        aux := aux.siguiente;
        k := k + 1;
      }
      assert Contents[..k] == Contents;
      return false;
    }

    /** `esVacio`: tests `tope`; it holds exactly when there are no elements. */
    predicate EsVacio()
      reads this, Repr
      requires Valid()
      ensures EsVacio() <==> Contents == []
    {
      tope == null
    }

    /** `getTamanio`: the counter equals the number of elements. */
    function GetTamanio(): (n: int)
      reads this, Repr
      requires Valid()
      ensures n == |Contents|
      ensures n == 0 <==> EsVacio()
    {
      elementos
    }

    /** The iterator: visits the elements from the top down, that is, in the order `Contents`
        lists them. */
    method Iterar() returns (s: seq<T>)
      requires Valid()
      ensures s == Contents
    {
      s := [];
      var siguiente := tope;
      while siguiente != null
        invariant 0 <= |s| <= |Nodos|
        invariant siguiente == if |s| < |Nodos| then Nodos[|s|] else null
        invariant s == Contents[..|s|]
        decreases |Nodos| - |s|
      {
        s := s + [siguiente.elemento];
        siguiente := siguiente.siguiente;
      }
      assert Contents[..|s|] == Contents;
    }
  }

  /** Last in, first out: a `push` followed by a `pop` returns the pushed element and leaves the
      stack as it was. */
  method PushPop<T(==)>(p: Pila<T>, x: T) returns (r: Result<T>)
    requires p.Valid()
    modifies p
    ensures p.Valid()
    ensures r == Ok(x) && p.Contents == old(p.Contents)
  {
    var _ := p.Push(Some(x));
    r := p.Pop();
  }

  /** Copying a stack twice gives back its original order, since each copy reverses it. */
  method CopiaDoble<T(==)>(p: Pila<T>) returns (q: Pila<T>)
    requires p.Valid()
    ensures q.Valid() && fresh(q.Repr)
    ensures q.Contents == p.Contents
  {
    var invertida := new Pila.Copia(p);
    q := new Pila.Copia(invertida);
    InvertidaInvolutiva(p.Contents);
  }
}
