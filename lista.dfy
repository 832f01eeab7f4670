/** `Lista`: a doubly linked list with head `cabeza`, tail `cola` and a length counter `longitud`.
    Its abstract value is the ghost sequence `Contents`; `Nodos` is the ghost sequence of its nodes
    from head to tail, and `Valid()` ties both to the links. Elements are compared with `==`. */
module Listas {
  import opened Errores
  import opened ListaSpec

  class Nodo<T> {
    var anterior: Nodo?<T>
    var siguiente: Nodo?<T>
    var elemento: T

    constructor (elemento: T)
      ensures this.elemento == elemento && anterior == null && siguiente == null
    {
      this.elemento := elemento;
      anterior := null;
      siguiente := null;
    }
  }

  class Lista<T(==)> {
    var cabeza: Nodo?<T>
    var cola: Nodo?<T>
    var longitud: int

    ghost var Contents: seq<T>
    ghost var Nodos: seq<Nodo<T>>
    ghost var Repr: set<object>

    /** The list owns its nodes and they form its chain. */
    ghost predicate Valid()
      reads this, Repr
      ensures Valid() ==> this in Repr
    {
      && this in Repr
      && (forall i :: 0 <= i < |Nodos| ==> Nodos[i] in Repr)
      && Encadenada()
    }

    /** The node chain from `cabeza` to `cola` is exactly `Nodos`, linked both ways, and holds
        `Contents`; `longitud` is its length. */
    ghost predicate Encadenada()
      reads this, Nodos
    {
      && |Nodos| == |Contents| == longitud
      && cabeza == (if Nodos == [] then null else Nodos[0])
      && cola == (if Nodos == [] then null else Nodos[|Nodos| - 1])
      && (forall i {:trigger Nodos[i].elemento} :: 0 <= i < |Nodos| ==> Nodos[i].elemento == Contents[i])
      && (forall i {:trigger Nodos[i].siguiente} :: 0 <= i < |Nodos| - 1 ==> Nodos[i].siguiente == Nodos[i + 1])
      && (forall i {:trigger Nodos[i].anterior} :: 0 < i < |Nodos| ==> Nodos[i].anterior == Nodos[i - 1])
      && (cabeza != null ==> cabeza.anterior == null)
      && (cola != null ==> cola.siguiente == null)
      && (forall i, j :: 0 <= i < j < |Nodos| ==> Nodos[i] != Nodos[j])
    }

    constructor ()
      ensures Valid() && fresh(Repr) && Contents == []
    {
      cabeza, cola, longitud := null, null, 0;
      Contents, Nodos, Repr := [], [], {this};
    }

    /** `esVacia`: the head is null exactly when the list has no elements. */
    predicate EsVacia()
      reads this, Repr
      requires Valid()
      ensures EsVacia() <==> Contents == []
    {
      cabeza == null
    }

    /** `longitud()`: the counter equals the number of elements. */
    function Longitud(): (n: int)
      reads this, Repr
      requires Valid()
      ensures n == |Contents|
    {
      longitud
    }

    /** `vaciar`: drops every element. */
    method Vaciar()
      requires Valid()
      modifies this
      ensures Valid() && Repr == old(Repr)
      ensures Contents == [] && longitud == 0
    {
      cabeza, cola, longitud := null, null, 0;
      Contents, Nodos := [], [];
    }

    /** `agregar`: appends at the tail. */
    method Agregar(elemento: T)
      requires Valid()
      modifies Repr
      ensures Valid() && fresh(Repr - old(Repr))
      ensures Contents == old(Contents) + [elemento]
      ensures longitud == old(longitud) + 1
    {
      var nodo := new Nodo(elemento);
      if EsVacia() {
        cabeza := nodo;
        cola := nodo;
      } else {
        cola.siguiente := nodo;
        nodo.anterior := cola;
        cola := nodo;
      }
      longitud := longitud + 1;
      Contents, Nodos, Repr := Contents + [elemento], Nodos + [nodo], Repr + {nodo};
    }

    /** `agregarAlInicio`: prepends at the head. */
    method AgregarAlInicio(elemento: T)
      requires Valid()
      modifies Repr
      ensures Valid() && fresh(Repr - old(Repr))
      ensures Contents == [elemento] + old(Contents)
      ensures longitud == old(longitud) + 1
    {
      var nodo := new Nodo(elemento);
      if EsVacia() {
        cola := nodo;
      } else {
        cabeza.anterior := nodo;
      }
      nodo.siguiente := cabeza;
      cabeza := nodo;
      longitud := longitud + 1;
      Contents, Nodos, Repr := [elemento] + Contents, [nodo] + Nodos, Repr + {nodo};
    }

    /** `agregarAlFinal`: appends at the tail, linking the new node back to the old tail. */
    method AgregarAlFinal(elemento: T)
      requires Valid()
      modifies Repr
      ensures Valid() && fresh(Repr - old(Repr))
      ensures Contents == old(Contents) + [elemento]
      ensures longitud == old(longitud) + 1
    {
      var nodo := new Nodo(elemento);
      if EsVacia() {
        cabeza := nodo;
      } else {
        cola.siguiente := nodo;
      }
      nodo.anterior := cola;
      cola := nodo;
      longitud := longitud + 1;
      Contents, Nodos, Repr := Contents + [elemento], Nodos + [nodo], Repr + {nodo};
    }

    /** `buscar`: the node of the first element equal to `elemento`; null when `elemento` is null
        or does not occur. */
    method Buscar(elemento: Option<T>) returns (nodo: Nodo?<T>)
      requires Valid()
      ensures elemento.None? ==> nodo == null
      ensures elemento.Some? && elemento.value !in Contents ==> nodo == null
      ensures elemento.Some? && elemento.value in Contents ==>
                nodo == Nodos[PrimerIndice(Contents, elemento.value)]
    {
      if elemento.None? {
        return null;
      }
      var aux := cabeza;
      ghost var k := 0;
      while aux != null
        invariant 0 <= k <= |Nodos|
        invariant aux == if k < |Nodos| then Nodos[k] else null
        invariant elemento.value !in Contents[..k]
        decreases |Nodos| - k
      {
        if aux.elemento == elemento.value {
          PrimerIndiceUnico(Contents, elemento.value, k);
          return aux;
        }
        assert Contents[..k + 1] == Contents[..k] + [Contents[k]];
        aux := aux.siguiente;
        k := k + 1;
      }
      assert Contents[..k] == Contents;
      return null;
    }

    /** `contiene`: true exactly when `elemento` is not null and occurs in the list. */
    method Contiene(elemento: Option<T>) returns (r: bool)
      requires Valid()
      ensures r <==> elemento.Some? && elemento.value in Contents
    {
      var nodo := Buscar(elemento);
      r := nodo != null;
    }

    /** `eliminar`: an empty list is left alone; a list of length 1 is emptied whatever the
        argument; otherwise the first element equal to `elemento` is unlinked. When there is no
        such element (or the argument is null) `buscar` yields null and dereferencing it throws
        a NullPointerException before anything is changed. */
    method Eliminar(elemento: Option<T>) returns (r: Outcome)
      requires Valid()
      modifies Repr
      ensures Valid() && Repr == old(Repr)
      ensures |old(Contents)| <= 1 ==> r == Pass && Contents == []
      ensures |old(Contents)| > 1 && elemento.Some? && elemento.value in old(Contents) ==>
                r == Pass && Contents == SinPrimero(old(Contents), elemento.value)
      ensures |old(Contents)| > 1 && !(elemento.Some? && elemento.value in old(Contents)) ==>
                r == Fail(NullPointerException) && Contents == old(Contents)
    {
      if EsVacia() {
        return Pass;
      }
      if longitud == 1 {
        cabeza := null;
        cola := null;
        longitud := longitud - 1;
        Contents, Nodos := [], [];
      } else {
        var nodo := Buscar(elemento);
        ghost var i := if nodo == null then 0 else PrimerIndice(Contents, elemento.value);
        assert nodo != null ==> 0 <= i < |Nodos| && nodo == Nodos[i];
        if nodo == cabeza {
          assert i == 0;
          DesenlazarCabeza();
        } else if nodo == cola {
          assert i == |Nodos| - 1;
          DesenlazarCola();
        } else if nodo == null {
          return Fail(NullPointerException);
        } else {
          DesenlazarInterior(nodo, i);
        }
      }
      r := Pass;
    }

    /** The head branch of `eliminar` (with its `longitud--`): the second node becomes the head. */
    method DesenlazarCabeza()
      requires Valid() && |Nodos| > 1
      modifies Repr
      ensures Valid() && Repr == old(Repr)
      ensures Contents == old(Contents[1..]) && Nodos == old(Nodos[1..])
    {
      cabeza := cabeza.siguiente;
      cabeza.anterior := null;
      longitud := longitud - 1;
      Contents, Nodos := Contents[1..], Nodos[1..];
    }

    /** The tail branch of `eliminar` (with its `longitud--`): the last but one node becomes the
        tail. */
    method DesenlazarCola()
      requires Valid() && |Nodos| > 1
      modifies Repr
      ensures Valid() && Repr == old(Repr)
      ensures Contents == old(Contents[..|Contents| - 1]) && Nodos == old(Nodos[..|Nodos| - 1])
    {
      cola := cola.anterior;
      cola.siguiente := null;
      longitud := longitud - 1;
      ghost var n := |Nodos|;
      Contents, Nodos := Contents[..n - 1], Nodos[..n - 1];
    }

    /** The inner branch of `eliminar` (with its `longitud--`): the neighbours of the node at
        position `i` are linked to each other. */
    method DesenlazarInterior(nodo: Nodo<T>, ghost i: int)
      requires Valid() && 0 < i < |Nodos| - 1 && nodo == Nodos[i]
      modifies Repr
      ensures Valid() && Repr == old(Repr)
      ensures Contents == old(Contents[..i] + Contents[i + 1..])
      ensures Nodos == old(Nodos[..i] + Nodos[i + 1..])
    {
      ghost var viejos := Nodos;
      assert nodo.anterior == Nodos[i - 1] && nodo.siguiente == Nodos[i + 1];
      nodo.anterior.siguiente := nodo.siguiente;
      nodo.siguiente.anterior := nodo.anterior;
      longitud := longitud - 1;
      Contents, Nodos := Contents[..i] + Contents[i + 1..], Nodos[..i] + Nodos[i + 1..];
      assert forall k :: 0 <= k < i ==> Nodos[k] == viejos[k];
      assert forall k :: i <= k < |Nodos| ==> Nodos[k] == viejos[k + 1];
    }

    /** `indiceDe`: the position of the first element equal to `elemento`, or -1 (also for a
        null argument, which no element equals). */
    method IndiceDe(elemento: Option<T>) returns (indice: int)
      requires Valid()
      ensures indice == if elemento.Some? then PrimerIndice(Contents, elemento.value) else -1
    {
      indice := 0;
      var aux := cabeza;
      while aux != null
        invariant 0 <= indice <= |Nodos|
        invariant aux == if indice < |Nodos| then Nodos[indice] else null
        invariant elemento.Some? ==> elemento.value !in Contents[..indice]
        decreases |Nodos| - indice
      {
        if Some(aux.elemento) == elemento {
          PrimerIndiceUnico(Contents, elemento.value, indice);
          return indice;
        }
        assert Contents[..indice + 1] == Contents[..indice] + [Contents[indice]];
        aux := aux.siguiente;
        indice := indice + 1;
      }
      assert Contents[..indice] == Contents;
      return -1;
    }

    /** `getElemento`: the element at position `i`, walking from the head when `i` lies in the
        first half and from the tail otherwise; out-of-range positions throw. */
    method GetElemento(i: int) returns (r: Result<T>)
      requires Valid()
      ensures 0 <= i < |Contents| ==> r == Ok(Contents[i])
      ensures !(0 <= i < |Contents|) ==> r == Err(IndexOutOfBoundsException)
    {
      if i < 0 || i >= longitud {
        return Err(IndexOutOfBoundsException);
      }
      var avanzarSiguiente := i < longitud / 2;
      var nodo := if avanzarSiguiente then cabeza else cola;
      var elemento: Option<T> := None;
      var indice := if avanzarSiguiente then 0 else longitud - 1;
      while nodo != null
        invariant avanzarSiguiente ==> 0 <= indice <= i
        invariant !avanzarSiguiente ==> i <= indice < |Nodos|
        invariant nodo == Nodos[indice]
        invariant elemento.None?
        decreases if avanzarSiguiente then i - indice else indice - i
      {
        if indice == i {
          elemento := Some(nodo.elemento);
          break;
        }
        nodo := if avanzarSiguiente then nodo.siguiente else nodo.anterior;
        indice := indice + if avanzarSiguiente then 1 else -1;
      }
      r := Ok(elemento.value);
    }

    /** The iterator: walks the chain from the head through `siguiente`, so it visits the
        elements in order. */
    method Iterar() returns (s: seq<T>)
      requires Valid()
      ensures s == Contents
    {
      s := [];
      var siguiente := cabeza;
      while siguiente != null
        invariant 0 <= |s| <= |Nodos|
        invariant siguiente == if |s| < |Nodos| then Nodos[|s|] else null
        invariant s == Contents[..|s|]
        decreases |Nodos| - |s|
      {
        s := s + [siguiente.elemento];
        siguiente := siguiente.siguiente;
      }
      assert Contents[..|s|] == Contents;
    }

    /** `reversa`: a new list with the elements in the opposite order, built by prepending each
        element in turn. */
    method Reversa() returns (lista: Lista<T>)
      requires Valid()
      ensures lista.Valid() && fresh(lista.Repr)
      ensures lista.Contents == Invertida(Contents)
    {
      lista := new Lista();
      var aux := cabeza;
      ghost var k := 0;
      while aux != null
        invariant lista.Valid() && fresh(lista.Repr)
        invariant 0 <= k <= |Nodos|
        invariant aux == if k < |Nodos| then Nodos[k] else null
        invariant lista.Contents == Invertida(Contents[..k])
        decreases |Nodos| - k
      {
        lista.AgregarAlInicio(aux.elemento);
        InvertidaSnoc(Contents[..k], Contents[k]);
        assert Contents[..k + 1] == Contents[..k] + [Contents[k]];
        aux := aux.siguiente;
        k := k + 1;
      }
      assert Contents[..k] == Contents;
    }

    /** `copia`: a new list with the same elements in the same order. */
    method Copia() returns (lista: Lista<T>)
      requires Valid()
      ensures lista.Valid() && fresh(lista.Repr)
      ensures lista.Contents == Contents
    {
      lista := new Lista();
      var aux := cabeza;
      ghost var k := 0;
      while aux != null
        invariant lista.Valid() && fresh(lista.Repr)
        invariant 0 <= k <= |Nodos|
        invariant aux == if k < |Nodos| then Nodos[k] else null
        invariant lista.Contents == Contents[..k]
        decreases |Nodos| - k
      {
        lista.Agregar(aux.elemento);
        assert Contents[..k + 1] == Contents[..k] + [Contents[k]];
        aux := aux.siguiente;
        k := k + 1;
      }
      assert Contents[..k] == Contents;
    }

    /** `equals`: another list is equal when it has the same length and equal elements
        position by position; null is never equal. */
    method Equals(o: Lista?<T>) returns (r: bool)
      requires Valid()
      requires o != null ==> o.Valid()
      ensures r <==> o != null && o.Contents == Contents
    {
      if o == null {
        return false;
      }
      if o.longitud != longitud {
        return false;
      }
      var aux1, aux2 := cabeza, o.cabeza;
      ghost var k := 0;
      while aux1 != null
        invariant 0 <= k <= |Nodos|
        invariant aux1 == if k < |Nodos| then Nodos[k] else null
        invariant aux2 == if k < |o.Nodos| then o.Nodos[k] else null
        invariant Contents[..k] == o.Contents[..k]
        decreases |Nodos| - k
      {
        if aux1.elemento != aux2.elemento {
          assert Contents[k] != o.Contents[k];
          return false;
        }
        assert Contents[..k + 1] == Contents[..k] + [Contents[k]];
        assert o.Contents[..k + 1] == o.Contents[..k] + [o.Contents[k]];
        aux1, aux2 := aux1.siguiente, aux2.siguiente;
        k := k + 1;
      }
      assert Contents[..k] == Contents && o.Contents[..k] == o.Contents;
      return true;
    }
  }

  /** `Lista.merge`: a new list holding the merge of `l1` and `l2` (the head of `l1` wins ties). */
  method Merge<T(==)>(l1: Lista<T>, l2: Lista<T>, clave: T -> int) returns (l: Lista<T>)
    requires l1.Valid() && l2.Valid()
    ensures l.Valid() && fresh(l.Repr)
    ensures l.Contents == Mezcla(l1.Contents, l2.Contents, clave)
  {
    ghost var a, b := l1.Contents, l2.Contents;
    var aux1, aux2;
    ghost var i, j;
    l, aux1, aux2, i, j := MezclarCabezas(l1, l2, clave);
    MezclaConVacia(a[i..], b[j..], clave);
    // Of the two trailing loops only the one whose list still has nodes runs.
    if aux1 != null {
      assert b[j..] == [];
      AgregarDesde(l, l1, aux1, i);
    } else {
      assert a[i..] == [];
      AgregarDesde(l, l2, aux2, j);
    }
  }

  /** The first loop of `Lista.merge`: while both lists have nodes left, append the smaller head
      (the one of `l1` on a tie) to a new list `l`. It stops at positions `i` and `j`, one of them
      at the end of its list. */
  method MezclarCabezas<T(==)>(l1: Lista<T>, l2: Lista<T>, clave: T -> int)
      returns (l: Lista<T>, aux1: Nodo?<T>, aux2: Nodo?<T>, ghost i: int, ghost j: int)
    requires l1.Valid() && l2.Valid()
    ensures l.Valid() && fresh(l.Repr)
    ensures 0 <= i <= |l1.Contents| && 0 <= j <= |l2.Contents|
    ensures i == |l1.Contents| || j == |l2.Contents|
    ensures aux1 == if i < |l1.Contents| then l1.Nodos[i] else null
    ensures aux2 == if j < |l2.Contents| then l2.Nodos[j] else null
    ensures l.Contents + Mezcla(l1.Contents[i..], l2.Contents[j..], clave) ==
            Mezcla(l1.Contents, l2.Contents, clave)
  {
    l := new Lista();
    aux1, aux2 := l1.cabeza, l2.cabeza;
    ghost var a, b := l1.Contents, l2.Contents;
    i, j := 0, 0;
    while aux1 != null && aux2 != null
      invariant l.Valid() && fresh(l.Repr) && l1.Valid() && l2.Valid()
      invariant l1.Repr !! l.Repr && l2.Repr !! l.Repr
      invariant 0 <= i <= |a| && 0 <= j <= |b|
      invariant aux1 == if i < |a| then l1.Nodos[i] else null
      invariant aux2 == if j < |b| then l2.Nodos[j] else null
      invariant l.Contents + Mezcla(a[i..], b[j..], clave) == Mezcla(a, b, clave)
      decreases |a| - i + |b| - j
    {
      aux1, aux2, i, j := CopiarMenor(l, l1, l2, aux1, aux2, i, j, clave);
    }
  }

  /** The body of the first loop of `Lista.merge`: append the smaller of the heads `aux1` and
      `aux2` (that of `l1` on a tie) to `l` and advance past it; the merge of what is left
      still completes `Mezcla(l1.Contents, l2.Contents)`. */
  method CopiarMenor<T(==)>(l: Lista<T>, l1: Lista<T>, l2: Lista<T>, aux1: Nodo<T>, aux2: Nodo<T>,
                            ghost i: int, ghost j: int, clave: T -> int)
      returns (sig1: Nodo?<T>, sig2: Nodo?<T>, ghost i': int, ghost j': int)
    requires l.Valid() && l1.Valid() && l2.Valid() && l1.Repr !! l.Repr && l2.Repr !! l.Repr
    requires 0 <= i < |l1.Contents| && 0 <= j < |l2.Contents|
    requires aux1 == l1.Nodos[i] && aux2 == l2.Nodos[j]
    requires l.Contents + Mezcla(l1.Contents[i..], l2.Contents[j..], clave) ==
             Mezcla(l1.Contents, l2.Contents, clave)
    modifies l.Repr
    ensures l.Valid() && fresh(l.Repr - old(l.Repr)) && l1.Valid() && l2.Valid()
    ensures (i' == i + 1 && j' == j) || (i' == i && j' == j + 1)
    ensures sig1 == if i' < |l1.Contents| then l1.Nodos[i'] else null
    ensures sig2 == if j' < |l2.Contents| then l2.Nodos[j'] else null
    ensures l.Contents + Mezcla(l1.Contents[i'..], l2.Contents[j'..], clave) ==
            Mezcla(l1.Contents, l2.Contents, clave)
  {
    ghost var a, b := l1.Contents, l2.Contents;
    assert aux1.elemento == a[i] && aux2.elemento == b[j];
    MezclaAvanza(a, b, i, j, l.Contents, clave);
    if clave(aux1.elemento) <= clave(aux2.elemento) {
      sig1 := CopiarNodo(l, l1, aux1, i);
      sig2, i', j' := aux2, i + 1, j;
    } else {
      sig2 := CopiarNodo(l, l2, aux2, j);
      sig1, i', j' := aux1, i, j + 1;
    }
  }

  /** One step of the loops of `Lista.merge` and `Lista.mergesort`: append the element of `aux`,
      the `i`-th node of `origen`, to `l` and return the next node of `origen`. */
  method CopiarNodo<T(==)>(l: Lista<T>, origen: Lista<T>, aux: Nodo<T>, ghost i: int)
      returns (siguiente: Nodo?<T>)
    requires l.Valid() && origen.Valid() && l.Repr !! origen.Repr
    requires 0 <= i < |origen.Contents| && aux == origen.Nodos[i]
    modifies l.Repr
    ensures l.Valid() && fresh(l.Repr - old(l.Repr)) && origen.Valid()
    ensures l.Contents == old(l.Contents) + [origen.Contents[i]]
    ensures siguiente == if i + 1 < |origen.Contents| then origen.Nodos[i + 1] else null
  {
    l.Agregar(aux.elemento);
    siguiente := aux.siguiente;
  }

  /** The two trailing loops of `Lista.merge`: starting at node `aux`, the `i`-th node of
      `origen`, append the remaining elements of `origen` to `l`. */
  method AgregarDesde<T(==)>(l: Lista<T>, origen: Lista<T>, aux: Nodo?<T>, ghost i: int)
    requires l.Valid() && origen.Valid() && l.Repr !! origen.Repr
    requires 0 <= i <= |origen.Contents|
    requires aux == if i < |origen.Contents| then origen.Nodos[i] else null
    modifies l.Repr
    ensures l.Valid() && fresh(l.Repr - old(l.Repr))
    ensures l.Contents == old(l.Contents) + origen.Contents[i..]
  {
    var nodo := aux;
    ghost var k := i;
    ghost var s := origen.Contents;
    while nodo != null
      invariant l.Valid() && fresh(l.Repr - old(l.Repr)) && origen.Valid() && l.Repr !! origen.Repr
      invariant i <= k <= |s|
      invariant nodo == if k < |s| then origen.Nodos[k] else null
      invariant l.Contents == old(l.Contents) + s[i..k]
      decreases |s| - k
    {
      assert s[i..k + 1] == s[i..k] + [s[k]];
      l.Agregar(nodo.elemento);
      nodo := nodo.siguiente;
      k := k + 1;
    }
    assert s[i..k] == s[i..];
  }

  /** `Lista.mergesort`: a list shorter than 2 is returned itself; otherwise its first
      `longitud / 2` elements and the rest are copied into two new lists, sorted recursively and
      merged. */
  method Mergesort<T(==)>(l: Lista<T>, clave: T -> int) returns (r: Lista<T>)
    requires l.Valid()
    ensures r.Valid()
    ensures r.Contents == OrdenadaPorMezcla(l.Contents, clave)
    ensures multiset(r.Contents) == multiset(l.Contents)
    ensures forall i, j :: 0 <= i < j < |r.Contents| ==> clave(r.Contents[i]) <= clave(r.Contents[j])
    ensures |l.Contents| < 2 ==> r == l
    ensures |l.Contents| >= 2 ==> fresh(r.Repr)
    decreases |l.Contents|
  {
    OrdenadaPorMezclaPermutacion(l.Contents, clave);
    OrdenadaPorMezclaOrdenada(l.Contents, clave);
    OrdenadaPares(OrdenadaPorMezcla(l.Contents, clave), clave);
    if l.longitud < 2 {
      return l;
    }
    var l1, l2 := Partir(l);
    var o1 := Mergesort(l1, clave);
    var o2 := Mergesort(l2, clave);
    r := Merge(o1, o2, clave);
  }

  /** The iteration of `Lista.mergesort`: the first `longitud / 2` elements go to a new list `l1`,
      the rest to a new list `l2`. */
  method Partir<T(==)>(l: Lista<T>) returns (l1: Lista<T>, l2: Lista<T>)
    requires l.Valid()
    ensures l1.Valid() && fresh(l1.Repr) && l2.Valid() && fresh(l2.Repr)
    ensures l1.Contents == l.Contents[..|l.Contents| / 2]
    ensures l2.Contents == l.Contents[|l.Contents| / 2..]
  {
    l1 := new Lista();
    l2 := new Lista();
    ghost var s := l.Contents;
    var contador := 0;
    var aux := l.cabeza;
    while aux != null
      invariant l.Valid() && l.Contents == s
      invariant l1.Valid() && fresh(l1.Repr) && l2.Valid() && fresh(l2.Repr) && l1.Repr !! l2.Repr
      invariant 0 <= contador <= |s|
      invariant aux == if contador < |s| then l.Nodos[contador] else null
      invariant Repartidas(s, contador, l1.Contents, l2.Contents)
      decreases |s| - contador
    {
      aux := Repartir(l, l1, l2, aux, contador);
      contador := contador + 1;
    }
    assert s[|s| / 2..contador] == s[|s| / 2..];
  }

  /** After the first `contador` elements of `s` have been dealt, the first half `s[..|s| / 2]`
      has gone to `s1` and the rest to `s2`, in order. */
  ghost predicate Repartidas<T>(s: seq<T>, contador: nat, s1: seq<T>, s2: seq<T>)
    requires contador <= |s|
  {
    if contador <= |s| / 2 then s1 == s[..contador] && s2 == []
    else s1 == s[..|s| / 2] && s2 == s[|s| / 2..contador]
  }

  /** The body of the loop of `Lista.mergesort`: the element of `aux`, the node at position
      `contador` of `l`, goes to `l1` while `contador < longitud / 2` and to `l2` afterwards. */
  method Repartir<T(==)>(l: Lista<T>, l1: Lista<T>, l2: Lista<T>, aux: Nodo<T>, contador: int)
      returns (siguiente: Nodo?<T>)
    requires l.Valid() && l1.Valid() && l2.Valid()
    requires l1.Repr !! l2.Repr && l1.Repr !! l.Repr && l2.Repr !! l.Repr
    requires 0 <= contador < |l.Contents| && aux == l.Nodos[contador]
    requires Repartidas(l.Contents, contador, l1.Contents, l2.Contents)
    modifies l1.Repr, l2.Repr
    ensures l.Valid() && l.Contents == old(l.Contents) && l.Nodos == old(l.Nodos)
    ensures l1.Valid() && fresh(l1.Repr - old(l1.Repr))
    ensures l2.Valid() && fresh(l2.Repr - old(l2.Repr)) && l1.Repr !! l2.Repr
    ensures Repartidas(l.Contents, contador + 1, l1.Contents, l2.Contents)
    ensures siguiente == if contador + 1 < |l.Contents| then l.Nodos[contador + 1] else null
  {
    ghost var s, mitad := l.Contents, |l.Contents| / 2;
    if contador < l.longitud / 2 {
      assert s[..contador + 1] == s[..contador] + [s[contador]];
      siguiente := CopiarNodo(l1, l, aux, contador);
    } else {
      assert s[mitad..contador + 1] == s[mitad..contador] + [s[contador]];
      siguiente := CopiarNodo(l2, l, aux, contador);
    }
  }
}
