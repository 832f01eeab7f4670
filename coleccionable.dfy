/** `Coleccionable`: the collection contract that `Pila` and `Cola` implement. A value of the
    datatype is one of the two implementations; each operation dispatches to it and states the
    contract in terms of `Elementos`, the elements in iteration order. This module also holds
    the `Pila(Coleccionable)` and `Cola(Coleccionable)` constructors, as builders. */
module Coleccionables {
  import opened Errores
  import opened ListaSpec
  import opened Pilas
  import opened Colas

  datatype Coleccionable<T(==)> = DePila(pila: Pila<T>) | DeCola(cola: Cola<T>)

  /** The object that implements the collection. */
  function Objeto<T(==)>(col: Coleccionable<T>): object
  {
    match col
    case DePila(p) => p
    case DeCola(c) => c
  }

  /** The footprint of the collection. */
  ghost function ReprDe<T>(col: Coleccionable<T>): set<object>
    reads Objeto(col)
  {
    match col
    case DePila(p) => p.Repr
    case DeCola(c) => c.Repr
  }

  ghost predicate Valida<T>(col: Coleccionable<T>)
    reads Objeto(col), ReprDe(col)
  {
    match col
    case DePila(p) => p.Valid()
    case DeCola(c) => c.Valid()
  }

  /** The elements in the order of the collection's iterator. */
  ghost function Elementos<T>(col: Coleccionable<T>): seq<T>
    reads Objeto(col)
  {
    match col
    case DePila(p) => p.Contents
    case DeCola(c) => c.Contents
  }

  /** `agrega`: a null element throws `IllegalArgumentException`; any other is added, keeping
      every element already present: on top of a stack, at the rear of a queue. */
  method Agrega<T(==)>(col: Coleccionable<T>, elemento: Option<T>) returns (r: Outcome)
    requires Valida(col)
    modifies ReprDe(col)
    ensures Valida(col) && fresh(ReprDe(col) - old(ReprDe(col)))
    ensures elemento.None? ==> r == Fail(IllegalArgumentException) && Elementos(col) == old(Elementos(col))
    ensures elemento.Some? ==>
              r == Pass && multiset(Elementos(col)) == multiset(old(Elementos(col))) + multiset{elemento.value}
    ensures elemento.Some? && col.DePila? ==> Elementos(col) == [elemento.value] + old(Elementos(col))
    ensures elemento.Some? && col.DeCola? ==> Elementos(col) == old(Elementos(col)) + [elemento.value]
  {
    match col
    case DePila(p) =>
      r := p.Agrega(elemento);
    case DeCola(c) =>
      r := c.Agrega(elemento);
  }

  /** `elimina`: an empty collection throws `NoSuchElementException`; otherwise the first
      element in iteration order is removed (neither implementation looks at the argument). */
  method Elimina<T(==)>(col: Coleccionable<T>, elemento: Option<T>) returns (r: Outcome)
    requires Valida(col)
    modifies ReprDe(col)
    ensures Valida(col) && ReprDe(col) == old(ReprDe(col))
    ensures old(Elementos(col)) == [] ==> r == Fail(NoSuchElementException) && Elementos(col) == []
    ensures old(Elementos(col)) != [] ==> r == Pass && Elementos(col) == old(Elementos(col))[1..]
  {
    match col
    case DePila(p) =>
      r := p.Elimina(elemento);
    case DeCola(c) =>
      r := c.Elimina(elemento);
  }

  /** `contiene`: holds exactly when the argument is non-null and present. */
  method Contiene<T(==)>(col: Coleccionable<T>, elemento: Option<T>) returns (r: bool)
    requires Valida(col)
    ensures r <==> elemento.Some? && elemento.value in Elementos(col)
  {
    match col
    case DePila(p) =>
      r := p.Contiene(elemento);
    case DeCola(c) =>
      r := c.Contiene(elemento);
  }

  /** `esVacio`: holds exactly when there are no elements. */
  predicate EsVacio<T(==)>(col: Coleccionable<T>)
    reads Objeto(col), ReprDe(col)
    requires Valida(col)
    ensures EsVacio(col) <==> Elementos(col) == []
  {
    match col
    case DePila(p) => p.EsVacio()
    case DeCola(c) => c.EsVacio()
  }

  /** `getTamanio`: the number of elements. */
  function GetTamanio<T(==)>(col: Coleccionable<T>): (n: int)
    reads Objeto(col), ReprDe(col)
    requires Valida(col)
    ensures n == |Elementos(col)|
  {
    match col
    case DePila(p) => p.GetTamanio()
    case DeCola(c) => c.GetTamanio()
  }

  /** The iterator of the collection. */
  method Iterar<T(==)>(col: Coleccionable<T>) returns (s: seq<T>)
    requires Valida(col)
    ensures s == Elementos(col)
  {
    match col
    case DePila(p) =>
      s := p.Iterar();
    case DeCola(c) =>
      s := c.Iterar();
  }

  /** `Pila(Coleccionable)`: pushes the elements of `col` in iteration order, so the first one
      ends at the bottom and the last on top. */
  method PilaDeColeccion<T(==)>(col: Coleccionable<T>) returns (p: Pila<T>)
    requires Valida(col)
    ensures p.Valid() && fresh(p.Repr)
    ensures p.Contents == Invertida(Elementos(col))
  {
    var s := Iterar(col);
    p := new Pila();
    for k := 0 to |s|
      invariant p.Valid() && fresh(p.Repr)
      invariant p.Contents == Invertida(s[..k])
    {
      var _ := p.Push(Some(s[k]));
      InvertidaSnoc(s[..k], s[k]);
      assert s[..k + 1] == s[..k] + [s[k]];
    }
    assert s[..|s|] == s;
  }

  /** `Cola(Coleccionable)`: queues the elements of `col` in iteration order. */
  method ColaDeColeccion<T(==)>(col: Coleccionable<T>) returns (c: Cola<T>)
    requires Valida(col)
    ensures c.Valid() && fresh(c.Repr)
    ensures c.Contents == Elementos(col)
  {
    var s := Iterar(col);
    c := new Cola();
    for k := 0 to |s|
      invariant c.Valid() && fresh(c.Repr)
      invariant c.Contents == s[..k]
    {
      var _ := c.Queue(Some(s[k]));
      assert s[..k + 1] == s[..k] + [s[k]];
    }
    assert s[..|s|] == s;
  }
}
