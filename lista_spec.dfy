/** Sequence-level meaning of the operations of `Lista`: the first index of an element, removal of
    the first occurrence, reversal, and the merge and mergesort of `Lista.mergesort`/`Lista.merge`.
    `Comparable.compareTo(a, b) <= 0` is modelled by an integer key: `clave(a) <= clave(b)`. */
module ListaSpec {

  /** Position of the first element equal to `e`, or -1 when there is none. */
  function PrimerIndice<T(==)>(s: seq<T>, e: T): (r: int)
    ensures -1 <= r < |s|
    ensures r == -1 <==> e !in s
    ensures 0 <= r ==> s[r] == e && e !in s[..r]
    decreases |s|
  {
    if s == [] then -1
    else if s[0] == e then 0
    else
      var k := PrimerIndice(s[1..], e);
      assert s[1..][..k + 1] == s[1..k + 2];
      assert k >= 0 ==> s[..k + 1] == [s[0]] + s[1..][..k];
      if k == -1 then -1 else k + 1
  }

  /** The first index is the only position holding `e` with no earlier occurrence. */
  lemma PrimerIndiceUnico<T>(s: seq<T>, e: T, k: int)
    requires 0 <= k < |s| && s[k] == e && e !in s[..k]
    ensures PrimerIndice(s, e) == k
  {
  }

  /** `s` without its first element equal to `e`; `s` itself when `e` does not occur. */
  function SinPrimero<T(==)>(s: seq<T>, e: T): (r: seq<T>)
    ensures e !in s ==> r == s
    ensures e in s ==> |r| == |s| - 1 && multiset(r) == multiset(s) - multiset{e}
    ensures e in s ==> r[..PrimerIndice(s, e)] == s[..PrimerIndice(s, e)]
    ensures e in s ==> r[PrimerIndice(s, e)..] == s[PrimerIndice(s, e) + 1..]
  {
    var i := PrimerIndice(s, e);
    if i < 0 then s
    else
      assert s == s[..i] + [s[i]] + s[i + 1..];
      s[..i] + s[i + 1..]
  }

  /** Removing the first occurrence of `e` keeps every other element. */
  lemma SinPrimeroConserva<T>(s: seq<T>, e: T, u: T)
    requires u in s && u != e
    ensures u in SinPrimero(s, e)
  {
    assert u in multiset(s);
    assert u in multiset(SinPrimero(s, e)) by {
      if e in s {
        assert multiset(SinPrimero(s, e))[u] == multiset(s)[u];
      }
    }
  }

  /** The elements of `s` in the opposite order. */
  function Invertida<T>(s: seq<T>): (r: seq<T>)
    ensures |r| == |s|
    ensures forall k :: 0 <= k < |s| ==> r[k] == s[|s| - 1 - k]
  {
    if s == [] then [] else Invertida(s[1..]) + [s[0]]
  }

  /** Reversing a sequence extended at the back puts that element in front. */
  lemma InvertidaSnoc<T>(s: seq<T>, x: T)
    ensures Invertida(s + [x]) == [x] + Invertida(s)
  {
    assert Invertida(s + [x]) == [x] + Invertida(s) by {
      var r, t := Invertida(s + [x]), [x] + Invertida(s);
      assert |r| == |t|;
      forall k | 0 <= k < |r| ensures r[k] == t[k] {
        if k > 0 { assert t[k] == Invertida(s)[k - 1]; }
      }
    }
  }

  /** Reversing twice gives back the original sequence. */
  lemma InvertidaInvolutiva<T>(s: seq<T>)
    ensures Invertida(Invertida(s)) == s
  {
  }

  /** Every key is at most the next one. */
  predicate Ordenada<T>(s: seq<T>, clave: T -> int)
    decreases |s|
  {
    |s| < 2 || (clave(s[0]) <= clave(s[1]) && Ordenada(s[1..], clave))
  }

  /** A sorted sequence has no key greater than a key to its right. */
  lemma {:induction false} OrdenadaPares<T>(s: seq<T>, clave: T -> int)
    requires Ordenada(s, clave)
    ensures forall i, j :: 0 <= i < j < |s| ==> clave(s[i]) <= clave(s[j])
    decreases |s|
  {
    if |s| >= 2 {
      OrdenadaPares(s[1..], clave);
      forall i, j | 0 <= i < j < |s| ensures clave(s[i]) <= clave(s[j]) {
        if i > 0 {
          assert s[i] == s[1..][i - 1] && s[j] == s[1..][j - 1];
        } else if j > 1 {
          assert s[1] == s[1..][0] && s[j] == s[1..][j - 1];
        }
      }
    }
  }

  /** The merge loops of `Lista.merge`: take the head of `a` while its key is not greater than the
      head of `b`, otherwise the head of `b`; then the rest of whichever list remains. */
  function Mezcla<T>(a: seq<T>, b: seq<T>, clave: T -> int): (r: seq<T>)
    ensures |r| == |a| + |b|
    decreases |a| + |b|
  {
    if a == [] then b
    else if b == [] then a
    else if clave(a[0]) <= clave(b[0]) then [a[0]] + Mezcla(a[1..], b, clave)
    else [b[0]] + Mezcla(a, b[1..], clave)
  }

  /** The merge is a permutation of the two inputs together. */
  lemma {:induction false} MezclaPermutacion<T>(a: seq<T>, b: seq<T>, clave: T -> int)
    ensures multiset(Mezcla(a, b, clave)) == multiset(a) + multiset(b)
    decreases |a| + |b|
  {
    if a == [] || b == [] {
      MezclaConVacia(a, b, clave);
    } else if clave(a[0]) <= clave(b[0]) {
      calc {
        multiset(Mezcla(a, b, clave));
        { MezclaTomaIzquierda(a, b, clave); }
        multiset([a[0]] + Mezcla(a[1..], b, clave));
        multiset([a[0]]) + multiset(Mezcla(a[1..], b, clave));
        { MezclaPermutacion(a[1..], b, clave); }
        multiset([a[0]]) + multiset(a[1..]) + multiset(b);
        { assert a == [a[0]] + a[1..]; }
        multiset(a) + multiset(b);
      }
    } else {
      calc {
        multiset(Mezcla(a, b, clave));
        { MezclaTomaDerecha(a, b, clave); }
        multiset([b[0]] + Mezcla(a, b[1..], clave));
        multiset([b[0]]) + multiset(Mezcla(a, b[1..], clave));
        { MezclaPermutacion(a, b[1..], clave); }
        multiset([b[0]]) + multiset(a) + multiset(b[1..]);
        { assert b == [b[0]] + b[1..]; }
        multiset(a) + multiset(b);
      }
    }
  }

  /** One step of the merge loop that takes the head of `a`. */
  lemma MezclaTomaIzquierda<T>(a: seq<T>, b: seq<T>, clave: T -> int)
    requires a != [] && (b == [] || clave(a[0]) <= clave(b[0]))
    ensures Mezcla(a, b, clave) == [a[0]] + Mezcla(a[1..], b, clave)
  {
    if b == [] {
      assert a == [a[0]] + a[1..];
    }
  }

  /** One step of the merge loop that takes the head of `b`. */
  lemma MezclaTomaDerecha<T>(a: seq<T>, b: seq<T>, clave: T -> int)
    requires b != [] && (a == [] || clave(a[0]) > clave(b[0]))
    ensures Mezcla(a, b, clave) == [b[0]] + Mezcla(a, b[1..], clave)
  {
    if a == [] {
      assert b == [b[0]] + b[1..];
    }
  }

  /** One step of the merge loop of `Lista.merge`, stated on positions: `hecho` is what has been
      appended so far and the rest of the merge starts at `a[i]` and `b[j]`. */
  lemma MezclaAvanza<T>(a: seq<T>, b: seq<T>, i: int, j: int, hecho: seq<T>, clave: T -> int)
    requires 0 <= i < |a| && 0 <= j < |b|
    requires hecho + Mezcla(a[i..], b[j..], clave) == Mezcla(a, b, clave)
    ensures clave(a[i]) <= clave(b[j]) ==>
              (hecho + [a[i]]) + Mezcla(a[i + 1..], b[j..], clave) == Mezcla(a, b, clave)
    ensures clave(a[i]) > clave(b[j]) ==>
              (hecho + [b[j]]) + Mezcla(a[i..], b[j + 1..], clave) == Mezcla(a, b, clave)
  {
    assert a[i..][0] == a[i] && a[i..][1..] == a[i + 1..];
    assert b[j..][0] == b[j] && b[j..][1..] == b[j + 1..];
    if clave(a[i]) <= clave(b[j]) {
      MezclaTomaIzquierda(a[i..], b[j..], clave);
      var resto := Mezcla(a[i + 1..], b[j..], clave);
      assert hecho + ([a[i]] + resto) == (hecho + [a[i]]) + resto;
    } else {
      MezclaTomaDerecha(a[i..], b[j..], clave);
      var resto := Mezcla(a[i..], b[j + 1..], clave);
      assert hecho + ([b[j]] + resto) == (hecho + [b[j]]) + resto;
    }
  }

  /** Once one side is exhausted the merge is the other side. */
  lemma MezclaConVacia<T>(a: seq<T>, b: seq<T>, clave: T -> int)
    requires a == [] || b == []
    ensures Mezcla(a, b, clave) == a + b
  {
    if a == [] {
      assert a + b == b;
    } else {
      assert a + b == a;
    }
  }

  /** Every element of the merge comes from one of the two inputs. */
  lemma EnMezcla<T>(a: seq<T>, b: seq<T>, clave: T -> int, x: T)
    requires x in Mezcla(a, b, clave)
    ensures x in a || x in b
  {
    MezclaPermutacion(a, b, clave);
    assert x in multiset(Mezcla(a, b, clave));
  }

  /** The merge of two sorted sequences is sorted. */
  lemma {:induction false} MezclaOrdenada<T>(a: seq<T>, b: seq<T>, clave: T -> int)
    requires Ordenada(a, clave) && Ordenada(b, clave)
    ensures Ordenada(Mezcla(a, b, clave), clave)
    decreases |a| + |b|
  {
    if a == [] || b == [] {
    } else if clave(a[0]) <= clave(b[0]) {
      var resto := Mezcla(a[1..], b, clave);
      MezclaOrdenada(a[1..], b, clave);
      assert |a| > 1 ==> a[1..][0] == a[1];
      var r := [a[0]] + resto;
      assert r[1..] == resto;
    } else {
      var resto := Mezcla(a, b[1..], clave);
      MezclaOrdenada(a, b[1..], clave);
      assert |b| > 1 ==> b[1..][0] == b[1];
      var r := [b[0]] + resto;
      assert r[1..] == resto;
    }
  }

  /** `Lista.mergesort`: lists shorter than 2 are returned as they are; otherwise the first
      `|s| / 2` elements and the rest are sorted separately and merged. */
  function OrdenadaPorMezcla<T>(s: seq<T>, clave: T -> int): (r: seq<T>)
    ensures |r| == |s|
    decreases |s|
  {
    if |s| < 2 then s
    else Mezcla(OrdenadaPorMezcla(s[..|s| / 2], clave), OrdenadaPorMezcla(s[|s| / 2..], clave), clave)
  }

  /** Mergesort is a permutation of its input. */
  lemma {:induction false} OrdenadaPorMezclaPermutacion<T>(s: seq<T>, clave: T -> int)
    ensures multiset(OrdenadaPorMezcla(s, clave)) == multiset(s)
    decreases |s|
  {
    if |s| >= 2 {
      var izq, der := s[..|s| / 2], s[|s| / 2..];
      var oi, od := OrdenadaPorMezcla(izq, clave), OrdenadaPorMezcla(der, clave);
      calc {
        multiset(OrdenadaPorMezcla(s, clave));
        multiset(Mezcla(oi, od, clave));
        { MezclaPermutacion(oi, od, clave); }
        multiset(oi) + multiset(od);
        { OrdenadaPorMezclaPermutacion(izq, clave); OrdenadaPorMezclaPermutacion(der, clave); }
        multiset(izq) + multiset(der);
        { assert s == izq + der; }
        multiset(s);
      }
    }
  }

  /** The result of mergesort is sorted. */
  lemma {:induction false} OrdenadaPorMezclaOrdenada<T>(s: seq<T>, clave: T -> int)
    ensures Ordenada(OrdenadaPorMezcla(s, clave), clave)
    decreases |s|
  {
    if |s| >= 2 {
      OrdenadaPorMezclaOrdenada(s[..|s| / 2], clave);
      OrdenadaPorMezclaOrdenada(s[|s| / 2..], clave);
      MezclaOrdenada(OrdenadaPorMezcla(s[..|s| / 2], clave), OrdenadaPorMezcla(s[|s| / 2..], clave), clave);
    }
  }

  /** The elements of `s` whose key is `k`, in their original order. */
  function ConClave<T>(s: seq<T>, clave: T -> int, k: int): seq<T>
  {
    if s == [] then []
    else (if clave(s[0]) == k then [s[0]] else []) + ConClave(s[1..], clave, k)
  }

  lemma {:induction false} ConClaveConcat<T>(a: seq<T>, b: seq<T>, clave: T -> int, k: int)
    ensures ConClave(a + b, clave, k) == ConClave(a, clave, k) + ConClave(b, clave, k)
    decreases |a|
  {
    if a == [] {
      assert a + b == b;
    } else {
      var h := if clave(a[0]) == k then [a[0]] else [];
      assert (a + b)[0] == a[0] && (a + b)[1..] == a[1..] + b;
      ConClaveConcat(a[1..], b, clave, k);
      calc {
        ConClave(a + b, clave, k);
        h + ConClave(a[1..] + b, clave, k);
        h + (ConClave(a[1..], clave, k) + ConClave(b, clave, k));
        (h + ConClave(a[1..], clave, k)) + ConClave(b, clave, k);
      }
    }
  }

  /** A sorted sequence whose first key exceeds `k` has no element with key `k`. */
  lemma {:induction false} ConClaveVacia<T>(a: seq<T>, clave: T -> int, k: int)
    requires Ordenada(a, clave)
    requires a != [] && k < clave(a[0])
    ensures ConClave(a, clave, k) == []
    decreases |a|
  {
    if |a| > 1 {
      assert clave(a[0]) <= clave(a[1]);
      ConClaveVacia(a[1..], clave, k);
    }
  }

  /** The merge is stable: among elements with equal keys, those of `a` come first, each side in
      its own order. This is the "ties are taken from the first list" rule of `Lista.merge`. */
  lemma {:induction false} MezclaEstable<T>(a: seq<T>, b: seq<T>, clave: T -> int, k: int)
    requires Ordenada(a, clave)
    ensures ConClave(Mezcla(a, b, clave), clave, k) == ConClave(a, clave, k) + ConClave(b, clave, k)
    decreases |a| + |b|, 1
  {
    if a == [] {
      assert Mezcla(a, b, clave) == b;
    } else if b == [] {
      assert Mezcla(a, b, clave) == a;
    } else if clave(a[0]) <= clave(b[0]) {
      MezclaEstableIzquierda(a, b, clave, k);
    } else {
      MezclaEstableDerecha(a, b, clave, k);
    }
  }

  /** The case of `MezclaEstable` where the head of `a` is taken. */
  lemma {:induction false} MezclaEstableIzquierda<T>(a: seq<T>, b: seq<T>, clave: T -> int, k: int)
    requires Ordenada(a, clave)
    requires a != [] && b != [] && clave(a[0]) <= clave(b[0])
    ensures ConClave(Mezcla(a, b, clave), clave, k) == ConClave(a, clave, k) + ConClave(b, clave, k)
    decreases |a| + |b|, 0
  {
    var resto := Mezcla(a[1..], b, clave);
    var h, ca, cb := ConClave([a[0]], clave, k), ConClave(a[1..], clave, k), ConClave(b, clave, k);
    calc {
      ConClave(Mezcla(a, b, clave), clave, k);
      { MezclaTomaIzquierda(a, b, clave); }
      ConClave([a[0]] + resto, clave, k);
      { ConClaveConcat([a[0]], resto, clave, k); }
      h + ConClave(resto, clave, k);
      { MezclaEstable(a[1..], b, clave, k); }
      h + (ca + cb);
      (h + ca) + cb;
      { ConClaveConcat([a[0]], a[1..], clave, k); assert [a[0]] + a[1..] == a; }
      ConClave(a, clave, k) + cb;
    }
  }

  /** The case of `MezclaEstable` where the head of `b` is taken: every key of `a` is then greater
      than that head's key, so nothing of `a` shares it. */
  lemma {:induction false} MezclaEstableDerecha<T>(a: seq<T>, b: seq<T>, clave: T -> int, k: int)
    requires Ordenada(a, clave)
    requires a != [] && b != [] && clave(a[0]) > clave(b[0])
    ensures ConClave(Mezcla(a, b, clave), clave, k) == ConClave(a, clave, k) + ConClave(b, clave, k)
    decreases |a| + |b|, 0
  {
    var resto := Mezcla(a, b[1..], clave);
    var h, ca, cb := ConClave([b[0]], clave, k), ConClave(a, clave, k), ConClave(b[1..], clave, k);
    if clave(b[0]) == k {
      ConClaveVacia(a, clave, k);
    } else {
      ConClaveUno(b[0], clave, k);
    }
    calc {
      ConClave(Mezcla(a, b, clave), clave, k);
      { MezclaTomaDerecha(a, b, clave); }
      ConClave([b[0]] + resto, clave, k);
      { ConClaveConcat([b[0]], resto, clave, k); }
      h + ConClave(resto, clave, k);
      { MezclaEstable(a, b[1..], clave, k); }
      h + (ca + cb);
      { assert ca == [] || h == []; }
      ca + (h + cb);
      { ConClaveConcat([b[0]], b[1..], clave, k); assert [b[0]] + b[1..] == b; }
      ca + ConClave(b, clave, k);
    }
  }

  /** The elements with key `k` of a one-element sequence. */
  lemma ConClaveUno<T>(x: T, clave: T -> int, k: int)
    ensures ConClave([x], clave, k) == if clave(x) == k then [x] else []
  {
    assert [x][1..] == [];
  }

  /** Mergesort is stable: for every key, the elements with that key keep their input order. */
  lemma {:induction false} OrdenadaPorMezclaEstable<T>(s: seq<T>, clave: T -> int, k: int)
    ensures ConClave(OrdenadaPorMezcla(s, clave), clave, k) == ConClave(s, clave, k)
    decreases |s|
  {
    if |s| >= 2 {
      var izq, der := s[..|s| / 2], s[|s| / 2..];
      var oi, od := OrdenadaPorMezcla(izq, clave), OrdenadaPorMezcla(der, clave);
      calc {
        ConClave(OrdenadaPorMezcla(s, clave), clave, k);
        ConClave(Mezcla(oi, od, clave), clave, k);
        { OrdenadaPorMezclaOrdenada(izq, clave); MezclaEstable(oi, od, clave, k); }
        ConClave(oi, clave, k) + ConClave(od, clave, k);
        { OrdenadaPorMezclaEstable(izq, clave, k); OrdenadaPorMezclaEstable(der, clave, k); }
        ConClave(izq, clave, k) + ConClave(der, clave, k);
        { ConClaveConcat(izq, der, clave, k); }
        ConClave(izq + der, clave, k);
        { assert s == izq + der; }
        ConClave(s, clave, k);
      }
    }
  }
}
