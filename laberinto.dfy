/** The maze: `Casilla`, a cell with four passage flags and a visited mark, and `Laberinto`,
    the grid of cells that a randomized depth-first search carves into a maze. A cell's
    back-reference to its maze is the parameter `lab` of the cell operations that look
    neighbours up. */
module Laberintos {
  import opened Errores
  import opened ListaSpec
  import opened Listas
  import opened Pilas
  import opened Cuadricula

  class Casilla {
    var norte: bool
    var sur: bool
    var este: bool
    var oeste: bool
    const x: int
    const y: int
    var visitada: bool

    /** `Casilla()`: the sentinel cell returned when no neighbour qualifies, at (-1, -1). */
    constructor Centinela()
      ensures x == -1 && y == -1
      ensures Pasos() == Banderas(false, false, false, false) && !visitada
    {
      x, y := -1, -1;
      norte, sur, este, oeste, visitada := false, false, false, false, false;
    }

    /** `Casilla(x, y, laberinto)`: a cell with every passage closed, not yet visited. */
    constructor (x: int, y: int)
      ensures this.x == x && this.y == y
      ensures Pasos() == Banderas(false, false, false, false) && !visitada
    {
      this.x, this.y := x, y;
      norte, sur, este, oeste, visitada := false, false, false, false, false;
    }

    /** The four passage flags. */
    function Pasos(): Banderas
      reads this
    {
      Banderas(norte, sur, este, oeste)
    }

    /** `obtenerPuntoCardinal`: the direction towards `casilla`, from the differences of the
        stored coordinates: east one step up in `x`, west one step down in `x`, otherwise north
        one step up in `y`, and south in every other case. */
    function ObtenerPuntoCardinal(casilla: Casilla): (d: PuntoCardinal)
      ensures d == ESTE <==> casilla.x == x + 1
      ensures d == OESTE <==> casilla.x == x - 1
      ensures d == NORTE <==> casilla.x != x + 1 && casilla.x != x - 1 && casilla.y == y + 1
      ensures d == SUR <==> casilla.x != x + 1 && casilla.x != x - 1 && casilla.y != y + 1
    {
      PuntoCardinalDe(casilla.x - x, casilla.y - y)
    }

    /** `hayPaso`: the flag of this cell in the direction of `vecino`, which is the direction
        `obtenerPuntoCardinal` computes and need not be the one `vecino` used when it opened its
        passage to this cell. */
    function HayPaso(vecino: Casilla): (r: bool)
      reads this
      ensures vecino.x == x + 1 ==> (r <==> este)
      ensures vecino.x == x - 1 ==> (r <==> oeste)
      ensures vecino.x != x + 1 && vecino.x != x - 1 ==> (r <==> if vecino.y == y + 1 then norte else sur)
    {
      Bandera(Pasos(), ObtenerPuntoCardinal(vecino))
    }

    /** `equals`: another cell with the same coordinates and the same four flags; the visited
        mark is not compared. */
    function Equals(obj: Casilla?): (r: bool)
      reads this, obj
      ensures r <==> obj != null && obj.x == x && obj.y == y && obj.Pasos() == Pasos()
    {
      obj != null && obj.x == x && obj.y == y
      && obj.norte == norte && obj.sur == sur && obj.este == este && obj.oeste == oeste
    }

    /** `fueVisitado`. */
    predicate FueVisitado()
      reads this
    {
      visitada
    }

    /** `visitar()`: marks the cell visited and changes nothing else. */
    method Visitar()
      modifies this
      ensures visitada && Pasos() == old(Pasos())
    {
      visitada := true;
    }

    /** `desmarcarVisitada`: clears the visited mark and changes nothing else. */
    method DesmarcarVisitada()
      modifies this
      ensures !visitada && Pasos() == old(Pasos())
    {
      visitada := false;
    }

    /** `obtenerVecinos`: looks up the four candidate coordinates through the maze, skipping
        those the lookup rejects, and collects the cells found in that order. */
    method ObtenerVecinos(lab: Laberinto) returns (vecinos: Lista<Casilla>)
      requires lab.Valid()
      ensures vecinos.Valid() && fresh(vecinos.Repr)
      ensures vecinos.Contents == lab.Vecinos(this)
    {
      vecinos := new Lista<Casilla>();
      var vecinosCoordenadas := Candidatas(x, y);
      for i := 0 to |vecinosCoordenadas|
        invariant vecinos.Valid() && fresh(vecinos.Repr)
        invariant vecinos.Contents == lab.CasillasEn(Filtrar(lab.alto, lab.ancho, vecinosCoordenadas[..i]))
      {
        AgregarSiExiste(lab, vecinos, vecinosCoordenadas, i);
      }
      assert vecinosCoordenadas[..|vecinosCoordenadas|] == vecinosCoordenadas;
    }

    /** One turn of the loop in `obtenerVecinos`: the cell at the `i`-th candidate is added when
        the lookup finds one; a rejected lookup is skipped. */
    static method AgregarSiExiste(lab: Laberinto, vecinos: Lista<Casilla>, cs: seq<(int, int)>, i: int)
      requires lab.Valid() && vecinos.Valid() && lab.casillas !in vecinos.Repr && 0 <= i < |cs|
      requires vecinos.Contents == lab.CasillasEn(Filtrar(lab.alto, lab.ancho, cs[..i]))
      modifies vecinos.Repr
      ensures vecinos.Valid() && fresh(vecinos.Repr - old(vecinos.Repr))
      ensures vecinos.Contents == lab.CasillasEn(Filtrar(lab.alto, lab.ancho, cs[..i + 1]))
    {
      var casilla := lab.ObtenerCasilla(cs[i].1, cs[i].0);
      FiltrarPrefijo(lab.alto, lab.ancho, cs, i);
      if casilla.Ok? {
        vecinos.Agregar(casilla.value);
        ghost var previas := Filtrar(lab.alto, lab.ancho, cs[..i]);
        assert forall q :: q in previas + [cs[i]] ==> q == cs[i] || q in previas;
        lab.CasillasEnSnoc(previas, cs[i]);
      }
    }

    /** `noHayVecinosSinVisitar`: walks the neighbours and stops at the first unvisited one;
        holds exactly when every neighbour is visited. */
    method NoHayVecinosSinVisitar(lab: Laberinto) returns (r: bool)
      requires lab.Valid()
      ensures r <==> forall v :: v in lab.Vecinos(this) ==> v.visitada
    {
      var vecinos := ObtenerVecinos(lab);
      var s := vecinos.Iterar();
      r := NingunaSinVisitar(s);
    }

    /** The loop of `noHayVecinosSinVisitar` over the neighbours `s`. */
    static method NingunaSinVisitar(s: seq<Casilla>) returns (r: bool)
      ensures r <==> forall v :: v in s ==> v.visitada
    {
      r := true;
      for k := 0 to |s|
        invariant forall m :: 0 <= m < k ==> s[m].visitada
      {
        if !s[k].visitada {
          r := false;
          break;
        }
      }
    }

    /** `noHayVecinosSinVisitarConPaso`: holds exactly when no neighbour is both unvisited and
        reachable through this cell's flag towards it. */
    method NoHayVecinosSinVisitarConPaso(lab: Laberinto) returns (r: bool)
      requires lab.Valid()
      ensures r <==> forall v :: v in lab.Vecinos(this) ==> v.visitada || !HayPaso(v)
    {
      var vecinos := ObtenerVecinos(lab);
      var s := vecinos.Iterar();
      r := NingunaDisponible(s);
    }

    /** The loop of `noHayVecinosSinVisitarConPaso` over the neighbours `s`. */
    method NingunaDisponible(s: seq<Casilla>) returns (r: bool)
      ensures r <==> forall v :: v in s ==> v.visitada || !HayPaso(v)
    {
      r := true;
      for k := 0 to |s|
        invariant forall m :: 0 <= m < k ==> s[m].visitada || !HayPaso(s[m])
      {
        if !s[k].visitada && HayPaso(s[k]) {
          r := false;
          break;
        }
      }
    }

    /** `obtenerVecinoSinVisitar`: draws neighbours at random, discarding each visited one, until
        it draws an unvisited one or none is left. No neighbours at all makes the first draw
        (`nextInt(0)`) throw `IllegalArgumentException`; when every neighbour is visited the
        result is a fresh sentinel at (-1, -1). */
    method ObtenerVecinoSinVisitar(lab: Laberinto) returns (r: Result<Casilla>)
      requires lab.Valid()
      ensures lab.Vecinos(this) == [] ==> r == Err(IllegalArgumentException)
      ensures (exists v :: v in lab.Vecinos(this) && !v.visitada) ==>
                r.Ok? && r.value in lab.Vecinos(this) && !r.value.visitada
      ensures lab.Vecinos(this) != [] && (forall v :: v in lab.Vecinos(this) ==> v.visitada) ==>
                r.Ok? && fresh(r.value) && r.value.x == -1 && r.value.y == -1
    {
      var vecinos := ObtenerVecinos(lab);
      r := SortearSinVisitar(vecinos);
    }

    /** The draws of `obtenerVecinoSinVisitar` from the list of neighbours `vecinos`, which they
        consume. */
    static method SortearSinVisitar(vecinos: Lista<Casilla>) returns (r: Result<Casilla>)
      requires vecinos.Valid() && forall v :: v in vecinos.Contents ==> v !in vecinos.Repr
      modifies vecinos.Repr
      ensures old(vecinos.Contents) == [] ==> r == Err(IllegalArgumentException)
      ensures (exists v :: v in old(vecinos.Contents) && !v.visitada) ==>
                r.Ok? && r.value in old(vecinos.Contents) && !r.value.visitada
      ensures old(vecinos.Contents) != [] && (forall v :: v in old(vecinos.Contents) ==> v.visitada) ==>
                r.Ok? && fresh(r.value) && r.value.x == -1 && r.value.y == -1
    {
      ghost var todos := vecinos.Contents;
      var rango := vecinos.Longitud();
      if rango == 0 {
        return Err(IllegalArgumentException);
      }
      while true
        invariant vecinos.Valid() && vecinos.Repr == old(vecinos.Repr)
        invariant rango == |vecinos.Contents| >= 1
        invariant forall v :: v in vecinos.Contents ==> v in todos
        invariant forall v :: v in todos && !v.visitada ==> v in vecinos.Contents
        decreases rango
      {
        var posicion :| 0 <= posicion < rango;
        var elemento := vecinos.GetElemento(posicion);
        var vecino := elemento.value;
        if !vecino.visitada {
          return Ok(vecino);
        }
        rango := rango - 1;
        Descartar(vecinos, vecino);
        if vecinos.EsVacia() {
          break;
        }
      }
      var centinela := new Casilla.Centinela();
      r := Ok(centinela);
    }

    /** `obtenerVecinoDisponible`: as `obtenerVecinoSinVisitar`, for neighbours that are
        unvisited and reachable through this cell's flag towards them. */
    method ObtenerVecinoDisponible(lab: Laberinto) returns (r: Result<Casilla>)
      requires lab.Valid()
      ensures lab.Vecinos(this) == [] ==> r == Err(IllegalArgumentException)
      ensures (exists v :: v in lab.Vecinos(this) && !v.visitada && HayPaso(v)) ==>
                r.Ok? && r.value in lab.Vecinos(this) && !r.value.visitada && HayPaso(r.value)
      ensures lab.Vecinos(this) != [] && (forall v :: v in lab.Vecinos(this) ==> v.visitada || !HayPaso(v)) ==>
                r.Ok? && fresh(r.value) && r.value.x == -1 && r.value.y == -1
    {
      var vecinos := ObtenerVecinos(lab);
      r := SortearDisponible(vecinos);
    }

    /** The draws of `obtenerVecinoDisponible` from the list of neighbours `vecinos`, which they
        consume. */
    method SortearDisponible(vecinos: Lista<Casilla>) returns (r: Result<Casilla>)
      requires vecinos.Valid() && this !in vecinos.Repr
      requires forall v :: v in vecinos.Contents ==> v !in vecinos.Repr
      modifies vecinos.Repr
      ensures old(vecinos.Contents) == [] ==> r == Err(IllegalArgumentException)
      ensures (exists v :: v in old(vecinos.Contents) && !v.visitada && HayPaso(v)) ==>
                r.Ok? && r.value in old(vecinos.Contents) && !r.value.visitada && HayPaso(r.value)
      ensures old(vecinos.Contents) != [] && (forall v :: v in old(vecinos.Contents) ==> v.visitada || !HayPaso(v)) ==>
                r.Ok? && fresh(r.value) && r.value.x == -1 && r.value.y == -1
    {
      ghost var todos := vecinos.Contents;
      var rango := vecinos.Longitud();
      if rango == 0 {
        return Err(IllegalArgumentException);
      }
      while true
        invariant vecinos.Valid() && vecinos.Repr == old(vecinos.Repr)
        invariant rango == |vecinos.Contents| >= 1
        invariant forall v :: v in vecinos.Contents ==> v in todos
        invariant forall v :: v in todos && !v.visitada && HayPaso(v) ==> v in vecinos.Contents
        decreases rango
      {
        var posicion :| 0 <= posicion < rango;
        var elemento := vecinos.GetElemento(posicion);
        var vecino := elemento.value;
        if !vecino.visitada && HayPaso(vecino) {
          return Ok(vecino);
        }
        rango := rango - 1;
        Descartar(vecinos, vecino);
        if vecinos.EsVacia() {
          break;
        }
      }
      var centinela := new Casilla.Centinela();
      r := Ok(centinela);
    }

    /** `visitar(casilla)`: when `casilla` is an unvisited neighbour, raises this cell's flag
        towards it and its flag in the opposite direction, and marks it visited; otherwise
        nothing changes. */
    method VisitarCasilla(casilla: Casilla, lab: Laberinto)
      requires lab.Valid()
      modifies this, casilla
      ensures old(casilla in lab.Vecinos(this) && !casilla.visitada) ==>
                && casilla != this
                && Pasos() == Abrir(old(Pasos()), ObtenerPuntoCardinal(casilla))
                && casilla.Pasos() == Abrir(old(casilla.Pasos()), Opuesto(ObtenerPuntoCardinal(casilla)))
                && casilla.visitada && visitada == old(visitada)
                && HayPaso(casilla)
      ensures !old(casilla in lab.Vecinos(this) && !casilla.visitada) ==> unchanged(this, casilla)
    {
      var vecinos := ObtenerVecinos(lab);
      var contiene := vecinos.Contiene(Some(casilla));
      if contiene && !casilla.visitada {
        lab.NoEsVecina(this);
        var direccion := ObtenerPuntoCardinal(casilla);
        AbrirHacia(direccion);
        casilla.AbrirHacia(Opuesto(direccion));
        casilla.Visitar();
      }
    }

    /** One arm of the switch in `visitar(casilla)`: raises the flag towards `d` and changes
        nothing else. */
    method AbrirHacia(d: PuntoCardinal)
      modifies this
      ensures Pasos() == Abrir(old(Pasos()), d) && visitada == old(visitada)
    {
      match d
      case NORTE => norte := true;
      case SUR => sur := true;
      case ESTE => este := true;
      case OESTE => oeste := true;
    }
  }

  /** `vecinos.eliminar(vecino)` inside the random draws: removes the drawn element, which
      is in the list. */
  method Descartar(vecinos: Lista<Casilla>, vecino: Casilla)
    requires vecinos.Valid() && vecino in vecinos.Contents
    modifies vecinos.Repr
    ensures vecinos.Valid() && vecinos.Repr == old(vecinos.Repr)
    ensures |vecinos.Contents| == |old(vecinos.Contents)| - 1
    ensures forall v :: v in vecinos.Contents ==> v in old(vecinos.Contents)
    ensures forall v :: v in old(vecinos.Contents) && v != vecino ==> v in vecinos.Contents
  {
    ghost var antes := vecinos.Contents;
    var _ := vecinos.Eliminar(Some(vecino));
    forall v | v in vecinos.Contents
      ensures v in antes
    {
      assert multiset(vecinos.Contents)[v] > 0;
    }
    forall v | v in antes && v != vecino
      ensures v in vecinos.Contents
    {
      if |antes| > 1 {
        SinPrimeroConserva(antes, vecino, v);
      } else {
        assert antes == [vecino];
      }
    }
  }

  /** The flags of cell `c` after the passages of the log `aperturas` are opened, in order, over
      the flags `b`: each pair `(a, v)` raises the flag of `a` towards `v` and the flag of `v` in
      the opposite direction, as `a.visitar(v)` does. */
  ghost function PasosTras(b: Banderas, c: Casilla, aperturas: seq<(Casilla, Casilla)>): Banderas
    decreases |aperturas|
  {
    if aperturas == [] then b
    else
      var (a, v) := aperturas[|aperturas| - 1];
      var previos := PasosTras(b, c, aperturas[..|aperturas| - 1]);
      if c == a then Abrir(previos, a.ObtenerPuntoCardinal(v))
      else if c == v then Abrir(previos, Opuesto(a.ObtenerPuntoCardinal(v)))
      else previos
  }

  /** The cells reached by the pairs of `aperturas`, their second cells. */
  ghost function Destinos(aperturas: seq<(Casilla, Casilla)>): set<Casilla>
  {
    set p | p in aperturas :: p.1
  }

  lemma PasosTrasSnoc(b: Banderas, c: Casilla, aperturas: seq<(Casilla, Casilla)>, a: Casilla, v: Casilla)
    ensures PasosTras(b, c, aperturas + [(a, v)]) ==
              if c == a then Abrir(PasosTras(b, c, aperturas), a.ObtenerPuntoCardinal(v))
              else if c == v then Abrir(PasosTras(b, c, aperturas), Opuesto(a.ObtenerPuntoCardinal(v)))
              else PasosTras(b, c, aperturas)
  {
    assert (aperturas + [(a, v)])[..|aperturas|] == aperturas;
  }

  lemma DestinosSnoc(aperturas: seq<(Casilla, Casilla)>, a: Casilla, v: Casilla)
    ensures Destinos(aperturas + [(a, v)]) == Destinos(aperturas) + {v}
  {
    assert (a, v) in aperturas + [(a, v)];
  }

  /** Every pair of `aperturas` starts at `inicio` or at a cell reached by an earlier pair. */
  ghost predicate Enraizada(aperturas: seq<(Casilla, Casilla)>, inicio: Casilla)
  {
    forall k :: 0 <= k < |aperturas| ==>
      aperturas[k].0 == inicio || exists m :: 0 <= m < k && aperturas[m].1 == aperturas[k].0
  }

  /** No cell is reached by two pairs of `aperturas`. */
  ghost predicate SinRepetir(aperturas: seq<(Casilla, Casilla)>)
  {
    forall k, m :: 0 <= k < m < |aperturas| ==> aperturas[k].1 != aperturas[m].1
  }

  lemma EnraizadaSnoc(aperturas: seq<(Casilla, Casilla)>, inicio: Casilla, a: Casilla, v: Casilla)
    requires Enraizada(aperturas, inicio) && (a == inicio || a in Destinos(aperturas))
    ensures Enraizada(aperturas + [(a, v)], inicio)
  {
    var nuevas := aperturas + [(a, v)];
    forall k | 0 <= k < |nuevas|
      ensures nuevas[k].0 == inicio || exists m :: 0 <= m < k && nuevas[m].1 == nuevas[k].0
    {
      if k < |aperturas| {
        assert nuevas[k] == aperturas[k];
        if nuevas[k].0 != inicio {
          var m :| 0 <= m < k && aperturas[m].1 == aperturas[k].0;
          assert nuevas[m] == aperturas[m];
        }
      } else if a != inicio {
        var p :| p in aperturas && p.1 == a;
        var m :| 0 <= m < |aperturas| && aperturas[m] == p;
        assert nuevas[m] == aperturas[m];
      }
    }
  }

  lemma SinRepetirSnoc(aperturas: seq<(Casilla, Casilla)>, a: Casilla, v: Casilla)
    requires SinRepetir(aperturas) && v !in Destinos(aperturas)
    ensures SinRepetir(aperturas + [(a, v)])
  {
    var nuevas := aperturas + [(a, v)];
    forall k, m | 0 <= k < m < |nuevas|
      ensures nuevas[k].1 != nuevas[m].1
    {
      assert nuevas[k] == aperturas[k];
      if m == |aperturas| {
        assert aperturas[k] in aperturas;
      } else {
        assert nuevas[m] == aperturas[m];
      }
    }
  }

  /** A log that reaches no cell twice has one pair per cell reached. */
  lemma {:induction false} SinRepetirCardinal(aperturas: seq<(Casilla, Casilla)>)
    requires SinRepetir(aperturas)
    ensures |Destinos(aperturas)| == |aperturas|
    decreases |aperturas|
  {
    if aperturas != [] {
      var n := |aperturas| - 1;
      var previas := aperturas[..n];
      assert aperturas == previas + [aperturas[n]];
      assert forall k :: 0 <= k < n ==> previas[k] == aperturas[k];
      SinRepetirCardinal(previas);
      DestinosSnoc(previas, aperturas[n].0, aperturas[n].1);
    }
  }

  /** Opening the passages of a log never lowers a flag. */
  lemma {:induction false} PasosTrasMonotono(b: Banderas, c: Casilla, aperturas: seq<(Casilla, Casilla)>)
    ensures Abiertas(b, PasosTras(b, c, aperturas))
    decreases |aperturas|
  {
    if aperturas != [] {
      var (a, v) := aperturas[|aperturas| - 1];
      var previos := PasosTras(b, c, aperturas[..|aperturas| - 1]);
      PasosTrasMonotono(b, c, aperturas[..|aperturas| - 1]);
      if c == a {
        AbrirMonotono(previos, a.ObtenerPuntoCardinal(v));
        AbiertasTransitiva(b, previos, PasosTras(b, c, aperturas));
      } else if c == v {
        AbrirMonotono(previos, Opuesto(a.ObtenerPuntoCardinal(v)));
        AbiertasTransitiva(b, previos, PasosTras(b, c, aperturas));
      }
    }
  }

  /** A cell in no pair of the log keeps its flags. */
  lemma {:induction false} PasosTrasAjena(b: Banderas, c: Casilla, aperturas: seq<(Casilla, Casilla)>)
    requires forall k :: 0 <= k < |aperturas| ==> aperturas[k].0 != c && aperturas[k].1 != c
    ensures PasosTras(b, c, aperturas) == b
    decreases |aperturas|
  {
    if aperturas != [] {
      var previas := aperturas[..|aperturas| - 1];
      assert forall k :: 0 <= k < |previas| ==> previas[k] == aperturas[k];
      PasosTrasAjena(b, c, previas);
    }
  }

  /** After the passages of a log are opened, the `k`-th pair `(a, v)` has the flag of `a`
      towards `v` raised and the flag of `v` in the opposite direction raised. */
  lemma {:induction false} PasosTrasAbre(b: Banderas, c: Casilla, aperturas: seq<(Casilla, Casilla)>, k: int)
    requires 0 <= k < |aperturas| && aperturas[k].0 != aperturas[k].1
    ensures c == aperturas[k].0 ==> Bandera(PasosTras(b, c, aperturas), c.ObtenerPuntoCardinal(aperturas[k].1))
    ensures c == aperturas[k].1 ==>
              Bandera(PasosTras(b, c, aperturas), Opuesto(aperturas[k].0.ObtenerPuntoCardinal(c)))
    decreases |aperturas|
  {
    var n := |aperturas| - 1;
    var (a, v) := aperturas[n];
    var previos := PasosTras(b, c, aperturas[..n]);
    if k < n {
      assert aperturas[..n][k] == aperturas[k];
      PasosTrasAbre(b, c, aperturas[..n], k);
      if c == a {
        AbrirMonotono(previos, a.ObtenerPuntoCardinal(v));
      } else if c == v {
        AbrirMonotono(previos, Opuesto(a.ObtenerPuntoCardinal(v)));
      }
    }
  }

  class Laberinto {
    const casillas: array2<Casilla?>
    const alto: int
    const ancho: int
    /** The cells of the grid. */
    ghost const Celdas: set<Casilla>
    /** The cells of the grid by row and column, as `casillas` holds them. */
    ghost const Tabla: seq<seq<Casilla>>

    /** The grid has `alto` rows of `ancho` cells, and the cell at row `i`, column `j` has the
        coordinates `x = i`, `y = j`. */
    ghost predicate Rejilla()
    {
      Forma(alto, ancho, Tabla, Celdas)
    }

    /** `tabla` has `alto` rows of `ancho` cells, those of `celdas`, and the cell at row `i`,
        column `j` has the coordinates `x = i`, `y = j`. */
    static ghost predicate Forma(alto: int, ancho: int, tabla: seq<seq<Casilla>>, celdas: set<Casilla>)
    {
      && |tabla| == alto && (forall i :: 0 <= i < alto ==> |tabla[i]| == ancho)
      && (forall i, j :: 0 <= i < alto && 0 <= j < ancho ==>
            tabla[i][j] in celdas && tabla[i][j].x == i && tabla[i][j].y == j)
      && (forall c :: c in celdas ==> 0 <= c.x < alto && 0 <= c.y < ancho && tabla[c.x][c.y] == c)
    }

    /** The array `casillas` holds the grid. */
    ghost predicate Valid()
      reads casillas
    {
      && Rejilla()
      && casillas.Length0 == alto && casillas.Length1 == ancho
      && (forall i, j :: 0 <= i < alto && 0 <= j < ancho ==> casillas[i, j] == Tabla[i][j])
    }

    /** `Laberinto(alto, ancho)`: builds the grid and carves the maze from a random cell. Once
        built, the start cell and every visited cell have all their neighbours visited; the
        passages are exactly those of the log of the generation, one per visited cell, each
        between a cell and a neighbour and open from both sides. */
    constructor (alto: int, ancho: int)
      requires alto >= 1 && ancho >= 1
      ensures Valid() && this.alto == alto && this.ancho == ancho && |Celdas| == alto * ancho
      ensures exists inicio, aperturas :: Tallado(inicio, aperturas)
    {
      this.alto, this.ancho := alto, ancho;
      var casillas, tabla, celdas := GenerarCasillas(alto, ancho);
      this.casillas := casillas;
      Tabla, Celdas := tabla, celdas;
      new;
      ghost var inicio, aperturas := Tallar();
    }

    /** `generarLaberinto` as the constructor runs it, on a new grid: every passage closed and no
        cell visited. */
    method Tallar() returns (ghost inicio: Casilla, ghost aperturas: seq<(Casilla, Casilla)>)
      requires Valid() && alto >= 1 && ancho >= 1
      requires forall c :: c in Celdas ==> c.Pasos() == Banderas(false, false, false, false) && !c.visitada
      modifies Celdas
      ensures Valid() && Tallado(inicio, aperturas)
    {
      ghost var previas := Visitadas();
      assert previas == {};
      inicio, aperturas := GenerarLaberinto();
      RecorridoDesde(inicio, previas);
      assert Bitacora(aperturas, inicio, previas, Visitadas());
      forall c | c in Celdas
        ensures c.Pasos() == PasosTras(Banderas(false, false, false, false), c, aperturas)
      {
        assert old(c.Pasos()) == Banderas(false, false, false, false);
      }
    }

    /** The maze the generation leaves when it starts at `inicio` with no cell visited and logs
        `aperturas`: the start and every visited cell are closed; the log reached each visited
        cell once, from the start or from a cell reached before; and every flag is closed but
        those of the logged passages, each of them open from both sides. */
    ghost predicate Tallado(inicio: Casilla, aperturas: seq<(Casilla, Casilla)>)
      reads Celdas
      requires Rejilla()
    {
      && inicio in Celdas && Recorrido(inicio)
      && Bitacora(aperturas, inicio, {}, Visitadas()) && |aperturas| == |Visitadas()|
      && (forall c :: c in Celdas ==> c.Pasos() == PasosTras(Banderas(false, false, false, false), c, aperturas))
      && (forall k :: 0 <= k < |aperturas| ==> Abierto(aperturas[k].0, aperturas[k].1))
    }

    /** The start is pushed unmarked, yet it ends closed: once it has a neighbour, that
        neighbour is visited and closed, so the start is visited too. It is then among the cells
        the log reaches, and the log, which opens its first passage from the start, has as many
        passages as the cells it spans, one more than a tree over them. */
    lemma InicioReentrado(inicio: Casilla, aperturas: seq<(Casilla, Casilla)>)
      requires Rejilla() && Tallado(inicio, aperturas) && Vecinos(inicio) != []
      ensures inicio.visitada && inicio in Destinos(aperturas)
      ensures aperturas != [] && aperturas[0].0 == inicio
      ensures |aperturas| == |Destinos(aperturas)| == |Visitadas()|
    {
      var w := Vecinos(inicio)[0];
      assert w in Celdas && w.visitada;
      VecinosSimetricos(inicio, w);
      assert inicio in Visitadas();
    }

    /** When no cell was visited before the generation, closing the start and every cell it
        visited closes the start and every visited cell. */
    lemma RecorridoDesde(inicio: Casilla, previas: set<Casilla>)
      requires Rejilla() && previas == {}
      requires forall c :: c in Celdas && (c == inicio || c in Visitadas() - previas) ==> Cerrada(c)
      ensures Recorrido(inicio) && Visitadas() - previas == Visitadas()
    {
      assert Visitadas() - previas == Visitadas();
    }

    /** `generarCasillas`: a fresh grid of `alto` by `ancho` fresh cells, every passage closed
        and no cell visited, the cell at row `i`, column `j` with coordinates `(i, j)`. */
    static method GenerarCasillas(alto: int, ancho: int)
      returns (casillas: array2<Casilla?>, ghost tabla: seq<seq<Casilla>>, ghost celdas: set<Casilla>)
      requires alto >= 0 && ancho >= 0
      ensures fresh(casillas) && casillas.Length0 == alto && casillas.Length1 == ancho
      ensures Forma(alto, ancho, tabla, celdas)
      ensures forall i, j :: 0 <= i < alto && 0 <= j < ancho ==> casillas[i, j] == tabla[i][j]
      ensures forall c :: c in celdas ==> fresh(c) && c.Pasos() == Banderas(false, false, false, false) && !c.visitada
      ensures |celdas| == alto * ancho
    {
      casillas := new Casilla?[alto, ancho];
      tabla, celdas := [], {};
      for i := 0 to alto
        invariant Forma(i, ancho, tabla, celdas)
        invariant forall i', j :: 0 <= i' < i && 0 <= j < ancho ==> casillas[i', j] == tabla[i'][j]
        invariant forall c :: c in celdas ==> fresh(c) && c.Pasos() == Banderas(false, false, false, false) && !c.visitada
        invariant |celdas| == i * ancho
      {
        ghost var fila, nuevas := GenerarFila(casillas, i);
        assert celdas !! nuevas;
        FormaFila(i, ancho, tabla, celdas, fila, nuevas);
        tabla, celdas := tabla + [fila], celdas + nuevas;
        assert (i + 1) * ancho == i * ancho + ancho;
      }
    }

    /** Adding a row `fila` of the cells `nuevas` with coordinates `(i, j)` to a grid of `i` rows
        gives a grid of `i + 1` rows. */
    static lemma FormaFila(i: int, ancho: int, tabla: seq<seq<Casilla>>, celdas: set<Casilla>,
                          fila: seq<Casilla>, nuevas: set<Casilla>)
      requires Forma(i, ancho, tabla, celdas) && |fila| == ancho
      requires forall j :: 0 <= j < ancho ==> fila[j] in nuevas && fila[j].x == i && fila[j].y == j
      requires forall c :: c in nuevas ==> c.x == i && 0 <= c.y < ancho && fila[c.y] == c
      ensures Forma(i + 1, ancho, tabla + [fila], celdas + nuevas)
    {
      var t := tabla + [fila];
      forall i', j | 0 <= i' < i + 1 && 0 <= j < ancho
        ensures t[i'][j] in celdas + nuevas && t[i'][j].x == i' && t[i'][j].y == j
      {
        if i' < i {
          assert t[i'] == tabla[i'];
        }
      }
      forall c | c in celdas + nuevas
        ensures 0 <= c.x < i + 1 && 0 <= c.y < ancho && t[c.x][c.y] == c
      {
        if c in celdas {
          assert t[c.x] == tabla[c.x];
        }
      }
    }

    /** Row `i` of `generarCasillas`: a fresh closed, unvisited cell with coordinates `(i, j)` is
        stored at column `j` of row `i`, and no other row changes. */
    static method GenerarFila(casillas: array2<Casilla?>, i: int)
      returns (ghost fila: seq<Casilla>, ghost nuevas: set<Casilla>)
      requires 0 <= i < casillas.Length0
      modifies casillas
      ensures |fila| == casillas.Length1 && |nuevas| == casillas.Length1
      ensures forall j :: 0 <= j < |fila| ==>
                casillas[i, j] == fila[j] && fila[j] in nuevas && fila[j].x == i && fila[j].y == j
      ensures forall c :: c in nuevas ==> c.x == i && 0 <= c.y < |fila| && fila[c.y] == c
      ensures forall c :: c in nuevas ==> fresh(c) && c.Pasos() == Banderas(false, false, false, false) && !c.visitada
      ensures forall i', j :: 0 <= i' < casillas.Length0 && i' != i && 0 <= j < casillas.Length1 ==>
                casillas[i', j] == old(casillas[i', j])
    {
      fila, nuevas := [], {};
      for j := 0 to casillas.Length1
        invariant |fila| == j && |nuevas| == j
        invariant forall j' :: 0 <= j' < j ==>
                    casillas[i, j'] == fila[j'] && fila[j'] in nuevas && fila[j'].x == i && fila[j'].y == j'
        invariant forall c :: c in nuevas ==> c.x == i && 0 <= c.y < j && fila[c.y] == c
        invariant forall c :: c in nuevas ==> fresh(c) && c.Pasos() == Banderas(false, false, false, false) && !c.visitada
        invariant forall i', j' :: 0 <= i' < casillas.Length0 && i' != i && 0 <= j' < casillas.Length1 ==>
                    casillas[i', j'] == old(casillas[i', j'])
      {
        var casilla := new Casilla(i, j);
        casillas[i, j] := casilla;
        fila, nuevas := fila + [casilla], nuevas + {casilla};
      }
    }

    /** `obtenerCasilla(x, y)`: coordinates outside the grid throw `IllegalArgumentException`;
        otherwise the cell returned is the one stored at row `y`, column `x`, so its own
        coordinates are `(y, x)`. */
    function ObtenerCasilla(x: int, y: int): (r: Result<Casilla>)
      reads casillas
      requires Valid()
      ensures r.Ok? <==> EnRango(alto, ancho, x, y)
      ensures r.Ok? ==> r.value == Tabla[y][x] && r.value in Celdas && r.value.x == y && r.value.y == x
      ensures !r.Ok? ==> r == Err(IllegalArgumentException)
    {
      if x < 0 || x >= ancho then Err(IllegalArgumentException)
      else if y < 0 || y >= alto then Err(IllegalArgumentException)
      else
        var casilla: Casilla := casillas[y, x];
        Ok(casilla)
    }

    /** `obtenerCasillaAlAzar`: a cell of the grid, chosen by two random draws. */
    method ObtenerCasillaAlAzar() returns (casilla: Casilla)
      requires Valid() && alto >= 1 && ancho >= 1
      ensures casilla in Celdas
    {
      var x :| 0 <= x < ancho;
      var y :| 0 <= y < alto;
      casilla := casillas[y, x];
    }

    /** The cells stored at the positions `ps`, in order. */
    ghost function CasillasEn(ps: seq<(int, int)>): (r: seq<Casilla>)
      requires Rejilla()
      requires forall p :: p in ps ==> 0 <= p.0 < alto && 0 <= p.1 < ancho
      ensures |r| == |ps|
      ensures forall k :: 0 <= k < |ps| ==> r[k] == Tabla[ps[k].0][ps[k].1]
      ensures forall c :: c in r ==> c in Celdas
      decreases |ps|
    {
      if ps == [] then []
      else
        var ultima := ps[|ps| - 1];
        assert ultima in ps;
        CasillasEn(ps[..|ps| - 1]) + [Tabla[ultima.0][ultima.1]]
    }

    lemma CasillasEnSnoc(ps: seq<(int, int)>, p: (int, int))
      requires Rejilla()
      requires forall q :: q in ps + [p] ==> 0 <= q.0 < alto && 0 <= q.1 < ancho
      ensures CasillasEn(ps + [p]) == CasillasEn(ps) + [Tabla[p.0][p.1]]
    {
      assert (ps + [p])[..|ps|] == ps;
    }

    /** The neighbours `obtenerVecinos` collects for `c`, in order. */
    ghost function Vecinos(c: Casilla): seq<Casilla>
      requires Rejilla()
    {
      CasillasEn(Vecinas(alto, ancho, c.x, c.y))
    }

    /** No cell is its own neighbour. */
    lemma NoEsVecina(c: Casilla)
      requires Rejilla()
      ensures c !in Vecinos(c)
    {
      var ps := Vecinas(alto, ancho, c.x, c.y);
      if c in Vecinos(c) {
        var k :| 0 <= k < |ps| && Vecinos(c)[k] == c;
        assert ps[k] in ps;
        NoEsVecinaDeSiMisma(alto, ancho, c.x, c.y);
      }
    }

    /** Two cells of the grid are neighbours of each other or not at all. */
    lemma VecinosSimetricos(a: Casilla, b: Casilla)
      requires Rejilla() && a in Celdas
      requires b in Vecinos(a)
      ensures a in Vecinos(b)
    {
      var ps := Vecinas(alto, ancho, a.x, a.y);
      var k :| 0 <= k < |ps| && Vecinos(a)[k] == b;
      assert ps[k] in ps;
      VecindadSimetrica(alto, ancho, a.x, a.y, ps[k]);
      var qs := Vecinas(alto, ancho, b.x, b.y);
      var m :| 0 <= m < |qs| && qs[m] == (a.x, a.y);
      assert Vecinos(b)[m] == a;
    }

    /** For a cell `a` on the diagonal the direction from a neighbour `v` back to `a` is the
        opposite of the direction from `a` to `v`, so `v.hayPaso(a)` reads exactly the flag that
        `a.visitar(v)` raises in `v`. */
    lemma HayPasoDeVuelta(a: Casilla, v: Casilla)
      requires Rejilla() && a in Celdas && a.x == a.y
      requires v in Vecinos(a)
      ensures v.HayPaso(a) <==> Bandera(v.Pasos(), Opuesto(a.ObtenerPuntoCardinal(v)))
    {
      var ps := Vecinas(alto, ancho, a.x, a.y);
      var k :| 0 <= k < |ps| && Vecinos(a)[k] == v;
      assert ps[k] in ps;
      DiagonalUnitaria(alto, ancho, a.x, ps[k]);
    }

    /** On the cells of the grid `equals` is identity, so the list operations that compare
        cells with `equals` find exactly the same cell. */
    lemma EqualsEsIdentidad(a: Casilla, b: Casilla)
      requires Rejilla() && a in Celdas && b in Celdas
      ensures a.Equals(b) <==> a == b
    {
    }

    /** A sequence of cells each of which is a neighbour of the one before. */
    ghost predicate EsCamino(camino: seq<Casilla>)
      requires Rejilla()
    {
      forall k :: 0 <= k < |camino| - 1 ==> camino[k + 1] in Vecinos(camino[k])
    }

    /** Every neighbour of `c` is visited. */
    ghost predicate Cerrada(c: Casilla)
      reads Celdas
      requires Rejilla()
    {
      forall v :: v in Vecinos(c) ==> v.visitada
    }

    /** The state the generation leaves: the start cell and every visited cell are closed. */
    ghost predicate Recorrido(inicio: Casilla)
      reads Celdas
      requires Rejilla()
    {
      forall c :: c in Celdas && (c.visitada || c == inicio) ==> Cerrada(c)
    }

    /** After the generation every cell reachable from the start, other than the start itself, is
        visited. */
    lemma AlcanzablesVisitadas(inicio: Casilla, camino: seq<Casilla>)
      requires Rejilla() && inicio in Celdas && Recorrido(inicio)
      requires camino != [] && camino[0] == inicio && EsCamino(camino)
      ensures forall k :: 0 < k < |camino| ==> camino[k].visitada
    {
      forall k | 0 < k < |camino|
        ensures camino[k].visitada
      {
        AlcanzableVisitada(inicio, camino, k);
      }
    }

    /** The `k`-th cell of a path from the start is visited, because the cell before it is the
        start or visited, hence closed. */
    lemma {:induction false} AlcanzableVisitada(inicio: Casilla, camino: seq<Casilla>, k: int)
      requires Rejilla() && inicio in Celdas && Recorrido(inicio)
      requires camino != [] && camino[0] == inicio && EsCamino(camino)
      requires 0 < k < |camino|
      ensures camino[k].visitada
      decreases k
    {
      var anterior := camino[k - 1];
      assert camino[k - 1 + 1] in Vecinos(anterior);
      if k > 1 {
        AlcanzableVisitada(inicio, camino, k - 1);
        assert camino[k - 2 + 1] in Vecinos(camino[k - 2]);
      }
      assert anterior in Celdas;
      assert anterior.visitada || anterior == inicio;
      assert Cerrada(anterior);
    }

    /** The visited cells of the grid. */
    ghost function Visitadas(): set<Casilla>
      reads Celdas
    {
      set c | c in Celdas && c.visitada
    }

    /** Every neighbour of `c` is in `vis`. */
    ghost predicate CerradaEn(c: Casilla, vis: set<Casilla>)
      requires Rejilla()
    {
      forall v :: v in Vecinos(c) ==> v in vis
    }

    lemma CerradaEnVisitadas(c: Casilla)
      requires Rejilla()
      ensures CerradaEn(c, Visitadas()) <==> Cerrada(c)
    {
    }

    /** What holds of the stack `apiladas` (top first) while the generation started at `inicio`
        runs, with `vis` the visited cells and `previas` those visited before it began: every
        stacked cell is in the grid, the start is at the bottom, every cell above it was visited
        by the generation, and each cell that is the start or was visited by the generation is on the stack or has
        all its neighbours visited. */
    ghost predicate EnProgreso(apiladas: seq<Casilla>, inicio: Casilla, previas: set<Casilla>, vis: set<Casilla>)
      requires Rejilla()
    {
      && (forall k :: 0 <= k < |apiladas| ==> apiladas[k] in Celdas)
      && (apiladas != [] ==> apiladas[|apiladas| - 1] == inicio)
      && (forall k :: 0 <= k < |apiladas| - 1 ==> apiladas[k] in vis - previas)
      && (forall c :: c in Celdas && (c == inicio || c in vis - previas) ==> c in apiladas || CerradaEn(c, vis))
    }

    /** Pushing the start cell begins the generation. */
    lemma EnProgresoInicial(inicio: Casilla, previas: set<Casilla>)
      requires Rejilla() && inicio in Celdas
      ensures EnProgreso([inicio], inicio, previas, previas)
    {
    }

    /** Visiting a cell of the grid and pushing it keeps the generation's invariant. */
    lemma {:induction false} AvanzarConserva(apiladas: seq<Casilla>, inicio: Casilla, previas: set<Casilla>,
                                            vis: set<Casilla>, vecino: Casilla)
      requires Rejilla() && apiladas != [] && vecino in Celdas && previas <= vis && vecino !in vis
      requires EnProgreso(apiladas, inicio, previas, vis)
      ensures EnProgreso([vecino] + apiladas, inicio, previas, vis + {vecino})
    {
      var nuevas := [vecino] + apiladas;
      ApiladasAvanzan(apiladas, inicio, previas, vis, vecino, nuevas);
      CubiertasAvanzan(apiladas, inicio, previas, vis, vecino, nuevas);
    }

    /** The stack part of the invariant after a push: the cells are of the grid, the start stays
        at the bottom and every cell above it, the new top included, was visited by the
        generation. */
    lemma ApiladasAvanzan(apiladas: seq<Casilla>, inicio: Casilla, previas: set<Casilla>,
                          vis: set<Casilla>, vecino: Casilla, nuevas: seq<Casilla>)
      requires nuevas == [vecino] + apiladas
      requires apiladas != [] && vecino in Celdas && vecino !in previas
      requires forall k :: 0 <= k < |apiladas| ==> apiladas[k] in Celdas
      requires apiladas[|apiladas| - 1] == inicio
      requires forall k :: 0 <= k < |apiladas| - 1 ==> apiladas[k] in vis - previas
      ensures forall k :: 0 <= k < |nuevas| ==> nuevas[k] in Celdas
      ensures nuevas != [] ==> nuevas[|nuevas| - 1] == inicio
      ensures forall k :: 0 <= k < |nuevas| - 1 ==> nuevas[k] in (vis + {vecino}) - previas
    {
      forall k | 0 <= k < |nuevas| - 1
        ensures nuevas[k] in (vis + {vecino}) - previas
      {
        if k > 0 {
          assert nuevas[k] == apiladas[k - 1];
        }
      }
    }

    /** The closure part of the invariant after visiting and pushing `vecino`: each cell that is
        the start or was visited by the generation is stacked or closed. */
    lemma CubiertasAvanzan(apiladas: seq<Casilla>, inicio: Casilla, previas: set<Casilla>,
                           vis: set<Casilla>, vecino: Casilla, nuevas: seq<Casilla>)
      requires Rejilla() && nuevas == [vecino] + apiladas
      requires forall c :: c in Celdas && (c == inicio || c in vis - previas) ==> c in apiladas || CerradaEn(c, vis)
      ensures forall c :: c in Celdas && (c == inicio || c in (vis + {vecino}) - previas) ==>
                c in nuevas || CerradaEn(c, vis + {vecino})
    {
      forall c | c in Celdas && (c == inicio || c in (vis + {vecino}) - previas)
        ensures c in nuevas || CerradaEn(c, vis + {vecino})
      {
        if c != vecino && !(c in apiladas) {
          assert CerradaEn(c, vis);
        }
      }
    }

    /** Popping a top cell whose neighbours are all visited keeps the generation's invariant. */
    lemma {:induction false} RetrocederConserva(apiladas: seq<Casilla>, inicio: Casilla, previas: set<Casilla>,
                                               vis: set<Casilla>)
      requires Rejilla() && apiladas != []
      requires EnProgreso(apiladas, inicio, previas, vis)
      requires CerradaEn(apiladas[0], vis)
      ensures EnProgreso(apiladas[1..], inicio, previas, vis)
    {
      var restantes := apiladas[1..];
      forall k | 0 <= k < |restantes|
        ensures restantes[k] in Celdas
      {
        assert restantes[k] == apiladas[k + 1];
      }
      forall k | 0 <= k < |restantes| - 1
        ensures restantes[k] in vis
      {
        assert restantes[k] == apiladas[k + 1];
      }
      forall c | c in Celdas && (c == inicio || c in vis - previas)
        ensures c in restantes || CerradaEn(c, vis)
      {
        if c != apiladas[0] && c in apiladas {
          var k :| 0 <= k < |apiladas| && apiladas[k] == c;
          assert restantes[k - 1] == c;
        }
      }
      if restantes != [] {
        assert restantes[|restantes| - 1] == apiladas[|apiladas| - 1];
      }
    }

    /** When the stack is empty the start and every cell the generation visited have all their
        neighbours visited. */
    lemma TerminadoCerrado(inicio: Casilla, previas: set<Casilla>, vis: set<Casilla>)
      requires Rejilla() && EnProgreso([], inicio, previas, vis)
      ensures forall c :: c in Celdas && (c == inicio || c in vis - previas) ==> CerradaEn(c, vis)
    {
    }

    /** Every flag of a cell of the grid is its flag in the snapshot `pasos0` with the passages of
        the log `aperturas` opened over it. */
    ghost predicate Registradas(pasos0: map<Casilla, Banderas>, aperturas: seq<(Casilla, Casilla)>)
      reads Celdas
    {
      && Celdas <= pasos0.Keys
      && forall c {:trigger c.Pasos()} :: c in Celdas ==> c.Pasos() == PasosTras(pasos0[c], c, aperturas)
    }

    /** The log `aperturas` of the passages opened by the generation started at `inicio`, with
        `vis` the visited cells and `previas` those visited before it began: each pair is a cell
        of the grid and one of its neighbours; its first cell is the start or a cell reached by an
        earlier pair; no cell is reached twice; and the cells reached are exactly those the
        generation visited. */
    ghost predicate Bitacora(aperturas: seq<(Casilla, Casilla)>, inicio: Casilla, previas: set<Casilla>,
                             vis: set<Casilla>)
      requires Rejilla()
    {
      && Vecindades(aperturas) && Enraizada(aperturas, inicio) && SinRepetir(aperturas)
      && Destinos(aperturas) == vis - previas
    }

    /** Each pair of `aperturas` is a cell of the grid and one of its neighbours. */
    ghost predicate Vecindades(aperturas: seq<(Casilla, Casilla)>)
      requires Rejilla()
    {
      forall k :: 0 <= k < |aperturas| ==>
        aperturas[k].0 in Celdas && aperturas[k].1 in Celdas && aperturas[k].1 in Vecinos(aperturas[k].0)
    }

    lemma VecindadesSnoc(aperturas: seq<(Casilla, Casilla)>, a: Casilla, v: Casilla)
      requires Rejilla() && Vecindades(aperturas) && a in Celdas && v in Vecinos(a)
      ensures Vecindades(aperturas + [(a, v)])
    {
      var nuevas := aperturas + [(a, v)];
      forall k | 0 <= k < |nuevas|
        ensures nuevas[k].0 in Celdas && nuevas[k].1 in Celdas && nuevas[k].1 in Vecinos(nuevas[k].0)
      {
        if k < |aperturas| {
          assert nuevas[k] == aperturas[k];
        }
      }
    }

    /** `vis` is exactly the set of visited cells of the grid. */
    ghost predicate Marcadas(vis: set<Casilla>)
      reads Celdas
    {
      && vis <= Celdas
      && forall c :: c in Celdas ==> (c.visitada <==> c in vis)
    }

    lemma MarcadasSonVisitadas(vis: set<Casilla>)
      requires Marcadas(vis)
      ensures vis == Visitadas()
    {
    }

    /** The invariant of the generation loop over the stack `pila`, with `vis` the visited
        cells, `previas` those visited before it began, `pasos0` the flags then and `aperturas`
        the passages opened since. */
    ghost predicate Generando(pila: Pila<Casilla>, inicio: Casilla, previas: set<Casilla>, vis: set<Casilla>,
                              pasos0: map<Casilla, Banderas>, aperturas: seq<(Casilla, Casilla)>)
      reads this, casillas, Celdas, pila, pila.Repr
    {
      && Valid() && pila.Valid() && pila.Repr !! Celdas
      && Marcadas(vis) && previas <= vis
      && EnProgreso(pila.Contents, inicio, previas, vis)
      && Bitacora(aperturas, inicio, previas, vis)
      && Registradas(pasos0, aperturas)
    }

    /** `generarLaberinto`: pushes a random start cell and, while the stack is not empty, pops
        its top when every neighbour of it is visited, or else visits a random unvisited
        neighbour from it and pushes that neighbour. It terminates; `aperturas` logs the visits,
        one per push after the first: each opens the passage between a cell and an unvisited
        neighbour, the first cell being the start or a cell reached before, and every cell it
        reaches was not visited, so there are at most as many visits as cells. The flags at the
        end are those before with exactly the logged passages opened, so only the start and the
        cells it visited change; and it leaves the start and every cell it visited closed. */
    method GenerarLaberinto() returns (ghost inicio: Casilla, ghost aperturas: seq<(Casilla, Casilla)>)
      requires Valid() && alto >= 1 && ancho >= 1
      modifies Celdas
      ensures inicio in Celdas
      ensures old(Visitadas()) <= Visitadas()
      ensures |aperturas| == |Visitadas() - old(Visitadas())| <= |Celdas|
      ensures Bitacora(aperturas, inicio, old(Visitadas()), Visitadas())
      ensures forall c :: c in Celdas ==> c.Pasos() == PasosTras(old(c.Pasos()), c, aperturas)
      ensures forall k :: 0 <= k < |aperturas| ==> Abierto(aperturas[k].0, aperturas[k].1)
      ensures forall c :: c in Celdas && c.Pasos() != old(c.Pasos()) ==> c == inicio || c in Visitadas() - old(Visitadas())
      ensures forall c :: c in Celdas ==> Abiertas(old(c.Pasos()), c.Pasos())
      ensures forall c :: c in Celdas && (c == inicio || c in Visitadas() - old(Visitadas())) ==> Cerrada(c)
    {
      ghost var previas := Visitadas();
      ghost var pasos0 := map c | c in Celdas :: c.Pasos();
      var pila;
      pila, inicio := Iniciar(previas, pasos0);
      ghost var vis;
      vis, aperturas := Recorrer(pila, inicio, previas, pasos0);
      Terminado(inicio, previas, vis);
      SinRepetirCardinal(aperturas);
      Generado(pasos0, aperturas, inicio, previas, vis);
      forall c | c in Celdas
        ensures pasos0[c] == old(c.Pasos())
      {
      }
    }

    /** The loop of `generarLaberinto` over the stack `pila`, which holds the start `inicio`:
        it runs until the stack is empty, and returns the cells then visited and the passages it
        opened, one per cell it visited. */
    method Recorrer(pila: Pila<Casilla>, ghost inicio: Casilla, ghost previas: set<Casilla>,
                    ghost pasos0: map<Casilla, Banderas>)
      returns (ghost vis: set<Casilla>, ghost aperturas: seq<(Casilla, Casilla)>)
      requires Generando(pila, inicio, previas, previas, pasos0, [])
      modifies pila, Celdas
      ensures Rejilla() && Marcadas(vis) && previas <= vis && EnProgreso([], inicio, previas, vis)
      ensures Bitacora(aperturas, inicio, previas, vis) && Registradas(pasos0, aperturas)
    {
      vis, aperturas := previas, [];
      while !pila.EsVacio()
        invariant Generando(pila, inicio, previas, vis, pasos0, aperturas)
        decreases |Celdas - vis|, |pila.Contents|
      {
        var casilla := pila.Peek().value;
        var todosVisitados := Explorada(pila, casilla, inicio, previas, vis, pasos0, aperturas);
        if todosVisitados {
          Retroceder(pila, inicio, previas, vis, pasos0, aperturas);
        } else {
          vis, aperturas := Avance(pila, casilla, inicio, previas, vis, pasos0, aperturas);
        }
      }
    }

    /** The passage between `a` and its neighbour `v` is open from both sides: the flag of `a`
        towards `v`, and the flag of `v` in the opposite direction. */
    ghost predicate Abierto(a: Casilla, v: Casilla)
      reads a, v
    {
      a.HayPaso(v) && Bandera(v.Pasos(), Opuesto(a.ObtenerPuntoCardinal(v)))
    }

    /** What the log gives once the generation is over: no flag was lowered, a cell whose flags
        changed is the start or a cell the generation visited, and the passage of every logged
        pair is open from both sides. */
    lemma Generado(pasos0: map<Casilla, Banderas>, aperturas: seq<(Casilla, Casilla)>, inicio: Casilla,
                   previas: set<Casilla>, vis: set<Casilla>)
      requires Rejilla() && Bitacora(aperturas, inicio, previas, vis) && Registradas(pasos0, aperturas)
      ensures forall c :: c in Celdas ==> Abiertas(pasos0[c], c.Pasos())
      ensures forall c :: c in Celdas && c.Pasos() != pasos0[c] ==> c == inicio || c in vis - previas
      ensures forall k :: 0 <= k < |aperturas| ==> Abierto(aperturas[k].0, aperturas[k].1)
    {
      forall c | c in Celdas
        ensures Abiertas(pasos0[c], c.Pasos())
      {
        PasosTrasMonotono(pasos0[c], c, aperturas);
      }
      forall c | c in Celdas && c != inicio && c !in vis - previas
        ensures c.Pasos() == pasos0[c]
      {
        forall k | 0 <= k < |aperturas|
          ensures aperturas[k].0 != c && aperturas[k].1 != c
        {
          assert aperturas[k] in aperturas;
          if aperturas[k].0 != inicio {
            var m :| 0 <= m < k && aperturas[m].1 == aperturas[k].0;
            assert aperturas[m] in aperturas;
          }
        }
        PasosTrasAjena(pasos0[c], c, aperturas);
      }
      forall k | 0 <= k < |aperturas|
        ensures Abierto(aperturas[k].0, aperturas[k].1)
      {
        var (a, v) := aperturas[k];
        NoEsVecina(a);
        VecinosSimetricos(a, v);
        PasosTrasAbre(pasos0[a], a, aperturas, k);
        PasosTrasAbre(pasos0[v], v, aperturas, k);
      }
    }

    /** The test of the generation loop: whether every neighbour of the top cell `casilla` is
        visited. The neighbour list it builds is new, so the loop's invariant is kept. */
    method Explorada(pila: Pila<Casilla>, casilla: Casilla, ghost inicio: Casilla, ghost previas: set<Casilla>,
                     ghost vis: set<Casilla>, ghost pasos0: map<Casilla, Banderas>,
                     ghost aperturas: seq<(Casilla, Casilla)>) returns (r: bool)
      requires Generando(pila, inicio, previas, vis, pasos0, aperturas)
      ensures Generando(pila, inicio, previas, vis, pasos0, aperturas)
      ensures r <==> forall v :: v in Vecinos(casilla) ==> v.visitada
    {
      r := casilla.NoHayVecinosSinVisitar(this);
    }

    /** The first lines of `generarLaberinto`: a random cell of the grid, pushed on a new stack;
        with `previas` the cells visited and `pasos0` the flags then, nothing is logged yet. */
    method Iniciar(ghost previas: set<Casilla>, ghost pasos0: map<Casilla, Banderas>)
      returns (pila: Pila<Casilla>, inicio: Casilla)
      requires Valid() && alto >= 1 && ancho >= 1
      requires previas == Visitadas() && pasos0 == map c | c in Celdas :: c.Pasos()
      ensures fresh(pila.Repr) && pila.Contents == [inicio] && inicio in Celdas
      ensures Generando(pila, inicio, previas, previas, pasos0, [])
    {
      inicio := ObtenerCasillaAlAzar();
      pila := new Pila<Casilla>();
      var _ := pila.Push(Some(inicio));
      RegistradasInicial(pasos0);
      EnProgresoInicial(inicio, previas);
    }

    /** Before the generation every flag is as in the snapshot taken then, with no passage
        logged. */
    lemma RegistradasInicial(pasos0: map<Casilla, Banderas>)
      requires pasos0 == map c | c in Celdas :: c.Pasos()
      ensures Registradas(pasos0, [])
    {
    }

    /** Once the stack is empty: the cells visited during the generation are at most all the
        cells, and the start and every one of them have all their neighbours visited. */
    lemma Terminado(inicio: Casilla, previas: set<Casilla>, vis: set<Casilla>)
      requires Rejilla() && Marcadas(vis) && previas <= vis
      requires EnProgreso([], inicio, previas, vis)
      ensures vis == Visitadas()
      ensures |vis - previas| <= |Celdas|
      ensures forall c :: c in Celdas && (c == inicio || c in vis - previas) ==> Cerrada(c)
    {
      MarcadasSonVisitadas(vis);
      TerminadoCerrado(inicio, previas, vis);
      forall c | c in Celdas && (c == inicio || c in vis - previas)
        ensures Cerrada(c)
      {
        CerradaEnVisitadas(c);
      }
      CardinalSubconjunto(vis - previas, Celdas);
    }

    /** A subset has at most as many elements as the set. */
    lemma {:induction false} CardinalSubconjunto(a: set<Casilla>, b: set<Casilla>)
      requires a <= b
      ensures |a| <= |b|
      decreases |b|
    {
      if a != {} {
        var x :| x in a;
        CardinalSubconjunto(a - {x}, b - {x});
      }
    }

    /** Visiting one more cell of the grid leaves one cell fewer to visit, and one more visited
        since the generation began. */
    lemma MenosPorVisitar(previas: set<Casilla>, vis: set<Casilla>, v: Casilla)
      requires previas <= vis && v in Celdas && v !in vis
      ensures |Celdas - (vis + {v})| < |Celdas - vis|
      ensures |(vis + {v}) - previas| == |vis - previas| + 1
    {
      assert Celdas - (vis + {v}) == (Celdas - vis) - {v};
      assert (vis + {v}) - previas == (vis - previas) + {v};
    }

    /** Logging the visit of `vecino`, an unvisited neighbour of `casilla`, from `casilla`, which
        is the start or a cell the generation visited, keeps the log's invariant. */
    lemma {:induction false} BitacoraConserva(aperturas: seq<(Casilla, Casilla)>, inicio: Casilla,
                                              previas: set<Casilla>, vis: set<Casilla>, casilla: Casilla, vecino: Casilla)
      requires Rejilla() && previas <= vis && Bitacora(aperturas, inicio, previas, vis)
      requires casilla in Celdas && vecino in Vecinos(casilla) && vecino !in vis
      requires casilla == inicio || casilla in vis - previas
      ensures Bitacora(aperturas + [(casilla, vecino)], inicio, previas, vis + {vecino})
    {
      DestinosSnoc(aperturas, casilla, vecino);
      assert (vis + {vecino}) - previas == (vis - previas) + {vecino};
      VecindadesSnoc(aperturas, casilla, vecino);
      EnraizadaSnoc(aperturas, inicio, casilla, vecino);
      SinRepetirSnoc(aperturas, casilla, vecino);
    }

    /** The else branch of the generation loop, with `vis` the visited cells: a random
        unvisited neighbour of the top cell `casilla` is visited and pushed, so one more cell is
        visited, one more passage is logged and the invariant of the loop is kept. */
    method Avance(pila: Pila<Casilla>, casilla: Casilla, ghost inicio: Casilla, ghost previas: set<Casilla>,
                  ghost vis: set<Casilla>, ghost pasos0: map<Casilla, Banderas>,
                  ghost aperturas: seq<(Casilla, Casilla)>)
      returns (ghost vis': set<Casilla>, ghost aperturas': seq<(Casilla, Casilla)>)
      requires Generando(pila, inicio, previas, vis, pasos0, aperturas)
      requires pila.Contents != [] && casilla == pila.Contents[0]
      requires !forall v :: v in Vecinos(casilla) ==> v.visitada
      modifies pila, Celdas
      ensures Generando(pila, inicio, previas, vis', pasos0, aperturas')
      ensures |Celdas - vis'| < |Celdas - vis| && |vis' - previas| == |vis - previas| + 1
      ensures |aperturas'| == |aperturas| + 1
    {
      ghost var apiladas := pila.Contents;
      assert casilla == inicio || casilla in vis - previas by {
        if |apiladas| > 1 {
          assert apiladas[0] in vis - previas;
        }
      }
      var vecino := Adelantar(pila, casilla, vis, pasos0, aperturas);
      AvanzarConserva(apiladas, inicio, previas, vis, vecino);
      MenosPorVisitar(previas, vis, vecino);
      BitacoraConserva(aperturas, inicio, previas, vis, casilla, vecino);
      vis', aperturas' := vis + {vecino}, aperturas + [(casilla, vecino)];
    }

    /** The then branch of the generation loop: the top cell, whose neighbours are all visited,
        is popped. */
    method Retroceder(pila: Pila<Casilla>, ghost inicio: Casilla, ghost previas: set<Casilla>, ghost vis: set<Casilla>,
                      ghost pasos0: map<Casilla, Banderas>, ghost aperturas: seq<(Casilla, Casilla)>)
      requires Generando(pila, inicio, previas, vis, pasos0, aperturas) && pila.Contents != []
      requires Cerrada(pila.Contents[0])
      modifies pila
      ensures Generando(pila, inicio, previas, vis, pasos0, aperturas)
      ensures |pila.Contents| < old(|pila.Contents|)
    {
      ghost var apiladas := pila.Contents;
      CerradaEnVisitadas(apiladas[0]);
      MarcadasSonVisitadas(vis);
      var _ := pila.Pop();
      RetrocederConserva(apiladas, inicio, previas, vis);
    }

    /** The else branch of the generation loop: visits a random unvisited neighbour of the top
        cell `casilla` from it and pushes it; the visited cells grow by that one cell and the
        flags by that one passage. */
    method Adelantar(pila: Pila<Casilla>, casilla: Casilla, ghost vis: set<Casilla>,
                     ghost pasos0: map<Casilla, Banderas>, ghost aperturas: seq<(Casilla, Casilla)>)
      returns (vecino: Casilla)
      requires Valid() && pila.Valid() && pila.Repr !! Celdas && casilla in Celdas
      requires Marcadas(vis) && Registradas(pasos0, aperturas)
      requires exists v :: v in Vecinos(casilla) && !v.visitada
      modifies pila, Celdas
      ensures Valid() && pila.Valid() && pila.Repr !! Celdas
      ensures pila.Contents == [vecino] + old(pila.Contents)
      ensures vecino in Vecinos(casilla) && vecino in Celdas && vecino !in vis
      ensures Marcadas(vis + {vecino}) && Registradas(pasos0, aperturas + [(casilla, vecino)])
    {
      vecino := Avanzar(casilla, vis, pasos0, aperturas);
      var _ := pila.Push(Some(vecino));
    }

    /** Visits a random unvisited neighbour of `casilla` from it and returns that neighbour,
        which is the one cell newly marked visited; the flags grow by the passage between the
        two. */
    method Avanzar(casilla: Casilla, ghost vis: set<Casilla>, ghost pasos0: map<Casilla, Banderas>,
                   ghost aperturas: seq<(Casilla, Casilla)>)
      returns (vecino: Casilla)
      requires Valid() && casilla in Celdas && Marcadas(vis) && Registradas(pasos0, aperturas)
      requires exists v :: v in Vecinos(casilla) && !v.visitada
      modifies Celdas
      ensures Valid() && Registradas(pasos0, aperturas + [(casilla, vecino)])
      ensures vecino in Vecinos(casilla) && vecino in Celdas && vecino !in vis
      ensures Marcadas(vis + {vecino})
    {
      var siguiente := casilla.ObtenerVecinoSinVisitar(this);
      vecino := siguiente.value;
      AbrirPaso(casilla, vecino, vis, pasos0, aperturas);
    }

    /** `casilla.visitar(vecino)` for an unvisited neighbour `vecino`: the flag of `casilla`
        towards `vecino` and the flag of `vecino` in the opposite direction are raised, and
        `vecino` becomes the one cell newly marked visited. */
    method AbrirPaso(casilla: Casilla, vecino: Casilla, ghost vis: set<Casilla>, ghost pasos0: map<Casilla, Banderas>,
                     ghost aperturas: seq<(Casilla, Casilla)>)
      requires Valid() && casilla in Celdas && Marcadas(vis) && Registradas(pasos0, aperturas)
      requires vecino in Vecinos(casilla) && !vecino.visitada
      modifies casilla, vecino
      ensures casilla.Pasos() == Abrir(old(casilla.Pasos()), casilla.ObtenerPuntoCardinal(vecino))
      ensures vecino.Pasos() == Abrir(old(vecino.Pasos()), Opuesto(casilla.ObtenerPuntoCardinal(vecino)))
      ensures Valid() && Registradas(pasos0, aperturas + [(casilla, vecino)])
      ensures vecino in Celdas && vecino !in vis
      ensures Marcadas(vis + {vecino})
    {
      casilla.VisitarCasilla(vecino, this);
      forall c | c in Celdas
        ensures c.visitada <==> c in vis + {vecino}
      {
      }
      forall c | c in Celdas
        ensures c.Pasos() == PasosTras(pasos0[c], c, aperturas + [(casilla, vecino)])
      {
        PasosTrasSnoc(pasos0[c], c, aperturas, casilla, vecino);
      }
    }
  }
}
