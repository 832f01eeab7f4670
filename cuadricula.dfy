/** The geometry of the maze's grid as the maze code computes it. The cell stored at row `i`,
    column `j` of the grid carries the coordinates `x = i`, `y = j`, while looking a cell up by
    coordinates `(x, y)` reads row `y`, column `x`. Positions below are (row, column) pairs of
    the grid; coordinates are what a cell stores. */
module Cuadricula {

  datatype PuntoCardinal = NORTE | SUR | ESTE | OESTE

  /** The direction facing `d`. */
  function Opuesto(d: PuntoCardinal): (o: PuntoCardinal)
    ensures o != d
  {
    match d
    case NORTE => SUR
    case SUR => NORTE
    case ESTE => OESTE
    case OESTE => ESTE
  }

  lemma OpuestoInvolutivo(d: PuntoCardinal)
    ensures Opuesto(Opuesto(d)) == d
  {
  }

  /** `obtenerPuntoCardinal`: the direction of a difference of coordinates. The horizontal
      difference is tested first; a difference that is no unit step in either coordinate, and
      every remaining case, counts as south. */
  function PuntoCardinalDe(dx: int, dy: int): (d: PuntoCardinal)
    ensures d == ESTE <==> dx == 1
    ensures d == OESTE <==> dx == -1
    ensures d == NORTE <==> dx != 1 && dx != -1 && dy == 1
    ensures d == SUR <==> dx != 1 && dx != -1 && dy != 1
  {
    if dx == 1 then ESTE
    else if dx == -1 then OESTE
    else if dy == 1 then NORTE
    else SUR
  }

  /** On unit steps the direction back is the opposite of the direction there. */
  lemma PuntoCardinalUnitario(dx: int, dy: int)
    requires (dx == 0 && (dy == 1 || dy == -1)) || (dy == 0 && (dx == 1 || dx == -1))
    ensures PuntoCardinalDe(-dx, -dy) == Opuesto(PuntoCardinalDe(dx, dy))
  {
  }

  /** The four passage flags of a cell. */
  datatype Banderas = Banderas(norte: bool, sur: bool, este: bool, oeste: bool)

  /** The flag of `b` in direction `d` (the switch in `hayPaso`). */
  function Bandera(b: Banderas, d: PuntoCardinal): bool
  {
    match d
    case NORTE => b.norte
    case SUR => b.sur
    case ESTE => b.este
    case OESTE => b.oeste
  }

  /** `b` with the flag in direction `d` raised. */
  function Abrir(b: Banderas, d: PuntoCardinal): (r: Banderas)
    ensures Bandera(r, d)
    ensures forall e :: e != d ==> Bandera(r, e) == Bandera(b, e)
  {
    match d
    case NORTE => b.(norte := true)
    case SUR => b.(sur := true)
    case ESTE => b.(este := true)
    case OESTE => b.(oeste := true)
  }

  /** Every flag raised in `antes` is raised in `despues`. */
  predicate Abiertas(antes: Banderas, despues: Banderas)
  {
    forall d :: Bandera(antes, d) ==> Bandera(despues, d)
  }

  lemma AbiertasTransitiva(a: Banderas, b: Banderas, c: Banderas)
    requires Abiertas(a, b) && Abiertas(b, c)
    ensures Abiertas(a, c)
  {
  }

  /** Raising a flag never lowers one. */
  lemma AbrirMonotono(b: Banderas, d: PuntoCardinal)
    ensures Abiertas(b, Abrir(b, d))
  {
  }

  /** The coordinates `(x, y)` that `obtenerCasilla` accepts. */
  predicate EnRango(alto: int, ancho: int, x: int, y: int)
  {
    0 <= x < ancho && 0 <= y < alto
  }

  /** The table `vecinosCoordenadas` of `obtenerVecinos` for the cell with coordinates `(x, y)`:
      four pairs `(y', x')`, looked up as `obtenerCasilla(x', y')`. A pair is at the same time
      the (row, column) position of the cell that lookup returns. */
  function Candidatas(x: int, y: int): seq<(int, int)>
  {
    [(y, x + 1), (y, x - 1), (y + 1, x), (y - 1, x)]
  }

  /** The pairs of `cs` whose lookup succeeds, in order; the others are skipped. */
  function Filtrar(alto: int, ancho: int, cs: seq<(int, int)>): (r: seq<(int, int)>)
    ensures |r| <= |cs|
    ensures forall p :: p in r <==> p in cs && EnRango(alto, ancho, p.1, p.0)
    decreases |cs|
  {
    if cs == [] then []
    else
      var ultimo := cs[|cs| - 1];
      Filtrar(alto, ancho, cs[..|cs| - 1])
      + (if EnRango(alto, ancho, ultimo.1, ultimo.0) then [ultimo] else [])
  }

  /** Filtering one more pair appends it when its lookup succeeds. */
  lemma FiltrarPrefijo(alto: int, ancho: int, cs: seq<(int, int)>, i: int)
    requires 0 <= i < |cs|
    ensures Filtrar(alto, ancho, cs[..i + 1])
            == Filtrar(alto, ancho, cs[..i]) + (if EnRango(alto, ancho, cs[i].1, cs[i].0) then [cs[i]] else [])
  {
    assert cs[..i + 1][..i] == cs[..i];
  }

  /** The positions of the cells `obtenerVecinos` collects for the cell with coordinates
      `(x, y)`, in the order it collects them: at most four, each inside the grid, and every
      candidate inside the grid among them. */
  function Vecinas(alto: int, ancho: int, x: int, y: int): (r: seq<(int, int)>)
    ensures |r| <= 4
    ensures forall p :: p in r ==> 0 <= p.0 < alto && 0 <= p.1 < ancho
    ensures forall p :: p in r <==> p in Candidatas(x, y) && EnRango(alto, ancho, p.1, p.0)
  {
    Filtrar(alto, ancho, Candidatas(x, y))
  }

  /** A grid cell (whose coordinates are its position) is never its own neighbour. */
  lemma NoEsVecinaDeSiMisma(alto: int, ancho: int, i: int, j: int)
    ensures (i, j) !in Vecinas(alto, ancho, i, j)
  {
  }

  /** The neighbour relation between grid cells is symmetric: if the cell at position `q` is
      collected as a neighbour of the cell at `(i, j)`, the cell at `(i, j)` is collected as a
      neighbour of the cell at `q`. */
  lemma {:induction false} VecindadSimetrica(alto: int, ancho: int, i: int, j: int, q: (int, int))
    requires 0 <= i < alto && 0 <= j < ancho
    requires q in Vecinas(alto, ancho, i, j)
    ensures (i, j) in Vecinas(alto, ancho, q.0, q.1)
  {
    CandidataSimetrica(i, j, q);
  }

  /** Every entry of the table of `(i, j)` has `(i, j)` in its own table. */
  lemma CandidataSimetrica(i: int, j: int, q: (int, int))
    requires q in Candidatas(i, j)
    ensures (i, j) in Candidatas(q.0, q.1)
  {
    var cs := Candidatas(i, j);
    var back := Candidatas(q.0, q.1);
    if q == cs[0] {
      assert back[3] == (i, j);
    } else if q == cs[1] {
      assert back[2] == (i, j);
    } else if q == cs[2] {
      assert back[1] == (i, j);
    } else {
      assert back[0] == (i, j);
    }
  }

  /** Because a cell's coordinates are its position while lookups swap them, the differences of
      coordinates between neighbours are not unit steps off the diagonal, and the direction from
      one cell to a neighbour need not be the opposite of the direction back. In a 4 by 4 grid
      the cells at (0, 3) and (3, 1) are neighbours of each other and each sees the other to the
      south. */
  lemma DireccionesAsimetricas()
    ensures (3, 1) in Vecinas(4, 4, 0, 3) && (0, 3) in Vecinas(4, 4, 3, 1)
    ensures PuntoCardinalDe(3 - 0, 1 - 3) == SUR && PuntoCardinalDe(0 - 3, 3 - 1) == SUR
    ensures PuntoCardinalDe(0 - 3, 3 - 1) != Opuesto(PuntoCardinalDe(3 - 0, 1 - 3))
  {
    assert Candidatas(0, 3)[0] == (3, 1);
    assert Candidatas(3, 1)[3] == (0, 3);
  }

  /** On the diagonal the coordinate differences to every neighbour are unit steps, so there
      the direction back is always the opposite one. */
  lemma {:induction false} DiagonalUnitaria(alto: int, ancho: int, i: int, q: (int, int))
    requires q in Vecinas(alto, ancho, i, i)
    ensures PuntoCardinalDe(i - q.0, i - q.1) == Opuesto(PuntoCardinalDe(q.0 - i, q.1 - i))
  {
    var cs := Candidatas(i, i);
    assert q in cs;
    PuntoCardinalUnitario(q.0 - i, q.1 - i);
  }
}
