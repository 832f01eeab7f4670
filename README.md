# laberinto — a Dafny model of maze generation and its container library

This project models the core of *laberinto*, a Java program that carves a maze out of a
rectangular grid by a randomized depth-first search (the "recursive backtracker"), and the
small container library that the search runs on.

- `Casilla` (module `Laberintos`): a cell with four passage flags (`norte`, `sur`, `este`,
  `oeste`), a visited mark and coordinates. It enumerates its neighbours through the maze,
  computes the direction towards another cell, opens a passage pair with `visitar(casilla)`,
  and draws a random unvisited (or unvisited and passable) neighbour, falling back to the
  sentinel cell at `(-1, -1)`.
- `Laberinto` (module `Laberintos`): an `alto × ancho` array of cells. It builds the grid,
  picks a random start, pushes it on a `Pila` and loops: pop the top when all its neighbours
  are visited, otherwise visit a random unvisited neighbour and push it.
- `Lista` (module `Listas`, with the pure specification functions in `ListaSpec`): a doubly
  linked list with append, prepend, removal, search, indexed access, reversal, copy, equality
  and merge sort.
- `Pila` (`Pilas`) and `Cola` (`Colas`): a linked stack and a linked queue.
- `Coleccionable` (`Coleccionables`): the collection contract both follow.
- `Cuadricula`: the pure arithmetic of the grid — directions, flags, candidate neighbour
  coordinates and the bounds filter.
- `Errores`: `Option`, `Result`, `Outcome` and the Java exceptions the code throws.

The model keeps the program's own behaviour, including its quirks:

- Cells are built with `x = i, y = j` for row `i` and column `j`, but `obtenerCasilla(x, y)`
  returns the cell at row `y`, column `x`. The neighbours of cell `(i, j)` are therefore the
  cells stored at `(j, i ± 1)` and `(j ± 1, i)`. The neighbour relation is still symmetric and
  irreflexive (`Laberintos.Laberinto.VecinosSimetricos`, `Laberintos.Laberinto.NoEsVecina`).
  But the direction two neighbours compute towards each other is not always opposite
  (`Cuadricula.DireccionesAsimetricas`); it is on the diagonal (`Cuadricula.DiagonalUnitaria`).
- The start cell is pushed without being marked visited, and no visited mark is reset after
  the generation.
- `Pila.elimina(x)` pops the top whatever `x` is. The copy constructor `Pila(Pila)` reverses
  the order. `Lista.eliminar` empties a list of length 1 whatever the argument.
- `Lista.eliminar` on a longer list without the element dereferences null; the model returns
  `Fail(NullPointerException)` and leaves the list unchanged.
- `obtenerVecinoSinVisitar` on a cell without neighbours calls `nextInt(0)`, which throws
  `IllegalArgumentException`; the model returns that error.

What is proved about the generation: it terminates (the measure is the number of unvisited
cells, then the stack height). Every push after the first visits a cell that was not
visited, so there are at most `alto · ancho` of them. Visited marks and passage flags only
go from false to true. While it runs, every stacked cell except the bottom one (the start)
is visited. At the end the start and every cell visited by it have all their neighbours
visited. Hence every cell reachable from the start, other than the start itself, is visited
(`Laberintos.Laberinto.AlcanzablesVisitadas`). The start is visited too as soon as it has a
neighbour, although it is pushed unmarked: that neighbour is closed, so the start is re-entered
(`Laberintos.Laberinto.InicioReentrado`).

Which walls open is stated through a ghost log of the passages the generation opens, one pair
`(cell, neighbour)` per `visitar` call. Each pair joins a cell to one of its neighbours. Its
first cell is the start or a cell reached by an earlier pair. No cell is reached twice, and
the cells reached are exactly the newly visited ones. Every cell's flags at the end are its
flags before with the log's passages opened in order (`Laberintos.PasosTras`), and every
logged passage is open from both sides.

Randomness (`java.util.Random`) is modelled as nondeterministic choice (`:|`). The cell's
back-reference to its maze is the parameter `lab` of the cell operations that look
neighbours up. Java `null` arguments are `Option.None`; exceptions are `Err`/`Fail` results.

## Model

| member | source | states |
|---|---|---|
| Cuadricula.Opuesto | src/main/java/mx/unam/fciencias/edd/laberinto/Casilla.java:234-245 | the flag raised on the visited cell is a different direction from the one raised on the visiting cell |
| Cuadricula.OpuestoInvolutivo | src/main/java/mx/unam/fciencias/edd/laberinto/Casilla.java:234-245 | the pairing NORTE↔SUR, ESTE↔OESTE is its own inverse |
| Cuadricula.PuntoCardinalDe | src/main/java/mx/unam/fciencias/edd/laberinto/Casilla.java:258-268 | ESTE exactly when dx = 1, OESTE exactly when dx = -1, NORTE exactly when dx is neither and dy = 1, SUR in every other case |
| Cuadricula.PuntoCardinalUnitario | src/main/java/mx/unam/fciencias/edd/laberinto/Casilla.java:258-268 | for a unit step the reverse step gets the opposite direction |
| Cuadricula.Abrir | src/main/java/mx/unam/fciencias/edd/laberinto/Casilla.java:234-245 | opening a direction raises that flag and leaves the other three as they were |
| Cuadricula.AbrirMonotono | src/main/java/mx/unam/fciencias/edd/laberinto/Casilla.java:234-245 | opening a passage never closes a flag |
| Cuadricula.AbiertasTransitiva | src/main/java/mx/unam/fciencias/edd/laberinto/Laberinto.java:44-54 | flags that stay raised over two stretches of the generation stay raised over both |
| Cuadricula.Filtrar | src/main/java/mx/unam/fciencias/edd/laberinto/Casilla.java:188-197 | the kept coordinates are exactly the candidates that `obtenerCasilla` accepts (x < ancho, y < alto), no more of them than candidates |
| Cuadricula.Vecinas | src/main/java/mx/unam/fciencias/edd/laberinto/Casilla.java:183-200 | at most four neighbour positions, all inside the array; a position is among them exactly when it is a candidate that the lookup accepts |
| Cuadricula.NoEsVecinaDeSiMisma | src/main/java/mx/unam/fciencias/edd/laberinto/Casilla.java:187 | a cell's position is never among its own neighbour positions |
| Cuadricula.VecindadSimetrica | src/main/java/mx/unam/fciencias/edd/laberinto/Casilla.java:187 | if position q is a neighbour of (i, j), then (i, j) is a neighbour of q, despite the swapped lookup |
| Cuadricula.CandidataSimetrica | src/main/java/mx/unam/fciencias/edd/laberinto/Casilla.java:187 | each candidate position of (i, j) has (i, j) among its own candidates |
| Cuadricula.DireccionesAsimetricas | src/main/java/mx/unam/fciencias/edd/laberinto/Casilla.java:258-268 | on a 4 × 4 grid cells (0, 3) and (3, 1) are neighbours of each other and each sees the other to the SUR, so the flags `visitar` opens between them do not face each other |
| Cuadricula.DiagonalUnitaria | src/main/java/mx/unam/fciencias/edd/laberinto/Casilla.java:258-268 | for a cell on the diagonal the directions to and from each neighbour are opposite |
| Laberintos.Casilla.Centinela | src/main/java/mx/unam/fciencias/edd/laberinto/Casilla.java:59-62 | the sentinel has coordinates (-1, -1), every flag down and is not visited |
| Laberintos.Casilla.constructor | src/main/java/mx/unam/fciencias/edd/laberinto/Casilla.java:71-77 | a new cell has the given coordinates, every flag down and is not visited |
| Laberintos.Casilla.Equals | src/main/java/mx/unam/fciencias/edd/laberinto/Casilla.java:325-341 | equal exactly when the other cell is non-null with the same coordinates and the same four flags; the visited mark is ignored |
| Laberintos.Casilla.ObtenerPuntoCardinal | src/main/java/mx/unam/fciencias/edd/laberinto/Casilla.java:258-268 | ESTE exactly when the other x is one more, OESTE exactly when it is one less, NORTE exactly when x differs otherwise and the other y is one more, SUR in every other case (non-adjacent cells included) |
| Laberintos.Casilla.HayPaso | src/main/java/mx/unam/fciencias/edd/laberinto/Casilla.java:159-175 | reads the flag of the direction `obtenerPuntoCardinal` gives towards the neighbour; since that direction need not be the opposite of the one back (`Cuadricula.DireccionesAsimetricas`), `a.hayPaso(b)` and `b.hayPaso(a)` can read flags that `visitar` did not raise as a pair |
| Laberintos.Casilla.Visitar | src/main/java/mx/unam/fciencias/edd/laberinto/Casilla.java:214-216 | the cell becomes visited and its flags are unchanged |
| Laberintos.Casilla.DesmarcarVisitada | src/main/java/mx/unam/fciencias/edd/laberinto/Casilla.java:221-223 | the cell becomes unvisited and its flags are unchanged |
| Laberintos.Casilla.ObtenerVecinos | src/main/java/mx/unam/fciencias/edd/laberinto/Casilla.java:183-200 | a new list holding the cells the maze returns for the four candidate coordinates, in candidate order, skipping rejected ones |
| Laberintos.Casilla.AgregarSiExiste | src/main/java/mx/unam/fciencias/edd/laberinto/Casilla.java:189-197 | one turn of the loop: the list grows by the cell of the i-th candidate exactly when the lookup accepts it |
| Laberintos.Casilla.NoHayVecinosSinVisitar | src/main/java/mx/unam/fciencias/edd/laberinto/Casilla.java:84-94 | true exactly when every neighbour is visited |
| Laberintos.Casilla.NingunaSinVisitar | src/main/java/mx/unam/fciencias/edd/laberinto/Casilla.java:87-92 | the loop with early exit returns true exactly when every element is visited |
| Laberintos.Casilla.NoHayVecinosSinVisitarConPaso | src/main/java/mx/unam/fciencias/edd/laberinto/Casilla.java:101-111 | true exactly when no neighbour is both unvisited and behind a raised flag |
| Laberintos.Casilla.NingunaDisponible | src/main/java/mx/unam/fciencias/edd/laberinto/Casilla.java:104-109 | the loop with early exit returns true exactly when no element is both unvisited and passable |
| Laberintos.Casilla.ObtenerVecinoSinVisitar | src/main/java/mx/unam/fciencias/edd/laberinto/Casilla.java:120-135 | no neighbours: IllegalArgumentException; some unvisited neighbour: one of them; otherwise the new sentinel at (-1, -1) |
| Laberintos.Casilla.SortearSinVisitar | src/main/java/mx/unam/fciencias/edd/laberinto/Casilla.java:122-134 | the do-while over random positions terminates (the list shrinks on every miss) and returns an unvisited element when one exists, else the sentinel |
| Laberintos.Casilla.ObtenerVecinoDisponible | src/main/java/mx/unam/fciencias/edd/laberinto/Casilla.java:142-157 | as `ObtenerVecinoSinVisitar`, for neighbours that are unvisited and passable |
| Laberintos.Casilla.SortearDisponible | src/main/java/mx/unam/fciencias/edd/laberinto/Casilla.java:144-156 | the draws terminate and return an unvisited passable element when one exists, else the sentinel |
| Laberintos.Casilla.VisitarCasilla | src/main/java/mx/unam/fciencias/edd/laberinto/Casilla.java:230-250 | for an unvisited neighbour: this cell's flag towards it and its flag in the opposite direction are raised, it becomes visited, nothing else changes and `hayPaso` towards it now holds; otherwise both cells are unchanged |
| Laberintos.Casilla.AbrirHacia | src/main/java/mx/unam/fciencias/edd/laberinto/Casilla.java:234-245 | one arm of the switch: exactly the flag of the given direction is raised |
| Laberintos.Descartar | src/main/java/mx/unam/fciencias/edd/laberinto/Casilla.java:131 | removing a drawn element shortens the candidate list by one and keeps every other candidate |
| Laberintos.Laberinto.constructor | src/main/java/mx/unam/fciencias/edd/laberinto/Laberinto.java:30-35 | an `alto × ancho` grid of `alto · ancho` cells carved from some start with some log of passages (`Tallado`): the start and every visited cell have all neighbours visited; each visited cell was reached once, from the start or a cell reached before, through a neighbour; every flag is down except those the logged passages raise, and each logged passage is open from both sides |
| Laberintos.Laberinto.GenerarCasillas | src/main/java/mx/unam/fciencias/edd/laberinto/Laberinto.java:73-81 | a fresh array of `alto · ancho` fresh, closed, unvisited cells, the one at [i][j] with coordinates x = i, y = j |
| Laberintos.Laberinto.GenerarFila | src/main/java/mx/unam/fciencias/edd/laberinto/Laberinto.java:76-78 | the inner loop fills row i with fresh cells (i, j) and leaves the other rows alone |
| Laberintos.Laberinto.FormaFila | src/main/java/mx/unam/fciencias/edd/laberinto/Laberinto.java:73-81 | adding a fully built row i of fresh cells (i, j) to a grid of i rows keeps the grid shape, now with i + 1 rows |
| Laberintos.Laberinto.ObtenerCasilla | src/main/java/mx/unam/fciencias/edd/laberinto/Laberinto.java:90-98 | IllegalArgumentException exactly when x or y is out of range; otherwise the cell stored at [y][x], whose own coordinates are (y, x) |
| Laberintos.Laberinto.ObtenerCasillaAlAzar | src/main/java/mx/unam/fciencias/edd/laberinto/Laberinto.java:61-66 | on a non-empty grid, a cell of the grid |
| Laberintos.Laberinto.CasillasEn | src/main/java/mx/unam/fciencias/edd/laberinto/Casilla.java:188-197 | the cells at the given positions, in order, all of the grid |
| Laberintos.Laberinto.NoEsVecina | src/main/java/mx/unam/fciencias/edd/laberinto/Casilla.java:183-200 | no cell is its own neighbour |
| Laberintos.Laberinto.VecinosSimetricos | src/main/java/mx/unam/fciencias/edd/laberinto/Casilla.java:183-200 | if b is among the neighbours of a, then a is among the neighbours of b |
| Laberintos.Laberinto.EqualsEsIdentidad | src/main/java/mx/unam/fciencias/edd/laberinto/Casilla.java:325-341 | on the cells of one grid `equals` coincides with identity |
| Laberintos.Laberinto.HayPasoDeVuelta | src/main/java/mx/unam/fciencias/edd/laberinto/Casilla.java:159-175 | for a cell on the diagonal, `v.hayPaso(a)` from a neighbour v reads exactly the flag that `a.visitar(v)` raises in v |
| Laberintos.Laberinto.AlcanzablesVisitadas | src/main/java/mx/unam/fciencias/edd/laberinto/Laberinto.java:40-54 | after the generation every cell on a path of neighbours from the start, except the start itself, is visited |
| Laberintos.Laberinto.InicioReentrado | src/main/java/mx/unam/fciencias/edd/laberinto/Laberinto.java:40-54 | after the generation, a start with a neighbour is visited and reached by the log, whose first passage leaves from it, and the log has as many passages as cells it spans, one more than a tree over them |
| Laberintos.Laberinto.AlcanzableVisitada | src/main/java/mx/unam/fciencias/edd/laberinto/Laberinto.java:40-54 | the k-th cell of such a path is visited, by induction on k |
| Laberintos.Laberinto.CerradaEnVisitadas | src/main/java/mx/unam/fciencias/edd/laberinto/Casilla.java:84-94 | "every neighbour is in the visited set" is the same as "every neighbour is visited" |
| Laberintos.Laberinto.EnProgresoInicial | src/main/java/mx/unam/fciencias/edd/laberinto/Laberinto.java:41-43 | pushing the start on an empty stack establishes the loop invariant |
| Laberintos.Laberinto.AvanzarConserva | src/main/java/mx/unam/fciencias/edd/laberinto/Laberinto.java:49-52 | visiting a neighbour and pushing it keeps the invariant: stacked cells above the start visited, and each generated cell stacked or closed |
| Laberintos.Laberinto.RetrocederConserva | src/main/java/mx/unam/fciencias/edd/laberinto/Laberinto.java:46-48 | popping a top cell whose neighbours are all visited keeps the invariant |
| Laberintos.Laberinto.TerminadoCerrado | src/main/java/mx/unam/fciencias/edd/laberinto/Laberinto.java:44 | with the stack empty, the start and every generated cell have all neighbours visited |
| Laberintos.Laberinto.MarcadasSonVisitadas | src/main/java/mx/unam/fciencias/edd/laberinto/Laberinto.java:44-54 | the ghost set the generation keeps is exactly the set of visited cells |
| Laberintos.Laberinto.GenerarLaberinto | src/main/java/mx/unam/fciencias/edd/laberinto/Laberinto.java:40-54 | terminates; visited cells only grow; it returns the start and the log of the passages it opened, one per newly visited cell (at most `alto · ancho`), each from the start or a cell reached before to a neighbour, no cell reached twice; every cell's flags end as its flags before with exactly the logged passages opened (`PasosTras`), each logged passage open from both sides; so raised flags stay raised and only the start and newly visited cells change; the start and every newly visited cell end closed |
| Laberintos.Laberinto.Recorrer | src/main/java/mx/unam/fciencias/edd/laberinto/Laberinto.java:44-53 | the while loop ends with the stack empty; it returns the visited cells and the log of the passages it opened, and the invariant holds at exit: each visited cell reached once, from the start or a cell reached before, and every flag as the log gives |
| Laberintos.Laberinto.Tallar | src/main/java/mx/unam/fciencias/edd/laberinto/Laberinto.java:33 | the generation on a new grid (every flag down, nothing visited) leaves the maze described by `Tallado`, as in the constructor row |
| Laberintos.Laberinto.Generado | src/main/java/mx/unam/fciencias/edd/laberinto/Laberinto.java:40-54 | from the log: no flag was lowered, a cell whose flags changed is the start or a newly visited cell, and every logged passage is open from both sides |
| Laberintos.PasosTrasMonotono | src/main/java/mx/unam/fciencias/edd/laberinto/Casilla.java:230-250 | opening the passages of a log never lowers a flag |
| Laberintos.PasosTrasAjena | src/main/java/mx/unam/fciencias/edd/laberinto/Casilla.java:230-250 | a cell in no pair of the log keeps its flags |
| Laberintos.PasosTrasAbre | src/main/java/mx/unam/fciencias/edd/laberinto/Casilla.java:230-250 | after opening the passages of a log, for its k-th pair (a, v) the flag of a towards v and the flag of v in the opposite direction are raised |
| Laberintos.PasosTrasSnoc | src/main/java/mx/unam/fciencias/edd/laberinto/Casilla.java:230-250 | opening one more passage (a, v) raises a's flag towards v, v's opposite flag, and leaves every other cell alone |
| Laberintos.SinRepetirCardinal | src/main/java/mx/unam/fciencias/edd/laberinto/Laberinto.java:49-51 | a log that reaches no cell twice has as many pairs as cells reached, which gives one passage per visited cell |
| Laberintos.DestinosSnoc | src/main/java/mx/unam/fciencias/edd/laberinto/Laberinto.java:49-51 | logging one more passage adds exactly its second cell to the cells reached |
| Laberintos.EnraizadaSnoc | src/main/java/mx/unam/fciencias/edd/laberinto/Laberinto.java:49-51 | a passage from the start or from a cell already reached keeps the log rooted at the start |
| Laberintos.SinRepetirSnoc | src/main/java/mx/unam/fciencias/edd/laberinto/Laberinto.java:49-51 | a passage to a cell not yet reached keeps the log free of repeated cells |
| Laberintos.Laberinto.Explorada | src/main/java/mx/unam/fciencias/edd/laberinto/Laberinto.java:46 | the loop test is true exactly when every neighbour of the top is visited, and building the neighbour list disturbs no cell and the stack |
| Laberintos.Laberinto.Iniciar | src/main/java/mx/unam/fciencias/edd/laberinto/Laberinto.java:41-43 | a new stack holding only a random cell of the grid, with an empty log; the loop invariant holds |
| Laberintos.Laberinto.Terminado | src/main/java/mx/unam/fciencias/edd/laberinto/Laberinto.java:44 | at loop exit the newly visited cells are at most all cells, and the start and each of them is closed |
| Laberintos.Laberinto.MenosPorVisitar | src/main/java/mx/unam/fciencias/edd/laberinto/Laberinto.java:50-51 | visiting a new cell decreases the number of unvisited cells and increases the newly visited by one |
| Laberintos.Laberinto.BitacoraConserva | src/main/java/mx/unam/fciencias/edd/laberinto/Laberinto.java:49-51 | logging the visit of an unvisited neighbour from the start or a cell already reached keeps the log invariant: pairs of neighbours, rooted at the start, no cell twice, the cells reached equal to the newly visited cells |
| Laberintos.Laberinto.VecindadesSnoc | src/main/java/mx/unam/fciencias/edd/laberinto/Laberinto.java:49-51 | a passage from a grid cell to one of its neighbours keeps every logged pair a pair of neighbours |
| Laberintos.Laberinto.Avance | src/main/java/mx/unam/fciencias/edd/laberinto/Laberinto.java:49-52 | the else branch keeps the loop invariant, visits exactly one new cell, logs exactly one passage and decreases the termination measure |
| Laberintos.Laberinto.Retroceder | src/main/java/mx/unam/fciencias/edd/laberinto/Laberinto.java:46-48 | the then branch keeps the loop invariant and shortens the stack |
| Laberintos.Laberinto.Adelantar | src/main/java/mx/unam/fciencias/edd/laberinto/Laberinto.java:49-51 | the neighbour drawn is an unvisited neighbour of the top, becomes the only newly visited cell and is pushed on top; the flags are those of the log extended by the passage from the top to it |
| Laberintos.Laberinto.Avanzar | src/main/java/mx/unam/fciencias/edd/laberinto/Laberinto.java:49-50 | `obtenerVecinoSinVisitar` then `visitar(vecino)`: an unvisited neighbour becomes visited and the flags are those of the log extended by the passage to it |
| Laberintos.Laberinto.AbrirPaso | src/main/java/mx/unam/fciencias/edd/laberinto/Laberinto.java:50 | `visitar(vecino)` inside the grid: the flag of the cell towards the neighbour and the neighbour's flag in the opposite direction are raised (nothing else of either), exactly the neighbour joins the visited cells, and the flags are those of the log extended by this passage |
| ListaSpec.PrimerIndice | src/main/java/mx/unam/fciencias/edd/util/Lista.java:222-231 | -1 exactly when the element is absent; otherwise an index holding it with no earlier occurrence |
| ListaSpec.PrimerIndiceUnico | src/main/java/mx/unam/fciencias/edd/util/Lista.java:222-231 | the first occurrence is the only index with that property |
| ListaSpec.SinPrimero | src/main/java/mx/unam/fciencias/edd/util/Lista.java:178-189 | removing the first occurrence: one element fewer, the multiset loses exactly that element, the prefix before it and the suffix after it are kept |
| ListaSpec.SinPrimeroConserva | src/main/java/mx/unam/fciencias/edd/util/Lista.java:178-189 | every other element survives the removal |
| ListaSpec.Invertida | src/main/java/mx/unam/fciencias/edd/util/Lista.java:269-275 | the reversed sequence: same length, position k holds the element at |s| - 1 - k |
| ListaSpec.InvertidaInvolutiva | src/main/java/mx/unam/fciencias/edd/util/Pila.java:107-111 | reversing twice gives back the sequence |
| ListaSpec.OrdenadaPares | src/main/java/mx/unam/fciencias/edd/util/Lista.java:336-350 | sorted as adjacent pairs implies every earlier element is at most every later one |
| ListaSpec.Mezcla | src/main/java/mx/unam/fciencias/edd/util/Lista.java:360-390 | the merge has the combined length |
| ListaSpec.MezclaPermutacion | src/main/java/mx/unam/fciencias/edd/util/Lista.java:360-390 | the merge is a permutation of the two inputs together |
| ListaSpec.MezclaOrdenada | src/main/java/mx/unam/fciencias/edd/util/Lista.java:360-390 | merging two sorted sequences gives a sorted sequence |
| ListaSpec.MezclaEstable | src/main/java/mx/unam/fciencias/edd/util/Lista.java:366-373 | with the first input sorted, the elements of each key come out with those of the first input before those of the second, each in its own order (ties go to the first list) |
| ListaSpec.OrdenadaPorMezcla | src/main/java/mx/unam/fciencias/edd/util/Lista.java:336-350 | merge sort keeps the length |
| ListaSpec.OrdenadaPorMezclaPermutacion | src/main/java/mx/unam/fciencias/edd/util/Lista.java:336-350 | merge sort returns a permutation of its input |
| ListaSpec.OrdenadaPorMezclaOrdenada | src/main/java/mx/unam/fciencias/edd/util/Lista.java:336-350 | merge sort returns a sorted sequence |
| ListaSpec.OrdenadaPorMezclaEstable | src/main/java/mx/unam/fciencias/edd/util/Lista.java:336-350 | merge sort is stable: the elements of each key keep their input order |
| Listas.Lista.constructor | src/main/java/mx/unam/fciencias/edd/util/Lista.java:71-72 | a new list is empty |
| Listas.Lista.EsVacia | src/main/java/mx/unam/fciencias/edd/util/Lista.java:80-83 | true exactly when there are no elements |
| Listas.Lista.Longitud | src/main/java/mx/unam/fciencias/edd/util/Lista.java:99-101 | the counter equals the number of elements |
| Listas.Lista.Vaciar | src/main/java/mx/unam/fciencias/edd/util/Lista.java:88-92 | the list becomes empty with counter 0 |
| Listas.Lista.Agregar | src/main/java/mx/unam/fciencias/edd/util/Lista.java:108-119 | contents s become s + [e] and the counter grows by one |
| Listas.Lista.AgregarAlInicio | src/main/java/mx/unam/fciencias/edd/util/Lista.java:126-136 | contents s become [e] + s and the counter grows by one |
| Listas.Lista.AgregarAlFinal | src/main/java/mx/unam/fciencias/edd/util/Lista.java:143-153 | contents s become s + [e] and the counter grows by one |
| Listas.Lista.Buscar | src/main/java/mx/unam/fciencias/edd/util/Lista.java:200-212 | null for a null or absent element; otherwise the node at the first index holding it |
| Listas.Lista.Contiene | src/main/java/mx/unam/fciencias/edd/util/Lista.java:162-164 | true exactly when the argument is non-null and present |
| Listas.Lista.Eliminar | src/main/java/mx/unam/fciencias/edd/util/Lista.java:171-192 | length 0 or 1: the list ends empty whatever the argument; longer and present: the first occurrence is removed, the rest kept in order; longer and absent or null: NullPointerException, nothing changed |
| Listas.Lista.DesenlazarCabeza | src/main/java/mx/unam/fciencias/edd/util/Lista.java:179-181 | unlinking the head drops the first element |
| Listas.Lista.DesenlazarCola | src/main/java/mx/unam/fciencias/edd/util/Lista.java:182-184 | unlinking the tail drops the last element |
| Listas.Lista.DesenlazarInterior | src/main/java/mx/unam/fciencias/edd/util/Lista.java:185-189 | unlinking an inner node drops exactly its element |
| Listas.Lista.IndiceDe | src/main/java/mx/unam/fciencias/edd/util/Lista.java:222-231 | the first index holding the element, or -1 when it is absent or null |
| Listas.Lista.GetElemento | src/main/java/mx/unam/fciencias/edd/util/Lista.java:241-262 | the element at i for 0 ≤ i < longitud, from whichever end the walk starts; IndexOutOfBoundsException otherwise |
| Listas.Lista.Iterar | src/main/java/mx/unam/fciencias/edd/util/Lista.java:39-68 | iteration yields the elements head to tail |
| Listas.Lista.Reversa | src/main/java/mx/unam/fciencias/edd/util/Lista.java:269-275 | a new list with the reversed contents; the receiver is unchanged |
| Listas.Lista.Copia | src/main/java/mx/unam/fciencias/edd/util/Lista.java:282-288 | a new list with the same contents; the receiver is unchanged |
| Listas.Lista.Equals | src/main/java/mx/unam/fciencias/edd/util/Lista.java:298-316 | true exactly when the other list is non-null with the same elements in the same order |
| Listas.Merge | src/main/java/mx/unam/fciencias/edd/util/Lista.java:360-390 | a new list holding the merge of the two lists |
| Listas.MezclarCabezas | src/main/java/mx/unam/fciencias/edd/util/Lista.java:366-374 | the first loop stops when one list is exhausted, with the output so far followed by the merge of the rests equal to the whole merge |
| Listas.CopiarMenor | src/main/java/mx/unam/fciencias/edd/util/Lista.java:367-373 | one turn appends the smaller head (the first list's on ties) and advances past it |
| Listas.CopiarNodo | src/main/java/mx/unam/fciencias/edd/util/Lista.java:377-381 | one turn of a trailing loop appends the current element and advances |
| Listas.AgregarDesde | src/main/java/mx/unam/fciencias/edd/util/Lista.java:377-387 | the trailing loops append the rest of a list |
| Listas.Mergesort | src/main/java/mx/unam/fciencias/edd/util/Lista.java:336-350 | a list shorter than 2 is returned itself; otherwise a new list with the merge-sorted contents; in both cases the result is a permutation of the input, sorted by key |
| Listas.Partir | src/main/java/mx/unam/fciencias/edd/util/Lista.java:339-347 | the first half (longitud / 2 elements) goes to one new list and the rest to another, in order |
| Listas.Repartir | src/main/java/mx/unam/fciencias/edd/util/Lista.java:342-346 | one turn deals the current element to the half its position belongs to |
| Pilas.Pila.constructor | src/main/java/mx/unam/fciencias/edd/util/Pila.java:71-72 | a new stack is empty |
| Pilas.Pila.DeArreglo | src/main/java/mx/unam/fciencias/edd/util/Pila.java:81-85 | the array's first element ends at the bottom and its last on top |
| Pilas.Pila.Copia | src/main/java/mx/unam/fciencias/edd/util/Pila.java:107-111 | the "copy" holds the original's elements in reverse order |
| Pilas.Pila.Push | src/main/java/mx/unam/fciencias/edd/util/Pila.java:118-127 | null: IllegalArgumentException, nothing changed; otherwise the element is the new top over the old contents |
| Pilas.Pila.Pop | src/main/java/mx/unam/fciencias/edd/util/Pila.java:134-142 | empty: NoSuchElementException; otherwise returns the top and removes it |
| Pilas.Pila.Peek | src/main/java/mx/unam/fciencias/edd/util/Pila.java:149-154 | the top, or null when empty |
| Pilas.Pila.Agrega | src/main/java/mx/unam/fciencias/edd/util/Pila.java:163-165 | as `push` |
| Pilas.Pila.Elimina | src/main/java/mx/unam/fciencias/edd/util/Pila.java:191-193 | pops the top whatever the argument; empty: NoSuchElementException |
| Pilas.Pila.Contiene | src/main/java/mx/unam/fciencias/edd/util/Pila.java:176-183 | true exactly when the argument is non-null and present |
| Pilas.Pila.EsVacio | src/main/java/mx/unam/fciencias/edd/util/Pila.java:202-204 | true exactly when there are no elements |
| Pilas.Pila.GetTamanio | src/main/java/mx/unam/fciencias/edd/util/Pila.java:212-214 | the number of elements, 0 exactly when empty |
| Pilas.Pila.Iterar | src/main/java/mx/unam/fciencias/edd/util/Pila.java:37-64 | iteration runs from the top down |
| Pilas.PushPop | src/main/java/mx/unam/fciencias/edd/util/Pila.java:118-142 | push then pop returns the pushed element and restores the contents |
| Pilas.CopiaDoble | src/main/java/mx/unam/fciencias/edd/util/Pila.java:107-111 | copying twice restores the original order |
| Colas.Cola.constructor | src/main/java/mx/unam/fciencias/edd/util/Cola.java:77-80 | a new queue is empty |
| Colas.Cola.DeArreglo | src/main/java/mx/unam/fciencias/edd/util/Cola.java:87-91 | the queue holds the array's elements front to rear in array order |
| Colas.Cola.Queue | src/main/java/mx/unam/fciencias/edd/util/Cola.java:111-123 | null: IllegalArgumentException, nothing changed; otherwise appended at the rear |
| Colas.Cola.Dequeue | src/main/java/mx/unam/fciencias/edd/util/Cola.java:130-142 | empty: NoSuchElementException; otherwise returns and removes the front; removing the last empties both ends |
| Colas.Cola.Peek | src/main/java/mx/unam/fciencias/edd/util/Cola.java:149-154 | the front, or null when empty |
| Colas.Cola.Agrega | src/main/java/mx/unam/fciencias/edd/util/Cola.java:164-166 | as `queue` |
| Colas.Cola.Elimina | src/main/java/mx/unam/fciencias/edd/util/Cola.java:190-192 | dequeues the front whatever the argument; empty: NoSuchElementException |
| Colas.Cola.Contiene | src/main/java/mx/unam/fciencias/edd/util/Cola.java:177-182 | true exactly when the argument is non-null and present |
| Colas.Cola.EsVacio | src/main/java/mx/unam/fciencias/edd/util/Cola.java:201-203 | true exactly when there are no elements |
| Colas.Cola.GetTamanio | src/main/java/mx/unam/fciencias/edd/util/Cola.java:211-213 | the number of elements, 0 exactly when empty |
| Colas.Cola.Iterar | src/main/java/mx/unam/fciencias/edd/util/Cola.java:38-64 | iteration runs from front to rear |
| Colas.OrdenFifo | src/main/java/mx/unam/fciencias/edd/util/Cola.java:111-142 | elements come out in the order they were queued |
| Coleccionables.Agrega | src/main/java/mx/unam/fciencias/edd/util/Coleccionable.java:18-24 | null: IllegalArgumentException, nothing changed; otherwise the element is added to the multiset of elements, on top of a stack (first in iteration order) and at the rear of a queue (last) |
| Coleccionables.Elimina | src/main/java/mx/unam/fciencias/edd/util/Coleccionable.java:26-31 | empty: NoSuchElementException; otherwise the first element in iteration order is removed |
| Coleccionables.Contiene | src/main/java/mx/unam/fciencias/edd/util/Coleccionable.java:33-40 | true exactly when the argument is non-null and in the collection |
| Coleccionables.EsVacio | src/main/java/mx/unam/fciencias/edd/util/Coleccionable.java:42-47 | true exactly when there are no elements |
| Coleccionables.GetTamanio | src/main/java/mx/unam/fciencias/edd/util/Coleccionable.java:49-53 | the number of elements |
| Coleccionables.Iterar | src/main/java/mx/unam/fciencias/edd/util/Coleccionable.java:16 | iteration yields the elements in the collection's order |
| Coleccionables.PilaDeColeccion | src/main/java/mx/unam/fciencias/edd/util/Pila.java:95-99 | the stack built from a collection holds its elements in reverse iteration order |
| Coleccionables.ColaDeColeccion | src/main/java/mx/unam/fciencias/edd/util/Cola.java:99-103 | the queue built from a collection holds its elements in iteration order |

## Left out

- `LaberintoController.java` (HTTP endpoints, JSON, directories, the size check), `LaberintoImage.java` (rendering and image files) and `app.js` (the web page) are not part of this model: they are I/O around the core.
- `obtenerCamino`, which the controller calls, is not defined in the source shown and is not part of this model; its helpers `hayPaso`, `noHayVecinosSinVisitarConPaso`, `obtenerVecinoDisponible` and `desmarcarVisitada` are modelled.
- The `Listable` interface that `Lista` implements is not part of this model.
- `java.util.Random`: each draw is a nondeterministic choice in range; nothing is said about the distribution.
- `toString`, serialization, the iterators' `remove` stubs and the getters and setters of `Casilla` are left out; the fields are read directly.
- `Coleccionable` is a Java interface; here it is a datatype with one case per implementation (`Pila`, `Cola`) whose operations dispatch to the implementation and carry the interface's contract. A third implementation would need a new case.
- Java `int` is modelled as an unbounded integer: the counters (`longitud`, `elementos`) and coordinates never wrap around. A list or grid of more than 2^31 - 1 elements is outside the model.
- The `Casilla` constructor's `laberinto` argument is not stored; the maze is passed to the operations that use it as the parameter `lab`.
- Listas.Mergesort: elements are compared through an integer key function `clave` instead of `Comparable.compareTo`, so only orders given by a key are covered.
- Listas.Lista.Equals: elements are compared with Dafny equality (`==`, identity for objects) instead of each element's `equals` (Lista.java:298-316).
- Listas.Lista.Buscar: finds an element by `==` where the source calls `equals` (Lista.java:206).
- Listas.Lista.IndiceDe: finds an element by `==` where the source calls `equals` (Lista.java:225).
- Listas.Lista.Contiene: uses `Buscar`, so `==` instead of `equals` (Lista.java:163).
- Listas.Lista.Eliminar: locates the node with `Buscar`, so `==` instead of `equals` (Lista.java:178).
- Pilas.Pila.Contiene: `==` instead of `equals` (Pila.java:178).
- Colas.Cola.Contiene: `==` instead of `equals` (Cola.java:179).
- Coleccionables.Contiene: dispatches to the two above, so `==` instead of `equals`.
- Laberintos.Descartar: removes the drawn cell with `Lista.Eliminar`, so by `==` instead of `equals` (Casilla.java:131).
- Laberintos.Casilla.VisitarCasilla: tests membership in the neighbour list by `==` instead of `equals` (Casilla.java:232).
- The members above agree with the source whenever the elements compared are cells of one grid, the only elements the core puts in these containers: on them `equals` is identity (`Laberintos.Laberinto.EqualsEsIdentidad`, since cells of one grid differ in their coordinates). They differ for a distinct cell that `equals` a cell of the grid, such as a copy with the same coordinates and flags built outside the grid: the model's `visitar` with such a cell changes nothing, while the source finds it among the neighbours and raises the flags.
- Laberintos.Laberinto.constructor: it states the passage log (one passage per visited cell, each from the start or a cell reached before) and the exact flags, but not that the result is a perfect maze. The passages span the start and the visited cells, and the start, pushed unmarked, is re-entered whenever it has a neighbour (`Laberintos.Laberinto.InicioReentrado`), so the log holds one passage more than a tree over those cells: either it opens the same wall twice (the first neighbour draws the start back) or its passages close a cycle, and then two cells are joined by more than one path. Read through `hayPaso` it is weaker still: off the diagonal the directions between neighbours need not be opposite, so a passage raised as a pair need not read as open from both sides.
