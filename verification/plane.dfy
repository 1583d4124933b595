/** The grid plane (plane.c): an `n` by `n` floor of square tiles drawn as
    outlines. Every grid point `(i, j)`, `0 <= i, j <= n`, gets a small square
    "tile" of four vertices; the line list draws the tiles and the strips
    joining neighbouring tiles, and the fill list draws the squares between
    four tiles.

    The vertex corners form a lattice of `(2n+2) x (2n+2)` points: corner `k`
    of tile `(i, j)` sits at lattice column `2j + k%2` and lattice row
    `2i + k/2`. Every rectangle either list draws is one cell of this lattice.

    Element indices are `GLushort`: every index is reduced modulo 2^16, and
    only a plane with at most 2^16 vertices is addressed correctly. */
module Plane {
  import opened CInt
  import opened Wrappers

  /** A vertex: position and normal. */
  datatype Vert = Vert(x: real, y: real, z: real, nx: real, ny: real, nz: real)

  /** `add_vert`: append a vertex at `(x, 0, z)` with the normal pointing up. */
  function AddVert(w: seq<Vert>, x: real, z: real): (r: seq<Vert>)
    ensures |r| == |w| + 1 && r[..|w|] == w
    ensures r[|w|].x == x && r[|w|].z == z
    ensures r[|w|].y == 0.0 && r[|w|].nx == 0.0 && r[|w|].ny == 1.0 && r[|w|].nz == 0.0
  {
    w + [Vert(x, 0.0, z, 0.0, 1.0, 0.0)]
  }

  /** `add_rect`: append the two triangles `(i0, i2, i1)` and `(i3, i1, i2)`
      of the rectangle with corners `i0, i1` along one edge and `i2, i3`
      along the opposite one. */
  function AddRect(e: seq<int>, i0: int, i1: int, i2: int, i3: int): (r: seq<int>)
    ensures |r| == |e| + 6 && r[..|e|] == e
    ensures RectAt(r, |e|, i0, i1, i2, i3)
  {
    e + [i0, i2, i1, i3, i1, i2]
  }

  /** The six elements from position `at` are the rectangle `i0, i1, i2, i3`
      as `add_rect` writes it. */
  predicate RectAt(e: seq<int>, at: nat, i0: int, i1: int, i2: int, i3: int) {
    at + 6 <= |e| &&
    e[at] == i0 && e[at + 1] == i2 && e[at + 2] == i1 &&
    e[at + 3] == i3 && e[at + 4] == i1 && e[at + 5] == i2
  }

  /** The two triangles of a stored rectangle cover its four corners and
      share the diagonal `i1`-`i2`, traversed in opposite directions. */
  lemma RectTriangles(e: seq<int>, at: nat, i0: int, i1: int, i2: int, i3: int)
    requires RectAt(e, at, i0, i1, i2, i3)
    ensures {e[at], e[at + 1], e[at + 2]} + {e[at + 3], e[at + 4], e[at + 5]} == {i0, i1, i2, i3}
    ensures e[at + 1] == e[at + 5] && e[at + 2] == e[at + 4]
  {
  }

  /** `GLushort`: the low 16 bits of an `int`. */
  function UShort(x: int): (r: int)
    ensures 0 <= r < 0x10000
    ensures 0 <= x < 0x10000 ==> r == x
  {
    x % 0x10000
  }

  /** The loop counters `i` and `j` of `init_verts` and `init_elems` as
      written: `GLushort`s started at 0 and stepped by `++`, which wraps
      65535 to 0. `Counter(k)` is the value after `k` steps. */
  function Counter(k: nat): (r: int)
    ensures 0 <= r < 0x10000
  {
    if k == 0 then 0 else UShort(Counter(k - 1) + 1)
  }

  /** After `k` steps a `GLushort` counter holds `k` modulo 2^16. */
  lemma {:induction false} CounterValue(k: nat)
    ensures Counter(k) == k % 0x10000
  {
    if k > 0 {
      CounterValue(k - 1);
      var m := 0x10000;
      var q := (k - 1) / m;
      var r := (k - 1) % m;
      assert k - 1 == q * m + r;
      if r == m - 1 {
        DivUnique(k, m, q + 1);
      } else {
        DivUnique(k, m, q);
      }
    }
  }

  /** For a plane size `n` below 65535 the guard `i <= n` holds for the
      first `n + 1` counter values and fails at the next: the loop runs
      `n + 1` times. */
  lemma CounterLoopEnds(n: nat)
    requires n < 0xFFFF
    ensures forall k: nat :: k <= n ==> Counter(k) == k
    ensures Counter(n + 1) == n + 1 > n
  {
    forall k: nat | k <= n + 1 ensures Counter(k) == k {
      CounterValue(k);
    }
  }

  /** For `n = 65535` the guard `i <= n` holds for every value a `GLushort`
      can take, and the step after 65535 gives 0 again: the loops of
      `init_verts` and `init_elems` as written never end. */
  lemma CounterLoopEndless(n: nat)
    requires n == 0xFFFF
    ensures forall k: nat :: Counter(k) <= n
    ensures Counter(0xFFFF) == n && Counter(0x10000) == 0
  {
    CounterValue(0xFFFF);
    CounterValue(0x10000);
  }

  /** `nv` of `init_verts`: four corners for each of the `(n+1)^2` grid
      points. */
  function VertCount(n: nat): nat {
    4 * (n + 1) * (n + 1)
  }

  /** `nf` of `init_elems` and `plane_render`: six indices for each of the
      `n^2` squares. */
  function FillCount(n: int): int {
    6 * n * n
  }

  /** `nl` of `init_elems` and `plane_render`. */
  function LineCount(n: int): int {
    6 * (n + 1) * (3 * n + 1)
  }

  /** The plane's indices fit in a `GLushort`. */
  predicate Fits(n: nat) {
    VertCount(n) <= 0x10000
  }

  /** Vertex number `v` belongs to grid point `v/4` in row-major order and is
      its corner `v%4`. */
  function Row(n: nat, v: int): int { (v / 4) / (n + 1) }
  function Col(n: nat, v: int): int { (v / 4) % (n + 1) }

  /** The lattice column and row of vertex `v`. */
  function LX(n: nat, v: int): int { 2 * Col(n, v) + v % 4 % 2 }
  function LZ(n: nat, v: int): int { 2 * Row(n, v) + v % 4 / 2 }

  /** Where `init_verts` puts corner `k` of grid point `(i, j)`: the plane is
      centred on the origin, and the corner is `g` away from the point along
      both axes. */
  function Corner(n: nat, g: real, i: int, j: int, k: int): Vert {
    var d := 0.5 * n as real;
    var x := j as real - d + (if k % 2 == 1 then g else -g);
    var z := i as real - d + (if k / 2 == 1 then g else -g);
    Vert(x, 0.0, z, 0.0, 1.0, 0.0)
  }

  /** Vertex number `v` of the plane. */
  function PlaneVert(n: nat, g: real, v: int): Vert {
    Corner(n, g, Row(n, v), Col(n, v), v % 4)
  }

  /** Corner `k` of grid point `(i, j)` is vertex `4((n+1)i + j) + k`, and its
      lattice position is `(2j + k%2, 2i + k/2)`. */
  lemma VertIndex(n: nat, i: int, j: int, k: int)
    requires 0 <= i <= n && 0 <= j <= n && 0 <= k < 4
    ensures var v := VertNo(n, i, j, k);
      0 <= v < VertCount(n) && v % 4 == k && Row(n, v) == i && Col(n, v) == j &&
      LX(n, v) == 2 * j + k % 2 && LZ(n, v) == 2 * i + k / 2
  {
    var t := (n + 1) * i + j;
    var v := 4 * t + k;
    DivUnique(v, 4, t);
    assert v % 4 == k;
    assert i * (n + 1) == t - j;
    DivUnique(t, n + 1, i);
    assert t % (n + 1) == j;
    assert (n + 1) * i <= (n + 1) * n by {
      assert (n + 1) * (n - i) >= 0;
    }
    assert VertCount(n) == 4 * ((n + 1) * n + n) + 4;
  }

  /** The lattice position of every vertex of the plane, by vertex number
      (`LatAt` reads it off). */
  function Lat(n: nat): (L: seq<(int, int)>)
    ensures |L| == VertCount(n)
  {
    LatFrom(n, 0)
  }

  function LatFrom(n: nat, v: nat): (L: seq<(int, int)>)
    requires v <= VertCount(n)
    ensures |L| == VertCount(n) - v
    decreases VertCount(n) - v
  {
    if v == VertCount(n) then [] else [(LX(n, v), LZ(n, v))] + LatFrom(n, v + 1)
  }

  /** Entry `v` of the lattice table is the lattice position of vertex `v`. */
  lemma LatAt(n: nat, v: int)
    requires 0 <= v < VertCount(n)
    ensures Lat(n)[v].0 == LX(n, v) && Lat(n)[v].1 == LZ(n, v)
  {
    LatFromAt(n, 0, v);
  }

  lemma {:induction false} LatFromAt(n: nat, v: nat, w: int)
    requires v <= w < VertCount(n)
    ensures LatFrom(n, v)[w - v] == (LX(n, w), LZ(n, w))
    decreases w - v
  {
    if v < w {
      LatFromAt(n, v + 1, w);
    }
  }

  /** Vertex number of corner `k` of grid point `(i, j)`. */
  function VertNo(n: nat, i: int, j: int, k: int): int {
    4 * ((n + 1) * i + j) + k
  }

  /** `L` is the lattice table of a plane of size `n`, read by grid corner:
      corner `k` of grid point `(i, j)` sits at `(2j + k%2, 2i + k/2)`. */
  ghost predicate IsLattice(n: nat, L: seq<(int, int)>) {
    |L| == VertCount(n) &&
    forall i, j, k :: 0 <= i <= n && 0 <= j <= n && 0 <= k < 4 ==>
      0 <= VertNo(n, i, j, k) < |L| &&
      L[VertNo(n, i, j, k)].0 == 2 * j + k % 2 && L[VertNo(n, i, j, k)].1 == 2 * i + k / 2
  }

  /** `Lat(n)` places corner `k` of grid point `(i, j)` as `IsLattice`
      says. */
  lemma LatCorner(n: nat, i: int, j: int, k: int)
    requires 0 <= i <= n && 0 <= j <= n && 0 <= k < 4
    ensures 0 <= VertNo(n, i, j, k) < |Lat(n)|
    ensures Lat(n)[VertNo(n, i, j, k)].0 == 2 * j + k % 2 && Lat(n)[VertNo(n, i, j, k)].1 == 2 * i + k / 2
  {
    VertIndex(n, i, j, k);
    LatAt(n, VertNo(n, i, j, k));
  }

  /** `Lat(n)` is the lattice table. */
  lemma LatIsLattice(n: nat)
    ensures IsLattice(n, Lat(n))
  {
    forall i, j, k | 0 <= i <= n && 0 <= j <= n && 0 <= k < 4
      ensures 0 <= VertNo(n, i, j, k) < |Lat(n)|
      ensures Lat(n)[VertNo(n, i, j, k)].0 == 2 * j + k % 2 && Lat(n)[VertNo(n, i, j, k)].1 == 2 * i + k / 2
    {
      LatCorner(n, i, j, k);
    }
  }

  /** A lattice cell: `i0` and `i1` adjacent along a row, `i2` and `i3` the
      points one row up, all of them vertices of the lattice `L`. */
  predicate Cell(L: seq<(int, int)>, i0: int, i1: int, i2: int, i3: int) {
    0 <= i0 < |L| && 0 <= i1 < |L| && 0 <= i2 < |L| && 0 <= i3 < |L| &&
    L[i1].0 == L[i0].0 + 1 && L[i2].0 == L[i0].0 && L[i3].0 == L[i1].0 &&
    L[i1].1 == L[i0].1 && L[i2].1 == L[i0].1 + 1 && L[i3].1 == L[i2].1
  }

  /** The cells between four tiles have odd lattice column and row. */
  predicate IsGap(L: seq<(int, int)>, v: int)
    requires 0 <= v < |L|
  {
    L[v].0 % 2 == 1 && L[v].1 % 2 == 1
  }

  /** Six indices as `add_rect` writes them, describing a lattice cell; a gap
      cell exactly when `gap` holds. */
  predicate CellRect(L: seq<(int, int)>, rect: seq<int>, gap: bool)
    requires |rect| == 6
  {
    RectAt(rect, 0, rect[0], rect[2], rect[1], rect[3]) &&
    Cell(L, rect[0], rect[2], rect[1], rect[3]) && IsGap(L, rect[0]) == gap
  }

  /** Rectangle number `r` of element list `e`. */
  function RectNo(e: seq<int>, r: nat): (rect: seq<int>)
    requires 6 * r + 6 <= |e|
    ensures |rect| == 6 && forall k :: 0 <= k < 6 ==> rect[k] == e[6 * r + k]
  {
    e[6 * r .. 6 * r + 6]
  }

  /** Every rectangle of `e` is a lattice cell of the given kind. */
  ghost predicate Cells(L: seq<(int, int)>, e: seq<int>, gap: bool) {
    |e| % 6 == 0 && forall r: nat :: 6 * r + 6 <= |e| ==> CellRect(L, RectNo(e, r), gap)
  }

  /** Appending a cell of the right kind keeps a list of cells. */
  lemma AddCell(L: seq<(int, int)>, e: seq<int>, gap: bool, i0: int, i1: int, i2: int, i3: int)
    requires Cells(L, e, gap) && Cell(L, i0, i1, i2, i3) && IsGap(L, i0) == gap
    ensures Cells(L, AddRect(e, i0, i1, i2, i3), gap)
  {
    var e2 := AddRect(e, i0, i1, i2, i3);
    var m := |e| / 6;
    assert |e| == 6 * m;
    forall r: nat | 6 * r + 6 <= |e2| ensures CellRect(L, RectNo(e2, r), gap) {
      if r < m {
        assert RectNo(e2, r) == RectNo(e, r);
      } else {
        assert RectNo(e2, r) == [i0, i2, i1, i3, i1, i2];
      }
    }
  }

  /** `init_verts`: the corners of every grid point, row by row, or nothing
      when `malloc` fails (`mallocOk` is its outcome). Returns the count the
      buffer is sized for and the data uploaded. */
  method InitVerts(n: nat, g: real, mallocOk: bool) returns (nv: nat, data: Option<seq<Vert>>)
    requires n <= 0xFFFF
    ensures nv == VertCount(n)
    ensures data.Some? <==> mallocOk
    ensures data.Some? ==> |data.value| == nv
    ensures data.Some? ==> forall v :: 0 <= v < nv ==> data.value[v] == PlaneVert(n, g, v)
  {
    nv := VertCount(n);
    if !mallocOk {
      return nv, None;
    }
    var d := 0.5 * n as real;
    var w: seq<Vert> := [];
    var i := 0;
    while i <= n
      invariant 0 <= i <= n + 1
      invariant |w| == 4 * ((n + 1) * i)
      invariant forall v :: 0 <= v < |w| ==> w[v] == PlaneVert(n, g, v)
    {
      var j := 0;
      while j <= n
        invariant 0 <= j <= n + 1
        invariant |w| == 4 * ((n + 1) * i + j)
        invariant forall v :: 0 <= v < |w| ==> w[v] == PlaneVert(n, g, v)
      {
        ghost var base := |w|;
        w := AddVert(w, j as real - d - g, i as real - d - g);
        w := AddVert(w, j as real - d + g, i as real - d - g);
        w := AddVert(w, j as real - d - g, i as real - d + g);
        w := AddVert(w, j as real - d + g, i as real - d + g);
        forall v | base <= v < base + 4 ensures w[v] == PlaneVert(n, g, v) {
          VertIndex(n, i, j, v - base);
        }
        j := j + 1;
      }
      assert (n + 1) * i + (n + 1) == (n + 1) * (i + 1);
      i := i + 1;
    }
    data := Some(w);
  }

  /** The rectangles a plane of size `n` has drawn into the fill list
      (`FillsBefore`) and the line list (`LinesBefore`) when the loops of
      `init_elems` reach grid point `(i, j)`. */
  function FillsBefore(n: nat, i: nat, j: nat): int {
    n * (if i < n then i else n) + (if i < n then (if j < n then j else n) else 0)
  }

  function LinesBefore(n: nat, i: nat, j: nat): int {
    (3 * n + 2) * i - (if i > n then n + 1 else 0) +
    j + (if j < n then j else n) + (if i < n then j else 0)
  }

  /** The element index `GLushort a = 4 * ((n + 1) * i + j)` names, plus
      `off`, as `add_rect` receives it. */
  function Elem(n: nat, i: nat, j: nat, off: int): int {
    UShort(UShort(4 * ((n + 1) * i + j)) + off)
  }

  /** In a plane that fits, `Elem` is exact: offset `k < 4` from `a` is
      corner `k` of grid point `(i, j)`. */
  lemma ElemIsCorner(n: nat, i: nat, j: nat, k: int)
    requires Fits(n) && i <= n && j <= n && 0 <= k < 4
    ensures Elem(n, i, j, k) == VertNo(n, i, j, k)
  {
    VertIndex(n, i, j, k);
    VertIndex(n, i, j, 0);
  }

  /** Offsets 4 and 6 from `a` are corners 0 and 2 of the next grid point
      along the row. */
  lemma ElemIsNext(n: nat, i: nat, j: nat, k: int)
    requires Fits(n) && i <= n && j < n && (k == 0 || k == 2)
    ensures Elem(n, i, j, 4 + k) == VertNo(n, i, j + 1, k)
  {
    VertIndex(n, i, j + 1, k);
    VertIndex(n, i, j, 0);
  }

  /** Four vertices at the corners of a unit square of the lattice form a
      cell; it is a gap cell when its lower-left corner `(2h + sx, 2w + sz)`
      has odd coordinates. */
  lemma CellFromCorners(L: seq<(int, int)>, i0: int, i1: int, i2: int, i3: int, h: int, sx: int, w: int, sz: int)
    requires 0 <= i0 < |L| && 0 <= i1 < |L| && 0 <= i2 < |L| && 0 <= i3 < |L|
    requires (sx == 0 || sx == 1) && (sz == 0 || sz == 1)
    requires var x := 2 * h + sx;
      L[i0].0 == x && L[i1].0 == x + 1 && L[i2].0 == x && L[i3].0 == x + 1
    requires var z := 2 * w + sz;
      L[i0].1 == z && L[i1].1 == z && L[i2].1 == z + 1 && L[i3].1 == z + 1
    ensures Cell(L, i0, i1, i2, i3)
    ensures IsGap(L, i0) <==> sx == 1 && sz == 1
  {
    Parity(L[i0].0, h, sx);
    Parity(L[i0].1, w, sz);
  }

  lemma Parity(x: int, h: int, s: int)
    requires x == 2 * h + s && (s == 0 || s == 1)
    ensures x % 2 == s
  {
  }

  /** The outline of tile `(i, j)`: its own four corners. */
  lemma TileIsCell(n: nat, L: seq<(int, int)>, i: nat, j: nat)
    requires IsLattice(n, L) && i <= n && j <= n
    ensures Cell(L, VertNo(n, i, j, 0), VertNo(n, i, j, 1), VertNo(n, i, j, 2), VertNo(n, i, j, 3))
    ensures !IsGap(L, VertNo(n, i, j, 0))
  {
    CellFromCorners(L, VertNo(n, i, j, 0), VertNo(n, i, j, 1), VertNo(n, i, j, 2), VertNo(n, i, j, 3), j, 0, i, 0);
  }

  /** The strip from tile `(i, j)` to the next one along the row: corners 1
      and 3 of the one, 0 and 2 of the other. */
  lemma RowStripIsCell(n: nat, L: seq<(int, int)>, i: nat, j: nat)
    requires IsLattice(n, L) && i <= n && j < n
    ensures Cell(L, VertNo(n, i, j, 1), VertNo(n, i, j + 1, 0), VertNo(n, i, j, 3), VertNo(n, i, j + 1, 2))
    ensures !IsGap(L, VertNo(n, i, j, 1))
  {
    CellFromCorners(L, VertNo(n, i, j, 1), VertNo(n, i, j + 1, 0), VertNo(n, i, j, 3), VertNo(n, i, j + 1, 2), j, 1, i, 0);
  }

  /** The strip from tile `(i, j)` to the next one up: corners 2 and 3 of
      the one, 0 and 1 of the other. */
  lemma ColumnStripIsCell(n: nat, L: seq<(int, int)>, i: nat, j: nat)
    requires IsLattice(n, L) && i < n && j <= n
    ensures Cell(L, VertNo(n, i, j, 2), VertNo(n, i, j, 3), VertNo(n, i + 1, j, 0), VertNo(n, i + 1, j, 1))
    ensures !IsGap(L, VertNo(n, i, j, 2))
  {
    CellFromCorners(L, VertNo(n, i, j, 2), VertNo(n, i, j, 3), VertNo(n, i + 1, j, 0), VertNo(n, i + 1, j, 1), j, 0, i, 1);
  }

  /** The square between tiles `(i, j)`, `(i, j+1)`, `(i+1, j)` and
      `(i+1, j+1)`: the corner of each that faces the other three. */
  lemma GapIsCell(n: nat, L: seq<(int, int)>, i: nat, j: nat)
    requires IsLattice(n, L) && i < n && j < n
    ensures Cell(L, VertNo(n, i, j, 3), VertNo(n, i, j + 1, 2), VertNo(n, i + 1, j, 1), VertNo(n, i + 1, j + 1, 0))
    ensures IsGap(L, VertNo(n, i, j, 3))
  {
    CellFromCorners(L, VertNo(n, i, j, 3), VertNo(n, i, j + 1, 2), VertNo(n, i + 1, j, 1), VertNo(n, i + 1, j + 1, 0), j, 1, i, 1);
  }

  /** `b = 4 * ((n + 1) * (i + 1) + j)` is `a` of the grid point one row
      up. */
  lemma RowAbove(n: nat, i: nat, j: nat, off: int)
    ensures UShort(UShort(4 * ((n + 1) * (i + 1) + j)) + off) == Elem(n, i + 1, j, off)
  {
  }

  /** Appending the rectangles `init_elems` writes for grid point `(i, j)`
      keeps each list a list of lattice cells of its kind. */
  lemma AddTile(n: nat, e: seq<int>, i: nat, j: nat)
    requires Fits(n) && i <= n && j <= n && Cells(Lat(n), e, false)
    ensures Cells(Lat(n), AddRect(e, Elem(n, i, j, 0), Elem(n, i, j, 1), Elem(n, i, j, 2), Elem(n, i, j, 3)), false)
  {
    LatIsLattice(n);
    TileIsCell(n, Lat(n), i, j);
    ElemIsCorner(n, i, j, 0); ElemIsCorner(n, i, j, 1); ElemIsCorner(n, i, j, 2); ElemIsCorner(n, i, j, 3);
    AddCell(Lat(n), e, false, Elem(n, i, j, 0), Elem(n, i, j, 1), Elem(n, i, j, 2), Elem(n, i, j, 3));
  }

  lemma AddRowStrip(n: nat, e: seq<int>, i: nat, j: nat)
    requires Fits(n) && i <= n && j < n && Cells(Lat(n), e, false)
    ensures Cells(Lat(n), AddRect(e, Elem(n, i, j, 1), Elem(n, i, j, 4), Elem(n, i, j, 3), Elem(n, i, j, 6)), false)
  {
    LatIsLattice(n);
    RowStripIsCell(n, Lat(n), i, j);
    ElemIsCorner(n, i, j, 1); ElemIsCorner(n, i, j, 3); ElemIsNext(n, i, j, 0); ElemIsNext(n, i, j, 2);
    AddCell(Lat(n), e, false, Elem(n, i, j, 1), Elem(n, i, j, 4), Elem(n, i, j, 3), Elem(n, i, j, 6));
  }

  lemma AddColumnStrip(n: nat, e: seq<int>, i: nat, j: nat)
    requires Fits(n) && i < n && j <= n && Cells(Lat(n), e, false)
    ensures Cells(Lat(n), AddRect(e, Elem(n, i, j, 2), Elem(n, i, j, 3), Elem(n, i + 1, j, 0), Elem(n, i + 1, j, 1)), false)
  {
    LatIsLattice(n);
    ColumnStripIsCell(n, Lat(n), i, j);
    ElemIsCorner(n, i, j, 2); ElemIsCorner(n, i, j, 3); ElemIsCorner(n, i + 1, j, 0); ElemIsCorner(n, i + 1, j, 1);
    AddCell(Lat(n), e, false, Elem(n, i, j, 2), Elem(n, i, j, 3), Elem(n, i + 1, j, 0), Elem(n, i + 1, j, 1));
  }

  lemma AddGap(n: nat, e: seq<int>, i: nat, j: nat)
    requires Fits(n) && i < n && j < n && Cells(Lat(n), e, true)
    ensures Cells(Lat(n), AddRect(e, Elem(n, i, j, 3), Elem(n, i, j, 6), Elem(n, i + 1, j, 1), Elem(n, i + 1, j, 4)), true)
  {
    LatIsLattice(n);
    GapIsCell(n, Lat(n), i, j);
    ElemIsCorner(n, i, j, 3); ElemIsNext(n, i, j, 2); ElemIsCorner(n, i + 1, j, 1); ElemIsNext(n, i + 1, j, 0);
    AddCell(Lat(n), e, true, Elem(n, i, j, 3), Elem(n, i, j, 6), Elem(n, i + 1, j, 1), Elem(n, i + 1, j, 4));
  }

  /** The body of the loops of `init_elems` for grid point `(i, j)`: the tile
      outline, the strip to the next tile along the row, the strip to the next
      tile up, and the gap square between four tiles. */
  method AddCells(n: nat, i: nat, j: nat, p: seq<int>, q: seq<int>) returns (p2: seq<int>, q2: seq<int>)
    requires i <= n && j <= n && n <= 0xFFFF
    ensures |p2| == |p| + (if i < n && j < n then 6 else 0)
    ensures |q2| == |q| + 6 + (if j < n then 6 else 0) + (if i < n then 6 else 0)
    ensures Fits(n) && Cells(Lat(n), p, true) ==> Cells(Lat(n), p2, true)
    ensures Fits(n) && Cells(Lat(n), q, false) ==> Cells(Lat(n), q2, false)
  {
    var a := UShort(4 * ((n + 1) * i + j));
    var b := UShort(4 * ((n + 1) * (i + 1) + j));
    RowAbove(n, i, j, 0);
    RowAbove(n, i, j, 1);
    RowAbove(n, i, j, 4);
    var good := Fits(n) && Cells(Lat(n), q, false);
    q2 := AddRect(q, UShort(a + 0), UShort(a + 1), UShort(a + 2), UShort(a + 3));
    if good {
      AddTile(n, q, i, j);
    }
    if j < n {
      var q1 := q2;
      q2 := AddRect(q1, UShort(a + 1), UShort(a + 4), UShort(a + 3), UShort(a + 6));
      if good {
        AddRowStrip(n, q1, i, j);
      }
    }
    if i < n {
      var q1 := q2;
      q2 := AddRect(q1, UShort(a + 2), UShort(a + 3), UShort(b + 0), UShort(b + 1));
      if good {
        AddColumnStrip(n, q1, i, j);
      }
    }
    p2 := p;
    if i < n && j < n {
      p2 := AddRect(p, UShort(a + 3), UShort(a + 6), UShort(b + 1), UShort(b + 4));
      if Fits(n) && Cells(Lat(n), p, true) {
        AddGap(n, p, i, j);
      }
    }
  }

  /** `init_elems`: the fill and line element lists, or no data when either
      `malloc` fails (`fillOk`, `lineOk` are their outcomes; the second is
      attempted only after the first succeeds, and neither list is written
      unless both succeed). Returns the counts the buffers are sized for and
      the lists written. */
  method InitElems(n: nat, fillOk: bool, lineOk: bool)
    returns (nf: int, nl: int, fill: Option<seq<int>>, lines: Option<seq<int>>)
    requires n <= 0xFFFF
    ensures nf == FillCount(n) && nl == LineCount(n)
    ensures fill.Some? <==> fillOk && lineOk
    ensures lines.Some? <==> fillOk && lineOk
    ensures fill.Some? ==> |fill.value| == nf
    ensures lines.Some? ==> |lines.value| == nl
    ensures fill.Some? && Fits(n) ==> Cells(Lat(n), fill.value, true)
    ensures lines.Some? && Fits(n) ==> Cells(Lat(n), lines.value, false)
  {
    nf, nl := FillCount(n), LineCount(n);
    if !(fillOk && lineOk) {
      return nf, nl, None, None;
    }
    var p: seq<int> := [];
    var q: seq<int> := [];
    var i := 0;
    while i <= n
      invariant 0 <= i <= n + 1
      invariant |p| == 6 * FillsBefore(n, i, 0) && |q| == 6 * LinesBefore(n, i, 0)
      invariant Fits(n) ==> Cells(Lat(n), p, true) && Cells(Lat(n), q, false)
    {
      var j := 0;
      while j <= n
        invariant 0 <= j <= n + 1
        invariant |p| == 6 * FillsBefore(n, i, j) && |q| == 6 * LinesBefore(n, i, j)
        invariant Fits(n) ==> Cells(Lat(n), p, true) && Cells(Lat(n), q, false)
      {
        p, q := AddCells(n, i, j, p, q);
        j := j + 1;
      }
      assert (3 * n + 2) * (i + 1) == (3 * n + 2) * i + 3 * n + 2;
      assert n * (i + 1) == n * i + n;
      i := i + 1;
    }
    assert (3 * n + 2) * (n + 1) - (n + 1) == (n + 1) * (3 * n + 1);
    fill, lines := Some(p), Some(q);
  }

  /** In the plane's coordinates the lattice is an ordered grid: for a gap
      `0 < g < 1/2`, vertices in a higher lattice column lie further along
      `x`, in the same column at the same `x`; likewise for rows and `z`. So
      every lattice cell is a non-degenerate axis-aligned rectangle with `i0`
      and `i1` along its lower edge and `i2` above `i0`, and the two triangles
      `add_rect` makes of it face the same way. */
  lemma LatticeIsGrid(n: nat, g: real, v: int, w: int)
    requires 0.0 < g < 0.5 && 0 <= v && 0 <= w
    ensures LX(n, v) < LX(n, w) ==> PlaneVert(n, g, v).x < PlaneVert(n, g, w).x
    ensures LX(n, v) == LX(n, w) ==> PlaneVert(n, g, v).x == PlaneVert(n, g, w).x
    ensures LZ(n, v) < LZ(n, w) ==> PlaneVert(n, g, v).z < PlaneVert(n, g, w).z
    ensures LZ(n, v) == LZ(n, w) ==> PlaneVert(n, g, v).z == PlaneVert(n, g, w).z
  {
    var d := 0.5 * n as real;
    LatticeAxis(Col(n, v), v % 4 % 2, Col(n, w), w % 4 % 2, g, d);
    LatticeAxis(Row(n, v), v % 4 / 2, Row(n, w), w % 4 / 2, g, d);
  }

  /** Along one axis a corner sits at `c - d - g` or `c - d + g` for grid
      coordinate `c` and side bit `s`; the lattice coordinate `2c + s` orders
      them. */
  lemma LatticeAxis(c1: int, s1: int, c2: int, s2: int, g: real, d: real)
    requires 0.0 < g < 0.5 && (s1 == 0 || s1 == 1) && (s2 == 0 || s2 == 1)
    ensures var p1 := c1 as real - d + (if s1 == 1 then g else -g);
      var p2 := c2 as real - d + (if s2 == 1 then g else -g);
      (2 * c1 + s1 < 2 * c2 + s2 ==> p1 < p2) && (2 * c1 + s1 == 2 * c2 + s2 ==> p1 == p2)
  {
    if 2 * c1 + s1 < 2 * c2 + s2 && c1 < c2 {
      assert c1 as real + 1.0 <= c2 as real;
    }
  }

  /** A plane object: its size as given, and the data uploaded to its vertex
      buffer and its two element buffers. */
  datatype PlaneObj = PlaneObj(n: int, verts: Option<seq<Vert>>, fill: Option<seq<int>>, lines: Option<seq<int>>)

  /** `plane_create`: nothing when the plane record cannot be allocated;
      otherwise the buffers built for `n` taken as a `GLushort`, and `n`
      itself kept for rendering. */
  method PlaneCreate(n: int, g: real, planeOk: bool, vertOk: bool, fillOk: bool, lineOk: bool)
    returns (P: Option<PlaneObj>)
    ensures P.Some? <==> planeOk
    ensures P.Some? ==> P.value.n == n && (P.value.verts.Some? <==> vertOk)
    ensures P.Some? ==> (P.value.fill.Some? <==> fillOk && lineOk) && (P.value.lines.Some? <==> fillOk && lineOk)
    ensures P.Some? && 0 <= n <= 0xFFFF && P.value.fill.Some? && P.value.lines.Some? ==>
              var (nf, nl) := PlaneRender(P.value);
              |P.value.fill.value| == nf && |P.value.lines.value| == nl
    ensures P.Some? && 0 <= n <= 0xFFFF && P.value.verts.Some? ==> |P.value.verts.value| == VertCount(n)
  {
    if !planeOk {
      return None;
    }
    var m := UShort(n);
    var _, verts := InitVerts(m, g, vertOk);
    var _, _, fill, lines := InitElems(m, fillOk, lineOk);
    P := Some(PlaneObj(n, verts, fill, lines));
  }

  /** `plane_render`: the number of indices drawn from the fill list and
      from the line list. */
  function PlaneRender(P: PlaneObj): (r: (int, int))
    ensures r.0 >= 0
    ensures P.n >= 0 ==> r.0 == 6 * P.n * P.n && r.1 % 6 == 0 && r.1 > 0
  {
    assert (P.n >= 0 ==> 6 * (P.n + 1) * (3 * P.n + 1) == 6 * ((P.n + 1) * (3 * P.n + 1)));
    (FillCount(P.n), LineCount(P.n))
  }
}
