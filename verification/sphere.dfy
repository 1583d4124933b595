/** The sphere mesh (obj-sphere.c): `obj_sphere_create(N)` lays a grid of
    `N+1` rows from pole to pole and `M+1 = 2N+1` columns around, one vertex
    per grid point in row-major order, and splits every grid cell into two
    triangles.

    Only the topology and the texture coordinates are modelled. The object
    store is two sequences: `obj_add_vert` appends a vertex and returns its
    position, and `obj_add_poly` appends a triangle to the sphere's single
    surface. */
module Sphere {
  import opened CInt

  /** A texture coordinate as the float division `(float) a / (float) b`
      leaves it: a number, or NaN for `0/0`, the only division by zero the
      sphere makes (when `N == 0`). */
  datatype Coord = Num(value: real) | NaN

  function Ratio(a: int, b: int): Coord {
    if b == 0 then NaN else Num(a as real / b as real)
  }

  /** The texture coordinate `t` of a vertex. */
  datatype Tex = Tex(u: Coord, v: Coord)

  /** A triangle by the positions of its three vertices. */
  datatype Tri = Tri(a: int, b: int, c: int)

  /** The texture coordinate of grid point `(i, j)`: `(j/M, i/N)`. */
  function TexOf(N: int, i: int, j: int): Tex {
    Tex(Ratio(j, 2 * N), Ratio(i, N))
  }

  /** Vertex number `v` of the sphere: grid point `(v / (M+1), v % (M+1))`. */
  function TexAt(N: nat, v: int): Tex {
    TexOf(N, v / (2 * N + 1), v % (2 * N + 1))
  }

  /** The corner `i00 + di*(M+1) + dj` of grid cell `(i, j)`. */
  function CornerOf(N: int, i: int, j: int, di: int, dj: int): int {
    (i + di) * (2 * N + 1) + (j + dj)
  }

  /** Triangle number `t`: the two triangles of cell `c = t/2`, cells in
      row-major order over `N` rows of `M` cells. */
  function TriAt(N: int, t: int): Tri
    requires N > 0
  {
    var c := t / 2;
    var i, j := c / (2 * N), c % (2 * N);
    if t % 2 == 0 then Tri(CornerOf(N, i, j, 0, 0), CornerOf(N, i, j, 0, 1), CornerOf(N, i, j, 1, 1))
    else Tri(CornerOf(N, i, j, 1, 1), CornerOf(N, i, j, 1, 0), CornerOf(N, i, j, 0, 0))
  }

  predicate InRange(T: Tri, count: int) {
    0 <= T.a < count && 0 <= T.b < count && 0 <= T.c < count
  }

  /** Grid point `(i, j)` is vertex `i(M+1) + j`, below the vertex count. */
  lemma VertexIndex(N: nat, i: int, j: int)
    requires 0 <= i <= N && 0 <= j <= 2 * N
    ensures var v := i * (2 * N + 1) + j;
      0 <= v < (N + 1) * (2 * N + 1) && TexAt(N, v) == TexOf(N, i, j)
  {
    GridIndex(N, i, j);
  }

  lemma GridIndex(N: nat, i: int, j: int)
    requires 0 <= i <= N && 0 <= j <= 2 * N
    ensures var v := i * (2 * N + 1) + j;
      0 <= v < (N + 1) * (2 * N + 1) && v / (2 * N + 1) == i && v % (2 * N + 1) == j
  {
    var m := 2 * N + 1;
    var v := i * m + j;
    DivUnique(v, m, i);
    assert v % m == j;
    assert i * m <= N * m by {
      assert (N - i) * m >= 0;
    }
    assert (N + 1) * m == N * m + m;
  }

  /** Every vertex number below the count is a grid point. */
  lemma GridPoint(N: nat, v: int)
    requires 0 <= v < (N + 1) * (2 * N + 1)
    ensures 0 <= v / (2 * N + 1) <= N && 0 <= v % (2 * N + 1) <= 2 * N
  {
    var m := 2 * N + 1;
    var i := v / m;
    assert v == i * m + v % m;
    if i > N {
      assert false;
    }
  }

  /** Cell `(i, j)` holds triangles `2(iM + j)` and `2(iM + j) + 1`: the
      corners `i00, i01, i11`, then `i11, i10, i00`, all of them vertices. */
  lemma TriIndex(N: int, i: int, j: int)
    requires N > 0 && 0 <= i < N && 0 <= j < 2 * N
    ensures var t := 2 * (i * (2 * N) + j);
      TriAt(N, t) == Tri(CornerOf(N, i, j, 0, 0), CornerOf(N, i, j, 0, 1), CornerOf(N, i, j, 1, 1)) &&
      TriAt(N, t + 1) == Tri(CornerOf(N, i, j, 1, 1), CornerOf(N, i, j, 1, 0), CornerOf(N, i, j, 0, 0))
    ensures InRange(TriAt(N, 2 * (i * (2 * N) + j)), (N + 1) * (2 * N + 1))
    ensures InRange(TriAt(N, 2 * (i * (2 * N) + j) + 1), (N + 1) * (2 * N + 1))
  {
    var m := 2 * N;
    var c := i * m + j;
    DivUnique(2 * c, 2, c);
    DivUnique(2 * c + 1, 2, c);
    DivUnique(c, m, i);
    assert c % m == j;
    CornersInRange(N, i, j);
  }

  lemma CornersInRange(N: int, i: int, j: int)
    requires N > 0 && 0 <= i < N && 0 <= j < 2 * N
    ensures 0 <= CornerOf(N, i, j, 0, 0) && CornerOf(N, i, j, 1, 1) < (N + 1) * (2 * N + 1)
    ensures CornerOf(N, i, j, 0, 1) == CornerOf(N, i, j, 0, 0) + 1
    ensures CornerOf(N, i, j, 1, 0) == CornerOf(N, i, j, 0, 0) + 2 * N + 1
    ensures CornerOf(N, i, j, 1, 1) == CornerOf(N, i, j, 1, 0) + 1
  {
    var m := 2 * N + 1;
    assert (i + 1) * m <= N * m by {
      assert (N - i - 1) * m >= 0;
    }
    assert (N + 1) * m == N * m + m;
    assert (i + 1) * m == i * m + m;
  }

  /** `obj_sphere_create(N)`: the vertices row by row, then the two triangles
      of every cell. A negative `N` gives an empty object. */
  method SphereCreate(N: int) returns (verts: seq<Tex>, tris: seq<Tri>)
    ensures N < 0 ==> verts == [] && tris == []
    ensures N >= 0 ==> |verts| == (N + 1) * (2 * N + 1)
    ensures N >= 0 ==> forall v :: 0 <= v < |verts| ==> verts[v] == TexAt(N, v)
    ensures |tris| == if N > 0 then 2 * N * (2 * N) else 0
    ensures N > 0 ==> forall t :: 0 <= t < |tris| ==> tris[t] == TriAt(N, t)
    ensures forall t :: 0 <= t < |tris| ==> InRange(tris[t], |verts|)
  {
    verts, tris := [], [];
    if N < 0 {
      return;
    }
    verts := SphereVerts(N);
    tris := SphereTris(N, |verts|);
  }

  /** The first loop of `obj_sphere_create`: `N + 1` rows of `M + 1 = 2N + 1`
      vertices. */
  method SphereVerts(N: nat) returns (verts: seq<Tex>)
    ensures |verts| == (N + 1) * (2 * N + 1)
    ensures forall v :: 0 <= v < |verts| ==> verts[v] == TexAt(N, v)
  {
    verts := [];
    var i := 0;
    while i <= N
      invariant 0 <= i <= N + 1
      invariant |verts| == i * (2 * N + 1)
      invariant forall v :: 0 <= v < |verts| ==> verts[v] == TexAt(N, v)
    {
      var j := 0;
      while j <= 2 * N
        invariant 0 <= j <= 2 * N + 1
        invariant |verts| == i * (2 * N + 1) + j
        invariant forall v :: 0 <= v < |verts| ==> verts[v] == TexAt(N, v)
      {
        VertexIndex(N, i, j);
        verts := verts + [Tex(Ratio(j, 2 * N), Ratio(i, N))];
        j := j + 1;
      }
      assert i * (2 * N + 1) + (2 * N + 1) == (i + 1) * (2 * N + 1);
      i := i + 1;
    }
  }

  /** The second loop of `obj_sphere_create`: the two triangles of each of
      the `N` rows of `M = 2N` cells, every corner a vertex of the
      `count == (N+1)(2N+1)` there are. */
  method SphereTris(N: nat, count: int) returns (tris: seq<Tri>)
    requires count == (N + 1) * (2 * N + 1)
    ensures |tris| == if N > 0 then 2 * N * (2 * N) else 0
    ensures N > 0 ==> forall t :: 0 <= t < |tris| ==> tris[t] == TriAt(N, t)
    ensures forall t :: 0 <= t < |tris| ==> InRange(tris[t], count)
  {
    tris := [];
    var i := 0;
    while i < N
      invariant 0 <= i <= N
      invariant |tris| == 2 * (i * (2 * N))
      invariant forall t :: 0 <= t < |tris| ==> tris[t] == TriAt(N, t) && InRange(tris[t], count)
    {
      var j := 0;
      while j < 2 * N
        invariant 0 <= j <= 2 * N
        invariant |tris| == 2 * (i * (2 * N) + j)
        invariant forall t :: 0 <= t < |tris| ==> tris[t] == TriAt(N, t) && InRange(tris[t], count)
      {
        var i00 := CornerOf(N, i, j, 0, 0);
        var i01 := CornerOf(N, i, j, 0, 1);
        var i10 := CornerOf(N, i, j, 1, 0);
        var i11 := CornerOf(N, i, j, 1, 1);
        TriIndex(N, i, j);
        tris := tris + [Tri(i00, i01, i11)];
        tris := tris + [Tri(i11, i10, i00)];
        j := j + 1;
      }
      assert i * (2 * N) + 2 * N == (i + 1) * (2 * N);
      i := i + 1;
    }
    assert 2 * (N * (2 * N)) == 2 * N * (2 * N);
  }

  /** For `N >= 1` every texture coordinate is a number in `[0, 1]`. */
  lemma TexInUnitSquare(N: nat, v: int)
    requires N >= 1 && 0 <= v < (N + 1) * (2 * N + 1)
    ensures TexAt(N, v).u.Num? && 0.0 <= TexAt(N, v).u.value <= 1.0
    ensures TexAt(N, v).v.Num? && 0.0 <= TexAt(N, v).v.value <= 1.0
  {
    GridPoint(N, v);
    UnitFraction(v % (2 * N + 1), 2 * N);
    UnitFraction(v / (2 * N + 1), N);
  }

  lemma UnitFraction(a: int, b: int)
    requires 0 <= a <= b && b > 0
    ensures 0.0 <= a as real / b as real <= 1.0
  {
    assert a as real <= b as real;
  }

  /** For `N == 0` the sphere is a single vertex whose texture coordinate is
      `0/0` in both directions, and no triangle. */
  lemma DegenerateSphere()
    ensures TexAt(0, 0) == Tex(NaN, NaN)
  {
  }

  /** The two triangles of a cell share the diagonal `i00`-`i11` and
      together use exactly its four corners. */
  lemma CellSplit(N: int, i: int, j: int)
    requires N > 0 && 0 <= i < N && 0 <= j < 2 * N
    ensures var t := 2 * (i * (2 * N) + j);
      var A, B := TriAt(N, t), TriAt(N, t + 1);
      A.a == B.c && A.c == B.a &&
      {A.a, A.b, A.c} + {B.a, B.b, B.c} ==
        {CornerOf(N, i, j, 0, 0), CornerOf(N, i, j, 0, 1), CornerOf(N, i, j, 1, 0), CornerOf(N, i, j, 1, 1)} &&
      |{A.a, A.b, A.c, B.b}| == 4
  {
    TriIndex(N, i, j);
    CornersInRange(N, i, j);
  }

  /** Twice the signed area of a triangle in texture space, positive when its
      corners run counter-clockwise. */
  function Area(p: (real, real), q: (real, real), r: (real, real)): real {
    (q.0 - p.0) * (r.1 - p.1) - (r.0 - p.0) * (q.1 - p.1)
  }

  function Point(T: Tex): (real, real)
    requires T.u.Num? && T.v.Num?
  {
    (T.u.value, T.v.value)
  }

  /** The corners of cell `(i, j)` carry the texture coordinates of their
      grid points. */
  lemma CellTex(N: int, i: int, j: int)
    requires N > 0 && 0 <= i < N && 0 <= j < 2 * N
    ensures TexAt(N, CornerOf(N, i, j, 0, 0)) == TexOf(N, i, j)
    ensures TexAt(N, CornerOf(N, i, j, 0, 1)) == TexOf(N, i, j + 1)
    ensures TexAt(N, CornerOf(N, i, j, 1, 0)) == TexOf(N, i + 1, j)
    ensures TexAt(N, CornerOf(N, i, j, 1, 1)) == TexOf(N, i + 1, j + 1)
  {
    VertexIndex(N, i, j);
    VertexIndex(N, i, j + 1);
    VertexIndex(N, i + 1, j);
    VertexIndex(N, i + 1, j + 1);
  }

  /** Both triangles of every cell run counter-clockwise in texture space,
      each covering half of the cell's `1/M` by `1/N` rectangle. */
  lemma CellWinding(N: int, i: int, j: int)
    requires N > 0 && 0 <= i < N && 0 <= j < 2 * N
    ensures var t := 2 * (i * (2 * N) + j);
      var A, B := TriAt(N, t), TriAt(N, t + 1);
      var cell := 1.0 / ((2 * N) as real * N as real);
      Area(Point(TexAt(N, A.a)), Point(TexAt(N, A.b)), Point(TexAt(N, A.c))) == cell &&
      Area(Point(TexAt(N, B.a)), Point(TexAt(N, B.b)), Point(TexAt(N, B.c))) == cell &&
      cell > 0.0
  {
    TriIndex(N, i, j);
    CellTex(N, i, j);
    GridAreas(N, i, j);
  }

  /** The two triangles of cell `(i, j)`, by the texture coordinates of their
      grid points. */
  lemma GridAreas(N: int, i: int, j: int)
    requires N > 0
    ensures var cell := 1.0 / ((2 * N) as real * N as real);
      Area(Point(TexOf(N, i, j)), Point(TexOf(N, i, j + 1)), Point(TexOf(N, i + 1, j + 1))) == cell &&
      Area(Point(TexOf(N, i + 1, j + 1)), Point(TexOf(N, i + 1, j)), Point(TexOf(N, i, j))) == cell &&
      cell > 0.0
  {
    var m, n := (2 * N) as real, N as real;
    NextFraction(j, m);
    NextFraction(i, n);
    QuadArea(j as real / m, (j + 1) as real / m, i as real / n, (i + 1) as real / n, m, n);
  }

  /** Neighbouring grid points are `1/m` apart. */
  lemma NextFraction(a: int, m: real)
    requires m > 0.0
    ensures (a + 1) as real / m - a as real / m == 1.0 / m
  {
  }

  lemma QuadArea(u0: real, u1: real, v0: real, v1: real, m: real, n: real)
    requires m > 0.0 && n > 0.0 && u1 - u0 == 1.0 / m && v1 - v0 == 1.0 / n
    ensures Area((u0, v0), (u1, v0), (u1, v1)) == 1.0 / (m * n)
    ensures Area((u1, v1), (u0, v1), (u0, v0)) == 1.0 / (m * n)
    ensures 1.0 / (m * n) > 0.0
  {
    assert (1.0 / m) * (1.0 / n) == 1.0 / (m * n);
  }
}
