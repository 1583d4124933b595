/** Typesetting (type.c): the pen walk of `layout`, the quad `line_set` emits
    for each glyph, the vertex array of `line_layout` and `line_create`, and
    the measurement of `line_length`.

    Positions and texture coordinates are exact reals; the float rounding of
    the source is not modelled. `adv(a)` stands for `(int) (a * k)`, the
    advance `a` scaled by the font's letter-space factor `k`. */
module Typeset {
  import opened CInt
  import opened Justify
  import opened Utf8
  import opened SortTable
  import opened FontCache
  import opened Wrappers

  /** What the typesetter consults besides the font: the glyph provider, the
      scaled advance, and whether growing a sort table of a given size
      succeeds. */
  datatype Env = Env(face: Face, adv: int -> int, grows: nat -> bool)

  ghost predicate Ready(F: Font, env: Env) {
    Valid(F, env.face) && WellFormed(env.face)
  }

  /** One vertex: position `x, y, z` and texture coordinate `u, v`. */
  datatype Vert = Vert(x: real, y: real, z: real, u: real, v: real)

  /** A vertex as `calloc` leaves it. */
  const Zero := Vert(0.0, 0.0, 0.0, 0.0, 0.0)

  /** A column-major 4x4 matrix; `M[12..15]` is the translation. */
  predicate IsMatrix(M: seq<real>) {
    |M| == 16
  }

  /** Where `M` takes the point `(px, py, 0)`. */
  function Apply(M: seq<real>, px: int, py: int): (real, real, real)
    requires IsMatrix(M)
  {
    (M[0] * px as real + M[4] * py as real + M[12],
     M[1] * px as real + M[5] * py as real + M[13],
     M[2] * px as real + M[6] * py as real + M[14])
  }

  /** The corners of the unit square counter-clockwise from the bottom left:
      `(0,0)`, `(1,0)`, `(1,1)`, `(0,1)`. */
  function Dx(k: nat): int { if k == 1 || k == 2 then 1 else 0 }
  function Dy(k: nat): int { if k == 2 || k == 3 then 1 else 0 }

  /** Corner `k` of the glyph box with the pen at `x`, in pixels, y up. */
  function Corner(S: Sort, x: int, k: nat): (int, int) {
    (S.x + x + S.W * Dx(k), S.y - S.H + S.H * Dy(k))
  }

  /** The matching corner of the glyph's atlas rectangle, whose rows run top
      down, scaled to the atlas side `s`. */
  function TexCorner(S: Sort, s: int, k: nat): (real, real)
    requires s > 0
  {
    ((S.X + S.W * Dx(k)) as real / s as real, (S.Y + S.H * (1 - Dy(k))) as real / s as real)
  }

  function VertAt(M: seq<real>, p: (int, int), t: (real, real)): Vert
    requires IsMatrix(M)
  {
    var q := Apply(M, p.0, p.1);
    Vert(q.0, q.1, q.2, t.0, t.1)
  }

  /** `line_set`: the quad of glyph `S` with the pen at `x`, and the pen after
      it. */
  function LineSet(S: Sort, s: int, x: int, adv: int -> int, M: seq<real>): (r: (seq<Vert>, int))
    requires s > 0 && IsMatrix(M)
    ensures |r.0| == 4
    ensures forall k :: 0 <= k < 4 ==> r.0[k] == VertAt(M, Corner(S, x, k), TexCorner(S, s, k))
    ensures r.1 == x + adv(S.a)
  {
    var tl := S.X as real / s as real;
    var tr := (S.X + S.W) as real / s as real;
    var tt := S.Y as real / s as real;
    var tb := (S.Y + S.H) as real / s as real;
    var vl := S.x + x;
    var vr := S.x + S.W + x;
    var vt := S.y;
    var vb := S.y - S.H;
    ([VertAt(M, (vl, vb), (tl, tb)), VertAt(M, (vr, vb), (tr, tb)),
      VertAt(M, (vr, vt), (tr, tt)), VertAt(M, (vl, vt), (tl, tt))],
     x + adv(S.a))
  }

  /** The glyph box is the rectangle `[S.x+x, S.x+x+W] x [S.y-H, S.y]`, its
      corners in the order bottom-left, bottom-right, top-right, top-left. */
  lemma CornerOrder(S: Sort, x: int)
    requires S.W >= 0 && S.H >= 0
    ensures Corner(S, x, 0) == (S.x + x, S.y - S.H)
    ensures Corner(S, x, 1) == (S.x + x + S.W, S.y - S.H)
    ensures Corner(S, x, 2) == (S.x + x + S.W, S.y)
    ensures Corner(S, x, 3) == (S.x + x, S.y)
    ensures Corner(S, x, 0).0 <= Corner(S, x, 1).0 && Corner(S, x, 0).1 <= Corner(S, x, 3).1
  {
  }

  /** A glyph whose rectangle lies in the atlas gets texture coordinates in
      `[0, 1]`. */
  lemma TexInUnitSquare(S: Sort, s: int, k: nat)
    requires s > 0 && S.W >= 0 && S.H >= 0
    requires 0 <= S.X && S.X + S.W <= s && 0 <= S.Y && S.Y + S.H <= s
    ensures 0.0 <= TexCorner(S, s, k).0 <= 1.0 && 0.0 <= TexCorner(S, s, k).1 <= 1.0
  {
    var a := S.X + S.W * Dx(k);
    var b := S.Y + S.H * (1 - Dy(k));
    assert 0 <= a <= s && 0 <= b <= s;
    Fraction(a, s);
    Fraction(b, s);
  }

  lemma Fraction(a: int, s: int)
    requires 0 <= a <= s && s > 0
    ensures 0.0 <= a as real / s as real <= 1.0
  {
    assert a as real <= s as real;
  }

  function Spaces(cps: seq<int>): nat {
    if cps == [] then 0 else (if cps[0] == 0x20 then 1 else 0) + Spaces(cps[1..])
  }

  function NonSpaces(cps: seq<int>): nat {
    if cps == [] then 0 else (if cps[0] == 0x20 then 0 else 1) + NonSpaces(cps[1..])
  }

  /** Every codepoint is counted by exactly one of the two counts. */
  lemma {:induction false} CountsPartition(cps: seq<int>)
    ensures Spaces(cps) + NonSpaces(cps) == |cps|
  {
    if cps != [] {
      CountsPartition(cps[1..]);
    }
  }

  /** A glyph the typesetter sets: its sort, the kerned pen `line_set` is
      called with, and the quad it writes. */
  datatype Glyph = Glyph(sort: Sort, pen: int, quad: seq<Vert>)

  /** The state of the second loop of `layout`: the font, the pen `x`, the
      spaces passed `e`, the previous glyph index `l`, the vertices written
      and the number `i` of glyphs set. `glyphs` records the glyphs set, in
      order; the source keeps no such list, it only describes `verts`. */
  datatype Pen = Pen(font: Font, x: int, e: nat, l: nat, verts: seq<Vert>, i: nat, glyphs: seq<Glyph>)

  /** One iteration of the second loop of `layout`, for a string with `s`
      spaces in all and `exp` pixels of expansion. A space advances the pen
      by the space advance plus its share; any other character is looked up,
      kerned against the previous glyph and set; a lookup that fails skips
      the character. */
  function WalkStep(env: Env, M: seq<real>, s: nat, exp: int, c: int, st: Pen): (r: Pen)
    requires Ready(st.font, env) && IsMatrix(M) && |st.verts| == 4 * st.i
    requires c == 0x20 ==> st.e < s
    ensures Ready(r.font, env)
    ensures r.font == st.font.(sorts := r.font.sorts, cur := r.font.cur)
    ensures r.e == st.e + (if c == 0x20 then 1 else 0)
    ensures r.i == st.i || (c != 0x20 && r.i == st.i + 1)
    ensures |r.verts| == 4 * r.i && r.verts[..|st.verts|] == st.verts
    ensures c != 0x20 && env.grows(|st.font.sorts|) ==> r.i == st.i + 1
    ensures c == 0x20 ==> r == st.(x := st.x + env.adv(st.font.a) + Share(exp, st.e, s), e := st.e + 1)
    ensures c != 0x20 ==> r == Found(env, M, st, SortSearch(st.font, env.face, c, env.grows), env.face.index(c))
  {
    if c == 0x20 then
      st.(x := st.x + env.adv(st.font.a) + Share(exp, st.e, s), e := st.e + 1)
    else
      Found(env, M, st, SortSearch(st.font, env.face, c, env.grows), env.face.index(c))
  }

  /** What a step does with the outcome `found` of the lookup of a character
      of glyph index `g`: set the sort found, or skip the character; either
      way the font is the one the lookup left. */
  function Found(env: Env, M: seq<real>, st: Pen, found: Lookup, g: nat): (r: Pen)
    requires IsMatrix(M) && st.font.s > 0 && |st.verts| == 4 * st.i
    ensures r.font == found.font && r.e == st.e
    ensures r.i == st.i + (if found.sort.Some? then 1 else 0)
    ensures |r.verts| == 4 * r.i && r.verts[..|st.verts|] == st.verts
    ensures found.sort.None? ==> r == st.(font := found.font)
    ensures found.sort.Some? ==>
              var S := found.sort.value;
              var k := st.x + Shr6(env.face.kerning(st.l, g));
              var q := LineSet(S, st.font.s, k, env.adv, M);
              r.glyphs == st.glyphs + [Glyph(S, k, q.0)] && r.verts == st.verts + q.0
  {
    if found.sort.Some? then SetGlyph(env, M, st, found.font, found.sort.value, g)
    else st.(font := found.font)
  }

  /** A glyph set moves the pen to where `line_set` leaves it, and becomes
      the previous glyph for the next kerning. */
  lemma FoundMoves(env: Env, M: seq<real>, st: Pen, found: Lookup, g: nat)
    requires IsMatrix(M) && st.font.s > 0 && |st.verts| == 4 * st.i
    requires found.sort.Some?
    ensures var k := st.x + Shr6(env.face.kerning(st.l, g));
      var r := Found(env, M, st, found, g);
      r.x == LineSet(found.sort.value, st.font.s, k, env.adv, M).1 && r.l == g
  {
  }

  /** Set glyph `S`, of glyph index `g`, kerned against the previous glyph,
      with `F` the font after the lookup; the lookup leaves the atlas side
      as it is. */
  function SetGlyph(env: Env, M: seq<real>, st: Pen, F: Font, S: Sort, g: nat): (r: Pen)
    requires IsMatrix(M) && st.font.s > 0 && |st.verts| == 4 * st.i
    ensures var k := st.x + Shr6(env.face.kerning(st.l, g));
      var q := LineSet(S, st.font.s, k, env.adv, M);
      r == Pen(F, q.1, st.e, g, st.verts + q.0, st.i + 1, st.glyphs + [Glyph(S, k, q.0)])
    ensures |r.verts| == 4 * r.i && r.verts[..|st.verts|] == st.verts
  {
    var k := st.x + Shr6(env.face.kerning(st.l, g));
    var q := LineSet(S, st.font.s, k, env.adv, M);
    assert (st.verts + q.0)[..|st.verts|] == st.verts;
    Pen(F, q.1, st.e, g, st.verts + q.0, st.i + 1, st.glyphs + [Glyph(S, k, q.0)])
  }

  /** The second loop of `layout` over the codepoints `cps`. */
  function Walk(env: Env, M: seq<real>, s: nat, exp: int, cps: seq<int>, st: Pen): (r: Pen)
    requires Ready(st.font, env) && IsMatrix(M)
    requires st.e + Spaces(cps) == s && |st.verts| == 4 * st.i
    ensures Ready(r.font, env)
    ensures r.font == st.font.(sorts := r.font.sorts, cur := r.font.cur)
    ensures r.e == s && |r.verts| == 4 * r.i
    ensures st.i <= r.i <= st.i + NonSpaces(cps)
    ensures r.verts[..|st.verts|] == st.verts
    ensures (forall n :: env.grows(n)) ==> r.i == st.i + NonSpaces(cps)
    decreases |cps|
  {
    if cps == [] then st
    else
      var st1 := WalkStep(env, M, s, exp, cps[0], st);
      var r := Walk(env, M, s, exp, cps[1..], st1);
      PrefixOfPrefix(r.verts, |st1.verts|, |st.verts|);
      r
  }

  lemma PrefixOfPrefix(a: seq<Vert>, m: nat, n: nat)
    requires n <= m <= |a|
    ensures a[..m][..n] == a[..n]
  {
  }

  /** Glyph `j` of a vertex array: the four vertices from `4 * j` on. */
  function Quad(verts: seq<Vert>, j: nat): seq<Vert>
    requires 4 * j + 4 <= |verts|
  {
    verts[4 * j .. 4 * j + 4]
  }

  /** A step keeps every cached sort. */
  lemma StepKeepsSorts(env: Env, M: seq<real>, s: nat, exp: int, c: int, st: Pen, S: Sort)
    requires Ready(st.font, env) && IsMatrix(M) && |st.verts| == 4 * st.i
    requires c == 0x20 ==> st.e < s
    requires S in st.font.sorts
    ensures S in WalkStep(env, M, s, exp, c, st).font.sorts
  {
    if c != 0x20 {
      LookupKeeps(st.font, env.face, c, env.grows, S);
    }
  }

  /** A walk keeps every cached sort. */
  lemma {:induction false} WalkKeepsSorts(env: Env, M: seq<real>, s: nat, exp: int, cps: seq<int>, st: Pen, S: Sort)
    requires Ready(st.font, env) && IsMatrix(M)
    requires st.e + Spaces(cps) == s && |st.verts| == 4 * st.i
    requires S in st.font.sorts
    ensures S in Walk(env, M, s, exp, cps, st).font.sorts
    decreases |cps|
  {
    if cps != [] {
      StepKeepsSorts(env, M, s, exp, cps[0], st, S);
      WalkKeepsSorts(env, M, s, exp, cps[1..], WalkStep(env, M, s, exp, cps[0], st), S);
    }
  }

  /** The vertices `verts` are the quads of the glyphs `gs`, in order. */
  predicate Drawn(verts: seq<Vert>, gs: seq<Glyph>) {
    |verts| == 4 * |gs| &&
    forall j :: 0 <= j < |gs| ==> Quad(verts, j) == gs[j].quad
  }

  /** Every glyph's quad is what `line_set` emits for its sort at its pen, in
      an atlas of side `side`. */
  predicate SetOut(gs: seq<Glyph>, side: int, adv: int -> int, M: seq<real>)
    requires side > 0 && IsMatrix(M)
  {
    forall j :: 0 <= j < |gs| ==> gs[j].quad == LineSet(gs[j].sort, side, gs[j].pen, adv, M).0
  }

  /** Every glyph's sort is cached in `F`. */
  predicate Cached(gs: seq<Glyph>, F: Font) {
    forall j :: 0 <= j < |gs| ==> gs[j].sort in F.sorts
  }

  /** The glyphs from index `from` on are of non-space codepoints of `cps`. */
  predicate Of(gs: seq<Glyph>, from: nat, cps: seq<int>) {
    forall j :: from <= j < |gs| ==> gs[j].sort.c in cps && gs[j].sort.c != 0x20
  }

  /** What one step does to the glyphs: nothing, or for a character other
      than a space whose lookup succeeds, append the found sort at the kerned
      pen with its `line_set` quad. */
  lemma StepGlyph(env: Env, M: seq<real>, s: nat, exp: int, c: int, st: Pen)
    requires Ready(st.font, env) && IsMatrix(M) && |st.verts| == 4 * st.i
    requires c == 0x20 ==> st.e < s
    ensures var r := WalkStep(env, M, s, exp, c, st);
      var found := SortSearch(st.font, env.face, c, env.grows);
      if c != 0x20 && found.sort.Some? then
        var k := st.x + Shr6(env.face.kerning(st.l, env.face.index(c)));
        var q := LineSet(found.sort.value, st.font.s, k, env.adv, M).0;
        r.glyphs == st.glyphs + [Glyph(found.sort.value, k, q)] && r.verts == st.verts + q &&
        found.sort.value in r.font.sorts && found.sort.value.c == c
      else r.glyphs == st.glyphs && r.verts == st.verts
  {
    if c != 0x20 && SortSearch(st.font, env.face, c, env.grows).sort.Some? {
      StepSets(env, M, s, exp, c, st);
    } else {
      StepSkips(env, M, s, exp, c, st);
    }
  }

  /** A space, or a character whose lookup fails, sets nothing. */
  lemma StepSkips(env: Env, M: seq<real>, s: nat, exp: int, c: int, st: Pen)
    requires Ready(st.font, env) && IsMatrix(M) && |st.verts| == 4 * st.i
    requires c == 0x20 ==> st.e < s
    requires c == 0x20 || SortSearch(st.font, env.face, c, env.grows).sort.None?
    ensures var r := WalkStep(env, M, s, exp, c, st);
      r.glyphs == st.glyphs && r.verts == st.verts
  {
  }

  /** A character other than a space whose lookup succeeds is set: its sort
      at the kerned pen, with its `line_set` quad appended to the vertices. */
  lemma StepSets(env: Env, M: seq<real>, s: nat, exp: int, c: int, st: Pen)
    requires Ready(st.font, env) && IsMatrix(M) && |st.verts| == 4 * st.i
    requires c != 0x20 && SortSearch(st.font, env.face, c, env.grows).sort.Some?
    ensures var r := WalkStep(env, M, s, exp, c, st);
      var S := SortSearch(st.font, env.face, c, env.grows).sort.value;
      var k := st.x + Shr6(env.face.kerning(st.l, env.face.index(c)));
      var q := LineSet(S, st.font.s, k, env.adv, M).0;
      r.glyphs == st.glyphs + [Glyph(S, k, q)] && r.verts == st.verts + q &&
      S in r.font.sorts && S.c == c
  {
  }

  /** What one step adds: nothing, or one glyph of the character stepped
      over, whose quad is appended to the vertices and whose sort is cached. */
  lemma StepAdds(env: Env, M: seq<real>, s: nat, exp: int, c: int, st: Pen) returns (added: Option<Glyph>)
    requires Ready(st.font, env) && IsMatrix(M) && |st.verts| == 4 * st.i
    requires c == 0x20 ==> st.e < s
    ensures var r := WalkStep(env, M, s, exp, c, st);
      if added.Some? then
        var g := added.value;
        r.glyphs == st.glyphs + [g] && r.verts == st.verts + g.quad &&
        g.quad == LineSet(g.sort, st.font.s, g.pen, env.adv, M).0 &&
        g.sort in r.font.sorts && g.sort.c == c && c != 0x20
      else r.glyphs == st.glyphs && r.verts == st.verts
  {
    if c != 0x20 && SortSearch(st.font, env.face, c, env.grows).sort.Some? {
      var S := SortSearch(st.font, env.face, c, env.grows).sort.value;
      var k := st.x + Shr6(env.face.kerning(st.l, env.face.index(c)));
      StepSets(env, M, s, exp, c, st);
      added := Some(Glyph(S, k, LineSet(S, st.font.s, k, env.adv, M).0));
    } else {
      StepSkips(env, M, s, exp, c, st);
      added := None;
    }
  }

  lemma AppendDrawn(verts: seq<Vert>, gs: seq<Glyph>, g: Glyph)
    requires Drawn(verts, gs) && |g.quad| == 4
    ensures Drawn(verts + g.quad, gs + [g])
  {
    forall j | 0 <= j < |gs| + 1
      ensures Quad(verts + g.quad, j) == (gs + [g])[j].quad
    {
      if j < |gs| {
        assert Quad(verts + g.quad, j) == Quad(verts, j);
      } else {
        assert Quad(verts + g.quad, j) == g.quad;
      }
    }
  }

  /** A step keeps the vertices the quads of the glyphs. */
  lemma StepDrawn(env: Env, M: seq<real>, s: nat, exp: int, c: int, st: Pen)
    requires Ready(st.font, env) && IsMatrix(M) && |st.verts| == 4 * st.i
    requires c == 0x20 ==> st.e < s
    requires Drawn(st.verts, st.glyphs)
    ensures var r := WalkStep(env, M, s, exp, c, st); Drawn(r.verts, r.glyphs)
  {
    var added := StepAdds(env, M, s, exp, c, st);
    if added.Some? {
      AppendDrawn(st.verts, st.glyphs, added.value);
    }
  }

  /** A walk keeps the vertices the quads of the glyphs. */
  lemma {:induction false} WalkDrawn(env: Env, M: seq<real>, s: nat, exp: int, cps: seq<int>, st: Pen)
    requires Ready(st.font, env) && IsMatrix(M)
    requires st.e + Spaces(cps) == s && |st.verts| == 4 * st.i
    requires Drawn(st.verts, st.glyphs)
    ensures var r := Walk(env, M, s, exp, cps, st); Drawn(r.verts, r.glyphs)
    decreases |cps|
  {
    if cps != [] {
      StepDrawn(env, M, s, exp, cps[0], st);
      WalkDrawn(env, M, s, exp, cps[1..], WalkStep(env, M, s, exp, cps[0], st));
    }
  }

  /** A step keeps every glyph's quad the `line_set` quad of its sort and
      pen. */
  lemma StepSetOut(env: Env, M: seq<real>, s: nat, exp: int, c: int, st: Pen)
    requires Ready(st.font, env) && IsMatrix(M) && |st.verts| == 4 * st.i
    requires c == 0x20 ==> st.e < s
    requires SetOut(st.glyphs, st.font.s, env.adv, M)
    ensures var r := WalkStep(env, M, s, exp, c, st); SetOut(r.glyphs, st.font.s, env.adv, M)
  {
    var added := StepAdds(env, M, s, exp, c, st);
    if added.Some? {
      AppendSetOut(st.glyphs, added.value, st.font.s, env.adv, M);
    }
  }

  lemma AppendSetOut(gs: seq<Glyph>, g: Glyph, side: int, adv: int -> int, M: seq<real>)
    requires side > 0 && IsMatrix(M)
    requires SetOut(gs, side, adv, M) && g.quad == LineSet(g.sort, side, g.pen, adv, M).0
    ensures SetOut(gs + [g], side, adv, M)
  {
    forall j | 0 <= j < |gs| + 1
      ensures (gs + [g])[j].quad == LineSet((gs + [g])[j].sort, side, (gs + [g])[j].pen, adv, M).0
    {
      if j < |gs| {
        assert (gs + [g])[j] == gs[j];
      }
    }
  }

  lemma {:induction false} WalkSetOut(env: Env, M: seq<real>, s: nat, exp: int, cps: seq<int>, st: Pen)
    requires Ready(st.font, env) && IsMatrix(M)
    requires st.e + Spaces(cps) == s && |st.verts| == 4 * st.i
    requires SetOut(st.glyphs, st.font.s, env.adv, M)
    ensures var r := Walk(env, M, s, exp, cps, st); SetOut(r.glyphs, st.font.s, env.adv, M)
    decreases |cps|
  {
    if cps != [] {
      StepSetOut(env, M, s, exp, cps[0], st);
      WalkSetOut(env, M, s, exp, cps[1..], WalkStep(env, M, s, exp, cps[0], st));
    }
  }

  /** A step keeps the sort of every glyph cached. */
  lemma StepCached(env: Env, M: seq<real>, s: nat, exp: int, c: int, st: Pen)
    requires Ready(st.font, env) && IsMatrix(M) && |st.verts| == 4 * st.i
    requires c == 0x20 ==> st.e < s
    requires Cached(st.glyphs, st.font)
    ensures var r := WalkStep(env, M, s, exp, c, st); Cached(r.glyphs, r.font)
  {
    var r := WalkStep(env, M, s, exp, c, st);
    assert Cached(st.glyphs, r.font) by {
      forall j | 0 <= j < |st.glyphs|
        ensures st.glyphs[j].sort in r.font.sorts
      {
        StepKeepsSorts(env, M, s, exp, c, st, st.glyphs[j].sort);
      }
    }
    var added := StepAdds(env, M, s, exp, c, st);
    if added.Some? {
      AppendCached(st.glyphs, added.value, r.font);
    }
  }

  lemma AppendCached(gs: seq<Glyph>, g: Glyph, F: Font)
    requires Cached(gs, F) && g.sort in F.sorts
    ensures Cached(gs + [g], F)
  {
    forall j | 0 <= j < |gs| + 1 ensures (gs + [g])[j].sort in F.sorts {
      if j < |gs| {
        assert (gs + [g])[j] == gs[j];
      }
    }
  }

  lemma {:induction false} WalkCached(env: Env, M: seq<real>, s: nat, exp: int, cps: seq<int>, st: Pen)
    requires Ready(st.font, env) && IsMatrix(M)
    requires st.e + Spaces(cps) == s && |st.verts| == 4 * st.i
    requires Cached(st.glyphs, st.font)
    ensures var r := Walk(env, M, s, exp, cps, st); Cached(r.glyphs, r.font)
    decreases |cps|
  {
    if cps != [] {
      StepCached(env, M, s, exp, cps[0], st);
      WalkCached(env, M, s, exp, cps[1..], WalkStep(env, M, s, exp, cps[0], st));
    }
  }

  /** A step over a codepoint of `all` sets only glyphs of non-space
      codepoints of `all`. */
  lemma StepOf(env: Env, M: seq<real>, s: nat, exp: int, c: int, st: Pen, from: nat, all: seq<int>)
    requires Ready(st.font, env) && IsMatrix(M) && |st.verts| == 4 * st.i
    requires c == 0x20 ==> st.e < s
    requires c in all && Of(st.glyphs, from, all)
    ensures var r := WalkStep(env, M, s, exp, c, st); Of(r.glyphs, from, all)
  {
    var added := StepAdds(env, M, s, exp, c, st);
    if added.Some? {
      AppendOf(st.glyphs, added.value, from, all);
    }
  }

  lemma AppendOf(gs: seq<Glyph>, g: Glyph, from: nat, all: seq<int>)
    requires Of(gs, from, all) && g.sort.c in all && g.sort.c != 0x20
    ensures Of(gs + [g], from, all)
  {
    forall j | from <= j < |gs| + 1 ensures (gs + [g])[j].sort.c in all && (gs + [g])[j].sort.c != 0x20 {
      if j < |gs| {
        assert (gs + [g])[j] == gs[j];
      }
    }
  }

  lemma {:induction false} WalkOf(env: Env, M: seq<real>, s: nat, exp: int, cps: seq<int>, st: Pen,
                                  from: nat, all: seq<int>)
    requires Ready(st.font, env) && IsMatrix(M)
    requires st.e + Spaces(cps) == s && |st.verts| == 4 * st.i
    requires (forall k :: 0 <= k < |cps| ==> cps[k] in all) && Of(st.glyphs, from, all)
    ensures var r := Walk(env, M, s, exp, cps, st); Of(r.glyphs, from, all)
    decreases |cps|
  {
    if cps != [] {
      StepOf(env, M, s, exp, cps[0], st, from, all);
      assert forall k :: 0 <= k < |cps[1..]| ==> cps[1..][k] in all by {
        forall k | 0 <= k < |cps[1..]| ensures cps[1..][k] in all {
          assert cps[1..][k] == cps[k + 1];
        }
      }
      WalkOf(env, M, s, exp, cps[1..], WalkStep(env, M, s, exp, cps[0], st), from, all);
    }
  }

  /** What `layout` returns and leaves behind: the vertices it wrote, the
      glyph count it returns, the final pen and the font with any sorts the
      string added; `glyphs` are the glyphs set, in order. */
  datatype Laid = Laid(verts: seq<Vert>, count: nat, pen: int, font: Font, glyphs: seq<Glyph>)

  /** `layout`: count the spaces of the string, then walk it with the pen at
      0. */
  function Layout(F: Font, env: Env, str: seq<byte>, exp: int, M: seq<real>): (r: Laid)
    requires Ready(F, env) && IsMatrix(M)
    ensures Ready(r.font, env)
    ensures r.font == F.(sorts := r.font.sorts, cur := r.font.cur)
    ensures |r.verts| == 4 * r.count
    ensures r.count <= NonSpaces(Chars(str))
    ensures (forall n :: env.grows(n)) ==> r.count == NonSpaces(Chars(str))
  {
    var cps := Chars(str);
    var st := Walk(env, M, Spaces(cps), exp, cps, Pen(F, 0, 0, 0, [], 0, []));
    Laid(st.verts, st.i, st.x, st.font, st.glyphs)
  }

  /** The vertices of a laid-out string are the quads of the glyphs it set,
      one per counted quad, and their sorts are cached. */
  lemma LayoutDrawn(F: Font, env: Env, str: seq<byte>, exp: int, M: seq<real>)
    requires Ready(F, env) && IsMatrix(M)
    ensures var r := Layout(F, env, str, exp, M);
      |r.glyphs| == r.count && Drawn(r.verts, r.glyphs) && Cached(r.glyphs, r.font)
  {
    var cps := Chars(str);
    var st := Pen(F, 0, 0, 0, [], 0, []);
    WalkDrawn(env, M, Spaces(cps), exp, cps, st);
    WalkCached(env, M, Spaces(cps), exp, cps, st);
  }

  /** The vertices of a laid-out string are the quads of the glyphs it set,
      in order, one glyph per counted quad: each is the `line_set` quad of a
      cached sort, matching the face, of a non-space codepoint of the string,
      at its kerned pen. */
  lemma LayoutGlyphs(F: Font, env: Env, str: seq<byte>, exp: int, M: seq<real>)
    requires Ready(F, env) && IsMatrix(M)
    ensures var r := Layout(F, env, str, exp, M);
      F.s > 0 && |r.glyphs| == r.count && Drawn(r.verts, r.glyphs) && SetOut(r.glyphs, F.s, env.adv, M) &&
      Cached(r.glyphs, r.font) && Of(r.glyphs, 0, Chars(str)) &&
      forall j :: 0 <= j < |r.glyphs| ==> Matches(r.glyphs[j].sort, env.face)
  {
    var cps := Chars(str);
    var st := Pen(F, 0, 0, 0, [], 0, []);
    var r := Layout(F, env, str, exp, M);
    WalkDrawn(env, M, Spaces(cps), exp, cps, st);
    WalkSetOut(env, M, Spaces(cps), exp, cps, st);
    WalkCached(env, M, Spaces(cps), exp, cps, st);
    WalkOf(env, M, Spaces(cps), exp, cps, st, 0, cps);
    forall j | 0 <= j < |r.glyphs| ensures Matches(r.glyphs[j].sort, env.face) {
      assert r.glyphs[j].sort in r.font.sorts;
    }
  }

  /** The pen offset the expansion has built up after `e` of `s` spaces. */
  function Offset(exp: int, e: nat, s: nat): int {
    if s == 0 then 0 else Div(exp * e, s)
  }

  /** One step with expansion `exp` and one without keep the pens apart by
      the offset of the spaces passed so far, and do the same lookups. */
  lemma StepExpansion(env: Env, M: seq<real>, s: nat, exp: int, c: int, st: Pen, st0: Pen)
    requires Ready(st.font, env) && IsMatrix(M) && |st.verts| == 4 * st.i
    requires c == 0x20 ==> st.e < s
    requires st0 == st.(x := st0.x, verts := st0.verts, glyphs := st0.glyphs) && |st0.verts| == |st.verts|
    requires st.x - st0.x == Offset(exp, st.e, s)
    ensures var r, r0 := WalkStep(env, M, s, exp, c, st), WalkStep(env, M, s, 0, c, st0);
      r0 == r.(x := r0.x, verts := r0.verts, glyphs := r0.glyphs) && |r0.verts| == |r.verts| &&
      r.x - r0.x == Offset(exp, r.e, s)
  {
    if c == 0x20 {
      var e := st.e;
      assert 0 * (e + 1) == 0 && 0 * e == 0;
      assert Share(0, e, s) == 0;
    }
  }

  /** Walking with expansion `exp` and without it does the same lookups,
      sets the same number of glyphs and ends with pens that differ by the
      offset of all `s` spaces. */
  lemma {:induction false} WalkExpansion(env: Env, M: seq<real>, s: nat, exp: int, cps: seq<int>, st: Pen, st0: Pen)
    requires Ready(st.font, env) && IsMatrix(M)
    requires st.e + Spaces(cps) == s && |st.verts| == 4 * st.i
    requires st0 == st.(x := st0.x, verts := st0.verts, glyphs := st0.glyphs) && |st0.verts| == |st.verts|
    requires st.x - st0.x == Offset(exp, st.e, s)
    ensures var r, r0 := Walk(env, M, s, exp, cps, st), Walk(env, M, s, 0, cps, st0);
      r.font == r0.font && r.i == r0.i && r.x - r0.x == Offset(exp, s, s)
    decreases |cps|
  {
    if cps != [] {
      StepExpansion(env, M, s, exp, cps[0], st, st0);
      var st1 := WalkStep(env, M, s, exp, cps[0], st);
      var st01 := WalkStep(env, M, s, 0, cps[0], st0);
      WalkExpansion(env, M, s, exp, cps[1..], st1, st01);
    }
  }

  /** Justification adds exactly `exp` pixels to the pen of a string with
      spaces, and nothing to one without; the glyphs set and the font are the
      same as without expansion. */
  lemma LayoutExpansion(F: Font, env: Env, str: seq<byte>, exp: int, M: seq<real>)
    requires Ready(F, env) && IsMatrix(M)
    ensures var r, r0 := Layout(F, env, str, exp, M), Layout(F, env, str, 0, M);
      r.font == r0.font && r.count == r0.count &&
      r.pen - r0.pen == (if Spaces(Chars(str)) > 0 then exp else 0)
  {
    var cps := Chars(str);
    var s := Spaces(cps);
    var st := Pen(F, 0, 0, 0, [], 0, []);
    assert exp * 0 == 0;
    if s > 0 {
      assert Div(exp * 0, s) == 0;
      DivMultiple(exp, s);
    }
    WalkExpansion(env, M, s, exp, cps, st, st);
  }

  /** The matrix `line_layout` uses for string `i` when the caller gives
      none: the identity, moved down `i` line heights. */
  function DefaultMatrix(i: int, h: int): (M: seq<real>)
    ensures IsMatrix(M)
  {
    [1.0, 0.0, 0.0, 0.0,
     0.0, 1.0, 0.0, 0.0,
     0.0, 0.0, 1.0, 0.0,
     0.0, (-i * h) as real, 0.0, 1.0]
  }

  /** The default matrix only translates: string `i` is set `i` line heights
      below the first, at depth 0. */
  lemma DefaultMatrixTranslates(i: int, h: int, px: int, py: int)
    ensures Apply(DefaultMatrix(i, h), px, py) == (px as real, (py - i * h) as real, 0.0)
  {
  }

  /** What `line_layout` returns: no line when the line record cannot be
      allocated; otherwise the line's glyph count `n` and its vertex array,
      absent when the array cannot be allocated. */
  datatype Line = Line(verts: Option<seq<Vert>>, n: nat)
  datatype LineOut = LineOut(line: Option<Line>, font: Font)

  function CountAll(strs: seq<seq<byte>>): nat {
    if strs == [] then 0 else NonSpaces(Chars(strs[0])) + CountAll(strs[1..])
  }

  /** Counting from string `i` on counts string `i`, then the rest. */
  lemma CountAllFrom(strs: seq<seq<byte>>, i: nat)
    requires i < |strs|
    ensures CountAll(strs[i..]) == NonSpaces(Chars(strs[i])) + CountAll(strs[i + 1..])
  {
    assert strs[i..][1..] == strs[i + 1..];
  }

  /** Expansions and matrices are optional per-string arrays; a given one has
      an entry for every string. */
  predicate Args(strs: seq<seq<byte>>, expv: Option<seq<int>>, matv: Option<seq<seq<real>>>) {
    (expv.Some? ==> |expv.value| >= |strs|) &&
    (matv.Some? ==> |matv.value| >= |strs| && forall M :: M in matv.value ==> IsMatrix(M))
  }

  /** The expansion of string `i`: its entry, or 0 when none is given. */
  function ExpansionOf(expv: Option<seq<int>>, i: nat): int
    requires expv.Some? ==> i < |expv.value|
  {
    if expv.Some? then expv.value[i] else 0
  }

  /** The matrix of string `i`: its entry, or the default one when none is
      given. */
  function MatrixOf(strs: seq<seq<byte>>, expv: Option<seq<int>>, matv: Option<seq<seq<real>>>, i: nat, h: int): (M: seq<real>)
    requires Args(strs, expv, matv) && i < |strs|
    ensures IsMatrix(M)
  {
    if matv.Some? then
      assert matv.value[i] in matv.value;
      matv.value[i]
    else DefaultMatrix(i, h)
  }

  /** The loop of `line_layout` from string `i` on: each string is laid out
      with its expansion (or 0) and its matrix (or the default one), and the
      vertices are appended. */
  function LayoutFrom(F: Font, env: Env, strs: seq<seq<byte>>, expv: Option<seq<int>>,
                      matv: Option<seq<seq<real>>>, i: nat): (r: Laid)
    requires Ready(F, env) && Args(strs, expv, matv) && i <= |strs|
    ensures Ready(r.font, env)
    ensures r.font == F.(sorts := r.font.sorts, cur := r.font.cur)
    ensures |r.verts| == 4 * r.count
    ensures r.count <= CountAll(strs[i..])
    ensures (forall n :: env.grows(n)) ==> r.count == CountAll(strs[i..])
    decreases |strs| - i
  {
    if i == |strs| then Laid([], 0, 0, F, [])
    else
      var one := Layout(F, env, strs[i], ExpansionOf(expv, i), MatrixOf(strs, expv, matv, i, F.h));
      var rest := LayoutFrom(one.font, env, strs, expv, matv, i + 1);
      CountAllFrom(strs, i);
      Laid(one.verts + rest.verts, one.count + rest.count, rest.pen, rest.font, one.glyphs + rest.glyphs)
  }

  /** One turn of the loop: string `i` laid out, then the rest after it. */
  lemma LayoutFromCons(F: Font, env: Env, strs: seq<seq<byte>>, expv: Option<seq<int>>,
                       matv: Option<seq<seq<real>>>, i: nat)
    requires Ready(F, env) && Args(strs, expv, matv) && i < |strs|
    ensures var one := Layout(F, env, strs[i], ExpansionOf(expv, i), MatrixOf(strs, expv, matv, i, F.h));
      var rest := LayoutFrom(one.font, env, strs, expv, matv, i + 1);
      LayoutFrom(F, env, strs, expv, matv, i)
        == Laid(one.verts + rest.verts, one.count + rest.count, rest.pen, rest.font, one.glyphs + rest.glyphs)
  {
  }

  lemma ConcatDrawn(v1: seq<Vert>, g1: seq<Glyph>, v2: seq<Vert>, g2: seq<Glyph>)
    requires Drawn(v1, g1) && Drawn(v2, g2)
    ensures Drawn(v1 + v2, g1 + g2)
  {
    forall j | 0 <= j < |g1| + |g2|
      ensures Quad(v1 + v2, j) == (g1 + g2)[j].quad
    {
      if j < |g1| {
        assert Quad(v1 + v2, j) == Quad(v1, j);
      } else {
        assert Quad(v1 + v2, j) == Quad(v2, j - |g1|);
      }
    }
  }

  /** The vertices of several strings laid out one after another are the
      quads of all the glyphs they set, in order, one glyph per counted
      quad. */
  lemma {:induction false} LayoutFromGlyphs(F: Font, env: Env, strs: seq<seq<byte>>, expv: Option<seq<int>>,
                                            matv: Option<seq<seq<real>>>, i: nat)
    requires Ready(F, env) && Args(strs, expv, matv) && i <= |strs|
    ensures var r := LayoutFrom(F, env, strs, expv, matv, i);
      |r.glyphs| == r.count && Drawn(r.verts, r.glyphs)
    decreases |strs| - i
  {
    if i < |strs| {
      var exp, M := ExpansionOf(expv, i), MatrixOf(strs, expv, matv, i, F.h);
      var one := Layout(F, env, strs[i], exp, M);
      var rest := LayoutFrom(one.font, env, strs, expv, matv, i + 1);
      LayoutFromCons(F, env, strs, expv, matv, i);
      LayoutDrawn(F, env, strs[i], exp, M);
      LayoutFromGlyphs(one.font, env, strs, expv, matv, i + 1);
      ConcatDrawn(one.verts, one.glyphs, rest.verts, rest.glyphs);
    }
  }

  lemma ConcatCached(g1: seq<Glyph>, g2: seq<Glyph>, F: Font)
    requires Cached(g1, F) && Cached(g2, F)
    ensures Cached(g1 + g2, F)
  {
    forall j | 0 <= j < |g1 + g2| ensures (g1 + g2)[j].sort in F.sorts {
      if j >= |g1| {
        assert (g1 + g2)[j] == g2[j - |g1|];
      }
    }
  }

  /** Every glyph set while laying out several strings has its sort cached in
      the font left at the end. */
  lemma {:induction false} LayoutFromCached(F: Font, env: Env, strs: seq<seq<byte>>, expv: Option<seq<int>>,
                                            matv: Option<seq<seq<real>>>, i: nat)
    requires Ready(F, env) && Args(strs, expv, matv) && i <= |strs|
    ensures var r := LayoutFrom(F, env, strs, expv, matv, i);
      Cached(r.glyphs, r.font)
    decreases |strs| - i
  {
    if i < |strs| {
      var exp, M := ExpansionOf(expv, i), MatrixOf(strs, expv, matv, i, F.h);
      var one := Layout(F, env, strs[i], exp, M);
      var rest := LayoutFrom(one.font, env, strs, expv, matv, i + 1);
      LayoutFromCons(F, env, strs, expv, matv, i);
      LayoutDrawn(F, env, strs[i], exp, M);
      LayoutFromCached(one.font, env, strs, expv, matv, i + 1);
      KeptCached(one.glyphs, one.font, env, strs, expv, matv, i + 1);
      ConcatCached(one.glyphs, rest.glyphs, rest.font);
    }
  }

  /** Glyphs cached before laying out strings from `i` on stay cached. */
  lemma KeptCached(gs: seq<Glyph>, F: Font, env: Env, strs: seq<seq<byte>>, expv: Option<seq<int>>,
                   matv: Option<seq<seq<real>>>, i: nat)
    requires Ready(F, env) && Args(strs, expv, matv) && i <= |strs| && Cached(gs, F)
    ensures Cached(gs, LayoutFrom(F, env, strs, expv, matv, i).font)
  {
    forall j | 0 <= j < |gs| ensures gs[j].sort in LayoutFrom(F, env, strs, expv, matv, i).font.sorts {
      LayoutFromKeepsSorts(F, env, strs, expv, matv, i, gs[j].sort);
    }
  }

  /** Laying out one string keeps every cached sort. */
  lemma LayoutKeepsSorts(F: Font, env: Env, str: seq<byte>, exp: int, M: seq<real>, S: Sort)
    requires Ready(F, env) && IsMatrix(M) && S in F.sorts
    ensures S in Layout(F, env, str, exp, M).font.sorts
  {
    var cps := Chars(str);
    WalkKeepsSorts(env, M, Spaces(cps), exp, cps, Pen(F, 0, 0, 0, [], 0, []), S);
  }

  /** Laying out strings keeps every cached sort. */
  lemma {:induction false} LayoutFromKeepsSorts(F: Font, env: Env, strs: seq<seq<byte>>, expv: Option<seq<int>>,
                                                matv: Option<seq<seq<real>>>, i: nat, S: Sort)
    requires Ready(F, env) && Args(strs, expv, matv) && i <= |strs| && S in F.sorts
    ensures S in LayoutFrom(F, env, strs, expv, matv, i).font.sorts
    decreases |strs| - i
  {
    if i < |strs| {
      var exp, M := ExpansionOf(expv, i), MatrixOf(strs, expv, matv, i, F.h);
      var one := Layout(F, env, strs[i], exp, M);
      LayoutFromCons(F, env, strs, expv, matv, i);
      LayoutKeepsSorts(F, env, strs[i], exp, M, S);
      LayoutFromKeepsSorts(one.font, env, strs, expv, matv, i + 1, S);
    }
  }

  /** `line_layout`. The line's glyph count is the number of non-space
      codepoints of all strings, and its vertex array holds four vertices per
      counted glyph: the quads that were set, then zeroed vertices for any
      glyph whose lookup failed. */
  function LineLayout(F: Font, env: Env, strs: seq<seq<byte>>, expv: Option<seq<int>>,
                      matv: Option<seq<seq<real>>>, lineOk: bool, vertsOk: bool): (r: LineOut)
    requires Ready(F, env) && Args(strs, expv, matv)
    ensures Ready(r.font, env)
    ensures r.font == F.(sorts := r.font.sorts, cur := r.font.cur)
    ensures r.line.Some? <==> lineOk
    ensures r.line.Some? ==> r.line.value.n == CountAll(strs) && (r.line.value.verts.Some? <==> vertsOk)
    ensures r.line.Some? && r.line.value.verts.Some? ==> |r.line.value.verts.value| == 4 * r.line.value.n
    ensures r.line.None? || r.line.value.verts.None? ==> r.font == F
    ensures r.line.Some? && r.line.value.verts.Some? ==>
              var laid := LayoutFrom(F, env, strs, expv, matv, 0);
              r.line.value.verts.value[..4 * laid.count] == laid.verts &&
              forall k :: 4 * laid.count <= k < 4 * r.line.value.n ==> r.line.value.verts.value[k] == Zero
  {
    var n := CountAll(strs);
    if !lineOk then LineOut(None, F)
    else if !vertsOk then LineOut(Some(Line(None, n)), F)
    else
      assert strs[0..] == strs;
      var laid := LayoutFrom(F, env, strs, expv, matv, 0);
      var verts := laid.verts + seq(4 * n - |laid.verts|, _ => Zero);
      LineOut(Some(Line(Some(verts), n)), laid.font)
  }

  /** `line_create`: one string, no expansion, the default matrix. The line
      exists when its record is allocated; its vertex array, when allocated,
      holds the string's unexpanded layout under the identity matrix followed
      by zeros, four vertices for every non-space. */
  function LineCreate(F: Font, env: Env, str: seq<byte>, lineOk: bool, vertsOk: bool): (r: LineOut)
    requires Ready(F, env)
    ensures Ready(r.font, env)
    ensures r.line.Some? <==> lineOk
    ensures r.line.Some? ==> r.line.value.n == NonSpaces(Chars(str)) && (r.line.value.verts.Some? <==> vertsOk)
    ensures r.line.Some? && r.line.value.verts.Some? ==> |r.line.value.verts.value| == 4 * r.line.value.n
    ensures r.line.None? || r.line.value.verts.None? ==> r.font == F
    ensures r.line.Some? && r.line.value.verts.Some? ==>
              var one := Layout(F, env, str, 0, DefaultMatrix(0, F.h));
              r.font == one.font &&
              r.line.value.verts.value[..4 * one.count] == one.verts &&
              forall k :: 4 * one.count <= k < 4 * r.line.value.n ==> r.line.value.verts.value[k] == Zero
    ensures r.line.Some? && r.line.value.verts.Some? && (forall n :: env.grows(n)) ==>
              r.line.value.verts.value == Layout(F, env, str, 0, DefaultMatrix(0, F.h)).verts
  {
    var r := LineLayout(F, env, [str], None, None, lineOk, vertsOk);
    assert CountAll([str]) == NonSpaces(Chars(str)) by {
      assert [str][1..] == [];
    }
    var one := Layout(F, env, str, 0, DefaultMatrix(0, F.h));
    assert LayoutFrom(F, env, [str], None, None, 0) == Laid(one.verts, one.count, 0, one.font, one.glyphs) by {
      LayoutFromCons(F, env, [str], None, None, 0);
      assert LayoutFrom(one.font, env, [str], None, None, 1) == Laid([], 0, 0, one.font, []);
      assert one.verts + [] == one.verts && one.glyphs + [] == one.glyphs;
    }
    r
  }

  /** One iteration of `line_length` as written: a space adds the scaled
      space advance, a glyph its scaled advance. The kerning with the previous
      glyph is fetched but never added. */
  function LengthStep(F: Font, env: Env, c: int, x: int): (r: (int, Font))
    requires Ready(F, env)
    ensures Ready(r.1, env)
    ensures r.1 == F.(sorts := r.1.sorts, cur := r.1.cur)
  {
    if c == 0x20 then (x + env.adv(F.a), F)
    else
      var found := SortSearch(F, env.face, c, env.grows);
      if found.sort.Some? then (x + env.adv(found.sort.value.a), found.font)
      else (x, found.font)
  }

  function LengthFrom(F: Font, env: Env, cps: seq<int>, x: int): (r: (int, Font))
    requires Ready(F, env)
    ensures Ready(r.1, env)
    decreases |cps|
  {
    if cps == [] then (x, F)
    else
      var (x1, F1) := LengthStep(F, env, cps[0], x);
      LengthFrom(F1, env, cps[1..], x1)
  }

  /** `line_length` as written. */
  function LineLength(F: Font, env: Env, str: seq<byte>): (r: (int, Font))
    requires Ready(F, env)
    ensures Ready(r.1, env)
    ensures Chars(str) == [] ==> r == (0, F)
  {
    LengthFrom(F, env, Chars(str), 0)
  }

  /** The pen after one codepoint as `line_length` evidently intends it: the
      kerning with the previous glyph is added, as `layout` adds it. */
  function KernedStep(F: Font, env: Env, c: int, x: int, l: nat): (r: (int, Font, nat))
    requires Ready(F, env)
    ensures Ready(r.1, env)
    ensures r.1 == F.(sorts := r.1.sorts, cur := r.1.cur)
  {
    if c == 0x20 then (x + env.adv(F.a), F, l)
    else
      var found := SortSearch(F, env.face, c, env.grows);
      if found.sort.Some? then
        var g := env.face.index(c);
        (x + Shr6(env.face.kerning(l, g)) + env.adv(found.sort.value.a), found.font, g)
      else (x, found.font, l)
  }

  function KernedFrom(F: Font, env: Env, cps: seq<int>, x: int, l: nat): (r: (int, Font))
    requires Ready(F, env)
    ensures Ready(r.1, env)
    decreases |cps|
  {
    if cps == [] then (x, F)
    else
      var (x1, F1, l1) := KernedStep(F, env, cps[0], x, l);
      KernedFrom(F1, env, cps[1..], x1, l1)
  }

  /** `line_length` as evidently intended. */
  function LineLengthKerned(F: Font, env: Env, str: seq<byte>): (r: (int, Font))
    requires Ready(F, env)
    ensures Ready(r.1, env)
    ensures Chars(str) == [] ==> r == (0, F)
  {
    KernedFrom(F, env, Chars(str), 0, 0)
  }

  /** One kerned measuring step is one unexpanded layout step. */
  lemma KernedIsStep(env: Env, M: seq<real>, s: nat, c: int, st: Pen)
    requires Ready(st.font, env) && IsMatrix(M) && |st.verts| == 4 * st.i
    requires c == 0x20 ==> st.e < s
    ensures var r := WalkStep(env, M, s, 0, c, st);
      KernedStep(st.font, env, c, st.x, st.l) == (r.x, r.font, r.l)
  {
    if c == 0x20 {
      SpaceIsKerned(env, M, s, st);
    } else {
      GlyphIsKerned(env, M, s, c, st);
    }
  }

  lemma SpaceIsKerned(env: Env, M: seq<real>, s: nat, st: Pen)
    requires Ready(st.font, env) && IsMatrix(M) && |st.verts| == 4 * st.i && st.e < s
    ensures var r := WalkStep(env, M, s, 0, 0x20, st);
      KernedStep(st.font, env, 0x20, st.x, st.l) == (r.x, r.font, r.l)
  {
    assert 0 * (st.e + 1) == 0 && 0 * st.e == 0;
    assert Share(0, st.e, s) == 0;
  }

  lemma GlyphIsKerned(env: Env, M: seq<real>, s: nat, c: int, st: Pen)
    requires Ready(st.font, env) && IsMatrix(M) && |st.verts| == 4 * st.i && c != 0x20
    ensures var r := WalkStep(env, M, s, 0, c, st);
      KernedStep(st.font, env, c, st.x, st.l) == (r.x, r.font, r.l)
  {
    var r := WalkStep(env, M, s, 0, c, st);
    var k := KernedStep(st.font, env, c, st.x, st.l);
    GlyphStep(env, M, s, 0, c, st);
    KernedGlyph(env, c, st.font, st.x, st.l);
    assert k.0 == r.x && k.1 == r.font && k.2 == r.l;
  }

  /** What one kerned measuring step does with a character other than a
      space. */
  lemma KernedGlyph(env: Env, c: int, F: Font, x: int, l: nat)
    requires Ready(F, env) && c != 0x20
    ensures var found := SortSearch(F, env.face, c, env.grows);
      var g := env.face.index(c);
      var k := KernedStep(F, env, c, x, l);
      k.1 == found.font &&
      (found.sort.Some? ==> k.0 == x + Shr6(env.face.kerning(l, g)) + env.adv(found.sort.value.a) && k.2 == g) &&
      (found.sort.None? ==> k.0 == x && k.2 == l)
  {
  }

  /** What one step does with a character other than a space. */
  lemma GlyphStep(env: Env, M: seq<real>, s: nat, exp: int, c: int, st: Pen)
    requires Ready(st.font, env) && IsMatrix(M) && |st.verts| == 4 * st.i && c != 0x20
    ensures var found := SortSearch(st.font, env.face, c, env.grows);
      var r := WalkStep(env, M, s, exp, c, st);
      var g := env.face.index(c);
      r.font == found.font &&
      (found.sort.Some? ==> r.x == st.x + Shr6(env.face.kerning(st.l, g)) + env.adv(found.sort.value.a) && r.l == g) &&
      (found.sort.None? ==> r.x == st.x && r.l == st.l)
  {
  }

  /** The kerned measurement follows the pen of the walk without expansion:
      same pen, same font. */
  lemma {:induction false} KernedIsWalk(env: Env, M: seq<real>, s: nat, cps: seq<int>, st: Pen)
    requires Ready(st.font, env) && IsMatrix(M)
    requires st.e + Spaces(cps) == s && |st.verts| == 4 * st.i
    ensures var r := Walk(env, M, s, 0, cps, st);
      KernedFrom(st.font, env, cps, st.x, st.l) == (r.x, r.font)
    decreases |cps|
  {
    if cps != [] {
      KernedIsStep(env, M, s, cps[0], st);
      KernedIsWalk(env, M, s, cps[1..], WalkStep(env, M, s, 0, cps[0], st));
    }
  }

  /** The corrected `line_length` is the pen `layout` reaches without
      expansion, under any matrix. */
  lemma LengthKernedIsLayoutPen(F: Font, env: Env, str: seq<byte>, M: seq<real>)
    requires Ready(F, env) && IsMatrix(M)
    ensures LineLengthKerned(F, env, str) == (Layout(F, env, str, 0, M).pen, Layout(F, env, str, 0, M).font)
  {
    var cps := Chars(str);
    KernedIsWalk(env, M, Spaces(cps), cps, Pen(F, 0, 0, 0, [], 0, []));
  }

  /** Without kerning, the as-written and the corrected measurements agree
      step by step. */
  lemma LengthStepWithoutKerning(F: Font, env: Env, c: int, x: int, l: nat)
    requires Ready(F, env)
    requires forall p: nat, q: nat :: env.face.kerning(p, q) == 0
    ensures var k := KernedStep(F, env, c, x, l);
      LengthStep(F, env, c, x).0 == k.0 && LengthStep(F, env, c, x).1 == k.1
  {
    if c != 0x20 {
      KernedGlyph(env, c, F, x, l);
      LengthGlyph(env, c, F, x);
      assert env.face.kerning(l, env.face.index(c)) == 0;
    }
  }

  /** What one measuring step as written does with a character other than a
      space. */
  lemma LengthGlyph(env: Env, c: int, F: Font, x: int)
    requires Ready(F, env) && c != 0x20
    ensures var found := SortSearch(F, env.face, c, env.grows);
      var r := LengthStep(F, env, c, x);
      r.1 == found.font &&
      (found.sort.Some? ==> r.0 == x + env.adv(found.sort.value.a)) &&
      (found.sort.None? ==> r.0 == x)
  {
  }

  /** Without kerning the two measurements agree. */
  lemma {:induction false} LengthWithoutKerning(F: Font, env: Env, cps: seq<int>, x: int, l: nat)
    requires Ready(F, env)
    requires forall p: nat, q: nat :: env.face.kerning(p, q) == 0
    ensures LengthFrom(F, env, cps, x) == KernedFrom(F, env, cps, x, l)
    decreases |cps|
  {
    if cps != [] {
      LengthStepWithoutKerning(F, env, cps[0], x, l);
      var k := KernedStep(F, env, cps[0], x, l);
      LengthWithoutKerning(k.1, env, cps[1..], k.0, k.2);
    }
  }

  /** Where `line_length` as written goes wrong: for a two-glyph line whose
      characters are already cached, it falls short of the corrected
      measurement by exactly the kerning of the two pairs, so a face that
      kerns the pair (a negative kerning for "AV", say) gets a line longer
      than the one `layout` draws. */
  lemma KerningDropped(F: Font, env: Env, str: seq<byte>, c1: int, c2: int)
    requires Ready(F, env) && Chars(str) == [c1, c2]
    requires c1 != 0x20 && c2 != 0x20 && c1 in Keys(F.sorts) && c2 in Keys(F.sorts)
    ensures var g1, g2 := env.face.index(c1), env.face.index(c2);
      LineLengthKerned(F, env, str).0 ==
        LineLength(F, env, str).0 + Shr6(env.face.kerning(0, g1)) + Shr6(env.face.kerning(g1, g2))
    ensures var g1, g2 := env.face.index(c1), env.face.index(c2);
      env.face.kerning(0, g1) == 0 && Shr6(env.face.kerning(g1, g2)) != 0 ==>
        LineLengthKerned(F, env, str) != LineLength(F, env, str)
  {
    var cps := Chars(str);
    assert cps[1..] == [c2] && cps[1..][1..] == [];
    var L1 := LengthStep(F, env, c1, 0);
    var K1 := KernedStep(F, env, c1, 0, 0);
    assert L1.1 == F && K1.1 == F;
    var L2 := LengthStep(F, env, c2, L1.0);
    var K2 := KernedStep(F, env, c2, K1.0, K1.2);
    assert L2.1 == F && K2.1 == F;
    assert LengthFrom(F, env, cps, 0) == LengthFrom(F, env, [c2], L1.0) == L2;
    assert KernedFrom(F, env, cps, 0, 0) == KernedFrom(F, env, [c2], K1.0, K1.2) == (K2.0, K2.1);
  }

  /** The kernings the corrected measurement adds along a run of codepoints:
      for every character other than a space whose sort is found, the
      kerning of the previous found glyph with it, shifted down by six bits. */
  function KernSum(F: Font, env: Env, cps: seq<int>, l: nat): int
    requires Ready(F, env)
    decreases |cps|
  {
    if cps == [] then 0
    else
      var k := KernedStep(F, env, cps[0], 0, l);
      var kern := if cps[0] != 0x20 && SortSearch(F, env.face, cps[0], env.grows).sort.Some?
        then Shr6(env.face.kerning(l, env.face.index(cps[0]))) else 0;
      kern + KernSum(k.1, env, cps[1..], k.2)
  }

  /** One step: the as-written and the corrected measurements load the same
      font, and the corrected pen moves further by exactly the kerning. */
  lemma LengthStepLessKerning(F: Font, env: Env, c: int, x: int, y: int, l: nat)
    requires Ready(F, env)
    ensures var L := LengthStep(F, env, c, x);
      var K := KernedStep(F, env, c, y, l);
      var kern := if c != 0x20 && SortSearch(F, env.face, c, env.grows).sort.Some?
        then Shr6(env.face.kerning(l, env.face.index(c))) else 0;
      L.1 == K.1 && K.0 - y == L.0 - x + kern &&
      K.1 == KernedStep(F, env, c, 0, l).1 && K.2 == KernedStep(F, env, c, 0, l).2
  {
    if c != 0x20 {
      KernedGlyph(env, c, F, y, l);
      KernedGlyph(env, c, F, 0, l);
      LengthGlyph(env, c, F, x);
    }
  }

  /** For every line, face and starting pens, the distance `line_length` as
      written measures is the corrected one less the kernings it drops; both
      leave the same font behind. */
  lemma {:induction false} LengthLessKerning(F: Font, env: Env, cps: seq<int>, x: int, y: int, l: nat)
    requires Ready(F, env)
    ensures var L := LengthFrom(F, env, cps, x);
      var K := KernedFrom(F, env, cps, y, l);
      L.1 == K.1 && K.0 - y == L.0 - x + KernSum(F, env, cps, l)
    decreases |cps|
  {
    if cps != [] {
      LengthStepLessKerning(F, env, cps[0], x, y, l);
      var L1 := LengthStep(F, env, cps[0], x);
      var K1 := KernedStep(F, env, cps[0], y, l);
      LengthLessKerning(L1.1, env, cps[1..], L1.0, K1.0, K1.2);
    }
  }

  /** `line_length` as written, for every string: the font it leaves is the
      one `layout` leaves, and the length it reports is the pen `layout`
      reaches without expansion less the kernings `layout` adds. */
  lemma LineLengthIsLayoutLessKerning(F: Font, env: Env, str: seq<byte>, M: seq<real>)
    requires Ready(F, env) && IsMatrix(M)
    ensures var r := Layout(F, env, str, 0, M);
      LineLength(F, env, str).0 == r.pen - KernSum(F, env, Chars(str), 0) &&
      LineLength(F, env, str).1 == r.font
  {
    var r := Layout(F, env, str, 0, M);
    var cps := Chars(str);
    LengthKernedIsLayoutPen(F, env, str, M);
    assert KernedFrom(F, env, cps, 0, 0) == (r.pen, r.font);
    LengthLessKerning(F, env, cps, 0, 0, 0);
    var L := LengthFrom(F, env, cps, 0);
    assert L.0 == r.pen - KernSum(F, env, cps, 0);
    assert L.1 == r.font;
    assert LineLength(F, env, str) == L;
  }
}
