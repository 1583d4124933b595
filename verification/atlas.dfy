/** The glyph atlas of the typesetter (type.c): its size (`atlas_size`) and
    the shelf packing that gives every glyph a rectangle in it (the placement
    part of `font_sort_create`).

    Glyphs are laid left to right along a shelf; a glyph that would reach the
    right edge opens a new shelf below the tallest glyph of the current one.
    One pixel of gutter is kept to the right of each glyph and below each
    shelf. Nothing bounds the shelves vertically. */
module Atlas {

  predicate IsPow2(n: int)
    decreases if n < 1 then 0 else n
  {
    n == 1 || (n > 1 && n % 2 == 0 && IsPow2(n / 2))
  }

  /** `atlas_size`: the first power of two that is at least four times the
      line height. */
  method AtlasSize(h: int) returns (s: int)
    ensures IsPow2(s) && s >= 4 * h
    ensures s > 1 ==> s / 2 < 4 * h
  {
    s := 1;
    while s < h * 4
      invariant IsPow2(s)
      invariant s > 1 ==> s / 2 < 4 * h
      decreases 4 * h - s
    {
      s := s * 2;
    }
  }

  /** Of two powers of two, the smaller is at most half the larger. */
  lemma {:induction false} Pow2Gap(a: int, b: int)
    requires IsPow2(a) && IsPow2(b) && a < b
    ensures 2 * a <= b
    decreases b
  {
    if a > 1 {
      Pow2Gap(a / 2, b / 2);
    }
  }

  /** The atlas size is the least power of two that fits four line heights:
      every other candidate is at least as large. */
  lemma AtlasSizeIsLeast(h: int, s: int, p: int)
    requires IsPow2(s) && s >= 4 * h && (s > 1 ==> s / 2 < 4 * h)
    requires IsPow2(p) && p >= 4 * h
    ensures s <= p
  {
    if s > 1 && p < s {
      Pow2Gap(s / 2, p);
      Pow2Gap(p, s);
    }
  }

  /** The packing cursor: the next free column `x` on the current shelf at
      row `y`, and the height `m` of the tallest glyph placed on it. */
  datatype Cursor = Cursor(x: int, y: int, m: int)

  /** A glyph's pixels in the atlas: columns `[X, X+W)`, rows `[Y, Y+H)`. */
  datatype Rect = Rect(X: int, Y: int, W: int, H: int)

  datatype Placed = Placed(rect: Rect, next: Cursor)

  /** The cursor of an atlas nothing has been placed in. */
  const Start := Cursor(0, 0, 0)

  /** Place a `W` by `H` glyph in an atlas of width `s`. */
  function Place(cur: Cursor, s: int, W: int, H: int): (r: Placed)
    ensures r.rect.W == W && r.rect.H == H
    ensures 0 <= cur.x && W < s ==> 0 <= r.rect.X && r.rect.X + W < s
    ensures r.next.x == r.rect.X + W + 1 && r.next.y == r.rect.Y
    ensures r.next.m >= H && (cur.m >= 0 ==> r.next.m >= 0)
    ensures cur.x + W < s ==> r.rect.X == cur.x && r.rect.Y == cur.y && r.next.m >= cur.m
    ensures cur.x + W >= s ==> r.rect.X == 0 && r.rect.Y == cur.y + cur.m + 1
  {
    var c := if cur.x + W >= s then Cursor(0, cur.y + cur.m + 1, 0) else cur;
    Placed(Rect(c.x, c.y, W, H), Cursor(c.x + W + 1, c.y, if H > c.m then H else c.m))
  }

  /** Rectangle `r` lies wholly above the current shelf, or on it to the left
      of the cursor and no taller than the shelf, with a gutter either way. */
  predicate Below(r: Rect, cur: Cursor) {
    r.Y + r.H < cur.y || (r.Y == cur.y && r.X + r.W < cur.x && r.H <= cur.m)
  }

  /** Two rectangles are separated by at least one empty column or row. */
  predicate Apart(a: Rect, b: Rect) {
    a.X + a.W < b.X || b.X + b.W < a.X || a.Y + a.H < b.Y || b.Y + b.H < a.Y
  }

  predicate Inside(r: Rect, px: int, py: int) {
    r.X <= px < r.X + r.W && r.Y <= py < r.Y + r.H
  }

  /** Rectangles kept apart share no pixel, even when each is grown by the
      one-pixel gutter to its right and below it. */
  lemma ApartIsDisjoint(a: Rect, b: Rect, px: int, py: int)
    requires Apart(a, b)
    ensures !(Inside(Rect(a.X, a.Y, a.W + 1, a.H + 1), px, py) &&
              Inside(Rect(b.X, b.Y, b.W + 1, b.H + 1), px, py))
  {
  }

  /** What the packing keeps: every placed rectangle is below the cursor and
      any two distinct ones are apart. */
  predicate Packed(rects: set<Rect>, cur: Cursor) {
    cur.m >= 0 &&
    (forall r :: r in rects ==> Below(r, cur)) &&
    (forall a, b :: a in rects && b in rects && a != b ==> Apart(a, b))
  }

  /** Placing a glyph of non-negative size keeps the packing: the new
      rectangle is apart from every one placed before it. */
  lemma PlaceKeepsPacked(rects: set<Rect>, cur: Cursor, s: int, W: int, H: int)
    requires Packed(rects, cur) && W >= 0 && H >= 0
    ensures var p := Place(cur, s, W, H);
      p.rect !in rects && Packed(rects + {p.rect}, p.next)
  {
    var p := Place(cur, s, W, H);
    forall q | q in rects
      ensures Apart(q, p.rect) && Apart(p.rect, q) && Below(q, p.next)
    {
      PlaceAvoids(q, cur, s, W, H);
    }
  }

  /** The rectangle placed next is apart from anything below the cursor, and
      stays below the advanced cursor. */
  lemma PlaceAvoids(q: Rect, cur: Cursor, s: int, W: int, H: int)
    requires Below(q, cur) && cur.m >= 0 && W >= 0
    ensures var p := Place(cur, s, W, H);
      Apart(q, p.rect) && Apart(p.rect, q) && Below(q, p.next)
  {
    var p := Place(cur, s, W, H);
    if cur.x + W >= s {
      assert q.Y + q.H < p.rect.Y;
    } else {
      assert p.rect.X == cur.x && p.rect.Y == cur.y;
    }
  }
}
