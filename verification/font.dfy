/** The font of the typesetter (type.c): its line height, space advance and
    atlas, and the cache of rendered letter faces that `font_sort_search`
    fills lazily.

    The glyph provider (FreeType) is an oracle `Face`: a character map, glyph
    metrics in 26.6 fixed point, and pairwise kerning. The outcome of the
    `realloc` that grows the table is an oracle too, keyed on the table size
    at the time of the call. */
module FontCache {
  import opened CInt
  import Atlas
  import opened SortTable
  import opened Wrappers

  /** Glyph metrics in 26.6 fixed point, as the glyph provider reports them. */
  datatype Metrics = Metrics(bearingX: int, bearingY: int, width: int, height: int, advance: int)

  /** The glyph provider: glyph index of a character, metrics of a glyph,
      horizontal kerning between a left and a right glyph (26.6), and the
      line height of the face at the chosen pixel size (26.6). */
  datatype Face = Face(index: int -> nat, metrics: nat -> Metrics, kerning: (nat, nat) -> int, height: int)

  /** Glyph bitmaps have non-negative size. */
  ghost predicate WellFormed(face: Face) {
    forall g: nat :: face.metrics(g).width >= 0 && face.metrics(g).height >= 0
  }

  /** `h`: line height, `a`: space advance, `s`: atlas side, the sort table
      and the packing cursor. (`k`, the letter-space factor, lives in the
      typesetting environment.) */
  datatype Font = Font(h: int, a: int, s: int, sorts: seq<Sort>, cur: Atlas.Cursor)

  /** The metrics the face gives for character `c`, in whole pixels. */
  function Rendered(face: Face, c: int): (m: Metrics)
    ensures WellFormed(face) ==> m.width >= 0 && m.height >= 0
  {
    var g := face.metrics(face.index(c));
    Metrics(Shr6(g.bearingX), Shr6(g.bearingY), Shr6(g.width), Shr6(g.height), Shr6(g.advance))
  }

  /** Sort `S` caches what the face says about its character. */
  predicate Matches(S: Sort, face: Face) {
    var m := Rendered(face, S.c);
    S.x == m.bearingX && S.y == m.bearingY && S.a == m.advance && S.W == m.width && S.H == m.height
  }

  /** What a font keeps true between calls: a power-of-two atlas, a table
      sorted by code whose entries match the face, and atlas rectangles of
      non-negative size that are pairwise apart, lie below the cursor, start
      inside the atlas and stay inside it horizontally when narrower than
      it. */
  predicate Valid(F: Font, face: Face) {
    Atlas.IsPow2(F.s) &&
    StrictlySorted(F.sorts) &&
    F.cur.x >= 0 && F.cur.y >= 0 && F.cur.m >= 0 &&
    (forall S :: S in F.sorts ==>
       Matches(S, face) && S.W >= 0 && S.H >= 0 &&
       0 <= S.X && 0 <= S.Y && (S.W < F.s ==> S.X + S.W < F.s) &&
       Atlas.Below(S.Rect(), F.cur)) &&
    (forall S, T | S in F.sorts && T in F.sorts :: PairApart(F.sorts, S, T))
  }

  /** Two different sorts of the table have rectangles kept apart. (Named so
      that the pairwise fact is drawn on only where a proof asks for it.) */
  predicate PairApart(sorts: seq<Sort>, S: Sort, T: Sort) {
    S in sorts && T in sorts && S != T ==> Atlas.Apart(S.Rect(), T.Rect())
  }

  /** The successful path of `font_create`: line height and space advance
      from the face, an atlas sized from the line height, no sorts yet. */
  method FontCreate(face: Face) returns (F: Font)
    ensures Valid(F, face) && F.sorts == []
    ensures F.h == Shr6(face.height) && F.a == Rendered(face, ' ' as int).advance
    ensures F.s >= 4 * F.h && (F.s > 1 ==> F.s / 2 < 4 * F.h)
  {
    var h := Shr6(face.height);
    var s := Atlas.AtlasSize(h);
    F := Font(h, Rendered(face, ' ' as int).advance, s, [], Atlas.Start);
  }

  /** `font_sort_create`: render character `c` and give it the next place in
      the atlas. */
  function SortCreate(F: Font, face: Face, c: int): (r: (Sort, Font))
    ensures r.0.c == c && Matches(r.0, face)
    ensures r.1 == F.(cur := r.1.cur)
    ensures r.0.Rect() == Atlas.Place(F.cur, F.s, r.0.W, r.0.H).rect
    ensures r.1.cur == Atlas.Place(F.cur, F.s, r.0.W, r.0.H).next
  {
    var m := Rendered(face, c);
    var p := Atlas.Place(F.cur, F.s, m.width, m.height);
    (Sort(c, m.bearingX, m.bearingY, m.advance, p.rect.X, p.rect.Y, m.width, m.height), F.(cur := p.next))
  }

  /** Creating a sort for a new character and inserting it keeps the font
      valid. */
  lemma SortCreateKeepsValid(F: Font, face: Face, c: int)
    requires Valid(F, face) && WellFormed(face) && c !in Keys(F.sorts)
    ensures var (S, F1) := SortCreate(F, face, c);
      Valid(F1.(sorts := Insert(F.sorts, S)), face)
  {
    var (S, F1) := SortCreate(F, face, c);
    var t := Insert(F.sorts, S);
    var p := Atlas.Place(F.cur, F.s, S.W, S.H);
    forall T | T in t
      ensures T == S || T in F.sorts
    {
      assert T in multiset(t);
    }
    forall T | T in F.sorts
      ensures T != S && Atlas.Apart(T.Rect(), S.Rect()) && Atlas.Apart(S.Rect(), T.Rect())
      ensures Atlas.Below(T.Rect(), p.next)
    {
      Atlas.PlaceAvoids(T.Rect(), F.cur, F.s, S.W, S.H);
    }
    forall A, B | A in t && B in t ensures PairApart(t, A, B) {
      if A in F.sorts && B in F.sorts {
        assert PairApart(F.sorts, A, B);
      }
    }
  }

  datatype Lookup = Lookup(sort: Option<Sort>, font: Font)

  /** `font_sort_search`: the sort for `c`, rendering and inserting it on a
      miss, then searching again. `grows(n)` says whether growing a table of
      `n` sorts to `n + 1` succeeds. */
  function SortSearch(F: Font, face: Face, c: int, grows: nat -> bool): (r: Lookup)
    requires Valid(F, face) && WellFormed(face)
    ensures Valid(r.font, face)
    ensures r.font == F.(sorts := r.font.sorts, cur := r.font.cur)
    ensures r.sort.Some? ==> r.sort.value in r.font.sorts && r.sort.value.c == c
    ensures r.sort.None? ==> r.font == F
    decreases if c in Keys(F.sorts) then 0 else 1
  {
    match BSearch(c, F.sorts)
    case Some(i) =>
      assert F.sorts[i] in F.sorts;
      Lookup(Some(F.sorts[i]), F)
    case None =>
      if grows(|F.sorts|) then
        var (S, F1) := SortCreate(F, face, c);
        var F2 := F1.(sorts := Insert(F.sorts, S));
        SortCreateKeepsValid(F, face, c);
        KeysGrow(F2.sorts, F.sorts, S);
        SortSearch(F2, face, c, grows)
      else
        Lookup(None, F)
  }

  /** A cached character is found and nothing changes; a missing one is
      found exactly when the table can grow. */
  lemma LookupOutcome(F: Font, face: Face, c: int, grows: nat -> bool)
    requires Valid(F, face) && WellFormed(face)
    ensures var r := SortSearch(F, face, c, grows);
      (c in Keys(F.sorts) ==> r.sort.Some? && r.font == F) &&
      (c !in Keys(F.sorts) ==> (r.sort.Some? <==> grows(|F.sorts|)))
    decreases if c in Keys(F.sorts) then 0 else 1
  {
    if c !in Keys(F.sorts) && grows(|F.sorts|) {
      var (S, F1) := SortCreate(F, face, c);
      var F2 := F1.(sorts := Insert(F.sorts, S));
      SortCreateKeepsValid(F, face, c);
      KeysGrow(F2.sorts, F.sorts, S);
      LookupOutcome(F2, face, c, grows);
      assert SortSearch(F, face, c, grows) == SortSearch(F2, face, c, grows);
    }
  }

  /** On a miss that succeeds, the table gains exactly the new sort, placed
      where the packing cursor stood, and the cursor moves past it. */
  lemma LookupInserts(F: Font, face: Face, c: int, grows: nat -> bool)
    requires Valid(F, face) && WellFormed(face)
    ensures var r := SortSearch(F, face, c, grows);
      r.sort.Some? && c !in Keys(F.sorts) ==>
        multiset(r.font.sorts) == multiset(F.sorts) + multiset{r.sort.value} &&
        r.sort.value.Rect() == Atlas.Place(F.cur, F.s, r.sort.value.W, r.sort.value.H).rect &&
        r.font.cur == Atlas.Place(F.cur, F.s, r.sort.value.W, r.sort.value.H).next
  {
    if c !in Keys(F.sorts) && grows(|F.sorts|) {
      var (S, F1) := SortCreate(F, face, c);
      var F2 := F1.(sorts := Insert(F.sorts, S));
      SortCreateKeepsValid(F, face, c);
      KeysGrow(F2.sorts, F.sorts, S);
      var r := SortSearch(F2, face, c, grows);
      LookupOutcome(F2, face, c, grows);
      assert r.font == F2;
      FoundIsNew(F2.sorts, F.sorts, S, r.sort.value);
      assert SortSearch(F, face, c, grows) == r;
    }
  }

  /** In a table that gained `S` for a code it lacked, the entry with that code
      is `S`. */
  lemma FoundIsNew(t: seq<Sort>, t0: seq<Sort>, S: Sort, T: Sort)
    requires multiset(t) == multiset(t0) + multiset{S} && S.c !in Keys(t0)
    requires T in t && T.c == S.c
    ensures T == S
  {
    assert T in multiset(t);
  }

  /** A lookup never drops or changes a cached sort. */
  lemma LookupKeeps(F: Font, face: Face, c: int, grows: nat -> bool, S: Sort)
    requires Valid(F, face) && WellFormed(face) && S in F.sorts
    ensures S in SortSearch(F, face, c, grows).font.sorts
  {
    var r := SortSearch(F, face, c, grows);
    LookupInserts(F, face, c, grows);
    if r.font != F {
      assert S in multiset(F.sorts);
      assert S in multiset(r.font.sorts);
    }
  }

  /** The sort a lookup returns has the face's metrics for its character. */
  lemma LookupMatchesFace(F: Font, face: Face, c: int, grows: nat -> bool)
    requires Valid(F, face) && WellFormed(face)
    ensures var r := SortSearch(F, face, c, grows);
      r.sort.Some? ==> r.sort.value.c == c && Matches(r.sort.value, face)
  {
  }

  /** After a successful lookup the table holds exactly one entry for `c`. */
  lemma LookupUnique(F: Font, face: Face, c: int, grows: nat -> bool, i: nat)
    requires Valid(F, face) && WellFormed(face)
    requires var r := SortSearch(F, face, c, grows);
      r.sort.Some? && i < |r.font.sorts| && r.font.sorts[i].c == c
    ensures var r := SortSearch(F, face, c, grows); r.font.sorts[i] == r.sort.value
  {
    var r := SortSearch(F, face, c, grows);
    var j :| 0 <= j < |r.font.sorts| && r.font.sorts[j] == r.sort.value;
    KeyAtOnePlace(r.font.sorts, i, j);
  }

  /** Looking the same character up twice gives the same sort and changes
      nothing the second time, whatever the allocator does then. */
  lemma LookupIdempotent(F: Font, face: Face, c: int, grows: nat -> bool, grows2: nat -> bool)
    requires Valid(F, face) && WellFormed(face)
    ensures var r := SortSearch(F, face, c, grows);
      r.sort.Some? ==> SortSearch(r.font, face, c, grows2) == r
  {
    var r := SortSearch(F, face, c, grows);
    if r.sort.Some? {
      assert r.sort.value in r.font.sorts;
      var r2 := SortSearch(r.font, face, c, grows2);
      var i :| 0 <= i < |r2.font.sorts| && r2.font.sorts[i] == r2.sort.value;
      LookupUnique(r.font, face, c, grows2, i);
      var j :| 0 <= j < |r.font.sorts| && r.font.sorts[j] == r.sort.value;
      KeyAtOnePlace(r.font.sorts, i, j);
    }
  }
}
