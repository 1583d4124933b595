/** The sort table of the typesetter (type.c): one `sort` per rendered
    character, kept ordered by character code so that the C library's
    `bsearch` can find it (`sortcmp1`) and `qsort` can restore the order after
    an append (`sortcmp2`). */
module SortTable {
  import Atlas
  import opened Wrappers

  /** A rendered letter face: character code `c`, bearings `x` and `y` and
      advance `a` in pixels, and its rectangle `X, Y, W, H` in the atlas. */
  datatype Sort = Sort(c: int, x: int, y: int, a: int, X: int, Y: int, W: int, H: int)
  {
    function Rect(): Atlas.Rect {
      Atlas.Rect(X, Y, W, H)
    }
  }

  /** The three-way comparison both `sortcmp1` (key against sort) and
      `sortcmp2` (sort against sort) make on character codes. */
  function Compare(p: int, q: int): (r: int)
    ensures r == -1 || r == 0 || r == 1
    ensures r == 0 <==> p == q
    ensures r < 0 <==> p < q
  {
    if p < q then -1 else if p > q then 1 else 0
  }

  /** Swapping the operands negates the comparison, as `qsort` requires. */
  lemma CompareAntisymmetric(p: int, q: int)
    ensures Compare(p, q) == -Compare(q, p)
  {
  }

  /** Ordered by character code without repetition. */
  predicate StrictlySorted(t: seq<Sort>) {
    forall i, j | 0 <= i < j < |t| :: Ascending(t, i, j)
  }

  /** The sort at `i` has a smaller code than the one at `j`. (Named so that
      the pairwise fact is drawn on only where a proof asks for it.) */
  predicate Ascending(t: seq<Sort>, i: int, j: int)
    requires 0 <= i < j < |t|
  {
    t[i].c < t[j].c
  }

  /** Two positions of a sorted table are ordered as their codes. */
  lemma Ordered(t: seq<Sort>, i: int, j: int)
    requires StrictlySorted(t) && 0 <= i < j < |t|
    ensures t[i].c < t[j].c
  {
    assert Ascending(t, i, j);
  }

  /** Around a position of a sorted table, codes are smaller before and
      larger after. */
  lemma OrderedAround(t: seq<Sort>, m: int)
    requires StrictlySorted(t) && 0 <= m < |t|
    ensures forall i :: 0 <= i < m ==> t[i].c < t[m].c
    ensures forall j :: m < j < |t| ==> t[m].c < t[j].c
  {
    forall i | 0 <= i < m ensures t[i].c < t[m].c {
      Ordered(t, i, m);
    }
    forall j | m < j < |t| ensures t[m].c < t[j].c {
      Ordered(t, m, j);
    }
  }

  /** The tail of a sorted table is sorted. */
  lemma SortedTail(t: seq<Sort>)
    requires StrictlySorted(t) && t != []
    ensures StrictlySorted(t[1..])
  {
    forall i, j | 0 <= i < j < |t[1..]| ensures Ascending(t[1..], i, j) {
      Ordered(t, i + 1, j + 1);
    }
  }

  function Keys(t: seq<Sort>): set<int> {
    set S | S in t :: S.c
  }

  /** `bsearch(&c, t, n, sz, sortcmp1)` over the window `[lo, hi)` of the
      table: probe the middle and discard the half the comparison rules out. */
  function Search(c: int, t: seq<Sort>, lo: nat, hi: nat): (r: Option<nat>)
    requires lo <= hi <= |t| && StrictlySorted(t)
    ensures r.Some? ==> lo <= r.value < hi && t[r.value].c == c
    ensures r.None? ==> forall i :: lo <= i < hi ==> t[i].c != c
    decreases hi - lo
  {
    if lo == hi then None
    else
      var mid := (lo + hi) / 2;
      var cmp := Compare(c, t[mid].c);
      OrderedAround(t, mid);
      if cmp < 0 then Search(c, t, lo, mid)
      else if cmp > 0 then Search(c, t, mid + 1, hi)
      else Some(mid)
  }

  /** The whole-table search: finds `c` exactly when some sort has that code. */
  function BSearch(c: int, t: seq<Sort>): (r: Option<nat>)
    requires StrictlySorted(t)
    ensures r.Some? <==> c in Keys(t)
    ensures r.Some? ==> r.value < |t| && t[r.value].c == c
  {
    var r := Search(c, t, 0, |t|);
    assert r.Some? ==> t[r.value] in t;
    r
  }

  /** In a strictly sorted table a code names at most one position. */
  lemma KeyAtOnePlace(t: seq<Sort>, i: nat, j: nat)
    requires StrictlySorted(t) && i < |t| && j < |t| && t[i].c == t[j].c
    ensures i == j
  {
    if i < j {
      Ordered(t, i, j);
    } else if j < i {
      Ordered(t, j, i);
    }
  }

  /** The table `qsort` leaves after a new sort `S` is appended: `S` moved to
      the place its code belongs. */
  function Insert(t: seq<Sort>, S: Sort): (r: seq<Sort>)
    requires StrictlySorted(t) && S.c !in Keys(t)
    ensures StrictlySorted(r)
    ensures |r| == |t| + 1
    ensures multiset(r) == multiset(t) + multiset{S}
    decreases |t|
  {
    if t == [] then [S]
    else if S.c < t[0].c then
      HeadIsLeast(t);
      InsertHead(S, t);
      [S] + t
    else
      var h, tl := t[0], t[1..];
      SplitHead(t, S);
      var rest := Insert(tl, S);
      RestAbove(h, tl, S, rest);
      InsertHead(h, rest);
      assert multiset([h] + rest) == multiset{h} + multiset(tl) + multiset{S};
      [h] + rest
  }

  /** The first sort of a sorted table has the least code. */
  lemma HeadIsLeast(t: seq<Sort>)
    requires StrictlySorted(t) && t != []
    ensures forall T :: T in t ==> T == t[0] || t[0].c < T.c
  {
    forall T | T in t ensures T == t[0] || t[0].c < T.c {
      var i :| 0 <= i < |t| && t[i] == T;
      if i > 0 {
        Ordered(t, 0, i);
      }
    }
  }

  /** Taking the head off a sorted table that `S` belongs after. */
  lemma SplitHead(t: seq<Sort>, S: Sort)
    requires StrictlySorted(t) && S.c !in Keys(t) && t != [] && S.c >= t[0].c
    ensures t == [t[0]] + t[1..]
    ensures StrictlySorted(t[1..]) && S.c !in Keys(t[1..])
    ensures t[0].c < S.c
    ensures forall T :: T in t[1..] ==> t[0].c < T.c
    ensures multiset(t) == multiset{t[0]} + multiset(t[1..])
  {
    assert t[0] in t;
    SortedTail(t);
    forall T | T in t[1..] ensures t[0].c < T.c {
      var i :| 0 <= i < |t[1..]| && t[1..][i] == T;
      assert T == t[i + 1];
      Ordered(t, 0, i + 1);
    }
    assert t == [t[0]] + t[1..];
  }

  /** Everything inserted after the head stays above it. */
  lemma RestAbove(h: Sort, tl: seq<Sort>, S: Sort, rest: seq<Sort>)
    requires h.c < S.c && forall T :: T in tl ==> h.c < T.c
    requires multiset(rest) == multiset(tl) + multiset{S}
    ensures forall T :: T in rest ==> h.c < T.c
  {
    forall T | T in rest ensures h.c < T.c {
      assert T in multiset(rest);
      if T != S {
        assert T in multiset(tl);
      }
    }
  }

  /** Putting a sort below every other in front of a sorted table keeps it
      sorted. */
  lemma InsertHead(h: Sort, rest: seq<Sort>)
    requires StrictlySorted(rest)
    requires forall T :: T in rest ==> h.c < T.c
    ensures StrictlySorted([h] + rest)
  {
    forall i, j | 0 <= i < j < |[h] + rest|
      ensures Ascending([h] + rest, i, j)
    {
      assert ([h] + rest)[j] == rest[j - 1];
      if i == 0 {
        assert rest[j - 1] in rest;
      } else {
        assert ([h] + rest)[i] == rest[i - 1];
        Ordered(rest, i - 1, j - 1);
      }
    }
  }

  /** The codes of a table are those of its elements, so a table with one
      more element has one more code. */
  lemma KeysGrow(r: seq<Sort>, t: seq<Sort>, S: Sort)
    requires multiset(r) == multiset(t) + multiset{S}
    ensures Keys(r) == Keys(t) + {S.c}
  {
    forall T ensures T in r <==> T in t || T == S {
      assert T in r <==> T in multiset(r);
      assert T in t <==> T in multiset(t);
    }
    assert S in r;
    forall k | k in Keys(t) ensures k in Keys(r) {
      var T :| T in t && T.c == k;
      assert T in r;
    }
  }

  /** `qsort` cannot choose among orders: the strictly sorted arrangement of a
      collection of sorts is unique, so the table after `qsort` is `Insert`'s
      whatever algorithm the C library uses. */
  lemma {:induction false} SortedUnique(a: seq<Sort>, b: seq<Sort>)
    requires StrictlySorted(a) && StrictlySorted(b)
    requires multiset(a) == multiset(b)
    ensures a == b
    decreases |a|
  {
    assert |a| == |multiset(a)| == |multiset(b)| == |b|;
    if a != [] {
      SameHead(a, b);
      SameTail(a, b);
      SortedTail(a);
      SortedTail(b);
      SortedUnique(a[1..], b[1..]);
      assert a == [a[0]] + a[1..];
      assert b == [b[0]] + b[1..];
    }
  }

  /** Two sorted arrangements of the same sorts start with the same one. */
  lemma SameHead(a: seq<Sort>, b: seq<Sort>)
    requires StrictlySorted(a) && StrictlySorted(b)
    requires multiset(a) == multiset(b) && a != [] && b != []
    ensures a[0] == b[0]
  {
    HeadIsLeast(a);
    HeadIsLeast(b);
    assert a[0] in multiset(b) && b[0] in multiset(a);
  }

  /** Removing the same first sort leaves the same collection. */
  lemma SameTail(a: seq<Sort>, b: seq<Sort>)
    requires multiset(a) == multiset(b) && a != [] && b != [] && a[0] == b[0]
    ensures multiset(a[1..]) == multiset(b[1..])
  {
    var A, B := multiset(a[1..]), multiset(b[1..]);
    assert a == [a[0]] + a[1..];
    assert b == [b[0]] + b[1..];
    assert multiset(a) == multiset{a[0]} + A;
    assert multiset(b) == multiset{a[0]} + B;
    forall T ensures A[T] == B[T] {
      assert multiset(a)[T] == multiset{a[0]}[T] + A[T];
      assert multiset(b)[T] == multiset{a[0]}[T] + B[T];
    }
  }
}
