/**
 * An n-by-n percolation grid. Sites are numbered 1..n*n row by row (slot 0
 * of the arrays is never a site); open neighbouring sites are joined in a
 * union-find structure, and the root of each component carries a status
 * byte recording whether the component reaches the top row, the bottom row,
 * or both.
 */
module Percolations {
  import opened Outcomes
  import opened Arithmetic

  const CLOSED: bv8 := 0
  const OPEN: bv8 := 1
  const CONNECTED_TOP: bv8 := 2
  const CONNECTED_BOTTOM: bv8 := 4
  const CONNECTED_BOTH: bv8 := 8

  // ---------------------------------------------------------------------
  // Coordinates
  // ---------------------------------------------------------------------

  predicate InGrid(n: int, row: int, col: int)
  {
    1 <= row <= n && 1 <= col <= n
  }

  /** The site number of the 1-based cell (row, col). */
  function TwoDimToOneDim(n: int, row: int, col: int): int
  {
    (row - 1) * n + col
  }

  /** The 1-based row of a site number. */
  function SiteRow(n: int, site: int): int
    requires n > 0
  {
    (site - 1) / n + 1
  }

  /** The 1-based column of a site number. */
  function SiteCol(n: int, site: int): int
    requires n > 0
  {
    (site - 1) % n + 1
  }

  /**
   * A cell's site number lies in 1..n*n and gives the cell back; it is in
   * the first n numbers exactly for the top row and in the last n exactly
   * for the bottom row.
   */
  lemma SiteRoundTrip(n: int, row: int, col: int)
    requires InGrid(n, row, col)
    ensures 1 <= TwoDimToOneDim(n, row, col) <= n * n
    ensures SiteRow(n, TwoDimToOneDim(n, row, col)) == row && SiteCol(n, TwoDimToOneDim(n, row, col)) == col
    ensures TwoDimToOneDim(n, row, col) <= n <==> row == 1
    ensures TwoDimToOneDim(n, row, col) > n * n - n <==> row == n
  {
    RowStartBounds(n, row - 1);
    DivUnique(TwoDimToOneDim(n, row, col) - 1, n, row - 1, col - 1);
  }

  /** Where the k-th row (from 0) starts in a grid of side n. */
  lemma RowStartBounds(n: int, k: int)
    requires 0 <= k < n
    ensures 0 <= k * n <= n * n - n
    ensures k >= 1 ==> k * n >= n
    ensures k == n - 1 ==> k * n == n * n - n
    ensures k <= n - 2 ==> k * n <= n * n - 2 * n
  {
    MulMonotone(0, k, n);
    MulMonotone(k, n - 1, n);
    MulShift(n, 1);
    if k >= 1 {
      MulMonotone(1, k, n);
    }
    if k <= n - 2 {
      MulMonotone(k, n - 2, n);
      MulShift(n, 2);
    }
  }

  lemma MulShift(n: int, j: int)
    ensures (n - j) * n == n * n - j * n
  {
  }

  /** Every site number in 1..n*n is the number of the cell its row and column name. */
  lemma SiteCoordsRoundTrip(n: int, site: int)
    requires n > 0 && 1 <= site <= n * n
    ensures InGrid(n, SiteRow(n, site), SiteCol(n, site))
    ensures TwoDimToOneDim(n, SiteRow(n, site), SiteCol(n, site)) == site
  {
    var q := (site - 1) / n;
    if q >= n {
      MulMonotone(n, q, n);
    }
    if q < 0 {
      MulMonotone(q, -1, n);
    }
  }

  /** Distinct cells have distinct site numbers. */
  lemma TwoDimToOneDimInjective(n: int, row1: int, col1: int, row2: int, col2: int)
    requires InGrid(n, row1, col1) && InGrid(n, row2, col2)
    requires TwoDimToOneDim(n, row1, col1) == TwoDimToOneDim(n, row2, col2)
    ensures row1 == row2 && col1 == col2
  {
    SiteRoundTrip(n, row1, col1);
    SiteRoundTrip(n, row2, col2);
  }

  // ---------------------------------------------------------------------
  // Status bytes
  // ---------------------------------------------------------------------

  predicate IsStatus(s: bv8)
  {
    s == CLOSED || s == OPEN || s == CONNECTED_TOP || s == CONNECTED_BOTTOM || s == CONNECTED_BOTH
  }

  /** Whether a status byte, or bits gathered from several, record a path to the top row. */
  predicate MarksTop(s: bv8)
  {
    (s & CONNECTED_BOTH) == CONNECTED_BOTH || (s & CONNECTED_TOP) == CONNECTED_TOP
  }

  /** Whether a status byte, or bits gathered from several, record a path to the bottom row. */
  predicate MarksBottom(s: bv8)
  {
    (s & CONNECTED_BOTH) == CONNECTED_BOTH || (s & CONNECTED_BOTTOM) == CONNECTED_BOTTOM
  }

  /** Or-ing status bytes together keeps every mark of each. */
  lemma MarksOr(a: bv8, b: bv8)
    ensures MarksTop(a | b) <==> MarksTop(a) || MarksTop(b)
    ensures MarksBottom(a | b) <==> MarksBottom(a) || MarksBottom(b)
  {
  }

  /**
   * The status an opened site's root receives from the bits gathered from
   * its own row and its open neighbours' roots: it records exactly the same
   * marks, and it is "both" exactly when it marks top and bottom.
   */
  function RootStatus(state: bv8): (s: bv8)
    ensures IsStatus(s) && s != CLOSED
    ensures MarksTop(s) <==> MarksTop(state)
    ensures MarksBottom(s) <==> MarksBottom(state)
    ensures s == CONNECTED_BOTH <==> MarksTop(state) && MarksBottom(state)
  {
    if (state & CONNECTED_BOTH) == CONNECTED_BOTH then CONNECTED_BOTH
    else if (state & CONNECTED_TOP) == CONNECTED_TOP && (state & CONNECTED_BOTTOM) == CONNECTED_BOTTOM then CONNECTED_BOTH
    else if (state & CONNECTED_TOP) == CONNECTED_TOP then CONNECTED_TOP
    else if (state & CONNECTED_BOTTOM) == CONNECTED_BOTTOM then CONNECTED_BOTTOM
    else OPEN
  }

  // ---------------------------------------------------------------------
  // Union-find components
  // ---------------------------------------------------------------------

  /** Every entry names a member of the range that names itself: the component's root. */
  predicate Canonical(ids: seq<int>)
  {
    forall x :: 0 <= x < |ids| ==> 0 <= ids[x] < |ids| && ids[ids[x]] == ids[x]
  }

  /** The component names after the component named `a` joins the one named `b`. */
  function Merged(ids: seq<int>, a: int, b: int): (m: seq<int>)
    ensures |m| == |ids|
  {
    seq(|ids|, i requires 0 <= i < |ids| => if ids[i] == a then b else ids[i])
  }

  /** Joining two components keeps the names canonical. */
  lemma MergedCanonical(ids: seq<int>, a: int, b: int)
    requires Canonical(ids) && 0 <= a < |ids| && 0 <= b < |ids| && ids[a] == a && ids[b] == b
    ensures Canonical(Merged(ids, a, b))
  {
    var m := Merged(ids, a, b);
    forall x | 0 <= x < |m|
      ensures 0 <= m[x] < |m| && m[m[x]] == m[x]
    {
      if ids[x] == a {
        assert m[x] == b;
      } else {
        assert m[x] == ids[x] && ids[ids[x]] != a;
      }
    }
  }

  /**
   * After joining, two members share a component exactly when they did
   * before or one was in each of the joined components.
   */
  lemma MergedJoins(ids: seq<int>, a: int, b: int, x: int, y: int)
    requires Canonical(ids) && 0 <= a < |ids| && 0 <= b < |ids| && ids[a] == a && ids[b] == b
    requires 0 <= x < |ids| && 0 <= y < |ids|
    ensures Merged(ids, a, b)[x] == Merged(ids, a, b)[y] <==>
              ids[x] == ids[y] || (ids[x] == a && ids[y] == b) || (ids[x] == b && ids[y] == a)
  {
    var m := Merged(ids, a, b);
    assert m[x] == (if ids[x] == a then b else ids[x]);
    assert m[y] == (if ids[y] == a then b else ids[y]);
  }

  /** After joining distinct components, the roots are the old roots except `a`. */
  lemma MergedRoot(ids: seq<int>, a: int, b: int, r: int)
    requires Canonical(ids) && 0 <= a < |ids| && 0 <= b < |ids| && ids[a] == a && ids[b] == b && a != b
    requires 0 <= r < |ids|
    ensures Merged(ids, a, b)[r] == r <==> ids[r] == r && r != a
  {
    assert Merged(ids, a, b)[r] == (if ids[r] == a then b else ids[r]);
  }

  /** Some open member of the component named `r` lies in lo..hi. */
  ghost predicate HasSiteIn(ids: seq<int>, open: set<int>, r: int, lo: int, hi: int)
  {
    exists x :: x in open && lo <= x <= hi && 0 <= x < |ids| && ids[x] == r
  }

  /**
   * After joining distinct components, `b`'s component has a member in a
   * range exactly when one of the joined components had one, and every
   * other component is as before.
   */
  lemma MergedHasSite(ids: seq<int>, open: set<int>, a: int, b: int, r: int, lo: int, hi: int)
    requires Canonical(ids) && 0 <= a < |ids| && 0 <= b < |ids| && ids[a] == a && ids[b] == b && a != b
    ensures r != a && r != b ==> (HasSiteIn(Merged(ids, a, b), open, r, lo, hi) <==> HasSiteIn(ids, open, r, lo, hi))
    ensures HasSiteIn(Merged(ids, a, b), open, b, lo, hi) <==>
              HasSiteIn(ids, open, a, lo, hi) || HasSiteIn(ids, open, b, lo, hi)
  {
    var m := Merged(ids, a, b);
    if r != a && r != b && HasSiteIn(m, open, r, lo, hi) {
      var x :| x in open && lo <= x <= hi && 0 <= x < |m| && m[x] == r;
      assert ids[x] == r;
    }
    if r != a && r != b && HasSiteIn(ids, open, r, lo, hi) {
      var x :| x in open && lo <= x <= hi && 0 <= x < |ids| && ids[x] == r;
      assert m[x] == r;
    }
    if HasSiteIn(m, open, b, lo, hi) {
      var x :| x in open && lo <= x <= hi && 0 <= x < |m| && m[x] == b;
      assert ids[x] == a || ids[x] == b;
    }
    if HasSiteIn(ids, open, a, lo, hi) {
      var x :| x in open && lo <= x <= hi && 0 <= x < |ids| && ids[x] == a;
      assert m[x] == b;
    }
    if HasSiteIn(ids, open, b, lo, hi) {
      var x :| x in open && lo <= x <= hi && 0 <= x < |ids| && ids[x] == b;
      assert m[x] == b;
    }
  }

  /** Only open sites are joined: a site outside `open` is alone in its component. */
  predicate Grouped(ids: seq<int>, open: set<int>)
  {
    forall x :: 0 <= x < |ids| ==> ids[x] == x || (x in open && ids[x] in open)
  }

  lemma MergedGrouped(ids: seq<int>, open: set<int>, a: int, b: int)
    requires Canonical(ids) && Grouped(ids, open) && 0 <= a < |ids| && a in open && b in open
    ensures Grouped(Merged(ids, a, b), open)
  {
    var m := Merged(ids, a, b);
    forall x | 0 <= x < |m|
      ensures m[x] == x || (x in open && m[x] in open)
    {
      if ids[x] == a && ids[x] != x {
        assert x in open;
      }
    }
  }

  // ---------------------------------------------------------------------
  // The grid's state
  // ---------------------------------------------------------------------

  /** The component named `r` has an open site in the top row. */
  ghost predicate TouchesTop(n: int, ids: seq<int>, open: set<int>, r: int)
  {
    HasSiteIn(ids, open, r, 1, n)
  }

  /** The component named `r` has an open site in the bottom row. */
  ghost predicate TouchesBottom(n: int, ids: seq<int>, open: set<int>, r: int)
  {
    HasSiteIn(ids, open, r, |ids| - n, |ids| - 1)
  }

  predicate IsOpenRoot(ids: seq<int>, open: set<int>, r: int)
  {
    r in open && 0 <= r < |ids| && ids[r] == r
  }

  /** The root's status marks exactly the rows its component reaches. */
  ghost predicate FlagsMatch(n: int, st: seq<bv8>, ids: seq<int>, open: set<int>, r: int)
  {
    && 0 <= r < |st|
    && (MarksTop(st[r]) <==> TouchesTop(n, ids, open, r))
    && (MarksBottom(st[r]) <==> TouchesBottom(n, ids, open, r))
  }

  ghost predicate PercolatingRoot(n: int, ids: seq<int>, open: set<int>, r: int)
  {
    IsOpenRoot(ids, open, r) && TouchesTop(n, ids, open, r) && TouchesBottom(n, ids, open, r)
  }

  /** Sizes and the union-find shape shared by every state of the grid. */
  predicate Shape(n: int, st: seq<bv8>, ids: seq<int>, open: set<int>)
  {
    && n > 0 && |ids| == n * n + 1 && |st| == |ids|
    && Canonical(ids) && Grouped(ids, open)
    && (forall s :: s in open ==> 1 <= s < |ids|)
  }

  /**
   * The grid between operations: every status byte is one of the five
   * constants and is non-closed exactly at the open sites, every open root
   * marks the rows its component reaches, and the grid percolates exactly
   * when some component reaches both rows.
   */
  ghost predicate GridState(n: int, st: seq<bv8>, ids: seq<int>, open: set<int>, perc: bool)
  {
    && Shape(n, st, ids, open)
    && (forall s :: 0 <= s < |st| ==> IsStatus(st[s]) && (st[s] != CLOSED <==> s in open))
    && (forall r :: IsOpenRoot(ids, open, r) ==> FlagsMatch(n, st, ids, open, r))
    && (perc ==> exists r :: PercolatingRoot(n, ids, open, r))
    && (!perc ==> forall r :: PercolatingRoot(n, ids, open, r) ==> false)
  }

  /** Every open root except `skip` marks exactly the rows its component reaches. */
  ghost predicate FlagsExcept(n: int, st: seq<bv8>, ids: seq<int>, open: set<int>, skip: int)
  {
    forall r :: IsOpenRoot(ids, open, r) && r != skip ==> FlagsMatch(n, st, ids, open, r)
  }

  /**
   * `perc` is set only when some component reaches both rows, and clear
   * only when no component but possibly `skip`'s does.
   */
  ghost predicate PercolationExcept(n: int, ids: seq<int>, open: set<int>, perc: bool, skip: int)
  {
    && (perc ==> exists r :: PercolatingRoot(n, ids, open, r))
    && (!perc ==> forall r :: PercolatingRoot(n, ids, open, r) ==> r == skip)
  }

  /**
   * `state` marks exactly the rows that the component named `root` reaches,
   * and the status of `root` marks no row the component does not reach.
   */
  ghost predicate GrowingMarks(n: int, st: seq<bv8>, ids: seq<int>, open: set<int>, root: int, state: bv8)
  {
    && 0 <= root < |st|
    && (MarksTop(state) <==> TouchesTop(n, ids, open, root))
    && (MarksBottom(state) <==> TouchesBottom(n, ids, open, root))
    && (MarksTop(st[root]) ==> TouchesTop(n, ids, open, root))
    && (MarksBottom(st[root]) ==> TouchesBottom(n, ids, open, root))
  }

  /**
   * The grid while `site` is being opened: the site already counts as open
   * but its status is still closed, the bits gathered so far describe the
   * site's growing component, and every other component is as between
   * operations.
   */
  ghost predicate Opening(n: int, st: seq<bv8>, ids: seq<int>, open: set<int>, perc: bool, site: int, state: bv8)
  {
    && Shape(n, st, ids, open)
    && 1 <= site < |ids| && site in open && st[site] == CLOSED
    && (forall s :: 0 <= s < |st| ==> IsStatus(st[s]) && (s != site ==> (st[s] != CLOSED <==> s in open)))
    && FlagsExcept(n, st, ids, open, ids[site])
    && PercolationExcept(n, ids, open, perc, ids[site])
    && GrowingMarks(n, st, ids, open, ids[site], state)
  }

  /** A closed site made open forms a component of its own, which reaches a range exactly when the site lies in it. */
  lemma SingletonHasSite(ids: seq<int>, open: set<int>, site: int, lo: int, hi: int)
    requires Grouped(ids, open) && 0 <= site < |ids| && site !in open
    ensures HasSiteIn(ids, open + {site}, site, lo, hi) <==> lo <= site <= hi
  {
    if HasSiteIn(ids, open + {site}, site, lo, hi) {
      var x :| x in open + {site} && lo <= x <= hi && 0 <= x < |ids| && ids[x] == site;
      assert x == site;
    }
    if lo <= site <= hi {
      assert ids[site] == site;
    }
  }

  /** Opening a site outside a component leaves what that component reaches unchanged. */
  lemma AddOpenHasSite(ids: seq<int>, open: set<int>, site: int, r: int, lo: int, hi: int)
    requires 0 <= site < |ids| && ids[site] != r
    ensures HasSiteIn(ids, open + {site}, r, lo, hi) <==> HasSiteIn(ids, open, r, lo, hi)
  {
    if HasSiteIn(ids, open + {site}, r, lo, hi) {
      var x :| x in open + {site} && lo <= x <= hi && 0 <= x < |ids| && ids[x] == r;
      assert x in open;
    }
  }

  /** Counting a closed site as open, with the row marks of the site itself, starts an opening. */
  lemma StartOpening(n: int, st: seq<bv8>, ids: seq<int>, open: set<int>, perc: bool, site: int, state: bv8)
    requires GridState(n, st, ids, open, perc)
    requires 1 <= site < |ids| && site !in open
    requires MarksTop(state) <==> site <= n
    requires MarksBottom(state) <==> site >= |ids| - n
    ensures Opening(n, st, ids, open + {site}, perc, site, state)
  {
    var open' := open + {site};
    assert ids[site] == site;
    SingletonHasSite(ids, open, site, 1, n);
    SingletonHasSite(ids, open, site, |ids| - n, |ids| - 1);
    forall r | IsOpenRoot(ids, open', r) && r != site
      ensures FlagsMatch(n, st, ids, open', r)
    {
      assert IsOpenRoot(ids, open, r);
      AddOpenHasSite(ids, open, site, r, 1, n);
      AddOpenHasSite(ids, open, site, r, |ids| - n, |ids| - 1);
    }
    if perc {
      var w :| PercolatingRoot(n, ids, open, w);
      AddOpenHasSite(ids, open, site, w, 1, n);
      AddOpenHasSite(ids, open, site, w, |ids| - n, |ids| - 1);
      assert PercolatingRoot(n, ids, open', w);
    } else {
      forall r | PercolatingRoot(n, ids, open', r)
        ensures r == site
      {
        if r != site {
          AddOpenHasSite(ids, open, site, r, 1, n);
          AddOpenHasSite(ids, open, site, r, |ids| - n, |ids| - 1);
          assert PercolatingRoot(n, ids, open, r);
        }
      }
    }
  }

  /** Joining distinct open components keeps the marks of every other open root. */
  lemma ConnectFlags(n: int, st: seq<bv8>, ids: seq<int>, open: set<int>, a: int, b: int)
    requires Shape(n, st, ids, open) && a in open && b in open && ids[a] == a && ids[b] == b && a != b
    requires FlagsExcept(n, st, ids, open, a)
    ensures FlagsExcept(n, st, Merged(ids, a, b), open, b)
  {
    var m := Merged(ids, a, b);
    forall r | IsOpenRoot(m, open, r) && r != b
      ensures FlagsMatch(n, st, m, open, r)
    {
      MergedRoot(ids, a, b, r);
      MergedHasSite(ids, open, a, b, r, 1, n);
      MergedHasSite(ids, open, a, b, r, |ids| - n, |ids| - 1);
      assert IsOpenRoot(ids, open, r);
    }
  }

  /** Joining distinct open components keeps the percolation flag's meaning, now for `b`'s component. */
  lemma ConnectPercolation(n: int, st: seq<bv8>, ids: seq<int>, open: set<int>, perc: bool, a: int, b: int)
    requires Shape(n, st, ids, open) && a in open && b in open && ids[a] == a && ids[b] == b && a != b
    requires PercolationExcept(n, ids, open, perc, a)
    ensures PercolationExcept(n, Merged(ids, a, b), open, perc, b)
  {
    var m := Merged(ids, a, b);
    if perc {
      var w :| PercolatingRoot(n, ids, open, w);
      MergedHasSite(ids, open, a, b, w, 1, n);
      MergedHasSite(ids, open, a, b, w, |ids| - n, |ids| - 1);
      if w == a || w == b {
        assert PercolatingRoot(n, m, open, b);
      } else {
        MergedRoot(ids, a, b, w);
        assert PercolatingRoot(n, m, open, w);
      }
    } else {
      forall r | PercolatingRoot(n, m, open, r)
        ensures r == b
      {
        MergedRoot(ids, a, b, r);
        MergedHasSite(ids, open, a, b, r, 1, n);
        MergedHasSite(ids, open, a, b, r, |ids| - n, |ids| - 1);
        if r != b {
          assert PercolatingRoot(n, ids, open, r);
        }
      }
    }
  }

  /** Gathering `b`'s status into the bits describes the joined component. */
  lemma ConnectMarks(n: int, st: seq<bv8>, ids: seq<int>, open: set<int>, a: int, b: int, state: bv8)
    requires Shape(n, st, ids, open) && a in open && b in open && ids[a] == a && ids[b] == b && a != b
    requires GrowingMarks(n, st, ids, open, a, state) && FlagsMatch(n, st, ids, open, b)
    ensures GrowingMarks(n, st, Merged(ids, a, b), open, b, state | st[b])
  {
    MarksOr(state, st[b]);
    MergedHasSite(ids, open, a, b, b, 1, n);
    MergedHasSite(ids, open, a, b, b, |ids| - n, |ids| - 1);
  }

  /** The component names after the opening site meets `neighbor`: joined when the neighbour is open. */
  function JoinIds(st: seq<bv8>, ids: seq<int>, site: int, neighbor: int): seq<int>
    requires |st| == |ids| && 0 <= site < |ids| && 0 <= neighbor < |ids|
  {
    if st[neighbor] != CLOSED then Merged(ids, ids[site], ids[neighbor]) else ids
  }

  /** The gathered bits after the opening site meets `neighbor`: the neighbour root's status joins them when it is open. */
  function JoinState(st: seq<bv8>, ids: seq<int>, neighbor: int, state: bv8): bv8
    requires |st| == |ids| && Canonical(ids) && 0 <= neighbor < |ids|
  {
    if st[neighbor] != CLOSED then state | st[ids[neighbor]] else state
  }

  /** Joining the opening site's component with a distinct open component keeps the opening. */
  lemma ConnectDistinct(n: int, st: seq<bv8>, ids: seq<int>, open: set<int>, perc: bool, site: int, state: bv8,
                        b: int)
    requires Opening(n, st, ids, open, perc, site, state)
    requires b in open && ids[b] == b && b != ids[site]
    ensures Opening(n, st, Merged(ids, ids[site], b), open, perc, site, state | st[b])
  {
    var a := ids[site];
    assert a in open;
    MergedCanonical(ids, a, b);
    MergedGrouped(ids, open, a, b);
    assert FlagsMatch(n, st, ids, open, b) by {
      assert IsOpenRoot(ids, open, b);
    }
    ConnectFlags(n, st, ids, open, a, b);
    ConnectPercolation(n, st, ids, open, perc, a, b);
    ConnectMarks(n, st, ids, open, a, b, state);
    assert Merged(ids, a, b)[site] == b;
  }

  /** Meeting a neighbour already in the site's component changes no name and no mark. */
  lemma ConnectSame(n: int, st: seq<bv8>, ids: seq<int>, open: set<int>, perc: bool, site: int, state: bv8)
    requires Opening(n, st, ids, open, perc, site, state)
    ensures Merged(ids, ids[site], ids[site]) == ids
    ensures Opening(n, st, ids, open, perc, site, state | st[ids[site]])
  {
    MarksOr(state, st[ids[site]]);
  }

  /**
   * Meeting a neighbour keeps an opening an opening: the gathered bits
   * describe the site's grown component.
   */
  lemma ConnectStep(n: int, st: seq<bv8>, ids: seq<int>, open: set<int>, perc: bool, site: int, state: bv8,
                    neighbor: int)
    requires Opening(n, st, ids, open, perc, site, state)
    requires 1 <= neighbor < |ids| && neighbor != site
    ensures Opening(n, st, JoinIds(st, ids, site, neighbor), open, perc, site, JoinState(st, ids, neighbor, state))
  {
    if st[neighbor] != CLOSED {
      var b := ids[neighbor];
      assert neighbor in open;
      assert b in open;
      if b == ids[site] {
        ConnectSame(n, st, ids, open, perc, site, state);
      } else {
        ConnectDistinct(n, st, ids, open, perc, site, state, b);
      }
    }
  }

  // ---------------------------------------------------------------------
  // The components one opening joins
  // ---------------------------------------------------------------------

  /**
   * The sites of the cells above, below, left of and right of a cell, in
   * that order, leaving out those beyond the grid's edge.
   */
  function NeighborSites(n: int, row: int, col: int): (r: seq<int>)
    requires InGrid(n, row, col)
    ensures 1 <= TwoDimToOneDim(n, row, col) <= n * n
    ensures forall i :: 0 <= i < |r| ==> 1 <= r[i] <= n * n && r[i] != TwoDimToOneDim(n, row, col)
    ensures forall s :: s in r ==> 1 <= s <= n * n
    ensures AllIn(r, n * n + 1)
  {
    SiteRoundTrip(n, row, col);
    (if row > 1 then SiteRoundTrip(n, row - 1, col); [TwoDimToOneDim(n, row - 1, col)] else [])
    + (if row < n then SiteRoundTrip(n, row + 1, col); [TwoDimToOneDim(n, row + 1, col)] else [])
    + (if col > 1 then SiteRoundTrip(n, row, col - 1); [TwoDimToOneDim(n, row, col - 1)] else [])
    + (if col < n then SiteRoundTrip(n, row, col + 1); [TwoDimToOneDim(n, row, col + 1)] else [])
  }

  /** Each neighbour the grid has is a site other than the cell's own. */
  lemma NeighborSitesInside(n: int, row: int, col: int)
    requires InGrid(n, row, col)
    ensures 1 <= TwoDimToOneDim(n, row, col) <= n * n
    ensures row > 1 ==> 1 <= TwoDimToOneDim(n, row - 1, col) <= n * n
                        && TwoDimToOneDim(n, row - 1, col) != TwoDimToOneDim(n, row, col)
    ensures row < n ==> 1 <= TwoDimToOneDim(n, row + 1, col) <= n * n
                        && TwoDimToOneDim(n, row + 1, col) != TwoDimToOneDim(n, row, col)
    ensures col > 1 ==> 1 <= TwoDimToOneDim(n, row, col - 1) <= n * n
                        && TwoDimToOneDim(n, row, col - 1) != TwoDimToOneDim(n, row, col)
    ensures col < n ==> 1 <= TwoDimToOneDim(n, row, col + 1) <= n * n
                        && TwoDimToOneDim(n, row, col + 1) != TwoDimToOneDim(n, row, col)
  {
    var r := NeighborSites(n, row, col);
    if row > 1 {
      assert r[0] == TwoDimToOneDim(n, row - 1, col);
    }
    if row < n {
      assert TwoDimToOneDim(n, row + 1, col) in r;
    }
    if col > 1 {
      assert TwoDimToOneDim(n, row, col - 1) in r;
    }
    if col < n {
      assert TwoDimToOneDim(n, row, col + 1) in r;
    }
  }

  /** The neighbours of a cell, split by side. */
  lemma NeighborSitesSplit(n: int, row: int, col: int) returns (up: seq<int>, down: seq<int>, left: seq<int>, right: seq<int>)
    requires InGrid(n, row, col)
    ensures [] + (if row > 1 then [TwoDimToOneDim(n, row - 1, col)] else []) == up
    ensures up + (if row < n then [TwoDimToOneDim(n, row + 1, col)] else []) == up + down
    ensures up + down + (if col > 1 then [TwoDimToOneDim(n, row, col - 1)] else []) == up + down + left
    ensures up + down + left + (if col < n then [TwoDimToOneDim(n, row, col + 1)] else []) == NeighborSites(n, row, col)
  {
    up := if row > 1 then [TwoDimToOneDim(n, row - 1, col)] else [];
    down := if row < n then [TwoDimToOneDim(n, row + 1, col)] else [];
    left := if col > 1 then [TwoDimToOneDim(n, row, col - 1)] else [];
    right := if col < n then [TwoDimToOneDim(n, row, col + 1)] else [];
    assert [] + up == up;
  }

  /** A cell of the grid is among another's neighbours exactly when the two are orthogonally adjacent. */
  lemma NeighborSitesAdjacent(n: int, row: int, col: int, row2: int, col2: int)
    requires InGrid(n, row, col) && InGrid(n, row2, col2)
    ensures TwoDimToOneDim(n, row2, col2) in NeighborSites(n, row, col) <==> Abs(row - row2) + Abs(col - col2) == 1
  {
    var s := TwoDimToOneDim(n, row2, col2);
    if row > 1 && s == TwoDimToOneDim(n, row - 1, col) {
      TwoDimToOneDimInjective(n, row2, col2, row - 1, col);
    }
    if row < n && s == TwoDimToOneDim(n, row + 1, col) {
      TwoDimToOneDimInjective(n, row2, col2, row + 1, col);
    }
    if col > 1 && s == TwoDimToOneDim(n, row, col - 1) {
      TwoDimToOneDimInjective(n, row2, col2, row, col - 1);
    }
    if col < n && s == TwoDimToOneDim(n, row, col + 1) {
      TwoDimToOneDimInjective(n, row2, col2, row, col + 1);
    }
  }

  /** Every listed site is an index of a sequence of length `m`. */
  predicate AllIn(sites: seq<int>, m: int)
  {
    forall i :: 0 <= i < |sites| ==> 0 <= sites[i] < m
  }

  /** The component names after the opening site meets each listed neighbour in turn. */
  function JoinAll(st: seq<bv8>, ids: seq<int>, site: int, nbs: seq<int>): (r: seq<int>)
    requires |st| == |ids| && Canonical(ids) && 0 <= site < |ids| && AllIn(nbs, |ids|)
    ensures |r| == |ids| && Canonical(r)
    decreases |nbs|
  {
    if nbs == [] then ids
    else
      var p := JoinAll(st, ids, site, nbs[..|nbs| - 1]);
      var nb := nbs[|nbs| - 1];
      MergedCanonical(p, p[site], p[nb]);
      JoinIds(st, p, site, nb)
  }

  /** The bits gathered after the opening site meets each listed neighbour in turn. */
  function JoinAllState(st: seq<bv8>, ids: seq<int>, site: int, nbs: seq<int>, state: bv8): bv8
    requires |st| == |ids| && Canonical(ids) && 0 <= site < |ids| && AllIn(nbs, |ids|)
    decreases |nbs|
  {
    if nbs == [] then state
    else
      var pre := nbs[..|nbs| - 1];
      JoinState(st, JoinAll(st, ids, site, pre), nbs[|nbs| - 1], JoinAllState(st, ids, site, pre, state))
  }

  /** Meeting one more neighbour extends both folds by one step. */
  lemma JoinAllSnoc(st: seq<bv8>, ids: seq<int>, site: int, nbs: seq<int>, nb: int, state: bv8)
    requires |st| == |ids| && Canonical(ids) && 0 <= site < |ids| && AllIn(nbs, |ids|) && 0 <= nb < |ids|
    ensures AllIn(nbs + [nb], |ids|)
    ensures JoinAll(st, ids, site, nbs + [nb]) == JoinIds(st, JoinAll(st, ids, site, nbs), site, nb)
    ensures JoinAllState(st, ids, site, nbs + [nb], state)
              == JoinState(st, JoinAll(st, ids, site, nbs), nb, JoinAllState(st, ids, site, nbs, state))
  {
    assert (nbs + [nb])[..|nbs|] == nbs;
  }

  /** The opening site together with the listed neighbours whose status is not closed. */
  function Group(st: seq<bv8>, site: int, nbs: seq<int>): set<int>
  {
    {site} + set z | z in nbs && 0 <= z < |st| && st[z] != CLOSED
  }

  /** `x` shares a component with some member of `g`. */
  ghost predicate InGroup(ids: seq<int>, g: set<int>, x: int)
    requires 0 <= x < |ids|
  {
    exists z :: z in g && 0 <= z < |ids| && ids[z] == ids[x]
  }

  /**
   * `after` joins the components of the members of `g` into one and
   * changes nothing else: two sites share a component afterwards exactly
   * when they did before or both shared one with members of `g`.
   */
  ghost predicate JoinedAround(before: seq<int>, after: seq<int>, g: set<int>)
  {
    && |after| == |before|
    && forall x, y :: 0 <= x < |before| && 0 <= y < |before| ==>
         (after[x] == after[y] <==> before[x] == before[y] || (InGroup(before, g, x) && InGroup(before, g, y)))
  }

  /**
   * Once the site's component has absorbed those of the group `g`, a site
   * is in the site's or the neighbour's component exactly when it was in
   * the component of a member of `g` or of the neighbour.
   */
  lemma GroupMember(ids: seq<int>, p: seq<int>, g: set<int>, site: int, nb: int, u: int)
    requires JoinedAround(ids, p, g) && site in g
    requires 0 <= site < |ids| && 0 <= nb < |ids| && 0 <= u < |ids|
    ensures (p[u] == p[site] || p[u] == p[nb]) <==> InGroup(ids, g + {nb}, u)
  {
    var g' := g + {nb};
    assert InGroup(ids, g, site);
    if p[u] == p[site] {
      if ids[u] == ids[site] {
        assert site in g';
      } else {
        var z :| z in g && 0 <= z < |ids| && ids[z] == ids[u];
        assert z in g';
      }
    }
    if p[u] == p[nb] {
      if ids[u] == ids[nb] {
        assert nb in g';
      } else {
        var z :| z in g && 0 <= z < |ids| && ids[z] == ids[u];
        assert z in g';
      }
    }
    if InGroup(ids, g', u) {
      var z :| z in g' && 0 <= z < |ids| && ids[z] == ids[u];
      if z == nb {
        assert p[u] == p[nb];
      } else {
        assert InGroup(ids, g, u);
      }
    }
  }

  /** Meeting an open neighbour joins its component into the site's, and nothing else. */
  lemma JoinOpenNeighbor(ids: seq<int>, p: seq<int>, g: set<int>, site: int, nb: int)
    requires Canonical(ids) && Canonical(p) && JoinedAround(ids, p, g) && site in g
    requires 0 <= site < |ids| && 0 <= nb < |ids|
    ensures JoinedAround(ids, Merged(p, p[site], p[nb]), g + {nb})
  {
    var a, b := p[site], p[nb];
    var m := Merged(p, a, b);
    forall u | 0 <= u < |ids|
      ensures (p[u] == a || p[u] == b) <==> InGroup(ids, g + {nb}, u)
    {
      GroupMember(ids, p, g, site, nb, u);
    }
    forall x, y | 0 <= x < |ids| && 0 <= y < |ids|
      ensures m[x] == m[y] <==> ids[x] == ids[y] || (InGroup(ids, g + {nb}, x) && InGroup(ids, g + {nb}, y))
    {
      MergedJoins(p, a, b, x, y);
      if InGroup(ids, g, x) {
        var z :| z in g && 0 <= z < |ids| && ids[z] == ids[x];
        assert z in g + {nb};
      }
      if InGroup(ids, g, y) {
        var z :| z in g && 0 <= z < |ids| && ids[z] == ids[y];
        assert z in g + {nb};
      }
    }
  }

  /**
   * Meeting the listed neighbours in turn joins the components of the site
   * and of the open ones among them, and no others.
   */
  lemma {:induction false} JoinAllJoinedAround(st: seq<bv8>, ids: seq<int>, site: int, nbs: seq<int>)
    requires |st| == |ids| && Canonical(ids) && 0 <= site < |ids| && AllIn(nbs, |ids|)
    ensures JoinedAround(ids, JoinAll(st, ids, site, nbs), Group(st, site, nbs))
    decreases |nbs|
  {
    var g := Group(st, site, nbs);
    if nbs == [] {
      assert g == {site};
      forall x, y | 0 <= x < |ids| && 0 <= y < |ids| && InGroup(ids, g, x) && InGroup(ids, g, y)
        ensures ids[x] == ids[y]
      {
      }
    } else {
      var pre := nbs[..|nbs| - 1];
      var nb := nbs[|nbs| - 1];
      JoinAllJoinedAround(st, ids, site, pre);
      var p := JoinAll(st, ids, site, pre);
      var g' := Group(st, site, pre);
      assert nbs == pre + [nb];
      if st[nb] == CLOSED {
        assert g == g';
      } else {
        assert g == g' + {nb};
        JoinOpenNeighbor(ids, p, g', site, nb);
      }
    }
  }

  /** The sites one opening joins: the site itself and its open neighbours. */
  ghost function OpeningGroup(n: int, row: int, col: int, open: set<int>): set<int>
    requires InGrid(n, row, col)
  {
    {TwoDimToOneDim(n, row, col)} + set nb | nb in NeighborSites(n, row, col) && nb in open
  }

  /** Once an opening's group is joined, the site shares a component with each open neighbour. */
  lemma OpeningGroupJoined(n: int, row: int, col: int, before: seq<int>, after: seq<int>, open: set<int>)
    requires InGrid(n, row, col) && |before| == n * n + 1
    requires JoinedAround(before, after, OpeningGroup(n, row, col, open))
    ensures forall nb :: nb in NeighborSites(n, row, col) && nb in open ==>
              after[TwoDimToOneDim(n, row, col)] == after[nb]
  {
    var site := TwoDimToOneDim(n, row, col);
    var g := OpeningGroup(n, row, col, open);
    forall nb | nb in NeighborSites(n, row, col) && nb in open
      ensures after[site] == after[nb]
    {
      assert InGroup(before, g, site) && InGroup(before, g, nb);
    }
  }

  /**
   * Opening a closed cell joins the components of the site and of its open
   * neighbours and no others, so the site ends up sharing a component with
   * every open neighbour.
   */
  lemma OpeningJoins(n: int, st: seq<bv8>, ids: seq<int>, open: set<int>, perc: bool, row: int, col: int)
    requires GridState(n, st, ids, open, perc) && InGrid(n, row, col)
    ensures AllIn(NeighborSites(n, row, col), |ids|)
    ensures var after := JoinAll(st, ids, TwoDimToOneDim(n, row, col), NeighborSites(n, row, col));
            && JoinedAround(ids, after, OpeningGroup(n, row, col, open))
            && forall nb :: nb in NeighborSites(n, row, col) && nb in open ==>
                 after[TwoDimToOneDim(n, row, col)] == after[nb]
  {
    var site := TwoDimToOneDim(n, row, col);
    var nbs := NeighborSites(n, row, col);
    SiteRoundTrip(n, row, col);
    JoinAllJoinedAround(st, ids, site, nbs);
    GroupOfOpen(n, st, ids, open, perc, row, col);
    var g := Group(st, site, nbs);
    var after := JoinAll(st, ids, site, nbs);
    forall nb | nb in nbs && nb in open
      ensures after[site] == after[nb]
    {
      assert InGroup(ids, g, site) && InGroup(ids, g, nb);
    }
  }

  /** At an opening, the neighbours whose status is not closed are the open ones. */
  lemma GroupOfOpen(n: int, st: seq<bv8>, ids: seq<int>, open: set<int>, perc: bool, row: int, col: int)
    requires GridState(n, st, ids, open, perc) && InGrid(n, row, col)
    ensures Group(st, TwoDimToOneDim(n, row, col), NeighborSites(n, row, col)) == OpeningGroup(n, row, col, open)
  {
    var nbs := NeighborSites(n, row, col);
    forall z | z in nbs
      ensures 0 <= z < |st| && (st[z] != CLOSED <==> z in open)
    {
    }
  }

  /**
   * Writing the site's and its root's statuses ends an opening: the grid is
   * back between operations, and it percolates if it did or the new root is
   * marked both.
   */
  lemma FinishOpening(n: int, st: seq<bv8>, ids: seq<int>, open: set<int>, perc: bool, site: int, state: bv8)
    requires Opening(n, st, ids, open, perc, site, state)
    ensures var root := ids[site];
            GridState(n, st[root := OPEN][site := OPEN][root := RootStatus(state)], ids, open,
                      perc || RootStatus(state) == CONNECTED_BOTH)
  {
    var root := ids[site];
    var st' := st[root := OPEN][site := OPEN][root := RootStatus(state)];
    var perc' := perc || RootStatus(state) == CONNECTED_BOTH;
    assert root in open;
    forall s | 0 <= s < |st'|
      ensures IsStatus(st'[s]) && (st'[s] != CLOSED <==> s in open)
    {
    }
    forall r | IsOpenRoot(ids, open, r)
      ensures FlagsMatch(n, st', ids, open, r)
    {
      if r != root {
        assert r != site;
        assert FlagsMatch(n, st, ids, open, r);
      }
    }
    if perc' {
      if !perc {
        assert PercolatingRoot(n, ids, open, root);
      }
    } else {
      forall r | PercolatingRoot(n, ids, open, r)
        ensures false
      {
      }
    }
  }

  /** The full-site test reads the mark of the site's root, and only open sites are full. */
  lemma FullIffTouchesTop(n: int, st: seq<bv8>, ids: seq<int>, open: set<int>, perc: bool, site: int)
    requires GridState(n, st, ids, open, perc) && 1 <= site < |ids|
    ensures (st[ids[site]] == CONNECTED_TOP || st[ids[site]] == CONNECTED_BOTH) <==> TouchesTop(n, ids, open, ids[site])
    ensures TouchesTop(n, ids, open, ids[site]) ==> site in open
  {
    var root := ids[site];
    if root in open {
      assert FlagsMatch(n, st, ids, open, root);
    } else {
      assert root == site;
    }
  }

  /** A site whose status is not closed is open. */
  lemma OpenStatusIsOpen(n: int, st: seq<bv8>, ids: seq<int>, open: set<int>, perc: bool, site: int)
    requires GridState(n, st, ids, open, perc) && 0 <= site < |st| && st[site] != CLOSED
    ensures site in open
  {
  }

  /** On a one-by-one grid the only site, once open, is full and the grid percolates. */
  lemma SingleSiteGrid(n: int, st: seq<bv8>, ids: seq<int>, open: set<int>, perc: bool, site: int)
    requires GridState(n, st, ids, open, perc) && site in open
    ensures n == 1 ==> perc && TouchesTop(n, ids, open, ids[site])
  {
    if n == 1 {
      assert site == 1 && ids[1] == 1;
      assert PercolatingRoot(n, ids, open, 1);
    }
  }

  // ---------------------------------------------------------------------
  // The union-find structure
  // ---------------------------------------------------------------------

  /** A quick-find union-find: `id[x]` is the root naming x's component. */
  class UnionFind {
    const id: array<int>

    ghost predicate Valid()
      reads id
    {
      Canonical(id[..])
    }

    /** Every element alone in its component. */
    constructor (count: nat)
      ensures Valid() && fresh(id) && id.Length == count
      ensures forall x :: 0 <= x < count ==> id[x] == x
    {
      id := new int[count](x => x);
    }

    /** The root of p's component. */
    function Find(p: int): (r: int)
      requires Valid() && 0 <= p < id.Length
      reads id
      ensures 0 <= r < id.Length && id[r] == r && id[p] == r
    {
      id[p]
    }

    /** Joins p's component into q's. */
    method Union(p: int, q: int)
      requires Valid() && 0 <= p < id.Length && 0 <= q < id.Length
      modifies id
      ensures Valid()
      ensures id[..] == Merged(old(id[..]), old(id[p]), old(id[q]))
    {
      var pID := id[p];
      var qID := id[q];
      if pID == qID {
        assert id[..] == Merged(id[..], pID, qID);
        return;
      }
      var i := 0;
      while i < id.Length
        invariant 0 <= i <= id.Length
        invariant forall k :: 0 <= k < i ==> id[k] == (if old(id[k]) == pID then qID else old(id[k]))
        invariant forall k :: i <= k < id.Length ==> id[k] == old(id[k])
      {
        if id[i] == pID {
          id[i] := qID;
        }
        i := i + 1;
      }
      assert id[..] == Merged(old(id[..]), pID, qID);
      MergedCanonical(old(id[..]), pID, qID);
    }
  }

  // ---------------------------------------------------------------------
  // The grid
  // ---------------------------------------------------------------------

  class Percolation {
    const n: int
    const size: int
    const status: array<bv8>
    const uf: UnionFind
    var numOfOpenSites: int
    var percolates: bool
    /** The sites opened so far. */
    ghost var OpenSites: set<int>

    ghost predicate Valid()
      reads this, status, uf.id
    {
      && size == n * n && status.Length == size + 1 && uf.id.Length == size + 1
      && (status as object) != (uf.id as object)
      && GridState(n, status[..], uf.id[..], OpenSites, percolates)
      && numOfOpenSites == |OpenSites|
    }

    /** A grid of n*n closed sites. */
    constructor (n: int)
      requires n > 0
      ensures Valid() && this.n == n && OpenSites == {} && !percolates
      ensures fresh(status) && fresh(uf) && fresh(uf.id)
    {
      this.n := n;
      size := n * n;
      status := new bv8[n * n + 1](_ => CLOSED);
      uf := new UnionFind(n * n + 1);
      numOfOpenSites := 0;
      percolates := false;
      OpenSites := {};
    }

    /** A grid of n*n closed sites; a side below 1 throws an illegal-argument error. */
    static method Create(n: int) returns (r: Result<Percolation>)
      ensures n <= 0 ==> r == Throws(IllegalArgument)
      ensures n > 0 ==> r.Ok? && fresh(r.value) && r.value.Valid() && r.value.n == n
      ensures n > 0 ==> r.value.OpenSites == {} && !r.value.percolates
    {
      if n <= 0 {
        return Throws(IllegalArgument);
      }
      var p := new Percolation(n);
      r := Ok(p);
    }

    /** Cells outside 1..n in either coordinate throw an index-out-of-bounds error. */
    function Validate2DCoords(row: int, col: int): (r: Outcome)
      ensures r == Normal <==> InGrid(n, row, col)
      ensures r != Normal ==> r == Raised(IndexOutOfBounds)
    {
      if row > n || col > n || row <= 0 || col <= 0 then Raised(IndexOutOfBounds) else Normal
    }

    /** Whether the cell's site is open. */
    function IsOpen(row: int, col: int): (r: Result<bool>)
      requires Valid()
      reads this, status, uf.id
      ensures !InGrid(n, row, col) ==> r == Throws(IndexOutOfBounds)
      ensures InGrid(n, row, col) ==> r == Ok(TwoDimToOneDim(n, row, col) in OpenSites)
    {
      var v := Validate2DCoords(row, col);
      if v.Raised? then Throws(v.error)
      else
        SiteRoundTrip(n, row, col);
        Ok(status[TwoDimToOneDim(n, row, col)] != CLOSED)
    }

    /** Whether the cell's site is full: its component holds an open site of the top row. */
    function IsFull(row: int, col: int): (r: Result<bool>)
      requires Valid()
      reads this, status, uf.id
      ensures !InGrid(n, row, col) ==> r == Throws(IndexOutOfBounds)
      ensures InGrid(n, row, col) ==>
                r == Ok(TouchesTop(n, uf.id[..], OpenSites, uf.id[TwoDimToOneDim(n, row, col)]))
      ensures r == Ok(true) ==> InGrid(n, row, col) && TwoDimToOneDim(n, row, col) in OpenSites
    {
      var v := Validate2DCoords(row, col);
      if v.Raised? then Throws(v.error)
      else
        SiteRoundTrip(n, row, col);
        var site := TwoDimToOneDim(n, row, col);
        var root := uf.Find(site);
        FullIffTouchesTop(n, status[..], uf.id[..], OpenSites, percolates, site);
        Ok(status[root] == CONNECTED_TOP || status[root] == CONNECTED_BOTH)
    }

    /** The number of sites opened so far. */
    function NumberOfOpenSites(): (count: int)
      requires Valid()
      reads this, status, uf.id
      ensures count == |OpenSites|
    {
      numOfOpenSites
    }

    /** Whether some component holds open sites of both the top and the bottom row. */
    function Percolates(): (b: bool)
      requires Valid()
      reads this, status, uf.id
      ensures b <==> exists r :: PercolatingRoot(n, uf.id[..], OpenSites, r)
    {
      percolates
    }

    /**
     * Joins the opening site with a neighbour, when that neighbour is open,
     * gathering the status of the neighbour's root.
     */
    method Connect(site: int, neighbor: int, state: bv8) returns (state': bv8)
      requires uf.Valid() && status.Length == uf.id.Length && (status as object) != (uf.id as object)
      requires 0 <= site < uf.id.Length && 0 <= neighbor < uf.id.Length
      modifies uf.id
      ensures uf.Valid()
      ensures uf.id[..] == JoinIds(status[..], old(uf.id[..]), site, neighbor)
      ensures state' == JoinState(status[..], old(uf.id[..]), neighbor, state)
    {
      if status[neighbor] != CLOSED {
        var root := uf.Find(neighbor);
        state' := state | status[root];
        uf.Union(site, neighbor);
      } else {
        state' := state;
      }
    }

    /** Counts the closed site as open and gathers the marks of its own row. */
    method StartOpen(row: int, col: int, site: int) returns (state: bv8)
      requires Valid() && InGrid(n, row, col) && site == TwoDimToOneDim(n, row, col)
      requires 1 <= site <= size && status[site] == CLOSED
      modifies this`numOfOpenSites, this`OpenSites
      ensures OpenSites == old(OpenSites) + {site} && numOfOpenSites == |OpenSites|
      ensures Opening(n, status[..], uf.id[..], OpenSites, percolates, site, state)
    {
      SiteRoundTrip(n, row, col);
      state := 0;
      numOfOpenSites := numOfOpenSites + 1;
      OpenSites := OpenSites + {site};
      if row == 1 {
        state := state + CONNECTED_TOP;
      }
      if row == n {
        state := state + CONNECTED_BOTTOM;
      }
      StartOpening(n, status[..], uf.id[..], old(OpenSites), percolates, site, state);
    }

    /** Meets one neighbour of the opening site, keeping the opening. */
    method Meet(site: int, neighbor: int, state: bv8) returns (state': bv8)
      requires status.Length == uf.id.Length && (status as object) != (uf.id as object)
      requires Opening(n, status[..], uf.id[..], OpenSites, percolates, site, state)
      requires 1 <= neighbor < uf.id.Length && neighbor != site
      modifies uf.id
      ensures Opening(n, status[..], uf.id[..], OpenSites, percolates, site, state')
      ensures uf.id[..] == JoinIds(status[..], old(uf.id[..]), site, neighbor)
      ensures state' == JoinState(status[..], old(uf.id[..]), neighbor, state)
    {
      ConnectStep(n, status[..], uf.id[..], OpenSites, percolates, site, state, neighbor);
      state' := Connect(site, neighbor, state);
    }

    /** Joins the opening site with its open neighbours above, below, left and right, in that order. */
    method ConnectNeighbors(row: int, col: int, site: int, state: bv8) returns (state': bv8)
      requires InGrid(n, row, col) && site == TwoDimToOneDim(n, row, col)
      requires status.Length == uf.id.Length && (status as object) != (uf.id as object)
      requires Opening(n, status[..], uf.id[..], OpenSites, percolates, site, state)
      modifies uf.id
      ensures Joining(site, old(uf.id[..]), NeighborSites(n, row, col), state, state')
    {
      ghost var ids := uf.id[..];
      NeighborSitesInside(n, row, col);
      ghost var up, down, left, right := NeighborSitesSplit(n, row, col);
      assert Joining(site, ids, [], state, state);
      state' := MeetIf(row > 1, site, TwoDimToOneDim(n, row - 1, col), state, ids, [], state);
      state' := MeetIf(row < n, site, TwoDimToOneDim(n, row + 1, col), state', ids, up, state);
      state' := MeetIf(col > 1, site, TwoDimToOneDim(n, row, col - 1), state', ids, up + down, state);
      state' := MeetIf(col < n, site, TwoDimToOneDim(n, row, col + 1), state', ids, up + down + left, state);
    }

    /**
     * An opening under way whose component names and gathered bits are
     * those left by meeting the neighbours `met` in turn, starting from the
     * names `ids0` and the bits `state0`.
     */
    ghost predicate Joining(site: int, ids0: seq<int>, met: seq<int>, state0: bv8, state: bv8)
      reads this, status, uf.id
    {
      && status.Length == uf.id.Length && (status as object) != (uf.id as object)
      && Opening(n, status[..], uf.id[..], OpenSites, percolates, site, state)
      && |ids0| == uf.id.Length && Canonical(ids0) && 0 <= site < |ids0| && AllIn(met, |ids0|)
      && uf.id[..] == JoinAll(status[..], ids0, site, met)
      && state == JoinAllState(status[..], ids0, site, met, state0)
    }

    /**
     * Meets `neighbor` when the grid has it (`inside`), extending the joins
     * made since the opening began with the names `ids0` and bits `state0`.
     */
    method MeetIf(inside: bool, site: int, neighbor: int, state: bv8, ghost ids0: seq<int>, ghost met: seq<int>,
                  ghost state0: bv8) returns (state': bv8)
      requires Joining(site, ids0, met, state0, state)
      requires inside ==> 1 <= neighbor < uf.id.Length && neighbor != site
      modifies uf.id
      ensures Joining(site, ids0, met + (if inside then [neighbor] else []), state0, state')
    {
      if inside {
        JoinAllSnoc(status[..], ids0, site, met, neighbor, state0);
        state' := Meet(site, neighbor, state);
      } else {
        assert met + [] == met;
        state' := state;
      }
    }

    /**
     * Marks the site open and gives its root the status the gathered bits
     * call for, setting the percolation flag when that status is "both".
     */
    method FinishOpen(site: int, state: bv8)
      requires size == n * n && status.Length == size + 1 && uf.id.Length == size + 1
      requires (status as object) != (uf.id as object) && numOfOpenSites == |OpenSites|
      requires Opening(n, status[..], uf.id[..], OpenSites, percolates, site, state)
      modifies this`percolates, status
      ensures Valid()
      ensures old(percolates) ==> percolates
    {
      ghost var st := status[..];
      var siteRoot := uf.Find(site);
      status[siteRoot] := OPEN;
      status[site] := OPEN;
      status[siteRoot] := RootStatus(state);
      assert status[..] == st[siteRoot := OPEN][site := OPEN][siteRoot := RootStatus(state)];
      if status[siteRoot] == CONNECTED_BOTH {
        percolates := true;
      }
      FinishOpening(n, st, uf.id[..], OpenSites, old(percolates), site, state);
    }

    /**
     * Opens the cell's site unless it is open already, joining it with its
     * open neighbours above, below, left and right, in that order.
     */
    method Open(row: int, col: int) returns (r: Outcome)
      requires Valid()
      modifies this, status, uf.id
      ensures Valid()
      ensures !InGrid(n, row, col) ==> r == Raised(IndexOutOfBounds)
      ensures InGrid(n, row, col) ==> r == Normal && OpenSites == old(OpenSites) + {TwoDimToOneDim(n, row, col)}
      ensures !InGrid(n, row, col) || TwoDimToOneDim(n, row, col) in old(OpenSites) ==>
                && OpenSites == old(OpenSites) && percolates == old(percolates)
                && status[..] == old(status[..]) && uf.id[..] == old(uf.id[..])
      ensures old(percolates) ==> percolates
      ensures InGrid(n, row, col) ==> IsOpen(row, col) == Ok(true)
      ensures n == 1 && InGrid(n, row, col) ==> percolates && IsFull(row, col) == Ok(true)
      ensures InGrid(n, row, col) && TwoDimToOneDim(n, row, col) !in old(OpenSites) ==>
                JoinedAround(old(uf.id[..]), uf.id[..], OpeningGroup(n, row, col, old(OpenSites)))
      ensures InGrid(n, row, col) && TwoDimToOneDim(n, row, col) !in old(OpenSites) ==>
                forall nb :: nb in NeighborSites(n, row, col) && nb in old(OpenSites) ==>
                  uf.id[TwoDimToOneDim(n, row, col)] == uf.id[nb]
    {
      r := Validate2DCoords(row, col);
      if r != Normal {
        return;
      }
      var site := TwoDimToOneDim(n, row, col);
      SiteRoundTrip(n, row, col);
      if status[site] != CLOSED {
        OpenStatusIsOpen(n, status[..], uf.id[..], OpenSites, percolates, site);
        SingleSiteGrid(n, status[..], uf.id[..], OpenSites, percolates, site);
        return;
      }
      ghost var ids, open := uf.id[..], OpenSites;
      OpenClosed(row, col, site);
      OpeningGroupJoined(n, row, col, ids, uf.id[..], open);
    }

    /**
     * Opens a closed site: counts it, joins it with its open neighbours and
     * writes the statuses of the site and of its new root.
     */
    method OpenClosed(row: int, col: int, site: int)
      requires Valid() && InGrid(n, row, col) && site == TwoDimToOneDim(n, row, col)
      requires 1 <= site <= size && status[site] == CLOSED
      modifies this`numOfOpenSites, this`OpenSites, this`percolates, status, uf.id
      ensures Valid()
      ensures OpenSites == old(OpenSites) + {site}
      ensures old(percolates) ==> percolates
      ensures JoinedAround(old(uf.id[..]), uf.id[..], OpeningGroup(n, row, col, old(OpenSites)))
      ensures n == 1 ==> percolates && TouchesTop(n, uf.id[..], OpenSites, uf.id[site])
    {
      ghost var st, ids := status[..], uf.id[..];
      OpeningJoins(n, st, ids, OpenSites, percolates, row, col);
      var state := StartOpen(row, col, site);
      assert status[..] == st;
      state := ConnectNeighbors(row, col, site, state);
      assert uf.id[..] == JoinAll(st, ids, site, NeighborSites(n, row, col));
      FinishOpen(site, state);
      SingleSiteGrid(n, status[..], uf.id[..], OpenSites, percolates, site);
    }
  }
}
