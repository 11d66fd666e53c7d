/**
 * The A* search that both grid bots (`Grid::astar` of the-labyrinth.rs and of
 * code-a-la-mode.rs) implement with the same text. The open and closed lists
 * are vectors: each round sorts `open` by descending `f` and pops its last
 * entry, moves it to `closed`, and then looks at the neighbours of its point in
 * the order the grid returns them. Reaching the target as a neighbour ends the
 * search; the path is then rebuilt by following parent links through `closed`.
 *
 * The grid is abstracted to a neighbour function and a cost function over
 * points; the two grid modules instantiate them.
 */
module AStar {
  import opened Wrappers
  import opened VecOps

  datatype Point = Point(x: int, y: int)

  function Abs(n: int): nat
  {
    if n < 0 then -n else n
  }

  /** `Point::manhattan_distance`, the heuristic of the search. */
  function Manhattan(a: Point, b: Point): (d: nat)
    ensures d == 0 <==> a == b
  {
    Abs(a.x - b.x) + Abs(a.y - b.y)
  }

  /** `AStarPoint`: `parent` is None only for the record of the start point. */
  datatype Entry = Entry(point: Point, g: int, h: int, f: int, parent: Option<Point>)

  /** Where the Rust search panics (a parent missing from `closed`), or where the model gives up. */
  datatype Failure = MissingParent(point: Point) | OutOfFuel

  /**
   * One search: a start, a target, the grid's neighbour list and its step cost.
   * Costs are at least 1, as every cost the two grids return is.
   */
  datatype Problem = Problem(start: Point, target: Point, nbrs: Point -> seq<Point>, cost: Point -> int)
  {
    ghost predicate Valid()
    {
      forall p :: cost(p) >= 1
    }
  }

  function EntryF(e: Entry): int
  {
    e.f
  }

  /** `iter().position(|e| e.point == p)`. */
  function FindPoint(s: seq<Entry>, p: Point): (r: Option<nat>)
    ensures r.Some? ==> r.value < |s| && s[r.value].point == p
    ensures r.Some? ==> forall i :: 0 <= i < r.value ==> s[i].point != p
    ensures r.None? ==> forall i :: 0 <= i < |s| ==> s[i].point != p
  {
    if s == [] then None
    else if s[0].point == p then Some(0)
    else match FindPoint(s[1..], p)
      case None => None
      case Some(i) => Some(i + 1)
  }

  ghost function Points(s: seq<Entry>): set<Point>
  {
    set e | e in s :: e.point
  }

  ghost predicate DistinctPoints(s: seq<Entry>)
  {
    forall i, j :: 0 <= i < j < |s| ==> s[i].point != s[j].point
  }

  ghost predicate Disjoint(open: seq<Entry>, closed: seq<Entry>)
  {
    forall i, j :: 0 <= i < |open| && 0 <= j < |closed| ==> open[i].point != closed[j].point
  }

  /** The shape every record has: the start record, or a neighbour of its parent with f = g + h. */
  ghost predicate WellFormed(pr: Problem, e: Entry)
  {
    match e.parent
    case None => e.point == pr.start && e.g == 0 && e.h == 0 && e.f == 0
    case Some(p) =>
      && e.g >= 1 && e.h == Manhattan(pr.target, e.point) && e.f == e.g + e.h
      && e.point in pr.nbrs(p)
  }

  /**
   * The invariant of the search: each point has at most one record in
   * `open ++ closed`, every record is well formed, every parent point still has
   * a record, and a child's g is at least its parent's g plus the cost of
   * stepping onto the child (so, with costs of at least 1, following parent
   * links terminates, and the cost of the walk back is at most the g).
   */
  ghost predicate Inv(pr: Problem, open: seq<Entry>, closed: seq<Entry>)
  {
    && DistinctPoints(open) && DistinctPoints(closed)
    && Disjoint(open, closed)
    && (forall e :: e in open + closed ==> WellFormed(pr, e))
    && (forall e :: e in open + closed && e.parent.Some? ==> e.parent.value in Points(open + closed))
    && (forall e, c :: e in open + closed && c in open + closed && e.parent == Some(c.point) ==> c.g + pr.cost(e.point) <= e.g)
  }

  /** The record for neighbour `p` of `q`: g from `q.g + cost`, h the Manhattan distance to the target. */
  function Candidate(pr: Problem, q: Entry, p: Point): Entry
  {
    var g := q.g + pr.cost(p);
    var h := Manhattan(pr.target, p);
    Entry(p, g, h, g + h, Some(q.point))
  }

  /**
   * The closed-list half of the update: a point with a closed record is
   * re-opened only when the new f is strictly smaller; a point with no record
   * is opened.
   */
  function Reopen(open: seq<Entry>, closed: seq<Entry>, n: Entry): (seq<Entry>, seq<Entry>)
  {
    match FindPoint(closed, n.point)
    case Some(j) => if closed[j].f > n.f then (open + [n], SwapRemove(closed, j)) else (open, closed)
    case None => (open + [n], closed)
  }

  /**
   * The update for one neighbour record `n`: an open record with a smaller f
   * wins and nothing changes; otherwise the open record (if any) is dropped and
   * the closed-list rule decides.
   */
  function Relax(open: seq<Entry>, closed: seq<Entry>, n: Entry): (seq<Entry>, seq<Entry>)
  {
    match FindPoint(open, n.point)
    case Some(i) => if open[i].f < n.f then (open, closed) else Reopen(SwapRemove(open, i), closed, n)
    case None => Reopen(open, closed, n)
  }

  lemma SwapRemoveDistinct(s: seq<Entry>, i: nat)
    requires i < |s| && DistinctPoints(s)
    ensures DistinctPoints(SwapRemove(s, i))
    ensures forall k :: 0 <= k < |s| - 1 ==> SwapRemove(s, i)[k].point != s[i].point
  {
  }

  lemma InSwapRemove(s: seq<Entry>, i: nat, e: Entry)
    requires i < |s| && e in SwapRemove(s, i)
    ensures e in s
  {
    var k :| 0 <= k < |SwapRemove(s, i)| && SwapRemove(s, i)[k] == e;
  }

  lemma KeptBySwapRemove(s: seq<Entry>, i: nat, e: Entry)
    requires i < |s| && e in s && e != s[i] && DistinctPoints(s)
    ensures e in SwapRemove(s, i)
  {
    var k :| 0 <= k < |s| && s[k] == e;
    if k == |s| - 1 {
      assert SwapRemove(s, i)[i] == e;
    } else {
      assert SwapRemove(s, i)[k] == e;
    }
  }

  lemma UniqueByPoint(s: seq<Entry>, a: Entry, b: Entry)
    requires DistinctPoints(s) && a in s && b in s && a.point == b.point
    ensures a == b
  {
    var i :| 0 <= i < |s| && s[i] == a;
    var j :| 0 <= j < |s| && s[j] == b;
  }

  /**
   * What the update does to the record of `n.point`: `n` is recorded exactly
   * when there is no open record with a smaller f and no closed record with an
   * f that is not larger; records of every other point stay where they were.
   */
  lemma RelaxRule(pr: Problem, open: seq<Entry>, closed: seq<Entry>, n: Entry)
    requires Inv(pr, open, closed)
    ensures var (o, c) := Relax(open, closed, n);
      && (n in o <==>
            (forall e :: e in open && e.point == n.point ==> e.f >= n.f)
            && (forall e :: e in closed && e.point == n.point ==> e.f > n.f))
      && (forall e: Entry :: e.point != n.point ==> (e in o <==> e in open) && (e in c <==> e in closed))
  {
    var (o, c) := Relax(open, closed, n);
    match FindPoint(open, n.point)
    case Some(i) =>
      SwapRemoveDistinct(open, i);
      forall e | e in open && e.point == n.point ensures e == open[i] {
        UniqueByPoint(open, e, open[i]);
      }
      assert forall j :: 0 <= j < |closed| ==> closed[j].point != n.point;
      if open[i].f >= n.f {
        var open1 := SwapRemove(open, i);
        assert FindPoint(closed, n.point).None?;
        assert o == open1 + [n] && c == closed;
        forall e: Entry | e.point != n.point ensures e in o <==> e in open {
          if e in open { KeptBySwapRemove(open, i, e); }
          if e in open1 { InSwapRemove(open, i, e); }
        }
      }
    case None =>
      match FindPoint(closed, n.point)
      case Some(j) =>
        SwapRemoveDistinct(closed, j);
        forall e | e in closed && e.point == n.point ensures e == closed[j] {
          UniqueByPoint(closed, e, closed[j]);
        }
        if closed[j].f > n.f {
          forall e: Entry | e.point != n.point ensures e in c <==> e in closed {
            if e in closed { KeptBySwapRemove(closed, j, e); }
            if e in c { InSwapRemove(closed, j, e); }
          }
        }
      case None =>
  }

  lemma UniqueInBoth(open: seq<Entry>, closed: seq<Entry>, a: Entry, b: Entry)
    requires DistinctPoints(open) && DistinctPoints(closed) && Disjoint(open, closed)
    requires a in open + closed && b in open + closed && a.point == b.point
    ensures a == b
  {
    if a in open && b in open {
      UniqueByPoint(open, a, b);
    } else if a in closed && b in closed {
      UniqueByPoint(closed, a, b);
    }
  }

  /**
   * The invariant survives replacing the record `old_` of `n.point` by `n`, a
   * record that is no worse (smaller or equal g) and whose parent is the
   * closed record `q`.
   */
  lemma ReplaceInv(pr: Problem, open: seq<Entry>, closed: seq<Entry>, o: seq<Entry>, c: seq<Entry>, q: Entry, n: Entry, old_: Entry)
    requires pr.Valid() && Inv(pr, open, closed)
    requires q in closed && q in o + c && WellFormed(pr, n) && n.parent == Some(q.point) && q.g + pr.cost(n.point) <= n.g
    requires old_ in open + closed && old_.point == n.point && n.g <= old_.g
    requires DistinctPoints(o) && DistinctPoints(c) && Disjoint(o, c) && n in o + c
    requires forall e :: e in o + c ==> e in open + closed || e == n
    requires forall e :: e in open + closed ==> e in o + c || e == old_
    ensures Inv(pr, o, c) && Points(open + closed) <= Points(o + c)
  {
    forall x | x in Points(open + closed) ensures x in Points(o + c) {
      var e :| e in open + closed && e.point == x;
      if e == old_ {
        assert n in o + c;
      }
    }
    forall a, b | a in o + c && b in o + c && a.parent == Some(b.point) ensures b.g + pr.cost(a.point) <= a.g {
      if a == n {
        if b == n {
          UniqueInBoth(open, closed, old_, q);
        } else {
          UniqueInBoth(open, closed, b, q);
        }
      } else if b == n {
        assert old_.g + pr.cost(a.point) <= a.g;
      }
    }
  }

  /** The invariant survives adding a record `n` for a point that had none, whose parent is the closed record `q`. */
  lemma AddInv(pr: Problem, open: seq<Entry>, closed: seq<Entry>, o: seq<Entry>, c: seq<Entry>, q: Entry, n: Entry)
    requires pr.Valid() && Inv(pr, open, closed)
    requires q in closed && q in o + c && WellFormed(pr, n) && n.parent == Some(q.point) && q.g + pr.cost(n.point) <= n.g
    requires n.point !in Points(open + closed)
    requires DistinctPoints(o) && DistinctPoints(c) && Disjoint(o, c) && n in o + c
    requires forall e :: e in o + c ==> e in open + closed || e == n
    requires forall e :: e in open + closed ==> e in o + c
    ensures Inv(pr, o, c) && Points(open + closed) <= Points(o + c)
  {
    forall a, b | a in o + c && b in o + c && a.parent == Some(b.point) ensures b.g + pr.cost(a.point) <= a.g {
      if a == n && b != n {
        UniqueInBoth(open, closed, b, q);
      }
    }
  }

  /** Case of the update where `n` replaces an open record with a larger or equal f. */
  lemma ReplaceOpenInv(pr: Problem, open: seq<Entry>, closed: seq<Entry>, q: Entry, n: Entry, i: nat)
    requires pr.Valid() && Inv(pr, open, closed) && q in closed && WellFormed(pr, n) && n.parent == Some(q.point)
    requires q.g + pr.cost(n.point) <= n.g
    requires i < |open| && open[i].point == n.point && open[i].f >= n.f
    ensures var o := SwapRemove(open, i) + [n];
      Inv(pr, o, closed) && q in closed && Points(open + closed) <= Points(o + closed)
  {
    var old_ := open[i];
    var o := SwapRemove(open, i) + [n];
    assert old_ in open + closed && WellFormed(pr, old_);
    ReplaceOpenMembers(open, closed, n, i);
    ReplaceInv(pr, open, closed, o, closed, q, n, old_);
  }

  /** The lists after `n` replaces the open record `open[i]` of its point. */
  lemma ReplaceOpenMembers(open: seq<Entry>, closed: seq<Entry>, n: Entry, i: nat)
    requires DistinctPoints(open) && DistinctPoints(closed) && Disjoint(open, closed)
    requires i < |open| && open[i].point == n.point
    ensures var o := SwapRemove(open, i) + [n];
      && DistinctPoints(o) && Disjoint(o, closed) && n in o + closed
      && (forall e :: e in o + closed ==> e in open + closed || e == n)
      && (forall e :: e in open + closed ==> e in o + closed || e == open[i])
  {
    var open1 := SwapRemove(open, i);
    var o := open1 + [n];
    SwapRemoveDistinct(open, i);
    forall e | e in o + closed ensures e in open + closed || e == n {
      if e in open1 { InSwapRemove(open, i, e); }
    }
    forall e | e in open + closed ensures e in o + closed || e == open[i] {
      if e in open && e != open[i] { KeptBySwapRemove(open, i, e); }
    }
    forall a, b | 0 <= a < |o| && 0 <= b < |closed| ensures o[a].point != closed[b].point {
      if a < |open1| { InSwapRemove(open, i, o[a]); }
    }
  }

  /** Case of the update where `n` re-opens a closed record with a strictly larger f. */
  lemma ReopenInv(pr: Problem, open: seq<Entry>, closed: seq<Entry>, q: Entry, n: Entry, j: nat)
    requires pr.Valid() && Inv(pr, open, closed) && q in closed && WellFormed(pr, n) && n.parent == Some(q.point)
    requires q.g + pr.cost(n.point) <= n.g
    requires n.point !in Points(open)
    requires j < |closed| && closed[j].point == n.point && closed[j].f > n.f && closed[j] != q
    ensures var c := SwapRemove(closed, j);
      Inv(pr, open + [n], c) && q in c && Points(open + closed) <= Points(open + [n] + c)
  {
    var old_ := closed[j];
    var c := SwapRemove(closed, j);
    var o := open + [n];
    assert old_ in open + closed && WellFormed(pr, old_);
    KeptBySwapRemove(closed, j, q);
    ReopenMembers(open, closed, n, j);
    ReplaceInv(pr, open, closed, o, c, q, n, old_);
  }

  /** The lists after `n` re-opens the closed record `closed[j]` of its point. */
  lemma ReopenMembers(open: seq<Entry>, closed: seq<Entry>, n: Entry, j: nat)
    requires DistinctPoints(open) && DistinctPoints(closed) && Disjoint(open, closed)
    requires n.point !in Points(open) && j < |closed| && closed[j].point == n.point
    ensures var c := SwapRemove(closed, j);
      var o := open + [n];
      && DistinctPoints(o) && DistinctPoints(c) && Disjoint(o, c) && n in o + c
      && (forall e :: e in o + c ==> e in open + closed || e == n)
      && (forall e :: e in open + closed ==> e in o + c || e == closed[j])
  {
    var old_ := closed[j];
    var c := SwapRemove(closed, j);
    var o := open + [n];
    SwapRemoveDistinct(closed, j);
    forall e | e in o + c ensures e in open + closed || e == n {
      if e in c { InSwapRemove(closed, j, e); }
    }
    forall e | e in open + closed ensures e in o + c || e == old_ {
      if e in closed && e != old_ { KeptBySwapRemove(closed, j, e); }
    }
    forall a, b | 0 <= a < |o| && 0 <= b < |c| ensures o[a].point != c[b].point {
      InSwapRemove(closed, j, c[b]);
      if a == |open| {
        assert c[b] != old_;
      }
    }
  }

  /** Recording the candidate for a neighbour of a closed record keeps the invariant, and that closed record. */
  lemma RelaxInv(pr: Problem, open: seq<Entry>, closed: seq<Entry>, q: Entry, p: Point)
    requires pr.Valid() && Inv(pr, open, closed) && q in closed && p in pr.nbrs(q.point)
    ensures var (o, c) := Relax(open, closed, Candidate(pr, q, p));
      Inv(pr, o, c) && q in c && Points(open + closed) <= Points(o + c)
  {
    var n := Candidate(pr, q, p);
    assert WellFormed(pr, q);
    assert WellFormed(pr, n);
    match FindPoint(open, n.point)
    case Some(i) =>
      if open[i].f >= n.f {
        assert FindPoint(closed, n.point).None?;
        ReplaceOpenInv(pr, open, closed, q, n, i);
      }
    case None =>
      match FindPoint(closed, n.point)
      case Some(j) =>
        if closed[j].f > n.f {
          assert closed[j] != q;
          ReopenInv(pr, open, closed, q, n, j);
        }
      case None =>
        AddInv(pr, open, closed, open + [n], closed, q, n);
  }

  /** The part of the invariant that reconstruction needs: well-formed closed records whose parents have smaller g. */
  ghost predicate ChainInv(pr: Problem, closed: seq<Entry>)
  {
    && (forall e :: e in closed ==> WellFormed(pr, e))
    && (forall e, c :: e in closed && c in closed && e.parent == Some(c.point) ==> c.g < e.g)
  }

  lemma InvChainInv(pr: Problem, open: seq<Entry>, closed: seq<Entry>)
    requires pr.Valid() && Inv(pr, open, closed)
    ensures ChainInv(pr, closed) && DistinctPoints(closed)
  {
    assert forall e :: e in closed ==> e in open + closed;
  }

  /** A walk on the neighbour graph read backwards, ending at the start point. */
  ghost predicate BackToStart(pr: Problem, ps: seq<Point>)
  {
    && ps != [] && ps[|ps| - 1] == pr.start
    && forall k :: 0 <= k < |ps| - 1 ==> ps[k] in pr.nbrs(ps[k + 1])
  }

  /**
   * A path as the search returns it: the start point itself is not included,
   * the first point is a neighbour of the start, each point is a neighbour of
   * the one before it and the last one is the target.
   */
  ghost predicate IsPath(pr: Problem, path: seq<Point>)
  {
    && path != [] && path[0] in pr.nbrs(pr.start) && path[|path| - 1] == pr.target
    && forall k :: 0 <= k < |path| - 1 ==> path[k + 1] in pr.nbrs(path[k])
  }

  /** The target of a path is a neighbour of the point before it, the start for a one-point path. */
  lemma PathEnd(pr: Problem, path: seq<Point>)
    requires IsPath(pr, path)
    ensures pr.target in pr.nbrs(if |path| == 1 then pr.start else path[|path| - 2])
  {
    if |path| > 1 {
      assert path[|path| - 2 + 1] in pr.nbrs(path[|path| - 2]);
    }
  }

  /**
   * The points met by following parent links through `closed`, from `parent`
   * on. The walk stops at the start record; a link to a point with no closed
   * record is where the Rust code panics. `bound` exceeds the g of the next
   * record, which strictly decreases along the links.
   */
  function Chain(pr: Problem, closed: seq<Entry>, parent: Option<Point>, bound: nat): (r: Result<seq<Point>, Failure>)
    requires ChainInv(pr, closed)
    requires parent.Some? ==> forall c :: c in closed && c.point == parent.value ==> c.g < bound
    ensures r.Ok? && parent.None? ==> r.value == []
    ensures r.Ok? && parent.Some? ==> BackToStart(pr, r.value) && r.value[0] == parent.value
    decreases bound
  {
    match parent
    case None => Ok([])
    case Some(p) =>
      match FindPoint(closed, p)
      case None => Err(MissingParent(p))
      case Some(i) =>
        var c := closed[i];
        assert c in closed && WellFormed(pr, c);
        match Chain(pr, closed, c.parent, c.g)
        case Err(e) => Err(e)
        case Ok(rest) => Ok([p] + rest)
  }

  /** The end of reconstruction: drop the last point when it is the start, then reverse. */
  function Trim(pr: Problem, s: seq<Point>): seq<Point>
  {
    if s == [] then []
    else if s[|s| - 1] != pr.start then Reverse(s)
    else Reverse(s[..|s| - 1])
  }

  function Finish(pr: Problem, path: seq<Point>, rest: Result<seq<Point>, Failure>): Result<seq<Point>, Failure>
  {
    match rest
    case Err(e) => Err(e)
    case Ok(ps) => Ok(Trim(pr, path + ps))
  }

  lemma {:induction false} ReverseBackLinked(pr: Problem, s: seq<Point>)
    requires forall k :: 0 <= k < |s| - 1 ==> s[k] in pr.nbrs(s[k + 1])
    ensures forall k :: 0 <= k < |s| - 1 ==> Reverse(s)[k + 1] in pr.nbrs(Reverse(s)[k])
  {
    forall k | 0 <= k < |s| - 1 ensures Reverse(s)[k + 1] in pr.nbrs(Reverse(s)[k]) {
      ReverseAt(s, k);
      ReverseAt(s, k + 1);
      assert s[|s| - 2 - k] in pr.nbrs(s[|s| - 1 - k]);
    }
  }

  /**
   * The path returned once the target `pr.target` turns up as a neighbour of
   * the closed record `q`: when no parent is missing, it is a path from the
   * start to the target.
   */
  function Rebuild(pr: Problem, q: Entry, closed: seq<Entry>): (r: Result<seq<Point>, Failure>)
    requires ChainInv(pr, closed) && DistinctPoints(closed) && q in closed && pr.target in pr.nbrs(q.point)
    ensures r.Ok? ==> IsPath(pr, r.value)
  {
    forall c | c in closed && c.point == q.point ensures c.g < q.g + 1 {
      UniqueByPoint(closed, c, q);
    }
    assert WellFormed(pr, q);
    var res := Chain(pr, closed, Some(q.point), q.g + 1);
    if res.Ok? then
      var ps := res.value;
      var s := [pr.target] + ps;
      var kept := s[..|s| - 1];
      assert s[|s| - 1] == pr.start;
      assert Trim(pr, s) == Reverse(kept);
      forall k | 0 <= k < |kept| - 1 ensures kept[k] in pr.nbrs(kept[k + 1]) {
        if k > 0 {
          assert kept[k] == ps[k - 1] && kept[k + 1] == ps[k];
        }
      }
      ReverseBackLinked(pr, kept);
      ReverseAt(kept, 0);
      ReverseAt(kept, |kept| - 1);
      assert kept[|kept| - 1] in pr.nbrs(pr.start) by {
        if |kept| > 1 {
          assert kept[|kept| - 1] == ps[|ps| - 2];
        }
      }
      Finish(pr, [pr.target], res)
    else
      Finish(pr, [pr.target], res)
  }

  lemma {:induction false} InsertDescDistinct(s: seq<Entry>, x: Entry)
    requires DistinctPoints(s) && forall i :: 0 <= i < |s| ==> s[i].point != x.point
    ensures DistinctPoints(InsertDesc(s, x, EntryF))
  {
    if s != [] && EntryF(s[0]) >= EntryF(x) {
      var rest := InsertDesc(s[1..], x, EntryF);
      InsertDescDistinct(s[1..], x);
      forall k | 0 <= k < |rest| ensures rest[k].point != s[0].point {
        if rest[k] != x {
          var m :| 0 <= m < |s[1..]| && s[1..][m] == rest[k];
          assert s[m + 1] == rest[k];
        }
      }
      assert InsertDesc(s, x, EntryF) == [s[0]] + rest;
    }
  }

  lemma {:induction false} SortDescDistinct(s: seq<Entry>)
    requires DistinctPoints(s)
    ensures DistinctPoints(SortDesc(s, EntryF))
  {
    if s != [] {
      var init := s[..|s| - 1];
      var r0 := SortDesc(init, EntryF);
      SortDescDistinct(init);
      forall i | 0 <= i < |r0| ensures r0[i].point != s[|s| - 1].point {
        var m :| 0 <= m < |init| && init[m] == r0[i];
      }
      InsertDescDistinct(r0, s[|s| - 1]);
    }
  }

  /**
   * Sorting `open` by descending f, popping its last record and pushing it on
   * `closed` keeps the invariant and the set of recorded points.
   */
  lemma PopInv(pr: Problem, open: seq<Entry>, closed: seq<Entry>)
    requires Inv(pr, open, closed) && open != []
    ensures var sorted := SortDesc(open, EntryF);
      var q := sorted[|sorted| - 1];
      && Inv(pr, sorted[..|sorted| - 1], closed + [q])
      && Points(sorted[..|sorted| - 1] + (closed + [q])) == Points(open + closed)
      && (forall e :: e in sorted[..|sorted| - 1] + (closed + [q]) <==> e in open + closed)
  {
    var sorted := SortDesc(open, EntryF);
    var q := sorted[|sorted| - 1];
    SortDescDistinct(open);
    SortedMembers(open);
    PopKeepsApart(open, closed, sorted);
    SameRecordsInv(pr, open, closed, sorted[..|sorted| - 1], closed + [q]);
  }

  lemma PopKeepsApart(open: seq<Entry>, closed: seq<Entry>, sorted: seq<Entry>)
    requires DistinctPoints(closed) && Disjoint(open, closed) && sorted != []
    requires DistinctPoints(sorted) && forall e :: e in sorted <==> e in open
    ensures var q := sorted[|sorted| - 1];
      var rest := sorted[..|sorted| - 1];
      && DistinctPoints(rest) && DistinctPoints(closed + [q]) && Disjoint(rest, closed + [q])
      && (forall e :: e in rest + (closed + [q]) <==> e in open + closed)
  {
    var n := |sorted|;
    var q := sorted[n - 1];
    var rest := sorted[..n - 1];
    var closed1 := closed + [q];
    assert sorted == rest + [q];
    forall e ensures e in rest + closed1 <==> e in open + closed {
      assert e in sorted <==> e in rest || e == q;
    }
    assert DistinctPoints(closed1) by {
      forall j | 0 <= j < |closed| ensures closed[j].point != q.point {
        assert q in open;
        var i :| 0 <= i < |open| && open[i] == q;
      }
    }
    forall a, b | 0 <= a < |rest| && 0 <= b < |closed1| ensures rest[a].point != closed1[b].point {
      assert rest[a] == sorted[a];
      if b < |closed| {
        assert rest[a] in open;
        var i :| 0 <= i < |open| && open[i] == rest[a];
      }
    }
  }

  /** The invariant only depends on which records there are, given that each list keeps points apart. */
  lemma SameRecordsInv(pr: Problem, open: seq<Entry>, closed: seq<Entry>, o: seq<Entry>, c: seq<Entry>)
    requires Inv(pr, open, closed)
    requires DistinctPoints(o) && DistinctPoints(c) && Disjoint(o, c)
    requires forall e :: e in o + c <==> e in open + closed
    ensures Inv(pr, o, c) && Points(o + c) == Points(open + closed)
  {
  }

  lemma SortedMembers(s: seq<Entry>)
    ensures forall e :: e in SortDesc(s, EntryF) <==> e in s
  {
    forall e ensures e in SortDesc(s, EntryF) <==> e in s {
      assert e in SortDesc(s, EntryF) <==> e in multiset(SortDesc(s, EntryF));
    }
  }

  /** The outcome of looking at the neighbours of one popped record. */
  datatype Outcome = Found(path: Result<seq<Point>, Failure>) | Continue(open: seq<Entry>, closed: seq<Entry>)

  /**
   * The `for` loop over the neighbours `ns` of the popped record `q`: the
   * target among them ends the search with the rebuilt path; every other
   * neighbour is relaxed in turn.
   */
  function Expand(pr: Problem, q: Entry, ns: seq<Point>, open: seq<Entry>, closed: seq<Entry>): (r: Outcome)
    requires pr.Valid() && Inv(pr, open, closed) && q in closed
    requires forall p :: p in ns ==> p in pr.nbrs(q.point)
    ensures r.Found? <==> pr.target in ns
    ensures r.Found? && r.path.Ok? ==> IsPath(pr, r.path.value)
    ensures r.Continue? ==> && Inv(pr, r.open, r.closed) && q in r.closed
                            && Points(open + closed) <= Points(r.open + r.closed)
                            && (forall e :: e in r.closed ==> e in closed)
                            && (forall p :: p in ns ==> p in Points(r.open + r.closed))
    decreases |ns|
  {
    if ns == [] then Continue(open, closed)
    else if ns[0] == pr.target then
      InvChainInv(pr, open, closed);
      Found(Rebuild(pr, q, closed))
    else
      RelaxInv(pr, open, closed, q, ns[0]);
      RelaxRecords(pr, open, closed, q, ns[0]);
      var (o, c) := Relax(open, closed, Candidate(pr, q, ns[0]));
      var r := Expand(pr, q, ns[1..], o, c);
      if r.Continue? then
        NeighboursCovered(ns, Points(o + c), Points(r.open + r.closed));
        r
      else
        r
  }

  lemma NeighboursCovered(ns: seq<Point>, before: set<Point>, after: set<Point>)
    requires ns != [] && ns[0] in before && before <= after
    requires forall p :: p in ns[1..] ==> p in after
    ensures forall p :: p in ns ==> p in after
  {
    forall p | p in ns ensures p in after {
      if p != ns[0] {
        assert p in ns[1..];
      }
    }
  }

  /** Relaxing neighbour `p` leaves it with a record and only ever removes closed records. */
  lemma RelaxRecords(pr: Problem, open: seq<Entry>, closed: seq<Entry>, q: Entry, p: Point)
    ensures var (o, c) := Relax(open, closed, Candidate(pr, q, p));
      && p in Points(o + c)
      && (forall e :: e in c ==> e in closed)
  {
    var n := Candidate(pr, q, p);
    var (o, c) := Relax(open, closed, n);
    match FindPoint(open, n.point)
    case Some(i) =>
      assert open[i] in open + closed;
      ReopenRecords(SwapRemove(open, i), closed, n);
    case None =>
      ReopenRecords(open, closed, n);
  }

  lemma ReopenRecords(open: seq<Entry>, closed: seq<Entry>, n: Entry)
    ensures var (o, c) := Reopen(open, closed, n);
      && (n.point in Points(o + c))
      && (forall e :: e in c ==> e in closed)
  {
    var (o, c) := Reopen(open, closed, n);
    match FindPoint(closed, n.point)
    case Some(j) =>
      if closed[j].f > n.f {
        assert n in o;
        forall e | e in c ensures e in closed {
          InSwapRemove(closed, j, e);
        }
      } else {
        assert closed[j] in o + c;
      }
    case None =>
      assert n in o;
  }

  /**
   * The `while open.len() > 0` loop, one round per unit of `fuel`. An empty
   * `open` list ends the search with the empty path.
   */
  function Run(pr: Problem, open: seq<Entry>, closed: seq<Entry>, fuel: nat): (r: Result<seq<Point>, Failure>)
    requires pr.Valid() && Inv(pr, open, closed)
    ensures r.Ok? && r.value != [] ==> IsPath(pr, r.value)
    ensures r == Ok([]) && Explored(pr, open, closed) && pr.start in Points(open + closed) ==> Unreachable(pr)
    decreases fuel
  {
    if open == [] then
      NothingOpenComplete(pr, closed);
      Ok([])
    else if fuel == 0 then Err(OutOfFuel)
    else
      match Round(pr, open, closed)
      case Found(res) => res
      case Continue(o, c) => Run(pr, o, c, fuel - 1)
  }

  /**
   * One round of the loop: sort `open` by descending f, pop its last record,
   * push it on `closed` and look at its neighbours. A round that does not find
   * the target leaves that record explored.
   */
  function Round(pr: Problem, open: seq<Entry>, closed: seq<Entry>): (r: Outcome)
    requires pr.Valid() && Inv(pr, open, closed) && open != []
    ensures r.Found? && r.path.Ok? ==> IsPath(pr, r.path.value)
    ensures r.Continue? ==> Inv(pr, r.open, r.closed) && Points(open + closed) <= Points(r.open + r.closed)
    ensures r.Continue? && Explored(pr, open, closed) ==> Explored(pr, r.open, r.closed)
  {
    var sorted := SortDesc(open, EntryF);
    var q := sorted[|sorted| - 1];
    var rest := sorted[..|sorted| - 1];
    PopInv(pr, open, closed);
    var r := Expand(pr, q, pr.nbrs(q.point), rest, closed + [q]);
    ExpandedRound(pr, open, closed, q, rest, r);
    r
  }

  /** What a round promises, from what popping `q` and expanding it give. */
  lemma ExpandedRound(pr: Problem, open: seq<Entry>, closed: seq<Entry>, q: Entry, rest: seq<Entry>, r: Outcome)
    requires pr.Valid() && Inv(pr, rest, closed + [q])
    requires Points(rest + (closed + [q])) == Points(open + closed)
    requires r == Expand(pr, q, pr.nbrs(q.point), rest, closed + [q])
    ensures r.Found? && r.path.Ok? ==> IsPath(pr, r.path.value)
    ensures r.Continue? ==> Inv(pr, r.open, r.closed) && Points(open + closed) <= Points(r.open + r.closed)
    ensures r.Continue? && Explored(pr, open, closed) ==> Explored(pr, r.open, r.closed)
  {
    if r.Continue? {
      ExploredAfterRound(pr, open, closed, q, r.open, r.closed);
    }
  }

  /** `Grid::astar(start, target)`: the search from the single start record. */
  function Search(pr: Problem, fuel: nat): (r: Result<seq<Point>, Failure>)
    requires pr.Valid()
    ensures r.Ok? && r.value != [] ==> IsPath(pr, r.value)
    ensures r == Ok([]) ==> Unreachable(pr)
  {
    var init := [Entry(pr.start, 0, 0, 0, None)];
    assert Points(init + []) == {pr.start};
    Run(pr, init, [], fuel)
  }

  /** A walk on the neighbour graph from the start point. */
  ghost predicate Walk(pr: Problem, w: seq<Point>)
  {
    && w != [] && w[0] == pr.start
    && forall k :: 0 <= k < |w| - 1 ==> w[k + 1] in pr.nbrs(w[k])
  }

  /** No walk from the start has the target as a neighbour of its last point. */
  ghost predicate Unreachable(pr: Problem)
  {
    forall w :: Walk(pr, w) ==> pr.target !in pr.nbrs(w[|w| - 1])
  }

  /** Every closed record has had its neighbours recorded, and none of them is the target. */
  ghost predicate Explored(pr: Problem, open: seq<Entry>, closed: seq<Entry>)
  {
    forall c :: c in closed ==>
      && pr.target !in pr.nbrs(c.point)
      && forall p :: p in pr.nbrs(c.point) ==> p in Points(open + closed)
  }

  lemma {:induction false} WalkStaysClosed(pr: Problem, closed: seq<Entry>, w: seq<Point>)
    requires Explored(pr, [], closed) && pr.start in Points([] + closed) && Walk(pr, w)
    ensures w[|w| - 1] in Points(closed)
    decreases |w|
  {
    assert [] + closed == closed;
    if |w| > 1 {
      var w' := w[..|w| - 1];
      assert Walk(pr, w');
      WalkStaysClosed(pr, closed, w');
      var c :| c in closed && c.point == w'[|w'| - 1];
      assert w[|w| - 1] in pr.nbrs(c.point);
    }
  }

  lemma ExploredAfterRound(pr: Problem, open: seq<Entry>, closed: seq<Entry>, q: Entry, o: seq<Entry>, c: seq<Entry>)
    requires DistinctPoints(c) && q in c && (forall e :: e in c ==> e in closed + [q])
    requires Points(open + closed) <= Points(o + c)
    requires pr.target !in pr.nbrs(q.point) && forall p :: p in pr.nbrs(q.point) ==> p in Points(o + c)
    ensures Explored(pr, open, closed) ==> Explored(pr, o, c)
  {
    if Explored(pr, open, closed) {
    forall e | e in c
      ensures pr.target !in pr.nbrs(e.point)
      ensures forall p :: p in pr.nbrs(e.point) ==> p in Points(o + c)
    {
      if e.point == q.point {
        UniqueByPoint(c, e, q);
      } else {
        assert e in closed;
      }
    }
    }
  }

  lemma NothingOpenComplete(pr: Problem, closed: seq<Entry>)
    ensures Explored(pr, [], closed) && pr.start in Points([] + closed) ==> Unreachable(pr)
  {
    if Explored(pr, [], closed) && pr.start in Points([] + closed) {
      forall w | Walk(pr, w) ensures pr.target !in pr.nbrs(w[|w| - 1]) {
        WalkStaysClosed(pr, closed, w);
        var c :| c in closed && c.point == w[|w| - 1];
      }
    }
  }


  lemma FinishStep(pr: Problem, path: seq<Point>, p: Point, rest: Result<seq<Point>, Failure>)
    ensures Finish(pr, path, match rest case Err(e) => Err(e) case Ok(ps) => Ok([p] + ps))
         == Finish(pr, path + [p], rest)
  {
    if rest.Ok? {
      assert path + ([p] + rest.value) == (path + [p]) + rest.value;
    }
  }

  /**
   * The `while let Some(parent_point)` loop of `Grid::astar` and the final
   * pop and reverse: follows parent links through `closed` from `q`.
   */
  method Reconstruct(pr: Problem, q: Entry, closed: seq<Entry>) returns (r: Result<seq<Point>, Failure>)
    requires ChainInv(pr, closed) && DistinctPoints(closed) && q in closed && pr.target in pr.nbrs(q.point)
    ensures r == Rebuild(pr, q, closed)
  {
    assert WellFormed(pr, q);
    forall c | c in closed && c.point == q.point ensures c.g < q.g + 1 {
      UniqueByPoint(closed, c, q);
    }
    var path := [pr.target];
    var parent := Some(q.point);
    ghost var bound: nat := q.g + 1;
    while parent.Some?
      invariant path != []
      invariant parent.Some? ==> forall c :: c in closed && c.point == parent.value ==> c.g < bound
      invariant Finish(pr, path, Chain(pr, closed, parent, bound)) == Rebuild(pr, q, closed)
      decreases bound
    {
      var i := FindPoint(closed, parent.value);
      if i.None? {
        return Err(MissingParent(parent.value));
      }
      var c := closed[i.value];
      assert c in closed && WellFormed(pr, c);
      FinishStep(pr, path, parent.value, Chain(pr, closed, c.parent, c.g));
      path := path + [c.point];
      parent := c.parent;
      bound := c.g;
    }
    assert path + [] == path;
    ghost var full := path;
    var last := path[|path| - 1];
    path := path[..|path| - 1];
    if last != pr.start {
      path := path + [last];
      assert path == full;
    }
    r := Ok(Reverse(path));
  }

  /**
   * The body of the `for neighbor_point` loop for a neighbour other than the
   * target: an open record with a smaller f makes it `continue`; otherwise the
   * open record is swap-removed and the closed list is checked.
   */
  method RelaxNeighbour(pr: Problem, q: Entry, p: Point, open: seq<Entry>, closed: seq<Entry>)
    returns (open': seq<Entry>, closed': seq<Entry>)
    ensures (open', closed') == Relax(open, closed, Candidate(pr, q, p))
  {
    var n := Candidate(pr, q, p);
    open', closed' := open, closed;
    var oi := FindPoint(open', p);
    if oi.Some? {
      if open'[oi.value].f < n.f {
        return;
      }
      open' := SwapRemove(open', oi.value);
    }
    var ci := FindPoint(closed', p);
    if ci.Some? {
      if closed'[ci.value].f > n.f {
        closed' := SwapRemove(closed', ci.value);
        open' := open' + [n];
      }
    } else {
      open' := open' + [n];
    }
  }

  /** The `for neighbor_point` loop over the neighbours of the popped record `q`. */
  method ExpandNeighbours(pr: Problem, q: Entry, open: seq<Entry>, closed: seq<Entry>) returns (out: Outcome)
    requires pr.Valid() && Inv(pr, open, closed) && q in closed
    ensures out == Expand(pr, q, pr.nbrs(q.point), open, closed)
  {
    var ns := pr.nbrs(q.point);
    var open', closed' := open, closed;
    for k := 0 to |ns|
      invariant Inv(pr, open', closed') && q in closed'
      invariant Expand(pr, q, ns, open, closed) == Expand(pr, q, ns[k..], open', closed')
    {
      var p := ns[k];
      if p == pr.target {
        InvChainInv(pr, open', closed');
        var path := Reconstruct(pr, q, closed');
        return Found(path);
      }
      RelaxInv(pr, open', closed', q, p);
      assert ns[k..][1..] == ns[k + 1..];
      open', closed' := RelaxNeighbour(pr, q, p, open', closed');
    }
    out := Continue(open', closed');
  }

  lemma StartInv(pr: Problem)
    ensures Inv(pr, [Entry(pr.start, 0, 0, 0, None)], [])
  {
  }

  /** One pass of the `while` loop: sort, pop, push on `closed`, expand. */
  method RunRound(pr: Problem, open: seq<Entry>, closed: seq<Entry>) returns (out: Outcome)
    requires pr.Valid() && Inv(pr, open, closed) && open != []
    ensures out == Round(pr, open, closed)
  {
    PopInv(pr, open, closed);
    var open' := SortDesc(open, EntryF);
    var q := open'[|open'| - 1];
    open' := open'[..|open'| - 1];
    var closed' := closed + [q];
    out := ExpandNeighbours(pr, q, open', closed');
  }

  /**
   * One unit of fuel runs one round: a round that meets the target ends the
   * run with the rebuilt path, one that goes on leaves the rest of the run to
   * do from its new lists.
   */
  lemma RunStep(pr: Problem, open: seq<Entry>, closed: seq<Entry>, rounds: nat)
    requires pr.Valid() && Inv(pr, open, closed) && open != [] && rounds > 0
    ensures Round(pr, open, closed).Found? ==> Run(pr, open, closed, rounds) == Round(pr, open, closed).path
    ensures Round(pr, open, closed).Continue? ==>
      Run(pr, open, closed, rounds) == Run(pr, Round(pr, open, closed).open, Round(pr, open, closed).closed, rounds - 1)
  {
  }

  /** The run depends on the fuel's value only. */
  lemma RunFuel(pr: Problem, open: seq<Entry>, closed: seq<Entry>, fuel: nat, fuel': nat)
    requires pr.Valid() && Inv(pr, open, closed) && fuel == fuel'
    ensures Run(pr, open, closed, fuel) == Run(pr, open, closed, fuel')
  {
  }

  /**
   * One pass of the `while` loop with fuel left: the round, then one unit of
   * fuel spent. Either the run ends with `path`, or what is left of it is the
   * run from the new lists with the fuel left.
   */
  method Pass(pr: Problem, open: seq<Entry>, closed: seq<Entry>, rounds: nat)
    returns (path: Option<Result<seq<Point>, Failure>>, open': seq<Entry>, closed': seq<Entry>, rounds': nat)
    requires pr.Valid() && Inv(pr, open, closed) && open != [] && rounds > 0
    ensures path.Some? ==> path.value == Run(pr, open, closed, rounds)
    ensures rounds' == rounds - 1
    ensures path.None? ==> Inv(pr, open', closed')
    ensures path.None? ==> Run(pr, open', closed', rounds') == Run(pr, open, closed, rounds)
  {
    RunStep(pr, open, closed, rounds);
    var out := RunRound(pr, open, closed);
    open', closed', rounds' := open, closed, rounds - 1;
    match out
    case Found(p) =>
      path := Some(p);
    case Continue(o, c) =>
      RunFuel(pr, o, c, rounds - 1, rounds');
      path := None;
      open', closed' := o, c;
  }

  /**
   * `Grid::astar`, round by round as the Rust code runs it, at most `fuel`
   * rounds. It computes `Search`, so what is proved of `Search` holds of it.
   */
  method FindPath(pr: Problem, fuel: nat) returns (r: Result<seq<Point>, Failure>)
    requires pr.Valid()
    ensures r == Search(pr, fuel)
  {
    var open := [Entry(pr.start, 0, 0, 0, None)];
    var closed: seq<Entry> := [];
    var rounds := fuel;
    StartInv(pr);
    while open != []
      invariant Inv(pr, open, closed)
      invariant Run(pr, open, closed, rounds) == Search(pr, fuel)
      decreases rounds
    {
      if rounds == 0 {
        return Err(OutOfFuel);
      }
      var path;
      path, open, closed, rounds := Pass(pr, open, closed, rounds);
      if path.Some? {
        return path.value;
      }
    }
    r := Ok([]);
  }
}
