/**
 * What the A* search of `Grid::astar` promises about cost: the path it returns
 * is a cheapest path to the target, provided every step of the neighbour graph
 * from the start moves by one unit. Step costs are at least 1, so the
 * Manhattan heuristic then never drops by more than the cost of a step, which
 * is what makes the first popped neighbour of the target the end of a
 * cheapest path.
 *
 * The argument is the usual one for A* with a consistent heuristic, stated on
 * the search state between rounds: along any walk from the start, the first
 * point whose record is not closed within the walk's cost has an open record
 * within that cost, so the record popped next is never dearer than the walk.
 */
module AStarCost {
  import opened Wrappers
  import opened VecOps
  import opened AStar

  /** The cost of stepping onto each point of `ps` in turn. */
  function PathCost(pr: Problem, ps: seq<Point>): int
  {
    if ps == [] then 0 else pr.cost(ps[0]) + PathCost(pr, ps[1..])
  }

  lemma {:induction false} PathCostConcat(pr: Problem, a: seq<Point>, b: seq<Point>)
    ensures PathCost(pr, a + b) == PathCost(pr, a) + PathCost(pr, b)
  {
    if a == [] {
      assert a + b == b;
    } else {
      assert (a + b)[0] == a[0] && (a + b)[1..] == a[1..] + b;
      PathCostConcat(pr, a[1..], b);
    }
  }

  lemma {:induction false} PathCostReverse(pr: Problem, s: seq<Point>)
    ensures PathCost(pr, Reverse(s)) == PathCost(pr, s)
  {
    if s != [] {
      PathCostReverse(pr, s[1..]);
      PathCostConcat(pr, Reverse(s[1..]), [s[0]]);
    }
  }

  lemma {:induction false} PathCostAtLeastLength(pr: Problem, s: seq<Point>)
    requires pr.Valid()
    ensures PathCost(pr, s) >= |s|
  {
    if s != [] {
      PathCostAtLeastLength(pr, s[1..]);
    }
  }

  /** The cost of a walk from the start: the start itself costs nothing. */
  function WalkCost(pr: Problem, w: seq<Point>): int
    requires w != []
  {
    PathCost(pr, w[1..])
  }

  lemma WalkCostSnoc(pr: Problem, w: seq<Point>, k: nat)
    requires 0 < k < |w|
    ensures WalkCost(pr, w[..k + 1]) == WalkCost(pr, w[..k]) + pr.cost(w[k])
  {
    assert w[..k + 1][1..] == w[..k][1..] + [w[k]];
    PathCostConcat(pr, w[..k][1..], [w[k]]);
  }

  /** No path to the target is cheaper than `path`. */
  ghost predicate Cheapest(pr: Problem, path: seq<Point>)
  {
    forall w :: IsPath(pr, w) ==> PathCost(pr, path) <= PathCost(pr, w)
  }

  /**
   * A region holding the start, closed under the neighbour relation, in which
   * every step moves by exactly one unit. On such steps the Manhattan distance
   * to the target never falls by more than the cost of the step.
   */
  ghost predicate Confined(pr: Problem, inside: Point -> bool)
  {
    && inside(pr.start)
    && forall u, v :: inside(u) && v in pr.nbrs(u) ==> inside(v) && Manhattan(u, v) == 1
  }

  /** Some record of `s` is at `p` with a g of at most `bound`. */
  ghost predicate HasRecord(s: seq<Entry>, p: Point, bound: int)
  {
    exists e :: e in s && e.point == p && e.g <= bound
  }

  /** Every point recorded in `s` is recorded in `t` with a g that is not larger. */
  ghost predicate Improves(s: seq<Entry>, t: seq<Entry>)
  {
    forall p, b :: HasRecord(s, p, b) ==> HasRecord(t, p, b)
  }

  /**
   * The cost part of the search state between rounds: the start keeps its
   * record with g = 0; each neighbour of a closed record has a record within
   * the closed g plus the step; and no closed record has the target as a
   * neighbour (the search would have ended).
   */
  ghost predicate Settled(pr: Problem, open: seq<Entry>, closed: seq<Entry>)
  {
    && HasRecord(open + closed, pr.start, 0)
    && (forall c, p :: c in closed && p in pr.nbrs(c.point) ==> HasRecord(open + closed, p, c.g + pr.cost(p)))
    && (forall c :: c in closed ==> pr.target !in pr.nbrs(c.point))
  }

  lemma AbsBound(a: int, b: int)
    ensures Abs(a) <= Abs(b) + Abs(a - b)
  {
  }

  /** The Manhattan distance obeys the triangle inequality. */
  lemma ManhattanTriangle(t: Point, u: Point, v: Point)
    ensures Manhattan(t, u) <= Manhattan(t, v) + Manhattan(u, v)
  {
    AbsBound(t.x - u.x, t.x - v.x);
    AbsBound(t.y - u.y, t.y - v.y);
    assert (t.x - u.x) - (t.x - v.x) == -(u.x - v.x);
    assert (t.y - u.y) - (t.y - v.y) == -(u.y - v.y);
  }

  lemma ManhattanSymmetric(a: Point, b: Point)
    ensures Manhattan(a, b) == Manhattan(b, a)
  {
  }

  /** Every point of a walk from the start lies in a confining region. */
  lemma {:induction false} WalkInside(pr: Problem, inside: Point -> bool, w: seq<Point>, k: nat)
    requires Confined(pr, inside) && Walk(pr, w) && k < |w|
    ensures inside(w[k])
  {
    if k > 0 {
      WalkInside(pr, inside, w, k - 1);
      assert w[k - 1 + 1] in pr.nbrs(w[k - 1]);
    }
  }

  /**
   * Along a walk in a confining region, cost so far plus distance left never
   * decreases: each step costs at least 1 and changes the distance by 1.
   */
  lemma {:induction false} Consistent(pr: Problem, inside: Point -> bool, w: seq<Point>, i: nat, k: nat)
    requires pr.Valid() && Confined(pr, inside) && Walk(pr, w) && i <= k < |w|
    ensures WalkCost(pr, w[..i + 1]) + Manhattan(pr.target, w[i]) <= WalkCost(pr, w[..k + 1]) + Manhattan(pr.target, w[k])
    decreases k
  {
    if i < k {
      Consistent(pr, inside, w, i, k - 1);
      WalkCostSnoc(pr, w, k);
      WalkInside(pr, inside, w, k - 1);
      assert w[k - 1 + 1] in pr.nbrs(w[k - 1]);
      ManhattanTriangle(pr.target, w[k - 1], w[k]);
    }
  }

  /** Every recorded point lies in a confining region: records are the start or neighbours of recorded points. */
  lemma {:induction false} RecordInside(pr: Problem, inside: Point -> bool, open: seq<Entry>, closed: seq<Entry>, e: Entry)
    requires pr.Valid() && Inv(pr, open, closed) && Confined(pr, inside) && e in open + closed
    ensures inside(e.point)
    decreases e.g
  {
    assert WellFormed(pr, e);
    if e.parent.Some? {
      var c :| c in open + closed && c.point == e.parent.value;
      assert WellFormed(pr, c);
      RecordInside(pr, inside, open, closed, c);
      ConfinedStep(pr, inside, c.point, e.point);
    } else {
      assert e.point == pr.start;
    }
  }

  lemma ConfinedStep(pr: Problem, inside: Point -> bool, u: Point, v: Point)
    requires Confined(pr, inside) && inside(u) && v in pr.nbrs(u)
    ensures inside(v) && Manhattan(u, v) == 1
  {
  }

  /** A record's f against the candidate's for the same point: f orders them as g does. */
  lemma CompareF(pr: Problem, e: Entry, q: Entry, p: Point)
    requires pr.Valid() && WellFormed(pr, e) && WellFormed(pr, q) && e.point == p
    ensures e.f <= Candidate(pr, q, p).f ==> e.g <= Candidate(pr, q, p).g
    ensures e.f >= Candidate(pr, q, p).f ==> e.g >= Candidate(pr, q, p).g
  {
  }

  /** The update either records the candidate or changes nothing. */
  lemma RelaxAddsOrKeeps(pr: Problem, open: seq<Entry>, closed: seq<Entry>, n: Entry)
    requires Inv(pr, open, closed)
    ensures var (o, c) := Relax(open, closed, n);
      n in o || (o == open && c == closed)
  {
    match FindPoint(open, n.point)
    case Some(i) =>
      if open[i].f >= n.f {
        assert FindPoint(closed, n.point).None?;
      }
    case None =>
  }

  /**
   * Relaxing a neighbour `p` of the closed record `q` never loses a record nor
   * raises a g, and leaves `p` with a record within `q.g` plus the step.
   */
  lemma RelaxImproves(pr: Problem, open: seq<Entry>, closed: seq<Entry>, q: Entry, p: Point)
    requires pr.Valid() && Inv(pr, open, closed) && q in closed && p in pr.nbrs(q.point)
    ensures var (o, c) := Relax(open, closed, Candidate(pr, q, p));
      Improves(open + closed, o + c) && HasRecord(o + c, p, q.g + pr.cost(p))
  {
    var n := Candidate(pr, q, p);
    var (o, c) := Relax(open, closed, n);
    assert WellFormed(pr, q);
    RelaxRule(pr, open, closed, n);
    RelaxAddsOrKeeps(pr, open, closed, n);
    if n in o {
      forall x, b | HasRecord(open + closed, x, b) ensures HasRecord(o + c, x, b) {
        var e :| e in open + closed && e.point == x && e.g <= b;
        assert WellFormed(pr, e);
        if x == p {
          CompareF(pr, e, q, p);
          assert n in o + c;
        } else {
          assert e in o + c;
        }
      }
      assert n in o + c;
    } else {
      var e :| (e in open && e.point == p && e.f < n.f) || (e in closed && e.point == p && e.f <= n.f);
      assert WellFormed(pr, e);
      CompareF(pr, e, q, p);
      assert e in o + c;
    }
  }

  lemma ImprovesTrans(s: seq<Entry>, t: seq<Entry>, u: seq<Entry>)
    requires Improves(s, t) && Improves(t, u)
    ensures Improves(s, u)
  {
  }

  /** Each closed child's g is at least its closed parent's g plus the step onto the child. */
  ghost predicate CostLinked(pr: Problem, closed: seq<Entry>)
  {
    forall e, c :: e in closed && c in closed && e.parent == Some(c.point) ==> c.g + pr.cost(e.point) <= e.g
  }

  lemma InvCostLinked(pr: Problem, open: seq<Entry>, closed: seq<Entry>)
    requires Inv(pr, open, closed)
    ensures CostLinked(pr, closed)
  {
    assert forall e :: e in closed ==> e in open + closed;
  }

  /** The cost of the walk back from a closed record, without the start, is at most its g. */
  lemma {:induction false} ChainCost(pr: Problem, closed: seq<Entry>, c: Entry, bound: nat)
    requires ChainInv(pr, closed) && CostLinked(pr, closed) && DistinctPoints(closed)
    requires c in closed && c.g < bound
    requires forall d :: d in closed && d.point == c.point ==> d.g < bound
    requires Chain(pr, closed, Some(c.point), bound).Ok?
    ensures var ps := Chain(pr, closed, Some(c.point), bound).value;
      ps != [] && PathCost(pr, ps[..|ps| - 1]) <= c.g
    decreases bound
  {
    var i := FindPoint(closed, c.point).value;
    UniqueByPoint(closed, closed[i], c);
    assert WellFormed(pr, c);
    var ps := Chain(pr, closed, Some(c.point), bound).value;
    var rest := Chain(pr, closed, c.parent, c.g).value;
    assert ps == [c.point] + rest;
    if c.parent.Some? {
      var k := FindPoint(closed, c.parent.value).value;
      var d := closed[k];
      ChainParent(pr, closed, c, d);
      ChainCost(pr, closed, d, c.g);
      assert ps[..|ps| - 1] == [c.point] + rest[..|rest| - 1];
      PathCostConcat(pr, [c.point], rest[..|rest| - 1]);
    } else {
      assert ps[..|ps| - 1] == [];
    }
  }

  /** The closed record of a closed record's parent: its g, and that of any record at its point, is below the child's. */
  lemma ChainParent(pr: Problem, closed: seq<Entry>, c: Entry, d: Entry)
    requires ChainInv(pr, closed) && CostLinked(pr, closed) && DistinctPoints(closed)
    requires c in closed && d in closed && c.parent == Some(d.point)
    ensures d.g + pr.cost(c.point) <= c.g && d.g < c.g
    ensures forall d' :: d' in closed && d'.point == d.point ==> d'.g < c.g
  {
  }

  lemma DropLast(t: Point, ps: seq<Point>)
    requires ps != []
    ensures ([t] + ps)[..|[t] + ps| - 1] == [t] + ps[..|ps| - 1]
  {
  }

  /** The path rebuilt from the closed record `q` costs at most `q.g` plus the step onto the target. */
  lemma RebuildCost(pr: Problem, open: seq<Entry>, closed: seq<Entry>, q: Entry)
    requires pr.Valid() && Inv(pr, open, closed) && q in closed && pr.target in pr.nbrs(q.point)
    requires ChainInv(pr, closed) && DistinctPoints(closed)
    ensures Rebuild(pr, q, closed).Ok? ==> PathCost(pr, Rebuild(pr, q, closed).value) <= q.g + pr.cost(pr.target)
  {
    InvChainInv(pr, open, closed);
    assert WellFormed(pr, q);
    forall d | d in closed && d.point == q.point ensures d.g < q.g + 1 {
      UniqueByPoint(closed, d, q);
    }
    var res := Chain(pr, closed, Some(q.point), q.g + 1);
    if res.Ok? {
      InvCostLinked(pr, open, closed);
      ChainCost(pr, closed, q, q.g + 1);
      var ps := res.value;
      var s := [pr.target] + ps;
      var kept := s[..|s| - 1];
      assert s[|s| - 1] == pr.start;
      DropLast(pr.target, ps);
      assert Rebuild(pr, q, closed).value == Reverse(kept);
      PathCostReverse(pr, kept);
      PathCostConcat(pr, [pr.target], ps[..|ps| - 1]);
    }
  }

  /**
   * The neighbour loop on the popped record `q`: when it goes on, no record is
   * lost or raised and each looked-at neighbour has a record within `q.g` plus
   * the step; when it meets the target, the path costs at most `q.g` plus the
   * step onto the target.
   */
  lemma {:induction false} ExpandCost(pr: Problem, q: Entry, ns: seq<Point>, open: seq<Entry>, closed: seq<Entry>)
    requires pr.Valid() && Inv(pr, open, closed) && q in closed
    requires forall p :: p in ns ==> p in pr.nbrs(q.point)
    ensures var r := Expand(pr, q, ns, open, closed);
      && (r.Continue? ==> Improves(open + closed, r.open + r.closed)
                          && forall p :: p in ns ==> HasRecord(r.open + r.closed, p, q.g + pr.cost(p)))
      && (r.Found? && r.path.Ok? ==> PathCost(pr, r.path.value) <= q.g + pr.cost(pr.target))
    decreases |ns|
  {
    if ns == [] {
    } else if ns[0] == pr.target {
      InvChainInv(pr, open, closed);
      RebuildCost(pr, open, closed, q);
    } else {
      RelaxInv(pr, open, closed, q, ns[0]);
      RelaxImproves(pr, open, closed, q, ns[0]);
      var (o, c) := Relax(open, closed, Candidate(pr, q, ns[0]));
      ExpandCost(pr, q, ns[1..], o, c);
      var r := Expand(pr, q, ns[1..], o, c);
      assert Expand(pr, q, ns, open, closed) == r;
      if r.Continue? {
        ImprovesTrans(open + closed, o + c, r.open + r.closed);
        forall p | p in ns ensures HasRecord(r.open + r.closed, p, q.g + pr.cost(p)) {
          if p !in ns[1..] {
            assert p == ns[0];
          }
        }
      }
    }
  }

  /**
   * Along any walk from the start, some point has an open record within the
   * cost of the walk up to it, or the walk's last point has a closed record
   * within the walk's cost. The result names that point's index, `|w|` for the
   * second case.
   */
  lemma {:induction false} Frontier(pr: Problem, open: seq<Entry>, closed: seq<Entry>, w: seq<Point>) returns (i: nat)
    requires Settled(pr, open, closed) && Walk(pr, w)
    ensures i < |w| ==> HasRecord(open, w[i], WalkCost(pr, w[..i + 1]))
    ensures i >= |w| ==> HasRecord(closed, w[|w| - 1], WalkCost(pr, w))
  {
    if |w| == 1 {
      var e :| e in open + closed && e.point == pr.start && e.g <= 0;
      assert w[..1] == w;
      i := if e in open then 0 else 1;
    } else {
      var w' := w[..|w| - 1];
      assert Walk(pr, w');
      var j := Frontier(pr, open, closed, w');
      if j < |w'| {
        assert w'[j] == w[j] && w'[..j + 1] == w[..j + 1];
        i := j;
      } else {
        var c :| c in closed && c.point == w[|w| - 2] && c.g <= WalkCost(pr, w');
        var last := w[|w| - 1];
        assert last in pr.nbrs(c.point) by {
          assert w[|w| - 2 + 1] in pr.nbrs(w[|w| - 2]);
        }
        assert HasRecord(open + closed, last, c.g + pr.cost(last));
        var e :| e in open + closed && e.point == last && e.g <= c.g + pr.cost(last);
        WalkCostSnoc(pr, w, |w| - 1);
        assert w[..|w|] == w;
        i := if e in open then |w| - 1 else |w|;
      }
    }
  }

  /**
   * Along a walk from the start that ends next to the target, some point has
   * an open record within the cost of the walk up to it: a closed record at
   * the end would have the target as a neighbour.
   */
  lemma FrontierOpen(pr: Problem, open: seq<Entry>, closed: seq<Entry>, w: seq<Point>) returns (i: nat, e: Entry)
    requires Settled(pr, open, closed) && Walk(pr, w) && pr.target in pr.nbrs(w[|w| - 1])
    ensures i < |w| && e in open && e.point == w[i] && e.g <= WalkCost(pr, w[..i + 1])
  {
    i := Frontier(pr, open, closed, w);
    if i >= |w| {
      assert false;
    }
    e :| e in open && e.point == w[i] && e.g <= WalkCost(pr, w[..i + 1]);
  }

  /** The arithmetic of the last step: the popped record and the walk's end are both one step from the target. */
  lemma CheapestArith(qg: int, qh: int, qf: int, eg: int, eh: int, ef: int, pre: int, total: int)
    requires qf == qg + qh && qh == 1 && ef == eg + eh && eg <= pre && pre + eh <= total + 1 && qf <= ef
    ensures qg <= total
  {
  }

  /**
   * The bound itself: a popped record `q` next to the target, with an f no
   * larger than that of an open record `e` met on the walk within its cost, is
   * no dearer than the walk.
   */
  lemma CheapestCore(pr: Problem, inside: Point -> bool, q: Entry, e: Entry, w: seq<Point>, i: nat)
    requires pr.Valid() && Confined(pr, inside) && Walk(pr, w) && pr.target in pr.nbrs(w[|w| - 1])
    requires WellFormed(pr, q) && WellFormed(pr, e) && inside(q.point) && pr.target in pr.nbrs(q.point)
    requires i < |w| && e.point == w[i] && e.g <= WalkCost(pr, w[..i + 1]) && q.f <= e.f
    ensures q.g <= WalkCost(pr, w)
  {
    PathCostAtLeastLength(pr, w[1..]);
    if q.parent.Some? && e.parent.Some? {
      WalkInside(pr, inside, w, |w| - 1);
      ManhattanSymmetric(pr.target, q.point);
      ManhattanSymmetric(pr.target, w[|w| - 1]);
      Consistent(pr, inside, w, i, |w| - 1);
      assert w[..|w|] == w;
      CheapestArith(q.g, q.h, q.f, e.g, e.h, e.f, WalkCost(pr, w[..i + 1]), WalkCost(pr, w));
    }
  }

  /**
   * The record `q` popped with the least f, whose neighbour is the target, is
   * no dearer than any walk from the start that ends next to the target.
   */
  lemma PopIsCheapest(pr: Problem, inside: Point -> bool, open: seq<Entry>, closed: seq<Entry>, q: Entry, w: seq<Point>)
    requires pr.Valid() && Inv(pr, open, closed) && Settled(pr, open, closed) && Confined(pr, inside)
    requires q in open && (forall e :: e in open ==> q.f <= e.f) && pr.target in pr.nbrs(q.point)
    requires Walk(pr, w) && pr.target in pr.nbrs(w[|w| - 1])
    ensures q.g <= WalkCost(pr, w)
  {
    var i, e := FrontierOpen(pr, open, closed, w);
    assert q in open + closed && e in open + closed;
    RecordInside(pr, inside, open, closed, q);
    CheapestCore(pr, inside, q, e, w, i);
  }

  /** The record a round pops has the least f of the open list. */
  lemma PopLeast(open: seq<Entry>)
    requires open != []
    ensures var sorted := SortDesc(open, EntryF);
      sorted[|sorted| - 1] in open && forall e :: e in open ==> sorted[|sorted| - 1].f <= e.f
  {
    var sorted := SortDesc(open, EntryF);
    var n := |sorted|;
    assert sorted[n - 1] in open;
    assert SortedDesc(sorted, EntryF);
    forall e | e in open ensures sorted[n - 1].f <= e.f {
      assert e in multiset(sorted);
      var k :| 0 <= k < n && sorted[k] == e;
      if k < n - 1 {
        assert EntryF(sorted[k]) >= EntryF(sorted[n - 1]);
      }
    }
  }

  /** A path as the search returns it costs its last step plus the walk from the start up to the point before. */
  lemma PathAsWalk(pr: Problem, w: seq<Point>)
    requires IsPath(pr, w)
    ensures Walk(pr, [pr.start] + w[..|w| - 1])
    ensures pr.target in pr.nbrs(([pr.start] + w[..|w| - 1])[|w| - 1])
    ensures PathCost(pr, w) == WalkCost(pr, [pr.start] + w[..|w| - 1]) + pr.cost(pr.target)
  {
    var v := [pr.start] + w[..|w| - 1];
    forall k | 0 <= k < |v| - 1 ensures v[k + 1] in pr.nbrs(v[k]) {
      if k > 0 {
        assert v[k] == w[k - 1] && v[k + 1] == w[k];
      }
    }
    PathEnd(pr, w);
    assert v[1..] == w[..|w| - 1];
    assert w == w[..|w| - 1] + [pr.target];
    PathCostConcat(pr, w[..|w| - 1], [pr.target]);
  }

  /** One round: a path it finds is a cheapest one, and a round that goes on keeps the state settled. */
  lemma RoundCost(pr: Problem, inside: Point -> bool, open: seq<Entry>, closed: seq<Entry>)
    requires pr.Valid() && Inv(pr, open, closed) && open != [] && Settled(pr, open, closed) && Confined(pr, inside)
    ensures var r := Round(pr, open, closed);
      && (r.Found? && r.path.Ok? ==> Cheapest(pr, r.path.value))
      && (r.Continue? ==> Settled(pr, r.open, r.closed))
  {
    var sorted := SortDesc(open, EntryF);
    var q := sorted[|sorted| - 1];
    var rest := sorted[..|sorted| - 1];
    PopInv(pr, open, closed);
    PopLeast(open);
    assert Round(pr, open, closed) == Expand(pr, q, pr.nbrs(q.point), rest, closed + [q]);
    PoppedFound(pr, inside, open, closed, q, rest);
    PoppedGoesOn(pr, open, closed, q, rest);
  }

  /** A path found while expanding the open record of least f is a cheapest one. */
  lemma PoppedFound(pr: Problem, inside: Point -> bool, open: seq<Entry>, closed: seq<Entry>, q: Entry, rest: seq<Entry>)
    requires pr.Valid() && Inv(pr, open, closed) && Settled(pr, open, closed) && Confined(pr, inside)
    requires q in open && (forall e :: e in open ==> q.f <= e.f)
    requires Inv(pr, rest, closed + [q])
    ensures var r := Expand(pr, q, pr.nbrs(q.point), rest, closed + [q]);
      r.Found? && r.path.Ok? ==> Cheapest(pr, r.path.value)
  {
    var r := Expand(pr, q, pr.nbrs(q.point), rest, closed + [q]);
    if r.Found? && r.path.Ok? {
      ExpandCost(pr, q, pr.nbrs(q.point), rest, closed + [q]);
      forall w | IsPath(pr, w) ensures PathCost(pr, r.path.value) <= PathCost(pr, w) {
        PathAsWalk(pr, w);
        PopIsCheapest(pr, inside, open, closed, q, [pr.start] + w[..|w| - 1]);
      }
    }
  }

  /** Expanding the popped record either ends the search or leaves the state settled. */
  lemma PoppedGoesOn(pr: Problem, open: seq<Entry>, closed: seq<Entry>, q: Entry, rest: seq<Entry>)
    requires pr.Valid() && Settled(pr, open, closed) && q in open
    requires Inv(pr, rest, closed + [q])
    requires forall e :: e in rest + (closed + [q]) <==> e in open + closed
    ensures var r := Expand(pr, q, pr.nbrs(q.point), rest, closed + [q]);
      r.Continue? ==> Settled(pr, r.open, r.closed)
  {
    var ns := pr.nbrs(q.point);
    var r := Expand(pr, q, ns, rest, closed + [q]);
    if r.Continue? {
      ExpandCost(pr, q, ns, rest, closed + [q]);
      SameRecordsImprove(open + closed, rest + (closed + [q]));
      ImprovesTrans(open + closed, rest + (closed + [q]), r.open + r.closed);
      SettledAfter(pr, open, closed, q, r.open, r.closed);
    }
  }

  lemma SameRecordsImprove(s: seq<Entry>, t: seq<Entry>)
    requires forall e :: e in t <==> e in s
    ensures Improves(s, t)
  {
  }

  /** The state after expanding `q` is settled when it improves on a settled one and covers `q`'s neighbours. */
  lemma SettledAfter(pr: Problem, open: seq<Entry>, closed: seq<Entry>, q: Entry, o: seq<Entry>, c: seq<Entry>)
    requires Settled(pr, open, closed) && Improves(open + closed, o + c)
    requires forall e :: e in c ==> e in closed + [q]
    requires forall p :: p in pr.nbrs(q.point) ==> HasRecord(o + c, p, q.g + pr.cost(p))
    requires pr.target !in pr.nbrs(q.point)
    ensures Settled(pr, o, c)
  {
    forall d, p | d in c && p in pr.nbrs(d.point) ensures HasRecord(o + c, p, d.g + pr.cost(p)) {
      if d != q {
        assert d in closed;
      }
    }
    forall d | d in c ensures pr.target !in pr.nbrs(d.point) {
      if d != q {
        assert d in closed;
      }
    }
  }

  /** With nothing open, no path reaches the target: its last step would leave a closed record. */
  lemma NothingOpenNoPath(pr: Problem, closed: seq<Entry>)
    requires Settled(pr, [], closed)
    ensures forall w :: !IsPath(pr, w)
  {
    forall w | IsPath(pr, w) ensures false {
      PathAsWalk(pr, w);
      var v := [pr.start] + w[..|w| - 1];
      var i := Frontier(pr, [], closed, v);
    }
  }

  /** The rounds of the loop: a path the run returns is a cheapest one. */
  lemma {:induction false} RunCost(pr: Problem, inside: Point -> bool, open: seq<Entry>, closed: seq<Entry>, fuel: nat)
    requires pr.Valid() && Inv(pr, open, closed) && Settled(pr, open, closed) && Confined(pr, inside)
    ensures Run(pr, open, closed, fuel).Ok? ==> Cheapest(pr, Run(pr, open, closed, fuel).value)
    decreases fuel
  {
    if open == [] {
      NothingOpenNoPath(pr, closed);
      RunEmpty(pr, open, closed, fuel);
    } else if fuel > 0 {
      RoundCost(pr, inside, open, closed);
      RunStep(pr, open, closed, fuel);
      var r := Round(pr, open, closed);
      if r.Continue? {
        var left: nat := fuel - 1;
        RunCost(pr, inside, r.open, r.closed, left);
        RunFuel(pr, r.open, r.closed, fuel - 1, left);
      }
    }
  }

  /** With nothing open the run ends with the empty path, which is cheapest when no path exists. */
  lemma RunEmpty(pr: Problem, open: seq<Entry>, closed: seq<Entry>, fuel: nat)
    requires pr.Valid() && Inv(pr, open, closed) && open == [] && forall w :: !IsPath(pr, w)
    ensures Run(pr, open, closed, fuel).Ok? ==> Cheapest(pr, Run(pr, open, closed, fuel).value)
  {
  }

  /**
   * `Grid::astar` returns a cheapest path whenever every step reachable from
   * the start moves by one unit: no path from the start to the target costs
   * less than the one returned.
   */
  lemma SearchCheapest(pr: Problem, inside: Point -> bool, fuel: nat)
    requires pr.Valid() && Confined(pr, inside)
    ensures Search(pr, fuel).Ok? ==> Cheapest(pr, Search(pr, fuel).value)
  {
    var init := [Entry(pr.start, 0, 0, 0, None)];
    StartInv(pr);
    assert init[0] in init + [];
    RunCost(pr, inside, init, [], fuel);
  }
}
