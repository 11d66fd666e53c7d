/**
 * The graph both death-first-search bots keep (src/bin/death-first-search-episode-1.rs
 * and src/bin/death-first-search-episode-2.rs declare the same `Node` and
 * `Game`): nodes by id, each with its list of links, some of them exit
 * gateways. The agent walks the links; the bot cuts one link a turn.
 */
module Network {
  import opened Wrappers
  import opened VecOps

  /** A node: its id, its links (with repetitions, in insertion order) and whether it is a gateway. */
  datatype Node = Node(id: int, links: seq<int>, isExit: bool)

  /** `Node::add_link`. */
  function AddLinkTo(n: Node, l: int): (r: Node)
    ensures r.id == n.id && r.isExit == n.isExit
    ensures multiset(r.links) == multiset(n.links) + multiset{l}
  {
    n.(links := n.links + [l])
  }

  /** `Node::remove_link`: the first occurrence is swap-removed; nothing happens when there is none. */
  function RemoveLinkFrom(n: Node, l: int): (r: Node)
    ensures r.id == n.id && r.isExit == n.isExit
    ensures l !in n.links ==> r == n
  {
    match IndexOf(n.links, l)
    case None => n
    case Some(i) => n.(links := SwapRemove(n.links, i))
  }

  /** `remove_link` takes away exactly one link to `l` when there is one. */
  lemma RemovedOnce(n: Node, l: int)
    ensures multiset(RemoveLinkFrom(n, l).links) == multiset(n.links) - multiset{l}
  {
  }

  /** Removing a link just added gives back the same links, up to order. */
  lemma AddThenRemove(n: Node, l: int)
    ensures multiset(RemoveLinkFrom(AddLinkTo(n, l), l).links) == multiset(n.links)
  {
    RemovedOnce(AddLinkTo(n, l), l);
  }

  /** Every node is stored under its own id. */
  ghost predicate Keyed(grid: map<int, Node>)
  {
    forall k :: k in grid ==> grid[k].id == k
  }

  /** The number of links from `a` to `b`. */
  function LinkCount(grid: map<int, Node>, a: int, b: int): nat
  {
    if a in grid then multiset(grid[a].links)[b] else 0
  }

  /** The nodes `get_linked_nodes(n)` returns: those behind the links of `n` that exist, in link order. */
  function LinkedNodes(grid: map<int, Node>, links: seq<int>): (r: seq<Node>)
    ensures |r| <= |links|
    ensures forall m :: m in r <==> exists l :: l in links && l in grid && grid[l] == m
  {
    if links == [] then []
    else
      var init := links[..|links| - 1];
      var l := links[|links| - 1];
      assert forall x :: x in links <==> x in init || x == l;
      LinkedNodes(grid, init) + (if l in grid then [grid[l]] else [])
  }

  /** A walk along links from `w[0]`, through existing nodes. */
  ghost predicate Walk(grid: map<int, Node>, w: seq<int>)
  {
    && w != []
    && (forall i :: 0 <= i < |w| ==> w[i] in grid)
    && (forall i :: 0 <= i < |w| - 1 ==> w[i + 1] in grid[w[i]].links)
  }

  /** Node `b` can be reached from `a`. */
  ghost predicate Reachable(grid: map<int, Node>, a: int, b: int)
  {
    exists w :: Walk(grid, w) && w[0] == a && w[|w| - 1] == b
  }

  /** A set of nodes that contains every existing node linked from one of its members. */
  ghost predicate Closed(grid: map<int, Node>, s: set<int>)
  {
    Covered(grid, s, s)
  }

  /** Every existing node linked from a node of `from` is in `into`. */
  ghost predicate Covered(grid: map<int, Node>, from: set<int>, into: set<int>)
  {
    forall k, l :: k in from && k in grid && l in grid[k].links && l in grid ==> l in into
  }

  /** A closed set holding the start of a walk holds all of it. */
  lemma {:induction false} WalkStaysInside(grid: map<int, Node>, s: set<int>, w: seq<int>)
    requires Walk(grid, w) && w[0] in s && Closed(grid, s)
    ensures forall i :: 0 <= i < |w| ==> w[i] in s
    decreases |w|
  {
    if |w| > 1 {
      var init := w[..|w| - 1];
      assert Walk(grid, init);
      WalkStaysInside(grid, s, init);
      assert w[|w| - 2] == init[|init| - 1];
      forall i | 0 <= i < |w|
        ensures w[i] in s
      {
        if i < |init| {
          assert w[i] == init[i];
        } else {
          var k, l := w[i - 1], w[i];
          assert k in s && k in grid && l in grid[k].links && l in grid;
        }
      }
    }
  }

  /** Appending a link to a walk. */
  lemma WalkExtend(grid: map<int, Node>, w: seq<int>, l: int)
    requires Walk(grid, w) && l in grid && l in grid[w[|w| - 1]].links
    ensures Walk(grid, w + [l]) && (w + [l])[0] == w[0]
  {
  }

  /** The bot's `Game`: the graph and the gateway list. */
  class Graph {
    var grid: map<int, Node>
    var exits: seq<int>

    ghost predicate Valid()
      reads this
    {
      Keyed(grid)
    }

    /** `Game::default()`. */
    constructor ()
      ensures Valid() && grid == map[] && exits == []
    {
      grid := map[];
      exits := [];
    }

    /** `Game::create_empty_nodes(n)`: nodes `0 .. n - 1` with no links, replacing any node of the same id. */
    method CreateEmptyNodes(n: int)
      requires Valid()
      modifies this
      ensures Valid() && exits == old(exits)
      ensures forall k :: k in grid <==> k in old(grid) || 0 <= k < n
      ensures forall k :: 0 <= k < n ==> grid[k] == Node(k, [], false)
      ensures forall k :: k in old(grid) && !(0 <= k < n) ==> grid[k] == old(grid)[k]
    {
      var count := if n < 0 then 0 else n;
      for i := 0 to count
        invariant Valid() && exits == old(exits)
        invariant forall k :: k in grid <==> k in old(grid) || 0 <= k < i
        invariant forall k :: 0 <= k < i ==> grid[k] == Node(k, [], false)
        invariant forall k :: k in old(grid) && !(0 <= k < i) ==> grid[k] == old(grid)[k]
      {
        grid := grid[i := Node(i, [], false)];
      }
    }

    /** `Game::add_link(a, b)`: each end gets the other appended; both must exist. */
    method AddLink(a: int, b: int)
      requires Valid() && a in grid && b in grid
      modifies this
      ensures Valid() && exits == old(exits) && grid.Keys == old(grid).Keys
      ensures grid == Linked(old(grid), a, b)
    {
      grid := grid[a := AddLinkTo(grid[a], b)];
      grid := grid[b := AddLinkTo(grid[b], a)];
    }

    /** `Game::remove_link(a, b)`: one occurrence removed on each side; both must exist. */
    method RemoveLink(a: int, b: int)
      requires Valid() && a in grid && b in grid
      modifies this
      ensures Valid() && exits == old(exits) && grid.Keys == old(grid).Keys
      ensures grid == Unlinked(old(grid), a, b)
    {
      ghost var before := grid;
      grid := grid[a := RemoveLinkFrom(grid[a], b)];
      grid := grid[b := RemoveLinkFrom(grid[b], a)];
      UnlinkedKeeps(before, a, b);
    }

    /** `Game::add_exit(n)`: always listed, flagged only when the node exists. */
    method AddExit(n: int)
      requires Valid()
      modifies this
      ensures Valid() && exits == old(exits) + [n] && grid.Keys == old(grid).Keys
      ensures forall k :: k in grid ==> grid[k] == if k == n then old(grid)[k].(isExit := true) else old(grid)[k]
    {
      exits := exits + [n];
      if n in grid {
        grid := grid[n := grid[n].(isExit := true)];
      }
    }

    /** `Game::get_linked_nodes(n)`: empty for an unknown node. */
    method GetLinkedNodes(n: int) returns (r: seq<Node>)
      ensures r == if n in grid then LinkedNodes(grid, grid[n].links) else []
    {
      r := [];
      if n in grid {
        var links := grid[n].links;
        for i := 0 to |links|
          invariant r == LinkedNodes(grid, links[..i])
        {
          assert links[..i + 1][..i] == links[..i];
          if links[i] in grid {
            r := r + [grid[links[i]]];
          }
        }
        assert links[..|links|] == links;
      }
    }

    /**
     * `Game::find_closest_node_toward_exit(start)` as episode 2 writes it:
     * the link `(parent, gateway)` the search stops at, no parent when
     * `start` is itself a gateway.
     */
    method FindClosestNodeTowardExit(start: int) returns (r: Option<(Option<int>, int)>)
      requires Valid()
      ensures r == ClosestFrom(grid, start)
    {
      if start !in grid {
        return None;
      }
      var queue := [Visit(start, None)];
      var seen: set<int> := {};
      while true
        invariant forall v :: v in queue ==> v.node in grid
        invariant Closest(grid, queue, seen) == ClosestFrom(grid, start)
        decreases |grid.Keys - seen|, Pending(queue, seen)
      {
        if queue == [] {
          return None;
        }
        var v := queue[|queue| - 1];
        ghost var before, seenBefore := queue, seen;
        queue := queue[..|queue| - 1];
        seen := seen + {v.node};
        if grid[v.node].isExit {
          return Some((v.parent, v.node));
        }
        var found := LinksWithParent(v.node, seen);
        assert forall w :: w in queue ==> w in before;
        PopMeasure(grid, before, seenBefore, found);
        ClosestPop(grid, before, seenBefore);
        queue := found + queue;
      }
    }

    /**
     * `Game::get_nodes_with_more_exits(start)` (episode 2): the kept nodes, by
     * id, and the highest number of gateway links.
     */
    method GetNodesWithMoreExits(start: int) returns (nodes: seq<int>, highest: nat)
      requires Valid()
      ensures (nodes, highest) == MoreExitsFrom(grid, start)
    {
      highest := 0;
      var seen: set<int> := {};
      nodes := [];
      if start !in grid {
        return;
      }
      var queue := [start];
      while queue != []
        invariant forall q :: q in queue ==> q in grid
        invariant MoreExits(grid, Sweep(queue, seen, nodes, highest)) == MoreExitsFrom(grid, start)
        decreases |grid.Keys - seen| + |queue|
      {
        MoreExitsStep(grid, Sweep(queue, seen, nodes, highest));
        queue, seen, nodes, highest := VisitFront(queue, seen, nodes, highest);
      }
    }

    /** One turn of the outer loop of `get_nodes_with_more_exits`. */
    method VisitFront(queue: seq<int>, seen: set<int>, nodes: seq<int>, highest: nat)
      returns (queue': seq<int>, seen': set<int>, nodes': seq<int>, highest': nat)
      requires Valid() && queue != [] && forall q :: q in queue ==> q in grid
      ensures Sweep(queue', seen', nodes', highest') == SweepStep(grid, Sweep(queue, seen, nodes, highest))
    {
      var v := queue[0];
      var pushed, count;
      seen', pushed, count := ScanNode(v, seen + {v});
      queue' := queue[1..] + pushed;
      nodes', highest' := nodes, highest;
      if count < highest {
      } else {
        if count > highest {
          nodes' := [];
          highest' := count;
        }
        if v !in nodes' {
          nodes' := nodes' + [v];
        }
      }
    }

    /** The inner loop of `get_nodes_with_more_exits` over the linked nodes of `v`. */
    method ScanNode(v: int, seen: set<int>) returns (marked: set<int>, pushed: seq<int>, count: nat)
      requires Valid() && v in grid
      ensures Scan(marked, pushed, count) == ScanLinks(LinkedNodes(grid, grid[v].links), seen)
    {
      var links := GetLinkedNodes(v);
      marked, pushed, count := seen, [], 0;
      for i := 0 to |links|
        invariant Scan(marked, pushed, count) == ScanLinks(links[..i], seen)
      {
        var l := links[i];
        ScanSnoc(links, i, seen);
        if l.id !in marked {
          marked := marked + {l.id};
          pushed := pushed + [l.id];
        } else {
          assert marked + {l.id} == marked;
        }
        if l.isExit {
          count := count + 1;
        }
      }
      assert links[..|links|] == links;
    }

    /** One turn of episode 1's main loop: find the link to cut and remove it. */
    method TurnEpisode1(si: int) returns (r: Result<(int, int), CutFailure>)
      requires Valid()
      modifies this
      ensures r == CutEpisode1(old(grid), si)
      ensures Valid() && exits == old(exits)
      ensures r.Ok? ==> grid == Unlinked(old(grid), r.value.0, r.value.1)
      ensures r.Err? ==> grid == old(grid)
    {
      var link := FindClosestLink(si);
      if link.None? {
        return Err(NotFound);
      }
      r := Ok(link.value);
      RemoveLink(link.value.0, link.value.1);
    }

    /** One turn of episode 2's main loop: choose the link to cut and remove it. */
    method TurnEpisode2(si: int) returns (r: Result<(int, int), CutFailure>)
      requires Valid()
      modifies this
      ensures r == CutEpisode2(old(grid), si)
      ensures Valid() && exits == old(exits)
      ensures r.Ok? ==> grid == Unlinked(old(grid), r.value.0, r.value.1)
      ensures r.Err? ==> grid == old(grid)
    {
      var closest := FindClosestNodeTowardExit(si);
      r := KnownLink(closest);
      if r.Err? {
        return;
      }
      if r.value.0 != si {
        var nodes, _ := GetNodesWithMoreExits(si);
        if nodes == [] {
          return Err(NoNodeWithExit);
        }
        closest := FindClosestNodeTowardExit(nodes[0]);
        r := KnownLink(closest);
        if r.Err? {
          return;
        }
      }
      RemoveLink(r.value.0, r.value.1);
    }

    /** The linked nodes of a popped node kept by the `retain`, each with that node as parent. */
    method LinksWithParent(node: int, seen: set<int>) returns (found: seq<Visit>)
      requires Valid() && node in grid
      ensures found == Expand(grid, node, seen)
    {
      var links := GetLinkedNodes(node);
      found := [];
      for i := 0 to |links|
        invariant found == Retain(links[..i], seen, Some(node))
      {
        assert links[..i + 1][..i] == links[..i];
        if links[i].id !in seen {
          found := found + [Visit(links[i].id, Some(node))];
        }
      }
      assert links[..|links|] == links;
    }

    /**
     * `Game::find_closest_node_toward_exit(start)` as episode 1 writes it:
     * the start stands as its own parent.
     */
    method FindClosestLink(start: int) returns (r: Option<(int, int)>)
      requires Valid()
      ensures r == StartAsParent(ClosestFrom(grid, start), start)
    {
      var link := FindClosestNodeTowardExit(start);
      r := StartAsParent(link, start);
    }
  }

  /** The graph after `add_link(a, b)`: `a` gains a link to `b` and `b` one to `a`; nothing else changes. */
  function Linked(grid: map<int, Node>, a: int, b: int): (r: map<int, Node>)
    requires a in grid && b in grid
    ensures r.Keys == grid.Keys
    ensures forall k :: k in grid ==> r[k].id == grid[k].id && r[k].isExit == grid[k].isExit
    ensures forall k :: k in grid && k != a && k != b ==> r[k] == grid[k]
    ensures a != b ==> multiset(r[a].links) == multiset(grid[a].links) + multiset{b}
    ensures a != b ==> multiset(r[b].links) == multiset(grid[b].links) + multiset{a}
    ensures a == b ==> multiset(r[a].links) == multiset(grid[a].links) + multiset{a, a}
  {
    if a == b then grid[a := AddLinkTo(AddLinkTo(grid[a], a), a)]
    else grid[a := AddLinkTo(grid[a], b)][b := AddLinkTo(grid[b], a)]
  }

  /** The graph after `remove_link(a, b)`: one link `a`-`b` is gone from each end, if there was one; nothing else changes. */
  function Unlinked(grid: map<int, Node>, a: int, b: int): (r: map<int, Node>)
    requires a in grid && b in grid
    ensures r.Keys == grid.Keys
  {
    var g := grid[a := RemoveLinkFrom(grid[a], b)];
    g[b := RemoveLinkFrom(g[b], a)]
  }

  /** `remove_link(a, b)` keeps every id and gateway flag, and touches no node but `a` and `b`. */
  lemma UnlinkedKeeps(grid: map<int, Node>, a: int, b: int)
    requires a in grid && b in grid
    ensures forall k :: k in grid ==> Unlinked(grid, a, b)[k].id == grid[k].id && Unlinked(grid, a, b)[k].isExit == grid[k].isExit
    ensures forall k :: k in grid && k != a && k != b ==> Unlinked(grid, a, b)[k] == grid[k]
  {
    forall k | k in grid
      ensures Unlinked(grid, a, b)[k].id == grid[k].id && Unlinked(grid, a, b)[k].isExit == grid[k].isExit
      ensures k != a && k != b ==> Unlinked(grid, a, b)[k] == grid[k]
    {
      UnlinkedNode(grid, a, b, k);
    }
  }

  /** One node after `remove_link(a, b)`. */
  lemma UnlinkedNode(grid: map<int, Node>, a: int, b: int, k: int)
    requires a in grid && b in grid && k in grid
    ensures Unlinked(grid, a, b)[k].id == grid[k].id && Unlinked(grid, a, b)[k].isExit == grid[k].isExit
    ensures k != a && k != b ==> Unlinked(grid, a, b)[k] == grid[k]
  {
    var r := Unlinked(grid, a, b);
    if k == a && a == b {
      var n := RemoveLinkFrom(grid[a], a);
      assert r[k] == RemoveLinkFrom(n, a);
    } else if k == a {
      assert r[k] == RemoveLinkFrom(grid[a], b);
    } else if k == b {
      assert r[k] == RemoveLinkFrom(grid[b], a);
    }
  }

  /** `remove_link(a, b)` takes one `b` from the links of `a` and one `a` from those of `b`. */
  lemma UnlinkedLinks(grid: map<int, Node>, a: int, b: int)
    requires a in grid && b in grid
    ensures a != b ==> multiset(Unlinked(grid, a, b)[a].links) == multiset(grid[a].links) - multiset{b}
    ensures a != b ==> multiset(Unlinked(grid, a, b)[b].links) == multiset(grid[b].links) - multiset{a}
    ensures a == b ==> multiset(Unlinked(grid, a, b)[a].links) == multiset(grid[a].links) - multiset{a} - multiset{a}
  {
    if a == b {
      var n := RemoveLinkFrom(grid[a], a);
      RemovedOnce(grid[a], a);
      RemovedOnce(n, a);
      assert Unlinked(grid, a, b)[a] == RemoveLinkFrom(n, a);
    } else {
      RemovedOnce(grid[a], b);
      RemovedOnce(grid[b], a);
    }
  }

  /** Links are two-way: `a` lists `b` as many times as `b` lists `a`. */
  ghost predicate Symmetric(grid: map<int, Node>)
  {
    forall a, b :: a in grid && b in grid ==> multiset(grid[a].links)[b] == multiset(grid[b].links)[a]
  }

  /** `add_link` keeps links two-way. */
  lemma LinkedSymmetric(grid: map<int, Node>, a: int, b: int)
    requires a in grid && b in grid && Symmetric(grid)
    ensures Symmetric(Linked(grid, a, b))
  {
    var r := Linked(grid, a, b);
    forall x, y | x in r && y in r
      ensures multiset(r[x].links)[y] == multiset(r[y].links)[x]
    {
      assert multiset(grid[x].links)[y] == multiset(grid[y].links)[x];
    }
  }

  /** `remove_link` keeps links two-way. */
  lemma UnlinkedSymmetric(grid: map<int, Node>, a: int, b: int)
    requires a in grid && b in grid && Symmetric(grid)
    ensures Symmetric(Unlinked(grid, a, b))
  {
    var r := Unlinked(grid, a, b);
    forall x, y | x in r && y in r
      ensures multiset(r[x].links)[y] == multiset(r[y].links)[x]
    {
      assert multiset(grid[x].links)[y] == multiset(grid[y].links)[x];
      assert Taken(a, b, x, y) == Taken(a, b, y, x);
      UnlinkedCount(grid, a, b, x, y);
      UnlinkedCount(grid, a, b, y, x);
    }
  }

  /** How many links to `y` that `remove_link(a, b)` takes from `x`: the same as it takes to `x` from `y`. */
  function Taken(a: int, b: int, x: int, y: int): nat
  {
    if a == b && x == a && y == a then 2
    else if a != b && ((x == a && y == b) || (x == b && y == a)) then 1
    else 0
  }

  /** How many times `x` lists `y` after `remove_link(a, b)`. */
  lemma UnlinkedCount(grid: map<int, Node>, a: int, b: int, x: int, y: int)
    requires a in grid && b in grid && x in grid
    ensures var n := multiset(grid[x].links)[y];
      multiset(Unlinked(grid, a, b)[x].links)[y] == if n < Taken(a, b, x, y) then 0 else n - Taken(a, b, x, y)
  {
    UnlinkedKeeps(grid, a, b);
    UnlinkedLinks(grid, a, b);
    TakenCount(multiset(grid[x].links), multiset(Unlinked(grid, a, b)[x].links), a, b, x, y);
  }

  /** The count at `y` of the links of `x` once `remove_link(a, b)` has taken its share from them. */
  lemma TakenCount(m: multiset<int>, m': multiset<int>, a: int, b: int, x: int, y: int)
    requires x != a && x != b ==> m' == m
    requires a != b && x == a ==> m' == m - multiset{b}
    requires a != b && x == b ==> m' == m - multiset{a}
    requires a == b && x == a ==> m' == m - multiset{a} - multiset{a}
    ensures m'[y] == if m[y] < Taken(a, b, x, y) then 0 else m[y] - Taken(a, b, x, y)
  {
  }

  /** Removing a link just added gives back every node's links, up to order. */
  lemma LinkThenUnlink(grid: map<int, Node>, a: int, b: int)
    requires a in grid && b in grid
    ensures forall k :: k in grid ==> multiset(Unlinked(Linked(grid, a, b), a, b)[k].links) == multiset(grid[k].links)
  {
    var g := Linked(grid, a, b);
    UnlinkedKeeps(g, a, b);
    UnlinkedLinks(g, a, b);
  }

  /*
   * `find_closest_node_toward_exit`: a search over a vector used as a queue
   * (new entries spliced in at the front, the next one popped from the back).
   * A node is marked seen when it is popped, so the same node can wait in the
   * queue more than once.
   */

  /** A queued node with the node it was reached from (`None` for the start). */
  datatype Visit = Visit(node: int, parent: Option<int>)

  /** The queue entries for the linked nodes the `retain` keeps: those not seen yet, in link order. */
  function Retain(nodes: seq<Node>, seen: set<int>, parent: Option<int>): (r: seq<Visit>)
    ensures forall v :: v in r ==> v.parent == parent && v.node !in seen && exists n :: n in nodes && n.id == v.node
    ensures forall n :: n in nodes && n.id !in seen ==> Visit(n.id, parent) in r
  {
    if nodes == [] then []
    else
      var init := nodes[..|nodes| - 1];
      var n := nodes[|nodes| - 1];
      assert forall m :: m in nodes <==> m in init || m == n;
      Retain(init, seen, parent) + (if n.id in seen then [] else [Visit(n.id, parent)])
  }

  /** How many queue entries are for nodes already seen. */
  function Pending(queue: seq<Visit>, seen: set<int>): nat
  {
    if queue == [] then 0
    else Pending(queue[..|queue| - 1], seen) + (if queue[|queue| - 1].node in seen then 1 else 0)
  }

  lemma {:induction false} PendingAppend(front: seq<Visit>, back: seq<Visit>, seen: set<int>)
    requires forall v :: v in front ==> v.node !in seen
    ensures Pending(front + back, seen) == Pending(back, seen)
    decreases |back|
  {
    if back == [] {
      assert front + back == front;
      PendingNone(front, seen);
    } else {
      var init := back[..|back| - 1];
      assert (front + back)[..|front + back| - 1] == front + init;
      PendingAppend(front, init, seen);
    }
  }

  lemma {:induction false} PendingNone(q: seq<Visit>, seen: set<int>)
    requires forall v :: v in q ==> v.node !in seen
    ensures Pending(q, seen) == 0
    decreases |q|
  {
    if q != [] {
      var init := q[..|q| - 1];
      assert forall v :: v in init ==> v in q;
      PendingNone(init, seen);
    }
  }

  /**
   * The loop of `find_closest_node_toward_exit` from a given queue and seen
   * set: the link `(parent, gateway)` to the first gateway popped, or `None`
   * when the queue runs dry.
   */
  function Closest(grid: map<int, Node>, queue: seq<Visit>, seen: set<int>): (r: Option<(Option<int>, int)>)
    requires Keyed(grid)
    requires forall v :: v in queue ==> v.node in grid
    decreases |grid.Keys - seen|, Pending(queue, seen)
  {
    if queue == [] then None
    else
      var v := queue[|queue| - 1];
      var rest := queue[..|queue| - 1];
      var marked := seen + {v.node};
      if grid[v.node].isExit then Some((v.parent, v.node))
      else
        var found := Expand(grid, v.node, marked);
        assert forall w :: w in rest ==> w in queue;
        PopMeasure(grid, queue, seen, found);
        Closest(grid, found + rest, marked)
  }


  /** The entries queued after popping `node`: its linked nodes not yet seen, with `node` as parent. */
  function Expand(grid: map<int, Node>, node: int, seen: set<int>): (r: seq<Visit>)
    requires Keyed(grid) && node in grid
    ensures forall w :: w in r ==> w.node in grid && w.node in grid[node].links && w.node !in seen && w.parent == Some(node)
    ensures forall l :: l in grid[node].links && l in grid && l !in seen ==> Visit(l, Some(node)) in r
  {
    var linked := LinkedNodes(grid, grid[node].links);
    var r := Retain(linked, seen, Some(node));
    assert forall l :: l in grid[node].links && l in grid ==> grid[l] in linked;
    r
  }

  function QueuedNodes(queue: seq<Visit>): set<int>
  {
    set v | v in queue :: v.node
  }

  /** Where a queued entry comes from: the start, or a link out of a node already popped. */
  ghost predicate ParentOk(grid: map<int, Node>, start: int, seen: set<int>, v: Visit)
  {
    match v.parent
    case None => v.node == start
    case Some(p) => p in seen && p in grid && v.node in grid[p].links
  }

  /** The loop invariant of the search from `start`. */
  ghost predicate Frontier(grid: map<int, Node>, start: int, queue: seq<Visit>, seen: set<int>)
  {
    && QueuedFrom(grid, start, queue, seen)
    && SeenSafe(grid, start, seen)
    && Covered(grid, seen, seen + QueuedNodes(queue))
    && start in seen + QueuedNodes(queue)
  }

  /** Every queued node exists, is reachable from `start`, and came from the start or a popped node. */
  ghost predicate QueuedFrom(grid: map<int, Node>, start: int, queue: seq<Visit>, seen: set<int>)
  {
    forall v :: v in queue ==> v.node in grid && Reachable(grid, start, v.node) && ParentOk(grid, start, seen, v)
  }

  /** Every popped node exists, is no gateway and is reachable from `start`. */
  ghost predicate SeenSafe(grid: map<int, Node>, start: int, seen: set<int>)
  {
    forall k :: k in seen ==> k in grid && !grid[k].isExit && Reachable(grid, start, k)
  }

  /** What a returned link is: a link into a gateway reachable from `start`, or the start itself when it is a gateway. */
  ghost predicate ExitLink(grid: map<int, Node>, start: int, link: (Option<int>, int))
  {
    var (p, e) := link;
    && e in grid && grid[e].isExit && Reachable(grid, start, e)
    && match p
       case None => e == start
       case Some(q) => q in grid && !grid[q].isExit && Reachable(grid, start, q) && e in grid[q].links
  }

  /** No gateway can be reached from `start`. */
  ghost predicate NoExitReachable(grid: map<int, Node>, start: int)
  {
    forall e :: Reachable(grid, start, e) ==> !grid[e].isExit
  }

  /** What the search promises: a sound link to a gateway, or `None` when no gateway is reachable. */
  ghost predicate Outcome(grid: map<int, Node>, start: int, r: Option<(Option<int>, int)>)
  {
    match r
    case Some(link) => ExitLink(grid, start, link)
    case None => NoExitReachable(grid, start)
  }

  /** One more link on a walk from `a`. */
  lemma ReachStep(grid: map<int, Node>, a: int, b: int, c: int)
    requires Reachable(grid, a, b) && b in grid && c in grid && c in grid[b].links
    ensures Reachable(grid, a, c)
  {
    var w :| Walk(grid, w) && w[0] == a && w[|w| - 1] == b;
    WalkExtend(grid, w, c);
    assert (w + [c])[|w + [c]| - 1] == c;
  }

  /** A closed set of non-gateways holding `start` leaves no gateway reachable. */
  lemma ClosedNoExit(grid: map<int, Node>, start: int, seen: set<int>)
    requires start in seen && Closed(grid, seen)
    requires forall k :: k in seen ==> k in grid && !grid[k].isExit
    ensures NoExitReachable(grid, start)
  {
    forall e | Reachable(grid, start, e)
      ensures !grid[e].isExit
    {
      var w :| Walk(grid, w) && w[0] == start && w[|w| - 1] == e;
      WalkStaysInside(grid, seen, w);
    }
  }

  /** Popping a non-gateway keeps the invariant. */
  lemma FrontierStep(grid: map<int, Node>, start: int, queue: seq<Visit>, seen: set<int>)
    requires Keyed(grid) && Frontier(grid, start, queue, seen) && queue != []
    requires !grid[queue[|queue| - 1].node].isExit
    ensures
      var v := queue[|queue| - 1];
      var marked := seen + {v.node};
      Frontier(grid, start, Expand(grid, v.node, marked) + queue[..|queue| - 1], marked)
  {
    var v := queue[|queue| - 1];
    var rest := queue[..|queue| - 1];
    var marked := seen + {v.node};
    var q := Expand(grid, v.node, marked) + rest;
    assert v in queue;
    FrontierQueuedStep(grid, start, queue, seen);
    FrontierCoveredStep(grid, start, queue, seen);
    assert SeenSafe(grid, start, marked);
    if start in QueuedNodes(rest) {
      var u :| u in rest && u.node == start;
      assert u in q;
    }
  }

  /** After a pop, the entries queued by the popped node and the ones left are all well-founded. */
  lemma FrontierQueuedStep(grid: map<int, Node>, start: int, queue: seq<Visit>, seen: set<int>)
    requires Keyed(grid) && QueuedFrom(grid, start, queue, seen) && queue != []
    ensures
      var v := queue[|queue| - 1];
      var marked := seen + {v.node};
      QueuedFrom(grid, start, Expand(grid, v.node, marked) + queue[..|queue| - 1], marked)
  {
    var v := queue[|queue| - 1];
    var rest := queue[..|queue| - 1];
    var marked := seen + {v.node};
    var found := Expand(grid, v.node, marked);
    assert v in queue;
    forall w: Visit | w in found + rest
      ensures w.node in grid && Reachable(grid, start, w.node) && ParentOk(grid, start, marked, w)
    {
      if w in found {
        ReachStep(grid, start, v.node, w.node);
      } else {
        assert w in queue;
      }
    }
  }

  /** After a pop, every link out of a popped node is popped or queued. */
  lemma FrontierCoveredStep(grid: map<int, Node>, start: int, queue: seq<Visit>, seen: set<int>)
    requires Keyed(grid) && Covered(grid, seen, seen + QueuedNodes(queue)) && queue != []
    requires queue[|queue| - 1].node in grid
    ensures
      var v := queue[|queue| - 1];
      var marked := seen + {v.node};
      Covered(grid, marked, marked + QueuedNodes(Expand(grid, v.node, marked) + queue[..|queue| - 1]))
  {
    var v := queue[|queue| - 1];
    var rest := queue[..|queue| - 1];
    var marked := seen + {v.node};
    var q := Expand(grid, v.node, marked) + rest;
    assert QueuedNodes(queue) == QueuedNodes(rest) + {v.node} by {
      assert queue == rest + [v];
    }
    forall k, l | k in marked && k in grid && l in grid[k].links && l in grid
      ensures l in marked + QueuedNodes(q)
    {
      if k == v.node {
        if l !in marked {
          assert Visit(l, Some(v.node)) in q;
        }
      } else {
        assert l in seen + QueuedNodes(queue);
        if l in QueuedNodes(rest) {
          var u :| u in rest && u.node == l;
          assert u in q;
        }
      }
    }
  }

  /** A popped gateway is reported with a sound link. */
  lemma PoppedExit(grid: map<int, Node>, start: int, queue: seq<Visit>, seen: set<int>)
    requires Frontier(grid, start, queue, seen) && queue != []
    requires queue[|queue| - 1].node in grid && grid[queue[|queue| - 1].node].isExit
    ensures ExitLink(grid, start, (queue[|queue| - 1].parent, queue[|queue| - 1].node))
  {
    var v := queue[|queue| - 1];
    assert v in queue;
    assert ParentOk(grid, start, seen, v) && Reachable(grid, start, v.node);
  }

  /**
   * Soundness and completeness of the search loop: a returned link leads
   * into a reachable gateway, and `None` means no gateway is reachable.
   */
  lemma {:induction false} ClosestSound(grid: map<int, Node>, start: int, queue: seq<Visit>, seen: set<int>)
    requires Keyed(grid) && Frontier(grid, start, queue, seen)
    ensures Outcome(grid, start, Closest(grid, queue, seen))
    decreases |grid.Keys - seen|, Pending(queue, seen), 1
  {
    if queue == [] {
      assert QueuedNodes(queue) == {};
      ClosedNoExit(grid, start, seen);
    } else if grid[queue[|queue| - 1].node].isExit {
      PoppedExit(grid, start, queue, seen);
    } else {
      ClosestSoundStep(grid, start, queue, seen);
    }
  }

  /** Popping an entry and queueing unseen nodes in front shrinks the search's measure. */
  lemma PopMeasure(grid: map<int, Node>, queue: seq<Visit>, seen: set<int>, found: seq<Visit>)
    requires queue != [] && queue[|queue| - 1].node in grid
    requires forall w :: w in found ==> w.node !in seen + {queue[|queue| - 1].node}
    ensures
      var marked := seen + {queue[|queue| - 1].node};
      var q := found + queue[..|queue| - 1];
      |grid.Keys - marked| < |grid.Keys - seen| || (marked == seen && Pending(q, marked) < Pending(queue, seen))
  {
    var v := queue[|queue| - 1];
    var rest := queue[..|queue| - 1];
    var marked := seen + {v.node};
    PendingAppend(found, rest, marked);
    if v.node in seen {
      assert marked == seen;
      assert Pending(queue, seen) == Pending(rest, seen) + 1;
    } else {
      assert grid.Keys - seen == (grid.Keys - marked) + {v.node};
    }
  }

  /** Popping a node that is no gateway queues its unseen links in front of the rest. */
  lemma ClosestPop(grid: map<int, Node>, queue: seq<Visit>, seen: set<int>)
    requires Keyed(grid) && queue != [] && forall v :: v in queue ==> v.node in grid
    requires !grid[queue[|queue| - 1].node].isExit
    ensures
      var v := queue[|queue| - 1];
      var marked := seen + {v.node};
      var q := Expand(grid, v.node, marked) + queue[..|queue| - 1];
      && (forall w :: w in q ==> w.node in grid)
      && Closest(grid, queue, seen) == Closest(grid, q, marked)
  {
    assert forall w :: w in queue[..|queue| - 1] ==> w in queue;
  }

  /** The inductive step of `ClosestSound`: popping a node that is no gateway. */
  lemma {:induction false} ClosestSoundStep(grid: map<int, Node>, start: int, queue: seq<Visit>, seen: set<int>)
    requires Keyed(grid) && Frontier(grid, start, queue, seen) && queue != []
    requires !grid[queue[|queue| - 1].node].isExit
    ensures Outcome(grid, start, Closest(grid, queue, seen))
    decreases |grid.Keys - seen|, Pending(queue, seen), 0
  {
    var v := queue[|queue| - 1];
    var rest := queue[..|queue| - 1];
    var marked := seen + {v.node};
    var q := Expand(grid, v.node, marked) + rest;
    assert Closest(grid, queue, seen) == Closest(grid, q, marked) by {
      ClosestPop(grid, queue, seen);
    }
    assert Frontier(grid, start, q, marked) by {
      FrontierStep(grid, start, queue, seen);
    }
    PopMeasure(grid, queue, seen, Expand(grid, v.node, marked));
    ClosestSound(grid, start, q, marked);
  }

  /*
   * Why the gateway found is a nearest one. Each queue entry carries, in the
   * proof only, the number of links of the walk that queued it. Read from the
   * back, these labels never decrease and span at most two values; every node
   * fewer links away than the back label has been popped, and every node as
   * many links away is popped or waits with that label.
   */

  /** Node `b` is at most `n` links away from `a`. */
  ghost predicate Hops(grid: map<int, Node>, a: int, b: int, n: int)
  {
    exists w :: Walk(grid, w) && w[0] == a && w[|w| - 1] == b && |w| <= n + 1
  }

  /** No gateway is at most `n` links away from `start`. */
  ghost predicate NoExitWithin(grid: map<int, Node>, start: int, n: int)
  {
    forall g :: Hops(grid, start, g, n) && g in grid ==> !grid[g].isExit
  }

  /** `e` is a gateway that no other gateway beats on the number of links from `start`. */
  ghost predicate NearestExit(grid: map<int, Node>, start: int, e: int)
  {
    exists n :: Hops(grid, start, e, n) && NoExitWithin(grid, start, n - 1)
  }

  /** Read from the back, the labels never decrease, and the front one is at most one above the back one. */
  ghost predicate LabelOrder(labels: seq<int>)
  {
    && (forall i, j :: 0 <= i <= j < |labels| ==> labels[j] <= labels[i])
    && (labels != [] ==> labels[0] <= labels[|labels| - 1] + 1)
  }

  /** Each queued node is at most its label's number of links from `start`. */
  ghost predicate Labelled(grid: map<int, Node>, start: int, queue: seq<Visit>, labels: seq<int>)
  {
    && |labels| == |queue|
    && forall i :: 0 <= i < |queue| ==> Hops(grid, start, queue[i].node, labels[i])
  }

  /** Every node fewer than `m` links from `start` has been popped. */
  ghost predicate Below(grid: map<int, Node>, start: int, seen: set<int>, m: int)
  {
    forall x :: Hops(grid, start, x, m - 1) ==> x in seen
  }

  /** Every node at most `m` links from `start` has been popped or waits in the queue with label `m`. */
  ghost predicate AtLevel(grid: map<int, Node>, start: int, queue: seq<Visit>, seen: set<int>, labels: seq<int>, m: int)
  {
    forall x :: Hops(grid, start, x, m) ==>
      x in seen || exists i :: 0 <= i < |queue| && i < |labels| && queue[i].node == x && labels[i] == m
  }

  /** The level invariant of the search, for the label `labels` gives each queue entry. */
  ghost predicate Levels(grid: map<int, Node>, start: int, queue: seq<Visit>, seen: set<int>, labels: seq<int>)
  {
    && Labelled(grid, start, queue, labels)
    && LabelOrder(labels)
    && (queue != [] ==> Below(grid, start, seen, labels[|labels| - 1])
                        && AtLevel(grid, start, queue, seen, labels, labels[|labels| - 1]))
  }

  /** One more link. */
  lemma HopsStep(grid: map<int, Node>, a: int, b: int, c: int, n: int)
    requires Hops(grid, a, b, n) && c in grid && c in grid[b].links
    ensures Hops(grid, a, c, n + 1)
  {
    var w :| Walk(grid, w) && w[0] == a && w[|w| - 1] == b && |w| <= n + 1;
    WalkExtend(grid, w, c);
    assert (w + [c])[|w + [c]| - 1] == c;
  }

  /** A node more than zero links away is one link past a node one link closer. */
  lemma HopsBack(grid: map<int, Node>, a: int, c: int, n: int) returns (b: int)
    requires Hops(grid, a, c, n) && c != a
    ensures Hops(grid, a, b, n - 1) && b in grid && c in grid && c in grid[b].links
  {
    var w :| Walk(grid, w) && w[0] == a && w[|w| - 1] == c && |w| <= n + 1;
    var init := w[..|w| - 1];
    assert Walk(grid, init);
    b := init[|init| - 1];
    assert w[|w| - 2 + 1] in grid[w[|w| - 2]].links;
  }

  /** The labels after a pop: those of the queued links, one above the popped label, then the rest. */
  function Relabel(found: seq<Visit>, labels: seq<int>): (r: seq<int>)
    requires labels != []
    ensures |r| == |found| + |labels| - 1
  {
    seq(|found|, _ => labels[|labels| - 1] + 1) + labels[..|labels| - 1]
  }

  /** The new labels keep their order, and none exceeds one above the popped label. */
  lemma RelabelOrder(found: seq<Visit>, labels: seq<int>)
    requires labels != [] && LabelOrder(labels)
    ensures var r := Relabel(found, labels);
      && LabelOrder(r)
      && (forall i :: 0 <= i < |r| ==> labels[|labels| - 1] <= r[i] <= labels[|labels| - 1] + 1)
  {
    var m := labels[|labels| - 1];
    var r := Relabel(found, labels);
    var k := |found|;
    forall i | 0 <= i < |r| ensures m <= r[i] <= m + 1 {
      if i >= k {
        assert r[i] == labels[i - k];
      }
    }
    forall i, j | 0 <= i <= j < |r| ensures r[j] <= r[i] {
      if i >= k {
        assert r[i] == labels[i - k] && r[j] == labels[j - k];
      }
    }
  }

  /** The popped gateway: its label is a number of links no other gateway undercuts. */
  lemma PoppedNearest(grid: map<int, Node>, start: int, queue: seq<Visit>, seen: set<int>, labels: seq<int>)
    requires Frontier(grid, start, queue, seen) && Levels(grid, start, queue, seen, labels) && queue != []
    ensures NearestExit(grid, start, queue[|queue| - 1].node)
  {
    var m := labels[|labels| - 1];
    assert Hops(grid, start, queue[|queue| - 1].node, m);
    assert NoExitWithin(grid, start, m - 1);
  }

  /** Labels of the queued links: each link is one past the popped node. */
  lemma LabelledStep(grid: map<int, Node>, start: int, queue: seq<Visit>, seen: set<int>, labels: seq<int>)
    requires Keyed(grid) && queue != [] && queue[|queue| - 1].node in grid && Labelled(grid, start, queue, labels)
    ensures var v := queue[|queue| - 1];
      var found := Expand(grid, v.node, seen + {v.node});
      Labelled(grid, start, found + queue[..|queue| - 1], Relabel(found, labels))
  {
    var v := queue[|queue| - 1];
    var m := labels[|labels| - 1];
    var found := Expand(grid, v.node, seen + {v.node});
    var q := found + queue[..|queue| - 1];
    var r := Relabel(found, labels);
    forall i | 0 <= i < |q| ensures Hops(grid, start, q[i].node, r[i]) {
      if i < |found| {
        assert found[i] in found;
        HopsStep(grid, start, v.node, found[i].node, m);
      } else {
        assert q[i] == queue[i - |found|] && r[i] == labels[i - |found|];
      }
    }
  }

  /** A pop that leaves the back label as it was keeps the level facts. */
  lemma SameLevelStep(grid: map<int, Node>, start: int, queue: seq<Visit>, seen: set<int>, labels: seq<int>, found: seq<Visit>)
    requires queue != [] && |labels| == |queue| && Below(grid, start, seen, labels[|labels| - 1])
    requires AtLevel(grid, start, queue, seen, labels, labels[|labels| - 1])
    ensures var m := labels[|labels| - 1];
      var marked := seen + {queue[|queue| - 1].node};
      && Below(grid, start, marked, m)
      && AtLevel(grid, start, found + queue[..|queue| - 1], marked, Relabel(found, labels), m)
  {
    var m := labels[|labels| - 1];
    var marked := seen + {queue[|queue| - 1].node};
    var q := found + queue[..|queue| - 1];
    var r := Relabel(found, labels);
    forall x | Hops(grid, start, x, m) && x !in marked
      ensures exists i :: 0 <= i < |q| && i < |r| && q[i].node == x && r[i] == m
    {
      var i :| 0 <= i < |queue| && i < |labels| && queue[i].node == x && labels[i] == m;
      assert q[i + |found|] == queue[i] && r[i + |found|] == labels[i];
    }
  }

  /**
   * A pop after which the back label is one higher: every node at most `m`
   * links away is now popped, and every node one link further is popped or
   * waits with the new label.
   */
  lemma NextLevelStep(grid: map<int, Node>, start: int, queue: seq<Visit>, seen: set<int>, labels: seq<int>, found: seq<Visit>)
    requires queue != [] && |labels| == |queue| && LabelOrder(labels) && labels[|labels| - 1] >= 0
    requires AtLevel(grid, start, queue, seen, labels, labels[|labels| - 1])
    requires var q := found + queue[..|queue| - 1];
      var r := Relabel(found, labels);
      var marked := seen + {queue[|queue| - 1].node};
      && q != [] && r[|r| - 1] == labels[|labels| - 1] + 1
      && (forall i :: 0 <= i < |r| ==> r[i] <= labels[|labels| - 1] + 1)
      && Covered(grid, marked, marked + QueuedNodes(q)) && start in marked + QueuedNodes(q)
    ensures var m := labels[|labels| - 1];
      var marked := seen + {queue[|queue| - 1].node};
      && Below(grid, start, marked, m + 1)
      && AtLevel(grid, start, found + queue[..|queue| - 1], marked, Relabel(found, labels), m + 1)
  {
    var m := labels[|labels| - 1];
    var marked := seen + {queue[|queue| - 1].node};
    var q := found + queue[..|queue| - 1];
    var r := Relabel(found, labels);
    forall x | Hops(grid, start, x, m) ensures x in marked {
      if x !in seen {
        var i :| 0 <= i < |queue| && i < |labels| && queue[i].node == x && labels[i] == m;
      }
    }
    forall x | Hops(grid, start, x, m + 1) && x !in marked
      ensures exists j :: 0 <= j < |q| && j < |r| && q[j].node == x && r[j] == m + 1
    {
      if x != start {
        var y := HopsBack(grid, start, x, m + 1);
        assert x in QueuedNodes(q);
      }
      var u :| u in q && u.node == x;
      var j :| 0 <= j < |q| && q[j] == u;
      assert r[j] >= r[|r| - 1];
    }
  }

  /** Popping a node that is no gateway keeps the level invariant, with the queued links one label up. */
  lemma LevelsStep(grid: map<int, Node>, start: int, queue: seq<Visit>, seen: set<int>, labels: seq<int>)
    requires Keyed(grid) && Frontier(grid, start, queue, seen) && Levels(grid, start, queue, seen, labels) && queue != []
    requires !grid[queue[|queue| - 1].node].isExit
    ensures var v := queue[|queue| - 1];
      var marked := seen + {v.node};
      var found := Expand(grid, v.node, marked);
      Levels(grid, start, found + queue[..|queue| - 1], marked, Relabel(found, labels))
  {
    var v := queue[|queue| - 1];
    var marked := seen + {v.node};
    var found := Expand(grid, v.node, marked);
    var q := found + queue[..|queue| - 1];
    var r := Relabel(found, labels);
    var m := labels[|labels| - 1];
    assert v in queue;
    LabelledStep(grid, start, queue, seen, labels);
    RelabelOrder(found, labels);
    if q != [] {
      if r[|r| - 1] == m {
        SameLevelStep(grid, start, queue, seen, labels, found);
      } else {
        FrontierStep(grid, start, queue, seen);
        NextLevelStep(grid, start, queue, seen, labels, found);
      }
    }
  }

  /** The gateway the search loop returns is a nearest one. */
  lemma {:induction false} ClosestNearest(grid: map<int, Node>, start: int, queue: seq<Visit>, seen: set<int>, labels: seq<int>)
    requires Keyed(grid) && Frontier(grid, start, queue, seen) && Levels(grid, start, queue, seen, labels)
    ensures Closest(grid, queue, seen).Some? ==> NearestExit(grid, start, Closest(grid, queue, seen).value.1)
    decreases |grid.Keys - seen|, Pending(queue, seen)
  {
    if queue != [] {
      var v := queue[|queue| - 1];
      if grid[v.node].isExit {
        PoppedNearest(grid, start, queue, seen, labels);
      } else {
        var marked := seen + {v.node};
        var found := Expand(grid, v.node, marked);
        var q := found + queue[..|queue| - 1];
        ClosestPop(grid, queue, seen);
        FrontierStep(grid, start, queue, seen);
        LevelsStep(grid, start, queue, seen, labels);
        PopMeasure(grid, queue, seen, found);
        ClosestNearest(grid, start, q, marked, Relabel(found, labels));
      }
    }
  }

  /** The search from the lone start entry with label 0. */
  lemma StartLevels(grid: map<int, Node>, start: int)
    requires start in grid
    ensures Levels(grid, start, [Visit(start, None)], {}, [0])
  {
    var w := [start];
    assert Walk(grid, w) && w[0] == start && w[|w| - 1] == start;
    forall x | Hops(grid, start, x, 0)
      ensures exists i :: 0 <= i < 1 && [Visit(start, None)][i].node == x && [0][i] == 0
    {
      var u :| Walk(grid, u) && u[0] == start && u[|u| - 1] == x && |u| <= 1;
      assert [Visit(start, None)][0].node == x;
    }
  }

  /**
   * The search from `start`: `None` exactly when `start` is not a node or no
   * gateway can be reached from it; otherwise the link into a reachable
   * gateway, with no parent exactly when `start` is that gateway.
   */
  function ClosestFrom(grid: map<int, Node>, start: int): (r: Option<(Option<int>, int)>)
    requires Keyed(grid)
    ensures r.Some? ==> ExitLink(grid, start, r.value)
    ensures r.None? <==> start !in grid || NoExitReachable(grid, start)
    ensures start in grid && grid[start].isExit ==> r == Some((None, start))
    ensures r.Some? ==> NearestExit(grid, start, r.value.1)
  {
    if start in grid then
      var w := [start];
      assert Walk(grid, w) && w[0] == start && w[|w| - 1] == start;
      assert QueuedNodes([Visit(start, None)]) == {start};
      ClosestSound(grid, start, [Visit(start, None)], {});
      StartLevels(grid, start);
      ClosestNearest(grid, start, [Visit(start, None)], {}, [0]);
      Closest(grid, [Visit(start, None)], {})
    else None
  }

  /** Episode 1 queues the start with itself as parent where episode 2 has none. */
  function StartAsParent(link: Option<(Option<int>, int)>, start: int): (r: Option<(int, int)>)
    ensures r.None? <==> link.None?
    ensures r.Some? ==> r.value.1 == link.value.1 && r.value.0 == if link.value.0.Some? then link.value.0.value else start
  {
    match link
    case None => None
    case Some((p, e)) => Some((if p.Some? then p.value else start, e))
  }

  /*
   * `get_nodes_with_more_exits` (episode 2): a breadth-first walk (a deque,
   * pushed at the back and popped at the front, nodes marked seen when
   * queued) that keeps the nodes with the most links into gateways.
   */

  /** How many of `nodes` are gateways. */
  function ExitCount(nodes: seq<Node>): (r: nat)
    ensures r <= |nodes|
  {
    if nodes == [] then 0
    else ExitCount(nodes[..|nodes| - 1]) + (if nodes[|nodes| - 1].isExit then 1 else 0)
  }

  /** How many links of node `k` lead into a gateway, a doubled link counting twice. */
  function ExitLinks(grid: map<int, Node>, k: int): nat
    requires k in grid
  {
    ExitCount(LinkedNodes(grid, grid[k].links))
  }

  function IdSet(nodes: seq<Node>): set<int>
  {
    set n | n in nodes :: n.id
  }

  /** What the inner `for l in links` loop changes: the seen set, the nodes pushed on the deque, the gateway count. */
  datatype Scan = Scan(seen: set<int>, pushed: seq<int>, count: nat)

  /**
   * The inner loop over the linked nodes: each one not seen yet is marked and
   * pushed, each gateway is counted.
   */
  function ScanLinks(links: seq<Node>, seen: set<int>): (r: Scan)
    ensures r.count == ExitCount(links)
    ensures r.seen == seen + IdSet(links)
    ensures forall x :: x in r.pushed ==> x !in seen && x in IdSet(links)
    ensures forall x :: x in r.seen ==> x in seen || x in r.pushed
  {
    if links == [] then Scan(seen, [], 0)
    else
      var init := links[..|links| - 1];
      var l := links[|links| - 1];
      var s := ScanLinks(init, seen);
      assert IdSet(links) == IdSet(init) + {l.id} by {
        assert links == init + [l];
      }
      Scan(s.seen + {l.id}, if l.id in s.seen then s.pushed else s.pushed + [l.id], s.count + if l.isExit then 1 else 0)
  }

  /** The scan of one more linked node extends the scan of the ones before it. */
  lemma ScanSnoc(links: seq<Node>, i: nat, seen: set<int>)
    requires i < |links|
    ensures var s := ScanLinks(links[..i], seen);
      var l := links[i];
      ScanLinks(links[..i + 1], seen) ==
        Scan(s.seen + {l.id}, if l.id in s.seen then s.pushed else s.pushed + [l.id], s.count + if l.isExit then 1 else 0)
  {
    assert links[..i + 1][..i] == links[..i];
  }

  /** Pushing exactly the newly marked nodes: the unseen nodes lost are the nodes pushed. */
  lemma {:induction false} ScanMeasure(keys: set<int>, links: seq<Node>, seen: set<int>)
    requires IdSet(links) <= keys
    ensures |keys - ScanLinks(links, seen).seen| + |ScanLinks(links, seen).pushed| == |keys - seen|
  {
    if links != [] {
      var i := |links| - 1;
      var init := links[..i];
      assert links[..i + 1] == links;
      ScanSnoc(links, i, seen);
      assert IdSet(init) <= IdSet(links);
      ScanMeasure(keys, init, seen);
      MarkOne(keys, ScanLinks(init, seen).seen, links[i].id);
    }
  }

  /** Marking one node of the graph takes it from the unmarked nodes, unless it was marked already. */
  lemma MarkOne(keys: set<int>, seen: set<int>, x: int)
    requires x in keys
    ensures |keys - seen| == |keys - (seen + {x})| + (if x in seen then 0 else 1)
  {
    if x !in seen {
      assert keys - seen == (keys - (seen + {x})) + {x};
    } else {
      assert seen + {x} == seen;
    }
  }

  /** Every linked node of a node is a node of the graph. */
  lemma LinkedIds(grid: map<int, Node>, k: int)
    requires Keyed(grid) && k in grid
    ensures IdSet(LinkedNodes(grid, grid[k].links)) == set l | l in grid[k].links && l in grid
  {
    var linked := LinkedNodes(grid, grid[k].links);
    forall x | x in IdSet(linked)
      ensures x in grid[k].links && x in grid
    {
      var n :| n in linked && n.id == x;
    }
    forall x | x in grid[k].links && x in grid
      ensures x in IdSet(linked)
    {
      assert grid[x] in linked;
    }
  }

  /** The state of the outer loop of `get_nodes_with_more_exits`. */
  datatype Sweep = Sweep(queue: seq<int>, seen: set<int>, nodes: seq<int>, highest: nat)

  /**
   * One turn of the outer loop: pop the front node, mark it, scan its links,
   * then drop it (fewer gateway links than the best so far), start the list
   * afresh with it (more), or add it when it is not listed yet (as many).
   */
  function SweepStep(grid: map<int, Node>, w: Sweep): (r: Sweep)
    requires Keyed(grid) && w.queue != [] && forall q :: q in w.queue ==> q in grid
    ensures forall q :: q in r.queue ==> q in grid
    ensures |grid.Keys - r.seen| + |r.queue| < |grid.Keys - w.seen| + |w.queue|
  {
    var v := w.queue[0];
    var marked := w.seen + {v};
    var s := ScanLinks(LinkedNodes(grid, grid[v].links), marked);
    var next := w.queue[1..] + s.pushed;
    SweepMeasure(grid, w);
    if s.count < w.highest then Sweep(next, s.seen, w.nodes, w.highest)
    else
      var kept := if s.count > w.highest then [] else w.nodes;
      Sweep(next, s.seen, if v in kept then kept else kept + [v], s.count)
  }

  lemma SweepMeasure(grid: map<int, Node>, w: Sweep)
    requires Keyed(grid) && w.queue != [] && forall q :: q in w.queue ==> q in grid
    ensures
      var v := w.queue[0];
      var s := ScanLinks(LinkedNodes(grid, grid[v].links), w.seen + {v});
      var next := w.queue[1..] + s.pushed;
      && (forall q :: q in next ==> q in grid)
      && |grid.Keys - s.seen| + |next| < |grid.Keys - w.seen| + |w.queue|
  {
    var v := w.queue[0];
    var marked := w.seen + {v};
    var linked := LinkedNodes(grid, grid[v].links);
    LinkedIds(grid, v);
    ScanMeasure(grid.Keys, linked, marked);
    assert v in w.queue;
    MarkOne(grid.Keys, w.seen, v);
    assert forall q :: q in w.queue[1..] ==> q in w.queue;
  }

  /** The outer loop of `get_nodes_with_more_exits` run to the end: the kept nodes and the highest count. */
  function MoreExits(grid: map<int, Node>, w: Sweep): (r: (seq<int>, nat))
    requires Keyed(grid) && forall q :: q in w.queue ==> q in grid
    decreases |grid.Keys - w.seen| + |w.queue|
  {
    if w.queue == [] then (w.nodes, w.highest)
    else MoreExits(grid, SweepStep(grid, w))
  }

  /** A turn of the outer loop leaves the outcome of the loop unchanged. */
  lemma MoreExitsStep(grid: map<int, Node>, w: Sweep)
    requires Keyed(grid) && w.queue != [] && forall q :: q in w.queue ==> q in grid
    ensures MoreExits(grid, w) == MoreExits(grid, SweepStep(grid, w))
  {
  }

  /**
   * `get_nodes_with_more_exits(start)`: nothing and 0 when `start` is not a
   * node; otherwise the reachable nodes with the most gateway links.
   */
  function MoreExitsFrom(grid: map<int, Node>, start: int): (r: (seq<int>, nat))
    requires Keyed(grid)
    ensures start !in grid ==> r == ([], 0)
    ensures start in grid ==> MostExits(grid, start, r)
    ensures start in grid ==> r.0 == Dedup([], AtCount(grid, Visits(grid, Sweep([start], {}, [], 0)), r.1))
  {
    if start in grid then
      var w := Sweep([start], {}, [], 0);
      var p := [start];
      assert Walk(grid, p) && p[0] == start && p[|p| - 1] == start;
      assert QueueSet(w.queue) == {start} && Popped(w) == {};
      MoreExitsSound(grid, start, w);
      MoreExitsOrder(grid, w);
      assert w.nodes + Visits(grid, w) == Visits(grid, w);
      MoreExits(grid, w)
    else ([], 0)
  }

  function QueueSet(queue: seq<int>): set<int>
  {
    set q | q in queue
  }

  /** The nodes popped so far: seen and no longer waiting in the deque. */
  function Popped(w: Sweep): set<int>
  {
    w.seen - QueueSet(w.queue)
  }

  /** Every node seen or queued exists and is reachable from `start`, which is one of them. */
  ghost predicate SweepReach(grid: map<int, Node>, start: int, w: Sweep)
  {
    && start in w.seen + QueueSet(w.queue)
    && forall k :: k in w.seen + QueueSet(w.queue) ==> k in grid && Reachable(grid, start, k)
  }

  /** The kept nodes: distinct, seen, each with `highest` gateway links; every popped node has at most that many. */
  ghost predicate SweepBest(grid: map<int, Node>, w: Sweep)
  {
    && (forall i, j :: 0 <= i < j < |w.nodes| ==> w.nodes[i] != w.nodes[j])
    && (forall k :: k in w.nodes ==> k in w.seen && k in grid && ExitLinks(grid, k) == w.highest)
    && (forall k :: k in Popped(w) && k in grid ==> ExitLinks(grid, k) <= w.highest)
    && (forall k :: k in Popped(w) && k in grid && ExitLinks(grid, k) == w.highest ==> k in w.nodes)
    && (w.nodes == [] ==> w.highest == 0 && w.seen == {})
  }

  /** The invariant of the outer loop. */
  ghost predicate Swept(grid: map<int, Node>, start: int, w: Sweep)
  {
    && SweepReach(grid, start, w)
    && Covered(grid, Popped(w), w.seen)
    && SweepBest(grid, w)
  }

  /** What one turn changes: the scan's facts, stated once for the step lemmas. */
  lemma SweepFacts(grid: map<int, Node>, w: Sweep)
    requires Keyed(grid) && w.queue != [] && forall q :: q in w.queue ==> q in grid
    ensures
      var v := w.queue[0];
      var r := SweepStep(grid, w);
      && r.queue == w.queue[1..] + ScanLinks(LinkedNodes(grid, grid[v].links), w.seen + {v}).pushed
      && r.seen == w.seen + {v} + (set l | l in grid[v].links && l in grid)
      && (forall x :: x in r.seen ==> x in w.seen || x == v || x in r.queue[|w.queue| - 1..])
      && (forall x :: x in r.queue[|w.queue| - 1..] ==> x in grid[v].links && x in grid)
      && Popped(r) <= Popped(w) + {v}
  {
    var v := w.queue[0];
    var rest := w.queue[1..];
    var linked := LinkedNodes(grid, grid[v].links);
    var s := ScanLinks(linked, w.seen + {v});
    var r := SweepStep(grid, w);
    LinkedIds(grid, v);
    assert r.queue[|w.queue| - 1..] == s.pushed;
    forall k | k in Popped(r)
      ensures k in Popped(w) + {v}
    {
      assert k !in s.pushed && k !in rest;
      if k != v {
        assert w.queue == [v] + rest;
      }
    }
  }

  lemma SweepReachStep(grid: map<int, Node>, start: int, w: Sweep)
    requires Keyed(grid) && w.queue != [] && forall q :: q in w.queue ==> q in grid
    requires SweepReach(grid, start, w)
    ensures SweepReach(grid, start, SweepStep(grid, w))
  {
    var v := w.queue[0];
    var r := SweepStep(grid, w);
    SweepFacts(grid, w);
    assert v in w.queue;
    forall k | k in r.seen + QueueSet(r.queue)
      ensures k in grid && Reachable(grid, start, k)
    {
      if k in w.seen || k in w.queue {
      } else if k != v {
        assert forall x :: x in w.queue[1..] ==> x in w.queue;
        ReachStep(grid, start, v, k);
      }
    }
    assert start in r.seen + QueueSet(r.queue) by {
      if start in w.queue && start != v {
        var i :| 0 <= i < |w.queue| && w.queue[i] == start;
        assert r.queue[i - 1] == start;
      }
    }
  }

  lemma SweepCoveredStep(grid: map<int, Node>, w: Sweep)
    requires Keyed(grid) && w.queue != [] && forall q :: q in w.queue ==> q in grid
    requires Covered(grid, Popped(w), w.seen)
    ensures Covered(grid, Popped(SweepStep(grid, w)), SweepStep(grid, w).seen)
  {
    var v := w.queue[0];
    var r := SweepStep(grid, w);
    SweepFacts(grid, w);
    forall k, l | k in Popped(r) && k in grid && l in grid[k].links && l in grid
      ensures l in r.seen
    {
      if k != v {
        assert k in Popped(w);
      }
    }
  }

  lemma SweepBestStep(grid: map<int, Node>, w: Sweep)
    requires Keyed(grid) && w.queue != [] && forall q :: q in w.queue ==> q in grid
    requires SweepBest(grid, w)
    ensures SweepBest(grid, SweepStep(grid, w))
  {
    var v := w.queue[0];
    assert v in w.queue;
    SweepFacts(grid, w);
    SweepKept(grid, w);
    BestUpdate(grid, w, v, ExitLinks(grid, v), SweepStep(grid, w));
  }

  /** How a turn updates the kept nodes and the highest count, by the popped node's gateway links. */
  lemma SweepKept(grid: map<int, Node>, w: Sweep)
    requires Keyed(grid) && w.queue != [] && forall q :: q in w.queue ==> q in grid
    ensures var v := w.queue[0];
      var r := SweepStep(grid, w);
      var count := ExitLinks(grid, v);
      && (count < w.highest ==> r.nodes == w.nodes && r.highest == w.highest)
      && (count > w.highest ==> r.nodes == [v] && r.highest == count)
      && (count == w.highest ==> r.nodes == (if v in w.nodes then w.nodes else w.nodes + [v]) && r.highest == count)
  {
    var v := w.queue[0];
    assert v in w.queue;
  }

  /** The bookkeeping of the kept nodes after popping `v`, which has `count` gateway links. */
  lemma BestUpdate(grid: map<int, Node>, w: Sweep, v: int, count: nat, r: Sweep)
    requires SweepBest(grid, w)
    requires v in grid && count == ExitLinks(grid, v)
    requires w.seen + {v} <= r.seen && Popped(r) <= Popped(w) + {v}
    requires count < w.highest ==> r.nodes == w.nodes && r.highest == w.highest
    requires count > w.highest ==> r.nodes == [v] && r.highest == count
    requires count == w.highest ==> r.nodes == (if v in w.nodes then w.nodes else w.nodes + [v]) && r.highest == count
    ensures SweepBest(grid, r)
  {
    if count > w.highest {
      forall k | k in Popped(r) && k in grid
        ensures ExitLinks(grid, k) <= r.highest
        ensures ExitLinks(grid, k) == r.highest ==> k in r.nodes
      {
        assert k == v || k in Popped(w);
      }
    } else if count == w.highest && v !in w.nodes {
      forall i, j | 0 <= i < j < |r.nodes|
        ensures r.nodes[i] != r.nodes[j]
      {
        if j == |w.nodes| {
          assert r.nodes[i] == w.nodes[i];
        }
      }
    }
  }

  /**
   * What the outer loop ends with: distinct reachable nodes having the
   * highest number of gateway links, and every node it reached has at most
   * that many, the ones with exactly that many being listed.
   */
  lemma {:induction false} MoreExitsSound(grid: map<int, Node>, start: int, w: Sweep)
    requires Keyed(grid) && (forall q :: q in w.queue ==> q in grid) && Swept(grid, start, w)
    ensures MostExits(grid, start, MoreExits(grid, w))
    decreases |grid.Keys - w.seen| + |w.queue|
  {
    if w.queue == [] {
      assert Popped(w) == w.seen;
      forall k | Reachable(grid, start, k)
        ensures k in w.seen
      {
        var p :| Walk(grid, p) && p[0] == start && p[|p| - 1] == k;
        WalkStaysInside(grid, w.seen, p);
      }
    } else {
      var r := SweepStep(grid, w);
      SweepReachStep(grid, start, w);
      SweepCoveredStep(grid, w);
      SweepBestStep(grid, w);
      MoreExitsSound(grid, start, r);
    }
  }

  /** The promise of `get_nodes_with_more_exits`, from a start that is a node. */
  ghost predicate MostExits(grid: map<int, Node>, start: int, r: (seq<int>, nat))
  {
    var (nodes, highest) := r;
    && nodes != []
    && (forall i, j :: 0 <= i < j < |nodes| ==> nodes[i] != nodes[j])
    && (forall k :: k in nodes ==> k in grid && Reachable(grid, start, k) && ExitLinks(grid, k) == highest)
    && (forall k :: Reachable(grid, start, k) ==> k in grid && ExitLinks(grid, k) <= highest)
    && (forall k :: Reachable(grid, start, k) && ExitLinks(grid, k) == highest ==> k in nodes)
  }

  predicate Distinct(s: seq<int>)
  {
    forall i, j :: 0 <= i < j < |s| ==> s[i] != s[j]
  }

  /** The nodes the outer loop pops from here on, in the order it pops them. */
  function Visits(grid: map<int, Node>, w: Sweep): (r: seq<int>)
    requires Keyed(grid) && forall q :: q in w.queue ==> q in grid
    ensures forall k :: k in r ==> k in grid
    ensures r == [] <==> w.queue == []
    decreases |grid.Keys - w.seen| + |w.queue|
  {
    if w.queue == [] then [] else [w.queue[0]] + Visits(grid, SweepStep(grid, w))
  }

  /** The nodes of `s` that have exactly `h` gateway links, in the order of `s`. */
  function AtCount(grid: map<int, Node>, s: seq<int>, h: nat): (r: seq<int>)
    ensures forall k :: k in r <==> k in s && k in grid && ExitLinks(grid, k) == h
    ensures |r| <= |s|
  {
    if s == [] then []
    else
      assert s == [s[0]] + s[1..];
      (if s[0] in grid && ExitLinks(grid, s[0]) == h then [s[0]] else []) + AtCount(grid, s[1..], h)
  }

  /** `acc` followed by the entries of `s` that are not listed before them, in the order of `s`. */
  function Dedup(acc: seq<int>, s: seq<int>): (r: seq<int>)
    ensures forall k :: k in r <==> k in acc || k in s
    ensures Distinct(acc) ==> Distinct(r)
    decreases |s|
  {
    if s == [] then acc
    else
      assert s == [s[0]] + s[1..];
      Dedup(if s[0] in acc then acc else acc + [s[0]], s[1..])
  }

  lemma {:induction false} AtCountConcat(grid: map<int, Node>, a: seq<int>, b: seq<int>, h: nat)
    ensures AtCount(grid, a + b, h) == AtCount(grid, a, h) + AtCount(grid, b, h)
  {
    if a != [] {
      assert (a + b)[1..] == a[1..] + b;
      AtCountConcat(grid, a[1..], b, h);
    } else {
      assert a + b == b;
    }
  }

  lemma {:induction false} AtCountAll(grid: map<int, Node>, s: seq<int>, h: nat)
    requires forall k :: k in s ==> k in grid && ExitLinks(grid, k) == h
    ensures AtCount(grid, s, h) == s
  {
    if s != [] {
      var first := s[0];
      assert first in s;
      assert first in grid && ExitLinks(grid, first) == h;
      assert forall k :: k in s[1..] ==> k in s;
      AtCountAll(grid, s[1..], h);
      assert s == [s[0]] + s[1..];
    }
  }

  lemma AtCountNone(grid: map<int, Node>, s: seq<int>, h: nat)
    requires forall k :: k in s ==> k in grid && ExitLinks(grid, k) != h
    ensures AtCount(grid, s, h) == []
  {
  }

  lemma {:induction false} DedupConcat(acc: seq<int>, a: seq<int>, b: seq<int>)
    ensures Dedup(acc, a + b) == Dedup(Dedup(acc, a), b)
    decreases |a|
  {
    if a != [] {
      assert (a + b)[0] == a[0] && (a + b)[1..] == a[1..] + b;
      DedupConcat(if a[0] in acc then acc else acc + [a[0]], a[1..], b);
    } else {
      assert a + b == b;
    }
  }

  /** With nothing repeated, deduplication keeps every entry. */
  lemma {:induction false} DedupDistinct(acc: seq<int>, s: seq<int>)
    requires Distinct(acc + s)
    ensures Dedup(acc, s) == acc + s
    decreases |s|
  {
    if s != [] {
      assert (acc + s)[|acc|] == s[0];
      assert forall i :: 0 <= i < |acc| ==> acc[i] == (acc + s)[i];
      assert s[0] !in acc;
      assert (acc + [s[0]]) + s[1..] == acc + s;
      DedupDistinct(acc + [s[0]], s[1..]);
    } else {
      assert acc + s == acc;
    }
  }

  /** The loop never lowers the highest count. */
  lemma {:induction false} HighestGrows(grid: map<int, Node>, w: Sweep)
    requires Keyed(grid) && forall q :: q in w.queue ==> q in grid
    ensures MoreExits(grid, w).1 >= w.highest
    decreases |grid.Keys - w.seen| + |w.queue|
  {
    if w.queue != [] {
      SweepKept(grid, w);
      HighestGrows(grid, SweepStep(grid, w));
    }
  }

  /** The kept nodes are distinct and each has `highest` gateway links. */
  ghost predicate Level(grid: map<int, Node>, w: Sweep)
  {
    Distinct(w.nodes) && forall k :: k in w.nodes ==> k in grid && ExitLinks(grid, k) == w.highest
  }

  lemma LevelStep(grid: map<int, Node>, w: Sweep)
    requires Keyed(grid) && w.queue != [] && forall q :: q in w.queue ==> q in grid
    requires Level(grid, w)
    ensures Level(grid, SweepStep(grid, w))
  {
    var v := w.queue[0];
    var r := SweepStep(grid, w);
    assert v in w.queue;
    SweepKept(grid, w);
    if ExitLinks(grid, v) == w.highest && v !in w.nodes {
      forall i, j | 0 <= i < j < |r.nodes|
        ensures r.nodes[i] != r.nodes[j]
      {
        if j == |w.nodes| {
          assert r.nodes[i] == w.nodes[i];
        }
      }
    }
  }

  /**
   * Seen at a count `h` the loop reaches, one turn that pops `v` keeps the
   * nodes listed so far followed by `v`.
   */
  lemma KeptOrder(grid: map<int, Node>, nodes: seq<int>, highest: nat, v: int, next: seq<int>, nextHighest: nat, h: nat)
    requires v in grid && Distinct(nodes) && Distinct(next) && h >= nextHighest
    requires forall k :: k in nodes ==> k in grid && ExitLinks(grid, k) == highest
    requires ExitLinks(grid, v) < highest ==> next == nodes && nextHighest == highest
    requires ExitLinks(grid, v) > highest ==> next == [v] && nextHighest == ExitLinks(grid, v)
    requires ExitLinks(grid, v) == highest ==> next == (if v in nodes then nodes else nodes + [v]) && nextHighest == highest
    ensures Dedup([], AtCount(grid, next, h)) == Dedup([], AtCount(grid, nodes + [v], h))
  {
    var c := ExitLinks(grid, v);
    AtCountConcat(grid, nodes, [v], h);
    if c < highest {
      assert AtCount(grid, [v], h) == [];
      assert AtCount(grid, nodes, h) + [] == AtCount(grid, nodes, h);
    } else if c > highest {
      AtCountNone(grid, nodes, h);
      assert [] + AtCount(grid, [v], h) == AtCount(grid, [v], h);
    } else if h == c {
      AtCountAll(grid, nodes + [v], h);
      AtCountAll(grid, next, h);
      assert [] + next == next;
      DedupDistinct([], next);
      if v in nodes {
        assert [] + nodes == nodes;
        DedupDistinct([], nodes);
        DedupConcat([], nodes, [v]);
      } else {
        assert [] + (nodes + [v]) == nodes + [v];
        DedupDistinct([], nodes + [v]);
      }
    } else {
      AtCountNone(grid, nodes + [v], h);
      AtCountNone(grid, next, h);
    }
  }

  /** Lists that agree at count `h` still agree with the same nodes appended. */
  lemma ConcatOrder(grid: map<int, Node>, a: seq<int>, nodes: seq<int>, v: int, later: seq<int>, h: nat)
    requires Dedup([], AtCount(grid, a, h)) == Dedup([], AtCount(grid, nodes + [v], h))
    ensures Dedup([], AtCount(grid, a + later, h)) == Dedup([], AtCount(grid, nodes + ([v] + later), h))
  {
    var b := nodes + [v];
    assert nodes + ([v] + later) == b + later;
    AtCountConcat(grid, a, later, h);
    AtCountConcat(grid, b, later, h);
    DedupConcat([], AtCount(grid, a, h), AtCount(grid, later, h));
    DedupConcat([], AtCount(grid, b, h), AtCount(grid, later, h));
  }

  /**
   * The loop lists the nodes at the highest count in the order it first pops
   * them: the kept nodes, then the nodes still to be popped.
   */
  lemma {:induction false} MoreExitsOrder(grid: map<int, Node>, w: Sweep)
    requires Keyed(grid) && (forall q :: q in w.queue ==> q in grid) && Level(grid, w)
    ensures MoreExits(grid, w).0 == Dedup([], AtCount(grid, w.nodes + Visits(grid, w), MoreExits(grid, w).1))
    decreases |grid.Keys - w.seen| + |w.queue|
  {
    if w.queue == [] {
      OrderDone(grid, w.nodes, w.highest);
    } else {
      var h := MoreExits(grid, w).1;
      var r := SweepStep(grid, w);
      assert w.queue[0] in w.queue;
      MoreExitsStep(grid, w);
      HighestGrows(grid, r);
      OrderTurn(grid, w, h);
      LevelStep(grid, w);
      MoreExitsOrder(grid, r);
    }
  }

  /** Kept nodes that are distinct and all at count `h` are listed as they are. */
  lemma OrderDone(grid: map<int, Node>, nodes: seq<int>, h: nat)
    requires Distinct(nodes) && forall k :: k in nodes ==> k in grid && ExitLinks(grid, k) == h
    ensures nodes == Dedup([], AtCount(grid, nodes + [], h))
  {
    AtCountAll(grid, nodes, h);
    assert nodes + [] == nodes && [] + nodes == nodes;
    DedupDistinct([], nodes);
  }

  /** One turn moves the popped node from the nodes still to visit to the end of the kept ones, which lists the same nodes at count `h`. */
  lemma OrderTurn(grid: map<int, Node>, w: Sweep, h: nat)
    requires Keyed(grid) && w.queue != [] && (forall q :: q in w.queue ==> q in grid) && Level(grid, w)
    requires h >= SweepStep(grid, w).highest
    ensures var r := SweepStep(grid, w);
      Dedup([], AtCount(grid, r.nodes + Visits(grid, r), h)) == Dedup([], AtCount(grid, w.nodes + Visits(grid, w), h))
  {
    var v := w.queue[0];
    var r := SweepStep(grid, w);
    var later := Visits(grid, r);
    assert Visits(grid, w) == [v] + later;
    assert v in w.queue;
    LevelStep(grid, w);
    SweepKept(grid, w);
    KeptOrder(grid, w.nodes, w.highest, v, r.nodes, r.highest, h);
    ConcatOrder(grid, r.nodes, w.nodes, v, later, h);
  }

  /** Deduplication only appends to what is listed already. */
  lemma {:induction false} DedupKeepsAcc(acc: seq<int>, s: seq<int>)
    ensures |Dedup(acc, s)| >= |acc| && Dedup(acc, s)[..|acc|] == acc
    decreases |s|
  {
    if s != [] {
      var next := if s[0] in acc then acc else acc + [s[0]];
      DedupKeepsAcc(next, s[1..]);
      assert next[..|acc|] == acc;
    }
  }

  /** The first node listed at count `h` is the first node of `s` having `h` gateway links. */
  lemma {:induction false} AtCountFirst(grid: map<int, Node>, s: seq<int>, h: nat)
    requires AtCount(grid, s, h) != []
    ensures exists i :: (0 <= i < |s| && s[i] == AtCount(grid, s, h)[0]
      && forall j :: 0 <= j < i ==> !(s[j] in grid && ExitLinks(grid, s[j]) == h))
  {
    assert s != [];
    var first := s[0];
    if first in grid && ExitLinks(grid, first) == h {
      assert s[0] == AtCount(grid, s, h)[0];
    } else {
      assert AtCount(grid, s, h) == AtCount(grid, s[1..], h);
      AtCountFirst(grid, s[1..], h);
      var i :| 0 <= i < |s[1..]| && s[1..][i] == AtCount(grid, s[1..], h)[0]
        && forall j :: 0 <= j < i ==> !(s[1..][j] in grid && ExitLinks(grid, s[1..][j]) == h);
      assert s[i + 1] == AtCount(grid, s, h)[0];
      forall j | 0 <= j < i + 1
        ensures !(s[j] in grid && ExitLinks(grid, s[j]) == h)
      {
        if j > 0 {
          assert s[j] == s[1..][j - 1];
        }
      }
    }
  }

  /** `k` is the first node of `s` having `h` gateway links. */
  ghost predicate FirstAt(grid: map<int, Node>, s: seq<int>, k: int, h: nat)
  {
    exists i :: 0 <= i < |s| && s[i] == k && forall j :: 0 <= j < i ==> !(s[j] in grid && ExitLinks(grid, s[j]) == h)
  }

  /** The first listed node of `s` at count `h` is the first node of `s` with `h` gateway links. */
  lemma ListedFirst(grid: map<int, Node>, s: seq<int>, h: nat)
    requires Dedup([], AtCount(grid, s, h)) != []
    ensures FirstAt(grid, s, Dedup([], AtCount(grid, s, h))[0], h)
  {
    var listed := AtCount(grid, s, h);
    assert listed != [];
    var none: seq<int> := [];
    assert none + [listed[0]] == [listed[0]];
    assert Dedup([], listed) == Dedup([listed[0]], listed[1..]);
    DedupKeepsAcc([listed[0]], listed[1..]);
    AtCountFirst(grid, s, h);
  }

  /**
   * `nodes[0]`, the node whose link `main` cuts toward, is the first node the
   * loop visits that has the highest gateway-link count.
   */
  lemma MoreExitsFirst(grid: map<int, Node>, start: int)
    requires Keyed(grid) && start in grid
    ensures MoreExitsFrom(grid, start).0 != []
    ensures FirstAt(grid, Visits(grid, Sweep([start], {}, [], 0)), MoreExitsFrom(grid, start).0[0], MoreExitsFrom(grid, start).1)
  {
    var r := MoreExitsFrom(grid, start);
    var visits := Visits(grid, Sweep([start], {}, [], 0));
    assert r.0 == Dedup([], AtCount(grid, visits, r.1)) && r.0 != [];
    ListedFirst(grid, visits, r.1);
  }

  /**
   * Popping the last entry of `back` when it is no gateway: the search goes on
   * from the queue with that entry's links in front.
   */
  lemma BackPop(grid: map<int, Node>, front: seq<Visit>, back: seq<Visit>, seen: set<int>)
    requires Keyed(grid) && forall v :: v in front + back ==> v.node in grid
    requires back != [] && !grid[back[|back| - 1].node].isExit
    ensures var b := back[|back| - 1];
      var marked := seen + {b.node};
      Closest(grid, front + back, seen) == Closest(grid, (Expand(grid, b.node, marked) + front) + back[..|back| - 1], marked)
  {
    var b := back[|back| - 1];
    var found := Expand(grid, b.node, seen + {b.node});
    DropLastConcat(front, back);
    assert found + (front + back[..|back| - 1]) == (found + front) + back[..|back| - 1];
    ClosestPop(grid, front + back, seen);
  }

  /**
   * The links of the start are popped before anything queued behind them:
   * while one of the entries at the back of the queue, all reached from
   * `si`, is a gateway, the search stops at one of them.
   */
  lemma {:induction false} BackFirst(grid: map<int, Node>, front: seq<Visit>, back: seq<Visit>, seen: set<int>, si: int)
    requires Keyed(grid) && forall v :: v in front + back ==> v.node in grid
    requires forall v :: v in back ==> v.parent == Some(si)
    requires exists v :: v in back && grid[v.node].isExit
    ensures Closest(grid, front + back, seen).Some? && Closest(grid, front + back, seen).value.0 == Some(si)
    decreases |back|
  {
    var b := back[|back| - 1];
    if grid[b.node].isExit {
      assert (front + back)[|front + back| - 1] == b;
    } else {
      var marked := seen + {b.node};
      BackPop(grid, front, back, seen);
      var init := back[..|back| - 1];
      assert forall v :: v in init ==> v in back;
      var e :| e in back && grid[e.node].isExit;
      InDropLast(back, e);
      BackFirst(grid, Expand(grid, b.node, marked) + front, init, marked, si);
    }
  }

  /** When the agent's node links to a gateway, the search returns a link out of the agent's node. */
  lemma AdjacentGatewayFirst(grid: map<int, Node>, si: int, e: int)
    requires Keyed(grid) && si in grid && !grid[si].isExit
    requires e in grid[si].links && e in grid && grid[e].isExit
    ensures ClosestFrom(grid, si).Some? && ClosestFrom(grid, si).value.0 == Some(si)
  {
    var queue := [Visit(si, None)];
    var none: set<int> := {};
    var marked := none + {si};
    var found := Expand(grid, si, marked);
    assert ClosestFrom(grid, si) == Closest(grid, queue, none);
    ClosestPop(grid, queue, none);
    assert queue[..0] == [];
    assert found + queue[..0] == [] + found;
    assert Visit(e, Some(si)) in found;
    BackFirst(grid, [], found, marked, si);
  }

  /** Why a turn cannot produce a cut: the panics of the bot's main loop. */
  datatype CutFailure =
    | NotFound        // the search found no gateway (or the node is unknown)
    | NoParent        // the agent stands on a gateway: the link has no left end
    | NoNodeWithExit  // `get_nodes_with_more_exits` returned nothing

  /** Episode 1: cut the link the search returns. */
  function CutEpisode1(grid: map<int, Node>, si: int): (r: Result<(int, int), CutFailure>)
    requires Keyed(grid)
    ensures r.Err? <==> si !in grid || NoExitReachable(grid, si)
    ensures r.Ok? ==> var (a, b) := r.value;
      && b in grid && grid[b].isExit && Reachable(grid, si, b)
      && ((a == si && b == si) || (a in grid && !grid[a].isExit && b in grid[a].links && Reachable(grid, si, a)))
    ensures r.Ok? ==> NearestExit(grid, si, r.value.1)
  {
    match StartAsParent(ClosestFrom(grid, si), si)
    case None => Err(NotFound)
    case Some(link) => Ok(link)
  }

  /** `to_known_link_or_panic` applied to a search result that must exist. */
  function KnownLink(link: Option<(Option<int>, int)>): (r: Result<(int, int), CutFailure>)
    ensures r.Ok? <==> link.Some? && link.value.0.Some?
    ensures r.Ok? ==> r.value == (link.value.0.value, link.value.1)
  {
    match link
    case None => Err(NotFound)
    case Some((None, _)) => Err(NoParent)
    case Some((Some(p), e)) => Ok((p, e))
  }

  /**
   * Episode 2: cut the link next to the agent when the closest gateway is
   * one step away; otherwise cut the link the search returns from the first
   * reachable node having the most gateway links.
   */
  function CutEpisode2(grid: map<int, Node>, si: int): (r: Result<(int, int), CutFailure>)
    requires Keyed(grid)
    ensures r.Ok? ==> var (a, b) := r.value;
      && a in grid && !grid[a].isExit && b in grid[a].links && b in grid && grid[b].isExit
    ensures si !in grid || NoExitReachable(grid, si) ==> r == Err(NotFound)
    ensures si in grid && grid[si].isExit ==> r == Err(NoParent)
    ensures si in grid && !grid[si].isExit && AdjacentExit(grid, si) ==>
      r.Ok? && r.value.0 == si && NearestExit(grid, si, r.value.1)
    ensures si in grid && !grid[si].isExit && !AdjacentExit(grid, si) && !NoExitReachable(grid, si) ==>
      var (nodes, highest) := MoreExitsFrom(grid, si);
      && nodes != [] && nodes[0] in grid && Reachable(grid, si, nodes[0]) && ExitLinks(grid, nodes[0]) == highest
      && (r.Err? <==> grid[nodes[0]].isExit || NoExitReachable(grid, nodes[0]))
      && (r.Ok? ==> r.value.0 != si && NearestExit(grid, nodes[0], r.value.1))
  {
    AdjacentExitFirst(grid, si);
    match KnownLink(ClosestFrom(grid, si))
    case Err(f) => Err(f)
    case Ok((p, e)) =>
      if p == si then Ok((p, e))
      else
        CutSecondChoice(grid, si);
        var (nodes, _) := MoreExitsFrom(grid, si);
        if nodes == [] then Err(NoNodeWithExit)
        else KnownLink(ClosestFrom(grid, nodes[0]))
  }

  /** Some link of `si` leads into a gateway. */
  ghost predicate AdjacentExit(grid: map<int, Node>, si: int)
    requires si in grid
  {
    exists e :: e in grid[si].links && e in grid && grid[e].isExit
  }

  /**
   * The search from a node that is no gateway returns a link out of that node
   * exactly when one of its links leads into a gateway.
   */
  lemma AdjacentExitFirst(grid: map<int, Node>, si: int)
    requires Keyed(grid)
    ensures si in grid && !grid[si].isExit ==>
      (ClosestFrom(grid, si).Some? && ClosestFrom(grid, si).value.0 == Some(si) <==> AdjacentExit(grid, si))
  {
    if si in grid && !grid[si].isExit && AdjacentExit(grid, si) {
      var e :| e in grid[si].links && e in grid && grid[e].isExit;
      AdjacentGatewayFirst(grid, si, e);
    }
  }

  /** The node episode 2 searches from when no gateway is next to the agent, and why its search can fail. */
  lemma CutSecondChoice(grid: map<int, Node>, si: int)
    requires Keyed(grid) && si in grid
    ensures var (nodes, highest) := MoreExitsFrom(grid, si);
      && nodes != [] && nodes[0] in grid && Reachable(grid, si, nodes[0]) && ExitLinks(grid, nodes[0]) == highest
      && (KnownLink(ClosestFrom(grid, nodes[0])).Err? <==> grid[nodes[0]].isExit || NoExitReachable(grid, nodes[0]))
  {
    var (nodes, highest) := MoreExitsFrom(grid, si);
    assert nodes[0] in nodes;
  }

  /** A gateway next to the agent: both episodes cut a link from the agent's node into a gateway. */
  lemma AdjacentGatewayCut(grid: map<int, Node>, si: int, e: int)
    requires Keyed(grid) && si in grid && !grid[si].isExit
    requires e in grid[si].links && e in grid && grid[e].isExit
    ensures CutEpisode1(grid, si).Ok? && CutEpisode1(grid, si).value.0 == si
    ensures CutEpisode2(grid, si).Ok? && CutEpisode2(grid, si).value.0 == si
    ensures CutEpisode1(grid, si) == CutEpisode2(grid, si)
  {
    AdjacentGatewayFirst(grid, si, e);
  }
}
