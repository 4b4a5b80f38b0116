/**
 The iterators over an EVIO structure tree: depth first with a stack, breadth first with a queue, of
 ranges of siblings.
 */
module TreeIterators {

  datatype Tree = Node(id: int, children: seq<Tree>)

  // ------------------------------------------------------------------ The orders

  function PreOrder(t: Tree): (s: seq<Tree>)
    decreases t
  {
    [t] + PreOrders(t.children)
  }

  function PreOrders(ts: seq<Tree>): (s: seq<Tree>)
    decreases ts
  {
    if ts == [] then [] else PreOrder(ts[0]) + PreOrders(ts[1..])
  }

  /** The children of all these nodes, in order: the next level. */
  function Kids(ts: seq<Tree>): (s: seq<Tree>)
  {
    if ts == [] then [] else Kids(ts[..|ts| - 1]) + ts[|ts| - 1].children
  }

  lemma {:induction false} KidsFirst(ts: seq<Tree>)
    requires ts != []
    ensures Kids(ts) == ts[0].children + Kids(ts[1..])
  {
    if |ts| > 1 {
      KidsFirst(ts[..|ts| - 1]);
      assert ts[..|ts| - 1][1..] == ts[1..][..|ts| - 2];
    }
  }

  lemma {:induction false} PreOrdersConcat(xs: seq<Tree>, ys: seq<Tree>)
    ensures PreOrders(xs + ys) == PreOrders(xs) + PreOrders(ys)
  {
    if xs == [] {
      assert xs + ys == ys;
    } else {
      assert (xs + ys)[1..] == xs[1..] + ys;
      PreOrdersConcat(xs[1..], ys);
    }
  }

  /** A forest is its roots and what is under them. */
  lemma {:induction false} RootsAndRest(ts: seq<Tree>)
    ensures multiset(PreOrders(ts)) == multiset(ts) + multiset(PreOrders(Kids(ts)))
  {
    if ts != [] {
      RootsAndRest(ts[1..]);
      KidsFirst(ts);
      PreOrdersConcat(ts[0].children, Kids(ts[1..]));
      assert ts == [ts[0]] + ts[1..];
    }
  }

  lemma FewerBelow(ts: seq<Tree>)
    ensures |PreOrders(ts)| == |ts| + |PreOrders(Kids(ts))|
  {
    RootsAndRest(ts);
    assert |multiset(PreOrders(ts))| == |PreOrders(ts)| && |multiset(ts)| == |ts|;
    assert |multiset(PreOrders(Kids(ts)))| == |PreOrders(Kids(ts))|;
  }

  /** Level order: these nodes, then the levels below them. */
  function Levels(ts: seq<Tree>): (s: seq<Tree>)
    decreases |PreOrders(ts)|
  {
    if ts == [] then [] else
      FewerBelow(ts);
      ts + Levels(Kids(ts))
  }

  lemma LevelsOnce(ts: seq<Tree>)
    requires ts != []
    ensures Levels(ts) == ts + Levels(Kids(ts))
  {
  }

  /** Level order and pre-order have the same nodes, each as often: every node of the tree once. */
  lemma {:induction false} SameNodes(ts: seq<Tree>)
    ensures multiset(Levels(ts)) == multiset(PreOrders(ts))
    decreases |PreOrders(ts)|
  {
    if ts != [] {
      FewerBelow(ts);
      SameNodes(Kids(ts));
      RootsAndRest(ts);
    }
  }

  /** The nodes d generations below these roots, found by descending each root in turn. */
  function AtDepth(ts: seq<Tree>, d: nat): (s: seq<Tree>)
    decreases ts
  {
    if ts == [] then []
    else (if d == 0 then [ts[0]] else AtDepth(ts[0].children, d - 1)) + AtDepth(ts[1..], d)
  }

  function UpToDepth(ts: seq<Tree>, n: nat): (s: seq<Tree>)
  {
    if n == 0 then [] else UpToDepth(ts, n - 1) + AtDepth(ts, n - 1)
  }

  lemma {:induction false} AtDepthZero(ts: seq<Tree>)
    ensures AtDepth(ts, 0) == ts
  {
    if ts != [] {
      AtDepthZero(ts[1..]);
    }
  }

  lemma {:induction false} AtDepthConcat(xs: seq<Tree>, ys: seq<Tree>, d: nat)
    ensures AtDepth(xs + ys, d) == AtDepth(xs, d) + AtDepth(ys, d)
  {
    if xs == [] {
      assert xs + ys == ys;
    } else {
      assert (xs + ys)[1..] == xs[1..] + ys;
      AtDepthConcat(xs[1..], ys, d);
    }
  }

  lemma {:induction false} AtDepthKids(ts: seq<Tree>, d: nat)
    ensures AtDepth(ts, d + 1) == AtDepth(Kids(ts), d)
  {
    if ts != [] {
      KidsFirst(ts);
      AtDepthConcat(ts[0].children, Kids(ts[1..]), d);
      AtDepthKids(ts[1..], d);
    }
  }

  lemma {:induction false} UpToDepthKids(ts: seq<Tree>, n: nat)
    ensures UpToDepth(ts, n + 1) == ts + UpToDepth(Kids(ts), n)
  {
    if n == 0 {
      AtDepthZero(ts);
      assert UpToDepth(ts, 1) == UpToDepth(ts, 0) + AtDepth(ts, 0);
    } else {
      UpToDepthKids(ts, n - 1);
      AtDepthKids(ts, n - 1);
    }
  }

  lemma {:induction false} UpToDepthNone(n: nat)
    ensures UpToDepth([], n) == []
  {
    if n > 0 {
      UpToDepthNone(n - 1);
    }
  }

  /** Level order lists the nodes by increasing depth, and within a depth from left to right. */
  lemma {:induction false} LevelsByDepth(ts: seq<Tree>, n: nat)
    requires n >= |PreOrders(ts)|
    ensures Levels(ts) == UpToDepth(ts, n)
    decreases n
  {
    if ts == [] {
      UpToDepthNone(n);
    } else {
      FewerBelow(ts);
      LevelsOnce(ts);
      LevelsByDepth(Kids(ts), n - 1);
      UpToDepthKids(ts, n - 1);
    }
  }

  // ------------------------------------------------------------------ Ranges

  /** A pair of iterators over a vector of siblings: the current position, and the end of the vector. */
  datatype Range = Range(siblings: seq<Tree>, cur: nat)

  predicate NonEmpty(p: Range)
  {
    p.cur < |p.siblings|
  }

  function Rest(p: Range): (ts: seq<Tree>)
    requires NonEmpty(p)
  {
    p.siblings[p.cur..]
  }

  ghost predicate NoneEmpty(ps: seq<Range>)
  {
    forall i :: 0 <= i < |ps| ==> NonEmpty(ps[i])
  }

  /** The range that a node's children make, if it has any. */
  function RangeOf(t: Tree): (ps: seq<Range>)
    ensures NoneEmpty(ps)
  {
    if t.children == [] then [] else [Range(t.children, 0)]
  }

  /** A range is dropped before it becomes empty, otherwise moved on. */
  function MovedOn(p: Range): (ps: seq<Range>)
    requires NonEmpty(p)
    ensures NoneEmpty(ps)
  {
    if p.cur == |p.siblings| - 1 then [] else [p.(cur := p.cur + 1)]
  }

  // ------------------------------------------------------------------ Depth first

  /** What is still to come: the top of the stack, its last element, first. */
  function Unvisited(stack: seq<Range>): (ts: seq<Tree>)
    requires NoneEmpty(stack)
  {
    if stack == [] then [] else PreOrders(Rest(stack[|stack| - 1])) + Unvisited(stack[..|stack| - 1])
  }

  /** What is to come from at most one range. */
  function Under(ps: seq<Range>): (ts: seq<Tree>)
    requires NoneEmpty(ps)
  {
    if ps == [] then [] else PreOrders(Rest(ps[0]))
  }

  lemma UnvisitedPush(stack: seq<Range>, ps: seq<Range>)
    requires NoneEmpty(stack) && NoneEmpty(ps) && |ps| <= 1
    ensures NoneEmpty(stack + ps) && Unvisited(stack + ps) == Under(ps) + Unvisited(stack)
  {
    if ps == [] {
      assert stack + ps == stack;
    } else {
      assert (stack + ps)[..|stack|] == stack;
    }
  }

  /** What a range holds: its current node, what is under that, and the siblings after it. */
  lemma RangeStep(p: Range)
    requires NonEmpty(p)
    ensures PreOrders(Rest(p)) == [p.siblings[p.cur]] + (Under(RangeOf(p.siblings[p.cur])) + Under(MovedOn(p)))
  {
    var node := p.siblings[p.cur];
    assert Rest(p)[0] == node && Rest(p)[1..] == p.siblings[p.cur + 1..];
    assert PreOrders(Rest(p)) == [node] + PreOrders(node.children) + PreOrders(p.siblings[p.cur + 1..]);
    assert PreOrders(node.children) == Under(RangeOf(node));
    assert PreOrders(p.siblings[p.cur + 1..]) == Under(MovedOn(p));
  }

  /** One step: the next node is the first of what was to come, and the rest is what is to come then. */
  lemma DepthStep(below: seq<Range>, top: Range)
    requires NoneEmpty(below) && NonEmpty(top)
    ensures var node, was := top.siblings[top.cur], below + [top];
      var next := below + MovedOn(top) + RangeOf(node);
      NoneEmpty(was) && NoneEmpty(next) && Unvisited(was) == [node] + Unvisited(next)
  {
    var node := top.siblings[top.cur];
    UnvisitedPush(below, [top]);
    UnvisitedPush(below, MovedOn(top));
    UnvisitedPush(below + MovedOn(top), RangeOf(node));
    RangeStep(top);
    Regroup([node], Under(RangeOf(node)), Under(MovedOn(top)), Unvisited(below));
  }

  lemma Regroup(a: seq<Tree>, b: seq<Tree>, c: seq<Tree>, d: seq<Tree>)
    ensures (a + (b + c)) + d == a + (b + (c + d))
  {
  }

  lemma UnvisitedFirst(node: Tree)
    ensures Unvisited(RangeOf(node)) == PreOrders(node.children)
  {
    UnvisitedPush([], RangeOf(node));
    assert [] + RangeOf(node) == RangeOf(node);
  }

  /** Drop the top range or move it on, and put the children of its current node on top. */
  method StepStack(stack: seq<Range>) returns (node: Tree, stack': seq<Range>)
    requires NoneEmpty(stack) && stack != []
    ensures var top := stack[|stack| - 1];
      node == top.siblings[top.cur] && stack' == stack[..|stack| - 1] + MovedOn(top) + RangeOf(node)
  {
    var top := stack[|stack| - 1];
    node := top.siblings[top.cur];
    stack' := stack[..|stack| - 1];
    if top.cur != |top.siblings| - 1 {
      stack' := stack' + [top.(cur := top.cur + 1)];
    }
    if node.children != [] {
      stack' := stack' + [Range(node.children, 0)];
    }
  }

  class DepthIterator {
    var stack: seq<Range>
    var currentNode: Tree
    var isEnd: bool

    ghost predicate Valid()
      reads this
    {
      NoneEmpty(stack)
    }

    /** The nodes after the current one. */
    ghost function Pending(): (ts: seq<Tree>)
      reads this
      requires Valid()
    {
      Unvisited(stack)
    }

    constructor (node: Tree, isEnd: bool)
      ensures Valid() && currentNode == node && this.isEnd == isEnd && [node] + Pending() == PreOrder(node)
    {
      stack, currentNode, this.isEnd := RangeOf(node), node, isEnd;
      new;
      UnvisitedFirst(node);
    }

    /** The increment: on to the next node in pre-order, or to the end, which is never left. */
    method Increment()
      requires Valid()
      modifies this
      ensures Valid()
      ensures isEnd == (old(isEnd) || old(Pending()) == [])
      ensures if isEnd then currentNode == old(currentNode) && Pending() == old(Pending())
              else old(Pending()) == [currentNode] + Pending()
    {
      if isEnd {
        return;
      }
      if stack == [] {
        isEnd := true;
        return;
      }
      var top := stack[|stack| - 1];
      DepthStep(stack[..|stack| - 1], top);
      assert stack == stack[..|stack| - 1] + [top];
      currentNode, stack := StepStack(stack);
    }
  }

  /** Iterating from a node to the end iterator visits the tree in pre-order. */
  method WalkDepthFirst(t: Tree) returns (visited: seq<Tree>)
    ensures visited == PreOrder(t)
  {
    var it := new DepthIterator(t, false);
    visited := [];
    while !it.isEnd
      invariant it.Valid() && fresh(it)
      invariant PreOrder(t) == visited + if it.isEnd then [] else [it.currentNode] + it.Pending()
      decreases if it.isEnd then 0 else 1 + |it.Pending()|
    {
      visited := visited + [it.currentNode];
      it.Increment();
    }
  }

  // ------------------------------------------------------------------ Breadth first

  /** All that the ranges of the queue still hold. */
  function Queued(que: seq<Range>): (ts: seq<Tree>)
    requires NoneEmpty(que)
    ensures que != [] ==> ts != []
  {
    if que == [] then [] else Rest(que[0]) + Queued(que[1..])
  }

  lemma {:induction false} QueuedPush(que: seq<Range>, node: Tree)
    requires NoneEmpty(que)
    ensures NoneEmpty(que + RangeOf(node)) && Queued(que + RangeOf(node)) == Queued(que) + node.children
  {
    if que == [] {
      assert que + RangeOf(node) == RangeOf(node);
    } else {
      QueuedPush(que[1..], node);
      assert (que + RangeOf(node))[1..] == que[1..] + RangeOf(node);
    }
  }

  /** One step: the first node queued is taken and its children are queued last. */
  lemma BreadthStep(front: Range, behind: seq<Range>)
    requires NonEmpty(front) && NoneEmpty(behind)
    ensures var node, was := front.siblings[front.cur], [front] + behind;
      var next := MovedOn(front) + behind + RangeOf(node);
      && NoneEmpty(was) && NoneEmpty(next) && Queued(was)[0] == node
      && Queued(next) == Queued(was)[1..] + node.children
  {
    var node := front.siblings[front.cur];
    QueuedPush(MovedOn(front) + behind, node);
    assert ([front] + behind)[1..] == behind;
    if MovedOn(front) == [] {
      assert MovedOn(front) + behind == behind;
    } else {
      assert (MovedOn(front) + behind)[1..] == behind;
    }
  }

  /** The rest of this level followed by the children of the part behind us. */
  function Ahead(level: seq<Tree>, place: nat): (ts: seq<Tree>)
    requires place < |level|
  {
    level[place + 1..] + Kids(level[..place + 1])
  }

  /** What is to come on this level and on those below. */
  function Coming(level: seq<Tree>, place: nat): (ts: seq<Tree>)
    requires place < |level|
  {
    level[place + 1..] + Levels(Kids(level))
  }

  lemma NothingAhead(level: seq<Tree>, place: nat)
    requires place < |level|
    ensures Ahead(level, place) == [] <==> Coming(level, place) == []
  {
    if place + 1 == |level| {
      assert level[..place + 1] == level;
    }
  }

  /** Taking the first node ahead and queueing its children moves along the level, ... */
  lemma AlongLevel(level: seq<Tree>, place: nat)
    requires place + 1 < |level|
    ensures Ahead(level, place) != [] && Ahead(level, place)[0] == level[place + 1]
    ensures Ahead(level, place)[1..] + level[place + 1].children == Ahead(level, place + 1)
    ensures Coming(level, place) == [level[place + 1]] + Coming(level, place + 1)
  {
    var kids := Kids(level[..place + 1]);
    assert level[..place + 2][..place + 1] == level[..place + 1];
    assert Kids(level[..place + 2]) == kids + level[place + 1].children;
    assert Ahead(level, place)[1..] == level[place + 2..] + kids;
  }

  /** ... or from its end to the next one. */
  lemma NextLevel(level: seq<Tree>)
    requires level != [] && Kids(level) != []
    ensures Ahead(level, |level| - 1) == Kids(level)
    ensures Kids(level)[1..] + Kids(level)[0].children == Ahead(Kids(level), 0)
  {
    var kids := Kids(level);
    assert level[..|level|] == level;
    assert kids[..1][..0] == [];
    assert Kids(kids[..1]) == Kids([]) + kids[0].children;
  }

  lemma NextLevelComing(level: seq<Tree>)
    requires level != [] && Kids(level) != []
    ensures Coming(level, |level| - 1) == [Kids(level)[0]] + Coming(Kids(level), 0)
  {
    var kids := Kids(level);
    assert level[|level|..] == [];
    LevelsOnce(kids);
    FirstAndRest(kids, Levels(Kids(kids)));
  }

  lemma FirstAndRest(ts: seq<Tree>, below: seq<Tree>)
    requires ts != []
    ensures ts + below == [ts[0]] + (ts[1..] + below)
  {
  }

  /** The iterator on the root: nothing is queued but the children of the root. */
  lemma FirstLevel(node: Tree)
    ensures Queued(RangeOf(node)) == Ahead([node], 0)
    ensures [node] + Coming([node], 0) == Levels([node])
  {
    QueuedPush([], node);
    assert [] + RangeOf(node) == RangeOf(node);
    assert [node][..1] == [node] && [node][..0] == [];
    assert Kids([node]) == Kids([]) + node.children;
    LevelsOnce([node]);
    FirstAndRest([node], Levels(Kids([node])));
  }

  /** The queue flattens to the rest of this level followed by the children of the part behind us. */
  ghost predicate OnLevel(que: seq<Range>, level: seq<Tree>, place: nat, node: Tree)
  {
    NoneEmpty(que) && place < |level| && node == level[place] && Queued(que) == Ahead(level, place)
  }

  /** Where the next node is: further along the level, or at the start of the next one. */
  function LevelAfter(level: seq<Tree>, place: nat): (level': seq<Tree>)
  {
    if place + 1 < |level| then level else Kids(level)
  }

  function PlaceAfter(level: seq<Tree>, place: nat): (place': nat)
  {
    if place + 1 < |level| then place + 1 else 0
  }

  lemma LevelMove(level: seq<Tree>, place: nat)
    requires place < |level| && Ahead(level, place) != []
    ensures var level', place', ahead := LevelAfter(level, place), PlaceAfter(level, place), Ahead(level, place);
      && place' < |level'| && ahead[0] == level'[place'] && ahead[1..] + ahead[0].children == Ahead(level', place')
      && Coming(level, place) == [ahead[0]] + Coming(level', place')
  {
    if place + 1 < |level| {
      AlongLevel(level, place);
    } else {
      assert level[..|level|] == level;
      NextLevel(level);
      NextLevelComing(level);
    }
  }

  /** The step of the queue is a step along the levels. */
  lemma LevelStep(que: seq<Range>, level: seq<Tree>, place: nat, node: Tree)
    requires OnLevel(que, level, place, node) && que != []
    ensures var node' := que[0].siblings[que[0].cur];
      var que' := MovedOn(que[0]) + que[1..] + RangeOf(node');
      && OnLevel(que', LevelAfter(level, place), PlaceAfter(level, place), node')
      && Coming(level, place) == [node'] + Coming(LevelAfter(level, place), PlaceAfter(level, place))
  {
    assert que == [que[0]] + que[1..];
    BreadthStep(que[0], que[1..]);
    LevelMove(level, place);
  }

  /** Drop the front range or move it on, and put the children of its current node last. */
  method StepQueue(que: seq<Range>) returns (node: Tree, que': seq<Range>)
    requires NoneEmpty(que) && que != []
    ensures node == que[0].siblings[que[0].cur] && que' == MovedOn(que[0]) + que[1..] + RangeOf(node)
  {
    var front := que[0];
    node := front.siblings[front.cur];
    que' := que[1..];
    if front.cur != |front.siblings| - 1 {
      que' := [front.(cur := front.cur + 1)] + que';
    }
    if node.children != [] {
      que' := que' + [Range(node.children, 0)];
    }
  }

  class BreadthIterator {
    var que: seq<Range>
    var currentNode: Tree
    var isEnd: bool
    /** The level of the tree that the current node is on, and its place there. */
    ghost var level: seq<Tree>
    ghost var place: nat

    ghost predicate Valid()
      reads this
    {
      OnLevel(que, level, place, currentNode)
    }

    /** The nodes after the current one: the rest of its level, then the levels below. */
    ghost function Pending(): (ts: seq<Tree>)
      reads this
      requires Valid()
    {
      Coming(level, place)
    }

    constructor (node: Tree, isEnd: bool)
      ensures Valid() && currentNode == node && this.isEnd == isEnd && [node] + Pending() == Levels([node])
    {
      que, currentNode, this.isEnd := RangeOf(node), node, isEnd;
      level, place := [node], 0;
      new;
      FirstLevel(node);
    }

    /** The increment: on to the next node in level order, or to the end, which is never left. */
    method Increment()
      requires Valid()
      modifies this
      ensures Valid()
      ensures isEnd == (old(isEnd) || old(Pending()) == [])
      ensures if isEnd then currentNode == old(currentNode) && Pending() == old(Pending())
              else old(Pending()) == [currentNode] + Pending()
    {
      if isEnd {
        return;
      }
      NothingAhead(level, place);
      if que == [] {
        isEnd := true;
        return;
      }
      LevelStep(que, level, place, currentNode);
      currentNode, que := StepQueue(que);
      level, place := LevelAfter(level, place), PlaceAfter(level, place);
    }
  }

  /** Iterating from a node to the end iterator visits the tree level by level. */
  method WalkBreadthFirst(t: Tree) returns (visited: seq<Tree>)
    ensures visited == Levels([t])
  {
    var it := new BreadthIterator(t, false);
    visited := [];
    while !it.isEnd
      invariant it.Valid() && fresh(it)
      invariant Levels([t]) == visited + if it.isEnd then [] else [it.currentNode] + it.Pending()
      decreases if it.isEnd then 0 else 1 + |it.Pending()|
    {
      visited := visited + [it.currentNode];
      it.Increment();
    }
  }
}
