/**
 * Bidirectional breadth-first search between two puzzle states
 * (A3/solver.py).
 *
 * The puzzle is abstract: states of type `S` (compared by value), moves of
 * type `M`, a finite generator sequence `gens` (the cube's quarter twists),
 * `apply(m, s)` (perm_apply) and `invert(m)` (perm_inverse). The two
 * primitives are function parameters; what the search relies on, the
 * inverse law `apply(invert(m), apply(m, s)) == s`, is the predicate
 * `InverseLaw`, and for the shortest-path claim also that the generator set
 * is closed under `invert` (true of the quarter twists): `Symmetric`.
 *
 * A search node is immutable once built, so `node_info` is a datatype whose
 * parent link is either the root marker (Python's `(None, None)`) or the
 * move together with the node it was produced from.
 */
module Solver {
  import opened Wrappers

  /** A side whose frontier head is deeper than this is exhausted. */
  const MaxDepth: nat := 6

  datatype Link<S, M> = Root | Link(move: M, prev: Node<S, M>)

  /** `node_info(state, parent, order)`. */
  datatype Node<S, M> = Node(state: S, parent: Link<S, M>, order: nat)

  /**
   * What `shortest_path` can end with: a list of moves, `None`, or the
   * IndexError raised by `frontier[0]` once a frontier has run empty.
   */
  datatype Outcome<M> = Solution(moves: seq<M>) | NoSolution | EmptyFrontier

  // ---------------------------------------------------------------------------
  // The move algebra
  // ---------------------------------------------------------------------------

  /** The state reached by applying `moves` to `s`, first move first. */
  function Run<S, M>(apply: (M, S) -> S, moves: seq<M>, s: S): S
    decreases |moves|
  {
    if moves == [] then s else Run(apply, moves[1..], apply(moves[0], s))
  }

  predicate AllIn<M(==)>(moves: seq<M>, gens: seq<M>)
  {
    forall i :: 0 <= i < |moves| ==> moves[i] in gens
  }

  /** The collaborator's contract: a generator is undone by its inverse. */
  ghost predicate InverseLaw<S(!new), M>(gens: seq<M>, apply: (M, S) -> S, invert: M -> M)
  {
    forall m, s :: m in gens ==> apply(invert(m), apply(m, s)) == s
  }

  /** The inverse law, and every generator's inverse is a generator. */
  ghost predicate Symmetric<S(!new), M>(gens: seq<M>, apply: (M, S) -> S, invert: M -> M)
  {
    InverseLaw(gens, apply, invert) && forall m :: m in gens ==> invert(m) in gens
  }

  /** `t` is reached from `s` by exactly `k` generator moves. */
  ghost predicate Reach<S(!new), M(!new)>(gens: seq<M>, apply: (M, S) -> S, s: S, t: S, k: nat)
  {
    exists moves: seq<M> :: |moves| == k && AllIn(moves, gens) && Run(apply, moves, s) == t
  }

  /** `t` is exactly `k` generator moves away from `s`, and no fewer. */
  ghost predicate AtDistance<S(!new), M(!new)>(gens: seq<M>, apply: (M, S) -> S, s: S, t: S, k: nat)
  {
    Reach(gens, apply, s, t, k) && forall j :: 0 <= j < k ==> !Reach(gens, apply, s, t, j)
  }

  /** No move list of length at most `k` leads from `s` to `t`. */
  ghost predicate NoPathWithin<S(!new), M(!new)>(gens: seq<M>, apply: (M, S) -> S, s: S, t: S, k: int)
  {
    forall j :: 0 <= j <= k ==> !Reach(gens, apply, s, t, j)
  }

  /** Running two move lists one after the other is running their concatenation. */
  lemma {:induction false} RunAppend<S, M>(apply: (M, S) -> S, a: seq<M>, b: seq<M>, s: S)
    ensures Run(apply, a + b, s) == Run(apply, b, Run(apply, a, s))
    decreases |a|
  {
    if a == [] {
      assert a + b == b;
    } else {
      assert (a + b)[1..] == a[1..] + b;
      RunAppend(apply, a[1..], b, apply(a[0], s));
    }
  }

  /** Appending one move to a run applies that move last. */
  lemma RunSnoc<S, M>(apply: (M, S) -> S, a: seq<M>, m: M, s: S)
    ensures Run(apply, a + [m], s) == apply(m, Run(apply, a, s))
  {
    RunAppend(apply, a, [m], s);
  }

  /** The inverses of `moves`, last move first: the way back. */
  function InvertPath<M>(invert: M -> M, moves: seq<M>): (back: seq<M>)
    ensures |back| == |moves|
    decreases |moves|
  {
    if moves == [] then [] else InvertPath(invert, moves[1..]) + [invert(moves[0])]
  }

  /** Under the inverse law, `InvertPath(moves)` undoes `moves`. */
  lemma {:induction false} InvertPathUndoes<S(!new), M>(
    gens: seq<M>, apply: (M, S) -> S, invert: M -> M, moves: seq<M>, s: S)
    requires InverseLaw(gens, apply, invert) && AllIn(moves, gens)
    ensures Run(apply, InvertPath(invert, moves), Run(apply, moves, s)) == s
    ensures (forall m :: m in gens ==> invert(m) in gens) ==> AllIn(InvertPath(invert, moves), gens)
    decreases |moves|
  {
    if moves != [] {
      var m := moves[0];
      var rest := moves[1..];
      InvertPathUndoes(gens, apply, invert, rest, apply(m, s));
      RunSnoc(apply, InvertPath(invert, rest), invert(m), Run(apply, moves, s));
    }
  }

  lemma ReachZero<S(!new), M(!new)>(gens: seq<M>, apply: (M, S) -> S, s: S, t: S)
    ensures Reach(gens, apply, s, t, 0) <==> s == t
  {
    if s == t {
      assert Run(apply, [], s) == t;
    }
  }

  lemma ReachConcat<S(!new), M(!new)>(gens: seq<M>, apply: (M, S) -> S, a: S, b: S, c: S, i: nat, j: nat)
    requires Reach(gens, apply, a, b, i) && Reach(gens, apply, b, c, j)
    ensures Reach(gens, apply, a, c, i + j)
  {
    var p :| |p| == i && AllIn(p, gens) && Run(apply, p, a) == b;
    var q :| |q| == j && AllIn(q, gens) && Run(apply, q, b) == c;
    RunAppend(apply, p, q, a);
    assert AllIn(p + q, gens);
  }

  /** A path of length `k` passes, after `i` moves, through some state. */
  lemma ReachSplit<S(!new), M(!new)>(gens: seq<M>, apply: (M, S) -> S, s: S, t: S, k: nat, i: nat)
    returns (w: S)
    requires Reach(gens, apply, s, t, k) && i <= k
    ensures Reach(gens, apply, s, w, i) && Reach(gens, apply, w, t, k - i)
  {
    var p :| |p| == k && AllIn(p, gens) && Run(apply, p, s) == t;
    w := Run(apply, p[..i], s);
    assert p == p[..i] + p[i..];
    RunAppend(apply, p[..i], p[i..], s);
    assert AllIn(p[..i], gens) && AllIn(p[i..], gens);
  }

  /** With symmetric generators, distance does not depend on direction. */
  lemma ReachReverse<S(!new), M(!new)>(gens: seq<M>, apply: (M, S) -> S, invert: M -> M, s: S, t: S, k: nat)
    requires Symmetric(gens, apply, invert) && Reach(gens, apply, s, t, k)
    ensures Reach(gens, apply, t, s, k)
  {
    var p :| |p| == k && AllIn(p, gens) && Run(apply, p, s) == t;
    InvertPathUndoes(gens, apply, invert, p, s);
  }

  /** Any state reachable at all lies at some exact distance no larger. */
  lemma {:induction false} ShortestExists<S(!new), M(!new)>(gens: seq<M>, apply: (M, S) -> S, s: S, t: S, k: nat)
    returns (d: nat)
    requires Reach(gens, apply, s, t, k)
    ensures d <= k && AtDistance(gens, apply, s, t, d)
    decreases k
  {
    if j :| 0 <= j < k && Reach(gens, apply, s, t, j) {
      d := ShortestExists(gens, apply, s, t, j);
    } else {
      d := k;
    }
  }

  /**
   * Meet in the middle: on a shortest path of length a + b, the state after
   * `a` moves is exactly `a` from the start and exactly `b` from the end.
   */
  lemma MeetInMiddle<S(!new), M(!new)>(gens: seq<M>, apply: (M, S) -> S, invert: M -> M,
                                       start: S, end: S, a: nat, b: nat)
    returns (w: S)
    requires Symmetric(gens, apply, invert) && AtDistance(gens, apply, start, end, a + b)
    ensures AtDistance(gens, apply, start, w, a) && AtDistance(gens, apply, end, w, b)
  {
    w := ReachSplit(gens, apply, start, end, a + b, a);
    forall j | 0 <= j < a
      ensures !Reach(gens, apply, start, w, j)
    {
      if Reach(gens, apply, start, w, j) {
        ReachConcat(gens, apply, start, w, end, j, b);
      }
    }
    ReachReverse(gens, apply, invert, w, end, b);
    forall j | 0 <= j < b
      ensures !Reach(gens, apply, end, w, j)
    {
      if Reach(gens, apply, end, w, j) {
        ReachReverse(gens, apply, invert, end, w, j);
        ReachConcat(gens, apply, start, w, end, a, j);
      }
    }
  }

  /** A state at exact distance d + 1 is one generator away from a state at distance d. */
  lemma LastStep<S(!new), M(!new)>(gens: seq<M>, apply: (M, S) -> S, root: S, w: S, d: nat)
    returns (p: S, k: nat)
    requires AtDistance(gens, apply, root, w, d + 1)
    ensures AtDistance(gens, apply, root, p, d) && k < |gens| && w == apply(gens[k], p)
  {
    p := ReachSplit(gens, apply, root, w, d + 1, d);
    var q :| |q| == 1 && AllIn(q, gens) && Run(apply, q, p) == w;
    assert Run(apply, q[1..], apply(q[0], p)) == apply(q[0], p);
    k :| 0 <= k < |gens| && gens[k] == q[0];
    forall j | 0 <= j < d
      ensures !Reach(gens, apply, root, p, j)
    {
      if Reach(gens, apply, root, p, j) {
        ReachConcat(gens, apply, root, p, w, j, 1);
      }
    }
  }

  // ---------------------------------------------------------------------------
  // Search trees and frontiers
  // ---------------------------------------------------------------------------

  /**
   * `n` hangs off a root whose state is `root`: every link was made by a
   * generator, records the state that generator produces from the parent,
   * and is one deeper than the parent.
   */
  ghost predicate Rooted<S, M>(gens: seq<M>, apply: (M, S) -> S, n: Node<S, M>, root: S)
    decreases n
  {
    match n.parent
    case Root => n.order == 0 && n.state == root
    case Link(m, p) =>
      m in gens && n.order == p.order + 1 && n.state == apply(m, p.state) &&
      Rooted(gens, apply, p, root)
  }

  /** `n` was made from one of `parents` by a generator, one level deeper. */
  ghost predicate ChildOf<S, M>(gens: seq<M>, apply: (M, S) -> S, n: Node<S, M>, parents: seq<Node<S, M>>)
  {
    && n.parent.Link? && n.parent.prev in parents && n.parent.move in gens
    && n.state == apply(n.parent.move, n.parent.prev.state)
    && n.order == n.parent.prev.order + 1
  }

  /** The parent chain of a rooted node spells a path of its depth from the root. */
  lemma {:induction false} RootedReach<S(!new), M(!new)>(gens: seq<M>, apply: (M, S) -> S, n: Node<S, M>, root: S)
    requires Rooted(gens, apply, n, root)
    ensures Reach(gens, apply, root, n.state, n.order)
    decreases n
  {
    match n.parent
    case Root =>
      ReachZero(gens, apply, root, n.state);
    case Link(m, p) =>
      RootedReach(gens, apply, p, root);
      var q :| |q| == p.order && AllIn(q, gens) && Run(apply, q, root) == p.state;
      RunSnoc(apply, q, m, root);
      assert AllIn(q + [m], gens);
  }

  function States<S, M>(ns: seq<Node<S, M>>): seq<S>
  {
    seq(|ns|, i requires 0 <= i < |ns| => ns[i].state)
  }

  predicate Distinct<T(==)>(s: seq<T>)
  {
    forall i, j :: 0 <= i < j < |s| ==> s[i] != s[j]
  }

  /** A frontier whose orders never decrease and span at most two consecutive values. */
  predicate Layered<S, M>(frontier: seq<Node<S, M>>)
  {
    && (forall i, j :: 0 <= i < j < |frontier| ==> frontier[i].order <= frontier[j].order)
    && (forall i :: 0 <= i < |frontier| ==> frontier[i].order <= frontier[0].order + 1)
  }

  /**
   * One side of the search after `d` expansions: every frontier node hangs
   * off `root` at depth `d`; every state exactly `d` moves from `root` is on
   * the frontier; every visited state is at most `d` moves from `root`.
   */
  ghost predicate Side<S(!new), M(!new)>(gens: seq<M>, apply: (M, S) -> S,
                                         frontier: seq<Node<S, M>>, nodes: seq<S>, root: S, d: nat)
  {
    AllRooted(gens, apply, frontier, root, d) && HoldsLayer(gens, apply, frontier, root, d) &&
    AllWithin(gens, apply, nodes, root, d)
  }

  ghost predicate AllRooted<S, M>(gens: seq<M>, apply: (M, S) -> S, frontier: seq<Node<S, M>>, root: S, d: nat)
  {
    forall n :: n in frontier ==> Rooted(gens, apply, n, root) && n.order == d
  }

  /** Every state exactly `d` moves from `root` is on the frontier. */
  ghost predicate HoldsLayer<S(!new), M(!new)>(gens: seq<M>, apply: (M, S) -> S,
                                               frontier: seq<Node<S, M>>, root: S, d: nat)
  {
    forall w :: AtDistance(gens, apply, root, w, d) ==> w in States(frontier)
  }

  /** `w` is at most `d` moves from `root`. */
  ghost predicate Within<S(!new), M(!new)>(gens: seq<M>, apply: (M, S) -> S, root: S, w: S, d: nat)
  {
    exists j :: 0 <= j <= d && Reach(gens, apply, root, w, j)
  }

  ghost predicate AllWithin<S(!new), M(!new)>(gens: seq<M>, apply: (M, S) -> S, nodes: seq<S>, root: S, d: nat)
  {
    forall i :: 0 <= i < |nodes| ==> Within(gens, apply, root, nodes[i], d)
  }

  /**
   * The inner loop of `find_next_frontier`: apply every generator to
   * `current` and keep, as children of `current`, the resulting states not
   * yet visited, visiting each as it is kept.
   */
  method ExpandNode<S(==), M>(gens: seq<M>, apply: (M, S) -> S, current: Node<S, M>, nodes: seq<S>)
    returns (children: seq<Node<S, M>>, seen: seq<S>)
    ensures Expanded(gens, apply, current, nodes, children, seen)
    ensures children == Successors(gens, apply, current, nodes)
  {
    children := [];
    seen := nodes;
    for k := 0 to |gens|
      invariant children + Successors(gens[k..], apply, current, seen) == Successors(gens, apply, current, nodes)
      invariant forall n :: n in children ==>
                  && n.parent.Link? && n.parent.prev == current && n.parent.move in gens
                  && n.state == apply(n.parent.move, current.state) && n.order == current.order + 1
      invariant seen == nodes + States(children)
      invariant forall i :: 0 <= i < |children| ==> children[i].state !in nodes
      invariant Distinct(nodes) ==> Distinct(seen)
      invariant forall k' :: 0 <= k' < k ==> apply(gens[k'], current.state) in seen
    {
      var move := gens[k];
      var moveState := apply(move, current.state);
      assert gens[k..][0] == move && gens[k..][1..] == gens[k + 1..];
      if moveState !in seen {
        var newState := Node(moveState, Link(move, current), current.order + 1);
        StatesAppend(children, [newState]);
        ConcatAssoc(children, [newState], Successors(gens[k + 1..], apply, current, seen + [moveState]));
        children := children + [newState];
        seen := seen + [moveState];
      }
    }
    assert gens[|gens|..] == [];
  }

  /**
   * The children the inner loop of `find_next_frontier` appends, in
   * generator order: each generator whose successor state is not yet
   * visited contributes one node, and that state counts as visited for the
   * generators after it.
   */
  function Successors<S(==), M>(gens: seq<M>, apply: (M, S) -> S, current: Node<S, M>, seen: seq<S>): seq<Node<S, M>>
    decreases |gens|
  {
    if gens == [] then []
    else
      var state := apply(gens[0], current.state);
      if state in seen then Successors(gens[1..], apply, current, seen)
      else [Node(state, Link(gens[0], current), current.order + 1)] + Successors(gens[1..], apply, current, seen + [state])
  }

  /**
   * `children` are `current`'s one-move successors under generators, one
   * level deeper, none of whose states was in `nodes`; `seen` is `nodes`
   * followed by their states, holds no state twice if `nodes` did not, and
   * holds every successor of `current`.
   */
  ghost predicate Expanded<S, M>(gens: seq<M>, apply: (M, S) -> S, current: Node<S, M>, nodes: seq<S>,
                                 children: seq<Node<S, M>>, seen: seq<S>)
  {
    && (forall n :: n in children ==>
          && n.parent.Link? && n.parent.prev == current && n.parent.move in gens
          && n.state == apply(n.parent.move, current.state) && n.order == current.order + 1)
    && seen == nodes + States(children)
    && (forall i :: 0 <= i < |children| ==> children[i].state !in nodes)
    && (Distinct(nodes) ==> Distinct(seen))
    && (forall k :: 0 <= k < |gens| ==> apply(gens[k], current.state) in seen)
  }

  lemma ConcatAssoc<T>(a: seq<T>, b: seq<T>, c: seq<T>)
    ensures (a + b) + c == a + (b + c)
  {
  }

  lemma StatesAppend<S, M>(a: seq<Node<S, M>>, b: seq<Node<S, M>>)
    ensures States(a + b) == States(a) + States(b)
  {
  }

  /**
   * `find_next_frontier(frontier, nodes)`: pops every node at the head's
   * depth, applies each generator to it and appends, as one-deeper nodes,
   * the states not yet in `nodes`, recording them in `nodes` as it goes.
   * The deque and the list are updated in place in the source; here they
   * come in and go out as values. The ghost outputs name the number of nodes
   * taken off the front and the nodes made. `ok` is false when the frontier
   * ran empty, where the source's loop test `frontier[0]` raises IndexError.
   */
  method FindNextFrontier<S(==), M>(gens: seq<M>, apply: (M, S) -> S,
                                    frontier: seq<Node<S, M>>, nodes: seq<S>)
    returns (next: seq<Node<S, M>>, seen: seq<S>, ok: bool,
             ghost popped: nat, ghost added: seq<Node<S, M>>)
    requires |frontier| > 0
    // exactly the maximal run of head-depth nodes is popped
    ensures 0 < popped <= |frontier|
    ensures popped == |frontier| || frontier[popped].order != frontier[0].order
    // the rest stays in front of the new nodes
    ensures next == frontier[popped..] + added
    // the new nodes are one generator step below frontier nodes, the visited
    // list grows by exactly their states, and every neighbour of a popped node
    // is visited
    ensures Expanding(gens, apply, frontier, nodes, popped, added, seen, frontier[0].order)
    // in order: the children of each popped node in turn, in generator order
    ensures added == Expansion(gens, apply, frontier[..popped], nodes)
    ensures ok <==> |next| > 0
    // a layered frontier comes back holding one layer, one deeper
    ensures Layered(frontier) ==> forall n :: n in next ==> n.order == frontier[0].order + 1
  {
    var q := frontier;
    seen := nodes;
    var start := frontier[0].order;
    popped := 0;
    added := [];
    while |q| > 0 && start == q[0].order
      invariant 0 <= popped <= |frontier|
      invariant q == frontier[popped..] + added
      invariant Expanding(gens, apply, frontier, nodes, popped, added, seen, start)
      invariant added == Expansion(gens, apply, frontier[..popped], nodes)
      decreases |frontier| - popped
    {
      PopHead(frontier, popped, added, q, start);
      var current := q[0];
      q := q[1..];
      var children, seen' := ExpandNode(gens, apply, current, seen);
      ExpandStep(gens, apply, frontier, nodes, popped, added, seen, start, current, children, seen');
      ExpansionSnoc(gens, apply, frontier, popped, nodes);
      ConcatAssoc(frontier[popped + 1..], added, children);
      q := q + children;
      popped, added, seen := popped + 1, added + children, seen';
    }
    next := q;
    ok := |q| > 0;
    if Layered(frontier) {
      LayeredRest(frontier, popped);
    }
  }

  /**
   * The nodes `find_next_frontier` appends while popping `parents`, in
   * order: each parent's `Successors`, with the states made before it
   * counting as visited.
   */
  function Expansion<S(==), M>(gens: seq<M>, apply: (M, S) -> S, parents: seq<Node<S, M>>, nodes: seq<S>): seq<Node<S, M>>
    decreases |parents|
  {
    if parents == [] then []
    else
      var before := Expansion(gens, apply, parents[..|parents| - 1], nodes);
      before + Successors(gens, apply, parents[|parents| - 1], nodes + States(before))
  }

  /** Popping one more node extends `Expansion` by that node's successors. */
  lemma ExpansionSnoc<S, M>(gens: seq<M>, apply: (M, S) -> S, frontier: seq<Node<S, M>>, popped: nat, nodes: seq<S>)
    requires popped < |frontier|
    ensures var before := Expansion(gens, apply, frontier[..popped], nodes);
            Expansion(gens, apply, frontier[..popped + 1], nodes)
              == before + Successors(gens, apply, frontier[popped], nodes + States(before))
  {
    assert frontier[..popped + 1][..popped] == frontier[..popped];
  }

  /**
   * What `find_next_frontier` has done after popping `popped` nodes of depth
   * `start`: the nodes made hang off frontier nodes one level deeper, the
   * visited list is the old one followed by their states (none visited
   * before, none twice), and every neighbour of a popped node is visited.
   */
  ghost predicate Expanding<S, M>(gens: seq<M>, apply: (M, S) -> S, frontier: seq<Node<S, M>>, nodes: seq<S>,
                                  popped: nat, added: seq<Node<S, M>>, seen: seq<S>, start: nat)
  {
    && popped <= |frontier|
    && (forall i :: 0 <= i < popped ==> frontier[i].order == start)
    && (forall n :: n in added ==> ChildOf(gens, apply, n, frontier) && n.order == start + 1)
    && seen == nodes + States(added)
    && (forall i :: 0 <= i < |added| ==> added[i].state !in nodes)
    && (Distinct(nodes) ==> Distinct(seen))
    && (forall i, k :: 0 <= i < popped && 0 <= k < |gens| ==> apply(gens[k], frontier[i].state) in seen)
  }

  /** Expanding one more frontier node of depth `start` keeps `Expanding`. */
  lemma ExpandStep<S, M>(gens: seq<M>, apply: (M, S) -> S, frontier: seq<Node<S, M>>, nodes: seq<S>,
                         popped: nat, added: seq<Node<S, M>>, seen: seq<S>, start: nat,
                         current: Node<S, M>, children: seq<Node<S, M>>, seen': seq<S>)
    requires Expanding(gens, apply, frontier, nodes, popped, added, seen, start)
    requires popped < |frontier| && current == frontier[popped] && current.order == start
    requires Expanded(gens, apply, current, seen, children, seen')
    ensures Expanding(gens, apply, frontier, nodes, popped + 1, added + children, seen', start)
  {
    assert frontier[popped] in frontier;
    StatesAppend(added, children);
    assert seen' == nodes + States(added + children);
    forall i | 0 <= i < |added + children|
      ensures (added + children)[i].state !in nodes
    {
      if i >= |added| {
        assert (added + children)[i] == children[i - |added|];
      }
    }
  }

  /**
   * While the head of the queue has the starting depth, it is still an
   * original frontier node: the nodes made so far are all one deeper.
   */
  lemma PopHead<S, M>(frontier: seq<Node<S, M>>, popped: nat, added: seq<Node<S, M>>,
                      q: seq<Node<S, M>>, start: nat)
    requires popped <= |frontier| && q == frontier[popped..] + added
    requires |q| > 0 && q[0].order == start
    requires forall n :: n in added ==> n.order == start + 1
    ensures popped < |frontier| && q[0] == frontier[popped]
    ensures q[1..] == frontier[popped + 1..] + added
  {
    assert q[0] !in added;
    assert q[0] in frontier[popped..] + added;
  }

  /** Past the head's run, a layered frontier holds only the next layer. */
  lemma LayeredRest<S, M>(frontier: seq<Node<S, M>>, popped: nat)
    requires Layered(frontier) && 0 < popped <= |frontier|
    requires popped == |frontier| || frontier[popped].order != frontier[0].order
    ensures forall n :: n in frontier[popped..] ==> n.order == frontier[0].order + 1
  {
    forall n | n in frontier[popped..]
      ensures n.order == frontier[0].order + 1
    {
      var i :| popped <= i < |frontier| && frontier[i] == n;
      assert frontier[popped].order <= frontier[i].order;
    }
  }

  /**
   * What one call of `find_next_frontier` does to a side: after `d`
   * expansions it holds the layer at depth `d + 1`, and an empty result
   * means no state lies exactly `d + 1` moves from the root.
   */
  lemma NextLayer<S(!new), M(!new)>(gens: seq<M>, apply: (M, S) -> S,
                                    frontier: seq<Node<S, M>>, nodes: seq<S>, root: S, d: nat,
                                    next: seq<Node<S, M>>, seen: seq<S>, popped: nat, added: seq<Node<S, M>>)
    requires Side(gens, apply, frontier, nodes, root, d) && |frontier| > 0
    requires 0 < popped <= |frontier|
    requires popped == |frontier| || frontier[popped].order != frontier[0].order
    requires next == frontier[popped..] + added
    requires Expanding(gens, apply, frontier, nodes, popped, added, seen, frontier[0].order)
    ensures Side(gens, apply, next, seen, root, d + 1)
  {
    assert frontier[0] in frontier;
    assert next == added;
    LayerRooted(gens, apply, frontier, root, d, next);
    LayerComplete(gens, apply, frontier, nodes, root, d, next, seen);
    LayerWithin(gens, apply, nodes, root, d, next, seen);
  }

  lemma LayerRooted<S(!new), M(!new)>(gens: seq<M>, apply: (M, S) -> S,
                                      frontier: seq<Node<S, M>>, root: S, d: nat, next: seq<Node<S, M>>)
    requires AllRooted(gens, apply, frontier, root, d)
    requires forall n :: n in next ==> ChildOf(gens, apply, n, frontier)
    ensures AllRooted(gens, apply, next, root, d + 1)
  {
  }

  lemma LayerComplete<S(!new), M(!new)>(gens: seq<M>, apply: (M, S) -> S,
                                        frontier: seq<Node<S, M>>, nodes: seq<S>, root: S, d: nat,
                                        next: seq<Node<S, M>>, seen: seq<S>)
    requires HoldsLayer(gens, apply, frontier, root, d) && AllWithin(gens, apply, nodes, root, d)
    requires seen == nodes + States(next)
    requires forall i, k :: 0 <= i < |frontier| && 0 <= k < |gens| ==>
               apply(gens[k], frontier[i].state) in seen
    ensures HoldsLayer(gens, apply, next, root, d + 1)
  {
    forall w | AtDistance(gens, apply, root, w, d + 1)
      ensures w in States(next)
    {
      var p, k := LastStep(gens, apply, root, w, d);
      assert p in States(frontier);
      var i :| 0 <= i < |frontier| && States(frontier)[i] == p;
      assert w in seen;
    }
  }

  lemma LayerWithin<S(!new), M(!new)>(gens: seq<M>, apply: (M, S) -> S,
                                      nodes: seq<S>, root: S, d: nat,
                                      next: seq<Node<S, M>>, seen: seq<S>)
    requires AllWithin(gens, apply, nodes, root, d) && AllRooted(gens, apply, next, root, d + 1)
    requires seen == nodes + States(next)
    ensures AllWithin(gens, apply, seen, root, d + 1)
  {
    forall i | 0 <= i < |seen|
      ensures Within(gens, apply, root, seen[i], d + 1)
    {
      if i >= |nodes| {
        var n := next[i - |nodes|];
        assert n in next && seen[i] == n.state;
        RootedReach(gens, apply, n, root);
      } else {
        assert seen[i] == nodes[i] && Within(gens, apply, root, nodes[i], d);
      }
    }
  }

  /**
   * The scan over both frontiers for a shared state: the first start-side
   * node (in frontier order) that shares its state with some end-side node,
   * paired with the first such end-side node; `None` when no state is shared.
   */
  method Intersect<S(==), M>(left: seq<Node<S, M>>, right: seq<Node<S, M>>)
    returns (pair: Option<(Node<S, M>, Node<S, M>)>)
    ensures pair.None? <==> forall i, j :: 0 <= i < |left| && 0 <= j < |right| ==>
                              left[i].state != right[j].state
    ensures pair.Some? ==>
              exists i, j ::
                && 0 <= i < |left| && 0 <= j < |right|
                && pair.value == (left[i], right[j]) && left[i].state == right[j].state
                && FirstShared(left, right, i, j)
  {
    for i := 0 to |left|
      invariant forall i', j' :: 0 <= i' < i && 0 <= j' < |right| ==>
                  left[i'].state != right[j'].state
    {
      for j := 0 to |right|
        invariant forall j' :: 0 <= j' < j ==> left[i].state != right[j'].state
      {
        if left[i].state == right[j].state {
          return Some((left[i], right[j]));
        }
      }
    }
    return None;
  }

  /** No pair of nodes before (i, j) in scan order shares a state. */
  predicate FirstShared<S(==), M>(left: seq<Node<S, M>>, right: seq<Node<S, M>>, i: int, j: int)
  {
    forall i', j' :: 0 <= i' < |left| && 0 <= j' < |right| && (i' < i || (i' == i && j' < j)) ==>
      left[i'].state != right[j'].state
  }

  /**
   * Path reconstruction: walk from the start-side node up to the first node
   * whose state is `start`, prepending each link's move; then walk from the
   * end-side node up to the first node whose state is `end`, appending the
   * inverse of each link's move. Given the inverse law, the moves lead from
   * `start` to `end`.
   */
  method BuildPath<S(==, !new), M>(gens: seq<M>, apply: (M, S) -> S, invert: M -> M,
                                   start: S, end: S, left: Node<S, M>, right: Node<S, M>)
    returns (solution: seq<M>)
    requires Rooted(gens, apply, left, start) && Rooted(gens, apply, right, end)
    requires left.state == right.state
    ensures InverseLaw(gens, apply, invert) ==> Run(apply, solution, start) == end
    ensures |solution| <= left.order + right.order
    ensures forall k :: 0 <= k < |solution| ==>
              solution[k] in gens || exists g :: g in gens && solution[k] == invert(g)
  {
    solution := [];
    var leftTemp := left;
    while leftTemp.state != start
      invariant Rooted(gens, apply, leftTemp, start)
      invariant Run(apply, solution, leftTemp.state) == left.state
      invariant |solution| + leftTemp.order == left.order
      invariant forall k :: 0 <= k < |solution| ==> solution[k] in gens
      decreases leftTemp
    {
      var m := leftTemp.parent.move;
      var p := leftTemp.parent.prev;
      assert ([m] + solution)[1..] == solution;
      solution := [m] + solution;
      leftTemp := p;
    }
    ghost var leftPart := solution;
    ghost var rightPart: seq<M> := [];
    var rightTemp := right;
    while rightTemp.state != end
      invariant Rooted(gens, apply, rightTemp, end)
      invariant solution == leftPart + rightPart
      invariant InverseLaw(gens, apply, invert) ==> Run(apply, rightPart, right.state) == rightTemp.state
      invariant |rightPart| + rightTemp.order == right.order
      invariant forall k :: 0 <= k < |solution| ==>
                  solution[k] in gens || exists g :: g in gens && solution[k] == invert(g)
      decreases rightTemp
    {
      var m := rightTemp.parent.move;
      var p := rightTemp.parent.prev;
      RunSnoc(apply, rightPart, invert(m), right.state);
      solution := solution + [invert(m)];
      rightPart := rightPart + [invert(m)];
      rightTemp := p;
    }
    RunAppend(apply, leftPart, rightPart, start);
  }

  /** Frontiers that share no state, at depths a and b, rule out a path of length a + b. */
  lemma NoMeetNoPath<S(!new), M(!new)>(gens: seq<M>, apply: (M, S) -> S, invert: M -> M,
                                       start: S, end: S,
                                       sf: seq<Node<S, M>>, sn: seq<S>, a: nat,
                                       ef: seq<Node<S, M>>, en: seq<S>, b: nat)
    requires Side(gens, apply, sf, sn, start, a) && Side(gens, apply, ef, en, end, b)
    requires forall i, j :: 0 <= i < |sf| && 0 <= j < |ef| ==> sf[i].state != ef[j].state
    ensures Symmetric(gens, apply, invert) && NoPathWithin(gens, apply, start, end, a + b - 1) ==>
              NoPathWithin(gens, apply, start, end, a + b)
  {
    if Symmetric(gens, apply, invert) && NoPathWithin(gens, apply, start, end, a + b - 1) &&
       Reach(gens, apply, start, end, a + b) {
      var w := MeetInMiddle(gens, apply, invert, start, end, a, b);
      assert false;
    }
  }

  /** A side that ran dry before the two could meet shows there is no path at all. */
  lemma DeadEnd<S(!new), M(!new)>(gens: seq<M>, apply: (M, S) -> S, invert: M -> M,
                                  start: S, end: S, fromStart: bool, d: nat, other: nat,
                                  nodes: seq<S>)
    requires Side(gens, apply, [], nodes, if fromStart then start else end, d + 1)
    ensures Symmetric(gens, apply, invert) && NoPathWithin(gens, apply, start, end, d + other) ==>
              forall k :: !Reach(gens, apply, start, end, k)
  {
    forall k | Symmetric(gens, apply, invert) && NoPathWithin(gens, apply, start, end, d + other) &&
               Reach(gens, apply, start, end, k)
      ensures false
    {
      var dist := ShortestExists(gens, apply, start, end, k);
      var w;
      if fromStart {
        w := MeetInMiddle(gens, apply, invert, start, end, d + 1, dist - (d + 1));
      } else {
        w := MeetInMiddle(gens, apply, invert, start, end, dist - (d + 1), d + 1);
      }
    }
  }

  /**
   * One pass of the main loop after its depth test: expand the side whose
   * turn `flag` says it is by a full layer, hand the turn to the other side,
   * then scan the two frontiers for a shared state. `ok` is false when the
   * expanded side's frontier ran empty (the IndexError). With symmetric
   * generators, a pass that finds no shared state extends the distance
   * known to separate `start` from `end` by one, and a dead end shows they
   * are not connected at all.
   */
  method Round<S(==, !new), M(!new)>(gens: seq<M>, apply: (M, S) -> S, ghost invert: M -> M, flag: int,
                                     startFrontier: seq<Node<S, M>>, startParents: seq<S>,
                                     endFrontier: seq<Node<S, M>>, endParents: seq<S>,
                                     ghost start: S, ghost end: S, ghost a: nat, ghost b: nat)
    returns (flag': int, startFrontier': seq<Node<S, M>>, startParents': seq<S>,
             endFrontier': seq<Node<S, M>>, endParents': seq<S>, ok: bool,
             meet: Option<(Node<S, M>, Node<S, M>)>, ghost a': nat, ghost b': nat)
    requires |startFrontier| > 0 && |endFrontier| > 0
    requires Side(gens, apply, startFrontier, startParents, start, a)
    requires Side(gens, apply, endFrontier, endParents, end, b)
    ensures flag' == -flag
    ensures flag == 1 ==> a' == a + 1 && b' == b && endFrontier' == endFrontier && endParents' == endParents
    ensures flag != 1 ==> a' == a && b' == b + 1 && startFrontier' == startFrontier && startParents' == startParents
    ensures ok ==>
              && |startFrontier'| > 0 && Side(gens, apply, startFrontier', startParents', start, a')
              && |endFrontier'| > 0 && Side(gens, apply, endFrontier', endParents', end, b')
    ensures !ok && Symmetric(gens, apply, invert) && NoPathWithin(gens, apply, start, end, a + b) ==>
              forall k :: !Reach(gens, apply, start, end, k)
    ensures ok && meet.None? && Symmetric(gens, apply, invert) && NoPathWithin(gens, apply, start, end, a + b) ==>
              NoPathWithin(gens, apply, start, end, a' + b')
    ensures meet.Some? ==>
              && ok && Rooted(gens, apply, meet.value.0, start) && Rooted(gens, apply, meet.value.1, end)
              && meet.value.0.order == a' && meet.value.1.order == b'
              && meet.value.0.state == meet.value.1.state
              && meet.value.0 in startFrontier' && meet.value.1 in endFrontier'
    ensures ok ==> (meet.None? <==> forall i, j :: 0 <= i < |startFrontier'| && 0 <= j < |endFrontier'| ==>
                                      startFrontier'[i].state != endFrontier'[j].state)
  {
    startFrontier', startParents', endFrontier', endParents' := startFrontier, startParents, endFrontier, endParents;
    ghost var popped, added;
    if flag == 1 {
      startFrontier', startParents', ok, popped, added :=
        FindNextFrontier(gens, apply, startFrontier, startParents);
      NextLayer(gens, apply, startFrontier, startParents, start, a, startFrontier', startParents', popped, added);
      if !ok {
        DeadEnd(gens, apply, invert, start, end, true, a, b, startParents');
      }
    } else {
      endFrontier', endParents', ok, popped, added :=
        FindNextFrontier(gens, apply, endFrontier, endParents);
      NextLayer(gens, apply, endFrontier, endParents, end, b, endFrontier', endParents', popped, added);
      if !ok {
        DeadEnd(gens, apply, invert, start, end, false, b, a, endParents');
      }
    }
    flag' := flag * -1;
    a', b' := if flag == 1 then a + 1 else a, if flag == 1 then b else b + 1;
    meet := None;
    if ok {
      meet := Intersect(startFrontier', endFrontier');
      if meet.None? {
        NoMeetNoPath(gens, apply, invert, start, end,
                     startFrontier', startParents', a', endFrontier', endParents', b');
      } else {
        assert meet.value.0 in startFrontier' && meet.value.1 in endFrontier';
      }
    }
  }

  /**
   * `shortest_path(start, end)`: the trivial check, then alternate full-layer
   * expansions of the start side and the end side, beginning with the start
   * side, until the two frontiers share a state or both heads are deeper
   * than `MaxDepth`. With symmetric generators the answer is a shortest path,
   * `None` means no path of up to 2 * (MaxDepth + 1) moves, and an emptied
   * frontier means no path at all.
   */
  method ShortestPath<S(==, !new), M(!new)>(gens: seq<M>, apply: (M, S) -> S, invert: M -> M,
                                            start: S, end: S)
    returns (r: Outcome<M>)
    ensures start == end ==> r == Solution([])
    ensures r.Solution? && InverseLaw(gens, apply, invert) ==> Run(apply, r.moves, start) == end
    ensures r.Solution? ==> |r.moves| <= 2 * (MaxDepth + 1)
    ensures r.Solution? ==> forall k :: 0 <= k < |r.moves| ==>
              r.moves[k] in gens || exists g :: g in gens && r.moves[k] == invert(g)
    ensures r.Solution? && Symmetric(gens, apply, invert) ==>
              AtDistance(gens, apply, start, end, |r.moves|)
    ensures r.NoSolution? && Symmetric(gens, apply, invert) ==>
              NoPathWithin(gens, apply, start, end, 2 * (MaxDepth + 1))
    ensures r.EmptyFrontier? && Symmetric(gens, apply, invert) ==>
              forall k :: !Reach(gens, apply, start, end, k)
  {
    var startFrontier := [Node(start, Root, 0)];
    var startParents: seq<S> := [];
    var endFrontier := [Node(end, Root, 0)];
    var endParents: seq<S> := [];
    var flag := 1;

    var trivial := Intersect(startFrontier, endFrontier);
    if trivial.Some? {
      ReachZero(gens, apply, start, end);
      return Solution([]);
    }

    ghost var startDepth: nat := 0;
    ghost var endDepth: nat := 0;
    ReachZero(gens, apply, start, end);
    InitialSide(gens, apply, start);
    InitialSide(gens, apply, end);
    // `while not found`: the loop is left by returning once the frontiers meet
    while true
      invariant start != end
      invariant |startFrontier| > 0 && Side(gens, apply, startFrontier, startParents, start, startDepth)
      invariant |endFrontier| > 0 && Side(gens, apply, endFrontier, endParents, end, endDepth)
      invariant flag == 1 ==> startDepth == endDepth
      invariant flag != 1 ==> flag == -1 && startDepth == endDepth + 1
      invariant startDepth + endDepth <= 2 * (MaxDepth + 1)
      invariant Symmetric(gens, apply, invert) ==> NoPathWithin(gens, apply, start, end, startDepth + endDepth)
      decreases 2 * (MaxDepth + 1) - (startDepth + endDepth)
    {
      assert startFrontier[0] in startFrontier && endFrontier[0] in endFrontier;
      if startFrontier[0].order > MaxDepth && endFrontier[0].order > MaxDepth {
        return NoSolution;
      }
      var ok, meet;
      flag, startFrontier, startParents, endFrontier, endParents, ok, meet, startDepth, endDepth :=
        Round(gens, apply, invert, flag, startFrontier, startParents, endFrontier, endParents,
              start, end, startDepth, endDepth);
      if !ok {
        return EmptyFrontier;
      }
      if meet.Some? {
        var (left, right) := meet.value;
        var solution := BuildPath(gens, apply, invert, start, end, left, right);
        SolutionIsShortest(gens, apply, invert, start, end, solution, startDepth + endDepth);
        return Solution(solution);
      }
    }
  }

  lemma InitialSide<S(!new), M(!new)>(gens: seq<M>, apply: (M, S) -> S, root: S)
    ensures Side(gens, apply, [Node(root, Root, 0)], [], root, 0)
  {
    var layer: seq<Node<S, M>> := [Node(root, Root, 0)];
    forall w | AtDistance(gens, apply, root, w, 0)
      ensures w in States(layer)
    {
      ReachZero(gens, apply, root, w);
      assert States(layer)[0] == root;
    }
  }

  /** A valid path no longer than the depth sum, when none shorter than that sum exists, is shortest. */
  lemma SolutionIsShortest<S(!new), M(!new)>(gens: seq<M>, apply: (M, S) -> S, invert: M -> M,
                                             start: S, end: S, solution: seq<M>, sum: nat)
    requires forall k :: 0 <= k < |solution| ==>
               solution[k] in gens || exists g :: g in gens && solution[k] == invert(g)
    requires |solution| <= sum
    ensures Symmetric(gens, apply, invert) && Run(apply, solution, start) == end &&
            NoPathWithin(gens, apply, start, end, sum - 1) ==>
              AtDistance(gens, apply, start, end, |solution|)
  {
    if Symmetric(gens, apply, invert) {
      assert AllIn(solution, gens);
    }
  }
}
