/** The open-loop UCT planner: the simulation model, UCT child selection,
    expansion, re-sampling of a child's state, the recursive tree policy and the
    budget loop of `uct`.

    The tree is a value: every step returns the updated node instead of mutating
    it in place, and a created leaf is designated by its path of child
    indices from the node the descent started at. */
module Agents {
  import opened Utils
  import opened Nodes
  import Dynamics

  /** `model`: the planner's copy of the environment dynamics. */
  datatype Model = Model(stddev: real, failureProbability: real)

  /** `transition_model`: the simulated move from `s` under `a` for the standard
      normal draw `z` and the uniform draw `u`. */
  function TransitionModel(m: Model, s: real, a: int, z: real, u: real): (next: real)
    ensures Dynamics.Fails(u, m.failureProbability) ==> next == s - a as real + m.stddev * z
    ensures !Dynamics.Fails(u, m.failureProbability) ==> next == s + a as real + m.stddev * z
  {
    Dynamics.Step(s, a, m.stddev, m.failureProbability, z, u)
  }

  /** The random sources, indexed by a tick: at tick t, `normal(t)` is a standard
      normal draw, `uniform(t)` a draw on [0, 1), `rand(t)` the `rand()` value that
      breaks a UCT tie, and `shuffle(t)` the `rand()` values that shuffle the
      action list of a node created at that tick. Each level of a descent uses
      one tick. */
  datatype Draws = Draws(normal: nat -> real, uniform: nat -> real, rand: nat -> nat, shuffle: nat -> nat -> nat)

  /** The UCT score of a child from its value, its visit count and the number of
      completed trials (in the program, value + 2 cst sqrt(log(trials) / visits)). */
  type Score = (real, u32, u32) -> real

  /** A step that either completes or stops at a failed `assert`. */
  datatype Outcome<T> = Done(value: T) | Aborted

  /** The result of one tree-policy descent: the updated node, the path of child
      indices from it to the created leaf, and the next unused tick. */
  datatype Descent = Descent(tree: Node, leaf: seq<nat>, tick: nat)

  /** `policy_parameters`. */
  datatype PolicyParameters = PolicyParameters(
    horizon: u32,
    trialsCount: u32,
    cst: real,
    reuse: bool,
    actionSpace: seq<int>,
    root: Node)

  /** The constructor: a fresh root over the shuffled action space, no trials yet. */
  function NewPolicyParameters(horizon: u32, cst: real, reuse: bool, actionSpace: seq<int>, initialState: real, draws: nat -> nat): (p: PolicyParameters)
    ensures p.trialsCount == 0 && p.horizon == horizon && p.cst == cst && p.reuse == reuse
    ensures p.actionSpace == actionSpace
    ensures p.root.root && GetState(p.root) == initialState && p.root.children == []
    ensures multiset(p.root.actions) == multiset(actionSpace)
    ensures 0 < |actionSpace| ==> WellFormed(p.root) && ExpansionOrdered(p.root)
  {
    PolicyParameters(horizon, 0, cst, reuse, actionSpace, NewRoot(initialState, actionSpace, draws))
  }

  /** The state a node's children are simulated from: a root's label, or the last
      state sampled for an internal node. */
  function Representative(v: Node): real
    requires v.root || |v.states| > 0
  {
    if IsRoot(v) then GetState(v) else LastSampledState(v)
  }

  /** The UCT scores of a node's children, in order. */
  function Scores(v: Node, trials: u32, score: Score): (sc: seq<real>)
    ensures |sc| == |v.children|
  {
    seq(|v.children|, i requires 0 <= i < |v.children| => score(v.children[i].value, v.children[i].visits, trials))
  }

  /** Every child has been visited and at least one trial has completed: what the
      `assert`s of `uct_child` demand before a score can be computed. */
  predicate Selectable(v: Node, trials: u32)
  {
    trials > 0 && forall i :: 0 <= i < |v.children| ==> v.children[i].visits != 0
  }

  /** `uct_child`: aborts unless every child is visited and a trial has completed;
      otherwise picks a child whose score is within the tolerance of the best. */
  function UctChild(v: Node, trials: u32, score: Score, draw: nat): (r: Outcome<nat>)
    requires |v.children| > 0
    ensures r.Done? <==> Selectable(v, trials)
    ensures r.Done? ==> r.value < |v.children|
    ensures r.Done? ==> Scores(v, trials, score)[r.value] >= MaxOf(Scores(v, trials, score)) - COMPARISON_THRESHOLD
  {
    if exists i :: 0 <= i < |v.children| && v.children[i].visits == 0 then Aborted
    else if trials == 0 then Aborted
    else Done(Argmax(Scores(v, trials, score), draw))
  }

  /** Ties are broken by the draw: every child whose score is within the tolerance
      of the best can be the one selected, and no other can. */
  lemma UctChildResults(v: Node, trials: u32, score: Score, j: nat)
    requires |v.children| > 0 && Selectable(v, trials) && j < |v.children|
    ensures (exists draw: nat :: UctChild(v, trials, score, draw) == Done(j))
            <==> Scores(v, trials, score)[j] >= MaxOf(Scores(v, trials, score)) - COMPARISON_THRESHOLD
  {
    var sc := Scores(v, trials, score);
    ArgmaxResults(sc, j);
    if exists draw: nat :: Argmax(sc, draw) == j {
      var draw: nat :| Argmax(sc, draw) == j;
      assert UctChild(v, trials, score, draw) == Done(j);
    }
  }

  /** `expand`: creates the child of the next untried action, whose first sample is
      the simulated move from the node's representative state. The created leaf is
      the last child of the result. */
  function Expand(v: Node, m: Model, d: Draws, t: nat): (r: Node)
    requires |v.children| < |v.actions|
    requires v.root || |v.states| > 0
    ensures r.(children := v.children) == v
    ensures |r.children| == |v.children| + 1
    ensures forall i :: 0 <= i < |v.children| ==> r.children[i] == v.children[i]
    ensures var c := LastChild(r);
            && !c.root && c.incomingAction == v.actions[|v.children|]
            && c.states == [TransitionModel(m, Representative(v), c.incomingAction, d.normal(t), d.uniform(t))]
            && c.value == 0.0 && c.visits == 0 && c.children == []
            && multiset(c.actions) == multiset(v.actions)
  {
    var a := NextExpansionAction(v).value;
    var s := TransitionModel(m, Representative(v), a, d.normal(t), d.uniform(t));
    CreateChild(v, a, s, d.shuffle(t))
  }

  /** `sample_new_state` on child `k` of `v`: appends to that child one state
      simulated from the parent's representative state under the child's incoming
      action. Nothing else changes. */
  function SampleNewState(v: Node, k: nat, m: Model, d: Draws, t: nat): (r: Node)
    requires k < |v.children| && !v.children[k].root
    requires v.root || |v.states| > 0
    ensures r.(children := v.children) == v
    ensures |r.children| == |v.children|
    ensures forall i :: 0 <= i < |v.children| && i != k ==> r.children[i] == v.children[i]
    ensures r.children[k].(states := v.children[k].states) == v.children[k]
    ensures r.children[k].states == v.children[k].states
              + [TransitionModel(m, Representative(v), v.children[k].incomingAction, d.normal(t), d.uniform(t))]
  {
    var c := v.children[k];
    var s := TransitionModel(m, Representative(v), IncomingAction(c), d.normal(t), d.uniform(t));
    v.(children := v.children[k := AddToStates(c, s)])
  }

  /** The node at `path` below `n` is a leaf just created by expansion: internal,
      childless, unvisited, with a zero value and its single first sample. */
  predicate FreshLeafAt(n: Node, path: seq<nat>)
    decreases |path|
  {
    if path == [] then
      !n.root && n.children == [] && n.visits == 0 && n.value == 0.0 && |n.states| == 1
    else
      path[0] < |n.children| && FreshLeafAt(n.children[path[0]], path[1..])
  }

  /** What a completed descent from `v` started at tick `t` guarantees: only the
      children of `v` change; the tree stays well formed and, if it was, expansion
      ordered; exactly one node is added, a fresh leaf at the returned path, which
      is no longer than the height of `v`; one tick is used per level. */
  predicate GrownFrom(v: Node, t: nat, r: Descent)
  {
    && WellFormed(r.tree) && r.tree.(children := v.children) == v
    && Size(r.tree) == Size(v) + 1
    && FreshLeafAt(r.tree, r.leaf)
    && 1 <= |r.leaf| <= Height(v) && r.tick == t + |r.leaf|
    && (ExpansionOrdered(v) ==> ExpansionOrdered(r.tree))
  }

  /** `tree_policy`: expands `v` if it has an untried action; otherwise selects a
      child by UCT, samples a new state for it and descends into it. */
  function TreePolicy(v: Node, trials: u32, m: Model, score: Score, d: Draws, t: nat): (r: Outcome<Descent>)
    requires WellFormed(v)
    ensures r.Done? ==> GrownFrom(v, t, r.value)
    decreases Height(v)
  {
    if !IsFullyExpanded(v) then
      ExpandKeepsTree(v, m, d, t);
      Done(Descent(Expand(v, m, d, t), [|v.children|], t + 1))
    else
      match UctChild(v, trials, score, d.rand(t))
      case Aborted => Aborted
      case Done(k) =>
        var child := SampleNewState(v, k, m, d, t).children[k];
        SampledChildKeepsShape(v, k, m, d, t);
        match TreePolicy(child, trials, m, score, d, t + 1)
        case Aborted => Aborted
        case Done(sub) =>
          DescentKeepsTree(v, t, k, child, sub);
          Done(Descent(v.(children := v.children[k := sub.tree]), [k] + sub.leaf, sub.tick))
  }

  /** On a node with an untried action, the descent stops at once: it expands that
      node and returns the created child. */
  lemma TreePolicyExpandsOpenNode(v: Node, trials: u32, m: Model, score: Score, d: Draws, t: nat)
    requires WellFormed(v) && !IsFullyExpanded(v)
    ensures TreePolicy(v, trials, m, score, d, t) == Done(Descent(Expand(v, m, d, t), [|v.children|], t + 1))
  {
  }

  /** On a full node, the descent aborts when `uct_child` does; otherwise it goes
      through the child `uct_child` picks, after adding one sample to that child and
      leaving every other child unchanged. */
  lemma TreePolicyDescendsFullNode(v: Node, trials: u32, m: Model, score: Score, d: Draws, t: nat)
    requires WellFormed(v) && IsFullyExpanded(v)
    ensures UctChild(v, trials, score, d.rand(t)).Aborted? ==> TreePolicy(v, trials, m, score, d, t).Aborted?
    ensures var r := TreePolicy(v, trials, m, score, d, t);
            r.Done? ==>
              var k := r.value.leaf[0];
              && 2 <= |r.value.leaf|
              && UctChild(v, trials, score, d.rand(t)) == Done(k)
              && |r.value.tree.children| == |v.children|
              && (forall i :: 0 <= i < |v.children| && i != k ==> r.value.tree.children[i] == v.children[i])
              && r.value.tree.children[k].states == SampleNewState(v, k, m, d, t).children[k].states
  {
    var r := TreePolicy(v, trials, m, score, d, t);
    if r.Done? {
      var k :| UctChild(v, trials, score, d.rand(t)) == Done(k);
      var child := SampleNewState(v, k, m, d, t).children[k];
      SampledChildKeepsShape(v, k, m, d, t);
      var sub := TreePolicy(child, trials, m, score, d, t + 1);
      assert sub.Done?;
      assert r.value.leaf == [k] + sub.value.leaf;
      assert r.value.tree == v.(children := v.children[k := sub.value.tree]);
    }
  }

  /** The expansion branch of the tree policy adds exactly one node, a fresh leaf
      below `v`, and keeps the tree's invariants. */
  lemma ExpandKeepsTree(v: Node, m: Model, d: Draws, t: nat)
    requires WellFormed(v) && !IsFullyExpanded(v)
    ensures GrownFrom(v, t, Descent(Expand(v, m, d, t), [|v.children|], t + 1))
  {
    ExpandKeepsInvariants(v, m, d, t);
    ExpandAddsOneLeaf(v, m, d, t);
  }

  /** Expansion keeps the tree invariant and the expansion order. */
  lemma ExpandKeepsInvariants(v: Node, m: Model, d: Draws, t: nat)
    requires WellFormed(v) && !IsFullyExpanded(v)
    ensures WellFormed(Expand(v, m, d, t))
    ensures ExpansionOrdered(v) ==> ExpansionOrdered(Expand(v, m, d, t))
  {
    var e := Expand(v, m, d, t);
    var c := LastChild(e);
    assert e == v.(children := v.children + [c]);
    assert |c.actions| == |multiset(c.actions)| == |multiset(v.actions)| == |v.actions|;
    AppendChildKeepsWellFormed(v, c);
    if ExpansionOrdered(v) {
      AppendChildKeepsExpansionOrdered(v, c);
    }
  }

  /** Expansion adds exactly one node, a fresh leaf at the next child position. */
  lemma ExpandAddsOneLeaf(v: Node, m: Model, d: Draws, t: nat)
    requires WellFormed(v) && !IsFullyExpanded(v)
    ensures Size(Expand(v, m, d, t)) == Size(v) + 1
    ensures FreshLeafAt(Expand(v, m, d, t), [|v.children|]) && 1 <= Height(v)
  {
    var e := Expand(v, m, d, t);
    var c := LastChild(e);
    assert e.children == v.children + [c];
    assert c.children == [] && Size(c) == 1;
    assert [c][1..] == [];
    assert SizeOfAll([c]) == 1;
    SizeOfAllConcat(v.children, [c]);
    assert FreshLeafAt(e.children[|v.children|], []);
  }

  /** The child selected for descent, once re-sampled, is still well formed and
      strictly lower than `v`. */
  lemma SampledChildKeepsShape(v: Node, k: nat, m: Model, d: Draws, t: nat)
    requires WellFormed(v) && k < |v.children|
    ensures var c := SampleNewState(v, k, m, d, t).children[k];
            && WellFormed(c) && Height(c) < Height(v)
            && c.(states := v.children[k].states) == v.children[k]
            && (ExpansionOrdered(v) ==> ExpansionOrdered(c))
  {
    var c := SampleNewState(v, k, m, d, t).children[k];
    assert WellFormed(v.children[k]);
    HeightOfChild(v.children, k);
    assert Height(c) == Height(v.children[k]);
    if ExpansionOrdered(v) {
      assert ExpansionOrdered(v.children[k]);
    }
  }

  /** Putting the result of a descent below child `k` back into `v` adds exactly one
      node to `v`, a fresh leaf one level deeper, and keeps the invariants. */
  lemma DescentKeepsTree(v: Node, t: nat, k: nat, child: Node, sub: Descent)
    requires WellFormed(v) && k < |v.children|
    requires child.(states := v.children[k].states) == v.children[k]
    requires GrownFrom(child, t + 1, sub)
    ensures GrownFrom(v, t, Descent(v.(children := v.children[k := sub.tree]), [k] + sub.leaf, sub.tick))
  {
    DescentKeepsInvariants(v, k, child, sub.tree);
    DescentAddsOneLeaf(v, k, child, sub.tree, sub.leaf);
  }

  /** Replacing child `k` by a grown copy of it keeps the tree invariant and the
      expansion order. */
  lemma DescentKeepsInvariants(v: Node, k: nat, child: Node, tree: Node)
    requires WellFormed(v) && k < |v.children|
    requires child.(states := v.children[k].states) == v.children[k]
    requires WellFormed(tree) && tree.(children := child.children) == child
    requires ExpansionOrdered(child) ==> ExpansionOrdered(tree)
    ensures WellFormed(v.(children := v.children[k := tree]))
    ensures ExpansionOrdered(v) ==> ExpansionOrdered(v.(children := v.children[k := tree]))
  {
    assert WellFormed(v.children[k]);
    ReplaceChildKeepsWellFormed(v, k, tree);
    if ExpansionOrdered(v) {
      assert ExpansionOrdered(v.children[k]);
      assert ExpansionOrdered(child);
      ReplaceChildKeepsExpansionOrdered(v, k, tree);
    }
  }

  /** Replacing child `k` by a copy grown by one fresh leaf grows `v` by that leaf,
      one level deeper. */
  lemma DescentAddsOneLeaf(v: Node, k: nat, child: Node, tree: Node, leaf: seq<nat>)
    requires k < |v.children|
    requires child.(states := v.children[k].states) == v.children[k]
    requires Size(tree) == Size(child) + 1 && FreshLeafAt(tree, leaf) && |leaf| <= Height(child)
    ensures Size(v.(children := v.children[k := tree])) == Size(v) + 1
    ensures FreshLeafAt(v.(children := v.children[k := tree]), [k] + leaf)
    ensures 1 + |leaf| <= Height(v)
  {
    SizeOfAllUpdate(v.children, k, tree);
    assert Size(child) == Size(v.children[k]);
    assert ([k] + leaf)[1..] == leaf;
    HeightOfChild(v.children, k);
    assert Height(child) == Height(v.children[k]);
  }

  /** No child of the node has been visited. */
  predicate ChildrenUnvisited(v: Node)
  {
    forall i :: 0 <= i < |v.children| ==> v.children[i].visits == 0
  }

  /** One descent from the root as `uct` sees it: while the root has untried
      actions the descent completes and adds one root child, which is unvisited;
      once the root is full and none of its children has been visited, the
      descent aborts. */
  lemma RootDescent(v: Node, trials: u32, m: Model, score: Score, d: Draws, t: nat)
    requires WellFormed(v)
    ensures var r := TreePolicy(v, trials, m, score, d, t);
            !IsFullyExpanded(v) ==>
              && r.Done? && |r.value.tree.children| == |v.children| + 1
              && (ChildrenUnvisited(v) ==> ChildrenUnvisited(r.value.tree))
    ensures IsFullyExpanded(v) && ChildrenUnvisited(v) ==> TreePolicy(v, trials, m, score, d, t).Aborted?
  {
    if IsFullyExpanded(v) {
      TreePolicyDescendsFullNode(v, trials, m, score, d, t);
      if ChildrenUnvisited(v) {
        assert v.children[0].visits == 0;
        assert !Selectable(v, trials);
      }
    } else {
      TreePolicyExpandsOpenNode(v, trials, m, score, d, t);
      var e := Expand(v, m, d, t);
      assert e.children[|v.children|] == LastChild(e);
    }
  }

  /** `uct`: labels the root with `s`, resets the trial counter and runs `horizon`
      descents, counting each completed one. The default policy's return is never
      used (its backup is commented out), so it is not part of the loop here.

      Every completed descent adds one node. As long as the root has untried
      actions the loop cannot abort; and because nothing ever counts a visit, a
      root whose children are unvisited aborts the loop as soon as it is full. */
  method Uct(p: PolicyParameters, m: Model, s: real, score: Score, d: Draws, t0: nat)
    returns (r: Outcome<PolicyParameters>)
    requires p.root.root && WellFormed(p.root)
    ensures r.Done? ==> r.value.(trialsCount := p.trialsCount, root := p.root) == p
    ensures r.Done? ==> r.value.trialsCount == p.horizon
    ensures r.Done? ==> r.value.root.root && GetState(r.value.root) == s && r.value.root.actions == p.root.actions
    ensures r.Done? ==> WellFormed(r.value.root) && Size(r.value.root) == Size(p.root) + p.horizon as int
    ensures r.Done? && ExpansionOrdered(p.root) ==> ExpansionOrdered(r.value.root)
    ensures p.horizon as int <= |p.root.actions| - |p.root.children| ==> r.Done?
    ensures ChildrenUnvisited(p.root) && r.Done? ==> p.horizon as int <= |p.root.actions| - |p.root.children|
  {
    var root := SetState(p.root, s);
    var trialsCount: u32 := 0;
    var t := t0;
    var i: u32 := 0;
    ghost var room := |p.root.actions| - |p.root.children|;
    while i < p.horizon
      invariant i <= p.horizon && trialsCount == i
      invariant root.root && GetState(root) == s && root.actions == p.root.actions
      invariant WellFormed(root) && Size(root) == Size(p.root) + i as int
      invariant ExpansionOrdered(p.root) ==> ExpansionOrdered(root)
      invariant i as int <= room ==> |root.children| == |p.root.children| + i as int
      invariant i as int <= room && ChildrenUnvisited(p.root) ==> ChildrenUnvisited(root)
      invariant ChildrenUnvisited(p.root) ==> i as int <= room
    {
      var step := TreePolicy(root, trialsCount, m, score, d, t);
      RootDescent(root, trialsCount, m, score, d, t);
      if step.Aborted? {
        return Aborted;
      }
      root := step.value.tree;
      t := step.value.tick;
      trialsCount := trialsCount + 1;
      i := i + 1;
    }
    r := Done(p.(trialsCount := trialsCount, root := root));
  }
}
