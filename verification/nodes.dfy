/** The search-tree node of the open-loop planner.

    A node is either a root, labelled by the single `state`, or an internal node
    holding the family `states` of states sampled for it (one per visit), the
    action `incomingAction` that led to it, an accumulated `value` and a
    `visits` count. Every node has its own shuffled copy `actions` of the action
    space (its bandit arms) and its `children` in creation order.

    Parenthood is structural: a node's parent is the node whose `children` holds
    it, so the `parent` link of the program needs no field here. */
module Nodes {
  import opened Utils

  datatype Node = Node(
    root: bool,
    value: real,
    incomingAction: int,
    visits: u32,
    state: real,
    states: seq<real>,
    actions: seq<int>,
    children: seq<Node>)

  // ---------------------------------------------------------------------------
  // Construction and reset

  /** Root constructor: the action space is copied and shuffled by `draws`. */
  function NewRoot(s: real, actionSpace: seq<int>, draws: nat -> nat): (n: Node)
    ensures n.root && n.state == s && n.visits == 0
    ensures n.children == [] && n.states == []
    ensures multiset(n.actions) == multiset(actionSpace)
  {
    Node(true, 0.0, 0, 0, s, [], Shuffle(actionSpace, draws), [])
  }

  /** Internal-node constructor, used by expansion: the first sampled state is
      `s`, and the parent's action list is copied and shuffled by `draws`. */
  function NewChild(incomingAction: int, s: real, actionSpace: seq<int>, draws: nat -> nat): (n: Node)
    ensures !n.root && n.incomingAction == incomingAction
    ensures n.states == [s] && n.value == 0.0 && n.visits == 0
    ensures n.children == []
    ensures multiset(n.actions) == multiset(actionSpace)
  {
    Node(false, 0.0, incomingAction, 0, 0.0, [s], Shuffle(actionSpace, draws), [])
  }

  /** `clear_node`: statistics, labels, samples and children are reset; the root
      flag and the order of the actions are kept. */
  function ClearNode(n: Node): (c: Node)
    ensures c.root == n.root && c.actions == n.actions
    ensures c.value == 0.0 && c.visits == 0 && c.incomingAction == 0 && c.state == 0.0
    ensures c.states == [] && c.children == []
    ensures Size(c) == 1
  {
    n.(value := 0.0, incomingAction := 0, state := 0.0, visits := 0, states := [], children := [])
  }

  lemma ClearNodeIsIdempotent(n: Node)
    ensures ClearNode(ClearNode(n)) == ClearNode(n)
  {
  }

  /** A cleared root labelled `s` is the root that the constructor builds when the
      shuffle happens to keep the order of the cleared root's actions, apart from
      `value` and `incomingAction`, which the constructor leaves undetermined and
      clearing sets to zero. */
  lemma ClearedRootIsAFreshRoot(n: Node, s: real)
    requires n.root
    ensures var f := NewRoot(s, n.actions, k => k);
            SetState(ClearNode(n), s).(value := f.value, incomingAction := f.incomingAction) == f
  {
    ShuffleKeepsOrder(n.actions);
  }

  // ---------------------------------------------------------------------------
  // Accessors. The program's `assert`s become preconditions; its `.at()` calls,
  // which throw on a bad index, return None instead.

  /** `is_root`. */
  predicate IsRoot(n: Node)
  {
    n.root
  }

  function NbChildren(n: Node): nat
  {
    |n.children|
  }

  function NbActions(n: Node): nat
  {
    |n.actions|
  }

  function LastChild(n: Node): Node
    requires |n.children| > 0
  {
    n.children[|n.children| - 1]
  }

  function ChildAt(n: Node, i: nat): (r: Option<Node>)
    ensures r.Some? <==> i < |n.children|
    ensures r.Some? ==> r.value == n.children[i]
  {
    if i < |n.children| then Some(n.children[i]) else None
  }

  function GetState(n: Node): real
    requires n.root
  {
    n.state
  }

  function GetStates(n: Node): seq<real>
    requires !n.root
  {
    n.states
  }

  function LastSampledState(n: Node): real
    requires !n.root && |n.states| > 0
  {
    n.states[|n.states| - 1]
  }

  function IncomingAction(n: Node): int
    requires !n.root
  {
    n.incomingAction
  }

  function VisitsCount(n: Node): u32
    requires !n.root
  {
    n.visits
  }

  function ActionAt(n: Node, i: nat): (r: Option<int>)
    ensures r.Some? <==> i < |n.actions|
    ensures r.Some? ==> r.value == n.actions[i]
  {
    if i < |n.actions| then Some(n.actions[i]) else None
  }

  /** `is_fully_expanded`: every action has been tried. */
  predicate IsFullyExpanded(n: Node)
  {
    NbChildren(n) == NbActions(n)
  }

  /** `get_next_expansion_action`: the first action not yet tried, i.e. the one at
      the position given by the number of children; none once the node is full. */
  function NextExpansionAction(n: Node): (a: Option<int>)
    ensures a.Some? <==> |n.children| < |n.actions|
    ensures |n.children| <= |n.actions| ==> (a.Some? <==> !IsFullyExpanded(n))
    ensures a.Some? ==> a.value == n.actions[|n.children|]
  {
    ActionAt(n, NbChildren(n))
  }

  // ---------------------------------------------------------------------------
  // Updates

  /** `create_child`: appends one new child, leaving the node otherwise unchanged. */
  function CreateChild(n: Node, incomingAction: int, s: real, draws: nat -> nat): (r: Node)
    ensures |r.children| == |n.children| + 1
    ensures r.children[..|n.children|] == n.children
    ensures r.(children := n.children) == n
    ensures var c := r.children[|n.children|];
            && !c.root && c.incomingAction == incomingAction
            && c.states == [s] && c.value == 0.0 && c.visits == 0 && c.children == []
            && multiset(c.actions) == multiset(n.actions)
  {
    n.(children := n.children + [NewChild(incomingAction, s, n.actions, draws)])
  }

  /** `set_state`: relabels a root. */
  function SetState(n: Node, s: real): (r: Node)
    requires n.root
    ensures r.(state := n.state) == n
    ensures GetState(r) == s
  {
    n.(state := s)
  }

  /** `add_to_states`: appends one sample to an internal node. */
  function AddToStates(n: Node, s: real): (r: Node)
    requires !n.root
    ensures r.(states := n.states) == n
    ensures |r.states| == |n.states| + 1
    ensures LastSampledState(r) == s
    ensures r.states[..|n.states|] == n.states
  {
    n.(states := n.states + [s])
  }

  /** `increment_visits_count`: one more visit (the counter is an unsigned). */
  function IncrementVisitsCount(n: Node): (r: Node)
    ensures n.visits < U32_MAX ==> r.visits as int == n.visits as int + 1
    ensures r.(visits := n.visits) == n
  {
    n.(visits := Inc(n.visits))
  }

  /** `add_to_value`: accumulates a return into an internal node. */
  function AddToValue(n: Node, x: real): (r: Node)
    requires !n.root
    ensures r.value - n.value == x
    ensures r.(value := n.value) == n
  {
    n.(value := n.value + x)
  }

  /** `move_to_child`, as written: the root adopts the children of its child `i`
      (dropping every other subtree) and takes the label `s`; its own action list
      is kept. */
  function MoveToChild(n: Node, i: nat, s: real): (r: Node)
    requires n.root && i < |n.children|
    ensures r.root && GetState(r) == s
    ensures r.children == n.children[i].children
    ensures r.actions == n.actions
    ensures r.value == n.value && r.visits == n.visits && r.states == n.states
    ensures r.incomingAction == n.incomingAction
    ensures Size(r) == Size(n.children[i])
  {
    n.(children := n.children[i].children, state := s)
  }

  /** `move_to_child` with the action list of the promoted child adopted too, so
      that the adopted children stay aligned with the actions they were expanded
      from. */
  function MoveToChildCorrected(n: Node, i: nat, s: real): (r: Node)
    requires n.root && i < |n.children|
    ensures r.root && GetState(r) == s
    ensures r.children == n.children[i].children
    ensures r.actions == n.children[i].actions
    ensures Size(r) == Size(n.children[i])
  {
    n.(children := n.children[i].children, state := s, actions := n.children[i].actions)
  }

  // ---------------------------------------------------------------------------
  // Tree measures and invariants

  function Size(n: Node): nat
    decreases n
  {
    1 + SizeOfAll(n.children)
  }

  function SizeOfAll(ns: seq<Node>): nat
    decreases ns
  {
    if ns == [] then 0 else Size(ns[0]) + SizeOfAll(ns[1..])
  }

  function Height(n: Node): nat
    decreases n
  {
    1 + MaxHeight(n.children)
  }

  function MaxHeight(ns: seq<Node>): nat
    decreases ns
  {
    if ns == [] then 0
    else
      var h := Height(ns[0]);
      var rest := MaxHeight(ns[1..]);
      if h >= rest then h else rest
  }

  lemma {:induction false} SizeOfAllConcat(a: seq<Node>, b: seq<Node>)
    ensures SizeOfAll(a + b) == SizeOfAll(a) + SizeOfAll(b)
    decreases |a|
  {
    if a == [] {
      assert a + b == b;
    } else {
      assert (a + b)[0] == a[0];
      assert (a + b)[1..] == a[1..] + b;
      SizeOfAllConcat(a[1..], b);
    }
  }

  /** Replacing one child changes the total by the difference of the two sizes. */
  lemma SizeOfAllUpdate(ns: seq<Node>, k: nat, c: Node)
    requires k < |ns|
    ensures SizeOfAll(ns[k := c]) == SizeOfAll(ns) - Size(ns[k]) + Size(c)
  {
    assert ns == ns[..k] + [ns[k]] + ns[k + 1..];
    assert ns[k := c] == ns[..k] + [c] + ns[k + 1..];
    SizeOfAllConcat(ns[..k] + [ns[k]], ns[k + 1..]);
    SizeOfAllConcat(ns[..k], [ns[k]]);
    SizeOfAllConcat(ns[..k] + [c], ns[k + 1..]);
    SizeOfAllConcat(ns[..k], [c]);
  }

  /** Every child is strictly lower than its parent. */
  lemma {:induction false} HeightOfChild(ns: seq<Node>, k: nat)
    requires k < |ns|
    ensures Height(ns[k]) <= MaxHeight(ns)
    decreases |ns|
  {
    if k > 0 {
      HeightOfChild(ns[1..], k - 1);
    }
  }

  /** The structural invariant of a planning tree: a non-empty action list at every
      node, never more children than actions, a sample in every internal node,
      children that are internal nodes, and every child's action list a
      permutation of its parent's (hence of one common action space). */
  predicate WellFormed(n: Node)
    decreases n
  {
    && 0 < |n.actions|
    && |n.children| <= |n.actions|
    && (!n.root ==> |n.states| > 0)
    && forall i :: 0 <= i < |n.children| ==>
         && !n.children[i].root
         && multiset(n.children[i].actions) == multiset(n.actions)
         && WellFormed(n.children[i])
  }

  /** Expansion order: child i was expanded from the node's i-th action. */
  predicate ExpansionOrdered(n: Node)
    decreases n
  {
    && |n.children| <= |n.actions|
    && forall i :: 0 <= i < |n.children| ==>
         n.children[i].incomingAction == n.actions[i] && ExpansionOrdered(n.children[i])
  }

  /** A well-formed node with no children is never fully expanded. */
  lemma ChildlessIsNotFullyExpanded(n: Node)
    requires WellFormed(n) && n.children == []
    ensures !IsFullyExpanded(n)
  {
  }

  /** Appending a well-formed internal child whose arms permute the parent's keeps
      the parent well formed while it has room. */
  lemma AppendChildKeepsWellFormed(n: Node, c: Node)
    requires WellFormed(n) && |n.children| < |n.actions|
    requires !c.root && multiset(c.actions) == multiset(n.actions) && WellFormed(c)
    ensures WellFormed(n.(children := n.children + [c]))
  {
    var r := n.(children := n.children + [c]);
    forall i | 0 <= i < |r.children|
      ensures !r.children[i].root && multiset(r.children[i].actions) == multiset(r.actions)
      ensures WellFormed(r.children[i])
    {
      if i < |n.children| {
        assert r.children[i] == n.children[i];
      } else {
        assert r.children[i] == c;
      }
    }
  }

  /** Appending a child expanded from the next action keeps the expansion order. */
  lemma AppendChildKeepsExpansionOrdered(n: Node, c: Node)
    requires ExpansionOrdered(n) && |n.children| < |n.actions|
    requires c.incomingAction == n.actions[|n.children|] && ExpansionOrdered(c)
    ensures ExpansionOrdered(n.(children := n.children + [c]))
  {
    var r := n.(children := n.children + [c]);
    forall i | 0 <= i < |r.children|
      ensures r.children[i].incomingAction == r.actions[i] && ExpansionOrdered(r.children[i])
    {
      if i < |n.children| {
        assert r.children[i] == n.children[i];
      } else {
        assert r.children[i] == c;
      }
    }
  }

  /** Replacing a child by a well-formed internal node whose arms permute the
      parent's keeps the parent well formed. */
  lemma ReplaceChildKeepsWellFormed(n: Node, k: nat, c: Node)
    requires WellFormed(n) && k < |n.children|
    requires !c.root && multiset(c.actions) == multiset(n.actions) && WellFormed(c)
    ensures WellFormed(n.(children := n.children[k := c]))
  {
    var r := n.(children := n.children[k := c]);
    forall i | 0 <= i < |r.children|
      ensures !r.children[i].root && multiset(r.children[i].actions) == multiset(r.actions)
      ensures WellFormed(r.children[i])
    {
      if i != k {
        assert r.children[i] == n.children[i];
      }
    }
  }

  /** Replacing a child by an expansion-ordered node with the same incoming action
      keeps the expansion order. */
  lemma ReplaceChildKeepsExpansionOrdered(n: Node, k: nat, c: Node)
    requires ExpansionOrdered(n) && k < |n.children|
    requires c.incomingAction == n.children[k].incomingAction && ExpansionOrdered(c)
    ensures ExpansionOrdered(n.(children := n.children[k := c]))
  {
    var r := n.(children := n.children[k := c]);
    forall i | 0 <= i < |r.children|
      ensures r.children[i].incomingAction == r.actions[i] && ExpansionOrdered(r.children[i])
    {
      if i != k {
        assert r.children[i] == n.children[i];
      }
    }
  }

  /** Expanding with the next expansion action keeps both invariants. */
  lemma CreateNextChildKeepsInvariants(n: Node, s: real, draws: nat -> nat)
    requires WellFormed(n) && ExpansionOrdered(n) && !IsFullyExpanded(n)
    ensures var r := CreateChild(n, NextExpansionAction(n).value, s, draws);
            WellFormed(r) && ExpansionOrdered(r)
  {
    var a := NextExpansionAction(n).value;
    var c := NewChild(a, s, n.actions, draws);
    assert |c.actions| == |multiset(c.actions)| == |multiset(n.actions)| == |n.actions|;
    AppendChildKeepsWellFormed(n, c);
    AppendChildKeepsExpansionOrdered(n, c);
  }

  /** Promotion keeps a well-formed tree well formed: the adopted children number at
      most the promoted child's actions, which are as many as the root's. */
  lemma MoveToChildKeepsWellFormed(n: Node, i: nat, s: real)
    requires WellFormed(n) && n.root && i < |n.children|
    ensures WellFormed(MoveToChild(n, i, s))
  {
    var c := n.children[i];
    assert WellFormed(c);
    assert |c.actions| == |multiset(c.actions)| == |multiset(n.actions)| == |n.actions|;
  }

  lemma MoveToChildCorrectedKeepsInvariants(n: Node, i: nat, s: real)
    requires WellFormed(n) && ExpansionOrdered(n) && n.root && i < |n.children|
    ensures WellFormed(MoveToChildCorrected(n, i, s))
    ensures ExpansionOrdered(MoveToChildCorrected(n, i, s))
  {
    var c := n.children[i];
    assert WellFormed(c) && ExpansionOrdered(c);
  }

  /** As written, promotion breaks the expansion order: the root below keeps its
      arms [-1, 1] while the adopted child was expanded from the promoted node's
      first arm 1, so the next expansion action is 1 again and action -1 is never
      tried at the new root. Adopting the promoted child's arms [1, -1] proposes -1. */
  lemma MoveToChildRepeatsAnAction()
    ensures var g := Node(false, 0.0, 1, 0, 0.0, [2.0], [1, -1], []);
            var c := Node(false, 0.0, -1, 0, 0.0, [1.0], [1, -1], [g]);
            var n := Node(true, 0.0, 0, 0, 0.0, [], [-1, 1], [c]);
            && WellFormed(n) && ExpansionOrdered(n)
            && var moved := MoveToChild(n, 0, 1.0);
               && NextExpansionAction(moved) == Some(1)
               && moved.children[0].incomingAction == 1
               && !ExpansionOrdered(moved)
               && NextExpansionAction(MoveToChildCorrected(n, 0, 1.0)) == Some(-1)
  {
    var g := Node(false, 0.0, 1, 0, 0.0, [2.0], [1, -1], []);
    var c := Node(false, 0.0, -1, 0, 0.0, [1.0], [1, -1], [g]);
    var n := Node(true, 0.0, 0, 0, 0.0, [], [-1, 1], [c]);
    assert multiset([1, -1]) == multiset([-1, 1]);
    assert WellFormed(g);
    assert WellFormed(c);
    assert ExpansionOrdered(c);
  }

  // ---------------------------------------------------------------------------
  // The unit-test scenario

  /** Creates a child from the next expansion action. */
  function CreateNextChild(n: Node, s: real, draws: nat -> nat): (r: Node)
    requires |n.children| < |n.actions|
    ensures |r.children| == |n.children| + 1 && r.actions == n.actions && r.root == n.root
    ensures forall i :: 0 <= i < |n.children| ==> r.children[i] == n.children[i]
    ensures r.children[|n.children|].incomingAction == n.actions[|n.children|]
  {
    CreateChild(n, NextExpansionAction(n).value, s, draws)
  }

  /** The root of the unit test: three shuffled arms, no children. */
  lemma NodeTestRoot(d0: nat -> nat)
    ensures var v := NewRoot(0.01, [-1, 0, 1], d0);
            v.root && v.children == [] && |v.actions| == 3 && multiset(v.actions) == multiset{-1, 0, 1}
  {
    var v := NewRoot(0.01, [-1, 0, 1], d0);
    assert |v.actions| == |multiset(v.actions)| == |multiset([-1, 0, 1])| == 3;
  }

  /** A root over three actions is full after three expansions, and its children
      hold its actions in order. */
  lemma NodeTestExpansion(v: Node, d1: nat -> nat, d2: nat -> nat, d3: nat -> nat)
    requires v.root && v.children == [] && |v.actions| == 3
    ensures var v3 := CreateNextChild(CreateNextChild(CreateNextChild(v, 1.06, d1), 2.06, d2), 3.06, d3);
            && IsFullyExpanded(v3)
            && v3.children[0].incomingAction == v.actions[0]
            && v3.children[1].incomingAction == v.actions[1]
            && v3.children[2].incomingAction == v.actions[2]
  {
  }

  /** The promotion step of the unit test: the promoted child gets a child (state
      4.06), which in turn gets a child (state 5.06). Promotion leaves a root with
      the new label whose only child is the 4.06 node, itself with the 5.06 node as
      its only child. */
  lemma NodeTestPromotion(v: Node, i: nat, d1: nat -> nat, d2: nat -> nat)
    requires v.root && i < |v.children| && v.children[i].children == [] && |v.children[i].actions| > 0
    ensures var ptr := CreateNextChild(v.children[i], 4.06, d1);
            var ptrbis := CreateNextChild(ptr.children[0], 5.06, d2);
            var moved := MoveToChild(v.(children := v.children[i := ptr.(children := [ptrbis])]), i, 3.33);
            && moved.root && moved.state == 3.33 && |moved.children| == 1
            && moved.children[0].incomingAction == v.children[i].actions[0]
            && moved.children[0].states == [4.06]
            && |moved.children[0].children| == 1
            && moved.children[0].children[0].incomingAction == ptr.children[0].actions[0]
            && moved.children[0].children[0].states == [5.06]
            && moved.children[0].children[0].children == []
  {
  }
}
