# Open-loop UCT search tree for the 1D track — a Dafny model

This project models the search-tree machinery of a planner for a noisy
one-dimensional track. An agent sits on a line and must reach either end
(|state| ≥ track length). Every move adds the chosen action (or its opposite,
with some failure probability) plus Gaussian noise. The planner grows an
*open-loop* UCT tree. A root is labelled by one state. An internal node holds
the family of states sampled for it, one per visit, because the simulated
transition is stochastic.

The model has five modules:

- `Utils` (`utils.dfy`). Covers the tolerance comparisons (`is_equal_to`,
  `is_less_than` and `is_greater_than`, with threshold 1e-6), `rand_indice`,
  `rand_element`, the `std::random_shuffle` pass, and tie-breaking `argmax` and
  `argmin`. Each random pick takes its `rand()` value as an argument.
- `Dynamics` (`dynamics.dfy`). Holds the noisy move shared by the environment
  and the planner's model. The action's effect is inverted when the uniform draw
  is below the failure probability by more than the tolerance. The noise
  `normal(0, stddev)` is `stddev · z` for a standard normal draw `z`.
- `Tracks` (`tracks.dfy`). The environment: its constructor, `is_terminal`,
  `transition` (the move plus the clock tick) and `reward`. A state is terminal
  when |s| ≥ length − 1e-6. So for a track of length 5, the states 4.999999 and
  5.000001 are both terminal and both earn reward 1 (`Tracks.RewardAtTheBoundary`).
- `Nodes` (`nodes.dfy`). The node record with its constructors, `clear_node`,
  accessors, `get_next_expansion_action`, `is_fully_expanded`, `create_child`,
  `set_state`, `add_to_states`, `increment_visits_count`, `add_to_value` and
  `move_to_child`. It also defines the tree measures `Size` and `Height` and two
  tree invariants:
  - `WellFormed`: every node has a non-empty action list, never more children
    than actions, and (if internal) at least one sample. Each child is internal,
    and its actions are a permutation of its parent's.
  - `ExpansionOrdered`: child i was expanded from the node's i-th action.
- `Agents` (`agents.dfy`). Covers `transition_model`, `uct_child`, `expand`,
  `sample_new_state`, the recursive `tree_policy` and the counter loop of `uct`.

The tree is an immutable value. Each operation returns the updated node, and
the created leaf is designated by its path of child indices. A node's parent is
the node whose `children` contain it, so the raw `parent` link has no field.

Randomness is explicit. A `Draws` record gives, for each tick, a standard normal
draw, a uniform draw, a `rand()` value for the UCT tie-break, and the `rand()`
values that shuffle the action list of a node created at that tick. Each level
of a descent uses one tick. The UCT score `value + 2·cst·sqrt(log(trials)/visits)`
is an abstract function of (value, visits, trials).

Unsigned counters are a 32-bit `u32`. `++` on them is modular.

The `assert`s of `uct_child` (every child visited, at least one trial) are
modelled as an `Aborted` outcome rather than a precondition. This lets the
`uct` loop be modelled as written. Its backup call is commented out, so no
visit is ever counted. As a result, `Agents.Uct` proves this: from a root whose
children are unvisited, the loop completes exactly when the budget does not
exceed the root's untried actions. Otherwise it aborts when the root becomes
full.

Points where the code departs from textbook open-loop UCT, or from what its own
comments suggest; the model follows the code:

- The UCT score reads a child's accumulated `value`, not a mean
  (`src/agent.hpp:106`).
- The tree policy has no terminal-node case (`src/agent.hpp:150`).
- `move_to_child` keeps the root's own action list (see Findings).

## Model

| member | source | states |
|---|---|---|
| Utils.Inc | src/node.hpp:158-160 | the unsigned increment adds one below 2^32 − 1 and wraps the maximum to zero |
| Utils.IsEqualTo | utils.hpp:9-11 | definition: the distance between a and b is below the tolerance 1e-6 |
| Utils.IsLessThan | utils.hpp:15-17 | definition: a is below b minus the tolerance |
| Utils.IsGreaterThan | utils.hpp:21-23 | definition: a is above b plus the tolerance |
| Utils.EqualToSymmetric | utils.hpp:9-11 | tolerance equality is symmetric |
| Utils.LessThanIsConverseOfGreaterThan | utils.hpp:15-23 | a is less than b by more than the tolerance exactly when b is greater than a by more than the tolerance |
| Utils.ComparisonsExclusive | utils.hpp:9-23 | at most one of less-than, equal-to and greater-than holds for any pair |
| Utils.ComparisonsLeaveAGap | utils.hpp:4-23 | at a distance of exactly the tolerance none of the three comparisons holds |
| Utils.RandIndice | utils.hpp:39-42 | on a non-empty vector the random index is below its size |
| Utils.RandIndiceReachesEveryIndex | utils.hpp:39-42 | every index of a non-empty vector is the pick of some draw |
| Utils.RandElement | utils.hpp:52-54 | the random element is a member of the vector |
| Utils.Shuffle | utils.hpp:27-29 | the shuffled vector is a permutation of the input (same length, same multiset) for every sequence of draws |
| Utils.ShuffleKeepsOrder | utils.hpp:27-29 | draws that make every swap a self-swap keep the original order |
| Utils.MaxOf | utils.hpp:65 | the maximum is an element of the vector and no element exceeds it |
| Utils.MinOf | utils.hpp:76 | the minimum is an element of the vector and no element is below it |
| Utils.IndicesWhere | utils.hpp:66-69 | the candidate vector holds exactly the indices whose element passes the test, in increasing order |
| Utils.ArgmaxCandidates | utils.hpp:65-69 | argmax's candidates are exactly the indices within the tolerance of the maximum, and there is at least one |
| Utils.Argmax | utils.hpp:64-71 | the returned index is in range and its element is at least the maximum minus the tolerance |
| Utils.ArgmaxResults | utils.hpp:57-71 | an index can be returned by argmax (for some tie-break draw) if and only if it is within the tolerance of the maximum, so every exact maximum is admissible |
| Utils.ArgminCandidates | utils.hpp:76-80 | argmin's candidates are exactly the indices within the tolerance of the minimum, and there is at least one |
| Utils.Argmin | utils.hpp:75-82 | the returned index is in range and its element is at most the minimum plus the tolerance |
| Utils.ArgminResults | utils.hpp:73-82 | an index can be returned by argmin if and only if it is within the tolerance of the minimum |
| Dynamics.Step | src/track.hpp:47-53 | the next state is s − a + noise when the uniform draw fails, and s + a + noise otherwise |
| Dynamics.StepInvertsExactlyOnFailure | src/agent.hpp:66-73 | for a non-zero action the move goes against the action if and only if the draw is below the failure probability by more than the tolerance |
| Dynamics.ReliableNoiselessStep | src/track.hpp:46-54 | with zero noise and zero failure probability, a draw in [0,1) never fails and the move is exactly the action |
| Tracks.NewTrack | src/track.hpp:16-25 | the clock starts at zero and the parameters are stored |
| Tracks.IsTerminal | src/track.hpp:34-36 | definition: the distance of the state from the centre is not below the track length by more than the tolerance |
| Tracks.TerminalIffNearOrBeyondTheEnd | src/track.hpp:34-36 | a state is terminal if and only if it is within the tolerance of either end or beyond it |
| Tracks.TerminalIsSymmetric | src/track.hpp:34-36 | is_terminal(s) equals is_terminal(−s) |
| Tracks.Transition | src/track.hpp:46-54 | the clock advances by exactly one (below 2^32 − 1) and nothing else in the track changes; the next state is s ± a plus noise according to the failure draw |
| Tracks.Reward | src/track.hpp:65-68 | the reward is 1 exactly on terminal states and 0 exactly on the others |
| Tracks.RewardIgnoresActionAndNextState | src/track.hpp:65-68 | the reward does not depend on the action or the next state |
| Tracks.RewardAtTheBoundary | src/track.hpp:65-68 | for length 5, the states 4.999999 and 5.000001 both earn 1 while 4.99999 earns 0 |
| Nodes.NewRoot | src/node.hpp:31-36 | a new root has the given label, no visits, no samples, no children, and an action list that is a permutation of the action space |
| Nodes.NewChild | src/node.hpp:45-59 | a new internal node has the incoming action, exactly the one given sample, value 0, no visits, no children, and a permutation of the given actions |
| Nodes.ClearNode | src/node.hpp:69-77 | clearing zeroes value, visits, label and incoming action and empties samples and children, but keeps the root flag and the action order; the result is a single node |
| Nodes.ClearNodeIsIdempotent | src/node.hpp:69-77 | clearing twice is the same as clearing once |
| Nodes.ClearedRootIsAFreshRoot | src/node.hpp:69-77 | a cleared root relabelled s equals the root the constructor builds from its actions when the shuffle keeps their order, up to `value` and `incoming_action`, which the constructor leaves undetermined |
| Nodes.ChildAt | src/node.hpp:86 | a child is returned exactly for an index below the number of children, and it is that child |
| Nodes.ActionAt | src/node.hpp:107 | an action is returned exactly for an index below the number of actions, and it is that action |
| Nodes.LastChild | src/node.hpp:83 | definition: the last child, on a node with children |
| Nodes.GetState | src/node.hpp:92 | definition: the label of a root |
| Nodes.GetStates | src/node.hpp:95 | definition: the samples of an internal node |
| Nodes.LastSampledState | src/node.hpp:98 | definition: the latest sample of an internal node |
| Nodes.IncomingAction | src/node.hpp:101 | definition: the action an internal node was expanded from |
| Nodes.VisitsCount | src/node.hpp:104 | definition: the visit count of an internal node |
| Nodes.IsRoot | src/node.hpp:119 | definition: the node's root flag |
| Nodes.NbChildren | src/node.hpp:80 | definition: the number of children |
| Nodes.NbActions | src/node.hpp:113 | definition: the number of actions |
| Nodes.IsFullyExpanded | src/node.hpp:116 | definition: the node has as many children as actions |
| Nodes.NextExpansionAction | src/node.hpp:110 | an action is returned exactly when there are fewer children than actions (so, with no more children than actions, exactly when the node is not fully expanded), and it is the action at position `children.size()` |
| Nodes.CreateChild | src/node.hpp:128-130 | exactly one child is appended and the existing children and all other fields are unchanged; the new child is internal, has the incoming action and the single given sample, value 0, no visits, no children, and a permutation of the parent's actions |
| Nodes.SetState | src/node.hpp:138-141 | on a root, only the label changes, to the given state |
| Nodes.AddToStates | src/node.hpp:148-151 | on an internal node, one sample is appended: the earlier samples are unchanged, the last sampled state is the new one, and nothing else changes |
| Nodes.IncrementVisitsCount | src/node.hpp:158-160 | the visit count grows by exactly one below the 32-bit maximum, and nothing else changes |
| Nodes.AddToValue | src/node.hpp:168-171 | on an internal node the value grows by exactly the given amount, and nothing else changes |
| Nodes.MoveToChild | src/node.hpp:202-211 | on a root and a valid index: the node is still a root labelled by the new state, its children are the old child's children, its actions and statistics are unchanged, and its size is that of the promoted child's subtree (every sibling subtree is dropped) |
| Nodes.MoveToChildKeepsWellFormed | src/node.hpp:202-211 | when every node's actions permute one action space, promotion keeps children ≤ actions and the rest of the tree invariant |
| Nodes.MoveToChildRepeatsAnAction | src/node.hpp:202-211 | a concrete expansion-ordered tree on which promotion as written breaks the expansion order, so that the next expansion action repeats an existing child's action |
| Nodes.MoveToChildCorrected | src/node.hpp:212-218 | the corrected promotion adopts the promoted child's children and its action list, with the new label |
| Nodes.MoveToChildCorrectedKeepsInvariants | src/node.hpp:212-218 | the corrected promotion keeps both the tree invariant and the expansion order |
| Nodes.ChildlessIsNotFullyExpanded | src/node.hpp:116 | a well-formed node with no children is never fully expanded |
| Nodes.AppendChildKeepsWellFormed | src/node.hpp:128-130 | appending an internal child with permuted actions to a node with room keeps the tree invariant |
| Nodes.AppendChildKeepsExpansionOrdered | src/node.hpp:110-130 | appending a child expanded from the next action keeps the expansion order |
| Nodes.CreateNextChildKeepsInvariants | src/node.hpp:110-130 | creating a child from the next expansion action keeps the tree invariant and the expansion order |
| Nodes.CreateNextChild | src/test.hpp:134-136 | creating a child from the next expansion action appends exactly one child, whose incoming action is the action at position `children.size()` |
| Nodes.NodeTestRoot | src/test.hpp:126-130 | the test's root over {-1, 0, 1} has three shuffled actions and no children |
| Nodes.NodeTestExpansion | src/test.hpp:134-136 | after three expansions a three-action root is fully expanded, and its children's incoming actions are its actions in order |
| Nodes.NodeTestPromotion | src/test.hpp:143-159 | after the promoted child gets a child (4.06) which gets a child (5.06), promotion leaves a root labelled 3.33 whose only child is the 4.06 node, expanded from the promoted child's first action, with the 5.06 node as its only child |
| Agents.TransitionModel | src/agent.hpp:66-73 | the simulated next state is s − a + noise when the uniform draw fails, and s + a + noise otherwise |
| Agents.NewPolicyParameters | src/agent.hpp:28-41 | no trials yet, and a fresh root over a permutation of the action space that satisfies both invariants when the space is non-empty |
| Agents.UctChild | src/agent.hpp:100-112 | the selection aborts exactly when some child is unvisited or no trial has completed; otherwise it returns a child whose score is within the tolerance of the best |
| Agents.UctChildResults | src/agent.hpp:100-111 | a child can be selected (for some tie-break draw) if and only if its score is within the tolerance of the best |
| Agents.Representative | src/agent.hpp:120-125 | definition: the state a node stands for when simulating from it — the label of a root, the latest sample of an internal node |
| Agents.Expand | src/agent.hpp:118-129 | exactly one child is added, whose incoming action is the next expansion action and whose only sample is the model's move from the node's representative state (the root label or the last sample); nothing else changes |
| Agents.SampleNewState | src/agent.hpp:135-145 | the chosen child gets exactly one new sample: the model's move from the parent's representative state under the child's incoming action; no other node or field changes |
| Agents.ExpandKeepsTree | src/agent.hpp:118-129 | expansion is a completed descent: one node is added, a fresh leaf at the next child position, only the children change, and both invariants are kept |
| Agents.ExpandKeepsInvariants | src/agent.hpp:118-129 | expansion keeps the tree invariant and the expansion order |
| Agents.ExpandAddsOneLeaf | src/agent.hpp:118-129 | expansion adds exactly one node, a fresh leaf at position `children.size()` |
| Agents.DescentKeepsTree | src/agent.hpp:157-160 | putting a completed descent below the selected child back into the node is a completed descent of the node, one level longer |
| Agents.DescentKeepsInvariants | src/agent.hpp:157-160 | replacing the selected child by its grown copy keeps the tree invariant and the expansion order |
| Agents.DescentAddsOneLeaf | src/agent.hpp:157-160 | replacing the selected child by a copy grown by one fresh leaf grows the node by that leaf, and the path stays within the node's height |
| Agents.TreePolicy | src/agent.hpp:154-162 | the descent terminates (by the height of the tree); when it completes it adds exactly one node, a fresh leaf at the returned path no longer than the tree's height, changes only the children of the start node, and keeps both invariants |
| Agents.TreePolicyExpandsOpenNode | src/agent.hpp:155-156 | on a node that is not fully expanded, the result is that node expanded, with the new child as the leaf |
| Agents.TreePolicyDescendsFullNode | src/agent.hpp:157-160 | on a full node the descent aborts when the UCT selection does; otherwise it goes through the selected child, which gains exactly one sample, and all other children are unchanged |
| Agents.RootDescent | src/agent.hpp:154-162 | from a root with an untried action the descent completes and adds one unvisited root child; from a full root whose children are unvisited it aborts |
| Agents.Uct | src/agent.hpp:187-197 | on completion, the root is labelled s, the trial counter equals the budget, and the tree has grown by exactly one node per iteration with both invariants kept. It never aborts while the budget fits the root's untried actions; with unvisited root children it completes only then |

## Left out

- `default_policy`, `backup` and `best_action` (`src/agent.hpp:165-184`) are unimplemented stubs, and the backup call in `uct` is commented out. None of them is modelled. `uct` returns the constant placeholder 1, which is not modelled either. The agent's constructor only stores its arguments and sets `a` to 0; `take_action` only wraps `uct`. Neither is modelled.
- Random number generation (`uniform_i`, `uniform_d`, `normal_d`) is not modelled. The drawn values are inputs; their distributions, the modulo bias of `rand() % n` and the reseeding are not modelled.
- Doubles are reals. Rounding is not modelled.
- The UCT score arithmetic (sqrt, log) is an abstract function of value, visits and trials.
- Utils.Shuffle: states only that the result is a permutation, and that self-swap draws keep the order. It does not state that every permutation is reachable or equally likely.
- The trial counter of `uct` is a plain count. It never reaches the 32-bit wrap, because it stays below the unsigned budget.
- The root constructor leaves `value` and `incoming_action` uninitialised, and the internal-node constructor leaves `state` uninitialised. The model puts 0 there. No contract depends on those placeholders: `Nodes.ClearedRootIsAFreshRoot` compares with a fresh root only up to `value` and `incoming_action`.
- `src/agent.hpp` reads `is_root` as a field and reads private members; the model uses the accessors. `src/track.hpp` calls `normal_double` and `uniform_double`, which `utils.hpp` names `normal_d` and `uniform_d`; the model gives both the same draws.
- `expand` on a full node, and `get_last_child` on a childless node, are preconditions. The first throws an uncaught `std::out_of_range`; the second is undefined behaviour. Root-only and internal-only accessors become preconditions in the same way, mirroring their `assert`s.
- Raw `parent` links, vector reallocation and the invalidation of stored addresses are not modelled: parenthood is structural.
- `NB_ACTIONS`, `print` and `printv` in `utils.hpp`, and the whole of `src/linear_algebra.hpp`, are not part of this model. Neither are the configuration, simulation-parameter and exception headers, `main.cpp` (episode loop, timing, CSV output), console display, test printing and the plotting scripts.
- The root-level `node.hpp`, `agent.hpp`, `track.hpp` and `test.hpp` are an earlier version superseded by `src/`. They are not part of this model.

## Findings

| source | as written | input that shows it | evidently intended | confidence | as-written member | corrected member |
|---|---|---|---|---|---|---|
| src/node.hpp:202-211 | the root adopts the promoted child's children but keeps its own shuffled action list | root with arms [-1, 1] whose child (action -1, arms [1, -1]) has one child of action 1; after `move_to_child(0, s)` the next expansion action is 1 again, and -1 is never tried at the new root | the promoted child's action list moves to the root with its children (the commented-out version at lines 212-218 moved the whole child), so child i stays the expansion of action i | medium, not executed | Nodes.MoveToChildRepeatsAnAction | Nodes.MoveToChildCorrectedKeepsInvariants |

No other operation of the modelled code promotes a subtree: the retention step that would call `move_to_child` is not implemented. So `Nodes.MoveToChildCorrected` is the promotion this model offers for tree reuse.
