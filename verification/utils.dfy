/** Tolerance comparisons, random picks and tie-breaking arg-max / arg-min.

    Doubles are modelled as reals (no rounding). Every random draw the program
    takes from `rand()` or a distribution is an explicit argument here, so each
    function is deterministic in its draws. */
module Utils {

  /** The program's `unsigned`: 32 bits. */
  newtype u32 = x: int | 0 <= x < 0x1_0000_0000

  const U32_MAX: u32 := 0xFFFF_FFFF

  /** `++x` on an unsigned counter: modular, so it wraps to 0 past U32_MAX. */
  function Inc(x: u32): (r: u32)
    ensures x < U32_MAX ==> r as int == x as int + 1
    ensures x == U32_MAX ==> r == 0
  {
    ((x as int + 1) % 0x1_0000_0000) as u32
  }

  datatype Option<T> = None | Some(value: T)

  /** Tolerance shared by every floating comparison of the program. */
  const COMPARISON_THRESHOLD: real := 0.000001

  function Abs(x: real): real
  {
    if x < 0.0 then -x else x
  }

  /** a == b up to the tolerance. */
  predicate IsEqualTo(a: real, b: real)
  {
    Abs(a - b) < COMPARISON_THRESHOLD
  }

  /** a < b by more than the tolerance. */
  predicate IsLessThan(a: real, b: real)
  {
    a < b - COMPARISON_THRESHOLD
  }

  /** a > b by more than the tolerance. */
  predicate IsGreaterThan(a: real, b: real)
  {
    a > b + COMPARISON_THRESHOLD
  }

  lemma EqualToSymmetric(a: real, b: real)
    ensures IsEqualTo(a, b) <==> IsEqualTo(b, a)
  {
  }

  lemma LessThanIsConverseOfGreaterThan(a: real, b: real)
    ensures IsLessThan(a, b) <==> IsGreaterThan(b, a)
  {
  }

  /** At most one of the three tolerance comparisons holds ... */
  lemma ComparisonsExclusive(a: real, b: real)
    ensures !(IsLessThan(a, b) && IsEqualTo(a, b))
    ensures !(IsGreaterThan(a, b) && IsEqualTo(a, b))
    ensures !(IsLessThan(a, b) && IsGreaterThan(a, b))
  {
  }

  /** ... but they are not exhaustive: at a distance of exactly the tolerance none holds. */
  lemma ComparisonsLeaveAGap()
    ensures !IsLessThan(0.0, COMPARISON_THRESHOLD)
    ensures !IsEqualTo(0.0, COMPARISON_THRESHOLD)
    ensures !IsGreaterThan(0.0, COMPARISON_THRESHOLD)
  {
  }

  /** `rand_indice`: the draw `rand()` reduced modulo the length. */
  function RandIndice<T>(v: seq<T>, draw: nat): (i: nat)
    requires |v| != 0
    ensures i < |v|
  {
    draw % |v|
  }

  /** Every index of a non-empty vector is the pick of some draw. */
  lemma RandIndiceReachesEveryIndex<T>(v: seq<T>, i: nat)
    requires i < |v|
    ensures exists draw: nat :: RandIndice(v, draw) == i
  {
    assert RandIndice(v, i) == i;
  }

  lemma PickWithinRange<T>(v: seq<T>, p: nat)
    requires p < |v|
    ensures RandElement(v, p) == v[p]
  {
    assert p % |v| == p;
  }

  /** `rand_element`: the element at a random index. */
  function RandElement<T>(v: seq<T>, draw: nat): (x: T)
    requires |v| != 0
    ensures x in v
  {
    v[RandIndice(v, draw)]
  }

  /** `std::random_shuffle` as libstdc++ implements it: a Fisher-Yates pass that,
      for i = 1 .. |v|-1, swaps v[i] with v[draws(i) % (i + 1)], where draws(i)
      is the `rand()` result taken at step i. */
  function Shuffle<T>(v: seq<T>, draws: nat -> nat): (w: seq<T>)
    ensures |w| == |v|
    ensures multiset(w) == multiset(v)
  {
    if |v| == 0 then v else ShuffleFrom(v, draws, 1)
  }

  function ShuffleFrom<T>(v: seq<T>, draws: nat -> nat, i: nat): (w: seq<T>)
    requires 1 <= i <= |v|
    ensures |w| == |v|
    ensures multiset(w) == multiset(v)
    decreases |v| - i
  {
    if i == |v| then v
    else ShuffleFrom(Swap(v, i, draws(i) % (i + 1)), draws, i + 1)
  }

  function Swap<T>(v: seq<T>, i: nat, j: nat): (w: seq<T>)
    requires i < |v| && j < |v|
    ensures |w| == |v|
    ensures multiset(w) == multiset(v)
  {
    v[i := v[j]][j := v[i]]
  }

  /** The draws (i => i) make every swap a self-swap, so the shuffle keeps the order. */
  lemma {:induction false} ShuffleFromKeepsOrder<T>(v: seq<T>, i: nat)
    requires 1 <= i <= |v|
    ensures ShuffleFrom(v, k => k, i) == v
    decreases |v| - i
  {
    if i < |v| {
      assert Swap(v, i, i % (i + 1)) == v;
      ShuffleFromKeepsOrder(v, i + 1);
    }
  }

  lemma ShuffleKeepsOrder<T>(v: seq<T>)
    ensures Shuffle(v, k => k) == v
  {
    if |v| > 0 {
      ShuffleFromKeepsOrder(v, 1);
    }
  }

  /** The exact maximum, `*std::max_element`. */
  function MaxOf(v: seq<real>): (m: real)
    requires |v| > 0
    ensures m in v
    ensures forall j :: 0 <= j < |v| ==> v[j] <= m
  {
    if |v| == 1 then v[0]
    else
      var rest := MaxOf(v[1..]);
      assert forall j :: 1 <= j < |v| ==> v[j] == v[1..][j - 1];
      if v[0] >= rest then v[0] else rest
  }

  /** The exact minimum, `*std::min_element`. */
  function MinOf(v: seq<real>): (m: real)
    requires |v| > 0
    ensures m in v
    ensures forall j :: 0 <= j < |v| ==> m <= v[j]
  {
    if |v| == 1 then v[0]
    else
      var rest := MinOf(v[1..]);
      assert forall j :: 1 <= j < |v| ==> v[j] == v[1..][j - 1];
      if v[0] <= rest then v[0] else rest
  }

  /** The indices from `from` on whose element satisfies `keep`, in increasing order:
      the candidate vector built by the loops of `argmax` and `argmin`. */
  function IndicesWhere(v: seq<real>, keep: real -> bool, from: nat): (c: seq<nat>)
    requires from <= |v|
    ensures forall k :: k in c <==> from <= k < |v| && keep(v[k])
    ensures forall p, q :: 0 <= p < q < |c| ==> c[p] < c[q]
    decreases |v| - from
  {
    if from == |v| then []
    else
      var rest := IndicesWhere(v, keep, from + 1);
      if keep(v[from]) then
        forall q | 0 <= q < |rest|
          ensures from < rest[q]
        {
          assert rest[q] in rest;
        }
        [from] + rest
      else rest
  }

  /** `argmax` candidates: indices whose element is not below the maximum by more than the tolerance. */
  function ArgmaxCandidates(v: seq<real>): (c: seq<nat>)
    requires |v| > 0
    ensures |c| > 0
    ensures forall k: int :: k in c <==> 0 <= k < |v| && v[k] >= MaxOf(v) - COMPARISON_THRESHOLD
  {
    var m := MaxOf(v);
    var c := IndicesWhere(v, x => !IsLessThan(x, m), 0);
    var k :| 0 <= k < |v| && v[k] == m;
    assert k in c;
    c
  }

  /** `argmax`: a tie among near-maximal indices broken by the draw. */
  function Argmax(v: seq<real>, draw: nat): (j: nat)
    requires |v| > 0
    ensures j < |v|
    ensures v[j] >= MaxOf(v) - COMPARISON_THRESHOLD
  {
    RandElement(ArgmaxCandidates(v), draw)
  }

  /** The possible results of `argmax` are exactly the near-maximal indices; in
      particular every index holding the exact maximum is one of them. */
  lemma ArgmaxResults(v: seq<real>, j: nat)
    requires 0 < |v| && j < |v|
    ensures (exists draw: nat :: Argmax(v, draw) == j) <==> v[j] >= MaxOf(v) - COMPARISON_THRESHOLD
  {
    if exists draw: nat :: Argmax(v, draw) == j {
      var draw: nat :| Argmax(v, draw) == j;
    }
    if v[j] >= MaxOf(v) - COMPARISON_THRESHOLD {
      var c := ArgmaxCandidates(v);
      assert j in c;
      var p :| 0 <= p < |c| && c[p] == j;
      PickWithinRange(c, p);
      assert Argmax(v, p) == j;
    }
  }

  /** `argmin` candidates: indices whose element is not above the minimum by more than the tolerance. */
  function ArgminCandidates(v: seq<real>): (c: seq<nat>)
    requires |v| > 0
    ensures |c| > 0
    ensures forall k: int :: k in c <==> 0 <= k < |v| && v[k] <= MinOf(v) + COMPARISON_THRESHOLD
  {
    var m := MinOf(v);
    var c := IndicesWhere(v, x => !IsGreaterThan(x, m), 0);
    var k :| 0 <= k < |v| && v[k] == m;
    assert k in c;
    c
  }

  /** `argmin`: a tie among near-minimal indices broken by the draw. */
  function Argmin(v: seq<real>, draw: nat): (j: nat)
    requires |v| > 0
    ensures j < |v|
    ensures v[j] <= MinOf(v) + COMPARISON_THRESHOLD
  {
    RandElement(ArgminCandidates(v), draw)
  }

  /** The possible results of `argmin` are exactly the near-minimal indices. */
  lemma ArgminResults(v: seq<real>, j: nat)
    requires 0 < |v| && j < |v|
    ensures (exists draw: nat :: Argmin(v, draw) == j) <==> v[j] <= MinOf(v) + COMPARISON_THRESHOLD
  {
    if exists draw: nat :: Argmin(v, draw) == j {
      var draw: nat :| Argmin(v, draw) == j;
    }
    if v[j] <= MinOf(v) + COMPARISON_THRESHOLD {
      var c := ArgminCandidates(v);
      assert j in c;
      var p :| 0 <= p < |c| && c[p] == j;
      PickWithinRange(c, p);
      assert Argmin(v, p) == j;
    }
  }
}
