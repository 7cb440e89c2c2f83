/** The weighted validator set and its quorum arithmetic. */
module Validators {
  import opened Common

  /** A 32-byte hash, read as a big-endian number. */
  type Hash = nat

  datatype Validator = Validator(index: u64, weight: u64)

  function SaturatingTotal(validators: seq<Validator>, acc: u64): u64
    decreases |validators|
  {
    if validators == [] then acc
    else SaturatingTotal(validators[1..], SatAdd(acc, validators[0].weight))
  }

  function WeightOf(validators: seq<Validator>, index: u64): u64 {
    if validators == [] then 0
    else if validators[0].index == index then validators[0].weight
    else WeightOf(validators[1..], index)
  }

  datatype ValidatorSet = ValidatorSet(validators: seq<Validator>) {
    function TotalWeight(): u64 {
      SaturatingTotal(validators, 0)
    }

    function QuorumWeight(): (q: u64)
      ensures q >= 1
    {
      2 * ((if TotalWeight() == 0 then 0 else TotalWeight() - 1) / 3) + 1
    }

    function LeaderForRound(height: u64, round: nat): u64
      requires round <= U64_MAX
    {
      if validators == [] then 0
      else validators[SatAdd(height, round) % |validators|].index
    }

    /** Weight held by the voters in `s`; an index listed twice counts with its first entry only. */
    ghost function Weight(s: set<u64>): nat {
      SetWeight(validators, s)
    }

    /** The exact sum of all listed weights. */
    ghost function ExactTotal(): nat {
      SumWeights(validators)
    }

    ghost function Indices(): set<u64> {
      set v | v in validators :: v.index
    }
  }

  ghost function SumWeights(validators: seq<Validator>): nat {
    if validators == [] then 0 else validators[0].weight + SumWeights(validators[1..])
  }

  ghost function SetWeight(validators: seq<Validator>, s: set<u64>): nat {
    if validators == [] then 0
    else if validators[0].index in s then
      validators[0].weight + SetWeight(validators[1..], s - {validators[0].index})
    else SetWeight(validators[1..], s)
  }

  // ---- weights of voter sets ----

  lemma {:induction false} SetWeightDisjoint(vs: seq<Validator>, a: set<u64>, b: set<u64>)
    requires a !! b
    ensures SetWeight(vs, a + b) == SetWeight(vs, a) + SetWeight(vs, b)
  {
    if vs != [] {
      var i := vs[0].index;
      if i in a {
        assert a + b - {i} == (a - {i}) + b;
        SetWeightDisjoint(vs[1..], a - {i}, b);
      } else if i in b {
        assert a + b - {i} == a + (b - {i});
        SetWeightDisjoint(vs[1..], a, b - {i});
      } else {
        SetWeightDisjoint(vs[1..], a, b);
      }
    }
  }

  lemma {:induction false} SetWeightSingle(vs: seq<Validator>, i: u64)
    ensures SetWeight(vs, {i}) == WeightOf(vs, i)
  {
    if vs != [] {
      if vs[0].index == i {
        assert {i} - {i} == {};
        SetWeightEmpty(vs[1..]);
      } else {
        SetWeightSingle(vs[1..], i);
      }
    }
  }

  lemma {:induction false} SetWeightEmpty(vs: seq<Validator>)
    ensures SetWeight(vs, {}) == 0
  {
    if vs != [] {
      assert {} - {vs[0].index} == {};
      SetWeightEmpty(vs[1..]);
    }
  }

  /** Adding one voter adds exactly its listed weight. */
  lemma {:induction false} SetWeightAdd(vs: seq<Validator>, s: set<u64>, i: u64)
    requires i !in s
    ensures SetWeight(vs, s + {i}) == SetWeight(vs, s) + WeightOf(vs, i)
  {
    SetWeightDisjoint(vs, s, {i});
    SetWeightSingle(vs, i);
  }

  lemma {:induction false} SetWeightMonotone(vs: seq<Validator>, a: set<u64>, b: set<u64>)
    requires a <= b
    ensures SetWeight(vs, a) <= SetWeight(vs, b)
  {
    SetWeightDisjoint(vs, a, b - a);
    assert a + (b - a) == b;
  }

  lemma {:induction false} SetWeightBound(vs: seq<Validator>, s: set<u64>)
    ensures SetWeight(vs, s) <= SumWeights(vs)
  {
    if vs != [] {
      SetWeightBound(vs[1..], if vs[0].index in s then s - {vs[0].index} else s);
    }
  }

  /** Voters outside the list carry no weight. */
  lemma {:induction false} SetWeightListed(vs: seq<Validator>, s: set<u64>, listed: set<u64>)
    requires forall v :: v in vs ==> v.index in listed || v.index !in s
    ensures SetWeight(vs, s) == SetWeight(vs, s * listed)
  {
    if vs != [] {
      var i := vs[0].index;
      if i in s {
        assert s * listed - {i} == (s - {i}) * listed;
        SetWeightListed(vs[1..], s - {i}, listed);
      } else {
        SetWeightListed(vs[1..], s, listed);
      }
    }
  }

  lemma {:induction false} SaturatingTotalExact(vs: seq<Validator>, acc: u64)
    ensures SaturatingTotal(vs, acc) ==
            if acc + SumWeights(vs) <= U64_MAX then acc + SumWeights(vs) else U64_MAX
  {
    if vs != [] {
      SaturatingTotalExact(vs[1..], SatAdd(acc, vs[0].weight));
    }
  }

  // ---- leaders ----

  /** Below saturation, any `n` consecutive rounds give each of the `n` listed validators its turn. */
  lemma {:induction false} EveryoneLeads(vs: ValidatorSet, height: u64, from: nat, p: nat) returns (round: nat)
    requires p < |vs.validators| && height + from + |vs.validators| <= U64_MAX
    ensures from <= round < from + |vs.validators|
    ensures vs.LeaderForRound(height, round) == vs.validators[p].index
  {
    var n := |vs.validators|;
    var at := (height + from) % n;
    var wait := if p >= at then p - at else p - at + n;
    round := from + wait;
    ModShift(height + from, wait, n);
  }

  /** The leader stands at the position that is left when the sum of height and round, cut off at the
      64-bit maximum, is divided by the number of validators. */
  lemma {:induction false} LeaderPosition(vs: ValidatorSet, height: u64, round: nat, q: nat, p: nat)
    requires round <= 0xFFFF_FFFF_FFFF_FFFF && p < |vs.validators|
    requires q * |vs.validators| + p ==
             if height + round < 0x1_0000_0000_0000_0000 then height + round else 0xFFFF_FFFF_FFFF_FFFF
    ensures vs.LeaderForRound(height, round) == vs.validators[p].index
  {
    ModUnique(q * |vs.validators| + p, q, p, |vs.validators|);
  }

  lemma {:induction false} ModShift(a: nat, b: nat, n: nat)
    requires n > 0 && b < n
    ensures (a + b) % n == if a % n + b < n then a % n + b else a % n + b - n
  {
    var q, r := a / n, a % n;
    if r + b < n {
      ModUnique(a + b, q, r + b, n);
    } else {
      assert (q + 1) * n == q * n + n;
      ModUnique(a + b, q + 1, r + b - n, n);
    }
  }

  lemma {:induction false} ModUnique(x: nat, q: nat, r: nat, n: nat)
    requires n > 0 && r < n && x == q * n + r
    ensures x % n == r
  {
    var d := x / n - q;
    MulSign(n, d);
    assert x == n * (x / n) + x % n;
    assert n * (x / n) - q * n == n * d;
  }

  lemma {:induction false} MulSign(n: int, d: int)
    requires n > 0
    ensures d > 0 ==> n * d >= n
    ensures d < 0 ==> n * d <= -n
  {
  }

  // ---- quorum overlap ----

  /** Inclusion-exclusion on voter weights. */
  lemma {:induction false} SetWeightOverlap(vs: seq<Validator>, a: set<u64>, b: set<u64>)
    ensures SetWeight(vs, a * b) + SetWeight(vs, a + b) == SetWeight(vs, a) + SetWeight(vs, b)
  {
    SetWeightDisjoint(vs, a * b, a - b);
    SetWeightDisjoint(vs, a - b, b);
    assert a * b + (a - b) == a && (a - b) + b == a + b;
  }

  /** Two quorums share at least `2q - total`; with total weight `3f + 1` that is `f + 1`. */
  lemma {:induction false} QuorumOverlap(vs: ValidatorSet, a: set<u64>, b: set<u64>)
    requires vs.Weight(a) >= vs.QuorumWeight() && vs.Weight(b) >= vs.QuorumWeight()
    ensures vs.Weight(a * b) >= 2 * vs.QuorumWeight() - vs.ExactTotal()
    ensures forall f: nat :: vs.ExactTotal() == 3 * f + 1 <= U64_MAX ==> vs.Weight(a * b) >= f + 1
  {
    SetWeightOverlap(vs.validators, a, b);
    SetWeightBound(vs.validators, a + b);
    SaturatingTotalExact(vs.validators, 0);
  }
}
