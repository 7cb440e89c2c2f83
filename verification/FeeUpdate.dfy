/** The next block's base fees. */
module FeeUpdate {
  import opened Common
  import opened Fees

  /** The amount listed first for a dimension, or 0. */
  function UsedOf(usage: seq<(Dimension, u64)>, d: Dimension): u64 {
    if usage == [] then 0
    else if usage[0].0 == d then usage[0].1
    else UsedOf(usage[1..], d)
  }

  function NextFee(p: Params, used: u64): u128 {
    var adjustment := p.baseFee / 8;
    var moved := if used > p.targetUsage then Saturated(p.baseFee + adjustment)
                 else if used < p.targetUsage then p.baseFee - adjustment
                 else p.baseFee;
    if moved == 0 then 1 else moved
  }

  function Updated(p: Params, usage: seq<(Dimension, u64)>): Params {
    p.(baseFee := NextFee(p, UsedOf(usage, p.dimension)))
  }

  method UpdateBaseFees(params: array<Params>, usage: seq<(Dimension, u64)>)
    modifies params
    ensures forall k :: 0 <= k < params.Length ==>
              params[k] == Updated(old(params[k]), usage)
  {
    for i := 0 to params.Length
      invariant forall k :: 0 <= k < i ==>
                  params[k] == Updated(old(params[k]), usage)
      invariant forall k :: i <= k < params.Length ==> params[k] == old(params[k])
    {
      var p := params[i];
      var used := UsedOf(usage, p.dimension);
      var adjustment := p.baseFee / 8;
      if used > p.targetUsage {
        p := p.(baseFee := Saturated(p.baseFee + adjustment));
      } else if used < p.targetUsage {
        p := p.(baseFee := p.baseFee - adjustment);
      }
      if p.baseFee == 0 {
        p := p.(baseFee := 1);
      }
      params[i] := p;
    }
  }

  /** The usage is the first one listed for the dimension. */
  lemma {:induction false} UsedMeans(usage: seq<(Dimension, u64)>, d: Dimension, k: nat)
    requires k < |usage| && usage[k].0 == d && forall j :: 0 <= j < k ==> usage[j].0 != d
    ensures UsedOf(usage, d) == usage[k].1
  {
    if k > 0 {
      assert usage[0].0 != d;
      UsedMeans(usage[1..], d, k - 1);
    }
  }

  lemma {:induction false} UnusedMeans(usage: seq<(Dimension, u64)>, d: Dimension)
    requires forall j :: 0 <= j < |usage| ==> usage[j].0 != d
    ensures UsedOf(usage, d) == 0
  {
    if usage != [] {
      assert usage[0].0 != d;
      UnusedMeans(usage[1..], d);
    }
  }

  /** A fee never is zero; it moves by an eighth, rounded down, towards what demand asks for. */
  lemma {:induction false} FeeMoves(p: Params, used: u64)
    ensures NextFee(p, used) >= 1
    ensures p.baseFee > 0 && used > p.targetUsage ==>
              NextFee(p, used) == if p.baseFee + p.baseFee / 8 < 0x1_0000_0000_0000_0000_0000_0000_0000_0000
                                  then p.baseFee + p.baseFee / 8 else 0xFFFF_FFFF_FFFF_FFFF_FFFF_FFFF_FFFF_FFFF
    ensures p.baseFee > 0 && used < p.targetUsage ==> NextFee(p, used) == p.baseFee - p.baseFee / 8
    ensures p.baseFee > 0 && used == p.targetUsage ==> NextFee(p, used) == p.baseFee
    ensures p.baseFee == 0 ==> NextFee(p, used) == 1
  {
  }

  /** Higher usage never means a lower next fee. */
  lemma {:induction false} FeeMonotone(p: Params, used: u64, more: u64)
    requires used <= more
    ensures NextFee(p, used) <= NextFee(p, more)
  {
  }

  /** Demand above target raises a positive fee exactly when it is at least 8 and below the maximum: smaller
      fees are stuck, since their eighth rounds down to nothing. */
  lemma {:induction false} RisesIff(p: Params, used: u64)
    requires p.baseFee > 0 && used > p.targetUsage
    ensures NextFee(p, used) > p.baseFee <==> 8 <= p.baseFee < 0xFFFF_FFFF_FFFF_FFFF_FFFF_FFFF_FFFF_FFFF
  {
  }
}
