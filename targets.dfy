/**
 * The target-allocation table (`normalize_targets` in
 * portfolio_module/portfolio.py): one entry per declared group holding a
 * weight and a tolerance band, with the weights rescaled when they do not
 * add up to 1.
 */
module Targets {
  import opened Basics
  import opened Ordering

  /** One declared target as given by the caller; `band` is None when the key is absent. */
  datatype TargetDecl = TargetDecl(group: string, targetWeight: real, band: Option<real>)

  /** The table entry of a group: its weight and its band. */
  datatype TargetEntry = TargetEntry(w: real, band: real)

  /** Raw weights whose sum is within this distance of 1 are left as they are. */
  const WeightTolerance: real := 0.000001

  /** The group of every declaration, in order. */
  function DeclaredGroups(targets: seq<TargetDecl>): (gs: seq<string>)
    ensures |gs| == |targets|
    ensures forall i :: 0 <= i < |targets| ==> gs[i] == targets[i].group
  {
    Project(targets, (d: TargetDecl) => d.group)
  }

  /** The entry one declaration produces; a missing band reads as 0. */
  function EntryOf(x: TargetDecl): (e: TargetEntry)
    ensures e.w == x.targetWeight
    ensures x.band.None? ==> e.band == 0.0
    ensures x.band.Some? ==> e.band == x.band.value
  {
    TargetEntry(x.targetWeight, x.band.GetOr(0.0))
  }

  /** The declaration of index `i` is the last one naming its group. */
  ghost predicate LastForGroup(targets: seq<TargetDecl>, i: int)
    requires 0 <= i < |targets|
  {
    forall j :: i < j < |targets| ==> targets[j].group != targets[i].group
  }

  /** The table the dict comprehension builds: one key per declared group. */
  function RawTable(targets: seq<TargetDecl>): (t: map<string, TargetEntry>)
    ensures forall g :: g in t <==> g in DeclaredGroups(targets)
  {
    if |targets| == 0 then map[]
    else
      var init := targets[..|targets| - 1];
      var last := targets[|targets| - 1];
      assert DeclaredGroups(targets) == DeclaredGroups(init) + [last.group];
      RawTable(init)[last.group := EntryOf(last)]
  }

  /** When a group is declared more than once, its last declaration is the one kept. */
  lemma {:induction false} RawTableLastWins(targets: seq<TargetDecl>, i: int)
    requires 0 <= i < |targets| && LastForGroup(targets, i)
    ensures targets[i].group in RawTable(targets)
    ensures RawTable(targets)[targets[i].group] == EntryOf(targets[i])
  {
    var init := targets[..|targets| - 1];
    if i < |init| {
      assert targets[|targets| - 1].group != targets[i].group;
      assert LastForGroup(init, i);
      RawTableLastWins(init, i);
    }
  }

  /** The table's keys in the order a Python dict keeps them: first declaration first. */
  function TableOrder(targets: seq<TargetDecl>): (keys: seq<string>)
    ensures forall k :: k in keys <==> k in RawTable(targets)
    ensures forall i, j :: 0 <= i < j < |keys| ==> keys[i] != keys[j]
  {
    Distinct(DeclaredGroups(targets))
  }

  /** Sum of the weights of `keys`, added in that order. */
  function WeightSum(keys: seq<string>, t: map<string, TargetEntry>): real
    requires forall k :: k in keys ==> k in t
  {
    if |keys| == 0 then 0.0 else WeightSum(keys[..|keys| - 1], t) + t[keys[|keys| - 1]].w
  }

  /** `total_w`: the sum of the raw weights, one per group in declaration order. */
  function RawWeightTotal(targets: seq<TargetDecl>): real
  {
    WeightSum(TableOrder(targets), RawTable(targets))
  }

  /** The raw total is never negative when no weight is, and it is 0 when every weight is. */
  lemma RawWeightTotalSign(targets: seq<TargetDecl>)
    ensures (forall g :: g in RawTable(targets) ==> RawTable(targets)[g].w >= 0.0) ==> RawWeightTotal(targets) >= 0.0
    ensures (forall g :: g in RawTable(targets) ==> RawTable(targets)[g].w == 0.0) ==> RawWeightTotal(targets) == 0.0
  {
    WeightSumSign(TableOrder(targets), RawTable(targets));
  }

  /** A sum of weights that are all non-negative is non-negative, and one of zeros is 0. */
  lemma {:induction false} WeightSumSign(keys: seq<string>, t: map<string, TargetEntry>)
    requires forall k :: k in keys ==> k in t
    ensures (forall k :: k in keys ==> t[k].w >= 0.0) ==> WeightSum(keys, t) >= 0.0
    ensures (forall k :: k in keys ==> t[k].w == 0.0) ==> WeightSum(keys, t) == 0.0
  {
    if |keys| > 0 {
      WeightSumSign(keys[..|keys| - 1], t);
    }
  }

  /** One entry's weight divided by the raw total, or 0 when that total is 0; the band is kept. */
  function Rescale(e: TargetEntry, total: real): (r: TargetEntry)
    ensures r.band == e.band
    ensures total != 0.0 ==> r.w == e.w / total
    ensures total == 0.0 ==> r.w == 0.0
  {
    e.(w := if total != 0.0 then e.w / total else 0.0)
  }

  /** Reference definition of `normalize_targets`. */
  function Normalized(targets: seq<TargetDecl>): (t: map<string, TargetEntry>)
    ensures forall g :: g in t <==> g in DeclaredGroups(targets)
    ensures forall g :: g in t ==> t[g].band == RawTable(targets)[g].band
    ensures Abs(RawWeightTotal(targets) - 1.0) <= WeightTolerance ==> t == RawTable(targets)
    ensures Abs(RawWeightTotal(targets) - 1.0) > WeightTolerance && RawWeightTotal(targets) != 0.0 ==>
              forall g :: g in t ==> t[g].w == RawTable(targets)[g].w / RawWeightTotal(targets)
    ensures RawWeightTotal(targets) == 0.0 ==> forall g :: g in t ==> t[g].w == 0.0
  {
    var raw := RawTable(targets);
    var total := RawWeightTotal(targets);
    if Abs(total - 1.0) > WeightTolerance then map k | k in raw :: Rescale(raw[k], total) else raw
  }

  /**
   * `normalize_targets`: build the table, then, when the raw weights miss 1 by
   * more than the tolerance, rescale every entry in place, in key order.
   */
  method NormalizeTargets(targets: seq<TargetDecl>) returns (t: map<string, TargetEntry>)
    ensures t == Normalized(targets)
  {
    t := RawTable(targets);
    var keys := TableOrder(targets);
    var total := WeightSum(keys, t);
    if Abs(total - 1.0) > WeightTolerance {
      t := RescaleEntries(t, keys, total);
      RescaledTableIsNormalized(targets, t);
    }
  }

  /** The loop of `normalize_targets`: divide the weight of each key of `keys`, in turn, by `total`. */
  method RescaleEntries(t0: map<string, TargetEntry>, keys: seq<string>, total: real) returns (t: map<string, TargetEntry>)
    requires forall k :: k in keys ==> k in t0
    requires forall i, j :: 0 <= i < j < |keys| ==> keys[i] != keys[j]
    ensures forall k :: k in t <==> k in t0
    ensures forall k :: k in t ==> t[k] == if k in keys then Rescale(t0[k], total) else t0[k]
  {
    t := t0;
    for i := 0 to |keys|
      invariant forall k :: k in t <==> k in t0
      invariant forall k :: k in t ==> t[k] == if k in keys[..i] then Rescale(t0[k], total) else t0[k]
    {
      var k := keys[i];
      assert k !in keys[..i];
      assert keys[..i + 1] == keys[..i] + [k];
      t := t[k := Rescale(t[k], total)];
    }
    assert keys[..|keys|] == keys;
  }

  /** A table holding every raw entry rescaled is the normalized table. */
  lemma RescaledTableIsNormalized(targets: seq<TargetDecl>, t: map<string, TargetEntry>)
    requires Abs(RawWeightTotal(targets) - 1.0) > WeightTolerance
    requires forall k :: k in t <==> k in RawTable(targets)
    requires forall k :: k in t ==> t[k] == Rescale(RawTable(targets)[k], RawWeightTotal(targets))
    ensures t == Normalized(targets)
  {
  }

  // ---------------------------------------------------------------------
  // What the rescaling achieves
  // ---------------------------------------------------------------------

  /** Dividing every weight by `total` divides their sum by `total`. */
  lemma {:induction false} WeightSumRescaled(keys: seq<string>, raw: map<string, TargetEntry>,
                                            t: map<string, TargetEntry>, total: real)
    requires total != 0.0
    requires forall k :: k in keys ==> k in raw && k in t && t[k].w == raw[k].w / total
    ensures WeightSum(keys, t) == WeightSum(keys, raw) / total
  {
    if |keys| > 0 {
      var init, k := keys[..|keys| - 1], keys[|keys| - 1];
      WeightSumRescaled(init, raw, t, total);
      DivisionDistributes(WeightSum(init, raw), raw[k].w, total);
    }
  }

  lemma DivisionBySelf(c: real)
    requires c != 0.0
    ensures c / c == 1.0
  {
  }

  lemma DivisionDistributes(a: real, b: real, c: real)
    requires c != 0.0
    ensures a / c + b / c == (a + b) / c
  {
  }

  /** Weights that are all 0 add up to 0. */
  lemma {:induction false} WeightSumOfZeros(keys: seq<string>, t: map<string, TargetEntry>)
    requires forall k :: k in keys ==> k in t && t[k].w == 0.0
    ensures WeightSum(keys, t) == 0.0
  {
    if |keys| > 0 {
      WeightSumOfZeros(keys[..|keys| - 1], t);
    }
  }

  /** After a rescaling by a nonzero raw total, the weights add up to exactly 1. */
  lemma NormalizedWeightsSumToOne(targets: seq<TargetDecl>)
    requires Abs(RawWeightTotal(targets) - 1.0) > WeightTolerance
    requires RawWeightTotal(targets) != 0.0
    ensures WeightSum(TableOrder(targets), Normalized(targets)) == 1.0
  {
    var total := RawWeightTotal(targets);
    var keys := TableOrder(targets);
    var s := WeightSum(keys, Normalized(targets));
    WeightSumRescaled(keys, RawTable(targets), Normalized(targets), total);
    DivisionBySelf(total);
  }

  /**
   * Whatever the declarations, the normalized weights add up to 1 within the
   * tolerance, unless the raw weights add up to 0, when every weight is 0.
   */
  lemma NormalizedSumWithinTolerance(targets: seq<TargetDecl>)
    ensures RawWeightTotal(targets) != 0.0 ==>
              Abs(WeightSum(TableOrder(targets), Normalized(targets)) - 1.0) <= WeightTolerance
    ensures RawWeightTotal(targets) == 0.0 ==> WeightSum(TableOrder(targets), Normalized(targets)) == 0.0
  {
    var total := RawWeightTotal(targets);
    if Abs(total - 1.0) > WeightTolerance {
      if total != 0.0 {
        NormalizedWeightsSumToOne(targets);
      } else {
        WeightSumOfZeros(TableOrder(targets), Normalized(targets));
      }
    }
  }

  /** Every normalized weight is 0 exactly when the raw weights add up to 0. */
  lemma AllZeroIffZeroRawSum(targets: seq<TargetDecl>)
    ensures (forall g :: g in Normalized(targets) ==> Normalized(targets)[g].w == 0.0)
        <==> RawWeightTotal(targets) == 0.0
  {
    if forall g :: g in Normalized(targets) ==> Normalized(targets)[g].w == 0.0 {
      ZeroWeightsMeanZeroRawSum(targets, Normalized(targets));
    }
  }

  /** Normalized weights that are all 0 come from raw weights adding up to 0. */
  lemma ZeroWeightsMeanZeroRawSum(targets: seq<TargetDecl>, t: map<string, TargetEntry>)
    requires t == Normalized(targets)
    requires forall g :: g in t ==> t[g].w == 0.0
    ensures RawWeightTotal(targets) == 0.0
  {
    var keys := TableOrder(targets);
    var total := RawWeightTotal(targets);
    assert total != 0.0 ==> Abs(WeightSum(keys, t) - 1.0) <= WeightTolerance by {
      NormalizedSumWithinTolerance(targets);
      assert WeightSum(TableOrder(targets), Normalized(targets)) == WeightSum(keys, t);
    }
    assert forall k :: k in keys ==> k in t;
    ZeroSumIsOutsideTolerance(keys, t, total);
  }

  /** Weights that are all 0 sum to 0, which is not within the tolerance of 1. */
  lemma ZeroSumIsOutsideTolerance(keys: seq<string>, t: map<string, TargetEntry>, total: real)
    requires forall k :: k in keys ==> k in t
    requires forall g :: g in t ==> t[g].w == 0.0
    requires total != 0.0 ==> Abs(WeightSum(keys, t) - 1.0) <= WeightTolerance
    ensures total == 0.0
  {
    WeightSumOfZeros(keys, t);
  }
}
