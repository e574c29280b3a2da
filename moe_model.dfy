/**
 * The training-side bookkeeping of `MoEModel`: the conditional-covariate
 * configuration and the layer widths handed to `MoEModelTorch`, the
 * start-token mask and the weighting of the reconstruction losses, and the
 * weighting of the KL term together with the fused latent it returns.
 *
 * The loss functions, the KL divergence and the annealing schedule live in
 * the base model and are uninterpreted functions here.
 */
module MoEModel {
  import opened Wrappers
  import opened MoE

  /** Where the conditional covariate was found: an `obsm` matrix of that width, or an `obs` column of codes. */
  datatype Covariate = InObsm(width: nat) | InObs(values: seq<int>)

  /**
   * The entries of `joint_params` that `MoEModel.__init__` reads or passes
   * through; `xdim` is the caller's entry, which the network reads.
   */
  datatype JointParams = JointParams(xdim: nat, hdim: nat, zdim: nat, condInput: bool, cEmbeddingDim: Option<nat>)

  /** `loss_weights`: RNA reconstruction, TCR reconstruction, KL. */
  datatype LossWeights = LossWeights(rna: real, tcr: real, kld: real)

  /** `obs[c].unique()`: the distinct values in order of first appearance. */
  function Unique(xs: seq<int>): (u: seq<int>)
    ensures forall x :: x in u <==> x in xs
    ensures forall i, j | 0 <= i < j < |u| :: u[i] != u[j]
    ensures |u| <= |xs|
  {
    if xs == [] then []
    else
      var u := Unique(xs[..|xs| - 1]);
      assert forall x :: x in xs <==> x in xs[..|xs| - 1] || x == xs[|xs| - 1] by {
        assert xs == xs[..|xs| - 1] + [xs[|xs| - 1]];
      }
      if xs[|xs| - 1] in u then u else u + [xs[|xs| - 1]]
  }

  /** A sequence without repetitions has as many elements as its set. */
  lemma {:induction false} DistinctCard(u: seq<int>)
    requires forall i, j | 0 <= i < j < |u| :: u[i] != u[j]
    ensures |set x | x in u| == |u|
    decreases |u|
  {
    if u != [] {
      var init := u[..|u| - 1];
      DistinctCard(init);
      assert (set x | x in u) == (set x | x in init) + {u[|u| - 1]} by {
        assert u == init + [u[|u| - 1]];
      }
      assert u[|u| - 1] !in init;
    }
  }

  /** The number of covariate labels: the width of the `obsm` entry, or the number of distinct `obs` values. */
  function LabelCount(c: Covariate): (n: nat)
    ensures c.InObsm? ==> n == c.width
    ensures c.InObs? ==> n == |set v | v in c.values|
  {
    match c
    case InObsm(width) => width
    case InObs(values) =>
      var u := Unique(values);
      DistinctCard(u);
      assert (set v | v in u) == (set v | v in values);
      |u|
  }

  /**
   * `num_conditional_labels` and `cond_dim` of `MoEModel.__init__`: both 0
   * without a covariate; otherwise the label count, and an embedding of 20
   * columns unless `c_embedding_dim` says otherwise.
   */
  function ConditionalConfig(cond: Option<Covariate>, cEmbeddingDim: Option<nat>): (r: (nat, nat))
    ensures cond.None? ==> r == (0, 0)
    ensures cond.Some? && cEmbeddingDim.None? ==> r.1 == 20
    ensures cond.Some? && cEmbeddingDim.Some? ==> r.1 == cEmbeddingDim.value
    ensures cond.Some? && cond.value.InObsm? ==> r.0 == cond.value.width
    ensures cond.Some? && cond.value.InObs? ==> r.0 == |set v | v in cond.value.values|
  {
    match cond
    case None => (0, 0)
    case Some(c) => (LabelCount(c), if cEmbeddingDim.None? then 20 else cEmbeddingDim.value)
  }

  /**
   * The widths `MoEModel.__init__` hands to `MoEModelTorch`: the vocabulary
   * size becomes `num_seq_labels`, the gene count is the `xdim` of the joint
   * parameters, and the covariate sets the conditional widths.
   */
  function ModelDims(vocabSize: nat, joint: JointParams, cond: Option<Covariate>): (d: Dims)
    ensures d.numSeqLabels == vocabSize && d.xdim == joint.xdim
    ensures d.hdim == joint.hdim && d.zdim == joint.zdim && d.condInput == joint.condInput
    ensures (d.numConditionalLabels, d.condDim) == ConditionalConfig(cond, joint.cEmbeddingDim)
  {
    var (count, dim) := ConditionalConfig(cond, joint.cEmbeddingDim);
    Dims(joint.xdim, joint.hdim, count, dim, joint.condInput, joint.zdim, vocabSize)
  }

  /**
   * Without a covariate the network built as written has no embedding table,
   * and its encoders and decoders take no extra columns.
   */
  lemma UnconditionalModel(vocabSize: nat, joint: JointParams, p: Parts)
    requires PartsFit(ModelDims(vocabSize, joint, None), p, ChainWidthsAsWritten(joint.hdim))
    ensures var m := BuildAsWritten(ModelDims(vocabSize, joint, None), p);
      && m.condEmb.None?
      && m.tcrVaeEncoder.inWidth == m.rnaVaeEncoder.inWidth == joint.hdim
      && m.tcrVaeDecoder.inWidth == m.rnaVaeDecoder.inWidth == joint.zdim
  {
  }

  /**
   * With a covariate and no explicit embedding width, the network built as written owns a
   * 20-column embedding with one row per covariate label, and every decoder
   * takes 20 extra columns.
   */
  lemma ConditionalModel(vocabSize: nat, joint: JointParams, c: Covariate, p: Parts)
    requires joint.cEmbeddingDim.None?
    requires PartsFit(ModelDims(vocabSize, joint, Some(c)), p, ChainWidthsAsWritten(joint.hdim))
    ensures var m := BuildAsWritten(ModelDims(vocabSize, joint, Some(c)), p);
      && m.condEmb.Some? && m.condEmb.value.width == 20
      && m.condEmb.value.count == ConditionalConfig(Some(c), None).0
      && m.tcrVaeDecoder.inWidth == m.rnaVaeDecoder.inWidth == joint.zdim + 20
  {
  }

  /** Rows of a batch laid end to end, as `flatten` does. */
  function Flatten<T>(x: seq<seq<T>>): (r: seq<T>)
    ensures x == [] ==> r == []
    ensures forall e | e in r :: exists i | 0 <= i < |x| :: e in x[i]
    ensures forall i, e | 0 <= i < |x| && e in x[i] :: e in r
  {
    if x == [] then [] else
      assert forall i | 0 <= i < |x| - 1 :: x[1..][i] == x[i + 1];
      x[0] + Flatten(x[1..])
  }

  /** A batch of `|x|` rows of `w` entries flattens to `|x| * w` entries. */
  lemma {:induction false} FlattenLength<T>(x: seq<seq<T>>, w: nat)
    requires Rectangular(x, w)
    ensures |Flatten(x)| == |x| * w
    decreases |x|
  {
    if x != [] {
      assert Rectangular(x[1..], w);
      FlattenLength(x[1..], w);
      assert |x| * w == w + (|x| - 1) * w;
    }
  }

  /** In a batch of `w`-wide rows, entry `k` of row `i` sits at `i * w + k` of the flattened batch. */
  lemma {:induction false} FlattenIndex<T>(x: seq<seq<T>>, w: nat, i: nat, k: nat)
    requires Rectangular(x, w) && i < |x| && k < w
    ensures i * w + k < |Flatten(x)| && Flatten(x)[i * w + k] == x[i][k]
    decreases i
  {
    FlattenLength(x, w);
    if i > 0 {
      assert Rectangular(x[1..], w);
      FlattenIndex(x[1..], w, i - 1, k);
      assert (i - 1) * w + k == i * w + k - w;
    }
  }

  /** The tokens of one row whose positions `keep` marks, in order: `row[keep]`. */
  function Pick(row: seq<int>, keep: seq<bool>): (r: seq<int>)
    requires |keep| == |row|
    ensures |r| <= |row|
    ensures forall x | x in r :: x in row
  {
    if row == [] then []
    else (if keep[0] then [row[0]] else []) + Pick(row[1..], keep[1..])
  }

  lemma {:induction false} PickAppend(a: seq<int>, ka: seq<bool>, b: seq<int>, kb: seq<bool>)
    requires |ka| == |a| && |kb| == |b|
    ensures Pick(a + b, ka + kb) == Pick(a, ka) + Pick(b, kb)
    decreases |a|
  {
    if a != [] {
      assert (a + b)[0] == a[0] && (ka + kb)[0] == ka[0];
      assert (a + b)[1..] == a[1..] + b && (ka + kb)[1..] == ka[1..] + kb;
      PickAppend(a[1..], ka[1..], b, kb);
      var head := if ka[0] then [a[0]] else [];
      assert Pick(a + b, ka + kb) == head + (Pick(a[1..], ka[1..]) + Pick(b, kb));
      assert Pick(a, ka) == head + Pick(a[1..], ka[1..]);
    } else {
      assert a + b == b && ka + kb == kb;
    }
  }

  lemma {:induction false} PickAll(a: seq<int>, k: seq<bool>)
    requires |k| == |a| && forall j | 0 <= j < |k| :: k[j]
    ensures Pick(a, k) == a
    decreases |a|
  {
    if a != [] {
      PickAll(a[1..], k[1..]);
    }
  }

  /** `tcr[mask]`: the marked tokens, row after row. */
  function Select(tcr: Tokens, keep: seq<seq<bool>>): (r: seq<int>)
    requires |keep| == |tcr| && forall i | 0 <= i < |tcr| :: |keep[i]| == |tcr[i]|
    ensures tcr == [] ==> r == []
    ensures forall x | x in r :: exists i | 0 <= i < |tcr| :: x in tcr[i]
  {
    Flatten(seq(|tcr|, i requires 0 <= i < |tcr| => Pick(tcr[i], keep[i])))
  }

  /** The rows of a boolean matrix. */
  function Grid(mask: array2<bool>): (g: seq<seq<bool>>)
    reads mask
    ensures |g| == mask.Length0
    ensures forall i | 0 <= i < |g| :: |g[i]| == mask.Length1
    ensures forall i, j | 0 <= i < mask.Length0 && 0 <= j < mask.Length1 :: g[i][j] == mask[i, j]
  {
    seq(mask.Length0, i requires 0 <= i < mask.Length0 reads mask =>
      seq(mask.Length1, j requires 0 <= j < mask.Length1 reads mask => mask[i, j]))
  }

  /** Each TCR row without its two start tokens, at position 0 (alpha) and `n // 2` (beta). */
  function DropStartTokens(tcr: Tokens): (r: Tokens)
    requires Rectangular(tcr, Width(tcr)) && Width(tcr) >= 2
    ensures |r| == |tcr| && Rectangular(r, Width(tcr) - 2)
    ensures forall i | 0 <= i < |tcr| ::
      tcr[i] == [tcr[i][0]] + r[i][..Width(tcr) / 2 - 1] + [tcr[i][Width(tcr) / 2]] + r[i][Width(tcr) / 2 - 1..]
  {
    var n := Width(tcr);
    var r := seq(|tcr|, i requires 0 <= i < |tcr| => tcr[i][1..n / 2] + tcr[i][n / 2 + 1..]);
    assert forall i | 0 <= i < |tcr| ::
      tcr[i] == [tcr[i][0]] + r[i][..n / 2 - 1] + [tcr[i][n / 2]] + r[i][n / 2 - 1..] by {
      forall i | 0 <= i < |tcr|
        ensures tcr[i] == [tcr[i][0]] + r[i][..n / 2 - 1] + [tcr[i][n / 2]] + r[i][n / 2 - 1..]
      {
        assert r[i][..n / 2 - 1] == tcr[i][1..n / 2];
        assert r[i][n / 2 - 1..] == tcr[i][n / 2 + 1..];
      }
    }
    r
  }

  /**
   * The targets the TCR predictions are compared against: the tokens
   * without the two start tokens when the predictions are two positions
   * shorter than the rows (Transformer and GRU decoders), every token
   * otherwise (CNN decoder).
   */
  function TcrTargets(predWidth: nat, tcr: Tokens): (t: seq<int>)
    requires Rectangular(tcr, Width(tcr))
    ensures predWidth == Width(tcr) - 2 ==> |t| == |tcr| * predWidth
    ensures predWidth != Width(tcr) - 2 ==> t == Flatten(tcr)
  {
    if predWidth == Width(tcr) - 2 then
      var dropped := DropStartTokens(tcr);
      FlattenLength(dropped, predWidth);
      Flatten(dropped)
    else Flatten(tcr)
  }

  /**
   * With the start tokens dropped, row `i` contributes its tokens `1 .. n//2 - 1`
   * and `n//2 + 1 .. n - 1`, in order, at positions `i * (n - 2) ..` of the targets.
   */
  lemma TargetsSkipStartTokens(tcr: Tokens, i: nat, k: nat)
    requires Rectangular(tcr, Width(tcr)) && Width(tcr) >= 2
    requires i < |tcr| && k < Width(tcr) - 2
    ensures var n := Width(tcr);
      var t := TcrTargets(n - 2, tcr);
      i * (n - 2) + k < |t| && t[i * (n - 2) + k] == tcr[i][if k < n / 2 - 1 then k + 1 else k + 2]
  {
    var n := Width(tcr);
    var d := DropStartTokens(tcr);
    FlattenIndex(d, n - 2, i, k);
    assert d[i] == tcr[i][1..n / 2] + tcr[i][n / 2 + 1..];
  }

  /** The row mask of `calculate_loss`: false at 0 and `n // 2`, true elsewhere. */
  function StartMask(n: nat): (keep: seq<bool>)
    ensures |keep| == n
  {
    seq(n, j => j != 0 && j != n / 2)
  }

  /** The start mask of a row of `n >= 2` tokens: one false, `n//2 - 1` trues, one false, the remaining trues. */
  lemma StartMaskLayout(n: nat)
    requires n >= 2
    ensures StartMask(n) == [false] + seq(n / 2 - 1, _ => true) + [false] + seq(n - n / 2 - 1, _ => true)
  {
    var ta, tb := seq(n / 2 - 1, _ => true), seq(n - n / 2 - 1, _ => true);
    var layout := [false] + ta + [false] + tb;
    assert |layout| == n;
    forall j | 0 <= j < n ensures StartMask(n)[j] == layout[j] {
      if j == 0 {
      } else if j < n / 2 {
        assert layout[j] == ta[j - 1];
      } else if j == n / 2 {
      } else {
        assert layout[j] == tb[j - n / 2 - 1];
      }
    }
  }

  /** A grid whose every row is false exactly at 0 and `n // 2` repeats the start mask. */
  lemma StartMaskRows(keep: seq<seq<bool>>, n: nat)
    requires forall i | 0 <= i < |keep| :: |keep[i]| == n
    requires forall i, j | 0 <= i < |keep| && 0 <= j < n :: keep[i][j] == (j != 0 && j != n / 2)
    ensures keep == seq(|keep|, _ => StartMask(n))
  {
    forall i | 0 <= i < |keep| ensures keep[i] == StartMask(n) {
      assert forall j | 0 <= j < n :: keep[i][j] == StartMask(n)[j];
    }
  }

  /** The alpha half of a row and the beta start token, under the mask's first `n//2 + 1` entries. */
  lemma PickAlphaHalf(row: seq<int>)
    requires |row| >= 2
    ensures var n := |row|;
      Pick(row[..n / 2 + 1], [false] + seq(n / 2 - 1, _ => true) + [false]) == row[1..n / 2]
  {
    var n := |row|;
    var a, ta := row[1..n / 2], seq(n / 2 - 1, _ => true);
    assert [row[0]] + a == row[..n / 2] by {
      assert row[..n / 2] == row[..1] + row[1..n / 2];
    }
    assert row[..n / 2 + 1] == [row[0]] + a + [row[n / 2]] by {
      assert row[..n / 2 + 1] == row[..n / 2] + [row[n / 2]];
    }
    PickAll(a, ta);
    PickAppend([row[0]], [false], a, ta);
    PickAppend([row[0]] + a, [false] + ta, [row[n / 2]], [false]);
  }

  lemma PickStartMask(row: seq<int>)
    requires |row| >= 2
    ensures Pick(row, StartMask(|row|)) == row[1..|row| / 2] + row[|row| / 2 + 1..]
  {
    var n := |row|;
    var upTo, b := row[..n / 2 + 1], row[n / 2 + 1..];
    var upToKeep, tb := [false] + seq(n / 2 - 1, _ => true) + [false], seq(n - n / 2 - 1, _ => true);
    assert row == upTo + b;
    StartMaskLayout(n);
    PickAlphaHalf(row);
    PickAll(b, tb);
    PickAppend(upTo, upToKeep, b, tb);
  }

  /** Selecting with the start mask on every row gives the tokens without their start tokens. */
  lemma SelectStartMask(tcr: Tokens)
    requires Rectangular(tcr, Width(tcr)) && Width(tcr) >= 2
    ensures Select(tcr, seq(|tcr|, _ => StartMask(Width(tcr)))) == Flatten(DropStartTokens(tcr))
  {
    var n := Width(tcr);
    var keep := seq(|tcr|, _ => StartMask(n));
    var picked := seq(|tcr|, i requires 0 <= i < |tcr| => Pick(tcr[i], keep[i]));
    var d := DropStartTokens(tcr);
    forall i | 0 <= i < |tcr| ensures picked[i] == d[i] {
      PickStartMask(tcr[i]);
    }
    assert picked == d;
  }

  /**
   * `calculate_loss`: the two RNA reconstructions against the expression
   * and the two TCR reconstructions against the TCR targets, each pair
   * averaged and weighted.
   */
  function Loss(rnaPred: seq<Matrix>, rna: Matrix, tcrPred: seq<Logits>, tcr: Tokens, w: LossWeights,
                lossRna: (Matrix, Matrix) -> real, lossTcr: (seq<Vector>, seq<int>) -> real): (r: Result<(real, real), TensorError>)
    requires Rectangular(tcr, Width(tcr))
    ensures r.Success? <==> |rnaPred| >= 2 && |tcrPred| >= 2
    ensures r.Failure? ==> r.error == ListTooShort
    ensures r.Success? ==>
      r.value.0 == w.rna * ((lossRna(rnaPred[0], rna) + lossRna(rnaPred[1], rna)) / 2.0)
    ensures r.Success? ==> var t := TcrTargets(Width(tcrPred[0]), tcr);
      r.value.1 == w.tcr * ((lossTcr(Flatten(tcrPred[0]), t) + lossTcr(Flatten(tcrPred[1]), t)) / 2.0)
  {
    if |rnaPred| < 2 || |tcrPred| < 2 then Failure(ListTooShort)
    else
      var targets := TcrTargets(Width(tcrPred[0]), tcr);
      Success(((lossRna(rnaPred[0], rna) + lossRna(rnaPred[1], rna)) * (0.5 * w.rna),
               (lossTcr(Flatten(tcrPred[0]), targets) + lossTcr(Flatten(tcrPred[1]), targets)) * (0.5 * w.tcr)))
  }

  /** Both losses are the weighted mean over the two experts, so the experts' order does not matter. */
  lemma LossSymmetric(rnaPred: seq<Matrix>, rna: Matrix, tcrPred: seq<Logits>, tcr: Tokens, w: LossWeights,
                      lossRna: (Matrix, Matrix) -> real, lossTcr: (seq<Vector>, seq<int>) -> real)
    requires Rectangular(tcr, Width(tcr))
    requires |rnaPred| == 2 && |tcrPred| == 2 && Width(tcrPred[0]) == Width(tcrPred[1])
    ensures Loss(rnaPred, rna, tcrPred, tcr, w, lossRna, lossTcr)
         == Loss([rnaPred[1], rnaPred[0]], rna, [tcrPred[1], tcrPred[0]], tcr, w, lossRna, lossTcr)
  {
    var rp, tp := [rnaPred[1], rnaPred[0]], [tcrPred[1], tcrPred[0]];
    assert rp[0] == rnaPred[1] && rp[1] == rnaPred[0] && tp[0] == tcrPred[1] && tp[1] == tcrPred[0];
    var targets := TcrTargets(Width(tcrPred[0]), tcr);
    assert TcrTargets(Width(tp[0]), tcr) == targets;
    var before, after := Loss(rnaPred, rna, tcrPred, tcr, w, lossRna, lossTcr), Loss(rp, rna, tp, tcr, w, lossRna, lossTcr);
    assert after.value.0 == before.value.0;
    assert after.value.1 == before.value.1;
  }

  /** `calculate_loss`, with the start-token mask built in place by `MaskedTargets`. */
  method CalculateLoss(rnaPred: seq<Matrix>, rna: Matrix, tcrPred: seq<Logits>, tcr: Tokens, w: LossWeights,
                       lossRna: (Matrix, Matrix) -> real, lossTcr: (seq<Vector>, seq<int>) -> real)
    returns (r: Result<(real, real), TensorError>)
    requires Rectangular(tcr, Width(tcr))
    ensures r == Loss(rnaPred, rna, tcrPred, tcr, w, lossRna, lossTcr)
  {
    if |rnaPred| < 2 || |tcrPred| < 2 {
      return Failure(ListTooShort);
    }
    var rnaLoss := lossRna(rnaPred[0], rna) + lossRna(rnaPred[1], rna);
    rnaLoss := rnaLoss * (0.5 * w.rna);

    var targets: seq<int>;
    if Width(tcrPred[0]) + 2 == Width(tcr) {
      targets := MaskedTargets(tcr);
    } else {
      targets := Flatten(tcr);
    }
    var tcrLoss := lossTcr(Flatten(tcrPred[0]), targets) + lossTcr(Flatten(tcrPred[1]), targets);
    tcrLoss := tcrLoss * (0.5 * w.tcr);
    r := Success((rnaLoss, tcrLoss));
    ghost var spec := Loss(rnaPred, rna, tcrPred, tcr, w, lossRna, lossTcr);
    assert spec.value.0 == rnaLoss;
    assert spec.value.1 == tcrLoss;
  }

  /**
   * The masked branch of `calculate_loss`: the start-token mask selects the
   * targets `tcr[mask]`.
   */
  method MaskedTargets(tcr: Tokens) returns (targets: seq<int>)
    requires Rectangular(tcr, Width(tcr)) && Width(tcr) >= 2
    ensures targets == Flatten(DropStartTokens(tcr))
  {
    var mask := StartTokenMask(|tcr|, Width(tcr));
    targets := Select(tcr, Grid(mask));
    SelectStartMask(tcr);
  }

  /** `torch.ones_like(tcr).bool()` with columns 0 and `n // 2` cleared in place. */
  method StartTokenMask(rows: nat, n: nat) returns (mask: array2<bool>)
    requires n >= 2
    ensures fresh(mask) && mask.Length0 == rows && mask.Length1 == n
    ensures Grid(mask) == seq(rows, _ => StartMask(n))
  {
    mask := new bool[rows, n]((i, j) => true);
    forall i | 0 <= i < rows {
      mask[i, 0] := false;
    }
    forall i | 0 <= i < rows {
      mask[i, n / 2] := false;
    }
    var keep := Grid(mask);
    assert forall i, j | 0 <= i < rows && 0 <= j < n :: keep[i][j] == (j != 0 && j != n / 2);
    StartMaskRows(keep, n);
  }

  /**
   * `calculate_kld_loss`: the two KL terms averaged and weighted by the KL
   * weight and the annealing factor of the epoch, and the average of the
   * two means, which is the fused latent of `get_latent_from_z`.
   */
  function KldLoss(mu: seq<Matrix>, logvar: seq<Matrix>, epoch: int, w: LossWeights,
                   kld: (Matrix, Matrix) -> real, anneal: int -> real): (r: Result<(real, Matrix), TensorError>)
    ensures r.Success? <==> |mu| >= 2 && |logvar| >= 2 && SameShape(mu[0], mu[1])
    ensures r.Success? ==> GetLatentFromZ(mu) == Success(r.value.1)
    ensures r.Success? ==>
      r.value.0 == w.kld * anneal(epoch) * ((kld(mu[0], logvar[0]) + kld(mu[1], logvar[1])) / 2.0)
  {
    if |mu| < 2 || |logvar| < 2 then Failure(ListTooShort)
    else
      var loss := (kld(mu[0], logvar[0]) + kld(mu[1], logvar[1])) * (0.5 * w.kld * anneal(epoch));
      if !SameShape(mu[0], mu[1]) then Failure(ShapeMismatch)
      else Success((loss, Mean(mu[0], mu[1])))
  }

  /** Swapping the two experts, means and log-variances together, changes neither the KL term nor the fused mean. */
  lemma KldLossSymmetric(mu: seq<Matrix>, logvar: seq<Matrix>, epoch: int, w: LossWeights,
                         kld: (Matrix, Matrix) -> real, anneal: int -> real)
    requires |mu| == 2 && |logvar| == 2
    ensures KldLoss(mu, logvar, epoch, w, kld, anneal)
         == KldLoss([mu[1], mu[0]], [logvar[1], logvar[0]], epoch, w, kld, anneal)
  {
    var mu', logvar' := [mu[1], mu[0]], [logvar[1], logvar[0]];
    FuseSymmetric(mu[0], mu[1], []);
    assert [mu[0], mu[1]] + [] == mu;
    assert [mu[1], mu[0]] + [] == mu';
    var before, after := KldLoss(mu, logvar, epoch, w, kld, anneal), KldLoss(mu', logvar', epoch, w, kld, anneal);
    if before.Success? {
      assert after.value.0 == before.value.0;
      assert after.value.1 == before.value.1;
    }
  }
}
