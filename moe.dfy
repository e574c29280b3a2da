/**
 * The bookkeeping of the mixture-of-experts model (`MoEModelTorch` and
 * `MoEModel`): layer widths, the split of the TCR tokens into alpha and beta
 * chains, the mu / logvar heads, the order in which latents are cross-decoded,
 * where the covariate embedding is concatenated, the fusion of the two
 * latents, the start-token mask of the TCR loss and the loss weights.
 *
 * The neural networks are uninterpreted functions that carry only their
 * output widths; a fully connected stack (`MLP`, `build_mlp_*`) checks the
 * width of its input rows as the first linear layer of torch does.  A batch
 * of tensors is a sequence of rows.
 */
module MoE {
  import opened Wrappers

  type Vector = seq<real>
  /** A batch of real rows, `[batch_size, width]`. */
  type Matrix = seq<Vector>
  /** A batch of token id rows, `[batch_size, seq_len]`. */
  type Tokens = seq<seq<int>>
  /** Per-position prediction vectors of a batch, `[batch_size, seq_len, num_labels]`. */
  type Logits = seq<seq<Vector>>

  /** The run-time errors torch raises in the modelled code. */
  datatype TensorError =
    | ShapeMismatch           // a matmul, `cat` or broadcast with incompatible shapes
    | MissingEmbedding        // `self.cond_emb` was never created (cond_dim == 0)
    | LabelOutOfRange(index: int)  // an embedding index outside [0, num_embeddings)
    | ListTooShort            // `z[1]` or `pred[1]` of a Python list with fewer than two entries

  /** Every row of `x` has `w` entries. */
  predicate Rectangular<T>(x: seq<seq<T>>, w: int) {
    forall i | 0 <= i < |x| :: |x[i]| == w
  }

  /** `x.shape[1]` of a rectangular batch; 0 for an empty batch. */
  function Width<T>(x: seq<seq<T>>): nat {
    if x == [] then 0 else |x[0]|
  }

  /** A fully connected stack: input width, output width and the function it computes on one row. */
  datatype Dense = Layer(inWidth: nat, outWidth: nat, f: Vector -> Vector) {
    /** The stack's rows have `outWidth` entries. */
    ghost predicate Fits() {
      forall v :: |f(v)| == outWidth
    }
  }

  /** A chain encoder: a token row and its length to a hidden vector of `outWidth` entries. */
  datatype ChainNet = ChainEncoder(outWidth: nat, f: (seq<int>, int) -> Vector) {
    ghost predicate Fits() {
      forall s, n :: |f(s, n)| == outWidth
    }
  }

  /** A chain decoder: a hidden vector and the chain's tokens to one prediction per position. */
  type ChainDecoder = (Vector, seq<int>) -> seq<Vector>

  /** `nn.Embedding(count, width)`. */
  datatype Embedding = EmbeddingTable(count: nat, width: nat, row: nat -> Vector) {
    ghost predicate Fits() {
      forall i :: |row(i)| == width
    }
  }

  /** Applies a fully connected stack to every row of `x`. */
  function Apply(d: Dense, x: Matrix): (r: Result<Matrix, TensorError>)
    ensures r.Success? <==> Rectangular(x, d.inWidth)
    ensures r.Failure? ==> r.error == ShapeMismatch
    ensures r.Success? ==> |r.value| == |x| && forall i | 0 <= i < |x| :: r.value[i] == d.f(x[i])
    ensures r.Success? && d.Fits() ==> Rectangular(r.value, d.outWidth)
  {
    if Rectangular(x, d.inWidth) then Success(seq(|x|, i requires 0 <= i < |x| => d.f(x[i])))
    else Failure(ShapeMismatch)
  }

  /** `torch.cat([h, c], dim=1)` when `enabled` and a covariate matrix is present, else `h`. */
  function AppendCond(h: Matrix, cv: Option<Matrix>, enabled: bool): (r: Result<Matrix, TensorError>)
    ensures !(enabled && cv.Some?) ==> r == Success(h)
    ensures enabled && cv.Some? ==> (r.Success? <==> |cv.value| == |h|)
    ensures r.Failure? ==> r.error == ShapeMismatch
    ensures r.Success? ==> |r.value| == |h|
    ensures r.Success? ==> forall i | 0 <= i < |h| :: r.value[i] == h[i] + (if enabled && cv.Some? then cv.value[i] else [])
  {
    if enabled && cv.Some? then
      if |cv.value| == |h| then Success(seq(|h|, i requires 0 <= i < |h| => h[i] + cv.value[i]))
      else Failure(ShapeMismatch)
    else Success(h)
  }

  /** `cond_emb(labels)`: one embedding row per label. */
  function LookupRows(e: Embedding, labels: seq<int>): (r: Result<Matrix, TensorError>)
    ensures r.Success? <==> forall i | 0 <= i < |labels| :: 0 <= labels[i] < e.count
    ensures r.Success? ==> |r.value| == |labels|
    ensures r.Success? && e.Fits() ==> Rectangular(r.value, e.width)
    ensures r.Success? ==> forall i | 0 <= i < |labels| :: r.value[i] == e.row(labels[i])
    ensures r.Failure? ==> exists i | 0 <= i < |labels| :: r.error == LabelOutOfRange(labels[i]) && !(0 <= labels[i] < e.count)
  {
    if labels == [] then Success([])
    else if !(0 <= labels[0] < e.count) then Failure(LabelOutOfRange(labels[0]))
    else
      var rest :- LookupRows(e, labels[1..]);
      var r := [e.row(labels[0])] + rest;
      assert forall i | 1 <= i < |labels| :: r[i] == rest[i - 1] && labels[i] == labels[1..][i - 1];
      Success(r)
  }

  /** The mixture-of-experts network, `MoEModelTorch`. */
  datatype Torch = Torch(
    alphaEncoder: ChainNet, betaEncoder: ChainNet,
    alphaDecoder: ChainDecoder, betaDecoder: ChainDecoder,
    rnaEncoder: Dense, rnaDecoder: Dense,
    condEmb: Option<Embedding>, condInput: bool,
    tcrVaeEncoder: Dense, tcrVaeDecoder: Dense,
    rnaVaeEncoder: Dense, rnaVaeDecoder: Dense)
  {
    /** Every network produces rows of its declared width. */
    ghost predicate Fits() {
      && alphaEncoder.Fits() && betaEncoder.Fits()
      && rnaEncoder.Fits() && rnaDecoder.Fits()
      && (condEmb.Some? ==> condEmb.value.Fits())
      && tcrVaeEncoder.Fits() && tcrVaeDecoder.Fits()
      && rnaVaeEncoder.Fits() && rnaVaeDecoder.Fits()
    }
  }

  /** `joint_params` and the two entries of `tcr_params` / `rna_params` the widths depend on. */
  datatype Dims = Dims(xdim: nat, hdim: nat, numConditionalLabels: nat, condDim: nat, condInput: bool,
                       zdim: nat, numSeqLabels: nat)

  /** The weights of the networks: what each computes, before it is given its widths. */
  datatype Parts = Parts(
    alphaEncoder: (seq<int>, int) -> Vector, betaEncoder: (seq<int>, int) -> Vector,
    alphaDecoder: ChainDecoder, betaDecoder: ChainDecoder,
    rnaEncoder: Vector -> Vector, rnaDecoder: Vector -> Vector,
    embedding: nat -> Vector,
    tcrVaeEncoder: Vector -> Vector, tcrVaeDecoder: Vector -> Vector,
    rnaVaeEncoder: Vector -> Vector, rnaVaeDecoder: Vector -> Vector)

  /** The encoder input widths of the two chains: `hdim // 2` for alpha, the rest of `hdim` for beta. */
  function ChainWidths(hdim: nat): (r: (nat, nat))
    ensures r.0 + r.1 == hdim && r.0 <= r.1 <= r.0 + 1
  {
    (hdim / 2, hdim - hdim / 2)
  }

  /** The chain widths as `MoEModelTorch.__init__` writes them: `hdim // 2` for both chains. */
  function ChainWidthsAsWritten(hdim: nat): (r: (nat, nat))
    ensures r.0 == r.1 == hdim / 2
    ensures r.0 + r.1 <= hdim && (r.0 + r.1 == hdim <==> hdim % 2 == 0)
  {
    (hdim / 2, hdim / 2)
  }

  /** The networks produce outputs of the widths the model gives them. */
  ghost predicate PartsFit(d: Dims, p: Parts, chains: (nat, nat)) {
    && (forall s, n :: |p.alphaEncoder(s, n)| == chains.0)
    && (forall s, n :: |p.betaEncoder(s, n)| == chains.1)
    && (forall v :: |p.rnaEncoder(v)| == d.hdim)
    && (forall v :: |p.rnaDecoder(v)| == d.xdim)
    && (forall i :: |p.embedding(i)| == d.condDim)
    && (forall v :: |p.tcrVaeEncoder(v)| == 2 * d.zdim)
    && (forall v :: |p.rnaVaeEncoder(v)| == 2 * d.zdim)
    && (forall v :: |p.tcrVaeDecoder(v)| == d.hdim)
    && (forall v :: |p.rnaVaeDecoder(v)| == d.hdim)
  }

  /** The layers of `MoEModelTorch.__init__`, with the chain encoders given the widths `chains`. */
  function Assemble(d: Dims, p: Parts, chains: (nat, nat)): (m: Torch)
    requires PartsFit(d, p, chains)
    ensures m.Fits()
    ensures m.alphaEncoder.outWidth == chains.0 && m.betaEncoder.outWidth == chains.1
    ensures m.condEmb.Some? <==> d.condDim > 0
    ensures m.condEmb.Some? ==> m.condEmb.value.count == d.numConditionalLabels && m.condEmb.value.width == d.condDim
    ensures m.condInput == d.condInput
    ensures m.rnaEncoder.inWidth == d.xdim && m.rnaEncoder.outWidth == d.hdim
    ensures m.rnaDecoder.inWidth == d.hdim && m.rnaDecoder.outWidth == d.xdim
    ensures m.tcrVaeEncoder.inWidth == m.rnaVaeEncoder.inWidth == d.hdim + (if d.condInput then d.condDim else 0)
    ensures m.tcrVaeEncoder.outWidth == m.rnaVaeEncoder.outWidth == 2 * d.zdim
    ensures m.tcrVaeDecoder.inWidth == m.rnaVaeDecoder.inWidth == d.zdim + d.condDim
    ensures m.tcrVaeDecoder.outWidth == m.rnaVaeDecoder.outWidth == d.hdim
  {
    var condInputDim := if d.condInput then d.condDim else 0;
    Torch(
      ChainEncoder(chains.0, p.alphaEncoder), ChainEncoder(chains.1, p.betaEncoder),
      p.alphaDecoder, p.betaDecoder,
      Layer(d.xdim, d.hdim, p.rnaEncoder), Layer(d.hdim, d.xdim, p.rnaDecoder),
      if d.condDim > 0 then Some(EmbeddingTable(d.numConditionalLabels, d.condDim, p.embedding)) else None,
      d.condInput,
      Layer(d.hdim + condInputDim, 2 * d.zdim, p.tcrVaeEncoder), Layer(d.zdim + d.condDim, d.hdim, p.tcrVaeDecoder),
      Layer(d.hdim + condInputDim, 2 * d.zdim, p.rnaVaeEncoder), Layer(d.zdim + d.condDim, d.hdim, p.rnaVaeDecoder))
  }

  /** `MoEModelTorch(...)`, with the beta chain encoder given the column `hdim // 2` leaves over. */
  function Build(d: Dims, p: Parts): (m: Torch)
    requires PartsFit(d, p, ChainWidths(d.hdim))
    ensures m.alphaEncoder.outWidth + m.betaEncoder.outWidth == d.hdim
  {
    Assemble(d, p, ChainWidths(d.hdim))
  }

  /** `MoEModelTorch(...)` as written: both chain encoders produce `hdim // 2` columns. */
  function BuildAsWritten(d: Dims, p: Parts): (m: Torch)
    requires PartsFit(d, p, ChainWidthsAsWritten(d.hdim))
    ensures m.alphaEncoder.outWidth + m.betaEncoder.outWidth == 2 * (d.hdim / 2)
  {
    Assemble(d, p, ChainWidthsAsWritten(d.hdim))
  }

  /** For an even `hdim` the two constructions are the same model. */
  lemma BuildAsWrittenAgreesOnEvenHdim(d: Dims, p: Parts)
    requires d.hdim % 2 == 0 && PartsFit(d, p, ChainWidths(d.hdim))
    ensures PartsFit(d, p, ChainWidthsAsWritten(d.hdim))
    ensures BuildAsWritten(d, p) == Build(d, p)
  {
    assert ChainWidthsAsWritten(d.hdim) == ChainWidths(d.hdim);
  }

  /** One forward batch: expression rows, TCR token rows, the two chain lengths per row, optional covariate labels. */
  datatype Batch = Batch(rna: Matrix, tcr: Tokens, tcrLen: seq<(int, int)>, conditional: Option<seq<int>>)

  /** The random draws of `reparameterize` (one per entry) and the exponential it uses. */
  datatype Noise = Noise(epsRna: (nat, nat) -> real, epsTcr: (nat, nat) -> real, exp: real -> real)

  /** One latent head: the sampled z, the mean and the log-variance. */
  datatype Head = Head(z: Matrix, mu: Matrix, logvar: Matrix)

  /** What `forward` returns: z, mu, logvar, rna_pred and tcr_pred. */
  datatype Output = Output(z: seq<Matrix>, mu: seq<Matrix>, logvar: seq<Matrix>, rnaPred: seq<Matrix>, tcrPred: seq<Logits>)

  /** `cond_emb(conditional)` when a conditional is given. */
  function CondVectors(m: Torch, cond: Option<seq<int>>): (r: Result<Option<Matrix>, TensorError>)
    ensures cond.None? ==> r == Success(None)
    ensures cond.Some? && m.condEmb.None? ==> r == Failure(MissingEmbedding)
    ensures cond.Some? && m.condEmb.Some? ==>
      (r.Success? <==> LookupRows(m.condEmb.value, cond.value).Success?)
    ensures cond.Some? && m.condEmb.Some? && r.Success? ==> r.value == Some(LookupRows(m.condEmb.value, cond.value).value)
    ensures cond.Some? && m.condEmb.Some? && r.Failure? ==> r.error == LookupRows(m.condEmb.value, cond.value).error
  {
    match cond
    case None => Success(None)
    case Some(labels) =>
      match m.condEmb
      case None => Failure(MissingEmbedding)
      case Some(e) => var v :- LookupRows(e, labels); Success(Some(v))
  }

  /** `tcr[:, :n//2]` and `tcr[:, n//2:]`, with `n = tcr.shape[1]`. */
  function SplitChains(tcr: Tokens): (r: (Tokens, Tokens))
    requires Rectangular(tcr, Width(tcr))
    ensures |r.0| == |tcr| && |r.1| == |tcr|
    ensures Rectangular(r.0, Width(tcr) / 2) && Rectangular(r.1, Width(tcr) - Width(tcr) / 2)
    ensures forall i | 0 <= i < |tcr| :: r.0[i] + r.1[i] == tcr[i]
  {
    var n := Width(tcr);
    var alpha := seq(|tcr|, i requires 0 <= i < |tcr| => tcr[i][..n / 2]);
    var beta := seq(|tcr|, i requires 0 <= i < |tcr| => tcr[i][n / 2..]);
    assert forall i | 0 <= i < |tcr| :: alpha[i] + beta[i] == tcr[i] by {
      forall i | 0 <= i < |tcr| ensures alpha[i] + beta[i] == tcr[i] {
        assert tcr[i] == tcr[i][..n / 2] + tcr[i][n / 2..];
      }
    }
    (alpha, beta)
  }

  /**
   * `h_tcr`: the alpha encoding of `tcr[:, :n//2]` with length `tcr_len[:, 0]`
   * followed by the beta encoding of `tcr[:, n//2:]` with length
   * `tcr_len[:, 1]`, then the covariate vector when `cond_input` is set.
   */
  function EncodeChains(m: Torch, tcr: Tokens, tcrLen: seq<(int, int)>, cv: Option<Matrix>): (r: Result<Matrix, TensorError>)
    requires Rectangular(tcr, Width(tcr))
    ensures r.Success? ==> |tcrLen| == |tcr| && |r.value| == |tcr|
    ensures r.Success? && m.condInput && cv.Some? ==> |cv.value| == |tcr|
    ensures r.Success? ==> forall i | 0 <= i < |tcr| ::
      r.value[i] == m.alphaEncoder.f(SplitChains(tcr).0[i], tcrLen[i].0) + m.betaEncoder.f(SplitChains(tcr).1[i], tcrLen[i].1)
                    + (if m.condInput && cv.Some? then cv.value[i] else [])
  {
    if |tcrLen| != |tcr| then Failure(ShapeMismatch)
    else
      var chains := SplitChains(tcr);
      var h := seq(|tcr|, i requires 0 <= i < |tcr| =>
        m.alphaEncoder.f(chains.0[i], tcrLen[i].0) + m.betaEncoder.f(chains.1[i], tcrLen[i].1));
      AppendCond(h, cv, m.condInput)
  }

  /** `h_rna`: the expression encoding, then the covariate vector when `cond_input` is set. */
  function EncodeRna(m: Torch, rna: Matrix, cv: Option<Matrix>): (r: Result<Matrix, TensorError>)
    ensures r.Success? ==> Rectangular(rna, m.rnaEncoder.inWidth) && |r.value| == |rna|
    ensures r.Success? && m.condInput && cv.Some? ==> |cv.value| == |rna|
    ensures r.Success? ==> forall i | 0 <= i < |rna| ::
      r.value[i] == m.rnaEncoder.f(rna[i]) + (if m.condInput && cv.Some? then cv.value[i] else [])
  {
    var h :- Apply(m.rnaEncoder, rna);
    AppendCond(h, cv, m.condInput)
  }

  /** `z_[:, :w//2]` (mu) and `z_[:, w//2:]` (logvar), with `w = z_.shape[1]` (every row has `w` entries). */
  function SplitHead(h: Matrix): (r: (Matrix, Matrix))
    ensures |r.0| == |h| && |r.1| == |h|
    ensures forall i | 0 <= i < |h| :: r.0[i] + r.1[i] == h[i] && |r.0[i]| == |h[i]| / 2
  {
    var mu := seq(|h|, i requires 0 <= i < |h| => h[i][..|h[i]| / 2]);
    var logvar := seq(|h|, i requires 0 <= i < |h| => h[i][|h[i]| / 2..]);
    assert forall i | 0 <= i < |h| :: mu[i] + logvar[i] == h[i] by {
      forall i | 0 <= i < |h| ensures mu[i] + logvar[i] == h[i] {
        assert h[i] == h[i][..|h[i]| / 2] + h[i][|h[i]| / 2..];
      }
    }
    (mu, logvar)
  }

  /** `reparameterize`: `mu + eps * exp(0.5 * logvar)` entry by entry; shapes must agree. */
  function Reparameterize(mu: Matrix, logvar: Matrix, eps: (nat, nat) -> real, exp: real -> real): (r: Result<Matrix, TensorError>)
    ensures r.Success? <==> |mu| == |logvar| && forall i | 0 <= i < |mu| :: |mu[i]| == |logvar[i]|
    ensures r.Success? ==> |r.value| == |mu| && forall i | 0 <= i < |mu| :: |r.value[i]| == |mu[i]|
    ensures r.Success? ==> forall i, j | 0 <= i < |mu| && 0 <= j < |mu[i]| ::
      r.value[i][j] == mu[i][j] + eps(i, j) * exp(0.5 * logvar[i][j])
    ensures r.Failure? ==> r.error == ShapeMismatch
  {
    if |mu| == |logvar| && forall i | 0 <= i < |mu| :: |mu[i]| == |logvar[i]| then
      Success(seq(|mu|, i requires 0 <= i < |mu| =>
        seq(|mu[i]|, j requires 0 <= j < |mu[i]| => mu[i][j] + eps(i, j) * exp(0.5 * logvar[i][j]))))
    else Failure(ShapeMismatch)
  }

  /** A latent head: the shared encoder, the mu / logvar split and the sample. */
  function LatentHead(layer: Dense, h: Matrix, eps: (nat, nat) -> real, exp: real -> real): (r: Result<Head, TensorError>)
    ensures r.Success? ==> Apply(layer, h).Success?
    ensures r.Success? ==> (r.value.mu, r.value.logvar) == SplitHead(Apply(layer, h).value)
    ensures r.Success? ==> Reparameterize(r.value.mu, r.value.logvar, eps, exp) == Success(r.value.z)
  {
    var out :- Apply(layer, h);
    var (mu, logvar) := SplitHead(out);
    var z :- Reparameterize(mu, logvar, eps, exp);
    Success(Head(z, mu, logvar))
  }

  /** The encoding half of `forward`: both latent heads, RNA first. */
  function EncodeLatents(m: Torch, b: Batch, cv: Option<Matrix>, noise: Noise): (r: Result<(Head, Head), TensorError>)
    requires Rectangular(b.tcr, Width(b.tcr))
    ensures r.Success? ==> EncodeRna(m, b.rna, cv).Success? && EncodeChains(m, b.tcr, b.tcrLen, cv).Success?
    ensures r.Success? ==> LatentHead(m.rnaVaeEncoder, EncodeRna(m, b.rna, cv).value, noise.epsRna, noise.exp) == Success(r.value.0)
    ensures r.Success? ==> LatentHead(m.tcrVaeEncoder, EncodeChains(m, b.tcr, b.tcrLen, cv).value, noise.epsTcr, noise.exp) == Success(r.value.1)
  {
    var hTcr :- EncodeChains(m, b.tcr, b.tcrLen, cv);
    var hRna :- EncodeRna(m, b.rna, cv);
    var rnaHead :- LatentHead(m.rnaVaeEncoder, hRna, noise.epsRna, noise.exp);
    var tcrHead :- LatentHead(m.tcrVaeEncoder, hTcr, noise.epsTcr, noise.exp);
    Success((rnaHead, tcrHead))
  }

  /** One step of the `rna_pred` loop: covariate appended if given, shared decoder, expression decoder. */
  function RnaDecode(m: Torch, z: Matrix, cv: Option<Matrix>): (r: Result<Matrix, TensorError>)
    ensures r.Success? ==> AppendCond(z, cv, true).Success? && Apply(m.rnaVaeDecoder, AppendCond(z, cv, true).value).Success?
    ensures r.Success? ==> |r.value| == |z|
    ensures r.Success? && m.rnaDecoder.Fits() ==> Rectangular(r.value, m.rnaDecoder.outWidth)
    ensures r.Success? ==> forall i | 0 <= i < |z| ::
      r.value[i] == m.rnaDecoder.f(m.rnaVaeDecoder.f(AppendCond(z, cv, true).value[i]))
  {
    var zc :- AppendCond(z, cv, true);
    var f :- Apply(m.rnaVaeDecoder, zc);
    Apply(m.rnaDecoder, f)
  }

  /** `predict_transcriptome`: the embedding looked up, then the same decoding as in `forward`. */
  function PredictTranscriptome(m: Torch, z: Matrix, cond: Option<seq<int>>): (r: Result<Matrix, TensorError>)
    ensures CondVectors(m, cond).Success? ==> r == RnaDecode(m, z, CondVectors(m, cond).value)
    ensures CondVectors(m, cond).Failure? ==> r.Failure? && r.error == CondVectors(m, cond).error
  {
    var cv :- CondVectors(m, cond);
    RnaDecode(m, z, cv)
  }

  /** One step of the `tcr_pred` loop: alpha and beta predictions from the shared decoder's output, concatenated. */
  function TcrDecode(m: Torch, z: Matrix, cv: Option<Matrix>, alpha: Tokens, beta: Tokens): (r: Result<Logits, TensorError>)
    ensures r.Success? ==> |r.value| == |z|
    ensures r.Success? ==> |alpha| == |z| && |beta| == |z|
    ensures r.Success? ==> AppendCond(z, cv, true).Success? && Apply(m.tcrVaeDecoder, AppendCond(z, cv, true).value).Success?
    ensures r.Success? ==> forall i | 0 <= i < |z| ::
      var f := Apply(m.tcrVaeDecoder, AppendCond(z, cv, true).value).value[i];
      r.value[i] == m.alphaDecoder(f, alpha[i]) + m.betaDecoder(f, beta[i])
  {
    var zc :- AppendCond(z, cv, true);
    var f :- Apply(m.tcrVaeDecoder, zc);
    if |alpha| != |f| || |beta| != |f| then Failure(ShapeMismatch)
    else Success(seq(|f|, i requires 0 <= i < |f| => m.alphaDecoder(f[i], alpha[i]) + m.betaDecoder(f[i], beta[i])))
  }

  /** The `rna_pred` loop from latent `zs[0]` on, with `acc` already appended. */
  function DecodeRnaFrom(m: Torch, zs: seq<Matrix>, cv: Option<Matrix>, acc: seq<Matrix>): (r: Result<seq<Matrix>, TensorError>)
    ensures r.Success? ==> |r.value| == |acc| + |zs| && r.value[..|acc|] == acc
    ensures r.Success? ==> forall i | 0 <= i < |zs| :: RnaDecode(m, zs[i], cv) == Success(r.value[|acc| + i])
    decreases |zs|
  {
    if zs == [] then Success(acc)
    else
      var p :- RnaDecode(m, zs[0], cv);
      var r :- DecodeRnaFrom(m, zs[1..], cv, acc + [p]);
      assert forall i | 1 <= i < |zs| :: zs[i] == zs[1..][i - 1];
      assert r[..|acc| + 1] == acc + [p] by {
        assert r[..|acc| + 1] == r[..|acc + [p]|];
      }
      assert r[..|acc|] == (acc + [p])[..|acc|];
      Success(r)
  }

  /** The `tcr_pred` loop from latent `zs[0]` on, with `acc` already appended. */
  function DecodeTcrFrom(m: Torch, zs: seq<Matrix>, cv: Option<Matrix>, alpha: Tokens, beta: Tokens, acc: seq<Logits>)
    : (r: Result<seq<Logits>, TensorError>)
    ensures r.Success? ==> |r.value| == |acc| + |zs| && r.value[..|acc|] == acc
    ensures r.Success? ==> forall i | 0 <= i < |zs| :: TcrDecode(m, zs[i], cv, alpha, beta) == Success(r.value[|acc| + i])
    decreases |zs|
  {
    if zs == [] then Success(acc)
    else
      var p :- TcrDecode(m, zs[0], cv, alpha, beta);
      var r :- DecodeTcrFrom(m, zs[1..], cv, alpha, beta, acc + [p]);
      assert forall i | 1 <= i < |zs| :: zs[i] == zs[1..][i - 1];
      assert r[..|acc| + 1] == acc + [p] by {
        assert r[..|acc| + 1] == r[..|acc + [p]|];
      }
      assert r[..|acc|] == (acc + [p])[..|acc|];
      Success(r)
  }

  /** `forward` as a whole. */
  function Forward(m: Torch, b: Batch, noise: Noise): (r: Result<Output, TensorError>)
    requires Rectangular(b.tcr, Width(b.tcr))
    ensures r.Success? ==> |r.value.z| == |r.value.mu| == |r.value.logvar| == |r.value.rnaPred| == |r.value.tcrPred| == 2
  {
    var cv :- CondVectors(m, b.conditional);
    var (rnaHead, tcrHead) :- EncodeLatents(m, b, cv, noise);
    var z := [rnaHead.z, tcrHead.z];
    var chains := SplitChains(b.tcr);
    var rnaPred :- DecodeRnaFrom(m, z, cv, []);
    var tcrPred :- DecodeTcrFrom(m, z, cv, chains.0, chains.1, []);
    Success(Output(z, [rnaHead.mu, tcrHead.mu], [rnaHead.logvar, tcrHead.logvar], rnaPred, tcrPred))
  }

  /** `MoEModelTorch.forward`: the encoding, then the two reconstruction loops over `z`. */
  method ForwardPass(m: Torch, b: Batch, noise: Noise) returns (r: Result<Output, TensorError>)
    requires Rectangular(b.tcr, Width(b.tcr))
    ensures r == Forward(m, b, noise)
  {
    var cv :- CondVectors(m, b.conditional);
    var heads :- EncodeLatents(m, b, cv, noise);
    var z := [heads.0.z, heads.1.z];
    var chains := SplitChains(b.tcr);
    var rnaPred :- ReconstructRna(m, z, cv);
    var tcrPred :- ReconstructTcr(m, z, cv, chains.0, chains.1);
    r := Success(Output(z, [heads.0.mu, heads.1.mu], [heads.0.logvar, heads.1.logvar], rnaPred, tcrPred));
  }

  /** The `rna_pred` loop of `forward`: one expression reconstruction appended per latent. */
  method ReconstructRna(m: Torch, z: seq<Matrix>, cv: Option<Matrix>) returns (r: Result<seq<Matrix>, TensorError>)
    ensures r == DecodeRnaFrom(m, z, cv, [])
  {
    var rnaPred: seq<Matrix> := [];
    for j := 0 to |z|
      invariant DecodeRnaFrom(m, z[j..], cv, rnaPred) == DecodeRnaFrom(m, z, cv, [])
    {
      var pred :- RnaDecode(m, z[j], cv);
      assert z[j..][1..] == z[j + 1..];
      rnaPred := rnaPred + [pred];
    }
    r := Success(rnaPred);
  }

  /** The `tcr_pred` loop of `forward`: one alpha-and-beta reconstruction appended per latent. */
  method ReconstructTcr(m: Torch, z: seq<Matrix>, cv: Option<Matrix>, alpha: Tokens, beta: Tokens)
    returns (r: Result<seq<Logits>, TensorError>)
    ensures r == DecodeTcrFrom(m, z, cv, alpha, beta, [])
  {
    var tcrPred: seq<Logits> := [];
    for j := 0 to |z|
      invariant DecodeTcrFrom(m, z[j..], cv, alpha, beta, tcrPred) == DecodeTcrFrom(m, z, cv, alpha, beta, [])
    {
      var pred :- TcrDecode(m, z[j], cv, alpha, beta);
      assert z[j..][1..] == z[j + 1..];
      tcrPred := tcrPred + [pred];
    }
    r := Success(tcrPred);
  }

  /**
   * `forward` returns two latents, two means and two log-variances ordered
   * [RNA, TCR], and two expression and two TCR reconstructions, the i-th
   * decoded from `z[i]`; the expression reconstructions are what
   * `predict_transcriptome` gives for the same latent.
   */
  lemma ForwardStructure(m: Torch, b: Batch, noise: Noise)
    requires Rectangular(b.tcr, Width(b.tcr))
    requires Forward(m, b, noise).Success?
    ensures var out := Forward(m, b, noise).value;
      && |out.z| == 2 && |out.mu| == 2 && |out.logvar| == 2 && |out.rnaPred| == 2 && |out.tcrPred| == 2
      && CondVectors(m, b.conditional).Success?
      && var cv := CondVectors(m, b.conditional).value;
         && EncodeLatents(m, b, cv, noise)
            == Success((Head(out.z[0], out.mu[0], out.logvar[0]), Head(out.z[1], out.mu[1], out.logvar[1])))
         && (forall i | 0 <= i < 2 :: PredictTranscriptome(m, out.z[i], b.conditional) == Success(out.rnaPred[i]))
         && (forall i | 0 <= i < 2 ::
               TcrDecode(m, out.z[i], cv, SplitChains(b.tcr).0, SplitChains(b.tcr).1) == Success(out.tcrPred[i]))
  {
  }

  /** The shapes of one forward batch that a model of widths `d` accepts. */
  ghost predicate WellShaped(d: Dims, b: Batch) {
    && |b.tcr| == |b.rna| && |b.tcrLen| == |b.rna|
    && Rectangular(b.rna, d.xdim) && Rectangular(b.tcr, Width(b.tcr))
    && match b.conditional
       case None => d.condDim == 0
       case Some(labels) =>
         d.condDim > 0 && |labels| == |b.rna| && forall i | 0 <= i < |labels| :: 0 <= labels[i] < d.numConditionalLabels
  }

  /** The widths `MoEModelTorch.__init__` gives every layer of a model of widths `d`, the chain encoders aside. */
  ghost predicate Shaped(m: Torch, d: Dims) {
    && m.Fits()
    && (m.condEmb.Some? <==> d.condDim > 0)
    && (m.condEmb.Some? ==> m.condEmb.value.count == d.numConditionalLabels && m.condEmb.value.width == d.condDim)
    && m.condInput == d.condInput
    && m.rnaEncoder.inWidth == d.xdim && m.rnaEncoder.outWidth == d.hdim
    && m.rnaDecoder.inWidth == d.hdim && m.rnaDecoder.outWidth == d.xdim
    && m.tcrVaeEncoder.inWidth == m.rnaVaeEncoder.inWidth == d.hdim + (if d.condInput then d.condDim else 0)
    && m.tcrVaeEncoder.outWidth == m.rnaVaeEncoder.outWidth == 2 * d.zdim
    && m.tcrVaeDecoder.inWidth == m.rnaVaeDecoder.inWidth == d.zdim + d.condDim
    && m.tcrVaeDecoder.outWidth == m.rnaVaeDecoder.outWidth == d.hdim
  }

  lemma CondStage(m: Torch, d: Dims, b: Batch)
    requires Shaped(m, d) && WellShaped(d, b)
    ensures var cv := CondVectors(m, b.conditional);
      && cv.Success? && (cv.value.Some? <==> b.conditional.Some?)
      && (cv.value.Some? ==> |cv.value.value| == |b.rna| && Rectangular(cv.value.value, d.condDim))
  {
  }

  lemma AppendCondWidth(h: Matrix, w: nat, cv: Option<Matrix>, c: nat, enabled: bool)
    requires Rectangular(h, w)
    requires cv.Some? ==> |cv.value| == |h| && Rectangular(cv.value, c)
    ensures AppendCond(h, cv, enabled).Success?
    ensures Rectangular(AppendCond(h, cv, enabled).value, w + (if enabled && cv.Some? then c else 0))
  {
  }

  lemma LatentHeadShape(layer: Dense, h: Matrix, eps: (nat, nat) -> real, exp: real -> real, zdim: nat)
    requires layer.Fits() && layer.outWidth == 2 * zdim && Rectangular(h, layer.inWidth)
    ensures var r := LatentHead(layer, h, eps, exp);
      && r.Success? && |r.value.z| == |h| && |r.value.mu| == |h| && |r.value.logvar| == |h|
      && Rectangular(r.value.z, zdim) && Rectangular(r.value.mu, zdim) && Rectangular(r.value.logvar, zdim)
  {
    var out := Apply(layer, h).value;
    var (mu, logvar) := SplitHead(out);
    assert forall i | 0 <= i < |h| :: |mu[i]| == zdim && |logvar[i]| == zdim by {
      forall i | 0 <= i < |h| ensures |mu[i]| == zdim && |logvar[i]| == zdim {
        assert mu[i] + logvar[i] == out[i];
      }
    }
  }

  lemma {:induction false} DecodeRnaFromSucceeds(m: Torch, zs: seq<Matrix>, cv: Option<Matrix>, acc: seq<Matrix>)
    requires forall i | 0 <= i < |zs| :: RnaDecode(m, zs[i], cv).Success?
    ensures DecodeRnaFrom(m, zs, cv, acc).Success?
    decreases |zs|
  {
    if zs != [] {
      assert forall i | 0 <= i < |zs[1..]| :: zs[1..][i] == zs[i + 1];
      DecodeRnaFromSucceeds(m, zs[1..], cv, acc + [RnaDecode(m, zs[0], cv).value]);
    }
  }

  lemma {:induction false} DecodeTcrFromSucceeds(m: Torch, zs: seq<Matrix>, cv: Option<Matrix>, alpha: Tokens, beta: Tokens, acc: seq<Logits>)
    requires forall i | 0 <= i < |zs| :: TcrDecode(m, zs[i], cv, alpha, beta).Success?
    ensures DecodeTcrFrom(m, zs, cv, alpha, beta, acc).Success?
    decreases |zs|
  {
    if zs != [] {
      assert forall i | 0 <= i < |zs[1..]| :: zs[1..][i] == zs[i + 1];
      DecodeTcrFromSucceeds(m, zs[1..], cv, alpha, beta, acc + [TcrDecode(m, zs[0], cv, alpha, beta).value]);
    }
  }

  /** The hidden TCR and RNA rows of a well-shaped batch have the width the shared encoders expect, up to the chain widths. */
  lemma EncoderStage(m: Torch, d: Dims, b: Batch, cv: Option<Matrix>)
    requires Shaped(m, d) && WellShaped(d, b)
    requires cv == CondVectors(m, b.conditional).value
    ensures var condIn := if d.condInput then d.condDim else 0;
      && EncodeChains(m, b.tcr, b.tcrLen, cv).Success?
      && Rectangular(EncodeChains(m, b.tcr, b.tcrLen, cv).value, m.alphaEncoder.outWidth + m.betaEncoder.outWidth + condIn)
      && |EncodeChains(m, b.tcr, b.tcrLen, cv).value| == |b.rna|
      && EncodeRna(m, b.rna, cv).Success?
      && Rectangular(EncodeRna(m, b.rna, cv).value, d.hdim + condIn)
      && |EncodeRna(m, b.rna, cv).value| == |b.rna|
  {
    CondStage(m, d, b);
    var condIn := if d.condInput then d.condDim else 0;
    var c := SplitChains(b.tcr);
    assert EncodeChains(m, b.tcr, b.tcrLen, cv).Success?;
    var hTcr := EncodeChains(m, b.tcr, b.tcrLen, cv).value;
    assert m.alphaEncoder.Fits() && m.betaEncoder.Fits();
    forall i | 0 <= i < |hTcr| ensures |hTcr[i]| == m.alphaEncoder.outWidth + m.betaEncoder.outWidth + condIn {
      var alpha, beta, alphaLen, betaLen := c.0[i], c.1[i], b.tcrLen[i].0, b.tcrLen[i].1;
      assert |m.alphaEncoder.f(alpha, alphaLen)| == m.alphaEncoder.outWidth;
      assert |m.betaEncoder.f(beta, betaLen)| == m.betaEncoder.outWidth;
      assert hTcr[i] == m.alphaEncoder.f(c.0[i], b.tcrLen[i].0) + m.betaEncoder.f(c.1[i], b.tcrLen[i].1)
                        + (if m.condInput && cv.Some? then cv.value[i] else []);
    }
    assert Apply(m.rnaEncoder, b.rna).Success?;
    assert EncodeRna(m, b.rna, cv).Success?;
    var hRna := EncodeRna(m, b.rna, cv).value;
    assert m.rnaEncoder.Fits();
    forall i | 0 <= i < |hRna| ensures |hRna[i]| == d.hdim + condIn {
      assert |m.rnaEncoder.f(b.rna[i])| == d.hdim;
      assert hRna[i] == m.rnaEncoder.f(b.rna[i]) + (if m.condInput && cv.Some? then cv.value[i] else []);
    }
  }

  /** Decoding a latent of `zdim` columns succeeds and gives `xdim` expression columns. */
  lemma DecoderStage(m: Torch, d: Dims, b: Batch, cv: Option<Matrix>, z: Matrix)
    requires Shaped(m, d) && WellShaped(d, b)
    requires cv == CondVectors(m, b.conditional).value
    requires |z| == |b.rna| && Rectangular(z, d.zdim)
    ensures && RnaDecode(m, z, cv).Success? && Rectangular(RnaDecode(m, z, cv).value, d.xdim)
      && TcrDecode(m, z, cv, SplitChains(b.tcr).0, SplitChains(b.tcr).1).Success?
  {
    CondStage(m, d, b);
    AppendCondWidth(z, d.zdim, cv, d.condDim, true);
  }

  /** Both reconstruction loops succeed on the two latents of a well-shaped batch, and `forward` returns them. */
  lemma ReconstructionStage(m: Torch, d: Dims, b: Batch, cv: Option<Matrix>, noise: Noise, heads: (Head, Head))
    requires Shaped(m, d) && WellShaped(d, b)
    requires CondVectors(m, b.conditional) == Success(cv)
    requires EncodeLatents(m, b, cv, noise) == Success(heads)
    requires |heads.0.z| == |b.rna| && Rectangular(heads.0.z, d.zdim)
    requires |heads.1.z| == |b.rna| && Rectangular(heads.1.z, d.zdim)
    ensures var z := [heads.0.z, heads.1.z];
      var rnaPred := DecodeRnaFrom(m, z, cv, []);
      var tcrPred := DecodeTcrFrom(m, z, cv, SplitChains(b.tcr).0, SplitChains(b.tcr).1, []);
      && rnaPred.Success? && tcrPred.Success?
      && (forall i | 0 <= i < 2 :: |rnaPred.value[i]| == |b.rna| && Rectangular(rnaPred.value[i], d.xdim))
      && (forall i | 0 <= i < 2 :: |tcrPred.value[i]| == |b.rna|)
      && Forward(m, b, noise) == Success(Output(z, [heads.0.mu, heads.1.mu], [heads.0.logvar, heads.1.logvar],
                                                rnaPred.value, tcrPred.value))
  {
    var z := [heads.0.z, heads.1.z];
    var c := SplitChains(b.tcr);
    assert |z| == 2 && forall i | 0 <= i < |z| :: |z[i]| == |b.rna| && Rectangular(z[i], d.zdim);
    RnaReconstructionStage(m, d, b, cv, z);
    TcrReconstructionStage(m, d, b, cv, z);
    var rnaPred := DecodeRnaFrom(m, z, cv, []).value;
    var tcrPred := DecodeTcrFrom(m, z, cv, c.0, c.1, []).value;
    ForwardFromStages(m, b, noise, cv, heads, rnaPred, tcrPred);
  }

  /** The `rna_pred` loop succeeds on latents of `zdim` columns and gives `xdim` expression columns. */
  lemma RnaReconstructionStage(m: Torch, d: Dims, b: Batch, cv: Option<Matrix>, z: seq<Matrix>)
    requires Shaped(m, d) && WellShaped(d, b)
    requires cv == CondVectors(m, b.conditional).value
    requires forall i | 0 <= i < |z| :: |z[i]| == |b.rna| && Rectangular(z[i], d.zdim)
    ensures var r := DecodeRnaFrom(m, z, cv, []);
      && r.Success?
      && forall i | 0 <= i < |z| :: |r.value[i]| == |b.rna| && Rectangular(r.value[i], d.xdim)
  {
    forall i | 0 <= i < |z|
      ensures RnaDecode(m, z[i], cv).Success? && Rectangular(RnaDecode(m, z[i], cv).value, d.xdim)
    {
      DecoderStage(m, d, b, cv, z[i]);
    }
    DecodeRnaFromSucceeds(m, z, cv, []);
    var rnaPred := DecodeRnaFrom(m, z, cv, []).value;
    forall i | 0 <= i < |z| ensures |rnaPred[i]| == |b.rna| && Rectangular(rnaPred[i], d.xdim) {
      assert RnaDecode(m, z[i], cv) == Success(rnaPred[i]);
    }
  }

  /** The `tcr_pred` loop succeeds on latents of `zdim` columns. */
  lemma TcrReconstructionStage(m: Torch, d: Dims, b: Batch, cv: Option<Matrix>, z: seq<Matrix>)
    requires Shaped(m, d) && WellShaped(d, b)
    requires cv == CondVectors(m, b.conditional).value
    requires forall i | 0 <= i < |z| :: |z[i]| == |b.rna| && Rectangular(z[i], d.zdim)
    ensures var c := SplitChains(b.tcr);
      var r := DecodeTcrFrom(m, z, cv, c.0, c.1, []);
      && r.Success?
      && forall i | 0 <= i < |z| :: |r.value[i]| == |b.rna|
  {
    var c := SplitChains(b.tcr);
    forall i | 0 <= i < |z| ensures TcrDecode(m, z[i], cv, c.0, c.1).Success? {
      DecoderStage(m, d, b, cv, z[i]);
    }
    TcrPredictionsKeepRows(m, z, cv, c.0, c.1);
  }

  /** When every latent decodes, the `tcr_pred` loop succeeds and each prediction has the rows of its latent. */
  lemma TcrPredictionsKeepRows(m: Torch, z: seq<Matrix>, cv: Option<Matrix>, alpha: Tokens, beta: Tokens)
    requires forall i | 0 <= i < |z| :: TcrDecode(m, z[i], cv, alpha, beta).Success?
    ensures var r := DecodeTcrFrom(m, z, cv, alpha, beta, []);
      r.Success? && forall i | 0 <= i < |z| :: |r.value[i]| == |z[i]|
  {
    DecodeTcrFromSucceeds(m, z, cv, alpha, beta, []);
    var tcrPred := DecodeTcrFrom(m, z, cv, alpha, beta, []).value;
    forall i | 0 <= i < |z| ensures |tcrPred[i]| == |z[i]| {
      assert TcrDecode(m, z[i], cv, alpha, beta) == Success(tcrPred[i]);
    }
  }

  /** `forward` assembled from its stages, for any model. */
  lemma ForwardFromStages(m: Torch, b: Batch, noise: Noise, cv: Option<Matrix>, heads: (Head, Head),
                          rnaPred: seq<Matrix>, tcrPred: seq<Logits>)
    requires Rectangular(b.tcr, Width(b.tcr))
    requires CondVectors(m, b.conditional) == Success(cv)
    requires EncodeLatents(m, b, cv, noise) == Success(heads)
    requires DecodeRnaFrom(m, [heads.0.z, heads.1.z], cv, []) == Success(rnaPred)
    requires DecodeTcrFrom(m, [heads.0.z, heads.1.z], cv, SplitChains(b.tcr).0, SplitChains(b.tcr).1, []) == Success(tcrPred)
    ensures Forward(m, b, noise) == Success(Output([heads.0.z, heads.1.z], [heads.0.mu, heads.1.mu],
                                                   [heads.0.logvar, heads.1.logvar], rnaPred, tcrPred))
  {
  }

  /** Both latent heads of a well-shaped batch succeed and have `zdim` columns. */
  lemma LatentStage(m: Torch, d: Dims, b: Batch, cv: Option<Matrix>, noise: Noise)
    requires Shaped(m, d) && WellShaped(d, b) && m.alphaEncoder.outWidth + m.betaEncoder.outWidth == d.hdim
    requires cv == CondVectors(m, b.conditional).value
    ensures var r := EncodeLatents(m, b, cv, noise);
      && r.Success?
      && |r.value.0.z| == |b.rna| && Rectangular(r.value.0.z, d.zdim)
      && Rectangular(r.value.0.mu, d.zdim) && Rectangular(r.value.0.logvar, d.zdim)
      && |r.value.1.z| == |b.rna| && Rectangular(r.value.1.z, d.zdim)
      && Rectangular(r.value.1.mu, d.zdim) && Rectangular(r.value.1.logvar, d.zdim)
  {
    EncoderStage(m, d, b, cv);
    var hTcr := EncodeChains(m, b.tcr, b.tcrLen, cv).value;
    var hRna := EncodeRna(m, b.rna, cv).value;
    LatentHeadShape(m.rnaVaeEncoder, hRna, noise.epsRna, noise.exp, d.zdim);
    LatentHeadShape(m.tcrVaeEncoder, hTcr, noise.epsTcr, noise.exp, d.zdim);
  }

  /**
   * A model whose two chain encoders fill the `hdim` columns accepts every
   * well-shaped batch: `forward` succeeds and every latent, mean and
   * log-variance has `zdim` columns, every expression reconstruction `xdim`.
   */
  lemma ForwardSucceedsWhenChainsFill(d: Dims, p: Parts, chains: (nat, nat), b: Batch, noise: Noise)
    requires PartsFit(d, p, chains) && WellShaped(d, b) && chains.0 + chains.1 == d.hdim
    ensures Forward(Assemble(d, p, chains), b, noise).Success?
    ensures var out := Forward(Assemble(d, p, chains), b, noise).value;
      forall i | 0 <= i < 2 ::
        && |out.z[i]| == |b.rna| && Rectangular(out.z[i], d.zdim)
        && Rectangular(out.mu[i], d.zdim) && Rectangular(out.logvar[i], d.zdim)
        && |out.rnaPred[i]| == |b.rna| && Rectangular(out.rnaPred[i], d.xdim)
        && |out.tcrPred[i]| == |b.rna|
  {
    ShapedForwardSucceeds(Assemble(d, p, chains), d, b, noise);
  }

  /** `forward` of any model with the widths of `d` whose chain encoders fill `hdim` succeeds on a well-shaped batch. */
  lemma ShapedForwardSucceeds(m: Torch, d: Dims, b: Batch, noise: Noise)
    requires Shaped(m, d) && WellShaped(d, b) && m.alphaEncoder.outWidth + m.betaEncoder.outWidth == d.hdim
    ensures Forward(m, b, noise).Success?
    ensures var out := Forward(m, b, noise).value;
      forall i | 0 <= i < 2 ::
        && |out.z[i]| == |b.rna| && Rectangular(out.z[i], d.zdim)
        && Rectangular(out.mu[i], d.zdim) && Rectangular(out.logvar[i], d.zdim)
        && |out.rnaPred[i]| == |b.rna| && Rectangular(out.rnaPred[i], d.xdim)
        && |out.tcrPred[i]| == |b.rna|
  {
    CondStage(m, d, b);
    var cv := CondVectors(m, b.conditional).value;
    LatentStage(m, d, b, cv, noise);
    ReconstructionStage(m, d, b, cv, noise, EncodeLatents(m, b, cv, noise).value);
  }

  /** The model with the chain widths corrected accepts every well-shaped batch, whatever `hdim`. */
  lemma ForwardSucceeds(d: Dims, p: Parts, b: Batch, noise: Noise)
    requires PartsFit(d, p, ChainWidths(d.hdim)) && WellShaped(d, b)
    ensures Forward(Build(d, p), b, noise).Success?
    ensures var out := Forward(Build(d, p), b, noise).value;
      forall i | 0 <= i < 2 ::
        && |out.z[i]| == |b.rna| && Rectangular(out.z[i], d.zdim)
        && |out.rnaPred[i]| == |b.rna| && Rectangular(out.rnaPred[i], d.xdim)
  {
    ForwardSucceedsWhenChainsFill(d, p, ChainWidths(d.hdim), b, noise);
  }

  /**
   * As written, an odd `hdim` makes `h_tcr` one column short of what the
   * shared TCR encoder expects, so `forward` fails on every non-empty
   * well-shaped batch.
   */
  lemma ForwardRejectsOddHidden(d: Dims, p: Parts, b: Batch, noise: Noise)
    requires PartsFit(d, p, ChainWidthsAsWritten(d.hdim)) && WellShaped(d, b)
    requires d.hdim % 2 == 1 && |b.rna| > 0
    ensures Forward(BuildAsWritten(d, p), b, noise) == Failure(ShapeMismatch)
  {
    var chains := ChainWidthsAsWritten(d.hdim);
    var m := Assemble(d, p, chains);
    CondStage(m, d, b);
    var cv := CondVectors(m, b.conditional).value;
    EncoderStage(m, d, b, cv);
    var hTcr := EncodeChains(m, b.tcr, b.tcrLen, cv).value;
    var hRna := EncodeRna(m, b.rna, cv).value;
    LatentHeadShape(m.rnaVaeEncoder, hRna, noise.epsRna, noise.exp, d.zdim);
    assert |hTcr[0]| != m.tcrVaeEncoder.inWidth;
    assert LatentHead(m.tcrVaeEncoder, hTcr, noise.epsTcr, noise.exp) == Failure(ShapeMismatch);
  }

  /** Two batches with the same shape, row by row. */
  predicate SameShape(a: Matrix, b: Matrix) {
    |a| == |b| && forall i | 0 <= i < |a| :: |a[i]| == |b[i]|
  }

  /** `0.5 * (a + b)`, entry by entry. */
  function Mean(a: Matrix, b: Matrix): (r: Matrix)
    requires SameShape(a, b)
    ensures SameShape(r, a)
    ensures forall i, j | 0 <= i < |r| && 0 <= j < |r[i]| :: r[i][j] == 0.5 * (a[i][j] + b[i][j])
    ensures forall i, j | 0 <= i < |r| && 0 <= j < |r[i]| ::
      (a[i][j] <= b[i][j] ==> a[i][j] <= r[i][j] <= b[i][j]) &&
      (b[i][j] <= a[i][j] ==> b[i][j] <= r[i][j] <= a[i][j])
  {
    seq(|a|, i requires 0 <= i < |a| => seq(|a[i]|, j requires 0 <= j < |a[i]| => 0.5 * (a[i][j] + b[i][j])))
  }

  /** `get_latent_from_z`: the fused latent is the average of the first two latents. */
  function GetLatentFromZ(z: seq<Matrix>): (r: Result<Matrix, TensorError>)
    ensures |z| < 2 ==> r == Failure(ListTooShort)
    ensures r.Success? <==> |z| >= 2 && SameShape(z[0], z[1])
    ensures r.Success? ==> SameShape(r.value, z[0])
    ensures r.Success? ==> forall i, j | 0 <= i < |r.value| && 0 <= j < |r.value[i]| ::
      r.value[i][j] == 0.5 * (z[0][i][j] + z[1][i][j])
    ensures |z| >= 2 && !SameShape(z[0], z[1]) ==> r == Failure(ShapeMismatch)
  {
    if |z| < 2 then Failure(ListTooShort)
    else if !SameShape(z[0], z[1]) then Failure(ShapeMismatch)
    else Success(Mean(z[0], z[1]))
  }

  /** Fusion does not depend on which expert comes first. */
  lemma FuseSymmetric(a: Matrix, b: Matrix, rest: seq<Matrix>)
    ensures GetLatentFromZ([a, b] + rest) == GetLatentFromZ([b, a] + rest)
  {
    var z, y := [a, b] + rest, [b, a] + rest;
    assert z[0] == a && z[1] == b && y[0] == b && y[1] == a;
    if SameShape(a, b) {
      var ab, ba := Mean(a, b), Mean(b, a);
      forall i | 0 <= i < |a| ensures ab[i] == ba[i] {
        assert forall j | 0 <= j < |a[i]| :: ab[i][j] == ba[i][j];
      }
      assert ab == ba;
    }
  }

  /** Two equal latents fuse to themselves. */
  lemma FuseIdempotent(a: Matrix)
    ensures GetLatentFromZ([a, a]) == Success(a)
  {
    var r := Mean(a, a);
    assert forall i | 0 <= i < |a| :: r[i] == a[i] by {
      forall i | 0 <= i < |a| ensures r[i] == a[i] {
        assert forall j | 0 <= j < |a[i]| :: r[i][j] == a[i][j];
      }
    }
    assert r == a;
  }

  /** Every entry of the fused latent lies between the two experts' entries. */
  lemma FuseBetween(z: seq<Matrix>, i: nat, j: nat)
    requires GetLatentFromZ(z).Success?
    requires i < |z[0]| && j < |z[0][i]|
    ensures var f := GetLatentFromZ(z).value;
      && |f| == |z[0]| && j < |f[i]|
      && (z[0][i][j] <= z[1][i][j] ==> z[0][i][j] <= f[i][j] <= z[1][i][j])
      && (z[1][i][j] <= z[0][i][j] ==> z[1][i][j] <= f[i][j] <= z[0][i][j])
  {
  }

  /** The two latents of a successful forward pass fuse to one `zdim`-wide latent per row. */
  lemma ForwardLatentsFuse(d: Dims, p: Parts, b: Batch, noise: Noise)
    requires PartsFit(d, p, ChainWidths(d.hdim)) && WellShaped(d, b)
    ensures Forward(Build(d, p), b, noise).Success?
    ensures var f := GetLatentFromZ(Forward(Build(d, p), b, noise).value.z);
      f.Success? && |f.value| == |b.rna| && Rectangular(f.value, d.zdim)
  {
    ForwardSucceeds(d, p, b, noise);
    var z := Forward(Build(d, p), b, noise).value.z;
    assert |z| == 2;
    assert SameShape(z[0], z[1]);
  }
}
