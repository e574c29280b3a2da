# mvTCR core: sequence codec, group-preserving split and mixture-of-experts bookkeeping

This project models three parts of mvTCR, a multimodal variational autoencoder for paired
single-cell RNA and T-cell-receptor (TCR) data, and proves properties of the model.

- `aa_encoding` (`codec.dfy`, module `Codec`) encodes amino-acid strings in place in an
  annotated-data object. It does the following, in order:
  - adds optional `<`/`>` sentinels;
  - writes an optional length column;
  - right-pads with `_` to a fixed width or to the longest sequence;
  - builds or reuses a vocabulary of sorted distinct characters;
  - writes token-id rows and one-hot tables, then stores the vocabulary.

  The object is a class whose fields the method updates in place. Its contract ties the new
  state and the raised error to a pure function `Encode` of the old state. Writes made before
  an exception stay, as they do in the original.
- `stratified_group_shuffle_split` (`group_split.dfy`, module `GroupSplit`) splits a data frame
  by label. It visits the label groups in ascending label order and drops the group ids
  (clonotypes) that are already placed. A label group with one remaining row goes to train. A
  larger one is divided by an external splitter. The method is proved equal to a functional
  definition. Separate lemmas prove that train and test never share a group id and that every
  row lands on exactly one side.
- `MoEModelTorch` / `MoEModel` (`moe.dfy`, module `MoE`; `moe_model.dfy`, module `MoEModel`)
  cover the bookkeeping of the mixture-of-experts model:
  - the layer widths of the constructor;
  - the split of the TCR tokens into alpha and beta chains;
  - the mu / logvar heads and reparameterisation;
  - the order of the two reconstruction loops over `z = [z_rna, z_tcr]`;
  - where the covariate embedding is concatenated;
  - the fused latent of `get_latent_from_z`;
  - the conditional-covariate configuration;
  - the start-token mask of the TCR loss and the weighting of the reconstruction and KL terms.

  Neural networks are uninterpreted functions that carry only their output widths. A fully
  connected stack rejects rows of the wrong width, as a torch linear layer does. Torch's shape
  errors become a `TensorError` result.

`wrappers.dfy` holds `Option` and `Result`. `sorted.dfy` holds a generic sorted-distinct
construction, which the codec uses for `sorted(set(...))` and the split uses for the keys of
`groupby`.

Where the code and its documentation differ, the model follows the code:
- The pad symbol `_` has no reserved id. It is numbered among the other characters in sorted
  order.
- The stored lengths are those of the sequences after the sentinels are added.

## Model

| member | source | states |
|---|---|---|
| Codec.Wrap | tcr_embedding/utils.py:25-26 | a start symbol in front and an end symbol behind; the result is two longer and unwrapping gives the sequence back |
| Codec.WrapColumn | tcr_embedding/utils.py:25-26 | every sequence of the column is wrapped, and the number of sequences and their order are kept |
| Codec.EffectivePad | tcr_embedding/utils.py:27-28 | an integer pad grows by two when sentinels are added and is unchanged without them; `True` and `False` are returned as they are, with or without sentinels |
| Codec.Lengths | tcr_embedding/utils.py:30-31 | one entry per sequence, equal to that sequence's length |
| Codec.LeftJustify | tcr_embedding/utils.py:35 | `ljust`: the result has length max(width, \|s\|) and is `s` followed only by pad symbols, so it never truncates |
| Codec.TrimPadded | tcr_embedding/utils.py:34-38 | padding is undone by removing trailing pad symbols, provided the sequence does not itself end with one |
| Codec.MaxLength | tcr_embedding/utils.py:37 | an upper bound on every length that some sequence attains; 0 for no sequences |
| Codec.PadColumn | tcr_embedding/utils.py:33-40 | fails exactly when `pad=True` meets an empty column; otherwise each row is its sequence followed by pad symbols, with the width of a fixed pad, of the longest sequence, or unchanged |
| Codec.Chars | tcr_embedding/utils.py:43 | a character occurs in the result exactly when it occurs in some sequence |
| Codec.Alphabet | tcr_embedding/utils.py:47 | `sorted(set(...))`: strictly increasing, and it holds exactly the characters of the column |
| Sorted.SortedDistinct | tcr_embedding/utils.py:47 | the sorted distinct elements: strictly increasing with the same members |
| Sorted.Insert | tcr_embedding/utils.py:47 | inserting into a strictly increasing sequence keeps it increasing and adds exactly the new element |
| Sorted.IncreasingUnique | tcr_embedding/utils.py:47 | two strictly increasing sequences with the same members are equal |
| Sorted.IncreasingCard | tcr_embedding/utils.py:47 | a strictly increasing sequence has no repetitions (its set is as large as it is) |
| Codec.BuildVocab | tcr_embedding/utils.py:46-48 | the keys are exactly the characters of the corpus, and each id indexes that character in the sorted alphabet |
| Codec.BuildVocabSize | tcr_embedding/utils.py:47-48 | one vocabulary entry per distinct character |
| Codec.BuildVocabIsRanking | tcr_embedding/utils.py:47-48 | the ids are a bijection onto 0..k-1 that preserves character order |
| Codec.BuildVocabDeterministic | tcr_embedding/utils.py:46-48 | the vocabulary depends only on which characters occur, so the same corpus always gets the same ids |
| Codec.TokenIds | tcr_embedding/utils.py:51 | succeeds exactly when every character has an id; then there is one id per character, and otherwise the error names the first unknown character |
| Codec.ColumnIds | tcr_embedding/utils.py:51 | succeeds exactly when every row does; then the rows hold the per-sequence ids, and otherwise the error is that of the first failing row |
| Codec.HotColumn | tcr_embedding/utils.py:58 | the numpy column written by `x[id]`: defined exactly for -k <= id < k, the id itself when non-negative, and congruent to the id modulo k |
| Codec.OneHotRowDecodes | tcr_embedding/utils.py:55-58 | a one-hot row has 1.0 at its column and 0.0 elsewhere, and the first hot column gives the id back |
| Codec.OneHotTable | tcr_embedding/utils.py:55-58 | succeeds exactly when every id indexes the row; then there is one one-hot row per id, and otherwise the error names the first bad id |
| Codec.OneHotColumn | tcr_embedding/utils.py:54-58 | succeeds exactly when every table does; then there is one table per sequence, and otherwise the error of the first failing table |
| Codec.OneHotTables | tcr_embedding/utils.py:54-58 | the nested loops that fill zero arrays with `x[token_id] = 1.0` compute `OneHotColumn`; at the first id out of range they stop with that id's `IdOutOfRange`, which is `OneHotColumn`'s error |
| Codec.OneHotColumnSucceeds | tcr_embedding/utils.py:56-58 | when every sequence's table is built, the column is exactly those tables |
| Codec.OneHotColumnFailsAt | tcr_embedding/utils.py:54-58 | when one table fails and all earlier ones succeed, the column fails with that table's error |
| Codec.OneHotTableFailsAt | tcr_embedding/utils.py:56-58 | when one id is out of range and all earlier ones are in range, the table fails with `IdOutOfRange` of that id |
| Codec.Prepared | tcr_embedding/utils.py:25-26 | one sequence per input; with sentinels each one is its input with `<` in front and `>` behind (and so unwraps back to it), and without them the column is unchanged |
| Codec.VocabUsed | tcr_embedding/utils.py:46-48 | the supplied vocabulary when there is one; otherwise the vocabulary built from the padded sequences (so ranked by `BuildVocabIsRanking`), with one id per character they contain, every id below the vocabulary's size |
| Codec.Encode | tcr_embedding/utils.py:22-68 | the whole call on values: with neither output column it fails first and changes nothing; otherwise the read column is wrapped and the lengths stored before padding, lookup and writing; the one-hot and label columns change only when asked for; the vocabulary is written only by a call that raises nothing, so writes made before an error stay while `uns` keeps its old value (which writes those are: `EncodeKeepsPartialWrites`) |
| Codec.WriteOutputs | tcr_embedding/utils.py:54-68 | leaves the sequences and lengths alone; raises nothing exactly when the one-hot tables build and stack (if asked for) and the id rows stack (if asked for); then the one-hot column is the tables, the label column the ids, and the vocabulary is stored; on an error the vocabulary is not stored, but one-hot tables that were built are stored even when stacking them fails, and the ids are stored once the one-hot step (if asked for) got through, even when stacking them fails |
| Codec.WriteLabels | tcr_embedding/utils.py:63-68 | the label column is the ids when asked for; it raises `CannotStack` exactly when they cannot be stacked, and otherwise stores the vocabulary; nothing else changes |
| Codec.AaEncoding | tcr_embedding/utils.py:8-68 | the data after the call and the error raised are those of `Encode` on the data before the call |
| Codec.WriteColumns | tcr_embedding/utils.py:54-68 | writes the one-hot column, the label column and the vocabulary in that order, stopping at the first error, as `WriteOutputs` says |
| Codec.AnnData.constructor | tcr_embedding/utils.py:8 | a fresh object holds only the sequence column |
| Codec.EncodeFailsFast | tcr_embedding/utils.py:22-23 | the call raises "no output column" exactly when neither a one-hot nor a label column is asked for, and then it changes nothing |
| Codec.EncodeSucceeded | tcr_embedding/utils.py:25-68 | after a call without error: the sequences are wrapped, the lengths stored, the vocabulary stored; each label row holds one id per padded character and each one-hot row the hot row of that id; columns not asked for are untouched |
| Codec.EncodeWrites | tcr_embedding/utils.py:30-68 | after a call without error, the data is exactly the old data with the wrapped sequences, the lengths, one-hot tables, labels and vocabulary written where asked |
| Codec.EncodeLabels | tcr_embedding/utils.py:63-66 | after a call without error, the label column holds the token ids of the padded sequences |
| Codec.BuiltVocabCoversCorpus | tcr_embedding/utils.py:46-58 | with a vocabulary built from the corpus, no lookup and no one-hot index can fail, and every id lies in 0..k-1 |
| Codec.BuiltVocabIdsInRange | tcr_embedding/utils.py:46-51 | with a built vocabulary every lookup succeeds with an id in 0..k-1 |
| Codec.PadToLongestSucceeds | tcr_embedding/utils.py:36-38 | with `pad=True`, a non-empty column and no supplied vocabulary, the call raises nothing, since every stack succeeds |
| Codec.EncodeRaisesNothing | tcr_embedding/utils.py:54-68 | the call raises nothing when padding, lookup and one-hot succeed and the arrays stack |
| Codec.LongestColumnStacks | tcr_embedding/utils.py:59-60 | sequences of one common width give ids and one-hot tables that `np.stack` accepts |
| Codec.IdsStack | tcr_embedding/utils.py:65-66 | the id rows of equally long sequences stack |
| Codec.TablesStack | tcr_embedding/utils.py:59-60 | the one-hot tables of stackable id rows stack |
| Codec.DecodeBuiltIds | tcr_embedding/utils.py:47-51 | reading the ids of a built vocabulary back through the sorted alphabet gives every sequence back |
| Codec.DecodeBuiltRow | tcr_embedding/utils.py:47-51 | the same for one sequence |
| Codec.EncodeRoundTrip | tcr_embedding/utils.py:25-66 | with sentinels and a built vocabulary, each stored label row read back through the alphabet, with padding trimmed and sentinels removed, is the original sequence |
| Codec.RoundTripStored | tcr_embedding/utils.py:26-66 | for any column whose stored sequences are the wrapped inputs and whose label rows are the ids of their padded forms under the built vocabulary, every id indexes the alphabet and each row decodes, trimmed and unwrapped, to its input |
| Codec.EncodeKeepsPartialWrites | tcr_embedding/utils.py:33-66 | on the whole call: an error in padding or lookup writes neither output column; once the ids exist, built one-hot tables are stored even if stacking them fails, and the ids are stored once the one-hot step (if asked for) got through, even if stacking the ids fails |
| Codec.RoundTripColumn | tcr_embedding/utils.py:25-51 | the same round trip for any column padded from its wrapped sequences |
| GroupSplit.GroupIds | tcr_embedding/utils.py:104-108 | the group-id column: one id per row, in row order |
| GroupSplit.Keep | tcr_embedding/utils.py:110-111 | `isin`: exactly the rows whose group id is in the set |
| GroupSplit.Drop | tcr_embedding/utils.py:95 | `~isin`: exactly the rows whose group id is not in the set |
| GroupSplit.Placed | tcr_embedding/utils.py:95 | a group id is placed exactly when it is in `all_train + all_test` |
| GroupSplit.LabelColumn | tcr_embedding/utils.py:90 | the label column, one label per row |
| GroupSplit.Keys | tcr_embedding/utils.py:90 | the `groupby` keys: strictly ascending, exactly the labels of the frame |
| GroupSplit.WithLabel | tcr_embedding/utils.py:90 | exactly the rows with that label |
| GroupSplit.GroupBy | tcr_embedding/utils.py:90 | one entry per key, ascending, each paired with the rows of that label |
| GroupSplit.Place | tcr_embedding/utils.py:94-108 | one loop step fails exactly when more than one row remains and the splitter raises; the error names the label; when the splitter answers, the ids of the remaining rows it chose are appended to test and the others to train |
| GroupSplit.PlaceAll | tcr_embedding/utils.py:93-108 | a failure of the loop names one of the labels visited |
| GroupSplit.Split | tcr_embedding/utils.py:90-113 | train and test are each at most as long as the frame |
| GroupSplit.StratifiedGroupShuffleSplit | tcr_embedding/utils.py:71-113 | the loop computes `Split`, and on success no train row shares a group id with a test row |
| GroupSplit.PlaceGroup | tcr_embedding/utils.py:94-108 | the loop body computes `Place` |
| GroupSplit.PlaceAllStep | tcr_embedding/utils.py:93-108 | the loop from one label group on is that group's step followed by the rest, and a failing step ends it |
| GroupSplit.PlaceKeepsSidesApart | tcr_embedding/utils.py:94-108 | a step only appends, keeps the two sides apart, and adds only ids of the label group |
| GroupSplit.PlaceCoversGroup | tcr_embedding/utils.py:95-108 | after a step every row of the label group has its group id on one side |
| GroupSplit.PlaceFollowsSplitter | tcr_embedding/utils.py:99-105 | when the splitter divides a label group, each remaining row's group id lands in test if the splitter chose it and in train otherwise |
| GroupSplit.PlaceAllPrefix | tcr_embedding/utils.py:93-108 | the loop over all label groups is the loop over the first k followed by the loop over the others from where it left off |
| GroupSplit.PlaceAllAt | tcr_embedding/utils.py:93-108 | when the loop succeeds, the step for each label group succeeds from the ids placed before it, and what it places stays on its side to the end |
| GroupSplit.PlaceAllFollowsSplitter | tcr_embedding/utils.py:93-108 | at the end of the loop, the group ids of a divided label group are on the side the splitter gave them |
| GroupSplit.SplitFollowsSplitter | tcr_embedding/utils.py:90-113 | a row of a label group with more than one remaining row is in the returned test frame exactly when the splitter chose its group id, and in train exactly when it did not |
| GroupSplit.PlaceSkipsEmpty | tcr_embedding/utils.py:96-98 | a label group whose ids are all placed changes nothing |
| GroupSplit.PlaceSingleRowToTrain | tcr_embedding/utils.py:106-108 | a single remaining row sends its group id to train |
| GroupSplit.SplitSingleRowToTrain | tcr_embedding/utils.py:90-113 | when exactly one row of a label group remains after the earlier label groups, that row is in the returned train frame and not in test |
| GroupSplit.FreshIds | tcr_embedding/utils.py:104-108 | ids taken from unplaced rows and divided apart keep the sides apart |
| GroupSplit.PlaceAllKeepsSidesApart | tcr_embedding/utils.py:93-108 | over the whole loop the sides only grow and never share an id |
| GroupSplit.PlaceAllCovers | tcr_embedding/utils.py:93-108 | after the loop every row of every label group has its group id placed |
| GroupSplit.PlaceAllKeepsPlaced | tcr_embedding/utils.py:94 | an id placed earlier stays on its side |
| GroupSplit.GroupByCovers | tcr_embedding/utils.py:90 | every row belongs to the label group of its label |
| GroupSplit.SplitSeparatesGroups | tcr_embedding/utils.py:79 | every row is in exactly one of train and test, no group id is on both sides, and all rows of a group id go to the same side |
| MoE.Apply | tcr_embedding/models/mixture_modules/moe.py:44-52 | a stack succeeds exactly on rows of its input width, maps each row, and gives rows of its output width |
| MoE.AppendCond | tcr_embedding/models/mixture_modules/moe.py:83-89 | concatenation along dim 1: requires equal row counts, and then each row is followed by its covariate row; without a covariate the input is returned as is |
| MoE.LookupRows | tcr_embedding/models/mixture_modules/moe.py:40 | the embedding succeeds exactly when every label is in range, one row of the embedding width per label, and otherwise names a bad label |
| MoE.ChainWidths | tcr_embedding/models/mixture_modules/moe.py:30-33 | corrected chain widths that add up to `hdim` and differ by at most one |
| MoE.ChainWidthsAsWritten | tcr_embedding/models/mixture_modules/moe.py:30-33 | as written: both chains `hdim // 2`, which add up to `hdim` exactly when `hdim` is even |
| MoE.Assemble | tcr_embedding/models/mixture_modules/moe.py:30-52 | every layer gets the widths of the constructor: embedding only when `cond_dim > 0`, covariate input width only with `cond_input`, `2 * zdim` heads, and decoders taking `zdim + cond_dim` |
| MoE.Build | tcr_embedding/models/mixture_modules/moe.py:17-52 | the corrected model's chain encoders fill `hdim` |
| MoE.BuildAsWritten | tcr_embedding/models/mixture_modules/moe.py:17-52 | the model as written produces `2 * (hdim // 2)` chain columns |
| MoE.BuildAsWrittenAgreesOnEvenHdim | tcr_embedding/models/mixture_modules/moe.py:30-33 | for even `hdim` the two constructions are the same model |
| MoE.CondVectors | tcr_embedding/models/mixture_modules/moe.py:71-72 | no covariate gives none; a covariate without an embedding fails; otherwise it is the embedding lookup, error included |
| MoE.SplitChains | tcr_embedding/models/mixture_modules/moe.py:74-78 | `tcr[:, :n//2]` and `tcr[:, n//2:]`: widths `n//2` and `n - n//2`, and the two halves concatenate back to each row |
| MoE.EncodeChains | tcr_embedding/models/mixture_modules/moe.py:74-84 | each row of `h_tcr` is the alpha encoding followed by the beta encoding (each chain with its own length), then the covariate row when `cond_input` is set |
| MoE.EncodeRna | tcr_embedding/models/mixture_modules/moe.py:86-89 | each row of `h_rna` is the expression encoding, then the covariate row when `cond_input` is set |
| MoE.SplitHead | tcr_embedding/models/mixture_modules/moe.py:93 | mu and logvar concatenate back to each row, with mu the first half |
| MoE.Reparameterize | tcr_embedding/models/mixture_modules/moe.py:123-132 | defined exactly when mu and logvar have the same shape; each entry is `mu + eps * exp(0.5 * logvar)` |
| MoE.LatentHead | tcr_embedding/models/mixture_modules/moe.py:92-98 | mu and logvar are the two halves of the shared encoder's output, and z is their reparameterisation with the noise |
| MoE.EncodeLatents | tcr_embedding/models/mixture_modules/moe.py:73-98 | the RNA head comes from `h_rna` and the TCR head from `h_tcr`, each through its own shared encoder and noise |
| MoE.RnaDecode | tcr_embedding/models/mixture_modules/moe.py:107-110 | the covariate is appended, then both decoders applied: each output row is the expression decoder of the shared decoder of that latent row with its covariate; one row per latent row, `xdim` wide |
| MoE.PredictTranscriptome | tcr_embedding/models/mixture_modules/moe.py:134-146 | the same decoding as a step of the `rna_pred` loop, after the embedding lookup, and otherwise the lookup's error |
| MoE.TcrDecode | tcr_embedding/models/mixture_modules/moe.py:113-119 | each row is the alpha prediction followed by the beta prediction from the same shared-decoder row |
| MoE.DecodeRnaFrom | tcr_embedding/models/mixture_modules/moe.py:105-110 | appends one reconstruction per latent, the i-th decoded from `z[i]` |
| MoE.DecodeTcrFrom | tcr_embedding/models/mixture_modules/moe.py:111-119 | appends one TCR reconstruction per latent, the i-th decoded from `z[i]` |
| MoE.Forward | tcr_embedding/models/mixture_modules/moe.py:57-121 | on success every returned list has two entries |
| MoE.ForwardPass | tcr_embedding/models/mixture_modules/moe.py:57-121 | the method computes `Forward` |
| MoE.ReconstructRna | tcr_embedding/models/mixture_modules/moe.py:105-110 | the `rna_pred` loop computes `DecodeRnaFrom` |
| MoE.ReconstructTcr | tcr_embedding/models/mixture_modules/moe.py:111-119 | the `tcr_pred` loop computes `DecodeTcrFrom` |
| MoE.ForwardStructure | tcr_embedding/models/mixture_modules/moe.py:100-121 | outputs are ordered [RNA, TCR], and the i-th reconstructions are decoded from `z[i]`; the expression reconstructions are what `predict_transcriptome` gives |
| MoE.CondStage | tcr_embedding/models/mixture_modules/moe.py:39-42 | for a well-shaped batch the covariate lookup succeeds with one `cond_dim`-wide row per sample exactly when a covariate is given |
| MoE.AppendCondWidth | tcr_embedding/models/mixture_modules/moe.py:83-84 | concatenation adds the covariate width to the row width |
| MoE.LatentHeadShape | tcr_embedding/models/mixture_modules/moe.py:92-98 | a `2 * zdim` head gives z, mu and logvar of `zdim` columns, one row per input row |
| MoE.DecodeRnaFromSucceeds | tcr_embedding/models/mixture_modules/moe.py:105-110 | the loop succeeds when every step does |
| MoE.DecodeTcrFromSucceeds | tcr_embedding/models/mixture_modules/moe.py:111-119 | the loop succeeds when every step does |
| MoE.EncoderStage | tcr_embedding/models/mixture_modules/moe.py:74-89 | `h_tcr` has the two chain widths plus the covariate input width, and `h_rna` has `hdim` plus it |
| MoE.DecoderStage | tcr_embedding/models/mixture_modules/moe.py:104-119 | decoding a `zdim`-wide latent succeeds and gives `xdim` expression columns |
| MoE.ReconstructionStage | tcr_embedding/models/mixture_modules/moe.py:104-121 | both reconstruction loops succeed and `forward` returns their results |
| MoE.RnaReconstructionStage | tcr_embedding/models/mixture_modules/moe.py:105-110 | the `rna_pred` loop succeeds with `xdim`-wide predictions |
| MoE.TcrReconstructionStage | tcr_embedding/models/mixture_modules/moe.py:111-119 | the `tcr_pred` loop succeeds with one row per sample |
| MoE.TcrPredictionsKeepRows | tcr_embedding/models/mixture_modules/moe.py:111-119 | each TCR prediction has the rows of its latent |
| MoE.ForwardFromStages | tcr_embedding/models/mixture_modules/moe.py:57-121 | `forward` is assembled from its covariate, encoding and reconstruction stages |
| MoE.LatentStage | tcr_embedding/models/mixture_modules/moe.py:91-98 | both heads succeed with `zdim` columns when the chains fill `hdim` |
| MoE.ForwardSucceedsWhenChainsFill | tcr_embedding/models/mixture_modules/moe.py:17-121 | with chain widths summing to `hdim`, `forward` accepts every well-shaped batch, and every latent, mean and logvar has `zdim` columns and every reconstruction `xdim` |
| MoE.ShapedForwardSucceeds | tcr_embedding/models/mixture_modules/moe.py:57-121 | the same for any model with the constructor's widths |
| MoE.ForwardSucceeds | tcr_embedding/models/mixture_modules/moe.py:30-33 | the corrected model accepts every well-shaped batch, whatever `hdim` |
| MoE.ForwardRejectsOddHidden | tcr_embedding/models/mixture_modules/moe.py:80-82 | as written, an odd `hdim` makes `forward` fail with a shape mismatch on every non-empty well-shaped batch |
| MoE.Mean | tcr_embedding/models/mixture_modules/moe.py:149 | the same shape; each entry is half the sum of the two inputs' entries, so it lies between them |
| MoE.GetLatentFromZ | tcr_embedding/models/mixture_modules/moe.py:148-150 | fails on fewer than two latents, and with a shape mismatch when the first two differ in shape; otherwise gives that shape, each entry `0.5 * (z[0] + z[1])` |
| MoE.FuseSymmetric | tcr_embedding/models/mixture_modules/moe.py:148-150 | the fused latent does not depend on the order of the two experts |
| MoE.FuseIdempotent | tcr_embedding/models/mixture_modules/moe.py:148-150 | two equal latents fuse to themselves |
| MoE.FuseBetween | tcr_embedding/models/mixture_modules/moe.py:148-150 | every fused entry lies between the two experts' entries |
| MoE.ForwardLatentsFuse | tcr_embedding/models/mixture_modules/moe.py:100 | the two latents of a forward pass fuse to one `zdim`-wide row per sample |
| MoEModel.Unique | tcr_embedding/models/mixture_modules/moe.py:179 | `unique()`: the same members, no repetitions, no longer than its input |
| MoEModel.DistinctCard | tcr_embedding/models/mixture_modules/moe.py:179 | a sequence without repetitions has as many elements as its set |
| MoEModel.LabelCount | tcr_embedding/models/mixture_modules/moe.py:176-179 | the width of the `obsm` entry, or the number of distinct `obs` values |
| MoEModel.ConditionalConfig | tcr_embedding/models/mixture_modules/moe.py:173-185 | (0, 0) without a covariate; otherwise the label count, and an embedding width of 20 unless `c_embedding_dim` is given |
| MoEModel.ModelDims | tcr_embedding/models/mixture_modules/moe.py:164-187 | the widths handed to the network: vocabulary size as `num_seq_labels`, the covariate configuration, and `xdim`, `hdim`, `zdim` and `cond_input` from the joint parameters |
| MoEModel.UnconditionalModel | tcr_embedding/models/mixture_modules/moe.py:173-187 | the network built as written, without a covariate: no embedding, and the shared encoders take `hdim` and the decoders `zdim` columns |
| MoEModel.ConditionalModel | tcr_embedding/models/mixture_modules/moe.py:180-187 | the network built as written, with a covariate and the default width: a 20-wide embedding with one row per label, and decoders taking 20 extra columns |
| MoEModel.Flatten | tcr_embedding/models/mixture_modules/moe.py:197 | flattening no rows gives nothing; every entry comes from some row, and every entry of every row is kept |
| MoEModel.FlattenLength | tcr_embedding/models/mixture_modules/moe.py:197 | rows of width w flatten to `rows * w` entries |
| MoEModel.FlattenIndex | tcr_embedding/models/mixture_modules/moe.py:197 | entry k of row i sits at `i * w + k` |
| MoEModel.Pick | tcr_embedding/models/mixture_modules/moe.py:197 | masked selection of one row takes only entries of that row, never more |
| MoEModel.PickAppend | tcr_embedding/models/mixture_modules/moe.py:197 | masked selection distributes over concatenation |
| MoEModel.PickAll | tcr_embedding/models/mixture_modules/moe.py:197 | an all-true mask keeps the row |
| MoEModel.DropStartTokens | tcr_embedding/models/mixture_modules/moe.py:193-196 | each row loses exactly positions 0 and `n//2`: putting those tokens back gives the row, and the rows are `n - 2` wide |
| MoEModel.TcrTargets | tcr_embedding/models/mixture_modules/moe.py:193-203 | with predictions two shorter, there are `rows * (n - 2)` targets, and otherwise all tokens flattened |
| MoEModel.TargetsSkipStartTokens | tcr_embedding/models/mixture_modules/moe.py:193-198 | target `i*(n-2)+k` is token `k+1` of row i in the alpha half and `k+2` in the beta half |
| MoEModel.StartMask | tcr_embedding/models/mixture_modules/moe.py:195-196 | the row mask has one entry per position |
| MoEModel.StartMaskLayout | tcr_embedding/models/mixture_modules/moe.py:195-196 | the mask is false, `n//2 - 1` trues, false, and the remaining trues |
| MoEModel.StartMaskRows | tcr_embedding/models/mixture_modules/moe.py:195-196 | a grid false exactly at columns 0 and `n//2` is the start mask on every row |
| MoEModel.PickAlphaHalf | tcr_embedding/models/mixture_modules/moe.py:196-197 | the mask's first `n//2 + 1` entries keep the alpha chain without its start token |
| MoEModel.PickStartMask | tcr_embedding/models/mixture_modules/moe.py:196-197 | the start mask keeps a row without its two start tokens |
| MoEModel.Select | tcr_embedding/models/mixture_modules/moe.py:197 | `tcr[mask]`: nothing from no rows, and every selected token comes from one of the rows |
| MoEModel.SelectStartMask | tcr_embedding/models/mixture_modules/moe.py:195-197 | `tcr[mask]` equals the flattened tokens without start tokens |
| MoEModel.Loss | tcr_embedding/models/mixture_modules/moe.py:189-204 | fails exactly when fewer than two predictions are given; otherwise each loss is its weight times the mean of the two experts' losses, the TCR ones against the targets of `TcrTargets` |
| MoEModel.LossSymmetric | tcr_embedding/models/mixture_modules/moe.py:189-204 | both losses are symmetric in the two experts |
| MoEModel.CalculateLoss | tcr_embedding/models/mixture_modules/moe.py:189-204 | the method, with the mask built in place, computes `Loss` |
| MoEModel.MaskedTargets | tcr_embedding/models/mixture_modules/moe.py:194-198 | the masked selection gives the flattened tokens without start tokens |
| MoEModel.StartTokenMask | tcr_embedding/models/mixture_modules/moe.py:195-196 | a new rows-by-n array, false exactly at columns 0 and `n//2` |
| MoEModel.KldLoss | tcr_embedding/models/mixture_modules/moe.py:206-210 | succeeds exactly with two or more means and log-variances whose first two means agree in shape; the loss is KL weight × annealing × the mean of the two KL terms, and the latent is `get_latent_from_z` of the means |
| MoEModel.KldLossSymmetric | tcr_embedding/models/mixture_modules/moe.py:206-210 | swapping the two experts changes neither the KL term nor the fused mean |

## Left out

- Column names are left out. The `read_col`, `ohe_col`, `label_col` and `length_col` names
  become booleans, and the data object has one field per column. Writing a column both to
  `obs` and to `obsm` is modelled as one field.
- Codec.Obs: stacked one-hot and label columns are the per-sequence values once `np.stack`
  succeeds. The numpy array types are not modelled.
- The `'str'` conversion of the read column is left out: sequences are already strings.
- pandas missing values (NaN) are left out.
- The parameter `theta` and the random initialisation of the networks are left out. They are
  not read by the modelled code.
- Randomness is a parameter. The draws of `randn_like` and the exponential are `Noise`.
  `GroupShuffleSplit` is an abstract `Splitter` that answers the test group ids, or None when
  it raises. The seed, `test_size` and the sampling are inside it.
- Network internals are uninterpreted functions that carry only their output widths: the
  Transformer chain encoders and decoders, the MLPs, and `build_mlp_encoder`/`build_mlp_decoder`.
  `models/architectures/mlp_scRNA.py` is not part of this model. Its widths are taken from the
  constructor arguments: `xdim` to `hdim` and back.
- MoE.EncodeChains: the chain encoders are assumed to reject a length vector whose row count
  differs from the token rows (a `ShapeMismatch`), and `MoE.TcrDecode` assumes the chain
  decoders reject token rows whose count differs from the latent rows. `TransformerEncoder` and `TransformerDecoder` are not part of this model, so
  what they do with mismatched row counts is not known; every proved property starts from
  equal counts.
- The TCR chain decoders take the shared decoder's output and the chain tokens. No output
  width is assumed for them, so predictions are only known to have one row per sample.
- MoE.Apply: every network (`Dense`) is a fixed function applied row by row, so
  `MoE.ForwardStructure` and the other forward lemmas assume deterministic networks whose
  output row depends only on its input row. Dropout in training mode and batch-norm batch
  statistics (the `dropout` and `batch_norm` arguments, moe.py lines 25-26 and 44-52) break
  both assumptions and are not modelled.
- MoEModel.Loss: the RNA and TCR loss functions, the KL divergence and the annealing schedule
  are uninterpreted, because they live in the base model (`VAEBaseModel`), which is not part of
  this model. Only the averaging and weighting are proved.
- Broadcasting is left out. The `+` of `get_latent_from_z` and `calculate_kld_loss` is only
  defined on equal shapes, and anything else is a `ShapeMismatch`.
- `Width` of an empty batch is 0, where torch would keep the declared width of the dimension.
- The conditional covariate is a sequence of label indices into the embedding. A one-hot
  `obsm` covariate would be converted to indices before the lookup.
- A covariate found neither in `obsm` nor in `obs` raises a KeyError in the original. The model
  starts from a covariate that was found.
- `c_embedding_dim` is a natural number. A negative value, which torch would reject, is not
  modelled.
- `max_tcr_length` (moe.py line 168) is stored but not read by the modelled code.
- MoEModel.ModelDims: the network reads `xdim` from the joint parameters (moe.py line 17), so `xdim`
  is a field of `JointParams`. The gene count of the first cell, which line 171 writes into
  the RNA parameters, is not read by `MoEModelTorch` and is left out. A `joint_params`
  without an `'xdim'` entry raises a KeyError in the original, which is not modelled.
- GroupSplit.Row: group ids are any type with equality, and labels are integers (category
  codes), so that the sorted order of `groupby` can be modelled.
- `tqdm` progress display is left out.
- Plotting and the other helpers of `utils.py` after line 113 are left out, as are the
  optimisation adapters (`knn_prediction.py`, `modulation_prediction.py`). They are outside
  the modelled core.
- Floating point is modelled with `real`.

## Findings

| source | as written | input that shows it | evidently intended | confidence | as-written member | corrected member |
|---|---|---|---|---|---|---|
| tcr_embedding/models/mixture_modules/moe.py:30-33 | both chain encoders produce `hdim // 2` columns, so `h_tcr` has `2 * (hdim // 2)` columns while the shared TCR encoder expects `hdim` | odd `hdim` (for example 5) with any non-empty batch | `h_tcr` has `hdim` columns, as the comment at line 82 says | medium, not executed | MoE.ForwardRejectsOddHidden | MoE.ForwardSucceeds |
