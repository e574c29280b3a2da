/**
 * The amino-acid sequence codec of `aa_encoding`: optional start/end sentinels, right
 * padding with '_', a vocabulary of sorted distinct characters, token ids and one-hot
 * tables, written in place into an annotated-data object.
 */
module Codec {
  import opened Wrappers
  import Sorted

  const StartSymbol: char := '<'
  const EndSymbol: char := '>'
  const PadSymbol: char := '_'

  /** A character-to-id dictionary (`aa_to_id`); a supplied one may hold any integer ids. */
  type Vocab = map<char, int>

  /** One sequence's one-hot table: one row per character, one column per vocabulary entry. */
  type Table = seq<seq<real>>

  /** The `pad` argument: an int width, `True` (the longest sequence) or `False`. */
  datatype Pad = Width(n: int) | Longest | Unpadded

  datatype EncodeError =
    | NoOutputColumn          // neither a one-hot nor a label column was asked for
    | EmptyColumnWidth        // pad=True over no sequences: the maximum length is NaN and ljust rejects it
    | UnknownToken(c: char)   // a character the vocabulary has no id for (KeyError)
    | IdOutOfRange(id: int)   // an id that indexes no column of the one-hot row (IndexError)
    | CannotStack             // np.stack of no arrays, or of arrays of different shapes

  /** The parts of the annotated data the codec reads and writes; None is an absent column. */
  datatype Obs = Obs(
    sequences: seq<string>,           // obs[read_col]
    lengths: Option<seq<nat>>,        // obs[length_col]
    oneHot: Option<seq<Table>>,       // obs[ohe_col]
    labels: Option<seq<seq<int>>>,    // obs[label_col]
    aaToId: Option<Vocab>)            // uns['aa_to_id']

  /**
   * The arguments of one call. `oheCol` and `labelCol` say whether that column name is not
   * None, `lengthCol` whether the length column name is truthy.
   */
  datatype Request = Request(
    oheCol: bool, labelCol: bool, lengthCol: bool,
    pad: Pad, aaToId: Option<Vocab>, startEndSymbol: bool)

  // ---------------------------------------------------------------- sentinels

  /** Removes one leading start symbol and one trailing end symbol, when both are there. */
  function Unwrap(s: string): string {
    if |s| >= 2 && s[0] == StartSymbol && s[|s| - 1] == EndSymbol then s[1..|s| - 1] else s
  }

  /** `'<' + s + '>'`. */
  function Wrap(s: string): (r: string)
    ensures |r| == |s| + 2 && r[0] == StartSymbol && r[|r| - 1] == EndSymbol
    ensures Unwrap(r) == s
  {
    [StartSymbol] + s + [EndSymbol]
  }

  function WrapColumn(col: seq<string>): (r: seq<string>)
    ensures |r| == |col| && forall i | 0 <= i < |col| :: r[i] == Wrap(col[i])
  {
    seq(|col|, i requires 0 <= i < |col| => Wrap(col[i]))
  }

  /** The sequences after the optional wrapping step. */
  function Prepared(col: seq<string>, startEndSymbol: bool): (r: seq<string>)
    ensures |r| == |col|
    ensures startEndSymbol ==> forall i | 0 <= i < |col| :: Unwrap(r[i]) == col[i]
    ensures startEndSymbol ==> forall i | 0 <= i < |col| :: r[i] == Wrap(col[i])
    ensures !startEndSymbol ==> r == col
  {
    if startEndSymbol then WrapColumn(col) else col
  }

  /** An integer pad grows by two when sentinels are added; True and False are kept. */
  function EffectivePad(pad: Pad, startEndSymbol: bool): (r: Pad)
    ensures r.Width? <==> pad.Width?
    ensures r.Width? ==> r.n == pad.n + (if startEndSymbol then 2 else 0)
    ensures !pad.Width? ==> r == pad
  {
    if startEndSymbol && pad.Width? then Width(pad.n + 2) else pad
  }

  function Lengths(col: seq<string>): (r: seq<nat>)
    ensures |r| == |col| && forall i | 0 <= i < |col| :: r[i] == |col[i]|
  {
    seq(|col|, i requires 0 <= i < |col| => |col[i]|)
  }

  // ---------------------------------------------------------------- padding

  /** Removes every trailing pad symbol. */
  function TrimPadding(s: string): (r: string)
    ensures r == [] || r[|r| - 1] != PadSymbol
  {
    if |s| > 0 && s[|s| - 1] == PadSymbol then TrimPadding(s[..|s| - 1]) else s
  }

  /** `p` is `s` followed only by pad symbols. */
  ghost predicate PaddedFrom(s: string, p: string) {
    |s| <= |p| && p[..|s|] == s && forall i | |s| <= i < |p| :: p[i] == PadSymbol
  }

  /** Python's `s.ljust(width, '_')`: right-pads to `width`, never truncates. */
  function LeftJustify(s: string, width: int): (r: string)
    ensures |r| == if width > |s| then width else |s|
    ensures PaddedFrom(s, r)
  {
    if width <= |s| then s else s + seq(width - |s|, _ => PadSymbol)
  }

  /** Padding is undone by trimming, unless the sequence itself ends with the pad symbol. */
  lemma {:induction false} TrimPadded(s: string, p: string)
    requires PaddedFrom(s, p)
    requires s == [] || s[|s| - 1] != PadSymbol
    ensures TrimPadding(p) == s
  {
    if |p| > |s| {
      assert p[|p| - 1] == PadSymbol;
      assert PaddedFrom(s, p[..|p| - 1]);
      TrimPadded(s, p[..|p| - 1]);
    } else {
      assert p == p[..|s|];
    }
  }

  /** The longest length in the column (`str.len().max()`), 0 for no sequences. */
  function MaxLength(col: seq<string>): (m: nat)
    ensures forall i | 0 <= i < |col| :: |col[i]| <= m
    ensures col != [] ==> exists i | 0 <= i < |col| :: |col[i]| == m
    ensures col == [] ==> m == 0
  {
    if col == [] then 0
    else
      var m := MaxLength(col[..|col| - 1]);
      assert forall i | 0 <= i < |col| - 1 :: col[..|col| - 1][i] == col[i];
      if |col[|col| - 1]| > m then |col[|col| - 1]| else m
  }

  /** The padding step: to a fixed width, to the longest sequence, or not at all. */
  function PadColumn(col: seq<string>, pad: Pad): (r: Result<seq<string>, EncodeError>)
    ensures r.Failure? <==> pad.Longest? && col == []
    ensures r.Failure? ==> r.error == EmptyColumnWidth
    ensures r.Success? ==> |r.value| == |col|
    ensures r.Success? ==> forall i | 0 <= i < |col| :: PaddedFrom(col[i], r.value[i])
    ensures pad.Unpadded? ==> r == Success(col)
    ensures pad.Width? ==> forall i | 0 <= i < |col| ::
      |r.value[i]| == if pad.n > |col[i]| then pad.n else |col[i]|
    ensures pad.Longest? && r.Success? ==> forall i | 0 <= i < |col| ::
      |r.value[i]| == MaxLength(col)
  {
    match pad
    case Width(n) =>
      Success(seq(|col|, i requires 0 <= i < |col| => LeftJustify(col[i], n)))
    case Longest =>
      if col == [] then Failure(EmptyColumnWidth)
      else
        var width := MaxLength(col);
        Success(seq(|col|, i requires 0 <= i < |col| => LeftJustify(col[i], width)))
    case Unpadded =>
      Success(col)
  }

  // ---------------------------------------------------------------- vocabulary

  /** Every character of every sequence, in order. */
  function Chars(col: seq<string>): (r: string)
    ensures forall c :: c in r <==> exists i | 0 <= i < |col| :: c in col[i]
  {
    if col == [] then []
    else
      var init := col[..|col| - 1];
      assert forall i | 0 <= i < |init| :: init[i] == col[i];
      Chars(init) + col[|col| - 1]
  }

  function CharLess(a: char, b: char): bool {
    a < b
  }

  lemma CharLessIsStrictOrder()
    ensures Sorted.StrictOrder(CharLess)
  {
  }

  /** `sorted(set(...))` over all characters of the column. */
  function Alphabet(col: seq<string>): (r: string)
    ensures Sorted.Increasing(r, CharLess)
    ensures forall c :: c in r <==> c in Chars(col)
  {
    CharLessIsStrictOrder();
    Sorted.SortedDistinct(Chars(col), CharLess)
  }

  /** `{aa: id_ for id_, aa in enumerate(alphabet)}`. */
  function BuildVocab(col: seq<string>): (v: Vocab)
    ensures v.Keys == set c | c in Chars(col)
    ensures forall c | c in v :: 0 <= v[c] < |Alphabet(col)| && Alphabet(col)[v[c]] == c
  {
    var alphabet := Alphabet(col);
    map c | c in alphabet :: Sorted.IndexOf(alphabet, c)
  }

  /** The built vocabulary has one entry per distinct character. */
  lemma BuildVocabSize(col: seq<string>)
    ensures |BuildVocab(col)| == |Alphabet(col)|
  {
    var v, alphabet := BuildVocab(col), Alphabet(col);
    CharLessIsStrictOrder();
    Sorted.IncreasingCard(alphabet, CharLess);
    assert v.Keys == set c | c in alphabet;
  }

  /**
   * The built vocabulary numbers the k distinct characters 0..k-1 in character order:
   * a bijection onto [0, k) that preserves order.
   */
  lemma BuildVocabIsRanking(col: seq<string>)
    ensures var v := BuildVocab(col);
      && (forall c | c in v :: 0 <= v[c] < |v|)
      && (forall i | 0 <= i < |v| :: i in v.Values)
      && (forall c, d | c in v && d in v :: c < d <==> v[c] < v[d])
  {
    var v, alphabet := BuildVocab(col), Alphabet(col);
    BuildVocabSize(col);
    forall i | 0 <= i < |alphabet| ensures i in v.Values {
      var c := alphabet[i];
      assert c in v;
      assert v[c] == i;
    }
    forall c, d | c in v && d in v ensures c < d <==> v[c] < v[d] {
      assert alphabet[v[c]] == c && alphabet[v[d]] == d;
      if v[c] < v[d] {
        assert CharLess(alphabet[v[c]], alphabet[v[d]]);
      } else if v[d] < v[c] {
        assert CharLess(alphabet[v[d]], alphabet[v[c]]);
      }
    }
  }

  /**
   * The built vocabulary depends only on which characters occur: not on their order,
   * multiplicity or split into sequences, so the same corpus always yields the same ids.
   */
  lemma {:induction false} BuildVocabDeterministic(col1: seq<string>, col2: seq<string>)
    requires forall c :: c in Chars(col1) <==> c in Chars(col2)
    ensures BuildVocab(col1) == BuildVocab(col2)
  {
    CharLessIsStrictOrder();
    Sorted.IncreasingUnique(Alphabet(col1), Alphabet(col2), CharLess);
  }

  // ---------------------------------------------------------------- token ids

  /** `[aa_to_id[token] for token in s]`, failing at the first character without an id. */
  function TokenIds(s: string, v: Vocab): (r: Result<seq<int>, EncodeError>)
    ensures r.Success? <==> forall c | c in s :: c in v
    ensures r.Success? ==> |r.value| == |s| && forall i | 0 <= i < |s| :: r.value[i] == v[s[i]]
    ensures r.Failure? ==> exists k | 0 <= k < |s| ::
      r.error == UnknownToken(s[k]) && s[k] !in v && forall j | 0 <= j < k :: s[j] in v
  {
    if s == [] then Success([])
    else if s[0] !in v then Failure(UnknownToken(s[0]))
    else
      assert forall i | 0 <= i < |s| - 1 :: s[1..][i] == s[i + 1];
      var rest :- TokenIds(s[1..], v);
      assert forall c | c in s :: c == s[0] || c in s[1..];
      Success([v[s[0]]] + rest)
  }

  /** Token ids of every sequence, failing at the first unknown character in row-major order. */
  function ColumnIds(col: seq<string>, v: Vocab): (r: Result<seq<seq<int>>, EncodeError>)
    ensures r.Success? <==> forall i | 0 <= i < |col| :: TokenIds(col[i], v).Success?
    ensures r.Success? ==> (|r.value| == |col| &&
      forall i | 0 <= i < |col| :: r.value[i] == TokenIds(col[i], v).value)
    ensures r.Failure? ==> exists k | 0 <= k < |col| ::
      && TokenIds(col[k], v).Failure? && r.error == TokenIds(col[k], v).error
      && forall j | 0 <= j < k :: TokenIds(col[j], v).Success?
  {
    if col == [] then Success([])
    else
      match TokenIds(col[0], v)
      case Failure(e) => Failure(e)
      case Success(ids) =>
        assert forall i | 0 <= i < |col| - 1 :: col[1..][i] == col[i + 1];
        var rest :- ColumnIds(col[1..], v);
        Success([ids] + rest)
  }

  /** Reads token ids back through the alphabet the ids index. */
  function Decode(ids: seq<int>, alphabet: string): (s: string)
    requires forall i | 0 <= i < |ids| :: 0 <= ids[i] < |alphabet|
    ensures |s| == |ids| && forall i | 0 <= i < |ids| :: s[i] == alphabet[ids[i]]
  {
    seq(|ids|, i requires 0 <= i < |ids| => alphabet[ids[i]])
  }

  // ---------------------------------------------------------------- one-hot

  /** The column numpy writes for `x[id]` on a row of length k: negative ids count from the end. */
  function HotColumn(id: int, k: nat): (r: Option<nat>)
    ensures r.Some? <==> -(k as int) <= id < k
    ensures r.Some? ==> r.value < k && r.value % k == id % k
    ensures 0 <= id < k ==> r == Some(id)
  {
    if 0 <= id < k then Some(id) else if -(k as int) <= id < 0 then Some(id + k) else None
  }

  /** A row of `np.zeros(k)` with `1.0` written at column `col`. */
  function OneHotRow(col: nat, k: nat): (r: seq<real>)
    requires col < k
    ensures |r| == k
  {
    seq(k, j requires 0 <= j < k => if j == col then 1.0 else 0.0)
  }

  /** The first column of a row that holds 1.0, or the row's length when none does. */
  function HotIndex(row: seq<real>): (i: nat)
    ensures i <= |row| && (i < |row| ==> row[i] == 1.0)
    ensures forall j | 0 <= j < i :: row[j] != 1.0
  {
    if row == [] then 0
    else if row[0] == 1.0 then 0
    else 1 + HotIndex(row[1..])
  }

  /** A one-hot row has exactly one 1.0, all else 0.0, and its hot column gives the id back. */
  lemma {:induction false} OneHotRowDecodes(col: nat, k: nat)
    requires col < k
    ensures var row := OneHotRow(col, k);
      && row[col] == 1.0
      && (forall j | 0 <= j < k && j != col :: row[j] == 0.0)
      && HotIndex(row) == col
  {
    var row := OneHotRow(col, k);
    HotIndexAt(row, col);
  }

  lemma {:induction false} HotIndexAt(row: seq<real>, col: nat)
    requires col < |row| && row[col] == 1.0
    requires forall j | 0 <= j < col :: row[j] != 1.0
    ensures HotIndex(row) == col
  {
    if col > 0 {
      HotIndexAt(row[1..], col - 1);
    }
  }

  /** The one-hot table of one sequence, failing at the first id numpy cannot index. */
  function OneHotTable(ids: seq<int>, k: nat): (r: Result<Table, EncodeError>)
    ensures r.Success? <==> forall i | 0 <= i < |ids| :: HotColumn(ids[i], k).Some?
    ensures r.Success? ==> (|r.value| == |ids| &&
      forall i | 0 <= i < |ids| :: r.value[i] == OneHotRow(HotColumn(ids[i], k).value, k))
    ensures r.Failure? ==> exists i | 0 <= i < |ids| ::
      r.error == IdOutOfRange(ids[i]) && HotColumn(ids[i], k).None? &&
      forall j | 0 <= j < i :: HotColumn(ids[j], k).Some?
  {
    if ids == [] then Success([])
    else
      match HotColumn(ids[0], k)
      case None => Failure(IdOutOfRange(ids[0]))
      case Some(col) =>
        assert forall i | 0 <= i < |ids| - 1 :: ids[1..][i] == ids[i + 1];
        var rest :- OneHotTable(ids[1..], k);
        Success([OneHotRow(col, k)] + rest)
  }

  /** One table per sequence, failing at the first bad id in row-major order. */
  function OneHotColumn(ids: seq<seq<int>>, k: nat): (r: Result<seq<Table>, EncodeError>)
    ensures r.Success? <==> forall i | 0 <= i < |ids| :: OneHotTable(ids[i], k).Success?
    ensures r.Success? ==> (|r.value| == |ids| &&
      forall i | 0 <= i < |ids| :: r.value[i] == OneHotTable(ids[i], k).value)
    ensures r.Failure? ==> exists i | 0 <= i < |ids| ::
      && OneHotTable(ids[i], k).Failure? && r.error == OneHotTable(ids[i], k).error
      && forall j | 0 <= j < i :: OneHotTable(ids[j], k).Success?
  {
    if ids == [] then Success([])
    else
      match OneHotTable(ids[0], k)
      case Failure(e) => Failure(e)
      case Success(t) =>
        assert forall i | 0 <= i < |ids| - 1 :: ids[1..][i] == ids[i + 1];
        var rest :- OneHotColumn(ids[1..], k);
        Success([t] + rest)
  }

  /** The rows of a two-dimensional array as a sequence of sequences. */
  function Rows(x: array2<real>): (r: Table)
    reads x
    ensures |r| == x.Length0
    ensures forall i | 0 <= i < x.Length0 :: (|r[i]| == x.Length1 &&
      forall j | 0 <= j < x.Length1 :: r[i][j] == x[i, j])
  {
    seq(x.Length0, i requires 0 <= i < x.Length0 reads x =>
      seq(x.Length1, j requires 0 <= j < x.Length1 reads x => x[i, j]))
  }

  /**
   * The nested loops of the one-hot step: a zero table per sequence, then `x[token_id] = 1.0`
   * row by row.
   */
  method OneHotTables(ids: seq<seq<int>>, k: nat) returns (r: Result<seq<Table>, EncodeError>)
    ensures r == OneHotColumn(ids, k)
  {
    var tables: seq<Table> := [];
    for s := 0 to |ids|
      invariant |tables| == s
      invariant forall i | 0 <= i < s :: OneHotTable(ids[i], k) == Success(tables[i])
    {
      var row := ids[s];
      var x := new real[|row|, k]((_, _) => 0.0);
      for t := 0 to |row|
        invariant forall a | 0 <= a < t :: HotColumn(row[a], k).Some?
        invariant forall a, b | 0 <= a < |row| && 0 <= b < k ::
          x[a, b] == if a < t && b == HotColumn(row[a], k).value then 1.0 else 0.0
      {
        var col := HotColumn(row[t], k);
        if col.None? {
          OneHotTableFailsAt(row, k, t);
          OneHotColumnFailsAt(ids, k, s);
          return Failure(IdOutOfRange(row[t]));
        }
        x[t, col.value] := 1.0;
      }
      assert Rows(x) == OneHotTable(row, k).value by {
        forall a | 0 <= a < |row| ensures Rows(x)[a] == OneHotRow(HotColumn(row[a], k).value, k) {
        }
      }
      tables := tables + [Rows(x)];
    }
    OneHotColumnSucceeds(ids, k, tables);
    r := Success(tables);
  }

  lemma {:induction false} OneHotColumnSucceeds(ids: seq<seq<int>>, k: nat, tables: seq<Table>)
    requires |tables| == |ids|
    requires forall i | 0 <= i < |ids| :: OneHotTable(ids[i], k) == Success(tables[i])
    ensures OneHotColumn(ids, k) == Success(tables)
  {
    if ids != [] {
      OneHotColumnSucceeds(ids[1..], k, tables[1..]);
      assert tables == [tables[0]] + tables[1..];
    }
  }

  /** The column fails with the error of the first table that fails. */
  lemma {:induction false} OneHotColumnFailsAt(ids: seq<seq<int>>, k: nat, s: nat)
    requires s < |ids| && OneHotTable(ids[s], k).Failure?
    requires forall i | 0 <= i < s :: OneHotTable(ids[i], k).Success?
    ensures OneHotColumn(ids, k) == Failure(OneHotTable(ids[s], k).error)
  {
    if s > 0 {
      OneHotColumnFailsAt(ids[1..], k, s - 1);
    }
  }

  /** A table fails at the first id numpy cannot index, with that id. */
  lemma {:induction false} OneHotTableFailsAt(ids: seq<int>, k: nat, t: nat)
    requires t < |ids| && HotColumn(ids[t], k).None?
    requires forall a | 0 <= a < t :: HotColumn(ids[a], k).Some?
    ensures OneHotTable(ids, k) == Failure(IdOutOfRange(ids[t]))
  {
    if t > 0 {
      OneHotTableFailsAt(ids[1..], k, t - 1);
    }
  }

  // ---------------------------------------------------------------- the whole step

  /** `np.stack` succeeds: at least one array, all of one length. */
  predicate Stackable<T>(xs: seq<seq<T>>) {
    |xs| > 0 && forall i | 0 <= i < |xs| :: |xs[i]| == |xs[0]|
  }

  /** The vocabulary the call uses: the supplied one, else one built from the padded sequences. */
  function VocabUsed(req: Request, padded: seq<string>): (v: Vocab)
    ensures req.aaToId.Some? ==> v == req.aaToId.value
    ensures req.aaToId.None? ==> v == BuildVocab(padded)
    ensures req.aaToId.None? ==> v.Keys == set c | c in Chars(padded)
    ensures req.aaToId.None? ==> forall c | c in v :: 0 <= v[c] < |v|
  {
    if req.aaToId.Some? then req.aaToId.value
    else
      BuildVocabSize(padded);
      BuildVocab(padded)
  }

  /**
   * What one call of `aa_encoding` leaves in the data and the error it raises, if any.
   * Writes made before an error stay, as they do in place.
   */
  function Encode(obs: Obs, req: Request): (r: (Obs, Option<EncodeError>))
    ensures r.1.Some? ==> r.0.aaToId == obs.aaToId
    ensures r.1.None? ==> r.0.aaToId.Some?
    ensures !req.oheCol ==> r.0.oneHot == obs.oneHot
    ensures !req.labelCol ==> r.0.labels == obs.labels
    ensures req.oheCol || req.labelCol ==>
      && r.0.sequences == Prepared(obs.sequences, req.startEndSymbol)
      && r.0.lengths == if req.lengthCol then Some(Lengths(r.0.sequences)) else obs.lengths
  {
    if !req.oheCol && !req.labelCol then (obs, Some(NoOutputColumn))
    else
      var wrapped := Prepared(obs.sequences, req.startEndSymbol);
      var prepared := obs.(sequences := wrapped,
                           lengths := if req.lengthCol then Some(Lengths(wrapped)) else obs.lengths);
      match PadColumn(wrapped, EffectivePad(req.pad, req.startEndSymbol))
      case Failure(e) => (prepared, Some(e))
      case Success(padded) =>
        var vocab := VocabUsed(req, padded);
        match ColumnIds(padded, vocab)
        case Failure(e) => (prepared, Some(e))
        case Success(ids) => WriteOutputs(prepared, ids, vocab, req)
  }

  function WriteOutputs(obs: Obs, ids: seq<seq<int>>, vocab: Vocab, req: Request): (r: (Obs, Option<EncodeError>))
    ensures r.0.sequences == obs.sequences && r.0.lengths == obs.lengths
    ensures r.1.None? <==>
      && (req.oheCol ==> OneHotColumn(ids, |vocab|).Success? && Stackable(OneHotColumn(ids, |vocab|).value))
      && (req.labelCol ==> Stackable(ids))
    ensures r.1.Some? ==> r.0.aaToId == obs.aaToId
    ensures r.1.None? ==> r.0.aaToId == Some(vocab)
    ensures r.1.None? && req.oheCol ==> r.0.oneHot == Some(OneHotColumn(ids, |vocab|).value)
    ensures req.oheCol && OneHotColumn(ids, |vocab|).Success? ==> r.0.oneHot == Some(OneHotColumn(ids, |vocab|).value)
    ensures req.labelCol && (req.oheCol ==> OneHotColumn(ids, |vocab|).Success? && Stackable(OneHotColumn(ids, |vocab|).value))
      ==> r.0.labels == Some(ids)
    ensures !req.oheCol ==> r.0.oneHot == obs.oneHot
    ensures r.1.None? && req.labelCol ==> r.0.labels == Some(ids)
    ensures !req.labelCol ==> r.0.labels == obs.labels
  {
    if req.oheCol then
      match OneHotColumn(ids, |vocab|)
      case Failure(e) => (obs, Some(e))
      case Success(tables) =>
        var written := obs.(oneHot := Some(tables));
        if !Stackable(tables) then (written, Some(CannotStack))
        else WriteLabels(written, ids, vocab, req)
    else WriteLabels(obs, ids, vocab, req)
  }

  function WriteLabels(obs: Obs, ids: seq<seq<int>>, vocab: Vocab, req: Request): (r: (Obs, Option<EncodeError>))
    ensures r.0.sequences == obs.sequences && r.0.lengths == obs.lengths && r.0.oneHot == obs.oneHot
    ensures r.1.Some? <==> req.labelCol && !Stackable(ids)
    ensures r.1.Some? ==> r.1 == Some(CannotStack) && r.0.aaToId == obs.aaToId
    ensures r.1.None? ==> r.0.aaToId == Some(vocab)
    ensures r.0.labels == if req.labelCol then Some(ids) else obs.labels
  {
    if req.labelCol then
      var written := obs.(labels := Some(ids));
      if !Stackable(ids) then (written, Some(CannotStack))
      else (written.(aaToId := Some(vocab)), None)
    else (obs.(aaToId := Some(vocab)), None)
  }

  /** The annotated-data object `aa_encoding` works on in place. */
  class AnnData {
    var sequences: seq<string>
    var lengths: Option<seq<nat>>
    var oneHot: Option<seq<Table>>
    var labels: Option<seq<seq<int>>>
    var aaToId: Option<Vocab>

    function Snapshot(): Obs
      reads this
    {
      Obs(sequences, lengths, oneHot, labels, aaToId)
    }

    constructor (sequences: seq<string>)
      ensures Snapshot() == Obs(sequences, None, None, None, None)
    {
      this.sequences := sequences;
      lengths, oneHot, labels, aaToId := None, None, None, None;
    }
  }

  /** `aa_encoding(adata, read_col, ohe_col, label_col, length_col, pad, aa_to_id, start_end_symbol)`. */
  method AaEncoding(adata: AnnData, oheCol: bool, labelCol: bool, lengthCol: bool,
                    pad: Pad, aaToId: Option<Vocab>, startEndSymbol: bool)
    returns (err: Option<EncodeError>)
    modifies adata
    ensures (adata.Snapshot(), err) ==
      Encode(old(adata.Snapshot()), Request(oheCol, labelCol, lengthCol, pad, aaToId, startEndSymbol))
  {
    var req := Request(oheCol, labelCol, lengthCol, pad, aaToId, startEndSymbol);
    ghost var before := adata.Snapshot();
    if !labelCol && !oheCol {
      return Some(NoOutputColumn);
    }
    var width := pad;
    if startEndSymbol {
      adata.sequences := WrapColumn(adata.sequences);
      if width.Width? {
        width := Width(width.n + 2);
      }
    }
    if lengthCol {
      adata.lengths := Some(Lengths(adata.sequences));
    }
    assert adata.sequences == Prepared(before.sequences, startEndSymbol);
    assert width == EffectivePad(pad, startEndSymbol);
    ghost var prepared := adata.Snapshot();
    assert prepared == before.(sequences := adata.sequences,
      lengths := if lengthCol then Some(Lengths(adata.sequences)) else before.lengths);
    var padded := PadColumn(adata.sequences, width);
    if padded.Failure? {
      return Some(padded.error);
    }
    var vocab := if aaToId.Some? then aaToId.value else BuildVocab(padded.value);
    var ids := ColumnIds(padded.value, vocab);
    if ids.Failure? {
      return Some(ids.error);
    }
    assert Encode(before, req) == WriteOutputs(prepared, ids.value, vocab, req);
    err := WriteColumns(adata, ids.value, vocab, req);
  }

  /** Lines 54-68: the one-hot column, the label column and the vocabulary, in that order. */
  method WriteColumns(adata: AnnData, ids: seq<seq<int>>, vocab: Vocab, req: Request)
    returns (err: Option<EncodeError>)
    modifies adata
    ensures (adata.Snapshot(), err) == WriteOutputs(old(adata.Snapshot()), ids, vocab, req)
  {
    if req.oheCol {
      var tables := OneHotTables(ids, |vocab|);
      if tables.Failure? {
        return Some(tables.error);
      }
      adata.oneHot := Some(tables.value);
      if !Stackable(tables.value) {
        return Some(CannotStack);
      }
    }
    if req.labelCol {
      adata.labels := Some(ids);
      if !Stackable(ids) {
        return Some(CannotStack);
      }
    }
    adata.aaToId := Some(vocab);
    err := None;
  }

  // ---------------------------------------------------------------- properties of a call

  /** The call fails at once, writing nothing, exactly when no output column is asked for. */
  lemma EncodeFailsFast(obs: Obs, req: Request)
    ensures Encode(obs, req).1 == Some(NoOutputColumn) <==> !req.oheCol && !req.labelCol
    ensures !req.oheCol && !req.labelCol ==> Encode(obs, req).0 == obs
  {
    if req.oheCol || req.labelCol {
      var wrapped := Prepared(obs.sequences, req.startEndSymbol);
      var padded := PadColumn(wrapped, EffectivePad(req.pad, req.startEndSymbol));
      if padded.Success? {
        var vocab := VocabUsed(req, padded.value);
        var ids := ColumnIds(padded.value, vocab);
        if ids.Failure? {
          var k :| 0 <= k < |padded.value| && TokenIds(padded.value[k], vocab).Failure? &&
            ids.error == TokenIds(padded.value[k], vocab).error;
        } else if req.oheCol && OneHotColumn(ids.value, |vocab|).Failure? {
          var k :| 0 <= k < |ids.value| && OneHotTable(ids.value[k], |vocab|).Failure? &&
            OneHotColumn(ids.value, |vocab|).error == OneHotTable(ids.value[k], |vocab|).error;
        }
      }
    }
  }

  /**
   * After a call that raised nothing: the sequences are wrapped (when asked), the length column
   * holds their lengths before padding, the label column holds for each padded sequence one id
   * per character, the one-hot column one hot row per character, and the vocabulary used is
   * stored.
   */
  lemma {:induction false} EncodeSucceeded(obs: Obs, req: Request)
    requires Encode(obs, req).1 == None
    ensures var out := Encode(obs, req).0;
      var wrapped := Prepared(obs.sequences, req.startEndSymbol);
      var padded := PadColumn(wrapped, EffectivePad(req.pad, req.startEndSymbol));
      && padded.Success?
      && var vocab := VocabUsed(req, padded.value);
      && out.sequences == wrapped
      && out.lengths == (if req.lengthCol then Some(Lengths(wrapped)) else obs.lengths)
      && out.aaToId == Some(vocab)
      && (req.labelCol ==> (out.labels.Some? && |out.labels.value| == |wrapped| &&
          forall i | 0 <= i < |wrapped| ::
            && |out.labels.value[i]| == |padded.value[i]|
            && forall j | 0 <= j < |padded.value[i]| ::
                 padded.value[i][j] in vocab && out.labels.value[i][j] == vocab[padded.value[i][j]]))
      && (!req.labelCol ==> out.labels == obs.labels)
      && (req.oheCol ==> (out.oneHot.Some? && |out.oneHot.value| == |wrapped| &&
          forall i | 0 <= i < |wrapped| ::
            && |out.oneHot.value[i]| == |padded.value[i]|
            && forall j | 0 <= j < |padded.value[i]| ::
                 padded.value[i][j] in vocab &&
                 HotColumn(vocab[padded.value[i][j]], |vocab|).Some? &&
                 out.oneHot.value[i][j] == OneHotRow(HotColumn(vocab[padded.value[i][j]], |vocab|).value, |vocab|)))
      && (!req.oheCol ==> out.oneHot == obs.oneHot)
  {
    EncodeWrites(obs, req);
    var wrapped := Prepared(obs.sequences, req.startEndSymbol);
    var padded := PadColumn(wrapped, EffectivePad(req.pad, req.startEndSymbol)).value;
    var vocab := VocabUsed(req, padded);
    var ids := ColumnIds(padded, vocab).value;
    forall i, j | 0 <= i < |padded| && 0 <= j < |padded[i]|
      ensures padded[i][j] in vocab && ids[i][j] == vocab[padded[i][j]]
    {
      assert TokenIds(padded[i], vocab).Success?;
      assert padded[i][j] in padded[i];
    }
  }

  /** What a call that raised nothing writes: every column it was asked for, from one vocabulary. */
  lemma EncodeWrites(obs: Obs, req: Request)
    requires Encode(obs, req).1 == None
    ensures var wrapped := Prepared(obs.sequences, req.startEndSymbol);
      var padded := PadColumn(wrapped, EffectivePad(req.pad, req.startEndSymbol));
      && padded.Success?
      && var vocab := VocabUsed(req, padded.value);
      && ColumnIds(padded.value, vocab).Success?
      && var ids := ColumnIds(padded.value, vocab).value;
      && (req.oheCol ==> OneHotColumn(ids, |vocab|).Success?)
      && Encode(obs, req).0 == Obs(
           wrapped,
           if req.lengthCol then Some(Lengths(wrapped)) else obs.lengths,
           if req.oheCol then Some(OneHotColumn(ids, |vocab|).value) else obs.oneHot,
           if req.labelCol then Some(ids) else obs.labels,
           Some(vocab))
  {
  }

  /** With a vocabulary built from the corpus, no lookup or one-hot index can fail. */
  lemma {:induction false} BuiltVocabCoversCorpus(padded: seq<string>)
    ensures var vocab := BuildVocab(padded);
      && ColumnIds(padded, vocab).Success?
      && OneHotColumn(ColumnIds(padded, vocab).value, |vocab|).Success?
      && forall i, j | 0 <= i < |padded| && 0 <= j < |padded[i]| ::
           0 <= ColumnIds(padded, vocab).value[i][j] < |vocab|
  {
    var vocab := BuildVocab(padded);
    BuiltVocabIdsInRange(padded);
    var ids := ColumnIds(padded, vocab).value;
    forall i | 0 <= i < |ids| ensures OneHotTable(ids[i], |vocab|).Success? {
      forall j | 0 <= j < |ids[i]| ensures HotColumn(ids[i][j], |vocab|).Some? {
        assert 0 <= ids[i][j] < |vocab|;
      }
    }
  }

  /** Every character of the corpus has an id in the vocabulary built from it, below the vocabulary's size. */
  lemma BuiltVocabIdsInRange(padded: seq<string>)
    ensures var vocab := BuildVocab(padded);
      && ColumnIds(padded, vocab).Success?
      && forall i, j | 0 <= i < |padded| && 0 <= j < |padded[i]| ::
           0 <= ColumnIds(padded, vocab).value[i][j] < |vocab|
  {
    var vocab := BuildVocab(padded);
    BuildVocabSize(padded);
    forall i | 0 <= i < |padded| ensures TokenIds(padded[i], vocab).Success? {
      forall c | c in padded[i] ensures c in vocab {
        assert c in Chars(padded);
      }
    }
    var ids := ColumnIds(padded, vocab).value;
    forall i, j | 0 <= i < |padded| && 0 <= j < |padded[i]| ensures 0 <= ids[i][j] < |vocab| {
      assert padded[i][j] in vocab;
    }
  }

  /**
   * With `pad=True` and a built vocabulary, encoding any non-empty column succeeds: every
   * padded sequence has the length of the longest, so the arrays stack.
   */
  lemma {:induction false} PadToLongestSucceeds(obs: Obs, req: Request)
    requires req.oheCol || req.labelCol
    requires req.pad == Longest && req.aaToId == None
    requires obs.sequences != []
    ensures Encode(obs, req).1 == None
  {
    var wrapped := Prepared(obs.sequences, req.startEndSymbol);
    var padded := PadColumn(wrapped, Longest).value;
    LongestColumnStacks(padded, MaxLength(wrapped));
    EncodeRaisesNothing(obs, req);
  }

  /** The calls on which every step of `aa_encoding` goes through. */
  lemma EncodeRaisesNothing(obs: Obs, req: Request)
    requires req.oheCol || req.labelCol
    requires var padded := PadColumn(Prepared(obs.sequences, req.startEndSymbol), EffectivePad(req.pad, req.startEndSymbol));
      && padded.Success?
      && var vocab := VocabUsed(req, padded.value);
      && var ids := ColumnIds(padded.value, vocab);
      && ids.Success? && Stackable(ids.value)
      && (req.oheCol ==> OneHotColumn(ids.value, |vocab|).Success? && Stackable(OneHotColumn(ids.value, |vocab|).value))
    ensures Encode(obs, req).1 == None
  {
  }

  /** Sequences padded to one common width stack, as do their ids and one-hot tables. */
  lemma LongestColumnStacks(padded: seq<string>, width: nat)
    requires padded != [] && forall i | 0 <= i < |padded| :: |padded[i]| == width
    ensures var vocab := BuildVocab(padded);
      && ColumnIds(padded, vocab).Success?
      && var ids := ColumnIds(padded, vocab).value;
      && Stackable(ids)
      && OneHotColumn(ids, |vocab|).Success?
      && Stackable(OneHotColumn(ids, |vocab|).value)
  {
    var vocab := BuildVocab(padded);
    BuiltVocabCoversCorpus(padded);
    IdsStack(padded, vocab, width);
    TablesStack(ColumnIds(padded, vocab).value, |vocab|);
  }

  /** The ids of sequences of one common width stack. */
  lemma IdsStack(padded: seq<string>, v: Vocab, width: nat)
    requires padded != [] && forall i | 0 <= i < |padded| :: |padded[i]| == width
    requires ColumnIds(padded, v).Success?
    ensures Stackable(ColumnIds(padded, v).value)
  {
    var ids := ColumnIds(padded, v).value;
    forall i | 0 <= i < |ids| ensures |ids[i]| == |ids[0]| {
      assert |ids[i]| == |padded[i]| == width == |padded[0]| == |ids[0]|;
    }
  }

  /** One-hot tables of id rows that stack stack too. */
  lemma TablesStack(ids: seq<seq<int>>, k: nat)
    requires Stackable(ids) && OneHotColumn(ids, k).Success?
    ensures Stackable(OneHotColumn(ids, k).value)
  {
    var tables := OneHotColumn(ids, k).value;
    forall i | 0 <= i < |tables| ensures |tables[i]| == |tables[0]| {
      assert |tables[i]| == |ids[i]|;
    }
  }

  /** Reading the ids of a built vocabulary back through the sorted alphabet gives the characters. */
  lemma {:induction false} DecodeBuiltIds(padded: seq<string>)
    ensures var vocab := BuildVocab(padded);
      && ColumnIds(padded, vocab).Success?
      && forall i | 0 <= i < |padded| ::
           && (forall j | 0 <= j < |padded[i]| :: 0 <= ColumnIds(padded, vocab).value[i][j] < |Alphabet(padded)|)
           && Decode(ColumnIds(padded, vocab).value[i], Alphabet(padded)) == padded[i]
  {
    var vocab := BuildVocab(padded);
    forall i | 0 <= i < |padded|
      ensures var t := TokenIds(padded[i], vocab);
        && t.Success?
        && (forall j | 0 <= j < |padded[i]| :: 0 <= t.value[j] < |Alphabet(padded)|)
        && Decode(t.value, Alphabet(padded)) == padded[i]
    {
      DecodeBuiltRow(padded, i);
    }
  }

  /** One sequence of the corpus, read through the vocabulary built from the corpus and back. */
  lemma DecodeBuiltRow(padded: seq<string>, i: nat)
    requires i < |padded|
    ensures var t := TokenIds(padded[i], BuildVocab(padded));
      && t.Success?
      && (forall j | 0 <= j < |padded[i]| :: 0 <= t.value[j] < |Alphabet(padded)|)
      && Decode(t.value, Alphabet(padded)) == padded[i]
  {
    var vocab, alphabet, s := BuildVocab(padded), Alphabet(padded), padded[i];
    forall c | c in s ensures c in vocab {
      assert c in Chars(padded);
    }
    var ids := TokenIds(s, vocab).value;
    forall j | 0 <= j < |s| ensures 0 <= ids[j] < |alphabet| && alphabet[ids[j]] == s[j] {
      assert s[j] in vocab;
    }
    assert Decode(ids, alphabet) == s;
  }

  /**
   * The encoding round trip: with sentinels and a built vocabulary, reading each label row back
   * through the sorted alphabet, trimming the padding and removing the sentinels gives the
   * original sequence.
   */
  lemma {:induction false} EncodeRoundTrip(obs: Obs, req: Request)
    requires req.labelCol && req.startEndSymbol && req.aaToId == None
    requires Encode(obs, req).1 == None
    ensures var out := Encode(obs, req).0;
      var padded := PadColumn(out.sequences, EffectivePad(req.pad, true));
      var alphabet := if padded.Success? then Alphabet(padded.value) else [];
      && padded.Success?
      && out.labels.Some? && |out.labels.value| == |obs.sequences|
      && forall i | 0 <= i < |obs.sequences| ::
           && (forall j | 0 <= j < |out.labels.value[i]| :: 0 <= out.labels.value[i][j] < |alphabet|)
           && Unwrap(TrimPadding(Decode(out.labels.value[i], alphabet))) == obs.sequences[i]
  {
    EncodeLabels(obs, req);
    var out := Encode(obs, req).0;
    var padded := PadColumn(out.sequences, EffectivePad(req.pad, true)).value;
    RoundTripStored(obs.sequences, out.sequences, padded, out.labels.value);
  }

  /** The round trip stated on the stored columns alone. */
  lemma RoundTripStored(col: seq<string>, wrapped: seq<string>, padded: seq<string>, labels: seq<seq<int>>)
    requires |wrapped| == |col| && forall i | 0 <= i < |col| :: wrapped[i] == Wrap(col[i])
    requires |padded| == |col| && forall i | 0 <= i < |col| :: PaddedFrom(wrapped[i], padded[i])
    requires ColumnIds(padded, BuildVocab(padded)) == Success(labels)
    ensures |labels| == |col|
    ensures forall i | 0 <= i < |col| ::
      && (forall j | 0 <= j < |labels[i]| :: 0 <= labels[i][j] < |Alphabet(padded)|)
      && Unwrap(TrimPadding(Decode(labels[i], Alphabet(padded)))) == col[i]
  {
    RoundTripColumn(col, padded);
  }

  /** The round trip over one column of wrapped and padded sequences. */
  lemma RoundTripColumn(col: seq<string>, padded: seq<string>)
    requires |padded| == |col|
    requires forall i | 0 <= i < |col| :: PaddedFrom(Wrap(col[i]), padded[i])
    ensures var ids := ColumnIds(padded, BuildVocab(padded));
      && ids.Success?
      && forall i | 0 <= i < |col| ::
           && (forall j | 0 <= j < |ids.value[i]| :: 0 <= ids.value[i][j] < |Alphabet(padded)|)
           && Unwrap(TrimPadding(Decode(ids.value[i], Alphabet(padded)))) == col[i]
  {
    DecodeBuiltIds(padded);
    var ids := ColumnIds(padded, BuildVocab(padded)).value;
    forall i | 0 <= i < |col|
      ensures Unwrap(TrimPadding(Decode(ids[i], Alphabet(padded)))) == col[i]
    {
      TrimPadded(Wrap(col[i]), padded[i]);
    }
  }

  /**
   * Writes made before a failing `np.stack` stay: once the ids are looked up,
   * a one-hot column that was built is stored even when stacking it fails,
   * and the label column is stored whenever the one-hot step (if asked for)
   * got through, even when stacking the labels fails.  An error raised
   * before the ids exist (padding, lookup) writes neither column.
   */
  lemma EncodeKeepsPartialWrites(obs: Obs, req: Request)
    requires req.oheCol || req.labelCol
    ensures var wrapped := Prepared(obs.sequences, req.startEndSymbol);
      var padded := PadColumn(wrapped, EffectivePad(req.pad, req.startEndSymbol));
      var out := Encode(obs, req).0;
      && (padded.Failure? ==> out.oneHot == obs.oneHot && out.labels == obs.labels)
      && (padded.Success? && ColumnIds(padded.value, VocabUsed(req, padded.value)).Failure? ==>
            out.oneHot == obs.oneHot && out.labels == obs.labels)
      && (padded.Success? && ColumnIds(padded.value, VocabUsed(req, padded.value)).Success? ==>
            var vocab := VocabUsed(req, padded.value);
            var ids := ColumnIds(padded.value, vocab).value;
            var tables := OneHotColumn(ids, |vocab|);
            && (req.oheCol && tables.Success? ==> out.oneHot == Some(tables.value))
            && (req.labelCol && (req.oheCol ==> tables.Success? && Stackable(tables.value)) ==>
                  out.labels == Some(ids)))
  {
  }

  /** A successful call with a label column stores the token ids of the padded sequences. */
  lemma EncodeLabels(obs: Obs, req: Request)
    requires req.labelCol && Encode(obs, req).1 == None
    ensures var wrapped := Prepared(obs.sequences, req.startEndSymbol);
      var padded := PadColumn(wrapped, EffectivePad(req.pad, req.startEndSymbol));
      && padded.Success?
      && ColumnIds(padded.value, VocabUsed(req, padded.value)).Success?
      && Encode(obs, req).0.labels == Some(ColumnIds(padded.value, VocabUsed(req, padded.value)).value)
      && Encode(obs, req).0.sequences == wrapped
  {
  }
}
