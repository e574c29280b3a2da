/**
 * The group-preserving stratified train/test split (`stratified_group_shuffle_split`).
 *
 * The rows of the data frame are grouped by their stratification label (in
 * ascending label order, as a pandas `groupby` does).  The label groups are
 * visited one after the other; the group ids (clonotypes) already placed in
 * train or test are dropped from each later label group, a label group with a
 * single remaining row goes to train, and a larger one is divided by an
 * external group splitter.  Finally train and test are the rows of the data
 * frame whose group id was placed on that side.
 */
module GroupSplit {
  import opened Wrappers
  import Sorted

  /** One row of the data frame: its stratification label and its group id. */
  datatype Row<G> = Row(stratum: int, group: G)

  /** The external splitter raised while dividing the label group `label`. */
  datatype SplitError = SplitterFailed(stratum: int)

  /**
   * The external group splitter (`GroupShuffleSplit(...).split`), abstract:
   * given the group ids of the rows of one label group, it answers the set of
   * group ids that go to test, or None when it raises.  The rows whose group
   * id is not chosen go to train, so the splitter always divides whole groups.
   */
  type Splitter<!G(==,!new)> = seq<G> -> Option<set<G>>

  /** The group id column of `rows`. */
  function GroupIds<G(==,!new)>(rows: seq<Row<G>>): (r: seq<G>)
    ensures |r| == |rows|
    ensures forall i | 0 <= i < |rows| :: r[i] == rows[i].group
    ensures forall g :: g in r <==> exists x :: x in rows && x.group == g
  {
    if rows == [] then [] else [rows[0].group] + GroupIds(rows[1..])
  }

  /** The rows whose group id is in `ids` (`rows[rows[group_col].isin(ids)]`), in row order. */
  function Keep<G(==,!new)>(rows: seq<Row<G>>, ids: set<G>): (r: seq<Row<G>>)
    ensures |r| <= |rows|
    ensures forall x :: x in r <==> x in rows && x.group in ids
  {
    if rows == [] then []
    else (if rows[0].group in ids then [rows[0]] else []) + Keep(rows[1..], ids)
  }

  /** The rows whose group id is not in `ids` (`rows[~rows[group_col].isin(ids)]`), in row order. */
  function Drop<G(==,!new)>(rows: seq<Row<G>>, ids: set<G>): (r: seq<Row<G>>)
    ensures |r| <= |rows|
    ensures forall x :: x in r <==> x in rows && x.group !in ids
  {
    if rows == [] then []
    else (if rows[0].group in ids then [] else [rows[0]]) + Drop(rows[1..], ids)
  }

  /** The set of group ids listed in `train` or `test`. */
  function Placed<G(==,!new)>(train: seq<G>, test: seq<G>): (r: set<G>)
    ensures forall g :: g in r <==> g in train || g in test
  {
    set g | g in train + test
  }

  function IntLess(a: int, b: int): bool {
    a < b
  }

  lemma IntLessIsStrictOrder()
    ensures Sorted.StrictOrder(IntLess)
  {
  }

  /** The labels of `rows`, in row order. */
  function LabelColumn<G(==,!new)>(rows: seq<Row<G>>): (r: seq<int>)
    ensures |r| == |rows|
    ensures forall i | 0 <= i < |rows| :: r[i] == rows[i].stratum
  {
    if rows == [] then [] else [rows[0].stratum] + LabelColumn(rows[1..])
  }

  /** The keys of `df.groupby(stratify_col)`: the distinct labels, ascending. */
  function Keys<G(==,!new)>(df: seq<Row<G>>): (r: seq<int>)
    ensures Sorted.Increasing(r, IntLess)
    ensures forall l :: l in r <==> l in LabelColumn(df)
  {
    IntLessIsStrictOrder();
    Sorted.SortedDistinct(LabelColumn(df), IntLess)
  }

  /** The rows carrying `label`, in row order. */
  function WithLabel<G(==,!new)>(df: seq<Row<G>>, stratum: int): (r: seq<Row<G>>)
    ensures |r| <= |df|
    ensures forall x :: x in r <==> x in df && x.stratum == stratum
  {
    if df == [] then []
    else (if df[0].stratum == stratum then [df[0]] else []) + WithLabel(df[1..], stratum)
  }

  /**
   * One step of the loop: the label group `group` (label `label`) is placed,
   * given the group ids `train` and `test` placed so far.
   */
  function Place<G(==,!new)>(train: seq<G>, test: seq<G>, stratum: int, group: seq<Row<G>>, split: Splitter<G>)
    : (r: Result<(seq<G>, seq<G>), SplitError>)
    ensures r.Failure? <==> |Drop(group, Placed(train, test))| > 1 && split(GroupIds(Drop(group, Placed(train, test)))).None?
    ensures r.Failure? ==> r.error == SplitterFailed(stratum)
    ensures var rest := Drop(group, Placed(train, test));
      |rest| > 1 && split(GroupIds(rest)).Some? ==>
        var chosen := split(GroupIds(rest)).value;
        r == Success((train + GroupIds(Drop(rest, chosen)), test + GroupIds(Keep(rest, chosen))))
  {
    var rest := Drop(group, Placed(train, test));
    if |rest| == 0 then Success((train, test))
    else if |rest| > 1 then
      match split(GroupIds(rest))
      case None => Failure(SplitterFailed(stratum))
      case Some(chosen) =>
        Success((train + GroupIds(Drop(rest, chosen)), test + GroupIds(Keep(rest, chosen))))
    else Success((train + GroupIds(rest), test))
  }

  /** `df.groupby(stratify_col)`: every label, ascending, with the rows carrying it. */
  function GroupBy<G(==,!new)>(df: seq<Row<G>>): (r: seq<(int, seq<Row<G>>)>)
    ensures |r| == |Keys(df)|
    ensures forall k | 0 <= k < |r| :: r[k] == (Keys(df)[k], WithLabel(df, Keys(df)[k]))
  {
    var keys := Keys(df);
    seq(|keys|, k requires 0 <= k < |keys| => (keys[k], WithLabel(df, keys[k])))
  }

  /**
   * The loop over the label groups `groups`, starting from the group ids
   * `train` and `test` already placed: the ids placed at the end, or the
   * splitter's failure.
   */
  function PlaceAll<G(==,!new)>(groups: seq<(int, seq<Row<G>>)>, train: seq<G>, test: seq<G>, split: Splitter<G>)
    : (r: Result<(seq<G>, seq<G>), SplitError>)
    ensures r.Failure? ==> exists k | 0 <= k < |groups| :: r.error.stratum == groups[k].0
  {
    if groups == [] then Success((train, test))
    else
      var p :- Place(train, test, groups[0].0, groups[0].1, split);
      var r := PlaceAll(groups[1..], p.0, p.1, split);
      assert r.Failure? ==> exists k | 0 <= k < |groups| :: r.error.stratum == groups[k].0 by {
        if r.Failure? {
          var k :| 0 <= k < |groups[1..]| && r.error.stratum == groups[1..][k].0;
          assert groups[k + 1] == groups[1..][k];
        }
      }
      r
  }

  /** The result of the whole split: the train rows and the test rows of `df`. */
  function Split<G(==,!new)>(df: seq<Row<G>>, split: Splitter<G>): (r: Result<(seq<Row<G>>, seq<Row<G>>), SplitError>)
    ensures r.Success? ==> |r.value.0| <= |df| && |r.value.1| <= |df|
  {
    var p :- PlaceAll(GroupBy(df), [], [], split);
    Success((Keep(df, Placed(p.0, [])), Keep(df, Placed(p.1, []))))
  }

  /**
   * `stratified_group_shuffle_split`: the loop over the label groups
   * accumulating the train and test group ids, then the selection of rows.
   */
  method StratifiedGroupShuffleSplit<G(==,!new)>(df: seq<Row<G>>, split: Splitter<G>)
    returns (r: Result<(seq<Row<G>>, seq<Row<G>>), SplitError>)
    ensures r == Split(df, split)
    ensures r.Success? ==> forall x, y | x in r.value.0 && y in r.value.1 :: x.group != y.group
  {
    var groups := GroupBy(df);
    var allTrain: seq<G> := [];
    var allTest: seq<G> := [];
    for k := 0 to |groups|
      invariant PlaceAll(groups[k..], allTrain, allTest, split) == PlaceAll(groups, [], [], split)
      invariant Placed(allTrain, []) !! Placed(allTest, [])
    {
      var (stratum, group) := groups[k];
      var step := PlaceGroup(allTrain, allTest, stratum, group, split);
      PlaceAllStep(groups, k, allTrain, allTest, split);
      if step.Failure? {
        return Failure(step.error);
      }
      PlaceKeepsSidesApart(allTrain, allTest, stratum, group, split);
      allTrain, allTest := step.value.0, step.value.1;
    }
    var train, test := Keep(df, Placed(allTrain, [])), Keep(df, Placed(allTest, []));
    r := Success((train, test));
  }

  /**
   * The body of the loop for one label group: drop the group ids already
   * placed, skip an emptied group, send a single row to train and divide a
   * larger group with the splitter.
   */
  method PlaceGroup<G(==,!new)>(allTrain: seq<G>, allTest: seq<G>, stratum: int, group: seq<Row<G>>, split: Splitter<G>)
    returns (r: Result<(seq<G>, seq<G>), SplitError>)
    ensures r == Place(allTrain, allTest, stratum, group, split)
  {
    var rest := Drop(group, Placed(allTrain, allTest));
    if |rest| == 0 {
      return Success((allTrain, allTest));
    }
    if |rest| > 1 {
      var chosen := split(GroupIds(rest));
      if chosen.None? {
        return Failure(SplitterFailed(stratum));
      }
      r := Success((allTrain + GroupIds(Drop(rest, chosen.value)), allTest + GroupIds(Keep(rest, chosen.value))));
    } else {
      r := Success((allTrain + GroupIds(rest), allTest));
    }
  }

  /** The loop from label group `k` on is one placing step followed by the loop from `k + 1` on. */
  lemma PlaceAllStep<G(!new)>(groups: seq<(int, seq<Row<G>>)>, k: nat, train: seq<G>, test: seq<G>, split: Splitter<G>)
    requires k < |groups|
    ensures var p := Place(train, test, groups[k].0, groups[k].1, split);
      && (p.Failure? ==> PlaceAll(groups[k..], train, test, split) == Failure(p.error))
      && (p.Success? ==> PlaceAll(groups[k..], train, test, split) == PlaceAll(groups[k + 1..], p.value.0, p.value.1, split))
  {
    assert groups[k..][0] == groups[k] && groups[k..][1..] == groups[k + 1..];
  }

  /**
   * Placing one label group only appends to the two lists, so an id placed
   * earlier stays on its side; the appended ids come from the label group and
   * were not placed before, so the two sides stay apart.
   */
  lemma PlaceKeepsSidesApart<G(!new)>(train: seq<G>, test: seq<G>, stratum: int, group: seq<Row<G>>, split: Splitter<G>)
    requires Placed(train, []) !! Placed(test, [])
    requires Place(train, test, stratum, group, split).Success?
    ensures var p := Place(train, test, stratum, group, split).value;
      && train <= p.0 && test <= p.1
      && Placed(p.0, []) !! Placed(p.1, [])
      && forall g | g in p.0 + p.1 :: g in train + test || exists x :: x in group && x.group == g
  {
    var rest := Drop(group, Placed(train, test));
    if |rest| > 1 {
      var chosen := split(GroupIds(rest)).value;
      FreshIds(train, test, rest, GroupIds(Drop(rest, chosen)), GroupIds(Keep(rest, chosen)));
    } else if |rest| == 1 {
      FreshIds(train, test, rest, GroupIds(rest), []);
    }
  }

  /** Every row of the label group has its group id placed on one side after the step. */
  lemma PlaceCoversGroup<G(!new)>(train: seq<G>, test: seq<G>, stratum: int, group: seq<Row<G>>, split: Splitter<G>)
    requires Place(train, test, stratum, group, split).Success?
    ensures var p := Place(train, test, stratum, group, split).value;
      forall x | x in group :: x.group in p.0 || x.group in p.1
  {
    var rest := Drop(group, Placed(train, test));
    if |rest| > 1 {
      var chosen := split(GroupIds(rest)).value;
      forall x | x in group && x.group !in Placed(train, test)
        ensures x.group in GroupIds(Drop(rest, chosen)) + GroupIds(Keep(rest, chosen))
      {
        assert x in rest;
        if x.group in chosen {
          assert x in Keep(rest, chosen);
        } else {
          assert x in Drop(rest, chosen);
        }
      }
    } else {
      forall x | x in group && x.group !in Placed(train, test) ensures x.group in GroupIds(rest) {
        assert x in rest;
      }
    }
  }

  /** A label group whose remaining rows are all of placed ids is skipped. */
  lemma PlaceSkipsEmpty<G(!new)>(train: seq<G>, test: seq<G>, stratum: int, group: seq<Row<G>>, split: Splitter<G>)
    requires forall x | x in group :: x.group in train || x.group in test
    ensures Place(train, test, stratum, group, split) == Success((train, test))
  {
    assert Drop(group, Placed(train, test)) == [] by {
      if Drop(group, Placed(train, test)) != [] {
        assert Drop(group, Placed(train, test))[0] in Drop(group, Placed(train, test));
      }
    }
  }

  /** A label group with exactly one remaining row puts that row's group id in train. */
  lemma PlaceSingleRowToTrain<G(!new)>(train: seq<G>, test: seq<G>, stratum: int, group: seq<Row<G>>, split: Splitter<G>)
    requires |Drop(group, Placed(train, test))| == 1
    ensures Place(train, test, stratum, group, split)
         == Success((train + [Drop(group, Placed(train, test))[0].group], test))
  {
    var rest := Drop(group, Placed(train, test));
    assert GroupIds(rest) == [rest[0].group];
  }

  /**
   * When the splitter divides a label group, the splitter's answer decides the
   * sides: a remaining row goes to test exactly when its group id was chosen.
   */
  lemma PlaceFollowsSplitter<G(!new)>(train: seq<G>, test: seq<G>, stratum: int, group: seq<Row<G>>, split: Splitter<G>)
    requires |Drop(group, Placed(train, test))| > 1
    requires split(GroupIds(Drop(group, Placed(train, test)))).Some?
    ensures var rest := Drop(group, Placed(train, test));
      var chosen := split(GroupIds(rest)).value;
      && Place(train, test, stratum, group, split).Success?
      && var p := Place(train, test, stratum, group, split).value;
      forall x | x in rest ::
        && (x.group in chosen ==> x.group in p.1)
        && (x.group !in chosen ==> x.group in p.0)
  {
    var rest := Drop(group, Placed(train, test));
    var chosen := split(GroupIds(rest)).value;
    forall x | x in rest
      ensures x.group in chosen ==> x.group in GroupIds(Keep(rest, chosen))
      ensures x.group !in chosen ==> x.group in GroupIds(Drop(rest, chosen))
    {
      if x.group in chosen {
        assert x in Keep(rest, chosen);
      } else {
        assert x in Drop(rest, chosen);
      }
    }
  }

  /** The loop over all label groups is the loop over the first `k` followed by the loop over the rest. */
  lemma {:induction false} PlaceAllPrefix<G(!new)>(groups: seq<(int, seq<Row<G>>)>, k: nat, train: seq<G>, test: seq<G>, split: Splitter<G>)
    requires k <= |groups|
    requires PlaceAll(groups, train, test, split).Success?
    ensures PlaceAll(groups[..k], train, test, split).Success?
    ensures var b := PlaceAll(groups[..k], train, test, split).value;
      PlaceAll(groups[k..], b.0, b.1, split) == PlaceAll(groups, train, test, split)
  {
    if k == 0 {
      assert groups[..0] == [] && groups[0..] == groups;
    } else {
      var p := Place(train, test, groups[0].0, groups[0].1, split).value;
      PlaceAllPrefix(groups[1..], k - 1, p.0, p.1, split);
      assert groups[..k][0] == groups[0];
      assert groups[..k][1..] == groups[1..][..k - 1];
      assert groups[1..][k - 1..] == groups[k..];
    }
  }

  /**
   * Over the whole loop: for the label group at position `k`, with the ids
   * placed by the label groups before it, the splitter's answer for its
   * remaining rows decides on which side their ids end up.
   */
  lemma PlaceAllFollowsSplitter<G(!new)>(groups: seq<(int, seq<Row<G>>)>, k: nat, split: Splitter<G>)
    requires k < |groups|
    requires PlaceAll(groups, [], [], split).Success?
    ensures PlaceAll(groups[..k], [], [], split).Success?
    ensures var b := PlaceAll(groups[..k], [], [], split).value;
      var rest := Drop(groups[k].1, Placed(b.0, b.1));
      var q := PlaceAll(groups, [], [], split).value;
      |rest| > 1 ==>
        && split(GroupIds(rest)).Some?
        && forall x | x in rest ::
          && (x.group in split(GroupIds(rest)).value ==> x.group in q.1)
          && (x.group !in split(GroupIds(rest)).value ==> x.group in q.0)
  {
    PlaceAllAt(groups, k, split);
    var b := PlaceAll(groups[..k], [], [], split).value;
    if |Drop(groups[k].1, Placed(b.0, b.1))| > 1 {
      PlaceFollowsSplitter(b.0, b.1, groups[k].0, groups[k].1, split);
    }
  }

  /**
   * The step for the label group at position `k`, taken from the ids placed
   * by the label groups before it, succeeds when the whole loop does, and
   * what it places stays on its side to the end.
   */
  lemma PlaceAllAt<G(!new)>(groups: seq<(int, seq<Row<G>>)>, k: nat, split: Splitter<G>)
    requires k < |groups|
    requires PlaceAll(groups, [], [], split).Success?
    ensures PlaceAll(groups[..k], [], [], split).Success?
    ensures var b := PlaceAll(groups[..k], [], [], split).value;
      && Place(b.0, b.1, groups[k].0, groups[k].1, split).Success?
      && var p := Place(b.0, b.1, groups[k].0, groups[k].1, split).value;
      var q := PlaceAll(groups, [], [], split).value;
      p.0 <= q.0 && p.1 <= q.1
  {
    PlaceAllPrefix(groups, k, [], [], split);
    var b := PlaceAll(groups[..k], [], [], split).value;
    PlaceAllStep(groups, k, b.0, b.1, split);
    var p := Place(b.0, b.1, groups[k].0, groups[k].1, split).value;
    PlaceAllKeepsPlaced(groups[k + 1..], p.0, p.1, split);
  }

  /**
   * Lifted to the whole split: take the label group at position `k` with the
   * ids placed by the label groups before it; when more than one of its rows
   * remains, the splitter answered for them, and each of those rows is in the
   * returned test frame exactly when its group id is in that answer, and in
   * the train frame otherwise.
   */
  lemma SplitFollowsSplitter<G(!new)>(df: seq<Row<G>>, split: Splitter<G>, k: nat)
    requires Split(df, split).Success?
    requires k < |GroupBy(df)|
    ensures var groups := GroupBy(df);
      && PlaceAll(groups[..k], [], [], split).Success?
      && var b := PlaceAll(groups[..k], [], [], split).value;
      var rest := Drop(groups[k].1, Placed(b.0, b.1));
      |rest| > 1 ==>
        && split(GroupIds(rest)).Some?
        && var chosen := split(GroupIds(rest)).value;
        forall x | x in rest ::
          && (x in Split(df, split).value.1 <==> x.group in chosen)
          && (x in Split(df, split).value.0 <==> x.group !in chosen)
  {
    var groups := GroupBy(df);
    PlaceAllFollowsSplitter(groups, k, split);
    var b := PlaceAll(groups[..k], [], [], split).value;
    var rest := Drop(groups[k].1, Placed(b.0, b.1));
    if |rest| > 1 {
      var chosen := split(GroupIds(rest)).value;
      var q := PlaceAll(groups, [], [], split).value;
      PlaceAllKeepsSidesApart(groups, [], [], split);
      var (train, test) := Split(df, split).value;
      assert train == Keep(df, Placed(q.0, [])) && test == Keep(df, Placed(q.1, []));
      forall x | x in rest
        ensures x in test <==> x.group in chosen
        ensures x in train <==> x.group !in chosen
      {
        assert x in groups[k].1;
        assert x in df;
        if x.group in chosen {
          assert x.group in q.1 && x.group !in q.0;
        } else {
          assert x.group in q.0 && x.group !in q.1;
        }
      }
    }
  }

  /**
   * The single-row branch lifted to the whole split: when exactly one row of
   * the label group at position `k` remains after the ids placed by the label
   * groups before it, that row is in the returned train frame and not in test.
   */
  lemma SplitSingleRowToTrain<G(!new)>(df: seq<Row<G>>, split: Splitter<G>, k: nat)
    requires Split(df, split).Success?
    requires k < |GroupBy(df)|
    ensures var groups := GroupBy(df);
      && PlaceAll(groups[..k], [], [], split).Success?
      && var b := PlaceAll(groups[..k], [], [], split).value;
      var rest := Drop(groups[k].1, Placed(b.0, b.1));
      |rest| == 1 ==> rest[0] in Split(df, split).value.0 && rest[0] !in Split(df, split).value.1
  {
    var groups := GroupBy(df);
    PlaceAllAt(groups, k, split);
    var b := PlaceAll(groups[..k], [], [], split).value;
    var rest := Drop(groups[k].1, Placed(b.0, b.1));
    if |rest| == 1 {
      PlaceSingleRowToTrain(b.0, b.1, groups[k].0, groups[k].1, split);
      var x := rest[0];
      var p := Place(b.0, b.1, groups[k].0, groups[k].1, split).value;
      assert p.0 == b.0 + [x.group];
      assert x.group in p.0;
      var q := PlaceAll(groups, [], [], split).value;
      assert p.0 <= q.0;
      assert x.group in q.0;
      PlaceAllKeepsSidesApart(groups, [], [], split);
      assert x.group !in q.1;
      var (train, test) := Split(df, split).value;
      assert train == Keep(df, Placed(q.0, [])) && test == Keep(df, Placed(q.1, []));
      assert x in groups[k].1;
      assert x in df;
    }
  }

  /** Ids taken from the remaining rows of a label group were not placed before. */
  lemma FreshIds<G(!new)>(train: seq<G>, test: seq<G>, rest: seq<Row<G>>, toTrain: seq<G>, toTest: seq<G>)
    requires forall x | x in rest :: x.group !in Placed(train, test)
    requires forall g | g in toTrain + toTest :: exists x :: x in rest && x.group == g
    requires Placed(toTrain, []) !! Placed(toTest, [])
    requires Placed(train, []) !! Placed(test, [])
    ensures Placed(train + toTrain, []) !! Placed(test + toTest, [])
  {
    forall g | g in toTrain + toTest ensures g !in train && g !in test {
      var x :| x in rest && x.group == g;
    }
  }

  /** Over the whole loop the sides only grow, and they stay apart. */
  lemma {:induction false} PlaceAllKeepsSidesApart<G(!new)>(groups: seq<(int, seq<Row<G>>)>, train: seq<G>, test: seq<G>, split: Splitter<G>)
    requires Placed(train, []) !! Placed(test, [])
    requires PlaceAll(groups, train, test, split).Success?
    ensures var p := PlaceAll(groups, train, test, split).value;
      train <= p.0 && test <= p.1 && Placed(p.0, []) !! Placed(p.1, [])
  {
    if groups != [] {
      PlaceKeepsSidesApart(train, test, groups[0].0, groups[0].1, split);
      var p := Place(train, test, groups[0].0, groups[0].1, split).value;
      PlaceAllKeepsSidesApart(groups[1..], p.0, p.1, split);
    }
  }

  /** After the whole loop every row of every label group has its group id placed. */
  lemma {:induction false} PlaceAllCovers<G(!new)>(groups: seq<(int, seq<Row<G>>)>, train: seq<G>, test: seq<G>, split: Splitter<G>)
    requires PlaceAll(groups, train, test, split).Success?
    ensures var p := PlaceAll(groups, train, test, split).value;
      forall k, x | 0 <= k < |groups| && x in groups[k].1 :: x.group in p.0 || x.group in p.1
  {
    if groups != [] {
      PlaceCoversGroup(train, test, groups[0].0, groups[0].1, split);
      var p := Place(train, test, groups[0].0, groups[0].1, split).value;
      PlaceAllCovers(groups[1..], p.0, p.1, split);
      PlaceAllKeepsPlaced(groups[1..], p.0, p.1, split);
      forall k, x | 0 <= k < |groups| && x in groups[k].1
        ensures x.group in PlaceAll(groups, train, test, split).value.0 || x.group in PlaceAll(groups, train, test, split).value.1
      {
        if k > 0 {
          assert groups[k] == groups[1..][k - 1];
        }
      }
    }
  }

  /** Ids placed before the loop stay on their side (without any disjointness assumption). */
  lemma {:induction false} PlaceAllKeepsPlaced<G(!new)>(groups: seq<(int, seq<Row<G>>)>, train: seq<G>, test: seq<G>, split: Splitter<G>)
    requires PlaceAll(groups, train, test, split).Success?
    ensures var p := PlaceAll(groups, train, test, split).value;
      train <= p.0 && test <= p.1
  {
    if groups != [] {
      var p := Place(train, test, groups[0].0, groups[0].1, split).value;
      assert train <= p.0 && test <= p.1;
      PlaceAllKeepsPlaced(groups[1..], p.0, p.1, split);
    }
  }

  /** Every row of the data frame belongs to the label group of its label. */
  lemma GroupByCovers<G(!new)>(df: seq<Row<G>>)
    ensures forall x | x in df :: exists k | 0 <= k < |GroupBy(df)| :: x in GroupBy(df)[k].1
  {
    var groups := GroupBy(df);
    forall x | x in df ensures exists k | 0 <= k < |groups| :: x in groups[k].1 {
      var keys := Keys(df);
      var i :| 0 <= i < |df| && df[i] == x;
      assert LabelColumn(df)[i] == x.stratum;
      assert x.stratum in keys;
      var k :| 0 <= k < |keys| && keys[k] == x.stratum;
      assert groups[k].1 == WithLabel(df, x.stratum);
    }
  }

  /**
   * The returned train and test frames split the data frame by group id: every
   * row is in exactly one of them, no group id is on both sides, and the rows
   * of one group id all go to the same side.
   */
  lemma SplitSeparatesGroups<G(!new)>(df: seq<Row<G>>, split: Splitter<G>)
    requires Split(df, split).Success?
    ensures var (train, test) := Split(df, split).value;
      && (forall x | x in df :: (x in train) != (x in test))
      && (forall x, y | x in train && y in test :: x.group != y.group)
      && (forall x, y | x in train && y in df && y.group == x.group :: y in train)
      && (forall x, y | x in test && y in df && y.group == x.group :: y in test)
  {
    var groups := GroupBy(df);
    PlaceAllKeepsSidesApart(groups, [], [], split);
    PlaceAllCovers(groups, [], [], split);
    GroupByCovers(df);
  }
}
