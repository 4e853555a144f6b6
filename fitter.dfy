/** The Fitter class of Fitter.py: it builds the LUT inventory from a LUT set,
    packs one layer of nodes greedily into the inventory (fit_layer) and
    drives layers until one node is left or a layer uses no LUT (fit). */
module Fitting {
  import opened Binary
  import opened LutInventory
  import opened Packing
  import opened Layer
  import opened Greedy

  /** The LUT lists of several layers, one after the other. */
  function Flatten(layers: seq<seq<nat>>): seq<nat>
  {
    if layers == [] then [] else Flatten(layers[..|layers| - 1]) + layers[|layers| - 1]
  }

  /** Every layer of fit used at least one LUT, in layer order. */
  ghost predicate LayersOrdered(layers: seq<seq<nat>>)
  {
    forall t :: 0 <= t < |layers| ==> layers[t] != [] && LayerOrder(layers[t])
  }

  /** Appending a non-empty layer in layer order keeps the layers ordered
      and adds its LUTs to the flattened list. */
  lemma LayersSnoc(layers: seq<seq<nat>>, layer: seq<nat>)
    requires LayersOrdered(layers) && layer != [] && LayerOrder(layer)
    ensures LayersOrdered(layers + [layer])
    ensures multiset(Flatten(layers + [layer])) == multiset(Flatten(layers)) + multiset(layer)
  {
    assert (layers + [layer])[..|layers|] == layers;
    forall t | 0 <= t < |layers| + 1
      ensures (layers + [layer])[t] != [] && LayerOrder((layers + [layer])[t])
    {
      if t < |layers| {
        assert (layers + [layer])[t] == layers[t];
      }
    }
  }

  /** What fit keeps across its layers: the inventory stays well formed,
      every LUT it lost (pool0 at the start) is in some layer, each layer
      cost at least one LUT of the total0 there were, and each layer is in
      layer order. */
  ghost predicate FitProgress(pool0: multiset<nat>, total0: nat, dict: map<nat, seq<nat>>,
                              layers: seq<seq<nat>>)
  {
    WellFormed(dict) && NonEmptyBuckets(dict) &&
    multiset(Flatten(layers)) + Pool(dict) == pool0 &&
    Total(dict) + |layers| <= total0 &&
    LayersOrdered(layers)
  }

  lemma FitStart(dict: map<nat, seq<nat>>)
    requires WellFormed(dict) && NonEmptyBuckets(dict)
    ensures FitProgress(Pool(dict), Total(dict), dict, [])
  {
  }

  /** A layer that used some LUTs, taken from the inventory in layer order,
      keeps the progress and lowers the stock. */
  lemma FitStep(pool0: multiset<nat>, total0: nat, dictBefore: map<nat, seq<nat>>,
                dict: map<nat, seq<nat>>, layers: seq<seq<nat>>, layer: seq<nat>)
    requires FitProgress(pool0, total0, dictBefore, layers)
    requires WellFormed(dict) && NonEmptyBuckets(dict)
    requires multiset(layer) + Pool(dict) == Pool(dictBefore)
    requires layer != [] && LayerOrder(layer)
    ensures FitProgress(pool0, total0, dict, layers + [layer])
    ensures Total(dict) < Total(dictBefore)
  {
    UsedFromInventory(layer, dict, dictBefore);
    LayersSnoc(layers, layer);
  }

  lemma SnocAssoc(a: seq<seq<nat>>, b: seq<seq<nat>>, x: seq<nat>)
    ensures (a + b) + [x] == a + (b + [x])
  {
  }

  /** The labels fit seeds the first layer with: row i is the L-digit
      binary label of i. */
  function Seeds(count: nat, L: nat): seq<Row>
    requires count <= Pow2(L)
  {
    seq(count, i requires 0 <= i < count => BinaryLabel(i, L))
  }

  /** The seed rows are the select codes of the data inputs: each is a bit
      string of width L whose MSB-first value is its own index, so no two
      seeds are equal. */
  lemma SeedsDecode(count: nat, L: nat)
    requires count <= Pow2(L)
    ensures |Seeds(count, L)| == count
    ensures forall i :: 0 <= i < count ==>
              |Seeds(count, L)[i]| == L && IsBits(Seeds(count, L)[i]) && BinValue(Seeds(count, L)[i]) == i
    ensures forall i, j :: 0 <= i < j < count ==> Seeds(count, L)[i] != Seeds(count, L)[j]
  {
    var r := Seeds(count, L);
    forall i | 0 <= i < count
      ensures BinValue(r[i]) == i
    {
      BinValueOfLabel(i, L);
    }
    forall i, j | 0 <= i < j < count
      ensures r[i] != r[j]
    {
      assert BinValue(r[i]) != BinValue(r[j]);
    }
  }

  /** used and rowsOut are what one run of fit_layer gives for the rows
      rowsIn and the inventory dictIn, leaving dictOut: the packing loop as
      LayerPacked describes it, then the deletion of the retired rows, except
      on the early return. */
  ghost predicate LayerFitted(rowsIn: seq<Row>, dictIn: map<nat, seq<nat>>, dictOut: map<nat, seq<nat>>,
                              used: seq<nat>, rowsOut: seq<Row>, check: Checker, L: nat)
  {
    exists rows: seq<Row>, groups: seq<seq<nat>>, merged: seq<Row>, starts: seq<nat>,
           stocks: seq<map<nat, seq<nat>>>, drops: map<nat, nat>, early: bool ::
      LayerPacked(rowsIn, rows, dictIn, dictOut, used, groups, merged, starts, stocks, drops, early, check, L) &&
      rowsOut == if early then rows else Survivors(rows, L)
  }

  /** The runs of fit_layer made by one fit, oldest first: Seeded holds the
      seed rows and the inventory fit started from, each Layered adds the
      LUTs one run used and the rows and inventory it left. */
  datatype Trace =
    | Seeded(rows: seq<Row>, dict: map<nat, seq<nat>>)
    | Layered(prev: Trace, used: seq<nat>, rows: seq<Row>, dict: map<nat, seq<nat>>)

  /** The LUT lists of the runs, oldest first. */
  function Runs(tr: Trace): (r: seq<seq<nat>>)
    ensures tr.Layered? ==> |r| > 0 && r[|r| - 1] == tr.used
  {
    match tr
    case Seeded(_, _) => []
    case Layered(prev, used, _, _) => Runs(prev) + [used]
  }

  /** Every run of the trace started from more than one row and is what
      fit_layer gives for the rows and inventory the run before it left; the
      first run started from seedRows and dict0. */
  ghost predicate Traced(tr: Trace, seedRows: seq<Row>, dict0: map<nat, seq<nat>>, check: Checker, L: nat)
    decreases tr, 2
  {
    match tr
    case Seeded(rows, dict) => rows == seedRows && dict == dict0
    case Layered(_, _, _, _) => LastRunFitted(tr, seedRows, dict0, check, L)
  }

  /** The last run started from more than one row and is fitted. */
  ghost predicate LastRunFitted(tr: Trace, seedRows: seq<Row>, dict0: map<nat, seq<nat>>, check: Checker, L: nat)
    requires tr.Layered?
    decreases tr, 1
  {
    |tr.prev.rows| > 1 && RunFitted(tr, seedRows, dict0, check, L)
  }

  /** The earlier runs are traced, and the last run is what fit_layer gives
      for the rows and inventory the run before it left. */
  ghost predicate RunFitted(tr: Trace, seedRows: seq<Row>, dict0: map<nat, seq<nat>>, check: Checker, L: nat)
    requires tr.Layered?
    decreases tr, 0
  {
    Traced(tr.prev, seedRows, dict0, check, L) &&
    LayerFitted(tr.prev.rows, tr.prev.dict, tr.dict, tr.used, tr.rows, check, L)
  }

  /** What a traced trace states about its last run. */
  lemma TracedRun(tr: Trace, seedRows: seq<Row>, dict0: map<nat, seq<nat>>, check: Checker, L: nat)
    requires Traced(tr, seedRows, dict0, check, L) && tr.Layered?
    ensures Traced(tr.prev, seedRows, dict0, check, L) && |tr.prev.rows| > 1
    ensures LayerFitted(tr.prev.rows, tr.prev.dict, tr.dict, tr.used, tr.rows, check, L)
  {
    assert LastRunFitted(tr, seedRows, dict0, check, L);
    assert RunFitted(tr, seedRows, dict0, check, L);
  }

  /** Every run of the trace used at least one LUT. */
  predicate Progressing(tr: Trace)
  {
    match tr
    case Seeded(_, _) => true
    case Layered(prev, used, _, _) => Progressing(prev) && used != []
  }

  /** The stock side of one run of fit_layer. */
  lemma LayerFittedStock(rowsIn: seq<Row>, dictIn: map<nat, seq<nat>>, dictOut: map<nat, seq<nat>>,
                         used: seq<nat>, rowsOut: seq<Row>, check: Checker, L: nat)
    requires LayerFitted(rowsIn, dictIn, dictOut, used, rowsOut, check, L)
    ensures WellFormed(dictOut) && NonEmptyBuckets(dictOut) && LayerOrder(used)
    ensures multiset(used) + Pool(dictOut) == Pool(dictIn)
  {
  }

  /** The runs of a trace in which every run used LUTs account for the LUTs
      taken from the inventory fit started from: each was taken once, each
      layer in layer order, and there are at most as many layers as LUTs. */
  lemma {:induction false} TracedProgress(tr: Trace, seedRows: seq<Row>, dict0: map<nat, seq<nat>>,
                                          check: Checker, L: nat)
    requires Traced(tr, seedRows, dict0, check, L) && Progressing(tr)
    requires WellFormed(dict0) && NonEmptyBuckets(dict0)
    ensures FitProgress(Pool(dict0), Total(dict0), tr.dict, Runs(tr))
  {
    match tr
    case Seeded(_, _) =>
      FitStart(dict0);
    case Layered(prev, used, rows, dict) =>
      TracedRun(tr, seedRows, dict0, check, L);
      TracedProgress(prev, seedRows, dict0, check, L);
      LayerFittedStock(prev.rows, prev.dict, dict, used, rows, check, L);
      FitStep(Pool(dict0), Total(dict0), prev.dict, dict, Runs(prev), used);
  }

  /** The first layer of fit: row i is the L-digit binary label of i. */
  method SeedLabels(count: nat, L: nat) returns (labels: array2<int>)
    requires count <= Pow2(L)
    ensures fresh(labels) && labels.Length0 == count && labels.Length1 == L
    ensures forall i :: 0 <= i < count ==> RowOf(labels, i) == BinaryLabel(i, L)
    ensures Rows(labels) == Seeds(count, L)
  {
    labels := new int[count, L];
    for i := 0 to count
      invariant forall i' :: 0 <= i' < i ==> RowOf(labels, i') == BinaryLabel(i', L)
    {
      var binaryRep := BinaryLabel(i, L);
      SetRow(labels, i, binaryRep);
      assert forall i' :: 0 <= i' < i ==> RowOf(labels, i') == Rows(labels)[i'];
    }
  }

  class Fitter {
    const muxSize: nat
    const lutSet: map<nat, nat>
    /** mux fan-in -> LUT sizes available for it, ascending. */
    var muxDict: map<nat, seq<nat>>
    /** The LUT lists of the fitted layers; None once a layer used no LUT. */
    var usedLutList: Option<seq<seq<nat>>>

    ghost predicate Valid()
      reads this
    {
      WellFormed(muxDict)
    }

    /** Bucket m holds, in ascending order, every size s of the LUT set with
        lut2mux_map[s] == m, repeated as many times as the set says; there is
        a bucket for every fan-in some size of the set maps to. A size of
        count 0 still creates its (possibly empty) bucket. */
    constructor (muxSize: nat, lutSet: map<nat, nat>)
      requires forall s :: s in lutSet ==> s in Lut2Mux
      ensures this.muxSize == muxSize && this.lutSet == lutSet && usedLutList == Some([])
      ensures Valid()
      ensures forall m :: m in muxDict <==> exists s :: s in lutSet && Lut2Mux[s] == m
      ensures forall m :: m in muxDict ==> Sorted(muxDict[m])
      ensures forall m, x :: m in muxDict ==>
                multiset(muxDict[m])[x] == if x in lutSet && Lut2Mux[x] == m then lutSet[x] else 0
      ensures (forall s :: s in lutSet ==> lutSet[s] > 0) ==> NonEmptyBuckets(muxDict)
    {
      this.muxSize := muxSize;
      this.lutSet := lutSet;
      usedLutList := Some([]);
      var grouped := GroupBySize(lutSet);
      var dict := SortBuckets(grouped);
      SortedBucketsOf(lutSet, grouped, dict);
      AllKeys(lutSet, dict);
      AllCounts(lutSet, dict);
      muxDict := dict;
    }

    /** The packing loop of fit_layer: largest fan-in first, each commit
        takes the smallest LUT of its bucket, puts the checker's merged label
        on the group's first member and the retired label on the others; a
        fan-in whose scan fits nowhere is dropped for the rest of the layer.
        early is set when the loop runs out of fan-ins to try. Besides the
        LUTs used, the ghost outputs record the committed groups, their
        merged labels and start indices, the inventory before each commit
        and the drops. */
    method PackLayer(labels: array2<int>, check: Checker)
      returns (usedList: seq<nat>, ghost groups: seq<seq<nat>>, ghost merged: seq<Row>,
               ghost starts: seq<nat>, ghost stocks: seq<map<nat, seq<nat>>>,
               ghost drops: map<nat, nat>, early: bool)
      requires Valid() && NonEmptyBuckets(muxDict)
      requires KeepsWidth(check, labels.Length1) && RejectsPadding(check, labels.Length1)
      modifies this`muxDict, labels
      ensures Valid()
      ensures LayerPacked(old(Rows(labels)), Rows(labels), old(muxDict), muxDict, usedList, groups,
                          merged, starts, stocks, drops, early, check, labels.Length1)
    {
      var L, n := labels.Length1, labels.Length0;
      ghost var rows0 := Rows(labels);
      ghost var dict0 := muxDict;
      var isUsed := seq(n, _ => false);
      usedList := [];
      var count := 0;
      groups, merged, starts, stocks, drops, early := [], [], [], [muxDict], map[], false;
      var availableMuxes := SortedKeys(muxDict.Keys);
      InventoryStart(muxDict, availableMuxes);
      if availableMuxes != [] {
        assert availableMuxes[0] in dict0;
      }
      PackingStart(rows0, check, L);
      GreedyStart(rows0, dict0, availableMuxes, check, L);
      var stop := false;
      while count < n && !stop
        invariant PackKept(rows0, Rows(labels), dict0, muxDict, availableMuxes, usedList, groups, merged, starts,
                           stocks, drops, isUsed, count, check, L)
        invariant !stop && (groups != [] || drops != map[]) ==> count + 1 != n
        invariant early ==> stop && count < n && availableMuxes == [] &&
                            (count + 1 < n || (groups == [] && drops == map[]))
        invariant stop && !early ==> count + 1 == n && (groups != [] || drops != map[])
        invariant dict0 == map[] ==> availableMuxes == [] && groups == [] && drops == map[]
        decreases n - count, |availableMuxes|, if stop then 0 else 1
      {
        if availableMuxes == [] {
          early, stop := true, true;
        } else {
          var found;
          ghost var rows, dict;
          found, isUsed, usedList, count, availableMuxes, groups, merged, starts, stocks, drops, rows, dict :=
            TryLargest(labels, rows0, Rows(labels), dict0, muxDict, isUsed, usedList, count, availableMuxes,
                       groups, merged, starts, stocks, drops, check);
          stop := count == n - 1;
        }
      }
      PackingExit(rows0, Rows(labels), dict0, muxDict, usedList, groups, merged, starts, stocks, drops,
                  availableMuxes, isUsed, count, stop, early, check, L);
    }

    /** One pass of fit_layer's scan: pop the largest fan-in m left and
        commit the first group whose candidate the checker accepts. If there
        is none, the checker rejected every start and m is dropped: nothing
        else changes. If there is one, the group is the first fit, the LUT is
        the front of bucket m, and the inventory loses exactly it. */
    method TryLargest(labels: array2<int>, ghost rows0: seq<Row>, ghost rows: seq<Row>,
                      ghost dict0: map<nat, seq<nat>>, ghost dict: map<nat, seq<nat>>,
                      isUsed: seq<bool>, usedList: seq<nat>, count: nat, availableMuxes: seq<nat>,
                      ghost groups: seq<seq<nat>>, ghost merged: seq<Row>, ghost starts: seq<nat>,
                      ghost stocks: seq<map<nat, seq<nat>>>, ghost drops: map<nat, nat>, check: Checker)
      returns (found: bool, isUsed': seq<bool>, usedList': seq<nat>, count': nat, availableMuxes': seq<nat>,
               ghost groups': seq<seq<nat>>, ghost merged': seq<Row>, ghost starts': seq<nat>,
               ghost stocks': seq<map<nat, seq<nat>>>, ghost drops': map<nat, nat>, ghost rows': seq<Row>,
               ghost dict': map<nat, seq<nat>>)
      requires |rows0| == labels.Length0 && availableMuxes != [] && rows == Rows(labels) && dict == muxDict
      requires PackKept(rows0, rows, dict0, dict, availableMuxes, usedList, groups, merged, starts,
                        stocks, drops, isUsed, count, check, labels.Length1)
      requires count < |rows0| && (groups != [] || drops != map[] ==> count + 1 < |rows0|)
      requires KeepsWidth(check, labels.Length1) && RejectsPadding(check, labels.Length1)
      modifies this`muxDict, labels
      ensures rows' == Rows(labels) && dict' == muxDict
      ensures PackKept(rows0, rows', dict0, dict', availableMuxes', usedList', groups', merged', starts',
                       stocks', drops', isUsed', count', check, labels.Length1)
      ensures groups' != [] || drops' != map[]
      ensures var m := availableMuxes[|availableMuxes| - 1];
              !found ==>
                count' == count && RejectsAll(rows0, isUsed, m, check, labels.Length1) &&
                drops' == drops[m := |groups|] && m !in drops &&
                availableMuxes' == availableMuxes[..|availableMuxes| - 1] &&
                dict' == dict && stocks' == stocks && usedList' == usedList &&
                isUsed' == isUsed && groups' == groups && merged' == merged && starts' == starts
      ensures var m := availableMuxes[|availableMuxes| - 1];
              found ==>
                count' > count && m in dict && dict[m] != [] &&
                |groups'| == |groups| + 1 && groups' == groups + [groups'[|groups|]] && drops' == drops &&
                ExplainedCommit(rows0, isUsed, groups'[|groups|], starts'[|groups|], m, merged'[|groups|],
                                check, labels.Length1) &&
                usedList' == usedList + [dict[m][0]] &&
                dict' == TakeSmallest(dict, m) && stocks' == stocks + [dict'] &&
                availableMuxes' == if m in dict' then availableMuxes else availableMuxes[..|availableMuxes| - 1]
    {
      var L := labels.Length1;
      PopLast(availableMuxes);
      var muxSize := availableMuxes[|availableMuxes| - 1];
      availableMuxes' := availableMuxes[..|availableMuxes| - 1];
      assert |stocks| == |usedList| + 1;
      UnusedRowsKept(rows0, rows, groups, merged, starts, usedList, isUsed, count, check, L);
      var group, mergedRow;
      ghost var start;
      found, group, mergedRow, start := FindFit(labels, rows0, isUsed, muxSize, check);
      if found {
        CommitShape(rows0, isUsed, group, start, muxSize, mergedRow, check, L);
        isUsed', usedList', count', availableMuxes', groups', merged', starts', stocks', rows' :=
          CommitFit(labels, rows0, rows, dict0, isUsed, usedList, count, availableMuxes',
                    groups, merged, starts, stocks, drops, muxSize, group, mergedRow, start, check);
        drops', dict' := drops, muxDict;
        assert groups'[|groups|] == group && starts'[|groups|] == start && merged'[|groups|] == mergedRow;
      } else {
        DropKeeps(rows0, rows, dict0, dict, availableMuxes', muxSize, usedList, groups, merged, starts,
                  stocks, drops, isUsed, count, check, L);
        isUsed', usedList', count', groups', merged', starts' := isUsed, usedList, count, groups, merged, starts;
        stocks', drops', rows', dict' := stocks, drops[muxSize := |groups|], rows, dict;
      }
    }

    /** The commit branch of fit_layer's scan for the largest fan-in left:
        the group is the first fit, the LUT used is the front of its bucket,
        the inventory and the rows change as one commit says, and the loop
        invariant holds of the state after the commit. */
    method CommitFit(labels: array2<int>, ghost rows0: seq<Row>, ghost rows: seq<Row>, ghost dict0: map<nat, seq<nat>>,
                     isUsed: seq<bool>, usedList: seq<nat>, count: nat, availableMuxes: seq<nat>,
                     ghost groups: seq<seq<nat>>, ghost merged: seq<Row>, ghost starts: seq<nat>,
                     ghost stocks: seq<map<nat, seq<nat>>>, ghost drops: map<nat, nat>,
                     muxSize: nat, group: seq<nat>, mergedRow: Row, ghost start: nat, check: Checker)
      returns (isUsed': seq<bool>, usedList': seq<nat>, count': nat, availableMuxes': seq<nat>,
               ghost groups': seq<seq<nat>>, ghost merged': seq<Row>, ghost starts': seq<nat>,
               ghost stocks': seq<map<nat, seq<nat>>>, ghost rows': seq<Row>)
      requires |rows0| == labels.Length0 && rows == Rows(labels)
      requires muxSize in muxDict && muxDict[muxSize] != []
      requires PackKept(rows0, rows, dict0, muxDict, availableMuxes + [muxSize], usedList, groups,
                        merged, starts, stocks, drops, isUsed, count, check, labels.Length1)
      requires count < |rows0| && (groups != [] || drops != map[] ==> count + 1 < |rows0|)
      requires KeepsWidth(check, labels.Length1) && RejectsPadding(check, labels.Length1)
      requires ExplainedCommit(rows0, isUsed, group, start, muxSize, mergedRow, check, labels.Length1)
      requires group != []
      modifies this`muxDict, labels
      ensures rows' == Rows(labels)
      ensures PackKept(rows0, rows', dict0, muxDict, availableMuxes', usedList', groups', merged', starts',
                       stocks', drops, isUsed', count', check, labels.Length1)
      ensures groups' == groups + [group] && merged' == merged + [mergedRow] && starts' == starts + [start]
      ensures usedList' == usedList + [old(muxDict)[muxSize][0]]
      ensures muxDict == TakeSmallest(old(muxDict), muxSize) && stocks' == stocks + [muxDict]
      ensures rows' == Commit(rows, group, mergedRow, labels.Length1)
      ensures count' == count + |group| > count
      ensures availableMuxes' == if muxSize in muxDict then availableMuxes + [muxSize] else availableMuxes
    {
      var L := labels.Length1;
      CommitShape(rows0, isUsed, group, start, muxSize, mergedRow, check, L);
      LargestInStock(muxDict, availableMuxes, muxSize, usedList);
      assert (availableMuxes + [muxSize])[|availableMuxes|] == muxSize;
      ghost var dict := muxDict;
      StopsCommit(groups, drops, group, |rows0|);
      GreedyCommit(rows0, dict0, stocks, dict, availableMuxes, muxSize, usedList, groups, group, drops, check, L);
      isUsed', usedList', count', availableMuxes' :=
        CommitGroup(labels, isUsed, usedList, count, availableMuxes, muxSize, group, mergedRow);
      CommitKeeps(dict0, dict, availableMuxes, muxSize, rows0, rows, groups, merged, starts,
                  usedList, isUsed, count, check, L, group, start, mergedRow, isUsed');
      groups', merged', starts' := groups + [group], merged + [mergedRow], starts + [start];
      stocks' := stocks + [muxDict];
      rows' := Rows(labels);
    }

    /** The inventory side of a commit: pop bucket m, take its smallest LUT,
        and put the bucket back when LUTs are left in it. Nothing else reads
        the map between the pop and the put-back, so both are done here. */
    method TakeLut(m: nat) returns (usedLut: nat, refill: bool)
      requires m in muxDict && muxDict[m] != []
      modifies this`muxDict
      ensures usedLut == old(muxDict)[m][0]
      ensures refill <==> |old(muxDict)[m]| > 1
      ensures refill <==> m in muxDict
      ensures muxDict == TakeSmallest(old(muxDict), m)
    {
      var lutList := muxDict[m];
      muxDict := muxDict - {m};
      usedLut := lutList[0];
      lutList := lutList[1..];
      refill := |lutList| != 0;
      if refill {
        muxDict := muxDict[m := lutList];
      }
    }

    /** The commit branch of fit_layer's scan: mark the group used, take the
        smallest LUT of the fan-in's bucket, rewrite the group's rows, count
        the group, and put the fan-in back when its bucket is not empty. */
    method CommitGroup(labels: array2<int>, isUsed: seq<bool>, usedList: seq<nat>, count: nat,
                       availableMuxes: seq<nat>, muxSize: nat, group: seq<nat>, mergedRow: Row)
      returns (isUsed': seq<bool>, usedList': seq<nat>, count': nat, availableMuxes': seq<nat>)
      requires muxSize in muxDict && muxDict[muxSize] != []
      requires |isUsed| == labels.Length0 && |mergedRow| == labels.Length1
      requires group != [] && Increasing(group)
      requires forall t :: 0 <= t < |group| ==> group[t] < |isUsed| && !isUsed[group[t]]
      modifies this`muxDict, labels
      ensures |isUsed'| == |isUsed|
      ensures forall k :: 0 <= k < |isUsed| ==> (isUsed'[k] <==> isUsed[k] || k in group)
      ensures CountFalse(isUsed') + |group| == CountFalse(isUsed)
      ensures muxDict == TakeSmallest(old(muxDict), muxSize)
      ensures usedList' == usedList + [old(muxDict)[muxSize][0]]
      ensures Rows(labels) == Commit(old(Rows(labels)), group, mergedRow, labels.Length1)
      ensures count' == count + |group|
      ensures availableMuxes' == if |old(muxDict)[muxSize]| > 1 then availableMuxes + [muxSize]
                                 else availableMuxes
      ensures availableMuxes' == if muxSize in muxDict then availableMuxes + [muxSize] else availableMuxes
    {
      isUsed' := MarkUsed(isUsed, group);
      var usedLut, refill := TakeLut(muxSize);
      usedList' := usedList + [usedLut];
      StampGroup(labels, group, mergedRow);
      count' := count + |group|;
      availableMuxes' := availableMuxes;
      if refill {
        availableMuxes' := availableMuxes + [muxSize];
      }
    }

    /** fit_layer applied to this fitter's inventory: the packing loop, then
        the deletion of the retired rows, except on the early return taken
        when no fan-in is left to try, which hands back the rewritten input
        matrix itself. */
    method FitLayer(labels: array2<int>, check: Checker)
      returns (usedList: seq<nat>, out: array2<int>, ghost groups: seq<seq<nat>>,
               ghost merged: seq<Row>, ghost starts: seq<nat>, ghost stocks: seq<map<nat, seq<nat>>>,
               ghost drops: map<nat, nat>, ghost early: bool)
      requires Valid() && NonEmptyBuckets(muxDict)
      requires KeepsWidth(check, labels.Length1) && RejectsPadding(check, labels.Length1)
      modifies this`muxDict, labels
      ensures Valid()
      ensures LayerPacked(old(Rows(labels)), Rows(labels), old(muxDict), muxDict, usedList, groups,
                          merged, starts, stocks, drops, early, check, labels.Length1)
      ensures early ==> out == labels
      ensures !early ==> fresh(out) && out.Length1 == labels.Length1 &&
                         Rows(out) == Survivors(Rows(labels), labels.Length1)
    {
      var isEarly;
      usedList, groups, merged, starts, stocks, drops, isEarly := PackLayer(labels, check);
      early := isEarly;
      if isEarly {
        out := labels;
      } else {
        out := DeleteDeactivated(labels);
      }
    }

    /** One call of fit_layer inside fit, seen from fit: the run joins the
        trace, and a run that used LUTs lowers the stock. */
    method NextLayer(labels: array2<int>, check: Checker, ghost seedRows: seq<Row>,
                     ghost dict0: map<nat, seq<nat>>, ghost trace: Trace)
      returns (lutLayer: seq<nat>, out: array2<int>, ghost trace': Trace)
      requires Valid() && NonEmptyBuckets(muxDict)
      requires KeepsWidth(check, labels.Length1) && RejectsPadding(check, labels.Length1)
      requires Traced(trace, seedRows, dict0, check, labels.Length1)
      requires trace.rows == Rows(labels) && trace.dict == muxDict && |trace.rows| > 1
      modifies this`muxDict, labels
      ensures Valid() && NonEmptyBuckets(muxDict)
      ensures trace' == Layered(trace, lutLayer, Rows(out), muxDict)
      ensures Traced(trace', seedRows, dict0, check, labels.Length1)
      ensures lutLayer != [] ==> Total(muxDict) < old(Total(muxDict))
      ensures (fresh(out) || out == labels) && out.Length1 == labels.Length1
    {
      ghost var dictBefore, rowsBefore := muxDict, Rows(labels);
      ghost var g, m, s, st, d, e;
      lutLayer, out, g, m, s, st, d, e := FitLayer(labels, check);
      ghost var rows := Rows(labels);
      assert LayerPacked(rowsBefore, rows, dictBefore, muxDict, lutLayer, g, m, s, st, d, e, check, labels.Length1);
      assert Rows(out) == if e then rows else Survivors(rows, labels.Length1);
      trace' := Layered(trace, lutLayer, Rows(out), muxDict);
      assert RunFitted(trace', seedRows, dict0, check, labels.Length1);
      UsedFromInventory(lutLayer, muxDict, dictBefore);
    }

    /** fit: seeds the labels with the binary code of each data input and
        runs fit_layer until at most one row is left (FitLayers). The ghost
        trace records every run, from the seed rows and the inventory fit
        was given. */
    method Fit(check: Checker) returns (ghost trace: Trace)
      requires Valid() && NonEmptyBuckets(muxDict) && usedLutList.Some? && muxSize >= 1
      requires KeepsWidth(check, CeilLog2(muxSize)) && RejectsPadding(check, CeilLog2(muxSize))
      modifies this`muxDict, this`usedLutList
      ensures Valid() && NonEmptyBuckets(muxDict)
      ensures Traced(trace, Seeds(muxSize, CeilLog2(muxSize)), old(muxDict), check, CeilLog2(muxSize))
      ensures trace.dict == muxDict
      ensures usedLutList.None? ==> trace.Layered? && trace.used == [] && Progressing(trace.prev)
      ensures usedLutList.Some? ==>
                Progressing(trace) && |trace.rows| <= 1 && usedLutList.value == old(usedLutList.value) + Runs(trace)
    {
      var L := CeilLog2(muxSize);
      var inputNodeLabels := SeedLabels(muxSize, L);
      trace := FitLayers(inputNodeLabels, check, Seeds(muxSize, L), muxDict);
    }

    /** The loop of fit, from the seed labels on: a run that uses no LUT sets
        usedLutList to None and ends fit; otherwise its LUTs are appended to
        usedLutList as one layer and its rows feed the next run. Every run but
        a failing last one used LUTs, which TracedProgress accounts for. */
    method FitLayers(labels: array2<int>, check: Checker, ghost seedRows: seq<Row>,
                     ghost dict0: map<nat, seq<nat>>)
      returns (ghost trace: Trace)
      requires Valid() && NonEmptyBuckets(muxDict) && usedLutList.Some?
      requires KeepsWidth(check, labels.Length1) && RejectsPadding(check, labels.Length1)
      requires seedRows == Rows(labels) && dict0 == muxDict
      modifies this`muxDict, this`usedLutList, labels
      ensures Valid() && NonEmptyBuckets(muxDict)
      ensures Traced(trace, seedRows, dict0, check, labels.Length1) && trace.dict == muxDict
      ensures usedLutList.None? ==> trace.Layered? && trace.used == [] && Progressing(trace.prev)
      ensures usedLutList.Some? ==>
                Progressing(trace) && |trace.rows| <= 1 && usedLutList.value == old(usedLutList.value) + Runs(trace)
    {
      var currentNumInputs := labels.Length0;
      var inputNodeLabels := labels;
      ghost var before := usedLutList.value;
      trace := Seeded(seedRows, dict0);
      assert before + Runs(trace) == before;
      while currentNumInputs > 1
        invariant Valid() && NonEmptyBuckets(muxDict)
        invariant inputNodeLabels == labels || fresh(inputNodeLabels)
        invariant inputNodeLabels.Length0 == currentNumInputs && inputNodeLabels.Length1 == labels.Length1
        invariant Traced(trace, seedRows, dict0, check, labels.Length1) && Progressing(trace)
        invariant trace.dict == muxDict && trace.rows == Rows(inputNodeLabels)
        invariant usedLutList == Some(before + Runs(trace))
        decreases Total(muxDict)
      {
        var lutLayer, outputLabelNodes;
        lutLayer, outputLabelNodes, trace := NextLayer(inputNodeLabels, check, seedRows, dict0, trace);
        if |lutLayer| == 0 {
          usedLutList := None;
          return;
        }
        currentNumInputs := outputLabelNodes.Length0;
        inputNodeLabels := outputLabelNodes;
        SnocAssoc(before, Runs(trace.prev), lutLayer);
        usedLutList := Some(usedLutList.value + [lutLayer]);
      }
    }
  }
}
