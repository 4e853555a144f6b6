/** The greedy side of fit_layer's packing loop: which fan-in the loop
    tries, when it gives one up, and when it stops. Besides the groups it
    commits, the loop is described by a log of the fan-ins it dropped:
    drops[m] is the number of commits made before fan-in m was dropped. */
module Greedy {
  import opened Binary
  import opened LutInventory
  import opened Packing
  import opened Layer

  /** The inventory before each commit of a layer that started from dict0:
      stocks[t] is mux_dict when commit t took its LUT, the front of the
      bucket of that LUT's fan-in, and stocks[t + 1] is what the commit
      left. */
  ghost predicate StockHistory(dict0: map<nat, seq<nat>>, stocks: seq<map<nat, seq<nat>>>, used: seq<nat>)
  {
    |stocks| == |used| + 1 && stocks[0] == dict0 &&
    forall t :: 0 <= t < |used| ==>
      used[t] in Lut2Mux && Lut2Mux[used[t]] in stocks[t] && stocks[t][Lut2Mux[used[t]]] != [] &&
      used[t] == stocks[t][Lut2Mux[used[t]]][0] &&
      stocks[t + 1] == TakeSmallest(stocks[t], Lut2Mux[used[t]])
  }

  /** Along the history the inventory stays well formed with no empty
      bucket, and the LUTs used up to commit k are exactly the ones that
      left it: by induction on k, one LUT moving from the map to the used
      list at each commit. */
  lemma {:induction false} HistoryPool(dict0: map<nat, seq<nat>>, stocks: seq<map<nat, seq<nat>>>,
                                       used: seq<nat>, k: nat)
    requires StockHistory(dict0, stocks, used) && WellFormed(dict0) && NonEmptyBuckets(dict0)
    requires k <= |used|
    ensures WellFormed(stocks[k]) && NonEmptyBuckets(stocks[k])
    ensures multiset(used[..k]) + Pool(stocks[k]) == Pool(dict0)
  {
    if k == 0 {
      assert used[..0] == [];
    } else {
      HistoryPool(dict0, stocks, used, k - 1);
      HistoryStep(dict0, stocks[k - 1], stocks[k], used, k, Lut2Mux[used[k - 1]]);
    }
  }

  /** One step of the history: taking the smallest node of a bucket keeps the
      inventory well formed and moves that node from the pool to the used list. */
  lemma HistoryStep(dict0: map<nat, seq<nat>>, dict: map<nat, seq<nat>>, dict': map<nat, seq<nat>>,
                    used: seq<nat>, k: nat, m: nat)
    requires WellFormed(dict) && NonEmptyBuckets(dict) && m in dict && dict[m] != []
    requires 0 < k <= |used| && used[k - 1] == dict[m][0] && dict' == TakeSmallest(dict, m)
    requires multiset(used[..k - 1]) + Pool(dict) == Pool(dict0)
    ensures WellFormed(dict') && NonEmptyBuckets(dict')
    ensures multiset(used[..k]) + Pool(dict') == Pool(dict0)
  {
    TakeShape(dict, m);
    TakePool(dict0, dict, m, used[..k - 1]);
    PrefixSnoc(used, k);
  }

  lemma PrefixSnoc(s: seq<nat>, k: nat)
    requires 0 < k <= |s|
    ensures s[..k] == s[..k - 1] + [s[k - 1]]
  {
  }

  /** The checker rejects the candidate group at every start index. */
  ghost predicate RejectsAll(rows: seq<Row>, isUsed: seq<bool>, size: nat, check: Checker, L: nat)
    requires |rows| == |isUsed|
  {
    forall i :: 0 <= i < |isUsed| ==> check(CandidateAt(rows, isUsed, i, size, L), size).None?
  }

  /** A fan-in is dropped only after the checker rejected the candidate at
      every start index, given the nodes the commits before the drop used. */
  ghost predicate DropsExplained(rows0: seq<Row>, groups: seq<seq<nat>>, drops: map<nat, nat>,
                                 check: Checker, L: nat)
  {
    (forall m :: m in drops ==> drops[m] <= |groups|) &&
    forall m :: DropExplained(rows0, groups, drops, check, L, m)
  }

  /** If fan-in m was dropped, the checker rejected it at every start given
      the nodes used by the commits before the drop. */
  ghost predicate DropExplained(rows0: seq<Row>, groups: seq<seq<nat>>, drops: map<nat, nat>,
                                check: Checker, L: nat, m: nat)
  {
    m in drops ==>
      drops[m] <= |groups| && RejectsAll(rows0, UsedBy(groups[..drops[m]], |rows0|), m, check, L)
  }

  /** Largest fan-in first: when commit t took its LUT, every larger fan-in
      still in stock had already been dropped. */
  ghost predicate LargestFirst(stocks: seq<map<nat, seq<nat>>>, used: seq<nat>, drops: map<nat, nat>)
  {
    forall t, m :: 0 <= t < |used| && t < |stocks| && m in stocks[t] &&
                   used[t] in Lut2Mux && Lut2Mux[used[t]] < m ==>
      m in drops && drops[m] <= t
  }

  /** A dropped fan-in is given up for the rest of the layer: every later
      commit uses a smaller fan-in. */
  ghost predicate DroppedForGood(used: seq<nat>, drops: map<nat, nat>)
  {
    forall m, t :: m in drops && drops[m] <= t < |used| && used[t] in Lut2Mux ==> Lut2Mux[used[t]] < m
  }

  /** The greedy part of fit_layer's loop invariant: the inventory history
      leads to the current map dict, every fan-in in stock is still to be
      tried or has been dropped, the fan-ins still to try are all smaller
      than the dropped ones, and the log explains the loop's choices. */
  ghost predicate GreedyKept(rows0: seq<Row>, dict0: map<nat, seq<nat>>, stocks: seq<map<nat, seq<nat>>>,
                             dict: map<nat, seq<nat>>,
                             avail: seq<nat>, used: seq<nat>, groups: seq<seq<nat>>,
                             drops: map<nat, nat>, check: Checker, L: nat)
  {
    StockHistory(dict0, stocks, used) && stocks[|used|] == dict &&
    (forall m :: m in dict ==> m in avail || m in drops) &&
    (forall m, j :: m in drops && 0 <= j < |avail| ==> avail[j] < m) &&
    DropsExplained(rows0, groups, drops, check, L) &&
    LargestFirst(stocks, used, drops) &&
    DroppedForGood(used, drops)
  }

  /** The whole invariant of fit_layer's packing loop, for the matrix rows0
      and the inventory dict0 the layer started from: the stock, order,
      label and greedy sides, and the stopping rule. */
  ghost predicate PackKept(rows0: seq<Row>, rows: seq<Row>, dict0: map<nat, seq<nat>>,
                           dict: map<nat, seq<nat>>, avail: seq<nat>, used: seq<nat>,
                           groups: seq<seq<nat>>, merged: seq<Row>, starts: seq<nat>,
                           stocks: seq<map<nat, seq<nat>>>, drops: map<nat, nat>,
                           isUsed: seq<bool>, count: nat, check: Checker, L: nat)
  {
    StockKept(dict0, dict, used) && OrderKept(dict, avail, used) &&
    PackingInv(rows0, rows, groups, merged, starts, used, isUsed, count, check, L) &&
    GreedyKept(rows0, dict0, stocks, dict, avail, used, groups, drops, check, L) &&
    StopsInTime(groups, drops, |rows0|)
  }

  /** Dropping the largest fan-in m left, after the checker rejected it at
      every start, keeps the loop invariant; the drop is logged at the
      current number of commits. */
  lemma DropKeeps(rows0: seq<Row>, rows: seq<Row>, dict0: map<nat, seq<nat>>,
                  dict: map<nat, seq<nat>>, avail: seq<nat>, m: nat, used: seq<nat>,
                  groups: seq<seq<nat>>, merged: seq<Row>, starts: seq<nat>,
                  stocks: seq<map<nat, seq<nat>>>, drops: map<nat, nat>,
                  isUsed: seq<bool>, count: nat, check: Checker, L: nat)
    requires PackKept(rows0, rows, dict0, dict, avail + [m], used, groups, merged, starts, stocks, drops,
                      isUsed, count, check, L)
    requires RejectsAll(rows0, isUsed, m, check, L)
    requires count < |rows0| && (groups != [] || drops != map[] ==> count + 1 < |rows0|)
    ensures m !in drops
    ensures PackKept(rows0, rows, dict0, dict, avail, used, groups, merged, starts, stocks,
                     drops[m := |groups|], isUsed, count, check, L)
  {
    StopsDrop(groups, drops, m, |rows0|);
    InventorySkip(dict, avail, m, used);
    GreedyDrop(rows0, dict0, stocks, dict, avail, m, used, groups, drops, check, L);
  }

  /** At the start of a layer every key is still to be tried and nothing is
      dropped or used. */
  lemma GreedyStart(rows0: seq<Row>, dict0: map<nat, seq<nat>>, avail: seq<nat>, check: Checker, L: nat)
    requires forall x :: x in dict0 ==> x in avail
    ensures GreedyKept(rows0, dict0, [dict0], dict0, avail, [], [], map[], check, L)
  {
  }

  /** Dropping the largest fan-in left after its scan rejected every start
      keeps the greedy invariant, with the drop logged at the current number
      of commits. */
  lemma GreedyDrop(rows0: seq<Row>, dict0: map<nat, seq<nat>>, stocks: seq<map<nat, seq<nat>>>,
                   dict: map<nat, seq<nat>>,
                   avail: seq<nat>, m: nat, used: seq<nat>, groups: seq<seq<nat>>,
                   drops: map<nat, nat>, check: Checker, L: nat)
    requires GreedyKept(rows0, dict0, stocks, dict, avail + [m], used, groups, drops, check, L)
    requires StrictlyAscending(avail + [m]) && |used| == |groups|
    requires RejectsAll(rows0, UsedBy(groups, |rows0|), m, check, L)
    ensures m !in drops
    ensures GreedyKept(rows0, dict0, stocks, dict, avail, used, groups, drops[m := |groups|], check, L)
  {
    var avail' := avail + [m];
    assert avail'[|avail|] == m;
    var drops' := drops[m := |groups|];
    forall m' | m' in dict
      ensures m' in avail || m' in drops'
    {
      if m' != m && m' in avail' {
        var j :| 0 <= j < |avail'| && avail'[j] == m';
        assert j < |avail| && avail[j] == m';
      }
    }
    forall m', j | m' in drops' && 0 <= j < |avail|
      ensures avail[j] < m'
    {
      assert avail[j] == avail'[j];
      if m' == m {
        assert avail'[j] < avail'[|avail|];
      }
    }
    forall m': nat
      ensures DropExplained(rows0, groups, drops', check, L, m')
    {
      if m' == m {
        assert groups[..|groups|] == groups;
      } else {
        assert DropExplained(rows0, groups, drops, check, L, m');
      }
    }
  }

  /** Committing a group for the largest fan-in m left, with the front LUT
      of bucket m, keeps the greedy invariant; the history gains the map the
      commit leaves, and fan-in m stays to be tried exactly when its bucket
      still has LUTs. */
  lemma GreedyCommit(rows0: seq<Row>, dict0: map<nat, seq<nat>>, stocks: seq<map<nat, seq<nat>>>,
                     dict: map<nat, seq<nat>>,
                     avail: seq<nat>, m: nat, used: seq<nat>, groups: seq<seq<nat>>,
                     group: seq<nat>, drops: map<nat, nat>, check: Checker, L: nat)
    requires GreedyKept(rows0, dict0, stocks, dict, avail + [m], used, groups, drops, check, L)
    requires StrictlyAscending(avail + [m]) && |used| == |groups|
    requires m in dict && dict[m] != [] && dict[m][0] in Lut2Mux && Lut2Mux[dict[m][0]] == m
    ensures GreedyKept(rows0, dict0, stocks + [TakeSmallest(dict, m)], TakeSmallest(dict, m),
                       if |dict[m]| > 1 then avail + [m] else avail,
                       used + [dict[m][0]], groups + [group], drops, check, L)
  {
    HistorySnoc(dict0, stocks, used, m);
    CommitPending(dict, avail, m, drops);
    CommitKeepsDrops(rows0, groups, group, drops, check, L);
    CommitLargestFirst(stocks, TakeSmallest(dict, m), avail, m, used, dict[m][0], drops);
    CommitDroppedForGood(avail, m, used, dict[m][0], drops);
  }

  /** After a commit for the largest fan-in m left, every fan-in in stock is
      still to be tried or dropped, and the ones to try stay below the
      dropped ones. */
  lemma CommitPending(dict: map<nat, seq<nat>>, avail: seq<nat>, m: nat, drops: map<nat, nat>)
    requires m in dict && dict[m] != []
    requires forall m' :: m' in dict ==> m' in avail + [m] || m' in drops
    requires forall m', j :: m' in drops && 0 <= j < |avail + [m]| ==> (avail + [m])[j] < m'
    ensures var a2 := if |dict[m]| > 1 then avail + [m] else avail;
            (forall m' :: m' in TakeSmallest(dict, m) ==> m' in a2 || m' in drops) &&
            (forall m', j :: m' in drops && 0 <= j < |a2| ==> a2[j] < m')
  {
    var avail' := avail + [m];
    var a2 := if |dict[m]| > 1 then avail + [m] else avail;
    TakeSmallestBuckets(dict, m);
    forall m' | m' in TakeSmallest(dict, m)
      ensures m' in a2 || m' in drops
    {
      if m' != m && m' in avail' {
        var j :| 0 <= j < |avail'| && avail'[j] == m';
        assert j < |avail| && avail[j] == m';
      }
    }
    forall m', j | m' in drops && 0 <= j < |a2|
      ensures a2[j] < m'
    {
      assert a2[j] == avail'[j];
    }
  }

  /** A commit for the largest fan-in m left uses a fan-in below every
      dropped one. */
  lemma CommitDroppedForGood(avail: seq<nat>, m: nat, used: seq<nat>, x: nat, drops: map<nat, nat>)
    requires DroppedForGood(used, drops)
    requires forall m', j :: m' in drops && 0 <= j < |avail + [m]| ==> (avail + [m])[j] < m'
    requires x in Lut2Mux && Lut2Mux[x] == m
    ensures DroppedForGood(used + [x], drops)
  {
    var used' := used + [x];
    assert (avail + [m])[|avail|] == m;
    forall m', t | m' in drops && drops[m'] <= t < |used'| && used'[t] in Lut2Mux
      ensures Lut2Mux[used'[t]] < m'
    {
      if t < |used| {
        assert used'[t] == used[t];
      }
    }
  }

  /** A commit with the front LUT of bucket m extends the history by the
      map it leaves. */
  lemma HistorySnoc(dict0: map<nat, seq<nat>>, stocks: seq<map<nat, seq<nat>>>, used: seq<nat>, m: nat)
    requires StockHistory(dict0, stocks, used)
    requires m in stocks[|used|] && stocks[|used|][m] != []
    requires stocks[|used|][m][0] in Lut2Mux && Lut2Mux[stocks[|used|][m][0]] == m
    ensures StockHistory(dict0, stocks + [TakeSmallest(stocks[|used|], m)], used + [stocks[|used|][m][0]])
  {
    var stocks' := stocks + [TakeSmallest(stocks[|used|], m)];
    var used' := used + [stocks[|used|][m][0]];
    forall t | 0 <= t < |used'|
      ensures stocks'[t] == stocks[t] && used'[t] in Lut2Mux
      ensures stocks'[t + 1] == TakeSmallest(stocks'[t], Lut2Mux[used'[t]])
    {
      if t < |used| {
        assert used'[t] == used[t];
      }
    }
  }

  /** A new commit leaves the explanation of the earlier drops as it was. */
  lemma CommitKeepsDrops(rows0: seq<Row>, groups: seq<seq<nat>>, group: seq<nat>, drops: map<nat, nat>,
                         check: Checker, L: nat)
    requires DropsExplained(rows0, groups, drops, check, L)
    ensures DropsExplained(rows0, groups + [group], drops, check, L)
  {
    forall m: nat
      ensures DropExplained(rows0, groups + [group], drops, check, L, m)
    {
      assert DropExplained(rows0, groups, drops, check, L, m);
      if m in drops {
        assert (groups + [group])[..drops[m]] == groups[..drops[m]];
      }
    }
  }

  /** A commit for the largest fan-in m left comes after every larger fan-in
      still in stock was dropped. */
  lemma CommitLargestFirst(stocks: seq<map<nat, seq<nat>>>, next: map<nat, seq<nat>>, avail: seq<nat>,
                           m: nat, used: seq<nat>, x: nat, drops: map<nat, nat>)
    requires LargestFirst(stocks, used, drops) && |stocks| == |used| + 1
    requires forall m' :: m' in stocks[|used|] ==> m' in avail + [m] || m' in drops
    requires forall m' :: m' in drops ==> drops[m'] <= |used|
    requires StrictlyAscending(avail + [m]) && x in Lut2Mux && Lut2Mux[x] == m
    ensures LargestFirst(stocks + [next], used + [x], drops)
  {
    var avail' := avail + [m];
    assert avail'[|avail|] == m;
    var stocks', used' := stocks + [next], used + [x];
    forall t, m' | 0 <= t < |used'| && t < |stocks'| && m' in stocks'[t] &&
                   used'[t] in Lut2Mux && Lut2Mux[used'[t]] < m'
      ensures m' in drops && drops[m'] <= t
    {
      if t < |used| {
        assert used'[t] == used[t] && stocks'[t] == stocks[t];
      } else {
        assert stocks'[t] == stocks[|used|];
      }
    }
  }

  /** The loop stops as soon as at most one node is left unpacked: every
      commit but the last left at least two nodes unpacked, and so did the
      commits made before any drop that followed one. Every pass needs an
      unpacked node, and a second pass needs two, so with at most one node
      the loop makes at most one pass. */
  ghost predicate StopsInTime(groups: seq<seq<nat>>, drops: map<nat, nat>, n: nat)
  {
    (forall t :: 0 < t < |groups| ==> Packed(groups[..t]) + 1 < n) &&
    (forall m :: m in drops && 0 < drops[m] <= |groups| ==> Packed(groups[..drops[m]]) + 1 < n) &&
    (groups != [] || drops != map[] ==> n > 0) &&
    (groups != [] && drops != map[] ==> n > 1) &&
    (forall m, m' :: m in drops && m' in drops && m != m' ==> n > 1)
  }

  /** A commit made with a node unpacked, and with at least two unpacked
      unless it is the first pass, keeps the loop's stopping rule. */
  lemma StopsCommit(groups: seq<seq<nat>>, drops: map<nat, nat>, group: seq<nat>, n: nat)
    requires StopsInTime(groups, drops, n)
    requires forall m :: m in drops ==> drops[m] <= |groups|
    requires Packed(groups) < n && (groups != [] || drops != map[] ==> Packed(groups) + 1 < n)
    ensures StopsInTime(groups + [group], drops, n)
  {
    var groups' := groups + [group];
    assert groups'[..|groups|] == groups;
    forall t | 0 < t < |groups'|
      ensures Packed(groups'[..t]) + 1 < n
    {
      assert groups'[..t] == groups[..t];
    }
    forall m | m in drops && 0 < drops[m] <= |groups'|
      ensures Packed(groups'[..drops[m]]) + 1 < n
    {
      assert groups'[..drops[m]] == groups[..drops[m]];
    }
  }

  /** A drop made with a node unpacked, and with at least two unpacked
      unless it is the first pass, keeps the loop's stopping rule. */
  lemma StopsDrop(groups: seq<seq<nat>>, drops: map<nat, nat>, m: nat, n: nat)
    requires StopsInTime(groups, drops, n)
    requires Packed(groups) < n && (groups != [] || drops != map[] ==> Packed(groups) + 1 < n)
    ensures StopsInTime(groups, drops[m := |groups|], n)
  {
    assert groups[..|groups|] == groups;
  }

  /** Everything one run of fit_layer's packing loop guarantees, for the
      input rows rows0 and the inventory dict0 it started from:
      - the inventory stays well formed with no empty bucket, loses exactly
        the LUTs used, each bucket only from its front, and the LUTs are
        used in layer order;
      - stocks is the inventory before each commit, each commit taking the
        smallest LUT of its fan-in's bucket;
      - the groups are disjoint increasing runs of nodes, each the first fit
        in scan order of its LUT's fan-in, and rows is rows0 after them;
      - a fan-in is dropped only after every start was rejected, a larger
        fan-in in stock is always dropped before a smaller one is used, and
        a dropped fan-in is never used again in the layer;
      - the loop stops as soon as at most one node is left unpacked; it
        tries a fan-in at least once when there are nodes and LUTs, and
        with at most one node it tries at most one fan-in;
      - the early return (no fan-in left to try) happens only with a node
        unpacked, and then with at least two unpacked or with no LUT at
        all, and only once every fan-in in stock has been dropped; with a
        node and no LUT at all, it is taken. */
  ghost predicate LayerPacked(rows0: seq<Row>, rows: seq<Row>, dict0: map<nat, seq<nat>>,
                              dict: map<nat, seq<nat>>, used: seq<nat>, groups: seq<seq<nat>>,
                              merged: seq<Row>, starts: seq<nat>, stocks: seq<map<nat, seq<nat>>>,
                              drops: map<nat, nat>, early: bool, check: Checker, L: nat)
  {
    var n := |rows0|;
    WellFormed(dict) && NonEmptyBuckets(dict) &&
    multiset(used) + Pool(dict) == Pool(dict0) &&
    (forall m :: IsSuffix(Bucket(dict, m), Bucket(dict0, m))) &&
    LayerOrder(used) &&
    StockHistory(dict0, stocks, used) && stocks[|used|] == dict &&
    Grouping(groups, n) &&
    CommitsExplained(rows0, groups, merged, starts, used, check, L) &&
    rows == Apply(rows0, groups, merged, L) &&
    DropsExplained(rows0, groups, drops, check, L) &&
    LargestFirst(stocks, used, drops) &&
    DroppedForGood(used, drops) &&
    StopsInTime(groups, drops, n) &&
    Packed(groups) <= n &&
    (n > 0 && dict0 != map[] ==> groups != [] || drops != map[]) &&
    (n <= 1 ==> |groups| + |drops| <= n) &&
    (early ==> Packed(groups) < n && (Packed(groups) + 1 < n || dict0 == map[]) &&
               forall m :: m in dict ==> m in drops) &&
    (n > 0 && dict0 == map[] ==> early) &&
    (!early ==> Packed(groups) + 1 >= n)
  }

  /** When fit_layer's packing loop ends, because the nodes ran out, at most
      one node is left unpacked, or no fan-in is left to try (early), the
      loop invariant gives everything LayerPacked promises. */
  lemma PackingExit(rows0: seq<Row>, rows: seq<Row>, dict0: map<nat, seq<nat>>, dict: map<nat, seq<nat>>,
                    used: seq<nat>, groups: seq<seq<nat>>, merged: seq<Row>, starts: seq<nat>,
                    stocks: seq<map<nat, seq<nat>>>, drops: map<nat, nat>, avail: seq<nat>,
                    isUsed: seq<bool>, count: nat, stop: bool, early: bool, check: Checker, L: nat)
    requires WellFormed(dict0) && NonEmptyBuckets(dict0)
    requires PackKept(rows0, rows, dict0, dict, avail, used, groups, merged, starts, stocks, drops,
                      isUsed, count, check, L)
    requires !(count < |rows0| && !stop)
    requires early ==> stop && count < |rows0| && avail == [] &&
                       (count + 1 < |rows0| || (groups == [] && drops == map[]))
    requires stop && !early ==> count + 1 == |rows0| && (groups != [] || drops != map[])
    requires dict0 == map[] ==> groups == [] && drops == map[]
    ensures LayerPacked(rows0, rows, dict0, dict, used, groups, merged, starts, stocks, drops, early, check, L)
  {
    ExitStock(rows0, dict0, dict, used, groups, stocks, drops, avail, check, L);
    ExitCounts(rows0, rows, dict0, dict, used, groups, merged, starts, stocks, drops, avail,
               isUsed, count, stop, early, check, L);
  }

  /** The stock and greedy side of LayerPacked at the end of the loop. */
  lemma ExitStock(rows0: seq<Row>, dict0: map<nat, seq<nat>>, dict: map<nat, seq<nat>>,
                  used: seq<nat>, groups: seq<seq<nat>>, stocks: seq<map<nat, seq<nat>>>,
                  drops: map<nat, nat>, avail: seq<nat>, check: Checker, L: nat)
    requires WellFormed(dict0) && NonEmptyBuckets(dict0)
    requires StockKept(dict0, dict, used)
    requires GreedyKept(rows0, dict0, stocks, dict, avail, used, groups, drops, check, L)
    ensures WellFormed(dict) && NonEmptyBuckets(dict)
    ensures multiset(used) + Pool(dict) == Pool(dict0)
    ensures forall m :: IsSuffix(Bucket(dict, m), Bucket(dict0, m))
    ensures StockHistory(dict0, stocks, used) && stocks[|used|] == dict
    ensures DropsExplained(rows0, groups, drops, check, L)
    ensures LargestFirst(stocks, used, drops) && DroppedForGood(used, drops)
  {
    HistoryPool(dict0, stocks, used, |used|);
    assert used[..|used|] == used;
  }

  /** The label side of LayerPacked at the end of the loop, and the rules
      on when and why it stopped. */
  lemma ExitCounts(rows0: seq<Row>, rows: seq<Row>, dict0: map<nat, seq<nat>>, dict: map<nat, seq<nat>>,
                   used: seq<nat>, groups: seq<seq<nat>>, merged: seq<Row>, starts: seq<nat>,
                   stocks: seq<map<nat, seq<nat>>>, drops: map<nat, nat>, avail: seq<nat>,
                   isUsed: seq<bool>, count: nat, stop: bool, early: bool, check: Checker, L: nat)
    requires PackingInv(rows0, rows, groups, merged, starts, used, isUsed, count, check, L)
    requires GreedyKept(rows0, dict0, stocks, dict, avail, used, groups, drops, check, L)
    requires !(count < |rows0| && !stop)
    requires early ==> stop && count < |rows0| && avail == [] &&
                       (count + 1 < |rows0| || (groups == [] && drops == map[]))
    requires stop && !early ==> count + 1 == |rows0| && (groups != [] || drops != map[])
    requires dict0 == map[] ==> groups == [] && drops == map[]
    requires StopsInTime(groups, drops, |rows0|)
    ensures Grouping(groups, |rows0|) && CommitsExplained(rows0, groups, merged, starts, used, check, L)
    ensures rows == Apply(rows0, groups, merged, L) && Packed(groups) <= |rows0|
    ensures |rows0| > 0 && dict0 != map[] ==> groups != [] || drops != map[]
    ensures early ==> Packed(groups) < |rows0| && (Packed(groups) + 1 < |rows0| || dict0 == map[]) &&
                      forall m :: m in dict ==> m in drops
    ensures |rows0| > 0 && dict0 == map[] ==> early
    ensures |rows0| <= 1 ==> |groups| + |drops| <= |rows0|
    ensures !early ==> Packed(groups) + 1 >= |rows0|
  {
    PackingDone(rows0, rows, groups, merged, starts, used, isUsed, count, check, L);
    if early && groups == [] && drops == map[] {
      assert forall m :: m !in dict;
      assert dict0 == stocks[0] == dict;
    }
    if |rows0| <= 1 {
      AtMostOneKey(drops);
    }
  }

  /** A map with no two distinct keys has at most one entry. */
  lemma AtMostOneKey(drops: map<nat, nat>)
    requires forall m, m' :: m in drops && m' in drops ==> m == m'
    ensures |drops| <= 1
  {
    if drops != map[] {
      var m :| m in drops;
      assert drops.Keys == {m};
    }
  }
}
