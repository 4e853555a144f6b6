/** The state fit_layer keeps while it packs one layer, split in two: the
    inventory side (mux_dict, the fan-ins still to try, the LUTs used so far)
    and the label side (the groups committed so far, the used flags, the
    rewritten rows). Each step of the loop is a lemma over these states. */
module Layer {
  import opened Binary
  import opened LutInventory
  import opened Packing

  /** LUT b may follow LUT a in one layer: its fan-in is smaller, or it is
      the same and b is no smaller than a. */
  ghost predicate MayFollow(a: nat, b: nat)
    requires a in Lut2Mux && b in Lut2Mux
  {
    Lut2Mux[b] < Lut2Mux[a] || (Lut2Mux[b] == Lut2Mux[a] && a <= b)
  }

  /** The order in which one layer consumes LUTs: every LUT is a supported
      size, and each may follow the one before it (the largest fan-in is
      tried first, the smallest LUT of a bucket is taken first). */
  ghost predicate LayerOrder(used: seq<nat>)
  {
    (forall t :: 0 <= t < |used| ==> used[t] in Lut2Mux) &&
    forall t :: 0 < t < |used| ==> MayFollow(used[t - 1], used[t])
  }

  /** Along a layer the fan-in never grows, and within one fan-in the LUT
      sizes never shrink: the step-by-step order holds between any two
      LUTs of the layer. */
  lemma {:induction false} LayerOrderPairs(used: seq<nat>, t: nat, u: nat)
    requires LayerOrder(used) && t < u < |used|
    ensures MayFollow(used[t], used[u])
    decreases u - t
  {
    if t + 1 < u {
      LayerOrderPairs(used, t, u - 1);
    }
  }

  /** What the layer may still take after LUT last: fan-ins no larger than
      last's, and in last's own bucket sizes no smaller than last. */
  ghost predicate CanFollow(last: nat, availableMuxes: seq<nat>, d: map<nat, seq<nat>>)
  {
    last in Lut2Mux &&
    (forall j :: 0 <= j < |availableMuxes| ==> availableMuxes[j] <= Lut2Mux[last]) &&
    forall i :: 0 <= i < |Bucket(d, Lut2Mux[last])| ==> last <= Bucket(d, Lut2Mux[last])[i]
  }

  /** Every commit of a layer is the first fit, in scan order, of the fan-in
      of the LUT it used, given the nodes the earlier commits had used. */
  ghost predicate CommitsExplained(rows: seq<Row>, groups: seq<seq<nat>>, merged: seq<Row>,
                                   starts: seq<nat>, used: seq<nat>, check: Checker, L: nat)
  {
    |groups| == |merged| == |starts| == |used| &&
    (forall t :: 0 <= t < |used| ==> used[t] in Lut2Mux) &&
    forall t :: 0 <= t < |groups| ==> CommitExplained(rows, groups, merged, starts, used, check, L, t)
  }

  /** Commit t of the layer is the first fit of its LUT's fan-in, given the
      nodes the commits before it used. */
  ghost predicate CommitExplained(rows: seq<Row>, groups: seq<seq<nat>>, merged: seq<Row>,
                                  starts: seq<nat>, used: seq<nat>, check: Checker, L: nat, t: nat)
  {
    t < |groups| && t < |merged| && t < |starts| && t < |used| && used[t] in Lut2Mux &&
    ExplainedCommit(rows, UsedBy(groups[..t], |rows|), groups[t], starts[t],
                    Lut2Mux[used[t]], merged[t], check, L)
  }

  /** The stock side of fit_layer's loop, against the inventory dict0 the
      layer started from: the map stays well formed with no empty bucket,
      and every bucket only lost LUTs from its front. That the LUTs used are
      exactly the ones that left follows from the history of the stock
      (Greedy.HistoryPool). */
  ghost predicate StockKept(dict0: map<nat, seq<nat>>, dict: map<nat, seq<nat>>, used: seq<nat>)
  {
    WellFormed(dict) && NonEmptyBuckets(dict) &&
    forall m :: IsSuffix(Bucket(dict, m), Bucket(dict0, m))
  }

  /** The order side of fit_layer's loop: the fan-ins still to try are keys
      of the map in ascending order, the LUTs used so far are in layer
      order, and the next one can follow them. */
  ghost predicate OrderKept(dict: map<nat, seq<nat>>, avail: seq<nat>, used: seq<nat>)
  {
    StrictlyAscending(avail) && (forall j :: 0 <= j < |avail| ==> avail[j] in dict) &&
    LayerOrder(used) && (used != [] ==> CanFollow(used[|used| - 1], avail, dict))
  }

  /** LUTs taken out of the inventory lower its size by as many. */
  lemma UsedFromInventory(used: seq<nat>, dict: map<nat, seq<nat>>, dict0: map<nat, seq<nat>>)
    requires multiset(used) + Pool(dict) == Pool(dict0)
    ensures Total(dict) + |used| == Total(dict0)
  {
    assert |multiset(used) + Pool(dict)| == |multiset(used)| + |Pool(dict)|;
    assert |Pool(dict)| == Total(dict);
    assert |Pool(dict0)| == Total(dict0);
  }

  /** At the start of a layer nothing is used and every key is to be tried. */
  lemma InventoryStart(dict: map<nat, seq<nat>>, avail: seq<nat>)
    requires WellFormed(dict) && NonEmptyBuckets(dict)
    requires StrictlyAscending(avail) && forall x :: x in avail <==> x in dict
    ensures StockKept(dict, dict, [])
    ensures OrderKept(dict, avail, [])
  {
    assert forall m :: Bucket(dict, m)[|Bucket(dict, m)| - |Bucket(dict, m)|..] == Bucket(dict, m);
  }

  /** Popping the last fan-in and putting it back gives the list again. */
  lemma PopLast(avail: seq<nat>)
    requires avail != []
    ensures avail[..|avail| - 1] + [avail[|avail| - 1]] == avail
  {
  }

  /** Giving up on the largest fan-in left (no candidate fitted) keeps the
      order side. */
  lemma InventorySkip(dict: map<nat, seq<nat>>, avail: seq<nat>, m: nat, used: seq<nat>)
    requires OrderKept(dict, avail + [m], used)
    ensures OrderKept(dict, avail, used)
  {
    assert forall j :: 0 <= j < |avail| ==> avail[j] == (avail + [m])[j];
  }

  /** mux_dict after lut_list = mux_dict.pop(m); lut_list.pop(0) and the
      reinsertion of a non-empty rest. */
  ghost function TakeSmallest(d: map<nat, seq<nat>>, m: nat): map<nat, seq<nat>>
    requires m in d && d[m] != []
  {
    if |d[m][1..]| != 0 then (d - {m})[m := d[m][1..]] else d - {m}
  }

  /** Only bucket m changes, and it loses its front. */
  lemma TakeSmallestBuckets(d: map<nat, seq<nat>>, m: nat)
    requires m in d && d[m] != []
    ensures Bucket(TakeSmallest(d, m), m) == d[m][1..]
    ensures forall m' :: m' != m ==> Bucket(TakeSmallest(d, m), m') == Bucket(d, m')
    ensures forall m' :: m' in TakeSmallest(d, m) <==> m' in d && (m' != m || |d[m]| > 1)
  {
  }

  /** Committing a group for fan-in m keeps the stock side: the LUT taken
      is the front of bucket m. */
  lemma TakeStock(dict0: map<nat, seq<nat>>, dict: map<nat, seq<nat>>, m: nat, used: seq<nat>)
    requires StockKept(dict0, dict, used) && m in dict
    ensures StockKept(dict0, TakeSmallest(dict, m), used + [dict[m][0]])
  {
    TakeSmallestBuckets(dict, m);
    TakeShape(dict, m);
    TakeSuffix(dict0, dict, m);
  }

  lemma TakeShape(dict: map<nat, seq<nat>>, m: nat)
    requires WellFormed(dict) && NonEmptyBuckets(dict) && m in dict
    ensures WellFormed(TakeSmallest(dict, m)) && NonEmptyBuckets(TakeSmallest(dict, m))
  {
    var b := dict[m];
    var d' := TakeSmallest(dict, m);
    TakeSmallestBuckets(dict, m);
    forall m' | m' in d'
      ensures m' in MuxClasses && Sorted(d'[m']) && d'[m'] != []
    {
      assert d'[m'] == Bucket(d', m') && dict[m'] == Bucket(dict, m');
    }
    forall m', s | m' in d' && s in d'[m']
      ensures s in Lut2Mux && Lut2Mux[s] == m'
    {
      assert d'[m'] == Bucket(d', m') && dict[m'] == Bucket(dict, m');
      if m' == m {
        assert s in b;
      }
    }
  }

  lemma TakePool(dict0: map<nat, seq<nat>>, dict: map<nat, seq<nat>>, m: nat, used: seq<nat>)
    requires WellFormed(dict) && m in dict && dict[m] != []
    requires multiset(used) + Pool(dict) == Pool(dict0)
    ensures multiset(used + [dict[m][0]]) + Pool(TakeSmallest(dict, m)) == Pool(dict0)
  {
    var b := dict[m];
    var x := b[0];
    var d' := TakeSmallest(dict, m);
    TakeSmallestBuckets(dict, m);
    MultisetFront(b);
    TakePoolSplit(dict, d', m);
    MultisetSnoc(used, x);
    MoveOne(multiset(used), Pool(dict), Pool(d'), Pool(dict0), x);
  }

  lemma MultisetFront(b: seq<nat>)
    requires b != []
    ensures multiset(b) == multiset{b[0]} + multiset(b[1..])
  {
    assert b == [b[0]] + b[1..];
  }

  lemma MultisetSnoc(s: seq<nat>, x: nat)
    ensures multiset(s + [x]) == multiset(s) + multiset{x}
  {
  }

  /** An element moved from one side of a multiset sum to the other. */
  lemma MoveOne(a: multiset<nat>, p: multiset<nat>, p': multiset<nat>, p0: multiset<nat>, x: nat)
    requires a + p == p0 && p == multiset{x} + p'
    ensures (a + multiset{x}) + p' == p0
  {
  }

  /** Pool(dict) is Pool(d') plus the front of bucket m when only bucket m
      changed, and it lost its front. */
  lemma TakePoolSplit(dict: map<nat, seq<nat>>, d': map<nat, seq<nat>>, m: nat)
    requires m in MuxClasses && m in dict && dict[m] != []
    requires multiset(dict[m]) == multiset{dict[m][0]} + multiset(Bucket(d', m))
    requires forall m' :: m' != m ==> Bucket(d', m') == Bucket(dict, m')
    ensures Pool(dict) == multiset{dict[m][0]} + Pool(d')
  {
    var x := dict[m][0];
    assert Bucket(dict, m) == dict[m];
    var p, q, r := multiset(Bucket(d', 2)), multiset(Bucket(d', 4)), multiset(Bucket(d', 8));
    assert Pool(d') == p + q + r;
    if m == 2 {
      assert Bucket(d', 4) == Bucket(dict, 4) && Bucket(d', 8) == Bucket(dict, 8);
      assert Pool(dict) == (multiset{x} + p) + q + r;
    } else if m == 4 {
      assert Bucket(d', 2) == Bucket(dict, 2) && Bucket(d', 8) == Bucket(dict, 8);
      assert Pool(dict) == p + (multiset{x} + q) + r;
    } else {
      assert Bucket(d', 2) == Bucket(dict, 2) && Bucket(d', 4) == Bucket(dict, 4);
      assert Pool(dict) == p + q + (multiset{x} + r);
    }
    AddOne(x, p, q, r);
  }

  /** One more element in any of three summands is one more in the sum. */
  lemma AddOne(x: nat, p: multiset<nat>, q: multiset<nat>, r: multiset<nat>)
    ensures (multiset{x} + p) + q + r == multiset{x} + (p + q + r)
    ensures p + (multiset{x} + q) + r == multiset{x} + (p + q + r)
    ensures p + q + (multiset{x} + r) == multiset{x} + (p + q + r)
  {
  }

  /** Dropping the front of a suffix leaves a suffix. */
  lemma SuffixTail(xs: seq<nat>, ys: seq<nat>)
    requires IsSuffix(xs, ys) && xs != []
    ensures IsSuffix(xs[1..], ys)
  {
    var k := |ys| - |xs|;
    assert forall i :: 0 <= i < |xs| - 1 ==> xs[1..][i] == ys[k + 1 + i];
    assert xs[1..] == ys[k + 1..];
  }

  lemma TakeSuffix(dict0: map<nat, seq<nat>>, dict: map<nat, seq<nat>>, m: nat)
    requires m in dict && dict[m] != []
    requires forall m' :: IsSuffix(Bucket(dict, m'), Bucket(dict0, m'))
    ensures forall m' :: IsSuffix(Bucket(TakeSmallest(dict, m), m'), Bucket(dict0, m'))
  {
    TakeSmallestBuckets(dict, m);
    assert Bucket(dict, m) == dict[m];
    SuffixTail(dict[m], Bucket(dict0, m));
  }

  /** Committing a group for the largest fan-in m left keeps the order
      side: the LUT taken is the smallest of bucket m, it may follow the
      LUTs taken before it, and fan-in m stays to be tried exactly when its
      bucket is not yet empty. */
  lemma TakeOrder(dict: map<nat, seq<nat>>, avail: seq<nat>, m: nat, used: seq<nat>)
    requires WellFormed(dict) && NonEmptyBuckets(dict) && OrderKept(dict, avail + [m], used)
    ensures m in dict && dict[m][0] in Lut2Mux && Lut2Mux[dict[m][0]] == m
    ensures OrderKept(TakeSmallest(dict, m), if |dict[m]| > 1 then avail + [m] else avail,
                      used + [dict[m][0]])
  {
    assert (avail + [m])[|avail|] == m;
    var x := dict[m][0];
    assert x in dict[m];
    TakeAvail(dict, avail, m);
    TakeFollows(dict, avail, m, used);
    TakeNext(dict, avail, m);
    assert (used + [x])[|used + [x]| - 1] == x;
  }

  /** The largest fan-in left has a bucket, and the front of that bucket
      is a LUT of that fan-in. */
  lemma LargestInStock(dict: map<nat, seq<nat>>, avail: seq<nat>, m: nat, used: seq<nat>)
    requires WellFormed(dict) && NonEmptyBuckets(dict) && OrderKept(dict, avail + [m], used)
    ensures m in dict && dict[m] != [] && dict[m][0] in Lut2Mux && Lut2Mux[dict[m][0]] == m
  {
    assert (avail + [m])[|avail|] == m;
    assert dict[m][0] in dict[m];
  }

  /** Both sides of the loop invariant survive a commit for fan-in m, with
      dict' the inventory after the commit and avail' the fan-ins left. */
  lemma TakeKeeps(dict0: map<nat, seq<nat>>, dict: map<nat, seq<nat>>, dict': map<nat, seq<nat>>,
                  avail: seq<nat>, avail': seq<nat>, m: nat, used: seq<nat>, used': seq<nat>)
    requires StockKept(dict0, dict, used) && OrderKept(dict, avail + [m], used)
    requires m in dict && dict' == TakeSmallest(dict, m)
    requires avail' == (if |dict[m]| > 1 then avail + [m] else avail)
    requires used' == used + [dict[m][0]]
    ensures StockKept(dict0, dict', used') && OrderKept(dict', avail', used')
  {
    TakeOrder(dict, avail, m, used);
    TakeStock(dict0, dict, m, used);
  }

  /** The LUT taken may follow the ones taken before it: its fan-in is no
      larger than theirs, and within the same fan-in it is the smallest left. */
  lemma TakeFollows(dict: map<nat, seq<nat>>, avail: seq<nat>, m: nat, used: seq<nat>)
    requires WellFormed(dict) && m in dict && dict[m] != []
    requires LayerOrder(used) && (used != [] ==> CanFollow(used[|used| - 1], avail + [m], dict))
    ensures LayerOrder(used + [dict[m][0]])
  {
    var b := dict[m];
    var x := b[0];
    assert x in b;
    if used != [] {
      var last := used[|used| - 1];
      assert (avail + [m])[|avail|] == m;
      assert m <= Lut2Mux[last];
      if m == Lut2Mux[last] {
        assert Bucket(dict, Lut2Mux[last]) == b;
        assert last <= b[0];
      }
    }
    LayerOrderSnoc(used, x);
  }

  /** A LUT that may follow the last one extends a layer order. */
  lemma LayerOrderSnoc(used: seq<nat>, x: nat)
    requires LayerOrder(used) && x in Lut2Mux
    requires used != [] ==> MayFollow(used[|used| - 1], x)
    ensures LayerOrder(used + [x])
  {
    var used' := used + [x];
    forall t | 0 <= t < |used'|
      ensures used'[t] in Lut2Mux
    {
      if t < |used| {
        assert used'[t] == used[t];
      }
    }
    forall t | 0 < t < |used'|
      ensures MayFollow(used'[t - 1], used'[t])
    {
      if t < |used| {
        assert used'[t - 1] == used[t - 1] && used'[t] == used[t];
      }
    }
  }

  /** After the commit the layer may still take fan-ins up to m, and the
      rest of bucket m is no smaller than the LUT taken. */
  lemma TakeNext(dict: map<nat, seq<nat>>, avail: seq<nat>, m: nat)
    requires WellFormed(dict) && m in dict && dict[m] != []
    requires StrictlyAscending(avail + [m])
    ensures CanFollow(dict[m][0], if |dict[m]| > 1 then avail + [m] else avail, TakeSmallest(dict, m))
  {
    var avail' := avail + [m];
    assert avail'[|avail|] == m;
    var b := dict[m];
    var x := b[0];
    assert x in b;
    var d' := TakeSmallest(dict, m);
    var a2 := if |b| > 1 then avail + [m] else avail;
    TakeSmallestBuckets(dict, m);
    forall j | 0 <= j < |a2|
      ensures a2[j] <= m
    {
      assert a2[j] == avail'[j];
      if j < |avail| {
        assert avail'[j] < avail'[|avail|];
      }
    }
    forall i | 0 <= i < |Bucket(d', m)|
      ensures x <= Bucket(d', m)[i]
    {
      assert Bucket(d', m)[i] == b[i + 1];
    }
  }

  /** The fan-ins left after a commit are ascending keys of the new map. */
  lemma TakeAvail(dict: map<nat, seq<nat>>, avail: seq<nat>, m: nat)
    requires m in dict && dict[m] != []
    requires StrictlyAscending(avail + [m])
    requires forall j :: 0 <= j < |avail| + 1 ==> (avail + [m])[j] in dict
    ensures var a2 := if |dict[m]| > 1 then avail + [m] else avail;
            StrictlyAscending(a2) && forall j :: 0 <= j < |a2| ==> a2[j] in TakeSmallest(dict, m)
  {
    var avail' := avail + [m];
    assert avail'[|avail|] == m;
    TakeSmallestBuckets(dict, m);
    forall j | 0 <= j < |avail|
      ensures avail[j] in TakeSmallest(dict, m)
    {
      assert avail'[j] == avail[j] && avail[j] < m;
    }
    assert forall j :: 0 <= j < |avail| ==> avail[j] == avail'[j];
  }

  /** The label side of fit_layer's loop, against the matrix rows0 the layer
      started from: the committed groups are disjoint runs of node indices,
      is_used flags exactly their members, count is their total size and
      the number of unused nodes makes up the rest, every commit is the first
      fit of its fan-in, and the matrix holds rows0 after those commits. */
  ghost predicate PackingInv(rows0: seq<Row>, rows: seq<Row>, groups: seq<seq<nat>>, merged: seq<Row>,
                             starts: seq<nat>, used: seq<nat>, isUsed: seq<bool>, count: nat,
                             check: Checker, L: nat)
  {
    var n := |rows0|;
    Grouping(groups, n) && |merged| == |groups| &&
    isUsed == UsedBy(groups, n) &&
    count == Packed(groups) && count + CountFalse(isUsed) == n &&
    CommitsExplained(rows0, groups, merged, starts, used, check, L) &&
    rows == Apply(rows0, groups, merged, L)
  }

  /** At the start of a layer no group is committed. */
  lemma PackingStart(rows0: seq<Row>, check: Checker, L: nat)
    ensures PackingInv(rows0, rows0, [], [], [], [], seq(|rows0|, _ => false), 0, check, L)
  {
    CountFalseNone(|rows0|);
  }

  /** What the packing invariant says once the loop is left. */
  lemma PackingDone(rows0: seq<Row>, rows: seq<Row>, groups: seq<seq<nat>>, merged: seq<Row>,
                    starts: seq<nat>, used: seq<nat>, isUsed: seq<bool>, count: nat,
                    check: Checker, L: nat)
    requires PackingInv(rows0, rows, groups, merged, starts, used, isUsed, count, check, L)
    ensures Grouping(groups, |rows0|) && CommitsExplained(rows0, groups, merged, starts, used, check, L)
    ensures rows == Apply(rows0, groups, merged, L)
    ensures Packed(groups) == count <= |rows0|
  {
  }

  /** The rows of unused nodes are still those of the layer's input. */
  lemma UnusedRowsKept(rows0: seq<Row>, rows: seq<Row>, groups: seq<seq<nat>>, merged: seq<Row>,
                       starts: seq<nat>, used: seq<nat>, isUsed: seq<bool>, count: nat,
                       check: Checker, L: nat)
    requires PackingInv(rows0, rows, groups, merged, starts, used, isUsed, count, check, L)
    ensures |rows| == |isUsed| == |rows0|
    ensures forall k :: 0 <= k < |rows0| && !isUsed[k] ==> rows[k] == rows0[k]
  {
    forall k | 0 <= k < |rows0| && !isUsed[k]
      ensures rows[k] == rows0[k]
    {
      ApplyAt(rows0, groups, merged, L, k);
    }
  }

  /** A group the scan committed is a non-empty increasing run of unused
      nodes: an all-padding candidate is rejected, so at least one real
      node is in it. */
  lemma CommitShape(rows0: seq<Row>, isUsed: seq<bool>, group: seq<nat>, start: nat, size: nat,
                    mergedRow: Row, check: Checker, L: nat)
    requires |rows0| == |isUsed|
    requires KeepsWidth(check, L) && RejectsPadding(check, L)
    requires ExplainedCommit(rows0, isUsed, group, start, size, mergedRow, check, L)
    ensures group != [] && Increasing(group) && |mergedRow| == L
    ensures forall t :: 0 <= t < |group| ==> group[t] < |isUsed| && !isUsed[group[t]]
  {
    GroupFromShape(isUsed, start, size);
    if group == [] {
      CandidateOfNothing(rows0, size, L);
      assert false;
    }
  }

  /** A commit for the largest fan-in m left, on the values before it: the
      LUT taken is the front of bucket m, and both sides of the loop
      invariant hold of the inventory with that LUT taken, the fan-ins left,
      and the rows with the group rewritten. */
  lemma CommitKeeps(dict0: map<nat, seq<nat>>, dict: map<nat, seq<nat>>, avail: seq<nat>, m: nat,
                    rows0: seq<Row>, rows: seq<Row>, groups: seq<seq<nat>>, merged: seq<Row>,
                    starts: seq<nat>, used: seq<nat>, isUsed: seq<bool>, count: nat,
                    check: Checker, L: nat,
                    group: seq<nat>, start: nat, mergedRow: Row, isUsed': seq<bool>)
    requires StockKept(dict0, dict, used) && OrderKept(dict, avail + [m], used)
    requires PackingInv(rows0, rows, groups, merged, starts, used, isUsed, count, check, L)
    requires KeepsWidth(check, L) && RejectsPadding(check, L)
    requires ExplainedCommit(rows0, isUsed, group, start, m, mergedRow, check, L)
    requires |isUsed'| == |isUsed|
    requires forall k :: 0 <= k < |isUsed| ==> (isUsed'[k] <==> isUsed[k] || k in group)
    requires CountFalse(isUsed') + |group| == CountFalse(isUsed)
    ensures m in dict && dict[m] != [] && group != []
    ensures StockKept(dict0, TakeSmallest(dict, m), used + [dict[m][0]])
    ensures OrderKept(TakeSmallest(dict, m), if |dict[m]| > 1 then avail + [m] else avail,
                      used + [dict[m][0]])
    ensures PackingInv(rows0, Commit(rows, group, mergedRow, L), groups + [group], merged + [mergedRow],
                       starts + [start], used + [dict[m][0]], isUsed', count + |group|, check, L)
  {
    LargestInStock(dict, avail, m, used);
    CommitShape(rows0, isUsed, group, start, m, mergedRow, check, L);
    TakeKeeps(dict0, dict, TakeSmallest(dict, m), avail, if |dict[m]| > 1 then avail + [m] else avail,
              m, used, used + [dict[m][0]]);
    PackingCommit(rows0, rows, groups, merged, starts, used, isUsed, count, check, L,
                  group, start, mergedRow, dict[m][0], isUsed');
  }

  /** Committing an explained group keeps the label side. */
  lemma PackingCommit(rows0: seq<Row>, rows: seq<Row>, groups: seq<seq<nat>>, merged: seq<Row>,
                      starts: seq<nat>, used: seq<nat>, isUsed: seq<bool>, count: nat,
                      check: Checker, L: nat,
                      group: seq<nat>, start: nat, mergedRow: Row, usedLut: nat, isUsed': seq<bool>)
    requires PackingInv(rows0, rows, groups, merged, starts, used, isUsed, count, check, L)
    requires usedLut in Lut2Mux
    requires ExplainedCommit(rows0, isUsed, group, start, Lut2Mux[usedLut], mergedRow, check, L)
    requires group != [] && Increasing(group)
    requires forall t :: 0 <= t < |group| ==> group[t] < |isUsed| && !isUsed[group[t]]
    requires |isUsed'| == |isUsed|
    requires forall k :: 0 <= k < |isUsed| ==> (isUsed'[k] <==> isUsed[k] || k in group)
    requires CountFalse(isUsed') + |group| == CountFalse(isUsed)
    ensures PackingInv(rows0, Commit(rows, group, mergedRow, L), groups + [group], merged + [mergedRow],
                       starts + [start], used + [usedLut], isUsed', count + |group|, check, L)
  {
    var n := |rows0|;
    var groups' := groups + [group];
    assert groups'[..|groups|] == groups;
    assert (merged + [mergedRow])[..|merged|] == merged;
    CommitGrouping(groups, group, n, isUsed);
    CommitCovered(groups, group, n, isUsed, isUsed');
    CommitExplains(rows0, groups, merged, starts, used, check, L, group, start, mergedRow, usedLut, isUsed);
    ApplySnoc(rows0, groups, merged, L, group, mergedRow);
  }

  lemma CommitGrouping(groups: seq<seq<nat>>, group: seq<nat>, n: nat, isUsed: seq<bool>)
    requires Grouping(groups, n) && isUsed == UsedBy(groups, n)
    requires group != [] && Increasing(group)
    requires forall t :: 0 <= t < |group| ==> group[t] < n && !isUsed[group[t]]
    ensures Grouping(groups + [group], n)
  {
    var groups' := groups + [group];
    forall t, k | 0 <= t < |groups'| && k in groups'[t]
      ensures k < n
    {
      if t == |groups| {
        var i :| 0 <= i < |group| && group[i] == k;
      }
    }
    forall t, u, k | 0 <= t < u < |groups'| && k in groups'[t]
      ensures k !in groups'[u]
    {
      if u == |groups| {
        assert k in Covered(groups) && k < n;
        assert isUsed[k];
        assert forall i :: 0 <= i < |group| ==> group[i] != k;
      }
    }
  }

  lemma CommitCovered(groups: seq<seq<nat>>, group: seq<nat>, n: nat, isUsed: seq<bool>, isUsed': seq<bool>)
    requires isUsed == UsedBy(groups, n)
    requires |isUsed'| == n
    requires forall k :: 0 <= k < n ==> (isUsed'[k] <==> isUsed[k] || k in group)
    ensures isUsed' == UsedBy(groups + [group], n)
    ensures Packed(groups + [group]) == Packed(groups) + |group|
  {
    var groups' := groups + [group];
    assert groups'[..|groups|] == groups;
    assert Covered(groups') == Covered(groups) + set k | k in group;
  }

  lemma CommitExplains(rows0: seq<Row>, groups: seq<seq<nat>>, merged: seq<Row>, starts: seq<nat>,
                       used: seq<nat>, check: Checker, L: nat,
                       group: seq<nat>, start: nat, mergedRow: Row, usedLut: nat, isUsed: seq<bool>)
    requires CommitsExplained(rows0, groups, merged, starts, used, check, L)
    requires isUsed == UsedBy(groups, |rows0|)
    requires usedLut in Lut2Mux
    requires ExplainedCommit(rows0, isUsed, group, start, Lut2Mux[usedLut], mergedRow, check, L)
    ensures CommitsExplained(rows0, groups + [group], merged + [mergedRow], starts + [start],
                             used + [usedLut], check, L)
  {
    var groups', used' := groups + [group], used + [usedLut];
    forall t | 0 <= t < |groups'|
      ensures CommitExplained(rows0, groups', merged + [mergedRow], starts + [start], used', check, L, t)
    {
      if t < |groups| {
        assert CommitExplained(rows0, groups, merged, starts, used, check, L, t);
        assert groups'[..t] == groups[..t];
      } else {
        assert groups'[..t] == groups;
      }
    }
  }

  /** One commit applied after the earlier ones is the last step of Apply. */
  lemma ApplySnoc(rows0: seq<Row>, groups: seq<seq<nat>>, merged: seq<Row>, L: nat,
                  group: seq<nat>, mergedRow: Row)
    requires |groups| == |merged| && forall t :: 0 <= t < |groups| ==> groups[t] != []
    requires group != []
    ensures Apply(rows0, groups + [group], merged + [mergedRow], L)
            == Commit(Apply(rows0, groups, merged, L), group, mergedRow, L)
  {
    assert (groups + [group])[..|groups|] == groups;
    assert (merged + [mergedRow])[..|merged|] == merged;
  }
}
