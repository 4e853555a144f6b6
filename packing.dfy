/** The label-matrix side of Fitter.fit_layer: sentinel rows, candidate
    groups, the in-place rewriting of a committed group's rows, and the final
    deletion of retired rows. The matrix is an array2<int> (one row per node,
    one column per select line), rewritten in place as the source does. */
module Packing {
  import opened Binary

  datatype Option<T> = None | Some(value: T)

  /** Mux.get_mux_params: given a candidate group of rows and a fan-in, either
      no fit or the merged label of the group. Its rule is not part of this
      model; every property here holds for any function of this type that
      meets the two requirements below. */
  type Checker = (seq<Row>, nat) -> Option<Row>

  /** The checker's merged label has the width of the labels. */
  ghost predicate KeepsWidth(check: Checker, L: nat)
  {
    forall g, m :: check(g, m).Some? ==> |check(g, m).value| == L
  }

  /** The checker rejects a group made only of padding; accepting one would
      make fit_layer index an empty member list. */
  ghost predicate RejectsPadding(check: Checker, L: nat)
  {
    forall m :: check(Dummies(m, L), m).None?
  }

  /** The label of a retired row, [-1] * L. */
  function Deactivated(L: nat): Row
  {
    seq(L, _ => -1)
  }

  /** The label of a padding row, [2] * L. */
  function DummyRow(L: nat): Row
  {
    seq(L, _ => 2)
  }

  function Dummies(count: nat, L: nat): seq<Row>
  {
    seq(count, _ => DummyRow(L))
  }

  /** Row i of a label matrix. */
  function RowOf(a: array2<int>, i: nat): (r: Row)
    requires i < a.Length0
    reads a
    ensures |r| == a.Length1
    ensures forall j :: 0 <= j < a.Length1 ==> r[j] == a[i, j]
  {
    seq(a.Length1, j requires 0 <= j < a.Length1 reads a => a[i, j])
  }

  /** The whole matrix as a sequence of rows. */
  ghost function Rows(a: array2<int>): (m: seq<Row>)
    reads a
    ensures |m| == a.Length0
    ensures forall i :: 0 <= i < a.Length0 ==> m[i] == RowOf(a, i)
  {
    seq(a.Length0, i requires 0 <= i < a.Length0 reads a => RowOf(a, i))
  }

  predicate Increasing(g: seq<nat>)
  {
    forall i, j :: 0 <= i < j < |g| ==> g[i] < g[j]
  }

  /** The committed groups of one layer: non-empty, strictly increasing lists
      of node indices below n, no index in two groups. */
  ghost predicate Grouping(groups: seq<seq<nat>>, n: nat)
  {
    (forall t :: 0 <= t < |groups| ==> groups[t] != [] && Increasing(groups[t])) &&
    (forall t, k :: 0 <= t < |groups| && k in groups[t] ==> k < n) &&
    (forall t, u, k :: 0 <= t < u < |groups| && k in groups[t] ==> k !in groups[u])
  }

  /** The nodes the groups have consumed. */
  ghost function Covered(groups: seq<seq<nat>>): (c: set<nat>)
    ensures forall k :: k in c <==> exists t :: 0 <= t < |groups| && k in groups[t]
  {
    if groups == [] then {}
    else
      var init := groups[..|groups| - 1];
      var c' := Covered(init);
      var g := groups[|groups| - 1];
      assert forall t :: 0 <= t < |init| ==> init[t] == groups[t];
      c' + set k | k in g
  }

  /** The number of nodes the groups have consumed (count in fit_layer). */
  ghost function Packed(groups: seq<seq<nat>>): nat
  {
    if groups == [] then 0 else Packed(groups[..|groups| - 1]) + |groups[|groups| - 1]|
  }

  /** The number of unused nodes. */
  function CountFalse(flags: seq<bool>): nat
  {
    if flags == [] then 0 else (if flags[0] then 0 else 1) + CountFalse(flags[1..])
  }

  /** At the start of a layer every node is unused. */
  lemma {:induction false} CountFalseNone(n: nat)
    ensures CountFalse(seq(n, _ => false)) == n
  {
    if n > 0 {
      CountFalseNone(n - 1);
      assert seq(n, _ => false)[1..] == seq(n - 1, _ => false);
    }
  }

  /** Using one unused node lowers the number of unused nodes by one. */
  lemma {:induction false} CountFalseFlip(flags: seq<bool>, k: nat)
    requires k < |flags| && !flags[k]
    ensures CountFalse(flags[k := true]) + 1 == CountFalse(flags)
  {
    if k > 0 {
      CountFalseFlip(flags[1..], k - 1);
      assert flags[k := true][1..] == flags[1..][k - 1 := true];
    }
  }

  /** The candidate group passed to the checker: the rows of the chosen nodes
      in increasing order, then padding rows up to the fan-in. */
  ghost function Candidate(rows: seq<Row>, group: seq<nat>, size: nat, L: nat): seq<Row>
    requires |group| <= size
    requires forall t :: 0 <= t < |group| ==> group[t] < |rows|
  {
    seq(|group|, t requires 0 <= t < |group| => rows[group[t]]) + Dummies(size - |group|, L)
  }

  /** A candidate with no real row is exactly the all-padding group. */
  lemma CandidateOfNothing(rows: seq<Row>, size: nat, L: nat)
    ensures Candidate(rows, [], size, L) == Dummies(size, L)
  {
  }

  /** The rows after one commit: the first member takes the merged label,
      the other members are retired, every other row is kept. */
  ghost function Commit(rows: seq<Row>, group: seq<nat>, merged: Row, L: nat): seq<Row>
    requires group != []
  {
    seq(|rows|, i requires 0 <= i < |rows| =>
      if i == group[0] then merged
      else if i in group then Deactivated(L)
      else rows[i])
  }

  /** The rows after the commits of groups[0], groups[1], ... in turn. */
  ghost function Apply(rows: seq<Row>, groups: seq<seq<nat>>, merged: seq<Row>, L: nat): (r: seq<Row>)
    requires |groups| == |merged|
    requires forall t :: 0 <= t < |groups| ==> groups[t] != []
    ensures |r| == |rows|
  {
    if groups == [] then rows
    else
      Commit(Apply(rows, groups[..|groups| - 1], merged[..|merged| - 1], L),
             groups[|groups| - 1], merged[|merged| - 1], L)
  }

  /** What a layer's commits do to row i: the first member of a group holds
      that group's merged label, any other member holds the retired label,
      and a row no group consumed is unchanged. */
  lemma {:induction false} ApplyAt(rows: seq<Row>, groups: seq<seq<nat>>, merged: seq<Row>, L: nat, i: nat)
    requires |groups| == |merged| && Grouping(groups, |rows|) && i < |rows|
    ensures |Apply(rows, groups, merged, L)| == |rows|
    ensures i !in Covered(groups) ==> Apply(rows, groups, merged, L)[i] == rows[i]
    ensures forall t :: 0 <= t < |groups| && i == groups[t][0] ==>
              Apply(rows, groups, merged, L)[i] == merged[t]
    ensures forall t :: 0 <= t < |groups| && i in groups[t] && i != groups[t][0] ==>
              Apply(rows, groups, merged, L)[i] == Deactivated(L)
  {
    if groups != [] {
      var last := |groups| - 1;
      var init, initM := groups[..last], merged[..last];
      GroupingInit(groups, |rows|);
      assert forall t :: 0 <= t < last ==> initM[t] == merged[t];
      ApplyAt(rows, init, initM, L, i);
      var g := groups[last];
      var prev := Apply(rows, init, initM, L);
      assert Apply(rows, groups, merged, L)[i] ==
             if i == g[0] then merged[last] else if i in g then Deactivated(L) else prev[i];
      assert g[0] in g;
    }
  }

  /** The groups before the last one are a grouping too, and none of them
      shares a node with the last. */
  lemma GroupingInit(groups: seq<seq<nat>>, n: nat)
    requires Grouping(groups, n) && groups != []
    ensures Grouping(groups[..|groups| - 1], n)
    ensures forall t :: 0 <= t < |groups| - 1 ==> groups[..|groups| - 1][t] == groups[t]
    ensures forall t, k :: 0 <= t < |groups| - 1 && k in groups[t] ==> k !in groups[|groups| - 1]
  {
  }

  /** The rows that survive the final deletion, in their original order. */
  ghost function Survivors(rows: seq<Row>, L: nat): seq<Row>
  {
    if rows == [] then []
    else
      Survivors(rows[..|rows| - 1], L)
      + (if rows[|rows| - 1] == Deactivated(L) then [] else [rows[|rows| - 1]])
  }

  /** The number of rows equal to the retired label. */
  ghost function DeactCount(rows: seq<Row>, L: nat): nat
  {
    if rows == [] then 0
    else DeactCount(rows[..|rows| - 1], L) + (if rows[|rows| - 1] == Deactivated(L) then 1 else 0)
  }

  /** Deletion distributes over concatenation, so it keeps the order of the
      remaining rows. */
  lemma {:induction false} SurvivorsAppend(a: seq<Row>, b: seq<Row>, L: nat)
    ensures Survivors(a + b, L) == Survivors(a, L) + Survivors(b, L)
    ensures DeactCount(a + b, L) == DeactCount(a, L) + DeactCount(b, L)
    decreases |b|
  {
    if b == [] {
      assert a + b == a;
    } else {
      var b' := b[..|b| - 1];
      SurvivorsAppend(a, b', L);
      assert (a + b)[..|a + b| - 1] == a + b';
    }
  }

  /** Exactly the retired rows are deleted: a row survives if and only if it
      is in the matrix and is not the retired label, and the survivors and the
      retired rows together account for every row. */
  lemma {:induction false} SurvivorsExact(rows: seq<Row>, L: nat)
    ensures |Survivors(rows, L)| + DeactCount(rows, L) == |rows|
    ensures forall x :: x in Survivors(rows, L) <==> x in rows && x != Deactivated(L)
  {
    if rows != [] {
      var init := rows[..|rows| - 1];
      SurvivorsExact(init, L);
      assert rows == init + [rows[|rows| - 1]];
    }
  }

  /** A matrix with no retired row is left as it is. */
  lemma {:induction false} SurvivorsOfLive(rows: seq<Row>, L: nat)
    requires forall i :: 0 <= i < |rows| ==> rows[i] != Deactivated(L)
    ensures Survivors(rows, L) == rows
  {
    if rows != [] {
      SurvivorsOfLive(rows[..|rows| - 1], L);
    }
  }

  /** output_nodes_labels[r, :] = row. */
  method SetRow(a: array2<int>, r: nat, row: Row)
    requires r < a.Length0 && |row| == a.Length1
    modifies a
    ensures Rows(a) == old(Rows(a))[r := row]
  {
    for j := 0 to a.Length1
      invariant forall i, c :: 0 <= i < a.Length0 && 0 <= c < a.Length1 ==>
                  a[i, c] == if i == r && c < j then row[c] else old(a[i, c])
    {
      a[r, j] := row[j];
    }
    forall i | 0 <= i < a.Length0
      ensures Rows(a)[i] == old(Rows(a))[r := row][i]
    {
      if i == r {
        assert RowOf(a, i) == row;
      } else {
        assert RowOf(a, i) == old(RowOf(a, i));
      }
    }
  }

  /** The label rewriting of one commit: the first member's row becomes the
      merged label, then each later member's row becomes the retired label. */
  method StampGroup(a: array2<int>, group: seq<nat>, merged: Row)
    requires group != [] && Increasing(group)
    requires forall t :: 0 <= t < |group| ==> group[t] < a.Length0
    requires |merged| == a.Length1
    modifies a
    ensures Rows(a) == Commit(old(Rows(a)), group, merged, a.Length1)
  {
    var L := a.Length1;
    ghost var before := Rows(a);
    SetRow(a, group[0], merged);
    var deactivated := Deactivated(L);
    for j := 1 to |group|
      invariant |Rows(a)| == |before|
      invariant forall i :: 0 <= i < |before| ==>
                  Rows(a)[i] == if i == group[0] then merged
                                else if i in group[1..j] then deactivated
                                else before[i]
    {
      ghost var mid := Rows(a);
      SetRow(a, group[j], deactivated);
      assert group[1..j + 1] == group[1..j] + [group[j]];
      assert group[j] != group[0];
    }
    assert group == [group[0]] + group[1..];
    forall i | 0 <= i < |before|
      ensures Rows(a)[i] == Commit(before, group, merged, L)[i]
    {
      assert i in group <==> i == group[0] || i in group[1..];
    }
  }

  /** Setting is_used for the members of a committed group. */
  method MarkUsed(isUsed: seq<bool>, group: seq<nat>) returns (flags: seq<bool>)
    requires Increasing(group)
    requires forall t :: 0 <= t < |group| ==> group[t] < |isUsed| && !isUsed[group[t]]
    ensures |flags| == |isUsed|
    ensures forall k :: 0 <= k < |isUsed| ==> (flags[k] <==> isUsed[k] || k in group)
    ensures CountFalse(flags) + |group| == CountFalse(isUsed)
  {
    flags := isUsed;
    for j := 0 to |group|
      invariant |flags| == |isUsed|
      invariant forall k :: 0 <= k < |isUsed| ==> (flags[k] <==> isUsed[k] || k in group[..j])
      invariant CountFalse(flags) + j == CountFalse(isUsed)
    {
      assert group[j] !in group[..j];
      CountFalseFlip(flags, group[j]);
      flags := flags[group[j] := true];
      assert group[..j + 1] == group[..j] + [group[j]];
    }
    assert group[..|group|] == group;
  }

  /** The members of the candidate group for start index k: the first (at
      most size) unused nodes from k on, in increasing order. */
  ghost function GroupFrom(isUsed: seq<bool>, k: nat, size: nat): (g: seq<nat>)
    ensures |g| <= size
    ensures forall t :: 0 <= t < |g| ==> k <= g[t] < |isUsed|
    decreases |isUsed| - k
  {
    if size == 0 || k >= |isUsed| then []
    else if !isUsed[k] then [k] + GroupFrom(isUsed, k + 1, size - 1)
    else GroupFrom(isUsed, k + 1, size)
  }

  /** A candidate group lists unused nodes in strictly increasing order. */
  lemma {:induction false} GroupFromShape(isUsed: seq<bool>, k: nat, size: nat)
    ensures Increasing(GroupFrom(isUsed, k, size))
    ensures forall t :: 0 <= t < |GroupFrom(isUsed, k, size)| ==> !isUsed[GroupFrom(isUsed, k, size)[t]]
    decreases |isUsed| - k
  {
    if size != 0 && k < |isUsed| {
      if !isUsed[k] {
        var rest := GroupFrom(isUsed, k + 1, size - 1);
        GroupFromShape(isUsed, k + 1, size - 1);
        var g := [k] + rest;
        assert forall t :: 0 < t < |g| ==> g[t] == rest[t - 1];
      } else {
        GroupFromShape(isUsed, k + 1, size);
      }
    }
  }

  /** A candidate group skips no unused node: one left out lies beyond a
      full group. */
  lemma {:induction false} GroupSkipsNone(isUsed: seq<bool>, k: nat, size: nat, j: nat)
    requires k <= j < |isUsed| && !isUsed[j] && j !in GroupFrom(isUsed, k, size)
    ensures |GroupFrom(isUsed, k, size)| == size
    ensures forall t :: 0 <= t < |GroupFrom(isUsed, k, size)| ==> GroupFrom(isUsed, k, size)[t] < j
    decreases |isUsed| - k
  {
    if size == 0 {
    } else if !isUsed[k] {
      var rest := GroupFrom(isUsed, k + 1, size - 1);
      assert GroupFrom(isUsed, k, size) == [k] + rest;
      assert j != k && j !in rest;
      GroupSkipsNone(isUsed, k + 1, size - 1, j);
    } else {
      assert k != j;
      GroupSkipsNone(isUsed, k + 1, size, j);
    }
  }

  /** The candidate the checker sees for start index i. */
  ghost function CandidateAt(rows: seq<Row>, isUsed: seq<bool>, i: nat, size: nat, L: nat): seq<Row>
    requires |rows| == |isUsed|
  {
    Candidate(rows, GroupFrom(isUsed, i, size), size, L)
  }

  /** The checker accepts the candidate at start and rejects the candidates
      at every earlier start index: the first fit in scan order. */
  ghost predicate FirstFit(rows: seq<Row>, isUsed: seq<bool>, start: nat, size: nat,
                           check: Checker, L: nat, mergedRow: Row)
    requires |rows| == |isUsed|
  {
    check(CandidateAt(rows, isUsed, start, size, L), size) == Some(mergedRow) &&
    forall i :: 0 <= i < start ==> check(CandidateAt(rows, isUsed, i, size, L), size).None?
  }

  /** A commit of the group at start index start, for fan-in size, when the
      nodes flagged in before were already used. */
  ghost predicate ExplainedCommit(rows: seq<Row>, before: seq<bool>, group: seq<nat>, start: nat,
                                  size: nat, mergedRow: Row, check: Checker, L: nat)
    requires |rows| == |before|
  {
    start < |before| && group == GroupFrom(before, start, size) &&
    FirstFit(rows, before, start, size, check, L, mergedRow)
  }

  /** The used flags once the given groups are committed. */
  ghost function UsedBy(groups: seq<seq<nat>>, n: nat): seq<bool>
  {
    seq(n, k => k in Covered(groups))
  }

  /** The inner loop of fit_layer for start index i: it gathers the first
      unused nodes from i on and pads the candidate with dummy rows. Rows of
      unused nodes are still those of the layer's input (rows). */
  method CollectCandidates(labels: array2<int>, ghost rows: seq<Row>, isUsed: seq<bool>, i: nat, size: nat)
    returns (group: seq<nat>, candidate: seq<Row>)
    requires |isUsed| == labels.Length0 == |rows| && i < |isUsed|
    requires forall k :: 0 <= k < |isUsed| && !isUsed[k] ==> RowOf(labels, k) == rows[k]
    ensures group == GroupFrom(isUsed, i, size)
    ensures candidate == CandidateAt(rows, isUsed, i, size, labels.Length1)
  {
    var n := labels.Length0;
    var k := i;
    group, candidate := [], [];
    while |group| < size && k < n
      invariant i <= k <= n && |group| <= size
      invariant group + GroupFrom(isUsed, k, size - |group|) == GroupFrom(isUsed, i, size)
      invariant forall t :: 0 <= t < |group| ==> group[t] < n && !isUsed[group[t]]
      invariant |candidate| == |group|
      invariant forall t :: 0 <= t < |group| ==> candidate[t] == rows[group[t]]
      decreases n - k
    {
      if !isUsed[k] {
        GroupSnoc(group, k, GroupFrom(isUsed, k + 1, size - |group| - 1));
        candidate := candidate + [RowOf(labels, k)];
        group := group + [k];
      }
      k := k + 1;
    }
    ChosenRows(rows, group, candidate);
    candidate := PadWithDummies(candidate, size, labels.Length1);
  }

  lemma GroupSnoc(group: seq<nat>, k: nat, rest: seq<nat>)
    ensures (group + [k]) + rest == group + ([k] + rest)
  {
  }

  /** The rows gathered for a group, in group order. */
  lemma ChosenRows(rows: seq<Row>, group: seq<nat>, candidate: seq<Row>)
    requires |candidate| == |group|
    requires forall t :: 0 <= t < |group| ==> group[t] < |rows| && candidate[t] == rows[group[t]]
    ensures candidate == seq(|group|, t requires 0 <= t < |group| => rows[group[t]])
  {
  }

  /** The padding loop: dummy rows until the candidate has size rows. */
  method PadWithDummies(chosen: seq<Row>, size: nat, L: nat) returns (candidate: seq<Row>)
    requires |chosen| <= size
    ensures candidate == chosen + Dummies(size - |chosen|, L)
  {
    candidate := chosen;
    while |candidate| < size
      invariant |chosen| <= |candidate| <= size
      invariant candidate == chosen + Dummies(|candidate| - |chosen|, L)
    {
      candidate := candidate + [DummyRow(L)];
    }
  }

  /** The scan of fit_layer over the start indices for one fan-in: the
      first start whose candidate the checker accepts, or none. */
  method FindFit(labels: array2<int>, ghost rows: seq<Row>, isUsed: seq<bool>, size: nat, check: Checker)
    returns (found: bool, group: seq<nat>, mergedRow: Row, ghost start: nat)
    requires |isUsed| == labels.Length0 == |rows|
    requires forall k :: 0 <= k < |isUsed| && !isUsed[k] ==> RowOf(labels, k) == rows[k]
    ensures found ==> ExplainedCommit(rows, isUsed, group, start, size, mergedRow, check, labels.Length1)
    ensures !found ==> forall i :: 0 <= i < |isUsed| ==>
              check(CandidateAt(rows, isUsed, i, size, labels.Length1), size).None?
  {
    found, group, mergedRow, start := false, [], [], 0;
    for i := 0 to labels.Length0
      invariant forall i' :: 0 <= i' < i ==>
                  check(CandidateAt(rows, isUsed, i', size, labels.Length1), size).None?
    {
      var members, candidate := CollectCandidates(labels, rows, isUsed, i, size);
      var muxParams := check(candidate, size);
      if muxParams.Some? {
        return true, members, muxParams.value, i;
      }
    }
  }

  /** One row more on the left, one row fewer on the right. */
  lemma SurvivorsStep(rows: seq<Row>, i: nat, L: nat)
    requires i < |rows|
    ensures Survivors(rows[..i + 1], L)
            == Survivors(rows[..i], L) + (if rows[i] == Deactivated(L) then [] else [rows[i]])
    ensures Survivors(rows[i..], L)
            == (if rows[i] == Deactivated(L) then [] else [rows[i]]) + Survivors(rows[i + 1..], L)
  {
    assert rows[..i + 1][..i] == rows[..i];
    assert rows[i..] == [rows[i]] + rows[i + 1..];
    SurvivorsAppend([rows[i]], rows[i + 1..], L);
    assert [rows[i]][..0] == [];
  }

  /** The indices of the rows equal to the retired label, ascending. */
  method FindDeactivated(a: array2<int>) returns (nodes: seq<nat>)
    ensures forall k :: k in nodes <==> 0 <= k < a.Length0 && Rows(a)[k] == Deactivated(a.Length1)
    ensures |nodes| == DeactCount(Rows(a), a.Length1)
    ensures Increasing(nodes)
  {
    var n, L := a.Length0, a.Length1;
    ghost var rows := Rows(a);
    var deactivated := Deactivated(L);
    nodes := [];
    for i := 0 to n
      invariant forall k :: k in nodes <==> 0 <= k < i && rows[k] == deactivated
      invariant |nodes| == DeactCount(rows[..i], L)
      invariant Increasing(nodes) && forall k :: k in nodes ==> k < i
    {
      assert rows[..i + 1] == rows[..i] + [rows[i]];
      if RowOf(a, i) == deactivated {
        IncreasingSnoc(nodes, i);
        nodes := nodes + [i];
      }
    }
    assert rows[..n] == rows;
  }

  /** Appending an index above every element keeps a list increasing. */
  lemma IncreasingSnoc(s: seq<nat>, x: nat)
    requires Increasing(s) && forall k :: k in s ==> k < x
    ensures Increasing(s + [x])
  {
    forall i, j | 0 <= i < j < |s| + 1
      ensures (s + [x])[i] < (s + [x])[j]
    {
      if j == |s| {
        assert s[i] in s;
      }
    }
  }

  /** np.delete of every row equal to the retired label: a new matrix
      holding the other rows in their original order. */
  method DeleteDeactivated(a: array2<int>) returns (b: array2<int>)
    ensures fresh(b) && b.Length1 == a.Length1
    ensures Rows(b) == Survivors(Rows(a), a.Length1)
  {
    var n, L := a.Length0, a.Length1;
    ghost var rows := Rows(a);
    var deactivatedNodes := FindDeactivated(a);
    SurvivorsExact(rows, L);
    b := new int[n - |deactivatedNodes|, L];
    var r := 0;
    for i := 0 to n
      invariant r + |Survivors(rows[i..], L)| == b.Length0
      invariant Rows(b)[..r] == Survivors(rows[..i], L)
    {
      SurvivorsStep(rows, i, L);
      ghost var before, r0 := Rows(b), r;
      if i !in deactivatedNodes {
        SetRow(b, r, RowOf(a, i));
        r := r + 1;
      }
      DeleteStep(rows, i, L, before, Rows(b), r0, r);
    }
    assert rows[..n] == rows;
    assert Rows(b)[..r] == Rows(b);
  }

  /** One step of the copy loop: a retired row is skipped, any other row is
      written just past the survivors copied so far. */
  lemma DeleteStep(rows: seq<Row>, i: nat, L: nat, before: seq<Row>, after: seq<Row>, r: nat, r': nat)
    requires i < |rows| && r + |Survivors(rows[i..], L)| == |before|
    requires before[..r] == Survivors(rows[..i], L)
    requires rows[i] == Deactivated(L) ==> after == before && r' == r
    requires rows[i] != Deactivated(L) ==> r < |before| && after == before[r := rows[i]] && r' == r + 1
    ensures r' + |Survivors(rows[i + 1..], L)| == |after|
    ensures after[..r'] == Survivors(rows[..i + 1], L)
  {
    SurvivorsStep(rows, i, L);
    if rows[i] != Deactivated(L) {
      ExtendPrefix(before, after, r, rows[i], Survivors(rows[..i], L));
    }
  }

  /** Writing x at position r, just past a prefix equal to done, extends
      that prefix by x. */
  lemma ExtendPrefix(before: seq<Row>, after: seq<Row>, r: nat, x: Row, done: seq<Row>)
    requires r < |before| && after == before[r := x] && before[..r] == done
    ensures after[..r + 1] == done + [x]
  {
    assert after[..r + 1] == before[..r] + [x];
  }
}
