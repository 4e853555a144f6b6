/** The LUT inventory of Fitter.py: the fixed table from a LUT's input count
    to the mux fan-in it implements, the buckets of LUT sizes kept per fan-in,
    and the sorting the constructor and fit_layer rely on. */
module LutInventory {
  import opened Binary

  /** lut2mux_map (Fitter.py:18). */
  const Lut2Mux: map<nat, nat> :=
    map[3 := 2, 4 := 2, 5 := 2, 6 := 4, 7 := 4, 8 := 4, 9 := 4, 10 := 4, 11 := 8, 12 := 8]

  /** The fan-ins the table produces: the only keys a bucket map can have. */
  const MuxClasses: set<nat> := {2, 4, 8}

  /** Largest k >= start with 2^k + k <= s, i.e. the number of select lines
      of the widest pure mux (2^k data inputs plus k select inputs) that
      fits in a LUT with s inputs. */
  function MaxSelectLines(s: nat, start: nat): (k: nat)
    requires Pow2(start) + start <= s
    ensures start <= k && Pow2(k) + k <= s < Pow2(k + 1) + (k + 1)
    decreases s - start
  {
    if Pow2(start + 1) + start + 1 <= s then MaxSelectLines(s, start + 1) else start
  }

  /** The fixed table is the closed form it stands for: every supported LUT
      size s maps to 2^k for the largest k with 2^k + k <= s. */
  lemma Lut2MuxIsMuxCapacity()
    ensures forall s :: s in Lut2Mux <==> 3 <= s <= 12
    ensures forall s :: s in Lut2Mux ==> Lut2Mux[s] == Pow2(MaxSelectLines(s, 1))
    ensures forall s :: s in Lut2Mux ==> Lut2Mux[s] in MuxClasses
  {
    assert Pow2(1) == 2 && Pow2(2) == 4 && Pow2(3) == 8 && Pow2(4) == 16;
    forall s | s in Lut2Mux
      ensures Lut2Mux[s] == Pow2(MaxSelectLines(s, 1))
    {
      var k := MaxSelectLines(s, 1);
      if k >= 4 {
        Pow2Monotone(4, k);
      }
    }
  }

  lemma FanInIsMuxClass(s: nat)
    requires s in Lut2Mux
    ensures Lut2Mux[s] in MuxClasses
  {
  }

  lemma {:induction false} Pow2Monotone(a: nat, b: nat)
    requires a <= b
    ensures Pow2(a) <= Pow2(b)
    decreases b - a
  {
    if a < b {
      Pow2Monotone(a, b - 1);
    }
  }

  /** Bucket m of a bucket map; an absent key reads as an empty bucket. */
  function Bucket(d: map<nat, seq<nat>>, m: nat): seq<nat>
  {
    if m in d then d[m] else []
  }

  /** Every LUT still held by the inventory. */
  ghost function Pool(d: map<nat, seq<nat>>): multiset<nat>
  {
    multiset(Bucket(d, 2)) + multiset(Bucket(d, 4)) + multiset(Bucket(d, 8))
  }

  /** Number of LUTs still held by the inventory. */
  ghost function Total(d: map<nat, seq<nat>>): nat
  {
    |Bucket(d, 2)| + |Bucket(d, 4)| + |Bucket(d, 8)|
  }

  predicate Sorted(s: seq<nat>)
  {
    forall i, j :: 0 <= i < j < |s| ==> s[i] <= s[j]
  }

  predicate StrictlyAscending(s: seq<nat>)
  {
    forall i, j :: 0 <= i < j < |s| ==> s[i] < s[j]
  }

  /** The shape the constructor gives mux_dict and fit_layer keeps: keys are
      fan-ins of the table, each bucket is sorted ascending and holds only
      LUT sizes that the table sends to its key. */
  ghost predicate WellFormed(d: map<nat, seq<nat>>)
  {
    (forall m :: m in d ==> m in MuxClasses) &&
    (forall m :: m in d ==> Sorted(d[m])) &&
    (forall m, s :: m in d && s in d[m] ==> s in Lut2Mux && Lut2Mux[s] == m)
  }

  predicate NonEmptyBuckets(d: map<nat, seq<nat>>)
  {
    forall m :: m in d ==> d[m] != []
  }

  /** xs is what is left of ys after some pop(0) calls. */
  predicate IsSuffix(xs: seq<nat>, ys: seq<nat>)
  {
    |xs| <= |ys| && xs == ys[|ys| - |xs|..]
  }

  /** [lut_size] * num_of_lut. */
  function Repeat(s: nat, count: nat): seq<nat>
  {
    seq(count, _ => s)
  }

  /** The repeated list holds count copies of s and nothing else. */
  lemma {:induction false} RepeatCount(s: nat, count: nat)
    ensures forall x :: multiset(Repeat(s, count))[x] == if x == s then count else 0
  {
    if count > 0 {
      RepeatCount(s, count - 1);
      assert Repeat(s, count) == Repeat(s, count - 1) + [s];
    }
  }

  /** Sorted insertion, the step of the insertion sort below. */
  function Insert(s: seq<nat>, x: nat): (r: seq<nat>)
    requires Sorted(s)
    ensures Sorted(r)
    ensures multiset(r) == multiset(s) + multiset{x}
  {
    if s == [] then [x]
    else if x <= s[0] then [x] + s
    else
      var rest := Insert(s[1..], x);
      InsertBehind(s, x, rest);
      [s[0]] + rest
  }

  /** The head of s stays in front when x goes further back. */
  lemma InsertBehind(s: seq<nat>, x: nat, rest: seq<nat>)
    requires Sorted(s) && s != [] && s[0] < x
    requires Sorted(rest) && multiset(rest) == multiset(s[1..]) + multiset{x}
    ensures Sorted([s[0]] + rest)
    ensures multiset([s[0]] + rest) == multiset(s) + multiset{x}
  {
    assert s == [s[0]] + s[1..];
    forall j | 0 <= j < |rest|
      ensures s[0] <= rest[j]
    {
      assert rest[j] in multiset(rest);
      if rest[j] != x {
        assert rest[j] in multiset(s[1..]);
      }
    }
  }

  /** list.sort() on a bucket: an ascending permutation. */
  method SortAscending(s: seq<nat>) returns (r: seq<nat>)
    ensures Sorted(r)
    ensures multiset(r) == multiset(s)
  {
    r := [];
    for i := 0 to |s|
      invariant Sorted(r)
      invariant multiset(r) == multiset(s[..i])
    {
      assert s[..i + 1] == s[..i] + [s[i]];
      r := Insert(r, s[i]);
    }
    assert s[..|s|] == s;
  }

  /** The least element of a non-empty set of fan-ins. */
  ghost function Least(keys: set<nat>): (m: nat)
    requires keys != {}
    ensures m in keys && forall y :: y in keys ==> m <= y
  {
    var x :| x in keys;
    var rest := keys - {x};
    if rest == {} then
      assert forall y :: y in keys ==> y in rest || y == x;
      x
    else
      var r := Least(rest);
      assert forall y :: y in keys ==> y in rest || y == x;
      if x < r then x else r
  }

  /** sorted(mux_dict.keys()): the keys in strictly ascending order. */
  method SortedKeys(keys: set<nat>) returns (s: seq<nat>)
    ensures StrictlyAscending(s)
    ensures forall x :: x in s <==> x in keys
  {
    s := [];
    var rest := keys;
    while rest != {}
      invariant rest <= keys
      invariant StrictlyAscending(s)
      invariant forall x :: x in keys <==> x in s || x in rest
      invariant forall i, y :: 0 <= i < |s| && y in rest ==> s[i] < y
      decreases rest
    {
      ghost var least := Least(rest);
      var m :| m in rest && forall y :: y in rest ==> m <= y;
      s := s + [m];
      rest := rest - {m};
    }
  }
  /** dict has a bucket for every fan-in some size in done maps to. */
  ghost predicate KeysFrom(lutSet: map<nat, nat>, done: set<nat>, dict: map<nat, seq<nat>>)
    requires forall s :: s in lutSet ==> s in Lut2Mux
  {
    forall m :: m in dict <==> exists s :: s in lutSet && s in done && Lut2Mux[s] == m
  }

  /** Bucket m of dict holds count copies of each size in done that maps to m. */
  ghost predicate CountsFrom(lutSet: map<nat, nat>, done: set<nat>, dict: map<nat, seq<nat>>)
    requires forall s :: s in lutSet ==> s in Lut2Mux
  {
    forall m, x :: m in dict ==>
      multiset(dict[m])[x] == if x in lutSet && x in done && Lut2Mux[x] == m then lutSet[x] else 0
  }

  /** dict holds the buckets built from the sizes in done. */
  ghost predicate GroupedBy(lutSet: map<nat, nat>, done: set<nat>, dict: map<nat, seq<nat>>)
    requires forall s :: s in lutSet ==> s in Lut2Mux
  {
    KeysFrom(lutSet, done, dict) && CountsFrom(lutSet, done, dict)
  }

  /** One step of the first loop: appending the copies of size s to its
      bucket adds s to the sizes covered. */
  lemma GroupStep(lutSet: map<nat, nat>, done: set<nat>, dict: map<nat, seq<nat>>, s: nat)
    requires forall s :: s in lutSet ==> s in Lut2Mux
    requires GroupedBy(lutSet, done, dict) && s in lutSet && s !in done
    ensures GroupedBy(lutSet, done + {s},
                      dict[Lut2Mux[s] := Bucket(dict, Lut2Mux[s]) + Repeat(s, lutSet[s])])
  {
    GroupStepKeys(lutSet, done, dict, s);
    GroupStepCounts(lutSet, done, dict, s);
  }

  lemma GroupStepKeys(lutSet: map<nat, nat>, done: set<nat>, dict: map<nat, seq<nat>>, s: nat)
    requires forall s :: s in lutSet ==> s in Lut2Mux
    requires KeysFrom(lutSet, done, dict) && s in lutSet && s !in done
    ensures KeysFrom(lutSet, done + {s},
                     dict[Lut2Mux[s] := Bucket(dict, Lut2Mux[s]) + Repeat(s, lutSet[s])])
  {
    var m := Lut2Mux[s];
    var dict' := dict[m := Bucket(dict, m) + Repeat(s, lutSet[s])];
    forall m' | m' in dict'
      ensures exists s' :: s' in lutSet && s' in done + {s} && Lut2Mux[s'] == m'
    {
      if m' != m {
        var s' :| s' in lutSet && s' in done && Lut2Mux[s'] == m';
        assert s' in done + {s};
      }
    }
    forall m' | exists s' :: s' in lutSet && s' in done + {s} && Lut2Mux[s'] == m'
      ensures m' in dict'
    {
      var s' :| s' in lutSet && s' in done + {s} && Lut2Mux[s'] == m';
      if s' != s {
        assert s' in done;
      }
    }
  }

  lemma GroupStepCounts(lutSet: map<nat, nat>, done: set<nat>, dict: map<nat, seq<nat>>, s: nat)
    requires forall s :: s in lutSet ==> s in Lut2Mux
    requires GroupedBy(lutSet, done, dict) && s in lutSet && s !in done
    ensures CountsFrom(lutSet, done + {s},
                       dict[Lut2Mux[s] := Bucket(dict, Lut2Mux[s]) + Repeat(s, lutSet[s])])
  {
    var m := Lut2Mux[s];
    var dict' := dict[m := Bucket(dict, m) + Repeat(s, lutSet[s])];
    forall x
      ensures multiset(dict'[m])[x] ==
              if x in lutSet && x in done + {s} && Lut2Mux[x] == m then lutSet[x] else 0
    {
      GroupStepCount(lutSet, done, dict, s, x);
    }
    GroupOtherCounts(lutSet, done, dict, s);
  }

  /** The buckets other than that of s are left as they were. */
  lemma GroupOtherCounts(lutSet: map<nat, nat>, done: set<nat>, dict: map<nat, seq<nat>>, s: nat)
    requires forall s :: s in lutSet ==> s in Lut2Mux
    requires CountsFrom(lutSet, done, dict) && s in lutSet
    ensures var dict' := dict[Lut2Mux[s] := Bucket(dict, Lut2Mux[s]) + Repeat(s, lutSet[s])];
            forall m', x :: m' in dict' && m' != Lut2Mux[s] ==>
              multiset(dict'[m'])[x] ==
              if x in lutSet && x in done + {s} && Lut2Mux[x] == m' then lutSet[x] else 0
  {
    forall m', x | m' in dict && m' != Lut2Mux[s]
      ensures multiset(dict[m'])[x] ==
              if x in lutSet && x in done + {s} && Lut2Mux[x] == m' then lutSet[x] else 0
    {
      GroupOtherCount(lutSet, done, dict, s, m', x);
    }
  }

  lemma GroupOtherCount(lutSet: map<nat, nat>, done: set<nat>, dict: map<nat, seq<nat>>,
                        s: nat, m': nat, x: nat)
    requires forall s :: s in lutSet ==> s in Lut2Mux
    requires CountsFrom(lutSet, done, dict) && s in lutSet && m' in dict && m' != Lut2Mux[s]
    ensures multiset(dict[m'])[x] ==
            if x in lutSet && x in done + {s} && Lut2Mux[x] == m' then lutSet[x] else 0
  {
    assert multiset(dict[m'])[x] ==
           if x in lutSet && x in done && Lut2Mux[x] == m' then lutSet[x] else 0;
  }

  lemma GroupStepCount(lutSet: map<nat, nat>, done: set<nat>, dict: map<nat, seq<nat>>, s: nat, x: nat)
    requires forall s :: s in lutSet ==> s in Lut2Mux
    requires GroupedBy(lutSet, done, dict) && s in lutSet && s !in done
    ensures multiset(Bucket(dict, Lut2Mux[s]) + Repeat(s, lutSet[s]))[x] ==
            if x in lutSet && x in done + {s} && Lut2Mux[x] == Lut2Mux[s] then lutSet[x] else 0
  {
    var m := Lut2Mux[s];
    RepeatCount(s, lutSet[s]);
    assert multiset(Bucket(dict, m) + Repeat(s, lutSet[s]))[x] ==
           multiset(Bucket(dict, m))[x] + multiset(Repeat(s, lutSet[s]))[x];
    if m !in dict && x in lutSet && x in done && Lut2Mux[x] == m {
      assert false;
    }
  }

  /** The first loop of the constructor: for each (size, count) entry of the
      LUT set, extend the bucket of lut2mux_map[size] with count copies of
      size. The entries are visited in no particular order. */
  method GroupBySize(lutSet: map<nat, nat>) returns (dict: map<nat, seq<nat>>)
    requires forall s :: s in lutSet ==> s in Lut2Mux
    ensures GroupedBy(lutSet, lutSet.Keys, dict)
  {
    dict := map[];
    var pending := lutSet.Keys;
    while pending != {}
      invariant pending <= lutSet.Keys
      invariant GroupedBy(lutSet, lutSet.Keys - pending, dict)
      decreases pending
    {
      var s :| s in pending;
      var m := Lut2Mux[s];
      var lutList := if m in dict then dict[m] else [];
      GroupStep(lutSet, lutSet.Keys - pending, dict, s);
      lutList := lutList + Repeat(s, lutSet[s]);
      dict := dict[m := lutList];
      assert lutSet.Keys - pending + {s} == lutSet.Keys - (pending - {s});
      pending := pending - {s};
    }
  }

  /** The second loop of the constructor: sort every bucket ascending. */
  method SortBuckets(unsorted: map<nat, seq<nat>>) returns (dict: map<nat, seq<nat>>)
    ensures dict.Keys == unsorted.Keys
    ensures forall m :: m in dict ==> Sorted(dict[m]) && multiset(dict[m]) == multiset(unsorted[m])
  {
    dict := unsorted;
    var toSort := dict.Keys;
    while toSort != {}
      invariant toSort <= dict.Keys && dict.Keys == unsorted.Keys
      invariant forall m :: m in dict ==> multiset(dict[m]) == multiset(unsorted[m])
      invariant forall m :: m in dict && m !in toSort ==> Sorted(dict[m])
      decreases toSort
    {
      var m :| m in toSort;
      var lutList := SortAscending(dict[m]);
      dict := dict[m := lutList];
      toSort := toSort - {m};
    }
  }

  /** The buckets after both loops of the constructor: a bucket for every
      fan-in, holding each size of the set as many times as the set says, in
      ascending order; the map is well formed, and no bucket is empty when
      no count is 0. */
  lemma SortedBucketsOf(lutSet: map<nat, nat>, grouped: map<nat, seq<nat>>, dict: map<nat, seq<nat>>)
    requires forall s :: s in lutSet ==> s in Lut2Mux
    requires GroupedBy(lutSet, lutSet.Keys, grouped)
    requires dict.Keys == grouped.Keys
    requires forall m :: m in dict ==> Sorted(dict[m]) && multiset(dict[m]) == multiset(grouped[m])
    ensures KeysFrom(lutSet, lutSet.Keys, dict) && CountsFrom(lutSet, lutSet.Keys, dict)
    ensures WellFormed(dict)
    ensures (forall s :: s in lutSet ==> lutSet[s] > 0) ==> NonEmptyBuckets(dict)
  {
    BucketKeysOf(lutSet, grouped, dict);
    SortedCounts(lutSet, grouped, dict);
    BucketsShape(lutSet, dict);
    if forall s :: s in lutSet ==> lutSet[s] > 0 {
      BucketsNonEmpty(lutSet, dict);
    }
  }

  /** The keys built from every size of the set, without the done set. */
  lemma AllKeys(lutSet: map<nat, nat>, dict: map<nat, seq<nat>>)
    requires forall s :: s in lutSet ==> s in Lut2Mux
    requires KeysFrom(lutSet, lutSet.Keys, dict)
    ensures forall m :: m in dict <==> exists s :: s in lutSet && Lut2Mux[s] == m
  {
    forall m | m in dict
      ensures exists s :: s in lutSet && Lut2Mux[s] == m
    {
      var s :| s in lutSet && s in lutSet.Keys && Lut2Mux[s] == m;
    }
    forall m | exists s :: s in lutSet && Lut2Mux[s] == m
      ensures m in dict
    {
      var s :| s in lutSet && Lut2Mux[s] == m;
      assert s in lutSet.Keys;
    }
  }

  /** The counts built from every size of the set, without the done set. */
  lemma AllCounts(lutSet: map<nat, nat>, dict: map<nat, seq<nat>>)
    requires forall s :: s in lutSet ==> s in Lut2Mux
    requires CountsFrom(lutSet, lutSet.Keys, dict)
    ensures forall m, x :: m in dict ==>
              multiset(dict[m])[x] == if x in lutSet && Lut2Mux[x] == m then lutSet[x] else 0
  {
    forall m, x | m in dict
      ensures multiset(dict[m])[x] == if x in lutSet && Lut2Mux[x] == m then lutSet[x] else 0
    {
      assert x in lutSet <==> x in lutSet.Keys;
    }
  }

  /** The sorted map has a bucket exactly for the fan-ins of the set. */
  lemma BucketKeysOf(lutSet: map<nat, nat>, grouped: map<nat, seq<nat>>, dict: map<nat, seq<nat>>)
    requires forall s :: s in lutSet ==> s in Lut2Mux
    requires KeysFrom(lutSet, lutSet.Keys, grouped)
    requires dict.Keys == grouped.Keys
    ensures KeysFrom(lutSet, lutSet.Keys, dict)
  {
  }

  /** Sorting keeps the number of copies of every size in every bucket. */
  lemma SortedCounts(lutSet: map<nat, nat>, grouped: map<nat, seq<nat>>, dict: map<nat, seq<nat>>)
    requires forall s :: s in lutSet ==> s in Lut2Mux
    requires CountsFrom(lutSet, lutSet.Keys, grouped)
    requires dict.Keys == grouped.Keys
    requires forall m :: m in dict ==> multiset(dict[m]) == multiset(grouped[m])
    ensures CountsFrom(lutSet, lutSet.Keys, dict)
  {
    forall m, x | m in dict
      ensures multiset(dict[m])[x] == if x in lutSet && x in lutSet.Keys && Lut2Mux[x] == m then lutSet[x] else 0
    {
      SortedCount(lutSet, grouped, dict, m, x);
    }
  }

  lemma SortedCount(lutSet: map<nat, nat>, grouped: map<nat, seq<nat>>, dict: map<nat, seq<nat>>,
                    m: nat, x: nat)
    requires forall s :: s in lutSet ==> s in Lut2Mux
    requires CountsFrom(lutSet, lutSet.Keys, grouped)
    requires m in dict && m in grouped && multiset(dict[m]) == multiset(grouped[m])
    ensures multiset(dict[m])[x] == if x in lutSet && x in lutSet.Keys && Lut2Mux[x] == m then lutSet[x] else 0
  {
  }

  /** The counts and the keys of the buckets make the map well formed. */
  lemma BucketsShape(lutSet: map<nat, nat>, dict: map<nat, seq<nat>>)
    requires forall s :: s in lutSet ==> s in Lut2Mux
    requires forall m :: m in dict ==> Sorted(dict[m])
    requires KeysFrom(lutSet, lutSet.Keys, dict) && CountsFrom(lutSet, lutSet.Keys, dict)
    ensures WellFormed(dict)
  {
    BucketMembers(lutSet, dict);
    BucketKeys(lutSet, dict);
  }

  lemma BucketMembers(lutSet: map<nat, nat>, dict: map<nat, seq<nat>>)
    requires forall s :: s in lutSet ==> s in Lut2Mux
    requires CountsFrom(lutSet, lutSet.Keys, dict)
    ensures forall m, x :: m in dict && x in dict[m] ==> x in Lut2Mux && Lut2Mux[x] == m
  {
    forall m, x | m in dict && x in dict[m]
      ensures x in Lut2Mux && Lut2Mux[x] == m
    {
      assert multiset(dict[m])[x] > 0;
    }
  }

  lemma BucketKeys(lutSet: map<nat, nat>, dict: map<nat, seq<nat>>)
    requires forall s :: s in lutSet ==> s in Lut2Mux
    requires KeysFrom(lutSet, lutSet.Keys, dict)
    ensures forall m :: m in dict ==> m in MuxClasses
  {
    forall m | m in dict
      ensures m in MuxClasses
    {
      var s :| s in lutSet && Lut2Mux[s] == m;
      FanInIsMuxClass(s);
    }
  }

  /** No bucket is empty when no count of the LUT set is 0. */
  lemma BucketsNonEmpty(lutSet: map<nat, nat>, dict: map<nat, seq<nat>>)
    requires forall s :: s in lutSet ==> s in Lut2Mux
    requires forall s :: s in lutSet ==> lutSet[s] > 0
    requires KeysFrom(lutSet, lutSet.Keys, dict) && CountsFrom(lutSet, lutSet.Keys, dict)
    ensures NonEmptyBuckets(dict)
  {
    forall m | m in dict
      ensures dict[m] != []
    {
      var s :| s in lutSet && Lut2Mux[s] == m;
      assert multiset(dict[m])[s] > 0;
    }
  }

}
