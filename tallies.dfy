/** The per-pass tally: an insertion-ordered dictionary from keyword to the
    number of transfers made under that keyword. */
module Tallies {

  import opened Sequences

  /** Keys in insertion order, and the count of each key. */
  datatype Tally = Tally(keys: seq<string>, counts: map<string, nat>)

  ghost predicate Valid(t: Tally)
  {
    Distinct(t.keys) && forall k :: k in t.counts <==> k in t.keys
  }

  const Empty: Tally := Tally([], map[])

  /** One transfer under keyword `k` (`move_count[k] = move_count.get(k, 0) + 1`):
      a key seen before keeps its place, a new key goes last with count 1. */
  function Bump(t: Tally, k: string): (r: Tally)
    ensures Valid(t) ==> Valid(r)
    ensures k in r.counts && r.counts[k] == (if k in t.counts then t.counts[k] else 0) + 1
    ensures r.keys == if k in t.counts then t.keys else t.keys + [k]
  {
    if k in t.counts then Tally(t.keys, t.counts[k := t.counts[k] + 1])
    else Tally(t.keys + [k], t.counts[k := 1])
  }

  /** A bump leaves every other key's count as it was. */
  lemma BumpOthers(t: Tally, k: string, j: string)
    requires j != k
    ensures j in Bump(t, k).counts <==> j in t.counts
    ensures j in t.counts ==> Bump(t, k).counts[j] == t.counts[j]
  {
  }

  /** The tally left by transfers under keywords `ks`, in this order,
      starting from an empty dictionary. */
  function TallyOf(ks: seq<string>): (t: Tally)
    ensures Valid(t)
    decreases |ks|
  {
    if ks == [] then Empty else Bump(TallyOf(Init(ks)), Last(ks))
  }

  lemma TallyOfSnoc(ks: seq<string>, k: string)
    ensures TallyOf(ks + [k]) == Bump(TallyOf(ks), k)
  {
    assert Init(ks + [k]) == ks;
  }

  /** Number of times `k` occurs in `ks`. */
  function Count(ks: seq<string>, k: string): nat
    decreases |ks|
  {
    if ks == [] then 0 else Count(Init(ks), k) + (if Last(ks) == k then 1 else 0)
  }

  lemma {:induction false} CountAbsent(ks: seq<string>, k: string)
    requires k !in ks
    ensures Count(ks, k) == 0
  {
    if ks != [] {
      assert ks == Init(ks) + [Last(ks)];
      CountAbsent(Init(ks), k);
    }
  }

  /** Sum of the counts, in key order. */
  function Total(keys: seq<string>, counts: map<string, nat>): nat
    decreases |keys|
  {
    if keys == [] then 0
    else Total(Init(keys), counts) + (if Last(keys) in counts then counts[Last(keys)] else 0)
  }

  /** `t` counts each element of `ks`: exactly the elements are keys, and
      each count is the number of occurrences. */
  ghost predicate CountsOf(t: Tally, ks: seq<string>)
  {
    && (forall k :: k in t.counts <==> k in ks)
    && (forall k :: k in t.counts ==> t.counts[k] == Count(ks, k) >= 1)
  }

  lemma CountsSnoc(t: Tally, ks: seq<string>, x: string)
    requires CountsOf(t, ks)
    ensures CountsOf(Bump(t, x), ks + [x])
  {
    var r, ks' := Bump(t, x), ks + [x];
    assert Init(ks') == ks && Last(ks') == x;
    forall k ensures (k in r.counts <==> k in ks') && (k in r.counts ==> r.counts[k] == Count(ks', k) >= 1) {
      assert k in ks' <==> k in ks || k == x;
      if k != x {
        BumpOthers(t, x, k);
      } else if x !in ks {
        CountAbsent(ks, x);
      }
    }
  }

  /** The keys are exactly the keywords transferred under at least once, and
      each count is the number of those transfers, hence at least 1. */
  lemma {:induction false} TallyCounts(ks: seq<string>)
    ensures forall k :: k in TallyOf(ks).counts <==> k in ks
    ensures forall k :: k in TallyOf(ks).counts ==>
      TallyOf(ks).counts[k] == Count(ks, k) >= 1
  {
    if ks != [] {
      var pre, x := Init(ks), Last(ks);
      assert ks == pre + [x];
      assert TallyOf(ks) == Bump(TallyOf(pre), x);
      TallyCounts(pre);
      CountsSnoc(TallyOf(pre), pre, x);
    }
  }

  /** `keys` are elements of `s`, in order of first occurrence in `s`. */
  ghost predicate InFirstOrder(keys: seq<string>, s: seq<string>)
  {
    && (forall k :: k in keys ==> k in s)
    && (forall i, j :: 0 <= i < j < |keys| ==> FirstIndex(s, keys[i]) < FirstIndex(s, keys[j]))
  }

  /** Appending to `s` keeps the first occurrences of the keys. */
  lemma OrderSnoc(keys: seq<string>, s: seq<string>, x: string)
    requires InFirstOrder(keys, s)
    ensures InFirstOrder(keys, s + [x])
  {
    forall i, j | 0 <= i < j < |keys|
      ensures FirstIndex(s + [x], keys[i]) < FirstIndex(s + [x], keys[j])
    {
      FirstIndexInPrefix(s, keys[i], [x]);
      FirstIndexInPrefix(s, keys[j], [x]);
    }
  }

  /** An element new to `s`, appended to both, comes last. */
  lemma OrderSnocNew(keys: seq<string>, s: seq<string>, x: string)
    requires InFirstOrder(keys, s) && x !in s
    ensures InFirstOrder(keys + [x], s + [x])
  {
    var keys', s' := keys + [x], s + [x];
    FirstIndexAfter(s, x, []);
    assert s + [x] + [] == s';
    forall i, j | 0 <= i < j < |keys'|
      ensures FirstIndex(s', keys'[i]) < FirstIndex(s', keys'[j])
    {
      assert keys'[i] == keys[i];
      FirstIndexInPrefix(s, keys[i], [x]);
      if j < |keys| {
        assert keys'[j] == keys[j];
        FirstIndexInPrefix(s, keys[j], [x]);
      } else {
        assert keys'[j] == x;
      }
    }
  }

  /** Keys appear in the order of their first transfer. */
  lemma {:induction false} TallyOrder(ks: seq<string>)
    ensures InFirstOrder(TallyOf(ks).keys, ks)
  {
    if ks != [] {
      var pre, x := Init(ks), Last(ks);
      assert ks == pre + [x];
      assert TallyOf(ks) == Bump(TallyOf(pre), x);
      TallyOrder(pre);
      TallyCounts(pre);
      if x in TallyOf(pre).counts {
        OrderSnoc(TallyOf(pre).keys, pre, x);
      } else {
        OrderSnocNew(TallyOf(pre).keys, pre, x);
      }
    }
  }

  lemma {:induction false} TotalBumpOld(keys: seq<string>, counts: map<string, nat>, k: string)
    requires Distinct(keys) && k in keys && k in counts
    ensures Total(keys, counts[k := counts[k] + 1]) == Total(keys, counts) + 1
  {
    if Last(keys) == k {
      assert k !in Init(keys);
      TotalUnchanged(Init(keys), counts, k, counts[k] + 1);
    } else {
      TotalBumpOld(Init(keys), counts, k);
    }
  }

  lemma {:induction false} TotalUnchanged(keys: seq<string>, counts: map<string, nat>, k: string, c: nat)
    requires k !in keys
    ensures Total(keys, counts[k := c]) == Total(keys, counts)
  {
    if keys != [] {
      TotalUnchanged(Init(keys), counts, k, c);
    }
  }

  /** A bump adds one to the sum of the counts. */
  lemma TotalSnoc(t: Tally, x: string)
    requires Valid(t)
    ensures Total(Bump(t, x).keys, Bump(t, x).counts) == Total(t.keys, t.counts) + 1
  {
    if x in t.counts {
      TotalBumpOld(t.keys, t.counts, x);
    } else {
      var keys, counts := t.keys + [x], t.counts[x := 1];
      assert Init(keys) == t.keys && Last(keys) == x;
      assert Total(keys, counts) == Total(t.keys, counts) + 1;
      TotalUnchanged(t.keys, t.counts, x, 1);
    }
  }

  /** The counts add up to the number of transfers. */
  lemma {:induction false} TallyTotal(ks: seq<string>)
    ensures Total(TallyOf(ks).keys, TallyOf(ks).counts) == |ks|
  {
    if ks != [] {
      var pre, x := Init(ks), Last(ks);
      assert TallyOf(ks) == Bump(TallyOf(pre), x);
      TallyTotal(pre);
      TotalSnoc(TallyOf(pre), x);
    }
  }
}
