/**
  Grouping and counting over a table scan. An `Entry` is one scanned item:
  the key it is grouped under and the amount it adds (1 per row, or a
  pre-grouped count). A Python dict filled while scanning keeps its keys in
  order of first appearance; `Order` is that order, `WeightOf` a key's
  accumulated amount, and `Tallies` the dict's items.
 */
module Tally {

  datatype Entry = Entry(key: string, weight: nat)

  function Weight(e: Entry): nat {
    e.weight
  }

  function Key(e: Entry): string {
    e.key
  }

  function KeySet(es: seq<Entry>): set<string> {
    set e | e in es :: e.key
  }

  predicate Distinct(ks: seq<string>) {
    forall i, j :: 0 <= i < j < |ks| ==> ks[i] != ks[j]
  }

  /** Keys in order of first appearance, each once. */
  function Order(es: seq<Entry>): (ks: seq<string>)
    ensures Distinct(ks)
    ensures forall k :: k in ks <==> k in KeySet(es)
    decreases |es|
  {
    if es == [] then []
    else
      var p := Order(es[..|es| - 1]);
      var k := es[|es| - 1].key;
      assert es == es[..|es| - 1] + [es[|es| - 1]];
      if k in p then p else p + [k]
  }

  /** The total amount scanned under key `k`. */
  function WeightOf(es: seq<Entry>, k: string): nat
    decreases |es|
  {
    if es == [] then 0
    else WeightOf(es[..|es| - 1], k) + (if es[|es| - 1].key == k then es[|es| - 1].weight else 0)
  }

  /** The total amount scanned. */
  function Total(es: seq<Entry>): nat
    decreases |es|
  {
    if es == [] then 0 else Total(es[..|es| - 1]) + es[|es| - 1].weight
  }

  /** The grouped result: one entry per key, in first-seen order, carrying the key's total. */
  function Tallies(es: seq<Entry>): seq<Entry> {
    var ks := Order(es);
    seq(|ks|, i requires 0 <= i < |ks| => Entry(ks[i], WeightOf(es, ks[i])))
  }

  // ---------------------------------------------------------------- one more item

  lemma OrderSnoc(es: seq<Entry>, e: Entry)
    ensures Order(es + [e]) == if e.key in Order(es) then Order(es) else Order(es) + [e.key]
  {
    assert (es + [e])[..|es|] == es;
  }

  lemma WeightOfSnoc(es: seq<Entry>, e: Entry, k: string)
    ensures WeightOf(es + [e], k) == WeightOf(es, k) + (if e.key == k then e.weight else 0)
  {
    assert (es + [e])[..|es|] == es;
  }

  lemma TotalSnoc(es: seq<Entry>, e: Entry)
    ensures Total(es + [e]) == Total(es) + e.weight
  {
    assert (es + [e])[..|es|] == es;
  }

  lemma KeySetSnoc(es: seq<Entry>, e: Entry)
    ensures KeySet(es + [e]) == KeySet(es) + {e.key}
  {
  }

  /** A key never scanned has no weight. */
  lemma {:induction false} WeightOfAbsent(es: seq<Entry>, k: string)
    requires k !in KeySet(es)
    ensures WeightOf(es, k) == 0
    decreases |es|
  {
    if es != [] {
      var p := es[..|es| - 1];
      assert es == p + [es[|es| - 1]];
      KeySetSnoc(p, es[|es| - 1]);
      WeightOfAbsent(p, k);
    }
  }

  /** With weights of 1, a key that was scanned has a positive count. */
  lemma {:induction false} WeightOfPresent(es: seq<Entry>, k: string)
    requires forall i :: 0 <= i < |es| ==> es[i].weight >= 1
    requires k in KeySet(es)
    ensures WeightOf(es, k) >= 1
    decreases |es|
  {
    var p := es[..|es| - 1];
    assert es == p + [es[|es| - 1]];
    KeySetSnoc(p, es[|es| - 1]);
    if es[|es| - 1].key != k {
      WeightOfPresent(p, k);
    }
  }

  // ---------------------------------------------------------------- conservation

  /** The sum of the per-key totals over a list of keys. */
  function SumFor(ks: seq<string>, es: seq<Entry>): nat
    decreases |ks|
  {
    if ks == [] then 0 else SumFor(ks[..|ks| - 1], es) + WeightOf(es, ks[|ks| - 1])
  }

  /** Adding the last item to a sum over distinct keys adds its weight once, if its key is listed. */
  lemma {:induction false} SumForLast(ks: seq<string>, es: seq<Entry>)
    requires Distinct(ks) && es != []
    ensures SumFor(ks, es) == SumFor(ks, es[..|es| - 1]) + (if es[|es| - 1].key in ks then es[|es| - 1].weight else 0)
    decreases |ks|
  {
    if ks != [] {
      var q := ks[..|ks| - 1];
      assert ks == q + [ks[|ks| - 1]];
      SumForLast(q, es);
    }
  }

  lemma {:induction false} SumForAppend(ks: seq<string>, k: string, es: seq<Entry>)
    ensures SumFor(ks + [k], es) == SumFor(ks, es) + WeightOf(es, k)
  {
    assert (ks + [k])[..|ks|] == ks;
  }

  /** Summing the per-key totals over the first-seen keys gives the whole amount scanned. */
  lemma {:induction false} OrderConserves(es: seq<Entry>)
    ensures SumFor(Order(es), es) == Total(es)
    decreases |es|
  {
    if es != [] {
      var p := es[..|es| - 1];
      var e := es[|es| - 1];
      OrderConserves(p);
      SumForLast(Order(p), es);
      if e.key !in Order(p) {
        SumForAppend(Order(p), e.key, es);
        WeightOfAbsent(p, e.key);
      }
    }
  }

  lemma {:induction false} TotalOfListing(ts: seq<Entry>, ks: seq<string>, es: seq<Entry>)
    requires |ts| == |ks|
    requires forall i :: 0 <= i < |ts| ==> ts[i] == Entry(ks[i], WeightOf(es, ks[i]))
    ensures Total(ts) == SumFor(ks, es)
    decreases |ts|
  {
    if ts != [] {
      TotalOfListing(ts[..|ts| - 1], ks[..|ks| - 1], es);
    }
  }

  /**
    Grouping conserves the amount: the totals of the groups add up to the
    total of the items, so every item is counted in exactly one group.
   */
  lemma TalliesConserve(es: seq<Entry>)
    ensures Total(Tallies(es)) == Total(es)
  {
    TotalOfListing(Tallies(es), Order(es), es);
    OrderConserves(es);
  }

  /** The groups are the distinct keys, each with its own total. */
  lemma TalliesListing(es: seq<Entry>)
    ensures |Tallies(es)| == |Order(es)|
    ensures forall i, j :: 0 <= i < j < |Tallies(es)| ==> Tallies(es)[i].key != Tallies(es)[j].key
    ensures forall k :: k in KeySet(Tallies(es)) <==> k in KeySet(es)
    ensures forall t :: t in Tallies(es) ==> t.weight == WeightOf(es, t.key)
  {
    var ts, ks := Tallies(es), Order(es);
    forall k ensures k in KeySet(ts) <==> k in KeySet(es) {
      if k in KeySet(es) {
        var i :| 0 <= i < |ks| && ks[i] == k;
        assert ts[i] in ts;
      }
    }
  }

  lemma TalliesKeys(es: seq<Entry>)
    ensures KeySet(Tallies(es)) == KeySet(es)
  {
    TalliesListing(es);
  }

  /** There is one group per distinct key. */
  lemma TalliesSize(es: seq<Entry>)
    ensures |Tallies(es)| == |KeySet(es)|
  {
    var ks := Order(es);
    DistinctCard(ks);
    assert (set k | k in ks) == KeySet(es);
  }

  lemma {:induction false} DistinctCard(ks: seq<string>)
    requires Distinct(ks)
    ensures |set k | k in ks| == |ks|
    decreases |ks|
  {
    if ks != [] {
      var p := ks[..|ks| - 1];
      assert ks == p + [ks[|ks| - 1]];
      DistinctCard(p);
      assert (set k | k in ks) == (set k | k in p) + {ks[|ks| - 1]};
    }
  }

  // ---------------------------------------------------------------- the scanning loop

  /** The loop's state after scanning `es`: the dict's keys in insertion order and its counts. */
  ghost predicate Accumulated(es: seq<Entry>, order: seq<string>, counts: map<string, nat>) {
    order == Order(es) && forall k :: k in order ==> k in counts && counts[k] == WeightOf(es, k)
  }

  /** Scanning an item whose key the dict already holds adds its weight to that key. */
  lemma AccumulateOld(es: seq<Entry>, k: string, w: nat, order: seq<string>, counts: map<string, nat>)
    requires es != [] && es[|es| - 1] == Entry(k, w) && Accumulated(es[..|es| - 1], order, counts)
    requires k in order
    ensures Accumulated(es, order, counts[k := counts[k] + w])
  {
  }

  /** Scanning an item with a new key appends the key with count 0, then adds the item's weight. */
  lemma AccumulateNew(es: seq<Entry>, k: string, w: nat, order: seq<string>, counts: map<string, nat>)
    requires es != [] && es[|es| - 1] == Entry(k, w) && Accumulated(es[..|es| - 1], order, counts)
    requires k !in order
    ensures Accumulated(es, order + [k], counts[k := 0][k := counts[k := 0][k] + w])
  {
    WeightOfAbsent(es[..|es| - 1], k);
  }

  // ---------------------------------------------------------------- first-seen order

  /** The position of the first item scanned under key `k`. */
  function FirstIndex(es: seq<Entry>, k: string): (i: nat)
    requires k in KeySet(es)
    ensures i < |es| && es[i].key == k
    ensures forall j :: 0 <= j < i ==> es[j].key != k
    decreases |es|
  {
    if es[0].key == k then 0
    else
      assert k in KeySet(es[1..]) by {
        var e :| e in es && e.key == k;
        var j :| 0 <= j < |es| && es[j] == e;
        assert es[1..][j - 1] == e;
      }
      1 + FirstIndex(es[1..], k)
  }

  lemma FirstIndexSnoc(es: seq<Entry>, e: Entry, k: string)
    requires k in KeySet(es)
    ensures k in KeySet(es + [e]) && FirstIndex(es + [e], k) == FirstIndex(es, k)
  {
    var i := FirstIndex(es, k);
    assert (es + [e])[i] == es[i];
    assert forall j :: 0 <= j < i ==> (es + [e])[j] == es[j];
  }

  /**
    `Order` lists the keys by the position of their first item: this is the
    order in which a dict filled during the scan holds its keys.
   */
  lemma {:induction false} OrderIsFirstSeen(es: seq<Entry>)
    ensures forall i, j :: 0 <= i < j < |Order(es)| ==> FirstIndex(es, Order(es)[i]) < FirstIndex(es, Order(es)[j])
    decreases |es|
  {
    if es != [] {
      var p := es[..|es| - 1];
      OrderIsFirstSeen(p);
      FirstSeenStep(p, es[|es| - 1]);
      assert es == p + [es[|es| - 1]];
    }
  }

  lemma FirstSeenStep(p: seq<Entry>, e: Entry)
    requires forall i, j :: 0 <= i < j < |Order(p)| ==> FirstIndex(p, Order(p)[i]) < FirstIndex(p, Order(p)[j])
    ensures forall i, j :: 0 <= i < j < |Order(p + [e])| ==> FirstIndex(p + [e], Order(p + [e])[i]) < FirstIndex(p + [e], Order(p + [e])[j])
  {
    var es := p + [e];
    OrderSnoc(p, e);
    var ks, ps := Order(es), Order(p);
    forall i, j | 0 <= i < j < |ks| ensures FirstIndex(es, ks[i]) < FirstIndex(es, ks[j]) {
      FirstIndexSnoc(p, e, ks[i]);
      if j < |ps| {
        FirstIndexSnoc(p, e, ks[j]);
      } else {
        NewKeyLast(p, e);
      }
    }
  }

  /** A key met for the first time in the last item is first seen there. */
  lemma NewKeyLast(p: seq<Entry>, e: Entry)
    requires e.key !in KeySet(p)
    ensures FirstIndex(p + [e], e.key) == |p|
  {
  }

  // ---------------------------------------------------------------- helpers on sequences

  /** A sequence has at least as many positions as it has distinct elements. */
  lemma {:induction false} SetOfSeqBound<T>(s: seq<T>)
    ensures |set x | x in s| <= |s|
    decreases |s|
  {
    if s != [] {
      var p := s[..|s| - 1];
      assert s == p + [s[|s| - 1]];
      SetOfSeqBound(p);
      assert (set x | x in s) == (set x | x in p) + {s[|s| - 1]};
    }
  }

  /** The same for the image of a sequence under a function. */
  lemma {:induction false} ImageBound<T, U>(s: seq<T>, f: T -> U)
    ensures |set x | x in s :: f(x)| <= |s|
    decreases |s|
  {
    if s != [] {
      var p := s[..|s| - 1];
      assert s == p + [s[|s| - 1]];
      ImageBound(p, f);
      assert (set x | x in s :: f(x)) == (set x | x in p :: f(x)) + {f(s[|s| - 1])};
    }
  }
}
