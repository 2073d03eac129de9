/**
 * The parsed reply's findings: a Python dict from finding name to value, which
 * remembers insertion order. Assigning an existing key replaces its value and
 * keeps its position; a new key goes at the end.
 */
module Findings {
  import opened Options

  /** An insertion-ordered dict as the list of its entries. */
  type Dict = seq<(string, string)>

  /** The keys in entry order. */
  function Keys(d: Dict): (ks: seq<string>)
    ensures |ks| == |d|
    ensures forall i :: 0 <= i < |d| ==> ks[i] == d[i].0
  {
    seq(|d|, i requires 0 <= i < |d| => d[i].0)
  }

  /** No key is listed twice, as in every Python dict. */
  predicate DistinctKeys(d: Dict) {
    forall i, j :: 0 <= i < j < |d| ==> d[i].0 != d[j].0
  }

  /** The position of key `k` in `d`, or `|d|` when `k` is absent. */
  function KeyIndex(d: Dict, k: string): (i: nat)
    ensures i <= |d|
    ensures i < |d| ==> d[i].0 == k
    ensures forall j :: 0 <= j < i ==> d[j].0 != k
    decreases |d|
  {
    if |d| == 0 then 0 else if d[0].0 == k then 0 else 1 + KeyIndex(d[1..], k)
  }

  /** The position of a key is determined by the keys alone. */
  lemma KeyIndexUnique(d: Dict, k: string, i: nat)
    requires i <= |d|
    requires i < |d| ==> d[i].0 == k
    requires forall j :: 0 <= j < i ==> d[j].0 != k
    ensures KeyIndex(d, k) == i
  {
  }

  /** `d.get(k)`. */
  function Lookup(d: Dict, k: string): (r: Option<string>)
    ensures r.None? <==> k !in Keys(d)
    ensures r.Some? ==> (k, r.value) in d
  {
    var i := KeyIndex(d, k);
    if i < |d| then Some(d[i].1) else None
  }

  /** `d[k] = v`. */
  function Put(d: Dict, k: string, v: string): (r: Dict)
    ensures Lookup(r, k) == Some(v)
    ensures forall k' :: k' != k ==> Lookup(r, k') == Lookup(d, k')
    ensures k in Keys(d) ==> Keys(r) == Keys(d)
    ensures k !in Keys(d) ==> Keys(r) == Keys(d) + [k]
    ensures DistinctKeys(d) ==> DistinctKeys(r)
  {
    var i := KeyIndex(d, k);
    if i < |d| then
      PutReplaces(d, k, v, i);
      d[i := (k, v)]
    else
      PutAppends(d, k, v);
      d + [(k, v)]
  }

  /** Assigning a present key replaces its entry in place. */
  lemma PutReplaces(d: Dict, k: string, v: string, i: nat)
    requires i == KeyIndex(d, k) && i < |d|
    ensures Lookup(d[i := (k, v)], k) == Some(v)
    ensures forall k' :: k' != k ==> Lookup(d[i := (k, v)], k') == Lookup(d, k')
    ensures Keys(d[i := (k, v)]) == Keys(d)
  {
    var r := d[i := (k, v)];
    KeyIndexUnique(r, k, i);
    forall k' | k' != k ensures KeyIndex(r, k') == KeyIndex(d, k') {
      KeyIndexUnique(r, k', KeyIndex(d, k'));
    }
    assert Keys(r) == Keys(d);
  }

  /** Assigning an absent key appends an entry. */
  lemma PutAppends(d: Dict, k: string, v: string)
    requires KeyIndex(d, k) == |d|
    ensures Lookup(d + [(k, v)], k) == Some(v)
    ensures forall k' :: k' != k ==> Lookup(d + [(k, v)], k') == Lookup(d, k')
    ensures Keys(d + [(k, v)]) == Keys(d) + [k]
  {
    var r := d + [(k, v)];
    KeyIndexUnique(r, k, |d|);
    forall k' | k' != k ensures Lookup(r, k') == Lookup(d, k') {
      var j := KeyIndex(d, k');
      if j == |d| {
        KeyIndexUnique(r, k', |r|);
      } else {
        KeyIndexUnique(r, k', j);
      }
    }
    assert Keys(r) == Keys(d) + [k];
  }

  /** The assignments `d[k] = v` for the pairs of `ps`, left to right. */
  function PutAll(d: Dict, ps: seq<(string, string)>): (r: Dict)
    ensures DistinctKeys(d) ==> DistinctKeys(r)
    ensures |ps| > 0 ==> |r| > 0
    decreases |ps|
  {
    if |ps| == 0 then d
    else
      var last := ps[|ps| - 1];
      Put(PutAll(d, ps[..|ps| - 1]), last.0, last.1)
  }

  /** The value of the last pair of `ps` with key `k`: a reference for repeated assignment. */
  function LastValue(ps: seq<(string, string)>, k: string): Option<string>
  {
    if |ps| == 0 then None
    else if ps[|ps| - 1].0 == k then Some(ps[|ps| - 1].1)
    else LastValue(ps[..|ps| - 1], k)
  }

  /** The index of the first occurrence of `k` in `ks`. */
  function FirstIndex(ks: seq<string>, k: string): (i: nat)
    requires k in ks
    ensures i < |ks| && ks[i] == k
    ensures forall j :: 0 <= j < i ==> ks[j] != k
  {
    if ks[0] == k then 0 else 1 + FirstIndex(ks[1..], k)
  }

  lemma FirstIndexAppend(ks: seq<string>, x: string, k: string)
    requires k in ks
    ensures FirstIndex(ks + [x], k) == FirstIndex(ks, k)
  {
    var i := FirstIndex(ks, k);
    var i' := FirstIndex(ks + [x], k);
    assert (ks + [x])[i] == k;
    assert i' <= i;
    assert ks[i'] == k;
  }

  /** Later assignments to a key win: each key ends up with its last assigned value. */
  lemma {:induction false} PutAllLookup(d: Dict, ps: seq<(string, string)>, k: string)
    ensures Lookup(PutAll(d, ps), k) == (if LastValue(ps, k).Some? then LastValue(ps, k) else Lookup(d, k))
    decreases |ps|
  {
    if |ps| > 0 {
      PutAllLookup(d, ps[..|ps| - 1], k);
    }
  }

  /**
   * `r` lists the keys of `all` once each, in the order of their first occurrence in `all`.
   */
  ghost predicate FirstOccurrenceOrder(r: Dict, all: seq<string>) {
    && DistinctKeys(r)
    && (forall k :: k in Keys(r) <==> k in all)
    && (forall i, j :: 0 <= i < j < |r| ==> FirstIndex(all, r[i].0) < FirstIndex(all, r[j].0))
  }

  /** A dict with distinct keys lists its own keys in first-occurrence order. */
  lemma OrderOfDistinct(d: Dict)
    requires DistinctKeys(d)
    ensures FirstOccurrenceOrder(d, Keys(d))
  {
    forall i | 0 <= i < |d| ensures FirstIndex(Keys(d), d[i].0) == i {
      assert Keys(d)[i] == d[i].0;
    }
  }

  lemma AppendAssoc(a: seq<string>, b: seq<string>, c: seq<string>)
    ensures a + (b + c) == (a + b) + c
  {
  }

  lemma PutOrderExisting(r0: Dict, all0: seq<string>, k: string, v: string)
    requires FirstOccurrenceOrder(r0, all0)
    requires k in Keys(r0)
    ensures FirstOccurrenceOrder(Put(r0, k, v), all0 + [k])
  {
    var r := Put(r0, k, v);
    var all := all0 + [k];
    assert Keys(r) == Keys(r0);
    assert DistinctKeys(r);
    assert forall x :: x in Keys(r) <==> x in all;
    forall i, j | 0 <= i < j < |r| ensures FirstIndex(all, r[i].0) < FirstIndex(all, r[j].0) {
      assert r[i].0 == Keys(r0)[i] == r0[i].0;
      assert r[j].0 == Keys(r0)[j] == r0[j].0;
      FirstIndexAppend(all0, k, r[i].0);
      FirstIndexAppend(all0, k, r[j].0);
    }
  }

  lemma PutOrderNew(r0: Dict, all0: seq<string>, k: string, v: string)
    requires FirstOccurrenceOrder(r0, all0)
    requires k !in Keys(r0)
    ensures FirstOccurrenceOrder(Put(r0, k, v), all0 + [k])
  {
    var r := Put(r0, k, v);
    var all := all0 + [k];
    assert Keys(r) == Keys(r0) + [k];
    assert DistinctKeys(r);
    assert forall x :: x in Keys(r) <==> x in all;
    assert k !in all0;
    assert FirstIndex(all, k) == |all0|;
    forall i, j | 0 <= i < j < |r| ensures FirstIndex(all, r[i].0) < FirstIndex(all, r[j].0) {
      assert r[i].0 == Keys(r0)[i] == r0[i].0;
      FirstIndexAppend(all0, k, r[i].0);
      if j < |r0| {
        assert r[j].0 == Keys(r0)[j] == r0[j].0;
        FirstIndexAppend(all0, k, r[j].0);
      }
    }
  }

  lemma PutOrder(r0: Dict, all0: seq<string>, k: string, v: string)
    requires FirstOccurrenceOrder(r0, all0)
    ensures FirstOccurrenceOrder(Put(r0, k, v), all0 + [k])
  {
    if k in Keys(r0) {
      PutOrderExisting(r0, all0, k, v);
    } else {
      PutOrderNew(r0, all0, k, v);
    }
  }

  /**
   * The keys of the result are the distinct keys of `d` followed by those of `ps`,
   * each at the place of its first occurrence: a repeated key keeps its first position.
   */
  lemma {:induction false} PutAllOrder(d: Dict, ps: seq<(string, string)>)
    requires DistinctKeys(d)
    ensures FirstOccurrenceOrder(PutAll(d, ps), Keys(d) + Keys(ps))
    decreases |ps|
  {
    var r := PutAll(d, ps);
    var all := Keys(d) + Keys(ps);
    if |ps| == 0 {
      assert all == Keys(d);
      OrderOfDistinct(d);
    } else {
      var init := ps[..|ps| - 1];
      var last := ps[|ps| - 1];
      PutAllOrder(d, init);
      assert Keys(ps) == Keys(init) + [last.0];
      assert all == (Keys(d) + Keys(init)) + [last.0] by {
        AppendAssoc(Keys(d), Keys(init), [last.0]);
      }
      PutOrder(PutAll(d, init), Keys(d) + Keys(init), last.0, last.1);
    }
  }
}
