/**
 Ruby's Hash: an ordered association list with unique keys. The client reads
 hashes with `h[k]` and `key?`, and `commit` changes the caller's params hash
 in place with `delete` and `[]=`; `HashObject` is that mutable hash.
 */
module Hashes {
  import opened Objects

  type Pairs = seq<(Value, Value)>

  /** The keys in insertion order. */
  function Keys(h: Pairs): (ks: seq<Value>)
    ensures |ks| == |h|
  {
    if |h| == 0 then [] else [h[0].0] + Keys(h[1..])
  }

  /** Every key occurs once: what Ruby guarantees of every Hash. */
  predicate UniqueKeys(h: Pairs) {
    forall i, j :: 0 <= i < j < |h| ==> h[i].0 != h[j].0
  }

  /** `h.key?(k)` */
  predicate HasKey(h: Pairs, k: Value) {
    k in Keys(h)
  }

  /** `h[k]` for a hash without a default: the value stored under `k`, or nil. */
  function Get(h: Pairs, k: Value): (v: Value)
    ensures !HasKey(h, k) ==> v == Nil
    ensures HasKey(h, k) ==> (k, v) in h
  {
    if |h| == 0 then Nil
    else if h[0].0 == k then h[0].1
    else Get(h[1..], k)
  }

  /** The values in insertion order (`h.values`, and what `h.map { |_, v| v }` yields). */
  function Values(h: Pairs): (vs: seq<Value>)
    ensures |vs| == |h|
    ensures forall i :: 0 <= i < |h| ==> vs[i] == h[i].1
  {
    if |h| == 0 then [] else [h[0].1] + Values(h[1..])
  }

  /** The hash after `h[k] = v`: an existing entry keeps its place and takes
      the new value, a new key is appended. */
  function Stored(h: Pairs, k: Value, v: Value): (r: Pairs)
    ensures Keys(r) == if HasKey(h, k) then Keys(h) else Keys(h) + [k]
    ensures Get(r, k) == v
    ensures forall j :: j != k ==> Get(r, j) == Get(h, j)
    ensures UniqueKeys(h) ==> UniqueKeys(r)
  {
    if |h| == 0 then [(k, v)]
    else if h[0].0 == k then
      var r := [(k, v)] + h[1..];
      assert r[1..] == h[1..];
      KeysCons(h);
      KeysCons(r);
      assert UniqueKeys(h) ==> UniqueKeys(r) by {
        if UniqueKeys(h) { UniqueKeysTail(h); NotInKeys(h[1..], k); UniqueKeysCons((k, v), h[1..]); }
      }
      r
    else
      var rest := Stored(h[1..], k, v);
      var r := [h[0]] + rest;
      assert r[1..] == rest;
      KeysCons(h);
      KeysCons(r);
      assert UniqueKeys(h) ==> UniqueKeys(r) by {
        if UniqueKeys(h) {
          UniqueKeysTail(h);
          NotInKeys(h[1..], h[0].0);
          assert h[0].0 !in Keys(rest);
          UniqueKeysCons(h[0], rest);
        }
      }
      r
  }

  /** The hash after `h.delete(k)`: the entry for `k` is gone, every other
      entry stays, in the same order. */
  function Deleted(h: Pairs, k: Value): (r: Pairs)
    ensures !HasKey(r, k)
    ensures forall j :: j != k ==> HasKey(r, j) == HasKey(h, j)
    ensures forall j :: j != k ==> Get(r, j) == Get(h, j)
    ensures UniqueKeys(h) ==> UniqueKeys(r)
    ensures !HasKey(h, k) ==> r == h
    ensures UniqueKeys(h) ==> forall i :: 0 <= i < |h| && h[i].0 == k ==> r == h[..i] + h[i + 1..]
  {
    if |h| == 0 then []
    else
      var rest := Deleted(h[1..], k);
      if h[0].0 == k then
        DeletedHead(h, k, rest);
        rest
      else
        DeletedCons(h, k, rest);
        [h[0]] + rest
  }

  /** Everything `Deleted` promises, bundled for the two proof steps below. */
  ghost predicate IsDeletion(h: Pairs, k: Value, r: Pairs) {
    && !HasKey(r, k)
    && (forall j :: j != k ==> HasKey(r, j) == HasKey(h, j))
    && (forall j :: j != k ==> Get(r, j) == Get(h, j))
    && (UniqueKeys(h) ==> UniqueKeys(r))
    && (!HasKey(h, k) ==> r == h)
    && (UniqueKeys(h) ==> forall i :: 0 <= i < |h| && h[i].0 == k ==> r == h[..i] + h[i + 1..])
  }

  /** Deleting from a hash whose first key is `k`: the rest, with `k` deleted. */
  lemma DeletedHead(h: Pairs, k: Value, rest: Pairs)
    requires |h| > 0 && h[0].0 == k && IsDeletion(h[1..], k, rest)
    ensures IsDeletion(h, k, rest)
  {
    KeysCons(h);
    if UniqueKeys(h) {
      UniqueKeysTail(h);
      DeletedHeadUnique(h, k, rest);
    }
  }

  /** With unique keys, `k` occurs only at the head, and the rest does not hold it. */
  lemma DeletedHeadUnique(h: Pairs, k: Value, rest: Pairs)
    requires |h| > 0 && h[0].0 == k && UniqueKeys(h)
    requires !HasKey(h[1..], k) ==> rest == h[1..]
    ensures forall i :: 0 <= i < |h| && h[i].0 == k ==> rest == h[..i] + h[i + 1..]
  {
    NotInKeys(h[1..], k);
    forall i | 0 <= i < |h| && h[i].0 == k ensures rest == h[..i] + h[i + 1..] {
      assert i == 0;
    }
  }

  /** Deleting from a hash whose first key is not `k`: the first entry, then
      the rest with `k` deleted. */
  lemma DeletedCons(h: Pairs, k: Value, rest: Pairs)
    requires |h| > 0 && h[0].0 != k && IsDeletion(h[1..], k, rest)
    ensures IsDeletion(h, k, [h[0]] + rest)
  {
    var r := [h[0]] + rest;
    assert r[1..] == rest;
    KeysCons(h);
    KeysCons(r);
    assert forall j :: HasKey(r, j) <==> j == h[0].0 || HasKey(rest, j);
    if UniqueKeys(h) {
      UniqueKeysTail(h);
      NotInKeys(h[1..], h[0].0);
      assert HasKey(rest, h[0].0) == HasKey(h[1..], h[0].0);
      UniqueKeysCons(h[0], rest);
      forall i | 0 <= i < |h| && h[i].0 == k ensures r == h[..i] + h[i + 1..] {
        DeletedConsAt(h, rest, i);
      }
    }
    if !HasKey(h, k) {
      assert rest == h[1..];
    }
  }

  /** Removing entry i > 0 of `h` is keeping the first entry and removing
      entry i - 1 of the rest. */
  lemma DeletedConsAt(h: Pairs, rest: Pairs, i: int)
    requires 0 < i < |h| && rest == h[1..][..i - 1] + h[1..][i..]
    ensures [h[0]] + rest == h[..i] + h[i + 1..]
  {
    assert h[..i] == [h[0]] + h[1..][..i - 1];
    assert h[i + 1..] == h[1..][i..];
  }

  lemma KeysCons(h: Pairs)
    requires |h| > 0
    ensures Keys(h) == [h[0].0] + Keys(h[1..])
  {
  }

  lemma UniqueKeysTail(h: Pairs)
    requires |h| > 0 && UniqueKeys(h)
    ensures UniqueKeys(h[1..])
  {
    var t := h[1..];
    forall i, j | 0 <= i < j < |t| ensures t[i].0 != t[j].0 {
      assert t[i] == h[i + 1] && t[j] == h[j + 1];
    }
  }

  lemma {:induction false} NotInKeys(t: Pairs, k: Value)
    requires forall i :: 0 <= i < |t| ==> t[i].0 != k
    ensures k !in Keys(t)
  {
    if |t| > 0 { NotInKeys(t[1..], k); }
  }

  lemma {:induction false} KeysAt(t: Pairs, i: int)
    requires 0 <= i < |t|
    ensures Keys(t)[i] == t[i].0
  {
    if i > 0 { KeysAt(t[1..], i - 1); }
  }

  lemma UniqueKeysCons(p: (Value, Value), t: Pairs)
    requires UniqueKeys(t) && p.0 !in Keys(t)
    ensures UniqueKeys([p] + t)
  {
    var h := [p] + t;
    forall i, j | 0 <= i < j < |h| ensures h[i].0 != h[j].0 {
      if i == 0 { KeysAt(t, j - 1); }
    }
  }

  /** The caller's params hash, which the client changes in place. */
  class HashObject {
    var pairs: Pairs

    ghost predicate Valid()
      reads this
    {
      UniqueKeys(pairs)
    }

    constructor (pairs: Pairs)
      requires UniqueKeys(pairs)
      ensures Valid() && this.pairs == pairs
    {
      this.pairs := pairs;
    }

    /** `h.delete(k)`: removes the entry and returns its value (nil when absent). */
    method Delete(k: Value) returns (v: Value)
      requires Valid()
      modifies this
      ensures Valid()
      ensures v == Get(old(pairs), k)
      ensures pairs == Deleted(old(pairs), k)
    {
      v := Get(pairs, k);
      pairs := Deleted(pairs, k);
    }

    /** `h[k] = v` */
    method Store(k: Value, v: Value)
      requires Valid()
      modifies this
      ensures Valid()
      ensures pairs == Stored(old(pairs), k, v)
    {
      pairs := Stored(pairs, k, v);
    }
  }
}
