/** PHP's ordered associative array with string keys, as the client uses it
    for request parameters, response headers and directory listings.
    Assigning to a present key replaces its value where it stands; assigning
    to a new key appends it; `unset` removes it. */
module PhpArray {
  import opened Wrappers

  type Array<V> = seq<(string, V)>

  /** No key occurs twice: every PHP array has this shape. */
  predicate UniqueKeys<V>(a: Array<V>) {
    |a| == 0 || (a[0].0 !in Keys(a[1..]) && UniqueKeys(a[1..]))
  }

  /** The keys in array order. */
  function Keys<V>(a: Array<V>): (ks: seq<string>)
    ensures |ks| == |a|
    ensures forall i :: 0 <= i < |a| ==> ks[i] == a[i].0
  {
    if |a| == 0 then [] else [a[0].0] + Keys(a[1..])
  }

  /** `$a[$k]`, or None when `isset($a[$k])` is false. */
  function Get<V>(a: Array<V>, k: string): (r: Option<V>)
    ensures r.None? <==> k !in Keys(a)
  {
    if |a| == 0 then None
    else if a[0].0 == k then Some(a[0].1)
    else Get(a[1..], k)
  }

  /** `$a[$k] = $v`. */
  function Put<V>(a: Array<V>, k: string, v: V): Array<V>
  {
    if |a| == 0 then [(k, v)]
    else if a[0].0 == k then [(k, v)] + a[1..]
    else [a[0]] + Put(a[1..], k, v)
  }

  /** After an assignment the key reads back the assigned value and every
      other key reads as before. */
  lemma {:induction false} PutGet<V>(a: Array<V>, k: string, v: V)
    ensures Get(Put(a, k, v), k) == Some(v)
    ensures forall k' :: k' != k ==> Get(Put(a, k, v), k') == Get(a, k')
  {
    if |a| > 0 {
      var r := Put(a, k, v);
      if a[0].0 == k {
        assert r[1..] == a[1..];
      } else {
        PutGet(a[1..], k, v);
        assert r[1..] == Put(a[1..], k, v);
      }
    }
  }

  /** An assignment to a present key replaces its value where it stands; an
      assignment to a new key appends it. */
  lemma {:induction false} PutKeys<V>(a: Array<V>, k: string, v: V)
    ensures Keys(Put(a, k, v)) == if k in Keys(a) then Keys(a) else Keys(a) + [k]
    ensures k !in Keys(a) ==> Put(a, k, v) == a + [(k, v)]
  {
    if |a| > 0 {
      var r := Put(a, k, v);
      assert Keys(a) == [a[0].0] + Keys(a[1..]);
      if a[0].0 == k {
        assert Keys(r) == [k] + Keys(a[1..]);
      } else {
        var rest := Put(a[1..], k, v);
        PutKeys(a[1..], k, v);
        assert r[1..] == rest;
        assert Keys(r) == [a[0].0] + Keys(rest);
        if k !in Keys(a) {
          assert Keys(r) == [a[0].0] + (Keys(a[1..]) + [k]);
          assert r == [a[0]] + (a[1..] + [(k, v)]);
        }
      }
    }
  }

  /** Assigning into a PHP array yields a PHP array. */
  lemma {:induction false} PutUnique<V>(a: Array<V>, k: string, v: V)
    requires UniqueKeys(a)
    ensures UniqueKeys(Put(a, k, v))
  {
    if |a| > 0 {
      var r := Put(a, k, v);
      if a[0].0 == k {
        assert r[1..] == a[1..];
      } else {
        var rest := Put(a[1..], k, v);
        PutUnique(a[1..], k, v);
        PutKeys(a[1..], k, v);
        assert r[1..] == rest;
        assert a[0].0 !in Keys(rest);
      }
    }
  }

  /** The keys `ks` without `k`, the others in their order. */
  function Without(ks: seq<string>, k: string): (r: seq<string>)
  {
    if |ks| == 0 then [] else (if ks[0] == k then [] else [ks[0]]) + Without(ks[1..], k)
  }

  /** `unset($a[$k])`: the key is gone, and every other pair stays, in its
      place; an absent key leaves the array as it is. */
  function Unset<V>(a: Array<V>, k: string): (r: Array<V>)
    ensures Get(r, k) == None
    ensures forall k' :: k' != k ==> Get(r, k') == Get(a, k')
    ensures UniqueKeys(a) ==> UniqueKeys(r)
    ensures forall i :: 0 <= i < |r| ==> r[i] in a
    ensures k !in Keys(a) ==> r == a
  {
    if |a| == 0 then []
    else if a[0].0 == k then Unset(a[1..], k)
    else
      var rest := Unset(a[1..], k);
      assert forall i :: 0 <= i < |rest| ==> rest[i] in a[1..];
      [a[0]] + rest
  }

  /** `unset` keeps the other keys in their order. */
  lemma {:induction false} KeyOrderAfterUnset<V>(a: Array<V>, k: string)
    ensures Keys(Unset(a, k)) == Without(Keys(a), k)
  {
    if |a| > 0 {
      KeyOrderAfterUnset(a[1..], k);
      assert Keys(a)[1..] == Keys(a[1..]);
      if a[0].0 != k {
        var r := Unset(a, k);
        assert r[1..] == Unset(a[1..], k);
      }
    }
  }

  /** Where the first pair with key `k` stands. */
  function KeyIndex<V>(a: Array<V>, k: string): (i: nat)
    requires k in Keys(a)
    ensures i < |a| && a[i].0 == k
    ensures forall j :: 0 <= j < i ==> a[j].0 != k
  {
    if a[0].0 == k then 0 else 1 + KeyIndex(a[1..], k)
  }

  /** With unique keys, `unset` of a present key cuts exactly its one pair
      out. */
  lemma {:induction false} CutByUnset<V>(a: Array<V>, k: string)
    requires UniqueKeys(a) && k in Keys(a)
    ensures Unset(a, k) == a[..KeyIndex(a, k)] + a[KeyIndex(a, k) + 1..]
  {
    var tail := a[1..];
    if a[0].0 == k {
      assert k !in Keys(tail);
      assert Unset(a, k) == tail;
      assert a[..0] == [];
    } else {
      assert k in Keys(tail);
      var j := KeyIndex(tail, k);
      assert KeyIndex(a, k) == j + 1;
      CutByUnset(tail, k);
      assert Unset(a, k) == [a[0]] + Unset(tail, k);
      ConsCut(a, j);
    }
  }

  /** Cutting element `j` out of a sequence's tail and putting the head back
      cuts element `j + 1` out of the whole. */
  lemma ConsCut<T>(a: seq<T>, j: nat)
    requires j + 1 < |a|
    ensures [a[0]] + (a[1..][..j] + a[1..][j + 1..]) == a[..j + 1] + a[j + 2..]
  {
    assert a[1..][..j] == a[1..j + 1];
    assert a[..j + 1] == [a[0]] + a[1..j + 1];
  }

  /** The array after assigning every pair of `ps`, in order, onto `a`. */
  function PutAll<V>(a: Array<V>, ps: seq<(string, V)>): Array<V>
  {
    if |ps| == 0 then a
    else
      var last := ps[|ps| - 1];
      Put(PutAll(a, ps[..|ps| - 1]), last.0, last.1)
  }

  /** The value of the last pair of `ps` whose key is `k`. */
  function LastValue<V>(ps: seq<(string, V)>, k: string): (r: Option<V>)
    ensures r.Some? ==> exists i :: 0 <= i < |ps| && ps[i] == (k, r.value)
    ensures r.None? ==> forall i :: 0 <= i < |ps| ==> ps[i].0 != k
  {
    if |ps| == 0 then None
    else if ps[|ps| - 1].0 == k then Some(ps[|ps| - 1].1)
    else LastValue(ps[..|ps| - 1], k)
  }

  /** Successive assignments: the last assignment to a key wins, and keys
      nobody assigned keep their old value. */
  lemma {:induction false} PutAllLastWins<V>(a: Array<V>, ps: seq<(string, V)>, k: string)
    ensures Get(PutAll(a, ps), k) == match LastValue(ps, k) case Some(v) => Some(v) case None => Get(a, k)
  {
    if |ps| > 0 {
      var last := ps[|ps| - 1];
      PutAllLastWins(a, ps[..|ps| - 1], k);
      PutGet(PutAll(a, ps[..|ps| - 1]), last.0, last.1);
    }
  }

  /** Successive assignments onto a PHP array yield a PHP array. */
  lemma {:induction false} PutAllUnique<V>(a: Array<V>, ps: seq<(string, V)>)
    requires UniqueKeys(a)
    ensures UniqueKeys(PutAll(a, ps))
  {
    if |ps| > 0 {
      var last := ps[|ps| - 1];
      PutAllUnique(a, ps[..|ps| - 1]);
      PutUnique(PutAll(a, ps[..|ps| - 1]), last.0, last.1);
    }
  }

  /** The keys after successive assignments are the old keys together with
      the newly assigned ones. */
  lemma {:induction false} PutAllKeys<V>(a: Array<V>, ps: seq<(string, V)>)
    ensures forall k :: k in Keys(PutAll(a, ps)) <==> k in Keys(a) || k in Keys(ps)
  {
    if |ps| > 0 {
      var init := ps[..|ps| - 1];
      var last := ps[|ps| - 1];
      var before := PutAll(a, init);
      forall k
        ensures k in Keys(PutAll(a, ps)) <==> k in Keys(a) || k in Keys(ps)
      {
        assert k in Keys(ps) <==> k in Keys(init) || k == last.0 by {
          assert Keys(ps) == Keys(init) + [last.0];
        }
        assert k in Keys(PutAll(a, ps)) <==> k in Keys(before) || k == last.0 by {
          PutKeys(before, last.0, last.1);
          assert PutAll(a, ps) == Put(before, last.0, last.1);
        }
        assert k in Keys(before) <==> k in Keys(a) || k in Keys(init) by {
          PutAllKeys(a, init);
        }
      }
    }
  }

  /** The distinct keys of `ks`, each where it first occurs. */
  function FirstOccurrences(ks: seq<string>): seq<string>
  {
    if |ks| == 0 then []
    else
      var init := FirstOccurrences(ks[..|ks| - 1]);
      if ks[|ks| - 1] in init then init else init + [ks[|ks| - 1]]
  }

  /** Successive assignments onto an empty array keep each key where it was
      first assigned: later assignments to it change its value, not its place. */
  lemma {:induction false} PutAllKeyOrder<V>(ps: seq<(string, V)>)
    ensures Keys(PutAll([], ps)) == FirstOccurrences(Keys(ps))
  {
    if |ps| > 0 {
      var init := ps[..|ps| - 1];
      var last := ps[|ps| - 1];
      var before := PutAll([], init);
      var ks := Keys(ps);
      PutAllKeyOrder(init);
      PutKeys(before, last.0, last.1);
      assert PutAll([], ps) == Put(before, last.0, last.1);
      assert ks[..|ks| - 1] == Keys(init) && ks[|ks| - 1] == last.0;
      assert FirstOccurrences(ks) ==
        if last.0 in FirstOccurrences(Keys(init)) then FirstOccurrences(Keys(init))
        else FirstOccurrences(Keys(init)) + [last.0];
    }
  }
}
