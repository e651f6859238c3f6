/** The JavaScript collections the store relies on, as values.

    A plain object used as a dictionary (`Record<V>`) keeps its own keys
    in insertion order: assigning to a present key updates it in place,
    assigning to a new key appends it, and `delete` / rest-destructuring
    drops a key without reordering the others. It is modelled as a sequence
    of (key, value) entries. A `Set` built by repeated `add` keeps the
    first occurrence of every element: that is `Dedup`. */
module Ordered {

  datatype Option<T> = None | Some(value: T)

  /** `Object.keys(m)`. */
  function Keys<V>(m: seq<(string, V)>): (ks: seq<string>)
    ensures |ks| == |m|
    ensures forall i :: 0 <= i < |m| ==> ks[i] == m[i].0
  {
    seq(|m|, i requires 0 <= i < |m| => m[i].0)
  }

  /** `Object.values(m)`. */
  function Values<V>(m: seq<(string, V)>): (vs: seq<V>)
    ensures |vs| == |m|
    ensures forall i :: 0 <= i < |m| ==> vs[i] == m[i].1
  {
    seq(|m|, i requires 0 <= i < |m| => m[i].1)
  }

  predicate Distinct<T(==)>(s: seq<T>) {
    forall i, j :: 0 <= i < j < |s| ==> s[i] != s[j]
  }

  /** Every key occurs once: the shape of every JavaScript object. */
  predicate DistinctKeys<V>(m: seq<(string, V)>) {
    Distinct(Keys(m))
  }

  lemma KeysCons<V>(e: (string, V), m: seq<(string, V)>)
    ensures Keys([e] + m) == [e.0] + Keys(m)
  {
  }

  /** `m[k]`, `None` standing for `undefined`. */
  function Get<V>(m: seq<(string, V)>, k: string): Option<V> {
    if m == [] then None
    else if m[0].0 == k then Some(m[0].1)
    else Get(m[1..], k)
  }

  /** `m[k]` is `undefined` exactly when `k` is not a key, and otherwise the
      value of an entry for `k`. */
  lemma {:induction false} GetMembers<V>(m: seq<(string, V)>, k: string)
    ensures Get(m, k).None? <==> k !in Keys(m)
    ensures Get(m, k).Some? ==> (k, Get(m, k).value) in m
  {
    if m != [] {
      KeysCons(m[0], m[1..]);
      assert m == [m[0]] + m[1..];
      if m[0].0 != k {
        GetMembers(m[1..], k);
      }
    }
  }

  /** The keys are exactly the names `m[k]` finds. */
  lemma KeysGet<V>(m: seq<(string, V)>)
    ensures forall k :: k in Keys(m) <==> Get(m, k).Some?
  {
    forall k ensures k in Keys(m) <==> Get(m, k).Some? {
      GetMembers(m, k);
    }
  }

  /** `m[k] ?? d`. */
  function GetOr<V>(m: seq<(string, V)>, k: string, d: V): V {
    match Get(m, k)
    case Some(v) => v
    case None => d
  }

  /** In an object with distinct keys the entry for `k` is the value `Get` returns. */
  lemma {:induction false} GetAt<V>(m: seq<(string, V)>, i: nat)
    requires DistinctKeys(m) && i < |m|
    ensures Get(m, m[i].0) == Some(m[i].1)
  {
    if i > 0 {
      assert Keys(m[1..]) == Keys(m)[1..];
      assert m[0].0 != m[i].0 by { assert Keys(m)[0] != Keys(m)[i]; }
      GetAt(m[1..], i - 1);
    }
  }

  /** `m[k] = v`: update in place when `k` is present, append otherwise. */
  function Put<V>(m: seq<(string, V)>, k: string, v: V): seq<(string, V)> {
    if m == [] then [(k, v)]
    else if m[0].0 == k then [(k, v)] + m[1..]
    else [m[0]] + Put(m[1..], k, v)
  }

  /** Assignment keeps the order of the keys and appends a new one; every
      entry is the new one or was there before. */
  lemma {:induction false} PutKeys<V>(m: seq<(string, V)>, k: string, v: V)
    ensures Keys(Put(m, k, v)) == if k in Keys(m) then Keys(m) else Keys(m) + [k]
    ensures forall e :: e in Put(m, k, v) ==> e == (k, v) || e in m
  {
    if m != [] {
      var rest := m[1..];
      KeysCons(m[0], rest);
      assert m == [m[0]] + rest;
      if m[0].0 == k {
        KeysCons((k, v), rest);
      } else {
        PutKeys(rest, k, v);
        KeysCons(m[0], Put(rest, k, v));
      }
    }
  }

  /** After `m[k] = v`, `k` reads `v` and every other key reads what it read before. */
  lemma {:induction false} PutGet<V>(m: seq<(string, V)>, k: string, v: V, k': string)
    ensures Get(Put(m, k, v), k') == if k' == k then Some(v) else Get(m, k')
  {
    if m != [] && m[0].0 != k {
      PutGet(m[1..], k, v, k');
    }
  }

  /** Assigning one key leaves what another key reads. */
  lemma PutOther<V>(m: seq<(string, V)>, k: string, v: V, k': string, w: V)
    requires k' != k && Get(m, k') == Some(w)
    ensures Get(Put(m, k, v), k') == Some(w)
  {
    PutGet(m, k, v, k');
  }

  /** Assignment keeps the keys of an object distinct. */
  lemma PutDistinct<V>(m: seq<(string, V)>, k: string, v: V)
    requires DistinctKeys(m)
    ensures DistinctKeys(Put(m, k, v))
  {
    PutKeys(m, k, v);
    if k !in Keys(m) {
      var ks := Keys(m) + [k];
      forall i, j | 0 <= i < j < |ks| ensures ks[i] != ks[j] {
        if j == |ks| - 1 { assert ks[i] in Keys(m); }
      }
    }
  }

  /** Assigning the same value to the same key twice is assigning it once. */
  lemma {:induction false} PutTwice<V>(m: seq<(string, V)>, k: string, v: V)
    ensures Put(Put(m, k, v), k, v) == Put(m, k, v)
  {
    if m != [] && m[0].0 != k {
      PutTwice(m[1..], k, v);
    }
  }

  /** The object without key `k` (`const { [k]: _, ...rest } = m`). */
  function Remove<V>(m: seq<(string, V)>, k: string): (r: seq<(string, V)>)
    ensures Keys(r) == Without(Keys(m), k)
    ensures forall e :: e in r ==> e in m
  {
    if m == [] then []
    else
      var rest := m[1..];
      KeysCons(m[0], rest);
      assert m == [m[0]] + rest;
      if m[0].0 == k then Remove(rest, k)
      else
        var tail := Remove(rest, k);
        KeysCons(m[0], tail);
        [m[0]] + tail
  }

  /** After deleting `k`, `k` is absent and every other key reads what it read before. */
  lemma {:induction false} RemoveGet<V>(m: seq<(string, V)>, k: string, k': string)
    ensures Get(Remove(m, k), k') == if k' == k then None else Get(m, k')
  {
    if m != [] {
      RemoveGet(m[1..], k, k');
    }
  }

  /** Deleting an absent key changes nothing. */
  lemma {:induction false} RemoveAbsent<V>(m: seq<(string, V)>, k: string)
    requires k !in Keys(m)
    ensures Remove(m, k) == m
  {
    if m != [] {
      assert Keys(m) == [m[0].0] + Keys(m[1..]);
      RemoveAbsent(m[1..], k);
    }
  }

  /** Deletion keeps the keys of an object distinct. */
  lemma {:induction false} WithoutDistinct(s: seq<string>, x: string)
    requires Distinct(s)
    ensures Distinct(Without(s, x))
  {
    if s != [] {
      assert Distinct(s[1..]) by {
        forall i, j | 0 <= i < j < |s[1..]| ensures s[1..][i] != s[1..][j] {
          assert s[i + 1] != s[j + 1];
        }
      }
      WithoutDistinct(s[1..], x);
      forall i | 0 < i < |s| ensures s[i] != s[0] {
        assert s[0] != s[i];
      }
      assert s[0] !in s[1..];
      var w := Without(s[1..], x);
      if s[0] != x {
        assert Without(s, x) == [s[0]] + w;
        forall i, j | 0 <= i < j < |[s[0]] + w| ensures ([s[0]] + w)[i] != ([s[0]] + w)[j] {
          if i == 0 { assert ([s[0]] + w)[j] == w[j - 1] && w[j - 1] in w; }
          else { assert w[i - 1] != w[j - 1]; }
        }
      }
    }
  }

  /** The elements of `s` other than `x`, in order. */
  function Without(s: seq<string>, x: string): (r: seq<string>)
    ensures forall y :: y in r <==> y in s && y != x
  {
    if s == [] then []
    else if s[0] == x then Without(s[1..], x)
    else [s[0]] + Without(s[1..], x)
  }

  /** `Array.from(set)` after adding the elements of `s` to an empty `Set` in order. */
  function Dedup(s: seq<string>): (r: seq<string>)
    ensures Distinct(r)
    ensures forall x :: x in r <==> x in s
  {
    if s == [] then []
    else
      var d := Dedup(s[..|s| - 1]);
      assert s == s[..|s| - 1] + [s[|s| - 1]];
      if s[|s| - 1] in d then d else d + [s[|s| - 1]]
  }

  /** Position of the first occurrence of `x` in `s`. */
  /** Adding one more element to a `Set`. */
  lemma DedupSnoc(seen: seq<string>, x: string)
    ensures Dedup(seen + [x]) == if x in Dedup(seen) then Dedup(seen) else Dedup(seen) + [x]
  {
    assert (seen + [x])[..|seen|] == seen;
  }

  function FirstIndex<T(==)>(s: seq<T>, x: T): (i: nat)
    requires x in s
    ensures i < |s| && s[i] == x && x !in s[..i]
  {
    if s[0] == x then 0 else 1 + FirstIndex(s[1..], x)
  }

  lemma {:induction false} FirstIndexOfPrefix<T>(s: seq<T>, t: seq<T>, x: T)
    requires x in s
    ensures FirstIndex(s + t, x) == FirstIndex(s, x)
  {
    if s[0] != x {
      assert (s + t)[1..] == s[1..] + t;
      FirstIndexOfPrefix(s[1..], t, x);
    }
  }

  lemma {:induction false} FirstIndexAfter<T>(s: seq<T>, t: seq<T>, x: T)
    requires x !in s && x in t
    ensures FirstIndex(s + t, x) == |s| + FirstIndex(t, x)
  {
    if s != [] {
      assert (s + t)[1..] == s[1..] + t;
      FirstIndexAfter(s[1..], t, x);
    } else {
      assert s + t == t;
    }
  }

  lemma {:induction false} FirstIndexOfLast<T>(s: seq<T>, x: T)
    requires x !in s
    ensures FirstIndex(s + [x], x) == |s|
  {
    if s != [] {
      assert (s + [x])[1..] == s[1..] + [x];
      FirstIndexOfLast(s[1..], x);
    }
  }

  /** `Dedup` lists the elements in the order of their first occurrence. */
  lemma {:induction false} DedupFirstSeen(s: seq<string>)
    ensures forall i, j :: 0 <= i < j < |Dedup(s)| ==>
      FirstIndex(s, Dedup(s)[i]) < FirstIndex(s, Dedup(s)[j])
  {
    if s != [] {
      var init, x := s[..|s| - 1], s[|s| - 1];
      assert s == init + [x];
      DedupFirstSeen(init);
      var d := Dedup(init);
      forall y | y in d ensures FirstIndex(s, y) == FirstIndex(init, y) {
        FirstIndexOfPrefix(init, [x], y);
      }
      if x !in d {
        FirstIndexOfLast(init, x);
      }
    }
  }

  /** A sequence without repetitions is as long as its set of elements is large. */
  lemma {:induction false} DistinctCardinality<T>(s: seq<T>)
    requires Distinct(s)
    ensures |set x | x in s| == |s|
  {
    if s != [] {
      var init, x := s[..|s| - 1], s[|s| - 1];
      assert s == init + [x];
      DistinctCardinality(init);
      forall i | 0 <= i < |init| ensures init[i] != x {
        assert s[i] != s[|s| - 1];
      }
      assert (set y | y in s) == (set y | y in init) + {x};
    }
  }

  /** The `size` of a `Set` filled from `s` is the number of distinct elements of `s`. */
  lemma DedupSize(s: seq<string>)
    ensures |Dedup(s)| == |set x | x in s|
  {
    DistinctCardinality(Dedup(s));
    assert (set x | x in Dedup(s)) == (set x | x in s);
  }
}
