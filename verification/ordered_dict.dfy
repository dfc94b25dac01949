/** Python's insertion-ordered `dict`, as a sequence of key/value entries.
    Assigning to a key that is present replaces its value where it stands;
    assigning to a new key appends an entry at the end. */
module OrderedDict {
  import opened Wrappers
  import opened Seqs

  /** The keys in iteration order (`for key in d`). */
  function Keys<K, V>(m: seq<(K, V)>): (ks: seq<K>)
    ensures |ks| == |m|
    ensures forall i {:trigger ks[i]} :: 0 <= i < |m| ==> ks[i] == m[i].0
  {
    if |m| == 0 then [] else [m[0].0] + Keys(m[1..])
  }

  /** `d.get(k)`: the value stored under `k`, if any. */
  function Get<K(==), V>(m: seq<(K, V)>, k: K): (r: Option<V>)
    ensures r.None? <==> k !in Keys(m)
  {
    if |m| == 0 then None
    else if m[0].0 == k then Some(m[0].1) else Get(m[1..], k)
  }

  /** `d[k] = v` on an absent key appends an entry. */
  lemma {:induction false} PutAbsent<K(!new), V>(m: seq<(K, V)>, k: K, v: V)
    requires k !in Keys(m)
    ensures Put(m, k, v) == m + [(k, v)]
  {
    if |m| > 0 {
      assert Keys(m)[0] == m[0].0;
      assert k !in Keys(m[1..]) by {
        assert Keys(m) == [m[0].0] + Keys(m[1..]);
      }
      PutAbsent(m[1..], k, v);
      assert [m[0]] + (m[1..] + [(k, v)]) == m + [(k, v)];
    }
  }

  /** `d[k] = v`. */
  function Put<K(==, !new), V>(m: seq<(K, V)>, k: K, v: V): (r: seq<(K, V)>)
    ensures Get(r, k) == Some(v)
  {
    if |m| == 0 then [(k, v)]
    else if m[0].0 == k then
      var r := [(k, v)] + m[1..];
      assert r[1..] == m[1..];
      r
    else
      var r := [m[0]] + Put(m[1..], k, v);
      assert r[1..] == Put(m[1..], k, v);
      r
  }

  /** `d[k] = v` keeps a present key where it stands and appends a new one. */
  lemma {:induction false} PutKeys<K(!new), V>(m: seq<(K, V)>, k: K, v: V)
    ensures Keys(Put(m, k, v)) == if k in Keys(m) then Keys(m) else Keys(m) + [k]
    decreases |m|
  {
    if |m| > 0 {
      assert Keys(m) == [m[0].0] + Keys(m[1..]);
      if m[0].0 == k {
        assert Put(m, k, v)[1..] == m[1..];
      } else {
        PutKeys(m[1..], k, v);
        assert Put(m, k, v)[1..] == Put(m[1..], k, v);
      }
    }
  }

  /** `d[k] = v` leaves the value of every other key as it was. */
  lemma {:induction false} PutKeepsOthers<K(!new), V>(m: seq<(K, V)>, k: K, v: V, other: K)
    requires other != k
    ensures Get(Put(m, k, v), other) == Get(m, other)
    decreases |m|
  {
    if |m| > 0 && m[0].0 != k {
      var r := Put(m, k, v);
      assert r[1..] == Put(m[1..], k, v);
      PutKeepsOthers(m[1..], k, v, other);
    } else if |m| > 0 {
      assert Put(m, k, v)[1..] == m[1..];
    }
  }

  /** The dictionary built by assigning the pairs one after another, starting
      from `{}`. */
  function FromPairs<K(==, !new), V>(pairs: seq<(K, V)>): seq<(K, V)>
    decreases |pairs|
  {
    if |pairs| == 0 then []
    else
      var last := pairs[|pairs| - 1];
      Put(FromPairs(pairs[..|pairs| - 1]), last.0, last.1)
  }

  /** Each assignment adds at most one entry. */
  lemma {:induction false} FromPairsLength<K(!new), V>(pairs: seq<(K, V)>)
    ensures |FromPairs(pairs)| <= |pairs|
    decreases |pairs|
  {
    if |pairs| > 0 {
      var n := |pairs| - 1;
      FromPairsLength(pairs[..n]);
      FromPairsUnfold(pairs);
      PutKeys(FromPairs(pairs[..n]), pairs[n].0, pairs[n].1);
    }
  }

  /** Keys of an extended dictionary. */
  lemma KeysAppend<K, V>(m: seq<(K, V)>, e: (K, V))
    ensures Keys(m + [e]) == Keys(m) + [e.0]
  {
  }

  /** Position `i` holds the last pair whose key is `k`. */
  predicate LastBinding<K(==), V>(pairs: seq<(K, V)>, k: K, i: int)
  {
    0 <= i < |pairs| && pairs[i].0 == k && forall j :: i < j < |pairs| ==> pairs[j].0 != k
  }

  /** `ks` lists each key of `src` exactly once, ordered by where the key
      first occurs in `src`. */
  predicate FirstOccurrenceOrder<K(==)>(ks: seq<K>, src: seq<K>)
  {
    && Distinct(ks)
    && (forall i :: 0 <= i < |ks| ==> ks[i] in src)
    && (forall i :: 0 <= i < |src| ==> src[i] in ks)
    && (forall i, j :: 0 <= i < j < |ks| ==> FirstIndex(src, ks[i]) < FirstIndex(src, ks[j]))
  }

  /** A key is present exactly when some pair binds it. */
  lemma {:induction false} FromPairsPresent<K(!new), V>(pairs: seq<(K, V)>, k: K)
    ensures Get(FromPairs(pairs), k).Some? <==> k in Keys(pairs)
    decreases |pairs|
  {
    if |pairs| > 0 {
      var n := |pairs| - 1;
      FromPairsPresent(pairs[..n], k);
      assert pairs == pairs[..n] + [pairs[n]];
      KeysAppend(pairs[..n], pairs[n]);
      PutKeys(FromPairs(pairs[..n]), pairs[n].0, pairs[n].1);
      if k != pairs[n].0 {
        PutKeepsOthers(FromPairs(pairs[..n]), pairs[n].0, pairs[n].1, k);
      }
    }
  }

  /** Later assignments win: a key holds the value of its last pair. */
  lemma {:induction false} FromPairsLastWins<K(!new), V>(pairs: seq<(K, V)>, k: K, i: nat)
    requires LastBinding(pairs, k, i)
    ensures Get(FromPairs(pairs), k) == Some(pairs[i].1)
    decreases |pairs|, 1
  {
    if i < |pairs| - 1 {
      LastWinsEarlier(pairs, k, i);
    } else {
      FromPairsUnfold(pairs);
    }
  }

  lemma {:induction false} LastWinsEarlier<K(!new), V>(pairs: seq<(K, V)>, k: K, i: nat)
    requires LastBinding(pairs, k, i) && i < |pairs| - 1
    ensures Get(FromPairs(pairs), k) == Some(pairs[i].1)
    decreases |pairs|, 0
  {
    var n := |pairs| - 1;
    LastBindingInit(pairs, k, i);
    FromPairsLastWins(pairs[..n], k, i);
    FromPairsKeepsOthers(pairs, k);
  }

  /** The final pair does not disturb a key it does not bind. */
  lemma FromPairsKeepsOthers<K(!new), V>(pairs: seq<(K, V)>, k: K)
    requires |pairs| > 0 && pairs[|pairs| - 1].0 != k
    ensures Get(FromPairs(pairs), k) == Get(FromPairs(pairs[..|pairs| - 1]), k)
  {
    var n := |pairs| - 1;
    FromPairsUnfold(pairs);
    PutKeepsOthers(FromPairs(pairs[..n]), pairs[n].0, pairs[n].1, k);
  }

  lemma FromPairsUnfold<K(!new), V>(pairs: seq<(K, V)>)
    requires |pairs| > 0
    ensures FromPairs(pairs) == Put(FromPairs(pairs[..|pairs| - 1]), pairs[|pairs| - 1].0, pairs[|pairs| - 1].1)
  {
  }

  /** The last binding of a key that is not the final pair is also its last
      binding among the earlier pairs. */
  lemma LastBindingInit<K, V>(pairs: seq<(K, V)>, k: K, i: nat)
    requires LastBinding(pairs, k, i) && i < |pairs| - 1
    ensures LastBinding(pairs[..|pairs| - 1], k, i)
    ensures pairs[..|pairs| - 1][i] == pairs[i]
    ensures pairs[|pairs| - 1].0 != k
  {
  }

  /** Keys are iterated in the order of their first assignment, each once. */
  lemma {:induction false} FromPairsKeyOrder<K(!new), V>(pairs: seq<(K, V)>)
    ensures FirstOccurrenceOrder(Keys(FromPairs(pairs)), Keys(pairs))
    decreases |pairs|
  {
    if |pairs| > 0 {
      var n := |pairs| - 1;
      var init := pairs[..n];
      var last := pairs[n];
      FromPairsKeyOrder(init);
      assert pairs == init + [last];
      KeysAppend(init, last);
      PutKeys(FromPairs(init), last.0, last.1);
      KeyOrderStep(Keys(FromPairs(init)), Keys(init), last.0);
    }
  }

  /** One assignment step: a new key goes to the end, an old one stays put. */
  lemma KeyOrderStep<K>(ks: seq<K>, src: seq<K>, k: K)
    requires FirstOccurrenceOrder(ks, src)
    ensures FirstOccurrenceOrder(if k in ks then ks else ks + [k], src + [k])
  {
    if k in ks {
      KeyOrderOld(ks, src, k);
    } else {
      KeyOrderNew(ks, src, k);
    }
  }

  lemma KeyOrderOld<K>(ks: seq<K>, src: seq<K>, k: K)
    requires FirstOccurrenceOrder(ks, src) && k in ks
    ensures FirstOccurrenceOrder(ks, src + [k])
  {
    var src' := src + [k];
    forall i, j | 0 <= i < j < |ks|
      ensures FirstIndex(src', ks[i]) < FirstIndex(src', ks[j])
    {
      FirstIndexAppend(src, ks[i], k);
      FirstIndexAppend(src, ks[j], k);
    }
    forall i | 0 <= i < |ks|
      ensures ks[i] in src'
    {
      assert ks[i] in src;
    }
  }

  lemma KeyOrderNew<K>(ks: seq<K>, src: seq<K>, k: K)
    requires FirstOccurrenceOrder(ks, src) && k !in ks
    ensures FirstOccurrenceOrder(ks + [k], src + [k])
  {
    var src', ks' := src + [k], ks + [k];
    assert k !in src;
    assert FirstIndex(src', k) == |src|;
    forall i, j | 0 <= i < j < |ks'|
      ensures FirstIndex(src', ks'[i]) < FirstIndex(src', ks'[j])
    {
      assert ks'[i] == ks[i];
      FirstIndexAppend(src, ks[i], k);
      if j < |ks| {
        assert ks'[j] == ks[j];
        FirstIndexAppend(src, ks[j], k);
      }
    }
    assert Distinct(ks') by {
      forall i, j | 0 <= i < j < |ks'|
        ensures ks'[i] != ks'[j]
      {
        assert ks'[i] == ks[i];
      }
    }
  }

  /** Without repeated keys, assigning the pairs in turn rebuilds them verbatim. */
  lemma {:induction false} FromPairsDistinct<K(!new), V>(pairs: seq<(K, V)>)
    requires Distinct(Keys(pairs))
    ensures FromPairs(pairs) == pairs
    decreases |pairs|
  {
    if |pairs| > 0 {
      var n := |pairs| - 1;
      var init := pairs[..n];
      var last := pairs[n];
      assert pairs == init + [last];
      KeysAppend(init, last);
      assert Distinct(Keys(init)) by {
        forall i, j | 0 <= i < j < |init|
          ensures Keys(init)[i] != Keys(init)[j]
        {
          assert Keys(pairs)[i] != Keys(pairs)[j];
        }
      }
      FromPairsDistinct(init);
      assert last.0 !in Keys(init) by {
        forall i | 0 <= i < |init|
          ensures Keys(init)[i] != last.0
        {
          assert Keys(pairs)[i] != Keys(pairs)[n];
        }
      }
      PutAbsent(init, last.0, last.1);
    }
  }
}
