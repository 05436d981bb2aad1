/** Sequence helpers shared by the ordered containers of the model: duplicate-free
    sequences, removal of one value or of a list of values, and the "keep the newest
    n" suffix used by front eviction. */
module Sequences {

  /** No value occurs twice in `s`. */
  ghost predicate NoDup<T>(s: seq<T>) {
    forall i, j :: 0 <= i < j < |s| ==> s[i] != s[j]
  }

  /** The set of values occurring in `s`. */
  function Elements<T(!new)>(s: seq<T>): (r: set<T>)
    ensures forall x :: x in r <==> x in s
  {
    set x | x in s
  }

  /** `s` with every occurrence of `x` dropped, the others kept in order. */
  function Without<T(==,!new)>(s: seq<T>, x: T): (r: seq<T>)
    ensures forall y :: y in r <==> y in s && y != x
    ensures |r| <= |s|
    ensures x in s ==> |r| < |s|
  {
    if s == [] then []
    else if s[0] == x then Without(s[1..], x)
    else [s[0]] + Without(s[1..], x)
  }

  /** `s` with every value that occurs in `drop` dropped, the others kept in order. */
  function FilterOut<T(==,!new)>(s: seq<T>, drop: seq<T>): (r: seq<T>)
    ensures forall y :: y in r <==> y in s && y !in drop
  {
    if s == [] then []
    else if s[0] in drop then FilterOut(s[1..], drop)
    else [s[0]] + FilterOut(s[1..], drop)
  }

  /** The values of `s` that occur in `keep`, in the order of `s`. */
  function FilterIn<T(==,!new)>(s: seq<T>, keep: seq<T>): (r: seq<T>)
    ensures forall y :: y in r <==> y in s && y in keep
  {
    if s == [] then []
    else if s[0] in keep then [s[0]] + FilterIn(s[1..], keep)
    else FilterIn(s[1..], keep)
  }

  /** The last `n` elements of `s` (all of `s` when it has at most `n`). */
  function KeepNewest<T>(s: seq<T>, n: nat): (r: seq<T>)
    ensures |r| <= n && |r| <= |s|
    ensures |s| <= n ==> r == s
    ensures |s| > n ==> |r| == n
    ensures r == s[|s| - |r|..]
  {
    if |s| > n then s[|s| - n..] else s
  }

  /** `s` in the opposite order. */
  function Reverse<T>(s: seq<T>): (r: seq<T>)
    ensures |r| == |s|
    ensures forall i :: 0 <= i < |s| ==> r[i] == s[|s| - 1 - i]
  {
    if s == [] then [] else Reverse(s[1..]) + [s[0]]
  }

  /** Dropping a value that does not occur changes nothing. */
  lemma {:induction false} WithoutAbsent<T(!new)>(s: seq<T>, x: T)
    requires x !in s
    ensures Without(s, x) == s
  {
    if s != [] {
      WithoutAbsent(s[1..], x);
    }
  }

  /** Dropping a value keeps a duplicate-free sequence duplicate-free. */
  lemma {:induction false} WithoutNoDup<T(!new)>(s: seq<T>, x: T)
    requires NoDup(s)
    ensures NoDup(Without(s, x))
  {
    if s != [] {
      assert NoDup(s[1..]) by {
        forall i, j | 0 <= i < j < |s[1..]| ensures s[1..][i] != s[1..][j] {
          assert s[1..][i] == s[i + 1] && s[1..][j] == s[j + 1];
        }
      }
      WithoutNoDup(s[1..], x);
      if s[0] != x {
        var w := Without(s[1..], x);
        assert s[0] !in s[1..];
        assert s[0] !in w;
        forall i, j | 0 <= i < j < |[s[0]] + w| ensures ([s[0]] + w)[i] != ([s[0]] + w)[j] {
          if i > 0 {
            assert ([s[0]] + w)[i] == w[i - 1] && ([s[0]] + w)[j] == w[j - 1];
          } else {
            assert ([s[0]] + w)[j] == w[j - 1];
          }
        }
      }
    }
  }

  /** In a duplicate-free sequence, dropping the head value is dropping the head. */
  lemma WithoutHead<T(!new)>(s: seq<T>)
    requires NoDup(s) && s != []
    ensures Without(s, s[0]) == s[1..]
  {
    assert s[0] !in s[1..] by {
      forall k | 0 <= k < |s[1..]| ensures s[1..][k] != s[0] {
        assert s[1..][k] == s[k + 1];
      }
    }
    WithoutAbsent(s[1..], s[0]);
  }

  /** A suffix of a duplicate-free sequence is duplicate-free. */
  lemma SuffixNoDup<T(!new)>(s: seq<T>, k: nat)
    requires NoDup(s) && k <= |s|
    ensures NoDup(s[k..])
  {
    forall i, j | 0 <= i < j < |s[k..]| ensures s[k..][i] != s[k..][j] {
      assert s[k..][i] == s[k + i] && s[k..][j] == s[k + j];
    }
  }

  /** Appending a new value keeps a sequence duplicate-free. */
  lemma AppendNoDup<T(!new)>(s: seq<T>, x: T)
    requires NoDup(s) && x !in s
    ensures NoDup(s + [x])
  {
    forall i, j | 0 <= i < j < |s + [x]| ensures (s + [x])[i] != (s + [x])[j] {
      if j < |s| {
        assert (s + [x])[i] == s[i] && (s + [x])[j] == s[j];
      } else {
        assert (s + [x])[i] == s[i];
      }
    }
  }

  /** Filtering out a list one more value is filtering out that value afterwards. */
  lemma {:induction false} FilterOutSnoc<T(!new)>(s: seq<T>, drop: seq<T>, x: T)
    ensures FilterOut(s, drop + [x]) == Without(FilterOut(s, drop), x)
  {
    if s != [] {
      FilterOutSnoc(s[1..], drop, x);
      assert s[0] in drop + [x] <==> s[0] in drop || s[0] == x;
    }
  }

  /** Only the membership of `s`'s own values in the drop list matters. */
  lemma {:induction false} FilterOutAgree<T(!new)>(s: seq<T>, a: seq<T>, b: seq<T>)
    requires forall y :: y in s ==> (y in a <==> y in b)
    ensures FilterOut(s, a) == FilterOut(s, b)
  {
    if s != [] {
      FilterOutAgree(s[1..], a, b);
    }
  }

  /** Filtering out nothing changes nothing. */
  lemma {:induction false} FilterOutNothing<T(!new)>(s: seq<T>)
    ensures FilterOut(s, []) == s
  {
    if s != [] {
      FilterOutNothing(s[1..]);
    }
  }

  /** Filtering keeps a duplicate-free sequence duplicate-free. */
  lemma {:induction false} FilterOutNoDup<T(!new)>(s: seq<T>, drop: seq<T>)
    requires NoDup(s)
    ensures NoDup(FilterOut(s, drop))
  {
    if s != [] {
      SuffixNoDup(s, 1);
      FilterOutNoDup(s[1..], drop);
      if s[0] !in drop {
        var w := FilterOut(s[1..], drop);
        assert s[0] !in s[1..] by {
          forall k | 0 <= k < |s[1..]| ensures s[1..][k] != s[0] {
            assert s[1..][k] == s[k + 1];
          }
        }
        forall i, j | 0 <= i < j < |[s[0]] + w| ensures ([s[0]] + w)[i] != ([s[0]] + w)[j] {
          if i > 0 {
            assert ([s[0]] + w)[i] == w[i - 1] && ([s[0]] + w)[j] == w[j - 1];
          } else {
            assert ([s[0]] + w)[j] == w[j - 1];
          }
        }
      }
    }
  }

  /** Dropping the values of `s` that occur in `ids` is dropping `ids`. */
  lemma {:induction false} FilterInOutComplement<T(!new)>(s: seq<T>, ids: seq<T>)
    ensures FilterOut(s, FilterIn(s, ids)) == FilterOut(s, ids)
  {
    FilterOutAgree(s, FilterIn(s, ids), ids);
  }

  /** A duplicate-free sequence has as many distinct values as elements. */
  lemma {:induction false} NoDupCard<T(!new)>(s: seq<T>)
    requires NoDup(s)
    ensures |Elements(s)| == |s|
  {
    if s != [] {
      SuffixNoDup(s, 1);
      NoDupCard(s[1..]);
      assert s[0] !in s[1..] by {
        forall k | 0 <= k < |s[1..]| ensures s[1..][k] != s[0] {
          assert s[1..][k] == s[k + 1];
        }
      }
      assert Elements(s) == Elements(s[1..]) + {s[0]};
    }
  }
  /** Filtering a sequence extended by one value extends the filtered sequence. */
  lemma {:induction false} FilterInSnoc<T(!new)>(s: seq<T>, x: T, keep: seq<T>)
    ensures FilterIn(s + [x], keep) == FilterIn(s, keep) + (if x in keep then [x] else [])
  {
    if s == [] {
      assert [x][1..] == [];
    } else {
      assert (s + [x])[1..] == s[1..] + [x];
      FilterInSnoc(s[1..], x, keep);
    }
  }

  /** The same, for values dropped by a list. */
  lemma {:induction false} FilterOutSnocSource<T(!new)>(s: seq<T>, x: T, drop: seq<T>)
    ensures FilterOut(s + [x], drop) == FilterOut(s, drop) + (if x in drop then [] else [x])
  {
    if s == [] {
      assert [x][1..] == [];
    } else {
      assert (s + [x])[1..] == s[1..] + [x];
      FilterOutSnocSource(s[1..], x, drop);
    }
  }

  /** Dropping the values some list does not hold keeps exactly the values it holds. */
  lemma {:induction false} FilterOutComplementIsFilterIn<T(!new)>(s: seq<T>, drop: seq<T>, keep: seq<T>)
    requires forall y :: y in s ==> (y in drop <==> y !in keep)
    ensures FilterOut(s, drop) == FilterIn(s, keep)
  {
    if s != [] {
      FilterOutComplementIsFilterIn(s[1..], drop, keep);
    }
  }

  /** Removing one key from a key sequence that indexes a map, and from the map,
      keeps the two consistent. */
  lemma RemovedKey<K(!new), V>(q: seq<K>, m: map<K, V>, key: K)
    requires NoDup(q) && Elements(q) == m.Keys
    ensures NoDup(Without(q, key)) && Elements(Without(q, key)) == (m - {key}).Keys
  {
    WithoutNoDup(q, key);
  }

  /** Evicting the oldest `n` keys of a key sequence that indexes a map, from both,
      keeps the two consistent. */
  lemma PrefixEvicted<K(!new), V>(q: seq<K>, m: map<K, V>, n: nat)
    requires NoDup(q) && Elements(q) == m.Keys && n <= |q|
    ensures NoDup(q[n..]) && Elements(q[n..]) == (m - Elements(q[..n])).Keys
  {
    SuffixNoDup(q, n);
    assert q == q[..n] + q[n..];
  }

  /** The evicted prefix grows by the key at its end. */
  lemma EvictedPrefix<K(!new)>(q: seq<K>, done: nat)
    requires done < |q|
    ensures Elements(q[..done + 1]) == Elements(q[..done]) + {q[done]}
  {
    assert q[..done + 1] == q[..done] + [q[done]];
  }

  /** The front-eviction loop of the bounded containers: `n` times, drop the oldest
      key from the key sequence and from the map. */
  method DropOldest<K(==,!new), V>(queue: seq<K>, items: map<K, V>, n: nat) returns (q: seq<K>, m: map<K, V>)
    requires n <= |queue|
    ensures q == queue[n..] && m == items - Elements(queue[..n])
  {
    q, m := queue, items;
    var itemsToRemove := n;
    while itemsToRemove > 0
      invariant 0 <= itemsToRemove <= n
      invariant q == queue[n - itemsToRemove..] && m == items - Elements(queue[..n - itemsToRemove])
    {
      EvictedPrefix(queue, n - itemsToRemove);
      q, m := q[1..], m - {q[0]};
      itemsToRemove := itemsToRemove - 1;
    }
  }
}
