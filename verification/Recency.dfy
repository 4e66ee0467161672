/** The recency order of a trace of accesses: which keys a least-recently-used cache of a
    given size holds after the trace, and in what order. */
module Recency {

  /** `list.remove`: drops the first occurrence. */
  function RemoveFirst<T(==)>(order: seq<T>, k: T): seq<T> {
    if order == [] then []
    else if order[0] == k then order[1..]
    else [order[0]] + RemoveFirst(order[1..], k)
  }

  /** The distinct keys of a trace, each at the place of its last use. */
  function ByLastUse<T(==)>(trace: seq<T>): seq<T> {
    if trace == [] then []
    else if trace[0] in trace[1..] then ByLastUse(trace[1..])
    else [trace[0]] + ByLastUse(trace[1..])
  }

  function Last<T(==)>(keys: seq<T>, n: int): seq<T> {
    if n <= 0 then [] else if |keys| <= n then keys else keys[|keys| - n..]
  }

  ghost predicate Distinct<T>(keys: seq<T>) {
    keys == [] || (keys[0] !in keys[1..] && Distinct(keys[1..]))
  }

  ghost function Elements<T>(keys: seq<T>): set<T> {
    set k | k in keys
  }

  function Without<T(==)>(keys: seq<T>, k: T): seq<T> {
    if keys == [] then []
    else if keys[0] == k then Without(keys[1..], k)
    else [keys[0]] + Without(keys[1..], k)
  }

  lemma {:induction false} WithoutAbsent<T>(keys: seq<T>, k: T)
    requires k !in keys
    ensures Without(keys, k) == keys
  {
    if keys != [] {
      WithoutAbsent(keys[1..], k);
    }
  }

  lemma {:induction false} WithoutConcat<T>(a: seq<T>, b: seq<T>, k: T)
    ensures Without(a + b, k) == Without(a, k) + Without(b, k)
  {
    if a == [] {
      assert a + b == b;
    } else {
      assert (a + b)[1..] == a[1..] + b;
      WithoutConcat(a[1..], b, k);
    }
  }

  lemma {:induction false} RemoveFirstIsWithout<T>(keys: seq<T>, k: T)
    requires Distinct(keys)
    ensures RemoveFirst(keys, k) == Without(keys, k)
    ensures k in keys ==> |RemoveFirst(keys, k)| == |keys| - 1
    ensures forall x :: x in RemoveFirst(keys, k) <==> x in keys && x != k
  {
    if keys != [] {
      RemoveFirstIsWithout(keys[1..], k);
      if keys[0] == k {
        WithoutAbsent(keys[1..], k);
      }
    }
  }

  lemma {:induction false} RemoveFirstKeepsOthers<T>(keys: seq<T>, k: T)
    ensures forall x :: x in keys && x != k ==> x in RemoveFirst(keys, k)
  {
    if keys != [] && keys[0] != k {
      RemoveFirstKeepsOthers(keys[1..], k);
    }
  }

  lemma {:induction false} ByLastUseElements<T>(trace: seq<T>)
    ensures Distinct(ByLastUse(trace))
    ensures forall k :: k in ByLastUse(trace) <==> k in trace
  {
    if trace != [] {
      ByLastUseElements(trace[1..]);
      assert ([trace[0]] + ByLastUse(trace[1..]))[1..] == ByLastUse(trace[1..]);
    }
  }

  /** Using a key moves it to the end of the list of distinct keys. */
  lemma {:induction false} ByLastUseSnoc<T>(trace: seq<T>, k: T)
    ensures ByLastUse(trace + [k]) == Without(ByLastUse(trace), k) + [k]
  {
    if trace == [] {
      assert [k][1..] == [];
    } else {
      var rest := ByLastUse(trace[1..]);
      assert (trace + [k])[1..] == trace[1..] + [k];
      ByLastUseSnoc(trace[1..], k);
      if trace[0] in trace[1..] {
        assert ByLastUse(trace) == rest;
      } else if trace[0] == k {
        assert ([k] + rest)[1..] == rest;
      } else {
        assert ([trace[0]] + rest)[1..] == rest;
        assert [trace[0]] + (Without(rest, k) + [k]) == ([trace[0]] + Without(rest, k)) + [k];
      }
    }
  }

  lemma {:induction false} DistinctCount<T>(keys: seq<T>)
    requires Distinct(keys)
    ensures |Elements(keys)| == |keys|
  {
    if keys != [] {
      DistinctCount(keys[1..]);
      assert Elements(keys) == Elements(keys[1..]) + {keys[0]};
    }
  }

  lemma {:induction false} DistinctParts<T>(a: seq<T>, b: seq<T>)
    requires Distinct(a + b)
    ensures Distinct(b) && forall k :: k in a ==> k !in b
  {
    if a == [] {
      assert a + b == b;
    } else {
      assert (a + b)[1..] == a[1..] + b;
      DistinctParts(a[1..], b);
    }
  }

  /** The keys the cache of size `n` has dropped, in recency order. */
  function Dropped<T(==)>(keys: seq<T>, n: int): seq<T> {
    keys[..|keys| - |Last(keys, n)|]
  }

  lemma LastParts<T>(keys: seq<T>, n: int)
    requires Distinct(keys)
    ensures keys == Dropped(keys, n) + Last(keys, n)
    ensures Distinct(Last(keys, n)) && forall k :: k in Dropped(keys, n) ==> k !in Last(keys, n)
    ensures n > 0 ==> |Last(keys, n)| == if |keys| < n then |keys| else n
  {
    assert keys == Dropped(keys, n) + Last(keys, n);
    DistinctParts(Dropped(keys, n), Last(keys, n));
  }

  lemma HitInSuffix<T>(older: seq<T>, order: seq<T>, k: T, n: int)
    requires n >= 1 && Distinct(order) && k !in older && k in order
    requires |order| <= n && (|order| == n || older == [])
    ensures Last(Without(older + order, k) + [k], n) == RemoveFirst(order, k) + [k]
  {
    WithoutConcat(older, order, k);
    WithoutAbsent(older, k);
    RemoveFirstIsWithout(order, k);
    var order' := RemoveFirst(order, k);
    assert (older + order') + [k] == older + (order' + [k]);
  }

  lemma MissInSuffix<T>(older: seq<T>, order: seq<T>, k: T, n: int)
    requires n >= 1 && k !in order
    requires |order| <= n && (|order| == n || older == [])
    ensures Last(Without(older + order, k) + [k], n) == (if |order| == n then order[1..] else order) + [k]
  {
    WithoutConcat(older, order, k);
    WithoutAbsent(order, k);
    var older' := Without(older, k);
    if |order| == n {
      assert (older' + order) + [k] == (older' + [order[0]]) + (order[1..] + [k]);
    } else {
      assert older' + order == order;
      assert [] + (order + [k]) == order + [k];
    }
  }

  /** One more access: a cached key moves to the end of the list; another key is appended,
      at the expense of the first one if the list is full. */
  lemma LastSnoc<T>(trace: seq<T>, k: T, n: int)
    requires n >= 1
    ensures var order := Last(ByLastUse(trace), n);
            Last(ByLastUse(trace + [k]), n) ==
              (if k in order then RemoveFirst(order, k)
               else if |order| == n then order[1..]
               else order) + [k]
  {
    var all := ByLastUse(trace);
    ByLastUseSnoc(trace, k);
    ByLastUseElements(trace);
    LastParts(all, n);
    if k in Last(all, n) {
      HitInSuffix(Dropped(all, n), Last(all, n), k, n);
    } else {
      MissInSuffix(Dropped(all, n), Last(all, n), k, n);
    }
  }

  lemma {:induction false} ByLastUseSuffix<T>(a: seq<T>, b: seq<T>)
    ensures |ByLastUse(b)| <= |ByLastUse(a + b)|
    ensures ByLastUse(a + b)[|ByLastUse(a + b)| - |ByLastUse(b)|..] == ByLastUse(b)
  {
    if a == [] {
      assert a + b == b;
    } else {
      assert (a + b)[1..] == a[1..] + b;
      ByLastUseSuffix(a[1..], b);
    }
  }

  /** A key is in the cache exactly when fewer than `n` other keys have been used since its
      last use. */
  lemma CachedIffRecent<T>(before: seq<T>, k: T, since: seq<T>, n: int)
    requires k !in since
    ensures k in Last(ByLastUse(before + ([k] + since)), n) <==> |Elements(since)| < n
  {
    var tail := [k] + since;
    var all := ByLastUse(before + tail);
    assert tail[1..] == since;
    ByLastUseSuffix(before, tail);
    ByLastUseElements(since);
    DistinctCount(ByLastUse(since));
    assert Elements(ByLastUse(since)) == Elements(since);
    ByLastUseElements(before + tail);
    LastParts(all, n);
    var at := |all| - |ByLastUse(tail)|;
    assert all[at] == all[at..][0] == k;
    if |Elements(since)| < n {
      assert Last(all, n)[at - |Dropped(all, n)|] == k;
    } else {
      assert at < |Dropped(all, n)| && Dropped(all, n)[at] == k;
    }
  }
}
