/** Shared vocabulary: optional values, partial maps and duplicate-free sequences. */
module Base {

  datatype Option<+T> = None | Some(value: T)

  /** What `m` says about `k`. */
  function Lookup<K, V>(m: map<K, V>, k: K): Option<V> {
    if k in m then Some(m[k]) else None
  }

  /** `m` with the entry of `k` replaced, or dropped when `v` is `None`. */
  function Updated<K(!new), V>(m: map<K, V>, k: K, v: Option<V>): (r: map<K, V>)
    ensures forall j :: Lookup(r, j) == if j == k then v else Lookup(m, j)
  {
    if v.Some? then m[k := v.value] else m - {k}
  }

  /** Two maps with the same lookups are the same map. */
  lemma SameLookupsSameMap<K(!new), V>(a: map<K, V>, b: map<K, V>)
    requires forall k :: Lookup(a, k) == Lookup(b, k)
    ensures a == b
  {
    forall k ensures (k in a) == (k in b) && (k in a ==> a[k] == b[k]) {
      assert Lookup(a, k) == Lookup(b, k);
    }
  }

  ghost predicate Distinct<T>(s: seq<T>) {
    forall i, j :: 0 <= i < j < |s| ==> s[i] != s[j]
  }

  ghost predicate Increasing(s: seq<nat>) {
    forall i, j :: 0 <= i < j < |s| ==> s[i] < s[j]
  }

  /** `r` is `s` at the positions `at`, in order, and those are all the positions where `p` holds. */
  ghost predicate Picks<T>(s: seq<T>, p: T -> bool, at: seq<nat>, r: seq<T>) {
    && Increasing(at) && |at| == |r|
    && (forall x :: 0 <= x < |at| ==> at[x] < |s| && r[x] == s[at[x]] && p(r[x]))
    && (forall i: nat :: i < |s| && p(s[i]) ==> i in at)
  }

  /** Picking goes on in front of one more element. */
  lemma PicksOneMore<T>(s: seq<T>, p: T -> bool, at: seq<nat>, r: seq<T>) returns (at': seq<nat>)
    requires s != [] && Picks(s[1..], p, at, r)
    ensures Picks(s, p, at', if p(s[0]) then [s[0]] + r else r)
  {
    var shifted := seq(|at|, x requires 0 <= x < |at| => at[x] + 1);
    ShiftedPicks(s, p, at, shifted, r);
    if p(s[0]) {
      at' := [0] + shifted;
      PickFirst(s, p, shifted, r);
    } else {
      at' := shifted;
    }
  }

  /** All picks but the first element. */
  ghost predicate PicksBehind<T>(s: seq<T>, p: T -> bool, at: seq<nat>, r: seq<T>) {
    && Increasing(at) && |at| == |r|
    && (forall x :: 0 <= x < |at| ==> 0 < at[x] < |s| && r[x] == s[at[x]] && p(r[x]))
    && (forall i: nat :: 0 < i < |s| && p(s[i]) ==> i in at)
  }

  lemma ShiftedPicks<T>(s: seq<T>, p: T -> bool, at: seq<nat>, shifted: seq<nat>, r: seq<T>)
    requires s != [] && Picks(s[1..], p, at, r)
    requires |shifted| == |at| && forall x :: 0 <= x < |at| ==> shifted[x] == at[x] + 1
    ensures PicksBehind(s, p, shifted, r)
  {
    forall i: nat | 0 < i < |s| && p(s[i]) ensures i in shifted {
      assert p(s[1..][i - 1]);
      var x :| 0 <= x < |at| && at[x] == i - 1;
      assert shifted[x] == i;
    }
  }

  lemma PickFirst<T>(s: seq<T>, p: T -> bool, at: seq<nat>, r: seq<T>)
    requires s != [] && p(s[0]) && PicksBehind(s, p, at, r)
    ensures Picks(s, p, [0] + at, [s[0]] + r)
  {
    var all, picked := [0] + at, [s[0]] + r;
    forall x | 0 <= x < |all| ensures all[x] < |s| && picked[x] == s[all[x]] && p(picked[x]) {
      assert x > 0 ==> all[x] == at[x - 1] && picked[x] == r[x - 1];
    }
    forall i, j | 0 <= i < j < |all| ensures all[i] < all[j] {
      assert all[j] == at[j - 1];
    }
    forall i: nat | i < |s| && p(s[i]) ensures i in all {
      if i == 0 {
        assert all[0] == 0;
      }
    }
  }

  lemma IncreasingBehind(head: nat, rest: seq<nat>)
    requires Increasing(rest) && forall x :: x in rest ==> head < x
    ensures Increasing([head] + rest)
  {
    forall i, j | 0 <= i < j < |[head] + rest| ensures ([head] + rest)[i] < ([head] + rest)[j] {
      assert rest[j - 1] in rest;
    }
  }

  /** Without repetitions, an element does not occur before its own position. */
  lemma DistinctPrefix<T>(s: seq<T>, n: nat)
    requires Distinct(s) && n < |s|
    ensures s[n] !in s[..n]
  {
  }
}
