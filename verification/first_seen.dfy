/**
 The loop shape shared by the normaliser, the per-topic excerpt list and the
 citation list: walk the items in order, skip the unwanted ones, skip those
 whose key is already in `seen`, otherwise remember the key and keep the item.
 */
module FirstSeen {
  import opened Seqs

  /** The keys of the items of `xs`. */
  ghost function Keys<T, K>(xs: seq<T>, key: T -> K): set<K> {
    set i | 0 <= i < |xs| :: key(xs[i])
  }

  /** The keys of the wanted items of `xs`. */
  ghost function WantedKeys<T, K>(xs: seq<T>, keep: T -> bool, key: T -> K): set<K> {
    set i | 0 <= i < |xs| && keep(xs[i]) :: key(xs[i])
  }

  /**
   The loop with its `seen` accumulator. Every kept item is wanted and new; no
   two kept items share a key; and the keys kept, together with those seen
   before, are exactly the keys of the wanted items together with those seen before.
   */
  function KeepFirst<T, K(==)>(xs: seq<T>, keep: T -> bool, key: T -> K, seen: set<K>): (r: seq<T>)
    ensures |r| <= |xs|
    ensures forall i :: 0 <= i < |r| ==> keep(r[i]) && key(r[i]) !in seen
    ensures forall i, j :: 0 <= i < j < |r| ==> key(r[i]) != key(r[j])
    ensures Keys(r, key) + seen == WantedKeys(xs, keep, key) + seen
    decreases |xs|
  {
    if |xs| == 0 then []
    else if !keep(xs[0]) || key(xs[0]) in seen then
      var r := KeepFirst(xs[1..], keep, key, seen);
      WantedKeysCons(xs, keep, key);
      r
    else
      var rest := KeepFirst(xs[1..], keep, key, seen + {key(xs[0])});
      WantedKeysCons(xs, keep, key);
      KeysCons(xs[0], rest, key);
      [xs[0]] + rest
  }

  lemma KeysCons<T, K>(x: T, xs: seq<T>, key: T -> K)
    ensures Keys([x] + xs, key) == {key(x)} + Keys(xs, key)
  {
    var ys := [x] + xs;
    forall k | k in Keys(ys, key) ensures k in {key(x)} + Keys(xs, key) {
      var i :| 0 <= i < |ys| && key(ys[i]) == k;
      if i > 0 { assert ys[i] == xs[i - 1]; }
    }
    forall k | k in Keys(xs, key) ensures k in Keys(ys, key) {
      var i :| 0 <= i < |xs| && key(xs[i]) == k;
      assert ys[i + 1] == xs[i];
    }
    assert ys[0] == x;
  }

  lemma KeysSnoc<T, K>(xs: seq<T>, x: T, key: T -> K)
    ensures Keys(xs + [x], key) == Keys(xs, key) + {key(x)}
  {
    var ys := xs + [x];
    forall k | k in Keys(ys, key) ensures k in Keys(xs, key) + {key(x)} {
      var i :| 0 <= i < |ys| && key(ys[i]) == k;
      if i < |xs| { assert ys[i] == xs[i]; }
    }
    forall k | k in Keys(xs, key) ensures k in Keys(ys, key) {
      var i :| 0 <= i < |xs| && key(xs[i]) == k;
      assert ys[i] == xs[i];
    }
    assert ys[|xs|] == x;
  }

  lemma WantedKeysCons<T, K>(xs: seq<T>, keep: T -> bool, key: T -> K)
    requires |xs| > 0
    ensures WantedKeys(xs, keep, key)
         == (if keep(xs[0]) then {key(xs[0])} else {}) + WantedKeys(xs[1..], keep, key)
  {
    var tail := xs[1..];
    forall k | k in WantedKeys(xs, keep, key)
      ensures k in (if keep(xs[0]) then {key(xs[0])} else {}) + WantedKeys(tail, keep, key)
    {
      var i :| 0 <= i < |xs| && keep(xs[i]) && key(xs[i]) == k;
      if i > 0 { assert xs[i] == tail[i - 1]; }
    }
    forall k | k in WantedKeys(tail, keep, key) ensures k in WantedKeys(xs, keep, key) {
      var i :| 0 <= i < |tail| && keep(tail[i]) && key(tail[i]) == k;
      assert xs[i + 1] == tail[i];
    }
  }

  /** One more loop iteration: the new item is kept exactly when it is wanted and its key is not yet seen. */
  lemma {:induction false} KeepFirstSnoc<T, K>(xs: seq<T>, x: T, keep: T -> bool, key: T -> K, seen: set<K>)
    ensures KeepFirst(xs + [x], keep, key, seen)
         == KeepFirst(xs, keep, key, seen)
            + (if keep(x) && key(x) !in seen + Keys(KeepFirst(xs, keep, key, seen), key) then [x] else [])
    decreases |xs|
  {
    var ys := xs + [x];
    if |xs| == 0 {
      assert ys == [x];
      assert Keys([], key) == {};
    } else {
      assert ys[0] == xs[0] && ys[1..] == xs[1..] + [x];
      if !keep(xs[0]) || key(xs[0]) in seen {
        KeepFirstSnoc(xs[1..], x, keep, key, seen);
      } else {
        var seen' := seen + {key(xs[0])};
        KeepFirstSnoc(xs[1..], x, keep, key, seen');
        KeysCons(xs[0], KeepFirst(xs[1..], keep, key, seen'), key);
      }
    }
  }

  /**
   The loop body over a prefix: after `xs[..i]` the loop holds `kept` and its
   keys `seen`; item `i` is appended and its key recorded exactly when it is
   wanted and its key is new.
   */
  lemma KeepFirstPrefixStep<T, K>(xs: seq<T>, i: nat, keep: T -> bool, key: T -> K, kept: seq<T>, seen: set<K>)
    requires i < |xs|
    requires kept == KeepFirst(xs[..i], keep, key, {}) && seen == Keys(kept, key)
    ensures if keep(xs[i]) && key(xs[i]) !in seen
            then KeepFirst(xs[..i + 1], keep, key, {}) == kept + [xs[i]] && Keys(kept + [xs[i]], key) == seen + {key(xs[i])}
            else KeepFirst(xs[..i + 1], keep, key, {}) == kept
  {
    assert xs[..i + 1] == xs[..i] + [xs[i]];
    KeepFirstSnoc(xs[..i], xs[i], keep, key, {});
    assert {} + seen == seen;
    KeysSnoc(kept, xs[i], key);
  }

  /**
   Independent description of what the loop keeps: the item at index `i` is
   kept exactly when it is wanted, its key was not seen before the loop, and no
   earlier wanted item has the same key. The first occurrence wins.
   */
  ghost predicate IsFirstWanted<T, K>(xs: seq<T>, keep: T -> bool, key: T -> K, seen: set<K>, i: nat)
    requires i < |xs|
  {
    && keep(xs[i])
    && key(xs[i]) !in seen
    && forall j :: 0 <= j < i && keep(xs[j]) ==> key(xs[j]) != key(xs[i])
  }

  /** The items of `xs[..n]` that are first wanted occurrences, in their original order. */
  ghost function FirstWanted<T, K>(xs: seq<T>, keep: T -> bool, key: T -> K, seen: set<K>, n: nat): seq<T>
    requires n <= |xs|
  {
    if n == 0 then []
    else FirstWanted(xs, keep, key, seen, n - 1)
         + (if IsFirstWanted(xs, keep, key, seen, n - 1) then [xs[n - 1]] else [])
  }

  /** Item `n` is a first wanted occurrence exactly when it is wanted and its key is neither seen nor wanted earlier. */
  lemma IsFirstWantedByKeys<T, K>(xs: seq<T>, keep: T -> bool, key: T -> K, seen: set<K>, n: nat)
    requires n < |xs|
    ensures IsFirstWanted(xs, keep, key, seen, n)
        <==> keep(xs[n]) && key(xs[n]) !in seen + WantedKeys(xs[..n], keep, key)
  {
    if key(xs[n]) in WantedKeys(xs[..n], keep, key) {
      var j :| 0 <= j < n && keep(xs[..n][j]) && key(xs[..n][j]) == key(xs[n]);
      assert xs[..n][j] == xs[j];
    } else {
      forall j | 0 <= j < n && keep(xs[j]) ensures key(xs[j]) != key(xs[n]) {
        assert xs[..n][j] == xs[j];
      }
    }
  }

  /** One loop iteration keeps the loop and the reference description in step. */
  lemma KeepFirstIsFirstWantedStep<T, K>(xs: seq<T>, keep: T -> bool, key: T -> K, seen: set<K>, n: nat)
    requires n < |xs|
    requires KeepFirst(xs[..n], keep, key, seen) == FirstWanted(xs, keep, key, seen, n)
    ensures KeepFirst(xs[..n + 1], keep, key, seen) == FirstWanted(xs, keep, key, seen, n + 1)
  {
    var before := xs[..n];
    var prefix := KeepFirst(before, keep, key, seen);
    assert xs[..n + 1] == before + [xs[n]];
    KeepFirstSnoc(before, xs[n], keep, key, seen);
    IsFirstWantedByKeys(xs, keep, key, seen, n);
    var taken := keep(xs[n]) && key(xs[n]) !in seen + Keys(prefix, key);
    assert taken == IsFirstWanted(xs, keep, key, seen, n) by {
      assert seen + Keys(prefix, key) == seen + WantedKeys(before, keep, key);
    }
  }

  /** The loop keeps exactly the first wanted occurrence of each unseen key, in input order. */
  lemma KeepFirstIsFirstWanted<T, K>(xs: seq<T>, keep: T -> bool, key: T -> K, seen: set<K>)
    ensures KeepFirst(xs, keep, key, seen) == FirstWanted(xs, keep, key, seen, |xs|)
  {
    var n: nat := 0;
    while n < |xs|
      invariant n <= |xs|
      invariant KeepFirst(xs[..n], keep, key, seen) == FirstWanted(xs, keep, key, seen, n)
    {
      KeepFirstIsFirstWantedStep(xs, keep, key, seen, n);
      n := n + 1;
    }
    assert xs[..|xs|] == xs;
  }

  /** The members of `FirstWanted` are exactly the first wanted occurrences before `n`. */
  lemma {:induction false} FirstWantedMembers<T, K>(xs: seq<T>, keep: T -> bool, key: T -> K, seen: set<K>, n: nat, x: T)
    requires n <= |xs|
    ensures x in FirstWanted(xs, keep, key, seen, n)
        <==> exists i :: 0 <= i < n && xs[i] == x && IsFirstWanted(xs, keep, key, seen, i)
  {
    if n > 0 {
      FirstWantedMembers(xs, keep, key, seen, n - 1, x);
    }
  }

  /** An item is kept exactly when it is the first wanted occurrence of an unseen key. */
  lemma KeepFirstMembers<T, K>(xs: seq<T>, keep: T -> bool, key: T -> K, seen: set<K>, x: T)
    ensures x in KeepFirst(xs, keep, key, seen)
        <==> exists i :: 0 <= i < |xs| && xs[i] == x && IsFirstWanted(xs, keep, key, seen, i)
  {
    KeepFirstIsFirstWanted(xs, keep, key, seen);
    FirstWantedMembers(xs, keep, key, seen, |xs|, x);
  }

  /** Order is kept: what the loop keeps is a subsequence of its input. */
  lemma {:induction false} KeepFirstIsSubseq<T, K>(xs: seq<T>, keep: T -> bool, key: T -> K, seen: set<K>)
    ensures IsSubseq(KeepFirst(xs, keep, key, seen), xs)
    decreases |xs|
  {
    var r := KeepFirst(xs, keep, key, seen);
    if |xs| > 0 {
      if !keep(xs[0]) || key(xs[0]) in seen {
        KeepFirstIsSubseq(xs[1..], keep, key, seen);
      } else {
        KeepFirstIsSubseq(xs[1..], keep, key, seen + {key(xs[0])});
        assert r[0] == xs[0] && r[1..] == KeepFirst(xs[1..], keep, key, seen + {key(xs[0])});
      }
    }
  }

  /** A list of wanted items with distinct, unseen keys passes through the loop unchanged. */
  lemma {:induction false} KeepFirstFixesDistinct<T, K>(ys: seq<T>, keep: T -> bool, key: T -> K, seen: set<K>)
    requires forall i :: 0 <= i < |ys| ==> keep(ys[i]) && key(ys[i]) !in seen
    requires forall i, j :: 0 <= i < j < |ys| ==> key(ys[i]) != key(ys[j])
    ensures KeepFirst(ys, keep, key, seen) == ys
    decreases |ys|
  {
    if |ys| > 0 {
      var seen' := seen + {key(ys[0])};
      forall i | 0 <= i < |ys[1..]| ensures keep(ys[1..][i]) && key(ys[1..][i]) !in seen' {
        assert ys[1..][i] == ys[i + 1];
      }
      KeepFirstFixesDistinct(ys[1..], keep, key, seen');
      assert ys == [ys[0]] + ys[1..];
    }
  }

  /** Running the loop again on its own output changes nothing. */
  lemma KeepFirstIdempotent<T, K>(xs: seq<T>, keep: T -> bool, key: T -> K, seen: set<K>)
    ensures KeepFirst(KeepFirst(xs, keep, key, seen), keep, key, seen) == KeepFirst(xs, keep, key, seen)
  {
    KeepFirstFixesDistinct(KeepFirst(xs, keep, key, seen), keep, key, seen);
  }
}
