/**
 Counting over sequences: the one notion of "how many elements satisfy a
 predicate" that every step of the inspection is built on (null counts,
 parse counts, outlier counts, heavily-null rows), plus the sum of a
 sequence of counts.
 */
module Counting {

  /** Number of elements of `s` that satisfy `p`. */
  function CountIf<T>(s: seq<T>, p: T -> bool): (n: nat)
    ensures n <= |s|
  {
    if |s| == 0 then 0 else (if p(s[0]) then 1 else 0) + CountIf(s[1..], p)
  }

  /** Sum of a sequence of naturals. */
  function Sum(s: seq<nat>): (n: nat)
  {
    if |s| == 0 then 0 else s[0] + Sum(s[1..])
  }

  /** `k` copies of `block`, one after the other. */
  function Repeat<T>(block: seq<T>, k: nat): (r: seq<T>)
    ensures |r| == k * |block|
  {
    if k == 0 then [] else block + Repeat(block, k - 1)
  }

  /** Counting distributes over concatenation. */
  lemma {:induction false} CountIfAppend<T>(a: seq<T>, b: seq<T>, p: T -> bool)
    ensures CountIf(a + b, p) == CountIf(a, p) + CountIf(b, p)
  {
    if |a| == 0 {
      assert a + b == b;
    } else {
      assert (a + b)[1..] == a[1..] + b;
      CountIfAppend(a[1..], b, p);
    }
  }

  /** Counting over `k` repetitions of a block is `k` times the count over the block. */
  lemma {:induction false} CountIfRepeat<T>(block: seq<T>, k: nat, p: T -> bool)
    ensures CountIf(Repeat(block, k), p) == k * CountIf(block, p)
  {
    if k > 0 {
      CountIfAppend(block, Repeat(block, k - 1), p);
      CountIfRepeat(block, k - 1, p);
      assert k * CountIf(block, p) == CountIf(block, p) + (k - 1) * CountIf(block, p);
    }
  }

  /** The count reaches the length exactly when every element satisfies the predicate. */
  lemma {:induction false} CountIfFull<T>(s: seq<T>, p: T -> bool)
    ensures CountIf(s, p) == |s| <==> forall i :: 0 <= i < |s| ==> p(s[i])
  {
    if |s| > 0 {
      CountIfFull(s[1..], p);
      if CountIf(s, p) == |s| {
        forall i | 0 <= i < |s| ensures p(s[i]) {
          if i > 0 {
            assert s[i] == s[1..][i - 1];
          }
        }
      } else {
        assert !p(s[0]) || !(forall i :: 0 <= i < |s[1..]| ==> p(s[1..][i]));
      }
    }
  }

  /** Exactly one of `p` and its negation holds of each element. */
  lemma {:induction false} CountIfComplement<T>(s: seq<T>, p: T -> bool, q: T -> bool)
    requires forall x :: q(x) <==> !p(x)
    ensures CountIf(s, p) + CountIf(s, q) == |s|
  {
    if |s| > 0 {
      CountIfComplement(s[1..], p, q);
    }
  }

  /** A predicate that holds of at least the elements another one holds of counts at least as many. */
  lemma {:induction false} CountIfMonotone<T>(s: seq<T>, p: T -> bool, q: T -> bool)
    requires forall i :: 0 <= i < |s| && p(s[i]) ==> q(s[i])
    ensures CountIf(s, p) <= CountIf(s, q)
  {
    if |s| > 0 {
      assert forall i :: 0 <= i < |s[1..]| ==> s[1..][i] == s[i + 1];
      CountIfMonotone(s[1..], p, q);
    }
  }

  /** Two predicates that agree on the elements of `s` count the same. */
  lemma {:induction false} CountIfSame<T>(s: seq<T>, p: T -> bool, q: T -> bool)
    requires forall i :: 0 <= i < |s| ==> (p(s[i]) <==> q(s[i]))
    ensures CountIf(s, p) == CountIf(s, q)
  {
    CountIfMonotone(s, p, q);
    CountIfMonotone(s, q, p);
  }

  /** If an element satisfies `p`, the count is positive. */
  lemma {:induction false} CountIfWitness<T>(s: seq<T>, p: T -> bool, i: nat)
    requires i < |s| && p(s[i])
    ensures CountIf(s, p) >= 1
  {
    if i > 0 {
      assert s[1..][i - 1] == s[i];
      CountIfWitness(s[1..], p, i - 1);
    }
  }

  /** The count is positive exactly when some element satisfies `p`. */
  lemma CountIfPositive<T>(s: seq<T>, p: T -> bool)
    ensures CountIf(s, p) > 0 <==> exists i :: 0 <= i < |s| && p(s[i])
  {
    if exists i :: 0 <= i < |s| && p(s[i]) {
      var i :| 0 <= i < |s| && p(s[i]);
      CountIfWitness(s, p, i);
    } else {
      CountIfSuffixNone(s, p, 0);
    }
  }

  /** If the first `m` elements all satisfy `p`, at least `m` elements do. */
  lemma {:induction false} CountIfPrefix<T>(s: seq<T>, p: T -> bool, m: nat)
    requires m <= |s|
    requires forall i :: 0 <= i < m ==> p(s[i])
    ensures CountIf(s, p) >= m
  {
    if m > 0 {
      assert forall i :: 0 <= i < m - 1 ==> s[1..][i] == s[i + 1];
      CountIfPrefix(s[1..], p, m - 1);
    }
  }

  /** If no element from position `m` on satisfies `p`, at most `m` elements do. */
  lemma {:induction false} CountIfSuffixNone<T>(s: seq<T>, p: T -> bool, m: nat)
    requires m <= |s|
    requires forall i :: m <= i < |s| ==> !p(s[i])
    ensures CountIf(s, p) <= m
  {
    if |s| > 0 {
      if m == 0 {
        assert !p(s[0]);
        assert forall i :: 0 <= i < |s[1..]| ==> s[1..][i] == s[i + 1];
        CountIfSuffixNone(s[1..], p, 0);
      } else {
        assert forall i :: m - 1 <= i < |s[1..]| ==> s[1..][i] == s[i + 1];
        CountIfSuffixNone(s[1..], p, m - 1);
      }
    }
  }

  /** Taking an element out from between `front` and `back` removes its contribution to the count. */
  lemma CountIfRemove<T>(front: seq<T>, x: T, back: seq<T>, p: T -> bool)
    ensures CountIf(front + [x] + back, p) == (if p(x) then 1 else 0) + CountIf(front + back, p)
  {
    assert CountIf([x], p) == (if p(x) then 1 else 0) + CountIf([x][1..], p);
    assert [x][1..] == [];
    CountIfAppend(front, [x], p);
    CountIfAppend(front + [x], back, p);
    CountIfAppend(front, back, p);
  }

  /** Taking out the element at position `i` removes its contribution to the count. */
  lemma CountIfRemoveAt<T>(b: seq<T>, i: nat, p: T -> bool)
    requires i < |b|
    ensures CountIf(b, p) == (if p(b[i]) then 1 else 0) + CountIf(b[..i] + b[i + 1..], p)
  {
    SplitAt(b, i);
    CountIfRemove(b[..i], b[i], b[i + 1..], p);
  }

  /** A sequence is its part before `i`, its element at `i`, and its part after `i`. */
  lemma SplitAt<T>(b: seq<T>, i: nat)
    requires i < |b|
    ensures b == b[..i] + [b[i]] + b[i + 1..]
  {
    assert b[..i + 1] == b[..i] + [b[i]];
    assert b == b[..i + 1] + b[i + 1..];
  }

  /** Taking out the element at position `i` takes one copy of it out of the multiset. */
  lemma MultisetRemove<T>(b: seq<T>, i: nat)
    requires i < |b|
    ensures multiset(b[..i] + b[i + 1..]) == multiset(b) - multiset{b[i]}
  {
    SplitAt(b, i);
    assert multiset(b) == multiset(b[..i]) + multiset{b[i]} + multiset(b[i + 1..]);
  }

  /** Counting depends only on the multiset of elements, not on their order. */
  lemma {:induction false} CountIfPermutation<T>(a: seq<T>, b: seq<T>, p: T -> bool)
    requires multiset(a) == multiset(b)
    ensures CountIf(a, p) == CountIf(b, p)
  {
    if |a| == 0 {
      assert |b| == |multiset(b)| == 0;
    } else {
      assert a[0] in multiset(b);
      var i :| 0 <= i < |b| && b[i] == a[0];
      assert a == [a[0]] + a[1..];
      assert multiset(a[1..]) == multiset(a) - multiset{a[0]};
      MultisetRemove(b, i);
      CountIfPermutation(a[1..], b[..i] + b[i + 1..], p);
      CountIfRemoveAt(b, i, p);
    }
  }

  /** Adding two sequences position by position adds their sums. */
  lemma {:induction false} SumPointwise(a: seq<nat>, b: seq<nat>, c: seq<nat>)
    requires |a| == |b| == |c|
    requires forall i :: 0 <= i < |c| ==> c[i] == a[i] + b[i]
    ensures Sum(c) == Sum(a) + Sum(b)
  {
    if |c| > 0 {
      SumPointwise(a[1..], b[1..], c[1..]);
    }
  }

  /** A sequence of zeros sums to zero. */
  lemma {:induction false} SumOfZeros(s: seq<nat>)
    requires forall i :: 0 <= i < |s| ==> s[i] == 0
    ensures Sum(s) == 0
  {
    if |s| > 0 {
      SumOfZeros(s[1..]);
    }
  }
}
