/** Facts about sequences that the verifier has to be told. */
module Sequences {

  lemma PrefixStep<T>(s: seq<T>, i: nat)
    requires i < |s|
    ensures s[..i + 1] == s[..i] + [s[i]] && s[..i + 1][..i] == s[..i]
    ensures forall x :: x in s[..i + 1] <==> x in s[..i] || x == s[i]
  {
  }

  lemma Associative<T>(a: seq<T>, b: seq<T>, c: seq<T>)
    ensures a + b + c == a + (b + c)
  {
  }

  // ---------- lists without repetition ----------

  ghost predicate Distinct<T>(s: seq<T>) {
    forall i, j | 0 <= i < j < |s| :: s[i] != s[j]
  }

  lemma DistinctAppend<T>(s: seq<T>, t: seq<T>)
    requires Distinct(s) && Distinct(t) && forall x | x in t :: x !in s
    ensures Distinct(s + t) && forall x :: x in s + t <==> x in s || x in t
  {
    var all := s + t;
    forall i, j | 0 <= i < j < |all| ensures all[i] != all[j] {
      if i < |s| <= j {
        assert all[i] in s && all[j] in t;
      }
    }
  }

  lemma {:induction false} DistinctSize<T>(s: seq<T>)
    requires Distinct(s)
    ensures |set x | x in s| == |s|
  {
    if s != [] {
      var front, last := s[..|s| - 1], s[|s| - 1];
      DistinctSize(front);
      assert (set x | x in s) == (set x | x in front) + {last};
    }
  }

  // ---------- sums ----------

  function Sum<T>(s: seq<T>, f: T -> int): int {
    if s == [] then 0 else Sum(s[..|s| - 1], f) + f(s[|s| - 1])
  }

  lemma {:induction false} SumWithout<T>(s: seq<T>, f: T -> int, i: nat)
    requires i < |s|
    ensures Sum(s, f) == Sum(s[..i] + s[i + 1..], f) + f(s[i])
    decreases |s|
  {
    var front, last := s[..|s| - 1], s[|s| - 1];
    if i == |s| - 1 {
      assert s[..i] + s[i + 1..] == front;
    } else {
      SumWithout(front, f, i);
      WithoutInFront(s, i);
    }
  }

  lemma WithoutInFront<T>(s: seq<T>, i: nat)
    requires i < |s| - 1
    ensures var front, rest := s[..|s| - 1], s[..i] + s[i + 1..];
            |rest| == |s| - 1 && rest[..|rest| - 1] == front[..i] + front[i + 1..] && rest[|rest| - 1] == s[|s| - 1]
  {
  }

  /** A sum does not depend on the order. */
  lemma {:induction false} SumOfMultiset<T>(s: seq<T>, t: seq<T>, f: T -> int)
    requires multiset(s) == multiset(t)
    ensures Sum(s, f) == Sum(t, f)
    decreases |s|
  {
    assert |s| == |multiset(s)| == |multiset(t)| == |t|;
    if s != [] {
      var front, last := s[..|s| - 1], s[|s| - 1];
      assert s == front + [last];
      assert last in multiset(t);
      var i :| 0 <= i < |t| && t[i] == last;
      var rest := t[..i] + t[i + 1..];
      assert t == t[..i] + [last] + t[i + 1..];
      assert multiset(front) == multiset(s) - multiset{last};
      assert multiset(rest) == multiset(t) - multiset{last};
      SumWithout(t, f, i);
      SumOfMultiset(front, rest, f);
    }
  }
}
