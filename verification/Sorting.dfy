/** std::sort with a comparison, as insertion into an ordered sequence. The order is given as a relation
    "a may stand before b"; what equal elements do is left open by the relation, not by the sort. */
module Sorting {

  ghost predicate TotalOrder<T(!new)>(before: (T, T) -> bool) {
    && (forall a, b :: before(a, b) || before(b, a))
    && (forall a, b, c :: before(a, b) && before(b, c) ==> before(a, c))
  }

  ghost predicate Ordered<T>(s: seq<T>, before: (T, T) -> bool) {
    forall i, j | 0 <= i < j < |s| :: before(s[i], s[j])
  }

  function Insert<T>(x: T, s: seq<T>, before: (T, T) -> bool): (r: seq<T>)
    ensures multiset(r) == multiset(s) + multiset{x}
  {
    if s == [] then [x]
    else if before(x, s[0]) then [x] + s
    else assert s == [s[0]] + s[1..]; [s[0]] + Insert(x, s[1..], before)
  }

  lemma PrependOrdered<T>(x: T, s: seq<T>, before: (T, T) -> bool)
    requires Ordered(s, before) && forall y | y in s :: before(x, y)
    ensures Ordered([x] + s, before)
  {
    var all := [x] + s;
    forall i, j | 0 <= i < j < |all| ensures before(all[i], all[j]) {
      assert all[j] == s[j - 1];
      if i > 0 { assert all[i] == s[i - 1]; }
    }
  }

  lemma {:induction false} InsertOrdered<T(!new)>(x: T, s: seq<T>, before: (T, T) -> bool)
    requires TotalOrder(before) && Ordered(s, before)
    ensures Ordered(Insert(x, s, before), before)
  {
    if s != [] {
      if before(x, s[0]) {
        forall y | y in s ensures before(x, y) {
          assert y == s[0] || before(s[0], y);
        }
        PrependOrdered(x, s, before);
      } else {
        var rest := Insert(x, s[1..], before);
        InsertOrdered(x, s[1..], before);
        forall y | y in rest ensures before(s[0], y) {
          assert y in multiset(rest);
          assert y == x || y in s[1..];
        }
        PrependOrdered(s[0], rest, before);
      }
    }
  }

  method Sort<T(!new)>(s: seq<T>, before: (T, T) -> bool) returns (sorted: seq<T>)
    requires TotalOrder(before)
    ensures Ordered(sorted, before) && multiset(sorted) == multiset(s)
  {
    sorted := [];
    for i := 0 to |s|
      invariant Ordered(sorted, before) && multiset(sorted) == multiset(s[..i])
    {
      assert s[..i + 1] == s[..i] + [s[i]];
      InsertOrdered(s[i], sorted, before);
      sorted := Insert(s[i], sorted, before);
    }
    assert s[..|s|] == s;
  }

  lemma SameElements<T>(s: seq<T>, t: seq<T>)
    requires multiset(s) == multiset(t)
    ensures |s| == |t| && forall x :: x in s <==> x in t
  {
    assert |multiset(s)| == |multiset(t)|;
    forall x ensures x in s <==> x in t {
      assert x in s <==> x in multiset(s);
      assert x in t <==> x in multiset(t);
    }
  }

  /** Ordered, and no two elements could change places. */
  ghost predicate Strict<T>(s: seq<T>, before: (T, T) -> bool) {
    forall i, j | 0 <= i < j < |s| :: before(s[i], s[j]) && !before(s[j], s[i])
  }

  lemma SameFirst<T>(s: seq<T>, t: seq<T>, before: (T, T) -> bool)
    requires Ordered(s, before) && Strict(t, before) && |s| > 0 && |t| > 0
    requires forall x :: x in s <==> x in t
    ensures s[0] == t[0]
  {
    assert s[0] in t && t[0] in s;
    var i :| 0 <= i < |t| && t[i] == s[0];
    var j :| 0 <= j < |s| && s[j] == t[0];
  }

  lemma TailsOrdered<T>(s: seq<T>, t: seq<T>, before: (T, T) -> bool)
    requires Ordered(s, before) && Strict(t, before) && |s| > 0 && |t| > 0
    ensures Ordered(s[1..], before) && Strict(t[1..], before)
  {
  }

  lemma Rejoined<T>(s: seq<T>, t: seq<T>)
    requires |s| > 0 && |t| > 0 && s[0] == t[0] && s[1..] == t[1..]
    ensures s == t
  {
    assert s == [s[0]] + s[1..] && t == [t[0]] + t[1..];
  }

  lemma TailElements<T>(s: seq<T>)
    requires |s| > 0
    ensures multiset(s[1..]) == multiset(s) - multiset{s[0]}
  {
    assert s == [s[0]] + s[1..];
  }

  /** A strictly ordered list is the only ordered arrangement of its elements. */
  lemma {:induction false} SortedUnique<T>(s: seq<T>, t: seq<T>, before: (T, T) -> bool)
    requires Ordered(s, before) && Strict(t, before) && multiset(s) == multiset(t)
    ensures s == t
    decreases |t|
  {
    SameElements(s, t);
    if |t| > 0 {
      SameFirst(s, t, before);
      hide Ordered, Strict;
      TailsOrdered(s, t, before);
      TailElements(s);
      TailElements(t);
      SortedUnique(s[1..], t[1..], before);
      Rejoined(s, t);
    }
  }
}
