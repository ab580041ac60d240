/** What the compiler's dynamic arrays are used for: lists that hold nothing twice. */
module DynamicArrays {

  ghost predicate Distinct<T>(s: seq<T>) {
    forall i, j :: 0 <= i < j < |s| ==> s[i] != s[j]
  }

  /** Everything in the one list is in the other. */
  ghost predicate AllIn<T>(some: seq<T>, others: seq<T>) {
    forall i {:trigger some[i]} :: 0 <= i < |some| ==> some[i] in others
  }

  /** A list with x at its end, unless it holds x already. */
  function Including<T(==)>(s: seq<T>, x: T): seq<T> {
    if x in s then s else s + [x]
  }

  /** A list without its first occurrence of x, as dynamic_array_delete leaves it. */
  function Without<T(==)>(s: seq<T>, x: T): (r: seq<T>)
    ensures x !in s ==> r == s
  {
    if s == [] then [] else if s[0] == x then s[1..] else [s[0]] + Without(s[1..], x)
  }

  lemma {:induction false} WithoutKeeps<T>(s: seq<T>, x: T)
    ensures forall y {:trigger y in Without(s, x)} {:trigger y in s} :: y in s && y != x ==> y in Without(s, x)
    ensures forall y {:trigger y in Without(s, x)} {:trigger y in s} :: y in Without(s, x) ==> y in s
  {
    if s == [] {
    } else {
      WithoutKeeps(s[1..], x);
      assert s == [s[0]] + s[1..];
    }
  }

  lemma {:induction false} WithoutDistinct<T>(s: seq<T>, x: T)
    requires Distinct(s)
    ensures Distinct(Without(s, x)) && x !in Without(s, x)
  {
    if s == [] {
    } else {
      assert forall i, j :: 0 <= i < j < |s[1..]| ==> s[1..][i] != s[1..][j];
      WithoutDistinct(s[1..], x);
      WithoutKeeps(s[1..], x);
      assert s == [s[0]] + s[1..];
      assert s[0] !in s[1..];
    }
  }

  /** r is s without the first x in it, if there is one, everything else in order. */
  ghost predicate FirstRemoved<T>(s: seq<T>, x: T, r: seq<T>) {
    if x in s then exists k :: 0 <= k < |s| && s[k] == x && x !in s[..k] && r == s[..k] + s[k + 1..] else r == s
  }

  lemma {:induction false} WithoutAt<T>(s: seq<T>, x: T) returns (k: nat)
    requires x in s
    ensures k < |s| && s[k] == x && x !in s[..k] && Without(s, x) == s[..k] + s[k + 1..]
  {
    if s[0] == x {
      k := 0;
    } else {
      var rest := s[1..];
      assert s == [s[0]] + rest;
      k := WithoutAt(rest, x);
      assert s[..k + 1] == [s[0]] + rest[..k] && s[k + 2..] == rest[k + 1..];
      k := k + 1;
    }
  }

  lemma WithoutRemovesFirst<T>(s: seq<T>, x: T)
    ensures FirstRemoved(s, x, Without(s, x))
  {
    if x in s {
      var k := WithoutAt(s, x);
    }
  }
}
