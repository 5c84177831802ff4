/** Lists without duplicates, and values that may be missing. */
module Containers {

  datatype Option<T> = None | Some(value: T)

  ghost predicate NoDup<T>(s: seq<T>) {
    forall i, j :: 0 <= i < j < |s| ==> s[i] != s[j]
  }

  // TAILQ_REMOVE
  function Without<T(==)>(s: seq<T>, x: T): seq<T> {
    if s == [] then [] else if s[0] == x then s[1..] else [s[0]] + Without(s[1..], x)
  }

  lemma {:induction false} WithoutFacts<T>(s: seq<T>, x: T)
    requires NoDup(s)
    ensures NoDup(Without(s, x)) && |Without(s, x)| == (if x in s then |s| - 1 else |s|)
    ensures forall y :: y in Without(s, x) <==> y in s && y != x
  {
    if s != [] {
      assert forall y :: y in s <==> y == s[0] || y in s[1..];
      assert NoDup(s[1..]) && s[0] !in s[1..];
      WithoutFacts(s[1..], x);
      NoDupCons(s[0], Without(s[1..], x));
    }
  }

  lemma NoDupCons<T>(h: T, t: seq<T>)
    requires NoDup(t)
    ensures h !in t ==> NoDup([h] + t)
  {
  }

  lemma NoDupSnoc<T>(t: seq<T>, h: T)
    requires NoDup(t) && h !in t
    ensures NoDup(t + [h])
  {
  }
}
