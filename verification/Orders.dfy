/** Least elements of finite sets. */
module Orders {

  ghost predicate Total<T(!new)>(leq: (T, T) -> bool) {
    && (forall x, y :: leq(x, y) || leq(y, x))
    && (forall x, y, z :: leq(x, y) && leq(y, z) ==> leq(x, z))
  }

  ghost predicate IsLeast<T(!new)>(s: set<T>, leq: (T, T) -> bool, r: T) {
    r in s && forall x :: x in s ==> leq(r, x)
  }

  lemma {:induction false} Least<T(!new)>(s: set<T>, leq: (T, T) -> bool) returns (r: T)
    requires s != {} && Total(leq)
    ensures IsLeast(s, leq, r)
  {
    hide Total;
    r :| r in s;
    if s == {r} {
      Compare(leq, r, r, r);
    } else {
      var rest := s - {r};
      var m := Least(rest, leq);
      var first := r;
      Compare(leq, first, m, m);
      r := if leq(first, m) then first else m;
      forall x | x in s ensures leq(r, x) {
        assert x == first || x in rest;
        Compare(leq, first, m, x);
        Compare(leq, first, first, first);
      }
    }
  }

  lemma Compare<T(!new)>(leq: (T, T) -> bool, x: T, y: T, z: T)
    requires Total(leq)
    ensures (leq(x, y) || leq(y, x)) && (leq(x, y) && leq(y, z) ==> leq(x, z))
  {
  }
}
