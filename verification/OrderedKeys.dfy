/** Keys of a sorted map, numbered in the order of the map: the loops over such a map take the least key first. */
module OrderedKeys {

  ghost predicate IsLeast(a: nat, s: set<nat>) {
    a in s && forall b :: b in s ==> a <= b
  }

  /** At or below any element there is a least one. */
  lemma LeastExists(s: set<nat>, bound: nat)
    requires bound in s
    ensures exists a :: IsLeast(a, s)
    decreases bound
  {
    if b :| b in s && b < bound {
      LeastExists(s, b);
    } else {
      assert IsLeast(bound, s);
    }
  }

  ghost function Least(s: set<nat>): (a: nat)
    requires s != {}
    ensures IsLeast(a, s)
  {
    var bound :| bound in s;
    LeastExists(s, bound);
    var a :| IsLeast(a, s);
    a
  }

  /** The first key of a sorted map. */
  method LeastOf(s: set<nat>) returns (a: nat)
    requires s != {}
    ensures IsLeast(a, s)
  {
    a :| a in s;
    var rest := s - {a};
    while rest != {}
      invariant a in s && rest <= s
      invariant forall b :: b in s ==> b in rest || a <= b
      decreases |rest|
    {
      var b :| b in rest;
      if b < a {
        a := b;
      }
      rest := rest - {b};
    }
  }
}
