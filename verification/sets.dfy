/** Facts about finite sets of rowids. */
module Sets {

  lemma Inhabited(s: set<int>)
    requires s != {}
    ensures exists x :: x in s
  {
    // Spelled as a contradiction so that the witness comes from `s != {}`
    // without any other checked step under the impossible branch.
    if forall x :: x !in s {
      assert false;
    }
  }

  /** Every non-empty finite set of integers has a least element. */
  lemma {:induction false} LeastElement(s: set<int>) returns (m: int)
    requires s != {}
    ensures m in s && forall x :: x in s ==> m <= x
  {
    Inhabited(s);
    var y :| y in s;
    var rest := s - {y};
    if forall x :: x in s ==> x == y {
      m := y;
    } else {
      var z :| z in s && z != y;
      assert z in rest;
      var n := LeastElement(rest);
      m := if y <= n then y else n;
      forall x | x in s ensures m <= x {
        if x != y {
          assert x in rest;
        }
      }
    }
  }

  lemma HasMinimum(s: set<int>)
    requires s != {}
    ensures exists m :: m in s && forall x :: x in s ==> m <= x
  {
    var m := LeastElement(s);
  }

  /** The least element of a non-empty finite set of integers. */
  function MinOf(s: set<int>): (m: int)
    requires s != {}
    ensures m in s && forall x :: x in s ==> m <= x
  {
    HasMinimum(s);
    var m :| m in s && forall x :: x in s ==> m <= x;
    m
  }
}
