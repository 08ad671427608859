/** Small facts about the size of finite sets. */
module SetFacts {
  lemma AtLeastTwo<T>(all: set<T>, x: T, y: T)
    requires x in all && y in all && x != y
    ensures |all| > 1
  {
    assert all == {x} + ({y} + (all - {x, y}));
  }

  lemma TwoElements<T>(all: set<T>) returns (x: T, y: T)
    requires |all| > 1
    ensures x in all && y in all && x != y
  {
    x :| x in all;
    assert |all - {x}| > 0;
    y :| y in all - {x};
  }

  lemma TheOnlyElement<T>(all: set<T>)
    requires |all| == 1
    ensures exists x :: x in all && all == {x}
  {
    var x :| x in all;
    assert |all - {x}| == 0;
    assert all == {x};
  }

  lemma SmallerWithout<T>(part: set<T>, all: set<T>, x: T)
    requires part <= all && x in all && x !in part
    ensures |part| < |all|
  {
    assert all == (all - part) + part && x in all - part;
  }
}
