/** Python's list comprehensions over one list, `[x for x in xs if keep(x)]`
    and `[f(x) for x in xs if keep(x)]`, with the facts about them that do not
    depend on the test or the mapping. */
module Seqs {

  /** `[x for x in xs if keep(x)]`. */
  function Filter<T>(xs: seq<T>, keep: T -> bool): (r: seq<T>)
    ensures |r| <= |xs|
    ensures forall x | x in r :: keep(x)
  {
    if xs == [] then []
    else (if keep(xs[0]) then [xs[0]] else []) + Filter(xs[1..], keep)
  }

  /** Each kept element occurs as often as in the input; the others not at all. */
  lemma {:induction false} FilterCount<T>(xs: seq<T>, keep: T -> bool, x: T)
    ensures multiset(Filter(xs, keep))[x] == if keep(x) then multiset(xs)[x] else 0
  {
    if xs != [] {
      FilterCount(xs[1..], keep, x);
      assert xs == [xs[0]] + xs[1..];
    }
  }

  /** `[f(x) for x in xs if keep(x)]`. */
  function FilterMap<T, U>(xs: seq<T>, keep: T -> bool, f: T -> U): (r: seq<U>)
    ensures |r| <= |xs|
  {
    if xs == [] then []
    else (if keep(xs[0]) then [f(xs[0])] else []) + FilterMap(xs[1..], keep, f)
  }

  /** One result per kept element. */
  lemma {:induction false} FilterMapLength<T, U>(xs: seq<T>, keep: T -> bool, f: T -> U)
    ensures |FilterMap(xs, keep, f)| == |Filter(xs, keep)|
  {
    if xs != [] {
      FilterMapLength(xs[1..], keep, f);
    }
  }

  lemma {:induction false} FilterMapSnoc<T, U>(xs: seq<T>, x: T, keep: T -> bool, f: T -> U)
    ensures FilterMap(xs + [x], keep, f) == FilterMap(xs, keep, f) + (if keep(x) then [f(x)] else [])
  {
    if xs != [] {
      assert (xs + [x])[1..] == xs[1..] + [x];
      FilterMapSnoc(xs[1..], x, keep, f);
    }
  }

  /** `y` is in the result exactly when it is the image of a kept element. */
  lemma {:induction false} FilterMapMembers<T, U>(xs: seq<T>, keep: T -> bool, f: T -> U, y: U)
    ensures y in FilterMap(xs, keep, f) <==> exists j | 0 <= j < |xs| :: keep(xs[j]) && f(xs[j]) == y
  {
    if xs != [] {
      var tail := xs[1..];
      FilterMapMembers(tail, keep, f, y);
      if y in FilterMap(tail, keep, f) {
        var j :| 0 <= j < |tail| && keep(tail[j]) && f(tail[j]) == y;
        assert xs[j + 1] == tail[j];
      }
      forall j | 0 < j < |xs| && keep(xs[j]) && f(xs[j]) == y
        ensures y in FilterMap(tail, keep, f)
      {
        assert tail[j - 1] == xs[j];
      }
    }
  }

  /** Every position of the result comes from a kept element, and later
      positions from later elements. */
  lemma {:induction false} FilterMapOrigins<T, U>(xs: seq<T>, keep: T -> bool, f: T -> U, i: int, j: int)
    requires 0 <= i < j < |FilterMap(xs, keep, f)|
    ensures exists a, b | 0 <= a < b < |xs| :: && keep(xs[a]) && FilterMap(xs, keep, f)[i] == f(xs[a])
                                                && keep(xs[b]) && FilterMap(xs, keep, f)[j] == f(xs[b])
  {
    var all, tail := FilterMap(xs, keep, f), FilterMap(xs[1..], keep, f);
    if keep(xs[0]) {
      assert all == [f(xs[0])] + tail;
      if i == 0 {
        FilterMapMembers(xs[1..], keep, f, tail[j - 1]);
        var m :| 0 <= m < |xs[1..]| && keep(xs[1..][m]) && f(xs[1..][m]) == tail[j - 1];
        assert all[i] == f(xs[0]) && all[j] == f(xs[m + 1]) && keep(xs[m + 1]);
      } else {
        FilterMapOrigins(xs[1..], keep, f, i - 1, j - 1);
        var a, b :| 0 <= a < b < |xs[1..]| && keep(xs[1..][a]) && tail[i - 1] == f(xs[1..][a])
                                           && keep(xs[1..][b]) && tail[j - 1] == f(xs[1..][b]);
        assert all[i] == f(xs[a + 1]) && all[j] == f(xs[b + 1]) && keep(xs[a + 1]) && keep(xs[b + 1]);
      }
    } else {
      assert all == tail;
      FilterMapOrigins(xs[1..], keep, f, i, j);
      var a, b :| 0 <= a < b < |xs[1..]| && keep(xs[1..][a]) && tail[i] == f(xs[1..][a])
                                         && keep(xs[1..][b]) && tail[j] == f(xs[1..][b]);
      assert all[i] == f(xs[a + 1]) && all[j] == f(xs[b + 1]) && keep(xs[a + 1]) && keep(xs[b + 1]);
    }
  }
}
