/** Failure-carrying values and sequence helpers shared by every module of the model. */
module Wrappers {

  /** A value that may be missing; `None` stands for Python's `None`. */
  datatype Option<+T> = None | Some(value: T)
  {
    function GetOr(default: T): T
    {
      match this
      case Some(v) => v
      case None => default
    }
  }

  /** No element occurs twice. */
  predicate Distinct<T(==)>(xs: seq<T>)
  {
    forall i, j :: 0 <= i < j < |xs| ==> xs[i] != xs[j]
  }

  /** No element of `a` occurs in `b`. */
  predicate Apart<T(==)>(a: seq<T>, b: seq<T>)
  {
    forall i, j :: 0 <= i < |a| && 0 <= j < |b| ==> a[i] != b[j]
  }

  lemma DistinctConcat<T>(a: seq<T>, b: seq<T>)
    requires Distinct(a) && Distinct(b) && Apart(a, b)
    ensures Distinct(a + b)
  {
    forall i, j | 0 <= i < j < |a + b|
      ensures (a + b)[i] != (a + b)[j]
    {
      if j < |a| {
        assert (a + b)[i] == a[i] && (a + b)[j] == a[j];
      } else if i < |a| {
        assert (a + b)[i] == a[i] && (a + b)[j] == b[j - |a|];
      } else {
        assert (a + b)[i] == b[i - |a|] && (a + b)[j] == b[j - |a|];
      }
    }
  }

  lemma ApartConcat<T>(a: seq<T>, b: seq<T>, c: seq<T>)
    requires Apart(a, c) && Apart(b, c)
    ensures Apart(a + b, c)
  {
    forall i, j | 0 <= i < |a + b| && 0 <= j < |c|
      ensures (a + b)[i] != c[j]
    {
      if i < |a| {
        assert (a + b)[i] == a[i];
      } else {
        assert (a + b)[i] == b[i - |a|];
      }
    }
  }

  /** Four pieces without repeats, pairwise apart, make a whole without repeats. */
  lemma DistinctFour<T>(a: seq<T>, b: seq<T>, c: seq<T>, d: seq<T>)
    requires Distinct(a) && Distinct(b) && Distinct(c) && Distinct(d)
    requires Apart(a, b) && Apart(a, c) && Apart(a, d) && Apart(b, c) && Apart(b, d) && Apart(c, d)
    ensures Distinct(a + b + c + d)
  {
    DistinctConcat(a, b);
    ApartConcat(a, b, c);
    DistinctConcat(a + b, c);
    ApartConcat(a, b, d);
    ApartConcat(a + b, c, d);
    DistinctConcat(a + b + c, d);
  }

  /** Moving the head of `b` to the end of `a` leaves the concatenation alone. */
  lemma ShiftHead<T>(a: seq<T>, b: seq<T>)
    requires 0 < |b|
    ensures (a + [b[0]]) + b[1..] == a + b
  {
    assert [b[0]] + b[1..] == b;
  }

  lemma DropLast<T>(a: seq<T>, x: T)
    ensures (a + [x])[..|a|] == a && (a + [x])[|a|] == x
  {
  }
}
