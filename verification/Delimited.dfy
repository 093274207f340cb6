/** Unique splitting of delimited text. */
module Delimited {

  lemma FirstIsFirst<T>(x: seq<T>, y: seq<T>, c: T, r: seq<T>, s: seq<T>)
    requires x + [c] + r == y + [c] + s && c !in y
    ensures |y| <= |x|
  {
    assert forall i :: 0 <= i < |y| ==> (y + [c] + s)[i] == y[i];
    assert (x + [c] + r)[|x|] == c;
  }

  /** A sequence splits in one way only at the first occurrence of a delimiter. */
  lemma SplitUnique<T>(x: seq<T>, y: seq<T>, c: T, r: seq<T>, s: seq<T>)
    requires x + [c] + r == y + [c] + s && c !in x && c !in y
    ensures x == y && r == s
  {
    FirstIsFirst(x, y, c, r, s);
    FirstIsFirst(y, x, c, s, r);
    var whole := x + [c] + r;
    assert whole[..|x|] == x && whole[..|y|] == y;
    assert whole[|x| + 1..] == r && whole[|y| + 1..] == s;
  }

  /** Items joined by a delimiter. */
  function Join<T>(items: seq<seq<T>>, c: T): seq<T>
    requires items != []
  {
    if |items| == 1 then items[0] else items[0] + [c] + Join(items[1..], c)
  }

  predicate Free<T(==)>(items: seq<seq<T>>, c: T) { forall x :: x in items ==> c !in x }

  /** More than one item puts the delimiter into the text. */
  lemma JoinHasDelimiter<T>(items: seq<seq<T>>, c: T)
    requires |items| > 1
    ensures c in Join(items, c)
  {
    assert Join(items, c)[|items[0]|] == c;
  }

  lemma {:induction false} JoinInjective<T>(a: seq<seq<T>>, b: seq<seq<T>>, c: T)
    requires a != [] && b != [] && Free(a, c) && Free(b, c) && Join(a, c) == Join(b, c)
    ensures a == b
    decreases |a|
  {
    assert a[0] in a && b[0] in b;
    if |a| > 1 { JoinHasDelimiter(a, c); }
    if |b| > 1 { JoinHasDelimiter(b, c); }
    if |a| == 1 {
      assert a == [a[0]] && b == [b[0]];
    } else {
      SplitUnique(a[0], b[0], c, Join(a[1..], c), Join(b[1..], c));
      assert Free(a[1..], c) && Free(b[1..], c);
      JoinInjective(a[1..], b[1..], c);
      assert a == [a[0]] + a[1..] && b == [b[0]] + b[1..];
    }
  }

  lemma {:induction false} JoinSnoc<T>(items: seq<seq<T>>, x: seq<T>, c: T)
    requires items != []
    ensures Join(items + [x], c) == Join(items, c) + [c] + x
  {
    if |items| == 1 {
      assert (items + [x])[1..] == [x];
    } else {
      JoinSnoc(items[1..], x, c);
      assert (items + [x])[1..] == items[1..] + [x];
      assert items[0] + [c] + (Join(items[1..], c) + [c] + x) == (items[0] + [c] + Join(items[1..], c)) + [c] + x;
    }
  }
}
