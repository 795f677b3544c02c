/** Option, Result and the sequence vocabulary shared by the whole project. */
module Prelude {

  datatype Option<+T> = None | Some(value: T)

  datatype Result<+T, +E> = Success(value: T) | Failure(error: E)

  type byte = x: int | 0 <= x < 256
  type bytes = seq<byte>

  const LF_BYTE: byte := 10

  /** `s.split(c)` for a one-element separator: always at least one piece. */
  function Split<T(==)>(s: seq<T>, c: T): (r: seq<seq<T>>)
    ensures |r| >= 1
  {
    if s == [] then [[]]
    else if s[0] == c then [[]] + Split(s[1..], c)
    else GrowFirst(s[0], Split(s[1..], c))
  }

  function GrowFirst<T>(x: T, pieces: seq<seq<T>>): seq<seq<T>>
    requires |pieces| >= 1
  {
    [[x] + pieces[0]] + pieces[1..]
  }

  /** `c.join(parts)` for a one-element separator. */
  function Join<T>(parts: seq<seq<T>>, c: T): seq<T> {
    if |parts| == 0 then []
    else if |parts| == 1 then parts[0]
    else parts[0] + [c] + Join(parts[1..], c)
  }

  lemma {:induction false} JoinOfSplit<T>(s: seq<T>, c: T)
    ensures Join(Split(s, c), c) == s
  {
    if s == [] {
    } else {
      JoinOfSplit(s[1..], c);
      var r := Split(s[1..], c);
      if s[0] == c {
        assert ([[]] + r)[1..] == r;
      } else {
        assert GrowFirst(s[0], r)[1..] == r[1..];
      }
    }
  }

  /** No piece of a split contains the separator. */
  lemma {:induction false} SplitPieces<T>(s: seq<T>, c: T)
    ensures forall k :: 0 <= k < |Split(s, c)| ==> c !in Split(s, c)[k]
  {
    if s != [] {
      SplitPieces(s[1..], c);
      var r := Split(s[1..], c);
      if s[0] == c {
        assert forall k :: 1 <= k < |[[]] + r| ==> ([[]] + r)[k] == r[k - 1];
      } else {
        assert forall k :: 1 <= k < |GrowFirst(s[0], r)| ==> GrowFirst(s[0], r)[k] == r[k];
      }
    }
  }

  lemma {:induction false} SplitNoSeparator<T>(s: seq<T>, c: T)
    requires c !in s
    ensures Split(s, c) == [s]
  {
    if s != [] {
      SplitNoSeparator(s[1..], c);
      assert s[0] in s;
      assert [s[0]] + s[1..] == s;
    }
  }

  lemma GrowFirstAppend<T>(x: T, a: seq<seq<T>>, b: seq<seq<T>>)
    requires |a| >= 1
    ensures GrowFirst(x, a + b) == GrowFirst(x, a) + b
  {
    assert (a + b)[1..] == a[1..] + b;
  }

  lemma {:induction false} SplitAppend<T>(a: seq<T>, c: T, b: seq<T>)
    ensures Split(a + [c] + b, c) == Split(a, c) + Split(b, c)
  {
    var s := a + [c] + b;
    if a == [] {
      assert s[1..] == b;
    } else {
      SplitAppend(a[1..], c, b);
      assert s[1..] == a[1..] + [c] + b;
      if a[0] == c {
        assert [[]] + (Split(a[1..], c) + Split(b, c)) == ([[]] + Split(a[1..], c)) + Split(b, c);
      } else {
        GrowFirstAppend(a[0], Split(a[1..], c), Split(b, c));
      }
    }
  }

  lemma {:induction false} SplitOfJoin<T>(parts: seq<seq<T>>, c: T)
    requires |parts| > 0
    requires forall k :: 0 <= k < |parts| ==> c !in parts[k]
    ensures Split(Join(parts, c), c) == parts
  {
    SplitNoSeparator(parts[0], c);
    if |parts| == 1 {
    } else {
      SplitOfJoin(parts[1..], c);
      SplitAppend(parts[0], c, Join(parts[1..], c));
      assert [parts[0]] + parts[1..] == parts;
    }
  }

  /** Up to the first separator a text is determined, and so is what follows it. */
  lemma CutAtSeparator<T>(x: seq<T>, r: seq<T>, y: seq<T>, q: seq<T>, c: T)
    requires c !in x && c !in y
    requires x + [c] + r == y + [c] + q
    ensures x == y && r == q
  {
    var s, t := x + [c] + r, y + [c] + q;
    assert s[|x|] == c && t[|y|] == c;
    assert forall k :: 0 <= k < |y| ==> t[k] in y;
    assert forall k :: 0 <= k < |x| ==> s[k] in x;
    assert |x| == |y|;
    assert x == s[..|x|] && y == t[..|y|];
    assert r == s[|x| + 1..] && q == t[|y| + 1..];
  }
}
