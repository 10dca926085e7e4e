/** Sequence helpers shared by the digest engine: occurrence counts,
    concatenation of blocks, and the input an accumulator receives. */
module Sequences {

  /** Number of occurrences of `x` in `s`. */
  function Count<T(==)>(s: seq<T>, x: T): nat
  {
    if s == [] then 0 else Count(s[..|s| - 1], x) + (if s[|s| - 1] == x then 1 else 0)
  }

  lemma {:induction false} CountAppend<T>(a: seq<T>, b: seq<T>, x: T)
    ensures Count(a + b, x) == Count(a, x) + Count(b, x)
  {
    if b == [] {
      assert a + b == a;
    } else {
      CountAppend(a, b[..|b| - 1], x);
      assert (a + b)[..|a + b| - 1] == a + b[..|b| - 1];
    }
  }

  lemma CountSnoc<T>(s: seq<T>, y: T, x: T)
    ensures Count(s + [y], x) == Count(s, x) + if y == x then 1 else 0
  {
    assert (s + [y])[..|s|] == s;
  }

  lemma {:induction false} CountAbsent<T>(s: seq<T>, x: T)
    requires x !in s
    ensures Count(s, x) == 0
  {
    if s != [] {
      assert s[..|s| - 1] + [s[|s| - 1]] == s;
      CountAbsent(s[..|s| - 1], x);
    }
  }

  /** No element occurs twice. */
  predicate Distinct<T(==)>(s: seq<T>)
  {
    forall i, j :: 0 <= i < j < |s| ==> s[i] != s[j]
  }

  /** In a list without repetitions every member occurs exactly once. */
  lemma {:induction false} CountDistinct<T>(s: seq<T>, x: T)
    requires Distinct(s)
    ensures Count(s, x) == if x in s then 1 else 0
  {
    if s != [] {
      var init, last := s[..|s| - 1], s[|s| - 1];
      assert s == init + [last];
      CountDistinct(init, x);
      if x == last {
        assert x !in init by {
          forall i | 0 <= i < |init| ensures init[i] != x {
            assert init[i] == s[i];
          }
        }
      }
    }
  }

  /** The blocks joined in order. */
  function Concat<T>(bs: seq<seq<T>>): seq<T>
  {
    if bs == [] then [] else bs[0] + Concat(bs[1..])
  }

  lemma {:induction false} ConcatSnoc<T>(bs: seq<seq<T>>, b: seq<T>)
    ensures Concat(bs + [b]) == Concat(bs) + b
  {
    if bs == [] {
      assert bs + [b] == [b];
      assert Concat([b]) == b + Concat([b][1..]);
    } else {
      assert (bs + [b])[1..] == bs[1..] + [b];
      ConcatSnoc(bs[1..], b);
    }
  }

  lemma {:induction false} ConcatAppend<T>(xs: seq<seq<T>>, ys: seq<seq<T>>)
    ensures Concat(xs + ys) == Concat(xs) + Concat(ys)
  {
    if ys == [] {
      assert xs + ys == xs;
    } else {
      var init, last := ys[..|ys| - 1], ys[|ys| - 1];
      assert ys == init + [last];
      assert xs + ys == (xs + init) + [last];
      ConcatAppend(xs, init);
      ConcatSnoc(xs + init, last);
      ConcatSnoc(init, last);
    }
  }

  lemma AppendAssoc<T>(a: seq<T>, b: seq<T>, c: seq<T>)
    ensures (a + b) + c == a + (b + c)
  {
  }

  /** `b` written `m` times in a row. */
  function Repeat<T>(b: seq<T>, m: nat): seq<T>
  {
    if m == 0 then [] else Repeat(b, m - 1) + b
  }

  /** What an accumulator receives when each block, in order, is given to it
      `m` times in a row. */
  function Fed<T>(bs: seq<seq<T>>, m: nat): seq<T>
  {
    if bs == [] then [] else Fed(bs[..|bs| - 1], m) + Repeat(bs[|bs| - 1], m)
  }

  lemma FedSnoc<T>(bs: seq<seq<T>>, b: seq<T>, m: nat)
    ensures Fed(bs + [b], m) == Fed(bs, m) + Repeat(b, m)
  {
    assert (bs + [b])[..|bs|] == bs;
  }

  lemma {:induction false} FedAppend<T>(xs: seq<seq<T>>, ys: seq<seq<T>>, m: nat)
    ensures Fed(xs + ys, m) == Fed(xs, m) + Fed(ys, m)
  {
    if ys == [] {
      assert xs + ys == xs;
    } else {
      var init, last := ys[..|ys| - 1], ys[|ys| - 1];
      assert ys == init + [last];
      assert xs + ys == (xs + init) + [last];
      FedAppend(xs, init, m);
      FedSnoc(xs + init, last, m);
      FedSnoc(init, last, m);
    }
  }

  /** An accumulator given each block once receives exactly the blocks joined. */
  lemma {:induction false} FedOnce<T>(bs: seq<seq<T>>)
    ensures Fed(bs, 1) == Concat(bs)
  {
    if bs != [] {
      var init, last := bs[..|bs| - 1], bs[|bs| - 1];
      FedOnce(init);
      assert bs == init + [last];
      ConcatSnoc(init, last);
      assert Repeat(last, 1) == Repeat(last, 0) + last == last;
      assert Fed(bs, 1) == Fed(init, 1) + Repeat(last, 1);
    }
  }
}
