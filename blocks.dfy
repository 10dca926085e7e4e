/** A file's content as bytes, the blocks that successive `read(n)` calls
    return, and the 256-bucket byte histogram. */
module BlockReader {
  import opened Sequences

  type byte = x: int | 0 <= x < 256

  /** Number of bytes one `read(n)` returns when `remaining` bytes are left:
      everything for a negative `n`, at most `n` otherwise (so nothing for 0). */
  function ReadLen(n: int, remaining: nat): (r: nat)
    ensures r <= remaining && (0 <= n ==> r <= n)
    ensures r == 0 <==> n == 0 || remaining == 0
    ensures r < remaining ==> r == n
  {
    if n < 0 then remaining else if n < remaining then n else remaining
  }

  /** The non-empty blocks read from position `pos` on, up to the first empty read. */
  function BlocksFrom(c: seq<byte>, pos: nat, n: int): (r: seq<seq<byte>>)
    requires pos <= |c|
    ensures forall i :: 0 <= i < |r| ==> |r[i]| > 0
    ensures r == [] <==> n == 0 || pos == |c|
    decreases |c| - pos
  {
    var k := ReadLen(n, |c| - pos);
    if k == 0 then [] else [c[pos..pos + k]] + BlocksFrom(c, pos + k, n)
  }

  /** The blocks a read loop with block size `n` obtains from content `c`. */
  function Blocks(c: seq<byte>, n: int): (r: seq<seq<byte>>)
    ensures forall i :: 0 <= i < |r| ==> |r[i]| > 0
    ensures r == [] <==> n == 0 || |c| == 0
  {
    BlocksFrom(c, 0, n)
  }

  lemma {:induction false} BlocksFromCover(c: seq<byte>, pos: nat, n: int)
    requires pos <= |c|
    ensures Concat(BlocksFrom(c, pos, n)) == if n == 0 then [] else c[pos..]
    decreases |c| - pos
  {
    var k := ReadLen(n, |c| - pos);
    if k != 0 {
      BlocksFromCover(c, pos + k, n);
      var bs := BlocksFrom(c, pos, n);
      assert bs[0] == c[pos..pos + k] && bs[1..] == BlocksFrom(c, pos + k, n);
      assert c[pos..] == c[pos..pos + k] + c[pos + k..];
    }
  }

  /** The blocks joined give back the whole content for any non-zero block
      size; a block size of 0 reads nothing. */
  lemma BlocksCover(c: seq<byte>, n: int)
    ensures Concat(Blocks(c, n)) == if n == 0 then [] else c
  {
    BlocksFromCover(c, 0, n);
    assert c[0..] == c;
  }

  /** With a positive block size every block holds between 1 and `n` bytes, and
      every block but the last holds exactly `n`. */
  lemma {:induction false} BlockSizes(c: seq<byte>, pos: nat, n: int)
    requires pos <= |c| && n >= 1
    ensures forall i :: 0 <= i < |BlocksFrom(c, pos, n)| ==> 1 <= |BlocksFrom(c, pos, n)[i]| <= n
    ensures forall i :: 0 <= i < |BlocksFrom(c, pos, n)| - 1 ==> |BlocksFrom(c, pos, n)[i]| == n
    decreases |c| - pos
  {
    var k := ReadLen(n, |c| - pos);
    if k != 0 {
      BlockSizes(c, pos + k, n);
      var bs, rest := BlocksFrom(c, pos, n), BlocksFrom(c, pos + k, n);
      assert bs == [c[pos..pos + k]] + rest;
      assert |bs| > 1 ==> rest != [] && k == n;
      forall i | 0 <= i < |bs| ensures 1 <= |bs[i]| <= n && (i < |bs| - 1 ==> |bs[i]| == n) {
        if i > 0 {
          assert bs[i] == rest[i - 1];
        }
      }
    }
  }

  /** A negative block size reads the whole content in one block. */
  lemma WholeRead(c: seq<byte>, n: int)
    requires n < 0
    ensures Blocks(c, n) == if c == [] then [] else [c]
  {
    if c != [] {
      assert c[0..|c|] == c;
      assert BlocksFrom(c, |c|, n) == [];
    }
  }

  /** Bucket `b` counts the occurrences of byte value `b`. */
  function Histogram(s: seq<byte>): seq<nat>
  {
    seq(256, b requires 0 <= b < 256 => Count<byte>(s, b))
  }

  /** A list of 256 counts that agrees with the occurrences of every byte value is the histogram. */
  lemma HistogramOf(counts: seq<nat>, s: seq<byte>)
    requires |counts| == 256
    requires forall b :: 0 <= b < 256 ==> counts[b] == Count<byte>(s, b)
    ensures counts == Histogram(s)
  {
  }

  function Sum(xs: seq<nat>): nat
  {
    if xs == [] then 0 else Sum(xs[..|xs| - 1]) + xs[|xs| - 1]
  }

  lemma {:induction false} SumZeros(xs: seq<nat>)
    requires forall i :: 0 <= i < |xs| ==> xs[i] == 0
    ensures Sum(xs) == 0
  {
    if xs != [] {
      SumZeros(xs[..|xs| - 1]);
    }
  }

  lemma {:induction false} SumBump(xs: seq<nat>, i: nat)
    requires i < |xs|
    ensures Sum(xs[i := xs[i] + 1]) == Sum(xs) + 1
  {
    var ys := xs[i := xs[i] + 1];
    var n := |xs| - 1;
    if i == n {
      assert ys[..n] == xs[..n];
    } else {
      SumBump(xs[..n], i);
      assert ys[..n] == xs[..n][i := xs[i] + 1];
    }
  }

  /** The 256 buckets add up to the number of bytes counted. */
  lemma {:induction false} HistogramSum(s: seq<byte>)
    ensures Sum(Histogram(s)) == |s|
  {
    if s == [] {
      SumZeros(Histogram(s));
    } else {
      var init, last := s[..|s| - 1], s[|s| - 1];
      HistogramSum(init);
      var h := Histogram(init);
      assert Histogram(s) == h[last := h[last] + 1];
      SumBump(h, last);
    }
  }
}
