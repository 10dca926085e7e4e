/** Text pieces of the report: decimal numbers, separator-joined fields and the
    upper-cased algorithm names of the header. */
module Text {

  predicate IsDigit(ch: char)
  {
    '0' <= ch <= '9'
  }

  function DigitChar(d: nat): (ch: char)
    requires d < 10
    ensures IsDigit(ch) && ch as int - '0' as int == d
  {
    (d + '0' as int) as char
  }

  /** The `%d` rendering of a non-negative integer. */
  function Decimal(n: nat): (r: string)
    ensures |r| >= 1
    ensures forall i :: 0 <= i < |r| ==> IsDigit(r[i])
    ensures r[0] == '0' ==> n == 0
    ensures n == 0 ==> r == "0"
    decreases n
  {
    if n < 10 then [DigitChar(n)] else Decimal(n / 10) + [DigitChar(n % 10)]
  }

  /** The number a string of decimal digits denotes. */
  function DecimalValue(s: string): nat
    requires forall i :: 0 <= i < |s| ==> IsDigit(s[i])
  {
    if s == [] then 0 else
      assert IsDigit(s[|s| - 1]);
      DecimalValue(s[..|s| - 1]) * 10 + (s[|s| - 1] as int - '0' as int)
  }

  /** Reading the decimal rendering back gives the number. */
  lemma {:induction false} DecimalRoundTrip(n: nat)
    ensures DecimalValue(Decimal(n)) == n
    decreases n
  {
    if n >= 10 {
      DecimalRoundTrip(n / 10);
      var r := Decimal(n);
      assert r[..|r| - 1] == Decimal(n / 10);
    }
  }

  /** `sep + xs[0] + sep + xs[1] + ...`: what a loop of `line += sep + x` appends. */
  function Fields(sep: string, xs: seq<string>): string
  {
    if xs == [] then "" else Fields(sep, xs[..|xs| - 1]) + sep + xs[|xs| - 1]
  }

  lemma {:induction false} FieldsAppend(sep: string, xs: seq<string>, ys: seq<string>)
    ensures Fields(sep, xs + ys) == Fields(sep, xs) + Fields(sep, ys)
  {
    if ys == [] {
      assert xs + ys == xs;
    } else {
      var init, last := ys[..|ys| - 1], ys[|ys| - 1];
      FieldsAppend(sep, xs, init);
      assert (xs + ys)[..|xs + ys| - 1] == xs + init;
      assert (xs + ys)[|xs + ys| - 1] == last;
      assert Fields(sep, xs + ys) == Fields(sep, xs + init) + sep + last;
      assert Fields(sep, ys) == Fields(sep, init) + sep + last;
    }
  }

  /** One more field appended to the text of the first `j` fields. */
  lemma FieldsStep(sep: string, xs: seq<string>, j: nat, acc: string, x: string)
    requires j < |xs| && x == xs[j] && acc == Fields(sep, xs[..j])
    ensures acc + sep + x == Fields(sep, xs[..j + 1])
  {
    assert xs[..j + 1][..j] == xs[..j];
  }

  lemma FieldsOne(sep: string, x: string)
    ensures Fields(sep, [x]) == sep + x
  {
    var xs := [x];
    var none := xs[..0];
    assert none == [];
    var empty := Fields(sep, none);
    assert empty == [];
    assert Fields(sep, xs) == empty + sep + x;
    assert empty + sep == sep;
  }

  /** A first and a last field around a run of fields. */
  lemma FieldsAround(sep: string, first: string, xs: seq<string>, last: string)
    ensures Fields(sep, [first] + xs + [last]) == sep + first + Fields(sep, xs) + sep + last
  {
    FieldsAppend(sep, [first] + xs, [last]);
    FieldsAppend(sep, [first], xs);
    FieldsOne(sep, first);
    FieldsOne(sep, last);
  }

  /** Position of the first `c` in `s`. */
  function IndexOf(c: char, s: string): (i: nat)
    requires c in s
    ensures i < |s| && s[i] == c && c !in s[..i]
  {
    if s[0] == c then 0 else 1 + IndexOf(c, s[1..])
  }

  /** The pieces of `s` between occurrences of `c`, as Python's `s.split(c)`. */
  function Split(c: char, s: string): seq<string>
    decreases |s|
  {
    if c !in s then [s] else
      var i := IndexOf(c, s);
      [s[..i]] + Split(c, s[i + 1..])
  }

  /** A line made of fields joined by a one-character separator that occurs in
      none of them splits back into exactly those fields, in order. */
  lemma {:induction false} SplitFields(c: char, head: string, xs: seq<string>)
    requires c !in head
    requires forall i :: 0 <= i < |xs| ==> c !in xs[i]
    ensures Split(c, head + Fields([c], xs)) == [head] + xs
    decreases |xs|
  {
    if xs == [] {
      assert head + Fields([c], xs) == head;
    } else {
      var y, ys := xs[0], xs[1..];
      assert xs == [y] + ys;
      FieldsAppend([c], [y], ys);
      FieldsOne([c], y);
      var s := head + Fields([c], xs);
      assert s == head + [c] + (y + Fields([c], ys));
      assert s[|head|] == c && s[..|head|] == head;
      IndexOfFirst(c, s, |head|);
      assert s[|head| + 1..] == y + Fields([c], ys);
      SplitFields(c, y, ys);
      assert Split(c, s) == [s[..|head|]] + Split(c, s[|head| + 1..]);
    }
  }

  lemma {:induction false} IndexOfFirst(c: char, s: string, k: nat)
    requires k < |s| && s[k] == c && c !in s[..k]
    ensures IndexOf(c, s) == k
    decreases k
  {
    if k > 0 {
      assert s[0] != c by {
        assert s[..k][0] == s[0];
      }
      assert s[1..][..k - 1] == s[..k][1..];
      IndexOfFirst(c, s[1..], k - 1);
    }
  }

  /** ASCII upper-casing, as `str.upper()` does for byte strings in the C locale. */
  function UpperChar(ch: char): (r: char)
    ensures !('a' <= r <= 'z')
    ensures 'a' <= ch <= 'z' ==> 'A' <= r <= 'Z' && r as int == ch as int - 32
    ensures !('a' <= ch <= 'z') ==> r == ch
  {
    if 'a' <= ch <= 'z' then (ch as int - 32) as char else ch
  }

  function Upper(s: string): (r: string)
    ensures |r| == |s|
    ensures forall i :: 0 <= i < |r| ==> !('a' <= r[i] <= 'z')
    ensures forall i :: 0 <= i < |s| && !('a' <= s[i] <= 'z') ==> r[i] == s[i]
    ensures forall i :: 0 <= i < |s| && 'a' <= s[i] <= 'z' ==> r[i] as int == s[i] as int - 32
  {
    seq(|s|, i requires 0 <= i < |s| => UpperChar(s[i]))
  }
}
