/** The digest engine of the hasher: a `File` reads one file block by block,
    feeding every block to each requested hash accumulator, to a 256-bucket
    byte histogram and to a size counter, and appends its report fields; a
    `Session` gives each distinct filename one `File` and dispatches the
    queued filenames to them. */
module Hasher {
  import opened Sequences
  import opened BlockReader
  import opened Text

  /** The Shannon entropy as the term the code evaluates in floating point:
      `Zero` is the initial 0.0, and `Negated(prev, h)` is
      -(prev + sum of f/n * log2(f/n) over the buckets f > 0 of h, n = sum of h). */
  datatype Entropy = Zero | Negated(previous: Entropy, histogram: seq<nat>)

  /** Library services the engine uses without defining them: the hex digest
      of the bytes an algorithm's accumulator has received, and the `%f`
      rendering of an entropy value. */
  datatype Lib = Lib(hexDigest: (string, seq<byte>) -> string, formatEntropy: Entropy -> string)

  /** The readable files and their contents; a path that is absent cannot be opened. */
  type FileSystem = map<string, seq<byte>>

  /** The digest of each algorithm, keyed by its name. */
  function DigestMap(hashes: seq<string>, lib: Lib, ho: map<string, seq<byte>>): map<string, string>
    requires forall h :: h in hashes ==> h in ho
  {
    map h | h in hashes :: lib.hexDigest(h, ho[h])
  }

  /** The digests in the order of `hashes`. */
  function DigestColumn(hashes: seq<string>, lib: Lib, ho: map<string, seq<byte>>): seq<string>
    requires forall h :: h in hashes ==> h in ho
  {
    seq(|hashes|, i requires 0 <= i < |hashes| => lib.hexDigest(hashes[i], ho[hashes[i]]))
  }

  /** The fields one `File.hash` call appends to the report, in order. */
  function LineFields(size: nat, digests: seq<string>, entropyText: string): seq<string>
  {
    [Decimal(size)] + digests + [entropyText]
  }

  /** The same fields as text: what one `File.hash` call appends to the report. */
  function ReportFields(separator: string, size: nat, digests: seq<string>, entropyText: string): string
  {
    separator + Decimal(size) + Fields(separator, digests) + separator + entropyText
  }

  /** The counters a read updates: the size, the 256-bucket histogram and each
      algorithm's accumulator, as the bytes it has received. */
  datatype Counters = Counters(size: nat, histogram: seq<nat>, ho: map<string, seq<byte>>)

  /** The counters of a new `File`: nothing counted, every accumulator empty. */
  function Initial(hashes: seq<string>): Counters
  {
    Counters(0, Histogram([]), Accumulators(hashes, []))
  }

  /** Every accumulator having received exactly `c`. */
  function Accumulators(hashes: seq<string>, c: seq<byte>): map<string, seq<byte>>
  {
    map h | h in hashes :: c
  }

  /** `c1` is `c0` after the blocks `read` were ingested in order: the size
      grew by their length, each bucket by the occurrences of its byte value,
      and every accumulator received each block once per listing of its
      algorithm. */
  ghost predicate Absorbed(hashes: seq<string>, c0: Counters, c1: Counters, read: seq<seq<byte>>)
  {
    && c1.size == c0.size + |Concat(read)|
    && |c0.histogram| == 256 && |c1.histogram| == 256
    && (forall b :: 0 <= b < 256 ==> c1.histogram[b] == c0.histogram[b] + Count(Concat(read), b))
    && (forall h :: h in c1.ho <==> h in c0.ho)
    && (forall h :: h in c1.ho ==> c1.ho[h] == c0.ho[h] + Fed(read, Count(hashes, h)))
  }

  /** The counters after the blocks `read` are ingested into `c`. */
  function AfterRead(hashes: seq<string>, c: Counters, read: seq<seq<byte>>): Counters
    requires |c.histogram| == 256
  {
    Counters(c.size + |Concat(read)|,
             seq(256, b requires 0 <= b < 256 => c.histogram[b] + Count<byte>(Concat(read), b)),
             map h | h in c.ho :: c.ho[h] + Fed(read, Count(hashes, h)))
  }

  /** Ingesting blocks has exactly one outcome, `AfterRead`. */
  lemma AbsorbedIs(hashes: seq<string>, c0: Counters, c1: Counters, read: seq<seq<byte>>)
    requires |c0.histogram| == 256
    ensures Absorbed(hashes, c0, c1, read) <==> c1 == AfterRead(hashes, c0, read)
  {
    var r := AfterRead(hashes, c0, read);
    if Absorbed(hashes, c0, c1, read) {
      assert c1.histogram == r.histogram;
      assert c1.ho == r.ho;
    }
  }

  /** A snapshot of the mutable fields of a `File`. */
  datatype FileState = FileState(result: map<string, string>, report: string, counts: Counters,
                                 entropy: Entropy, blocks: seq<seq<byte>>)

  /** The truth value of `result` in a snapshot. */
  predicate Done(s: FileState)
  {
    |s.result| > 0
  }

  /** What every reachable state of a `File` satisfies: the report starts with
      the filename, the counters account for exactly the blocks read so far,
      and a non-empty result holds the digests of the accumulators. */
  ghost predicate Consistent(filename: string, hashes: seq<string>, lib: Lib, s: FileState)
  {
    && filename <= s.report
    && Absorbed(hashes, Initial(hashes), s.counts, s.blocks)
    && (s.result == map[] || ((forall h :: h in hashes ==> h in s.counts.ho) && s.result == DigestMap(hashes, lib, s.counts.ho)))
  }

  /** In every reachable state the histogram is that of the bytes read so
      far, the size is their number, and the 256 buckets add up to the size. */
  lemma ConsistentTotals(filename: string, hashes: seq<string>, lib: Lib, s: FileState)
    requires Consistent(filename, hashes, lib, s)
    ensures s.counts.size == |Concat(s.blocks)|
    ensures s.counts.histogram == Histogram(Concat(s.blocks))
    ensures Sum(s.counts.histogram) == s.counts.size
  {
    forall b | 0 <= b < 256 ensures s.counts.histogram[b] == Count<byte>(Concat(s.blocks), b) {
      assert Initial(hashes).histogram[b] == Count<byte>([], b) == 0;
    }
    HistogramOf(s.counts.histogram, Concat(s.blocks));
    HistogramSum(Concat(s.blocks));
  }

  /** The state of a new `File` for `filename`. */
  ghost predicate Fresh(filename: string, hashes: seq<string>, s: FileState)
  {
    s.report == filename && s.blocks == [] && s.entropy == Zero && s.result == map[] && s.counts == Initial(hashes)
  }

  /** The state of a `File` after one successful read of content `c` from a new object. */
  ghost predicate HashedOnce(filename: string, hashes: seq<string>, separator: string, lib: Lib, s: FileState, c: seq<byte>)
  {
    && s.counts == Counters(|c|, Histogram(c), Accumulators(hashes, c))
    && s.entropy == Negated(Zero, Histogram(c))
    && s.result == DigestMap(hashes, lib, s.counts.ho)
    && s.report == ContentLine(filename, hashes, separator, lib, c)
  }

  /** The state of a new `File` for `filename`, as a value. */
  function FreshState(filename: string, hashes: seq<string>): (s: FileState)
    ensures Fresh(filename, hashes, s) && Shaped(hashes, s)
  {
    FileState(map[], filename, Initial(hashes), Zero, [])
  }

  /** 256 buckets and one accumulator per listed algorithm, as every `File` has. */
  ghost predicate Shaped(hashes: seq<string>, s: FileState)
  {
    |s.counts.histogram| == 256 && forall h :: h in s.counts.ho <==> h in hashes
  }

  /** A worker's turn at the object of a readable file with content `c`, as a
      value: a completed object is left alone; otherwise the content is read
      in blocks of `n` bytes, the entropy term folded over the new histogram,
      the digests recorded and the report suffix appended. */
  ghost function Turn(hashes: seq<string>, separator: string, lib: Lib, n: int, s: FileState, c: seq<byte>): (r: FileState)
    requires Shaped(hashes, s)
    ensures Shaped(hashes, r)
    ensures Done(s) ==> r == s
  {
    if Done(s) then s else
      var counts := AfterRead(hashes, s.counts, Blocks(c, n));
      var entropy := Negated(s.entropy, counts.histogram);
      FileState(DigestMap(hashes, lib, counts.ho),
                s.report + ReportFields(separator, counts.size, DigestColumn(hashes, lib, counts.ho), lib.formatEntropy(entropy)),
                counts, entropy, s.blocks + Blocks(c, n))
  }

  /** A turn at an object that is not completed: the blocks of the content
      are ingested and recorded, the entropy term folded over the new
      histogram, the digests recorded and the report suffix appended. */
  lemma TurnRead(hashes: seq<string>, separator: string, lib: Lib, n: int, s: FileState, c: seq<byte>)
    requires Shaped(hashes, s) && !Done(s)
    ensures var r := Turn(hashes, separator, lib, n, s, c);
      && r.blocks == s.blocks + Blocks(c, n)
      && Absorbed(hashes, s.counts, r.counts, Blocks(c, n))
      && r.entropy == Negated(s.entropy, r.counts.histogram)
      && r.result == DigestMap(hashes, lib, r.counts.ho)
      && r.report == s.report + ReportFields(separator, r.counts.size, DigestColumn(hashes, lib, r.counts.ho),
                                             lib.formatEntropy(r.entropy))
  {
    AbsorbedIs(hashes, s.counts, AfterRead(hashes, s.counts, Blocks(c, n)), Blocks(c, n));
  }

  /** Conversely, a state with all of those properties is the turn. */
  lemma TurnTaken(hashes: seq<string>, separator: string, lib: Lib, n: int, s0: FileState, s1: FileState, c: seq<byte>)
    requires Shaped(hashes, s0) && !Done(s0)
    requires s1.blocks == s0.blocks + Blocks(c, n)
    requires Absorbed(hashes, s0.counts, s1.counts, Blocks(c, n))
    requires s1.entropy == Negated(s0.entropy, s1.counts.histogram)
    requires forall h :: h in hashes ==> h in s1.counts.ho
    requires s1.result == DigestMap(hashes, lib, s1.counts.ho)
    requires s1.report == s0.report + ReportFields(separator, s1.counts.size, DigestColumn(hashes, lib, s1.counts.ho),
                                                   lib.formatEntropy(s1.entropy))
    ensures s1 == Turn(hashes, separator, lib, n, s0, c)
  {
    AbsorbedIs(hashes, s0.counts, s1.counts, Blocks(c, n));
  }

  /** `k` turns in a row at the same object. */
  ghost function Turns(hashes: seq<string>, separator: string, lib: Lib, n: int, s: FileState, c: seq<byte>, k: nat): (r: FileState)
    requires Shaped(hashes, s)
    ensures Shaped(hashes, r)
    ensures Done(s) ==> r == s
  {
    if k == 0 then s else Turn(hashes, separator, lib, n, Turns(hashes, separator, lib, n, s, c, k - 1), c)
  }

  /** With distinct algorithms, at least one of them and a non-zero block
      size, any number of turns at a new object read the file once: the first
      completes it, the later ones leave it alone. */
  lemma {:induction false} TurnsFresh(filename: string, hashes: seq<string>, separator: string, lib: Lib, n: int,
                                      c: seq<byte>, k: nat)
    requires |hashes| > 0 && Distinct(hashes) && n != 0 && k >= 1
    ensures Done(Turns(hashes, separator, lib, n, FreshState(filename, hashes), c, k))
    ensures HashedOnce(filename, hashes, separator, lib, Turns(hashes, separator, lib, n, FreshState(filename, hashes), c, k), c)
  {
    var s0 := FreshState(filename, hashes);
    if k == 1 {
      var s1 := Turn(hashes, separator, lib, n, s0, c);
      assert Turns(hashes, separator, lib, n, s0, c, 0) == s0;
      FreshRead(hashes, s1.counts, c, n);
      DigestMapEmpty(hashes, lib, s1.counts.ho);
    } else {
      TurnsFresh(filename, hashes, separator, lib, n, c, k - 1);
    }
  }

  lemma MulSucc(k: nat, x: nat)
    requires k > 0
    ensures (k - 1) * x + x == k * x
  {
  }

  /** With no algorithm listed the object is never completed, so each of `k`
      turns reads the file again: the size and every bucket grow `k`-fold. */
  lemma {:induction false} TurnsWithoutAlgorithms(filename: string, separator: string, lib: Lib, n: int,
                                                  c: seq<byte>, k: nat)
    requires n != 0
    ensures !Done(Turns([], separator, lib, n, FreshState(filename, []), c, k))
    ensures Turns([], separator, lib, n, FreshState(filename, []), c, k).counts.size == k * |c|
    ensures forall b :: 0 <= b < 256 ==>
              Turns([], separator, lib, n, FreshState(filename, []), c, k).counts.histogram[b] == k * Count<byte>(c, b)
  {
    var s0 := FreshState(filename, []);
    if k > 0 {
      TurnsWithoutAlgorithms(filename, separator, lib, n, c, k - 1);
      var prev := Turns([], separator, lib, n, s0, c, k - 1);
      var next := Turn([], separator, lib, n, prev, c);
      assert next == Turns([], separator, lib, n, s0, c, k);
      AbsorbedContent([], prev.counts, next.counts, c, n);
      assert next.result == DigestMap([], lib, next.counts.ho) == map[];
      MulSucc(k, |c|);
      forall b | 0 <= b < 256 ensures next.counts.histogram[b] == k * Count<byte>(c, b) {
        MulSucc(k, Count<byte>(c, b));
      }
    } else {
      forall b | 0 <= b < 256 ensures s0.counts.histogram[b] == 0 * Count<byte>(c, b) {
        assert s0.counts.histogram[b] == Count<byte>([], b);
      }
    }
  }

  lemma ReportFieldsJoined(separator: string, size: nat, digests: seq<string>, entropyText: string)
    ensures ReportFields(separator, size, digests, entropyText) == Fields(separator, LineFields(size, digests, entropyText))
  {
    FieldsAround(separator, Decimal(size), digests, entropyText);
  }

  /** The report of a file with content `c` after it has been hashed once:
      a function of the content alone, whatever the block size. */
  function ContentLine(filename: string, hashes: seq<string>, separator: string, lib: Lib, c: seq<byte>): string
  {
    filename + ReportFields(separator, |c|, DigestColumn(hashes, lib, Accumulators(hashes, c)),
                            lib.formatEntropy(Negated(Zero, Histogram(c))))
  }

  /** The column names after "Filename". */
  function HeaderFields(hashes: seq<string>): seq<string>
  {
    ["Size"] + seq(|hashes|, i requires 0 <= i < |hashes| => Upper(hashes[i])) + ["Entropy"]
  }

  /** With a one-character separator that is not a digit and occurs in none
      of the texts, a hashed file's report line splits back into the filename,
      the size (whose digits read back as the content's length), each digest
      in list order and the entropy text. */
  lemma {:induction false} ContentLineSplits(filename: string, hashes: seq<string>, ch: char, lib: Lib, c: seq<byte>)
    requires ch !in filename && !IsDigit(ch)
    requires forall i :: 0 <= i < |hashes| ==> ch !in lib.hexDigest(hashes[i], c)
    requires ch !in lib.formatEntropy(Negated(Zero, Histogram(c)))
    ensures Split(ch, ContentLine(filename, hashes, [ch], lib, c)) ==
              [filename] + LineFields(|c|, DigestColumn(hashes, lib, Accumulators(hashes, c)),
                                      lib.formatEntropy(Negated(Zero, Histogram(c))))
    ensures DecimalValue(Decimal(|c|)) == |c|
  {
    var digests := DigestColumn(hashes, lib, Accumulators(hashes, c));
    var text := lib.formatEntropy(Negated(Zero, Histogram(c)));
    ReportFieldsJoined([ch], |c|, digests, text);
    LineFieldsFree(ch, |c|, digests, text);
    SplitFields(ch, filename, LineFields(|c|, digests, text));
    DecimalRoundTrip(|c|);
  }

  /** A non-digit that occurs in no digest and not in the entropy text occurs
      in no field of the line. */
  lemma LineFieldsFree(ch: char, size: nat, digests: seq<string>, text: string)
    requires !IsDigit(ch) && ch !in text
    requires forall i :: 0 <= i < |digests| ==> ch !in digests[i]
    ensures forall i :: 0 <= i < |LineFields(size, digests, text)| ==> ch !in LineFields(size, digests, text)[i]
  {
    var xs := LineFields(size, digests, text);
    forall i | 0 <= i < |xs| ensures ch !in xs[i] {
      if i == 0 {
        var d := Decimal(size);
        assert xs[0] == d;
        assert forall k :: 0 <= k < |d| ==> d[k] != ch;
      } else if i <= |digests| {
        assert xs[i] == digests[i - 1];
      } else {
        assert xs[i] == text;
      }
    }
  }

  /** With a one-character separator that occurs in none of the column names,
      the header splits back into "Filename", "Size", each algorithm
      upper-cased and "Entropy": one column after "Filename" per field of a
      report line, whose digests are one per algorithm. */
  lemma {:induction false} HeaderSplits(hashes: seq<string>, ch: char)
    requires ch !in "Filename" && ch !in "Size" && ch !in "Entropy"
    requires forall i :: 0 <= i < |hashes| ==> ch !in Upper(hashes[i])
    ensures Split(ch, "Filename" + Fields([ch], HeaderFields(hashes))) == ["Filename"] + HeaderFields(hashes)
    ensures |HeaderFields(hashes)| == |hashes| + 2
  {
    var xs := HeaderFields(hashes);
    forall i | 0 <= i < |xs| ensures ch !in xs[i] {
      if 0 < i <= |hashes| {
        assert xs[i] == Upper(hashes[i - 1]);
      }
    }
    SplitFields(ch, "Filename", xs);
  }

  /** Reading nothing changes nothing. */
  lemma AbsorbedNone(hashes: seq<string>, c: Counters)
    requires |c.histogram| == 256
    ensures Absorbed(hashes, c, c, [])
  {
    forall h | h in c.ho ensures c.ho[h] == c.ho[h] + Fed([], Count(hashes, h)) {
      assert Fed<byte>([], Count(hashes, h)) == [];
    }
  }

  /** One block, fed to the accumulators once per listing and tallied. */
  lemma AbsorbedBlock(hashes: seq<string>, c0: Counters, c1: Counters, block: seq<byte>)
    requires |c0.histogram| == 256 && |c1.histogram| == 256
    requires c1.size == c0.size + |block|
    requires forall b :: 0 <= b < 256 ==> c1.histogram[b] == c0.histogram[b] + Count(block, b)
    requires forall h :: h in c1.ho <==> h in c0.ho
    requires forall h :: h in c1.ho ==> c1.ho[h] == c0.ho[h] + Repeat(block, Count(hashes, h))
    ensures Absorbed(hashes, c0, c1, [block])
  {
    var none: seq<seq<byte>> := [];
    assert none + [block] == [block];
    ConcatSnoc(none, block);
    assert Concat([block]) == block;
    forall h | h in c1.ho ensures c1.ho[h] == c0.ho[h] + Fed([block], Count(hashes, h)) {
      var m := Count(hashes, h);
      FedSnoc(none, block, m);
      assert Fed(none, m) == [];
      assert Fed([block], m) == [] + Repeat(block, m) == Repeat(block, m);
    }
  }

  /** Two runs of reads in a row are one run over both lists of blocks. */
  lemma AbsorbedChain(hashes: seq<string>, c0: Counters, c1: Counters, c2: Counters,
                      read1: seq<seq<byte>>, read2: seq<seq<byte>>)
    requires Absorbed(hashes, c0, c1, read1) && Absorbed(hashes, c1, c2, read2)
    ensures Absorbed(hashes, c0, c2, read1 + read2)
  {
    ConcatAppend(read1, read2);
    forall b | 0 <= b < 256
      ensures c2.histogram[b] == c0.histogram[b] + Count(Concat(read1 + read2), b)
    {
      CountAppend(Concat(read1), Concat(read2), b);
    }
    forall h | h in c2.ho ensures c2.ho[h] == c0.ho[h] + Fed(read1 + read2, Count(hashes, h)) {
      FedAppend(read1, read2, Count(hashes, h));
      AppendAssoc(c0.ho[h], Fed(read1, Count(hashes, h)), Fed(read2, Count(hashes, h)));
    }
  }

  /** Reading a whole content: the size grows by its length and each bucket by
      the occurrences of its byte value, whatever the non-zero block size, and
      an accumulator listed once receives the content itself; a block size of
      0 reads nothing. */
  lemma AbsorbedContent(hashes: seq<string>, c0: Counters, c1: Counters, c: seq<byte>, n: int)
    requires Absorbed(hashes, c0, c1, Blocks(c, n))
    ensures c1.size == c0.size + (if n == 0 then 0 else |c|)
    ensures forall b :: 0 <= b < 256 ==> c1.histogram[b] == c0.histogram[b] + (if n == 0 then 0 else Count(c, b))
    ensures n != 0 ==> forall h :: h in c1.ho && Count(hashes, h) == 1 ==> c1.ho[h] == c0.ho[h] + c
    ensures n == 0 ==> c1 == c0
  {
    BlocksCover(c, n);
    FedOnce(Blocks(c, n));
    if n == 0 {
      assert Blocks(c, n) == [] by {
        assert ReadLen(n, |c|) == 0;
      }
      forall h | h in c1.ho ensures c1.ho[h] == c0.ho[h] {
        assert Fed<byte>([], Count(hashes, h)) == [];
      }
      assert c1.histogram == c0.histogram;
      assert c1.ho == c0.ho;
    }
  }

  /** A new object that reads `c` with distinct algorithms ends with the
      counters of `c` itself. */
  lemma FreshRead(hashes: seq<string>, counts: Counters, c: seq<byte>, n: int)
    requires n != 0 && Distinct(hashes)
    requires Absorbed(hashes, Initial(hashes), counts, Blocks(c, n))
    ensures counts == Counters(|c|, Histogram(c), Accumulators(hashes, c))
  {
    AbsorbedContent(hashes, Initial(hashes), counts, c, n);
    forall h | h in counts.ho ensures counts.ho[h] == c {
      CountDistinct(hashes, h);
    }
    forall b | 0 <= b < 256 ensures counts.histogram[b] == Count(c, b) {
      assert Initial(hashes).histogram[b] == Count([], b) == 0;
    }
    HistogramOf(counts.histogram, c);
  }

  /** The digests recorded one by one for every listed algorithm form the digest map. */
  lemma DigestsRecorded(result: map<string, string>, hashes: seq<string>, lib: Lib, ho: map<string, seq<byte>>)
    requires forall h :: h in hashes ==> h in ho
    requires forall h :: h in result ==> h in hashes && result[h] == lib.hexDigest(h, ho[h])
    requires forall k :: 0 <= k < |hashes| ==> hashes[k] in result
    ensures result == DigestMap(hashes, lib, ho)
  {
    assert result.Keys == DigestMap(hashes, lib, ho).Keys;
  }

  /** The digest map is empty exactly when no algorithm is listed. */
  lemma DigestMapEmpty(hashes: seq<string>, lib: Lib, ho: map<string, seq<byte>>)
    requires forall h :: h in hashes ==> h in ho
    ensures |DigestMap(hashes, lib, ho)| > 0 <==> |hashes| > 0
  {
    if |hashes| > 0 {
      assert hashes[0] in DigestMap(hashes, lib, ho);
    }
  }

  /** hasher.py:104-106: the digest of every listed algorithm, in list order, each
      recorded under its name and appended to the line after the separator. A
      name listed twice is recorded twice with the same digest. */
  method RecordDigests(separator: string, hashes: seq<string>, lib: Lib, ho: map<string, seq<byte>>)
    returns (text: string, result: map<string, string>)
    requires forall h :: h in hashes ==> h in ho
    ensures result == DigestMap(hashes, lib, ho)
    ensures text == Fields(separator, DigestColumn(hashes, lib, ho))
  {
    ghost var digests := DigestColumn(hashes, lib, ho);
    text, result := "", map[];
    var j := 0;
    while j < |hashes|
      invariant 0 <= j <= |hashes|
      invariant forall h :: h in result ==> h in hashes && result[h] == lib.hexDigest(h, ho[h])
      invariant forall k :: 0 <= k < j ==> hashes[k] in result
      invariant text == Fields(separator, digests[..j])
    {
      var h := hashes[j];
      result := result[h := lib.hexDigest(h, ho[h])];
      FieldsStep(separator, digests, j, text, result[h]);
      text := text + separator + result[h];
      j := j + 1;
    }
    assert digests[..|hashes|] == digests;
    DigestsRecorded(result, hashes, lib, ho);
  }

  class File {
    const filename: string
    const hashes: seq<string>
    const blocksize: int
    const separator: string
    const lib: Lib

    /** Digests by algorithm; empty (falsy) until a read with a non-empty
        `hashes` has completed. The initial `0` and the `{}` of the source are
        both this empty map. */
    var result: map<string, string>
    var report: string
    var size: nat
    var histogram: seq<nat>
    var entropy: Entropy
    /** Each algorithm's accumulator, as the bytes it has received. */
    var ho: map<string, seq<byte>>
    /** Every block read so far, over all calls. */
    ghost var blocks: seq<seq<byte>>

    /** What the methods need: 256 buckets and one accumulator per listed algorithm. */
    ghost predicate Shape()
      reads this`histogram, this`ho
    {
      |histogram| == 256 && forall h :: h in ho <==> h in hashes
    }

    /** The object invariant: every state reached from the constructor is consistent. */
    ghost predicate Valid()
      reads this
    {
      Consistent(filename, hashes, lib, State())
    }

    ghost function Counts(): Counters
      reads this`size, this`histogram, this`ho
    {
      Counters(size, histogram, ho)
    }

    /** All mutable fields at once. */
    ghost function State(): FileState
      reads this
    {
      FileState(result, report, Counts(), entropy, blocks)
    }

    /** The state of a new object. */
    ghost predicate Pristine()
      reads this
    {
      Fresh(filename, hashes, State())
    }

    /** The state after one successful read of content `c` from a new object. */
    ghost predicate Digested(c: seq<byte>)
      reads this
    {
      HashedOnce(filename, hashes, separator, lib, State(), c)
    }

    /** The truth value of `self.result`. */
    function Completed(): (r: bool)
      reads this
      ensures r <==> exists h :: h in result
    {
      |result| > 0
    }

    /** What one `hash` call appends to the report in the current state. */
    function LineSuffix(): string
      reads this
      requires forall h :: h in hashes ==> h in ho
    {
      ReportFields(separator, size, DigestColumn(hashes, lib, ho), lib.formatEntropy(entropy))
    }

    constructor (filename: string, hashes: seq<string>, blocksize: int, separator: string, lib: Lib)
      ensures this.filename == filename && this.hashes == hashes && this.blocksize == blocksize
      ensures this.separator == separator && this.lib == lib
      ensures Shape() && Valid() && Pristine()
    {
      this.filename := filename;
      this.hashes := hashes;
      this.blocksize := blocksize;
      this.separator := separator;
      this.lib := lib;
      result := map[];
      report := filename;
      size := 0;
      histogram := seq(256, _ => 0);
      entropy := Zero;
      ho := map h | h in hashes :: [];
      blocks := [];
      new;
      assert histogram == Histogram([]);
      AbsorbedNone(hashes, Initial(hashes));
    }

    /** hasher.py:82-83: every listed algorithm's accumulator receives the block,
        once per listing. */
    method Feed(block: seq<byte>)
      requires forall h :: h in hashes ==> h in ho
      modifies this`ho
      ensures forall h :: h in ho <==> h in old(ho)
      ensures forall h :: h in ho ==> ho[h] == old(ho[h]) + Repeat(block, Count(hashes, h))
    {
      var j := 0;
      while j < |hashes|
        invariant 0 <= j <= |hashes|
        invariant forall h :: h in ho <==> h in old(ho)
        invariant forall h :: h in ho ==> ho[h] == old(ho[h]) + Repeat(block, Count(hashes[..j], h))
      {
        var h := hashes[j];
        AppendAssoc(old(ho[h]), Repeat(block, Count(hashes[..j], h)), block);
        ho := ho[h := ho[h] + block];
        assert hashes[..j + 1][..j] == hashes[..j];
        j := j + 1;
      }
      assert hashes[..|hashes|] == hashes;
    }

    /** hasher.py:86-87: each byte of the block bumps its histogram bucket. */
    method Tally(block: seq<byte>)
      requires |histogram| == 256
      modifies this`histogram
      ensures |histogram| == 256
      ensures forall b :: 0 <= b < 256 ==> histogram[b] == old(histogram[b]) + Count(block, b)
    {
      var i := 0;
      while i < |block|
        invariant 0 <= i <= |block|
        invariant |histogram| == 256
        invariant forall b :: 0 <= b < 256 ==> histogram[b] == old(histogram[b]) + Count(block[..i], b)
      {
        histogram := histogram[block[i] := histogram[block[i]] + 1];
        assert block[..i + 1][..i] == block[..i];
        i := i + 1;
      }
      assert block[..|block|] == block;
    }

    /** hasher.py:81-90, one block: fed to the accumulators, counted in the
        histogram, added to the size. */
    method Ingest(block: seq<byte>)
      requires Shape()
      modifies this`ho, this`histogram, this`size, this`blocks
      ensures Shape()
      ensures Absorbed(hashes, old(Counts()), Counts(), [block])
      ensures blocks == old(blocks) + [block]
    {
      Feed(block);
      Tally(block);
      size := size + |block|;
      blocks := blocks + [block];
      AbsorbedBlock(hashes, old(Counts()), Counts(), block);
    }

    /** hasher.py:76-90: the read loop over `content`, stopping at the first empty read. */
    method ReadAll(content: seq<byte>)
      requires Shape()
      modifies this`ho, this`histogram, this`size, this`blocks
      ensures Shape()
      ensures Absorbed(hashes, old(Counts()), Counts(), Blocks(content, blocksize))
      ensures blocks == old(blocks) + Blocks(content, blocksize)
    {
      ghost var start := Counts();
      AbsorbedNone(hashes, start);
      var pos := 0;
      ghost var read: seq<seq<byte>> := [];
      while true
        invariant Shape()
        invariant 0 <= pos <= |content|
        invariant Absorbed(hashes, start, Counts(), read)
        invariant blocks == old(blocks) + read
        invariant Blocks(content, blocksize) == read + BlocksFrom(content, pos, blocksize)
        decreases |content| - pos
      {
        var block := content[pos..pos + ReadLen(blocksize, |content| - pos)];
        if |block| == 0 {
          assert read + BlocksFrom(content, pos, blocksize) == read;
          break;
        }
        ghost var before := Counts();
        Ingest(block);
        AbsorbedChain(hashes, start, before, Counts(), read, [block]);
        AppendAssoc(old(blocks), read, [block]);
        AppendAssoc(read, [block], BlocksFrom(content, pos + |block|, blocksize));
        read := read + [block];
        pos := pos + |block|;
      }
    }

    /** hasher.py:74-101: read every block of `content`, then fold the histogram
        into the entropy and reset the result to the empty dictionary. */
    method Read(content: seq<byte>)
      requires Shape()
      modifies this`ho, this`histogram, this`size, this`blocks, this`entropy, this`result
      ensures Shape() && result == map[]
      ensures Absorbed(hashes, old(Counts()), Counts(), Blocks(content, blocksize))
      ensures blocks == old(blocks) + Blocks(content, blocksize)
      ensures entropy == Negated(old(entropy), histogram)
    {
      ReadAll(content);
      entropy := Negated(entropy, histogram);
      result := map[];
    }

    /** hasher.py:103-108: the size, each algorithm's digest in list order and the
        entropy are appended to the report, the digests recorded in `result`. */
    method AppendReport()
      requires forall h :: h in hashes ==> h in ho
      modifies this`report, this`result
      ensures result == DigestMap(hashes, lib, ho)
      ensures report == old(report) + ReportFields(separator, size, DigestColumn(hashes, lib, ho), lib.formatEntropy(entropy))
    {
      var text, r := RecordDigests(separator, hashes, lib, ho);
      report, result := report + separator + Decimal(size) + text + separator + lib.formatEntropy(entropy), r;
    }

    /** `File.hash`: unless the object is already completed, read the file in
        blocks of at most `blocksize` bytes up to the first empty read,
        ingesting each block, then fold the histogram into the entropy; in
        every case append the report fields. Returns false when the file
        cannot be opened, and then changes nothing. */
    method Hash(fs: FileSystem) returns (ok: bool)
      requires Shape()
      modifies this
      ensures Shape()
      ensures old(Valid()) ==> Valid()
      ensures ok <==> old(Completed()) || filename in fs
      ensures !ok ==> unchanged(this)
      ensures old(Completed()) ==> blocks == old(blocks) && Counts() == old(Counts()) && entropy == old(entropy)
      ensures ok && !old(Completed()) ==>
        && blocks == old(blocks) + Blocks(fs[filename], blocksize)
        && Absorbed(hashes, old(Counts()), Counts(), Blocks(fs[filename], blocksize))
        && size == old(size) + (if blocksize == 0 then 0 else |fs[filename]|)
        && (forall b :: 0 <= b < 256 ==>
              histogram[b] == old(histogram[b]) + (if blocksize == 0 then 0 else Count(fs[filename], b)))
        && entropy == Negated(old(entropy), histogram)
      ensures ok ==> result == DigestMap(hashes, lib, ho) && report == old(report) + LineSuffix()
      ensures ok ==> (Completed() <==> |hashes| > 0)
      ensures ok && old(Pristine()) && blocksize != 0 && Distinct(hashes) ==> Digested(fs[filename])
    {
      ghost var read: seq<seq<byte>> := [];
      if !Completed() {
        if filename !in fs {
          return false;
        }
        Read(fs[filename]);
        read := Blocks(fs[filename], blocksize);
        AbsorbedContent(hashes, old(Counts()), Counts(), fs[filename], blocksize);
      } else {
        AbsorbedNone(hashes, Counts());
      }
      AppendReport();
      ok := true;
      HashOutcome(filename, hashes, separator, lib, old(State()), State(), fs, blocksize, read);
    }

    /** hasher.py:143-144, a worker's turn at this object: hash it unless it is
        already completed. `ok` is false when the file cannot be opened. */
    method Serve(fs: FileSystem) returns (ok: bool)
      requires Shape()
      modifies this
      ensures Shape()
      ensures WorkStep(filename, hashes, separator, lib, blocksize, fs, old(State()), State(), ok)
    {
      ok := true;
      if !Completed() {
        ok := Hash(fs);
        if ok {
          TurnTaken(hashes, separator, lib, blocksize, old(State()), State(), fs[filename]);
        }
      }
    }
  }

  /** What one successful `File.hash` call establishes, given the steps it
      takes from state `s0` to state `s1`: the invariant is kept, a new object
      ends hashed once with the file's content, and the object is completed
      exactly when some algorithm is listed. */
  lemma HashOutcome(filename: string, hashes: seq<string>, separator: string, lib: Lib,
                    s0: FileState, s1: FileState, fs: FileSystem, n: int, read: seq<seq<byte>>)
    requires Absorbed(hashes, s0.counts, s1.counts, read) && s1.blocks == s0.blocks + read
    requires Done(s0) ==> read == [] && s1.entropy == s0.entropy
    requires !Done(s0) ==> filename in fs && read == Blocks(fs[filename], n)
                           && s1.entropy == Negated(s0.entropy, s1.counts.histogram)
    requires forall h :: h in hashes ==> h in s1.counts.ho
    requires s1.result == DigestMap(hashes, lib, s1.counts.ho)
    requires s1.report == s0.report + ReportFields(separator, s1.counts.size, DigestColumn(hashes, lib, s1.counts.ho),
                                                   lib.formatEntropy(s1.entropy))
    ensures Consistent(filename, hashes, lib, s0) ==> Consistent(filename, hashes, lib, s1)
    ensures Fresh(filename, hashes, s0) && n != 0 && Distinct(hashes) ==> HashedOnce(filename, hashes, separator, lib, s1, fs[filename])
    ensures Done(s1) <==> |hashes| > 0
  {
    DigestMapEmpty(hashes, lib, s1.counts.ho);
    if Consistent(filename, hashes, lib, s0) {
      AbsorbedChain(hashes, Initial(hashes), s0.counts, s1.counts, s0.blocks, read);
    }
    if Fresh(filename, hashes, s0) && n != 0 && Distinct(hashes) {
      assert s0.blocks + read == read;
      FreshRead(hashes, s1.counts, fs[filename], n);
    }
  }

  /** One queue item handled by a live worker, from state `s0` to state `s1`
      of the `File` for `filename`: `ok` says whether the worker survived. The
      object is hashed only when it is not yet completed; an unreadable file
      kills the worker and changes nothing. */
  ghost predicate WorkStep(filename: string, hashes: seq<string>, separator: string, lib: Lib, n: int,
                           fs: FileSystem, s0: FileState, s1: FileState, ok: bool)
  {
    && (ok <==> Done(s0) || filename in fs)
    && (!ok || Done(s0) ==> s1 == s0)
    && (Consistent(filename, hashes, lib, s0) ==> Consistent(filename, hashes, lib, s1))
    && (Done(s1) ==> Done(s0) || filename in fs)
    && (ok && Fresh(filename, hashes, s0) && |hashes| > 0 && Distinct(hashes) && n != 0 ==>
          Done(s1) && HashedOnce(filename, hashes, separator, lib, s1, fs[filename]))
    && (ok && filename in fs && Shaped(hashes, s0) ==> s1 == Turn(hashes, separator, lib, n, s0, fs[filename]))
  }

  /** The states the dispatch loop has not touched: `snap` holds the states
      before the run, `done` the files already completed then, `cur` the
      states after the first `i` queue items. */
  ghost predicate Untouched(filenames: seq<string>, snap: map<string, FileState>, done: set<string>,
                            cur: map<string, FileState>, i: nat)
  {
    && i <= |filenames|
    && (forall k :: k in filenames ==> k in snap)
    && (forall k :: k in done <==> k in snap && Done(snap[k]))
    && cur.Keys == snap.Keys
    && (forall k :: k in cur && (k !in filenames[..i] || k in done) ==> cur[k] == snap[k])
  }

  /** Every state stays consistent, and only a file that could be opened
      becomes completed. */
  ghost predicate Kept(hashes: seq<string>, lib: Lib, fs: FileSystem, snap: map<string, FileState>,
                       done: set<string>, cur: map<string, FileState>)
    requires cur.Keys == snap.Keys
  {
    && (forall k :: k in cur && Consistent(k, hashes, lib, snap[k]) ==> Consistent(k, hashes, lib, cur[k]))
    && (forall k :: k in cur && Done(cur[k]) ==> k in done || k in fs)
  }

  /** The join is still possible exactly when there are workers and every
      item taken so far was finished; then no worker has died. */
  ghost predicate Joinable(filenames: seq<string>, threads: int, fs: FileSystem, done: set<string>,
                           i: nat, alive: int, joined: bool)
    requires i <= |filenames|
  {
    && 0 <= alive
    && (joined ==> alive == (if threads < 0 then 0 else threads))
    && (joined <==> (i > 0 ==> threads > 0) && forall k :: k in filenames[..i] ==> k in fs || k in done)
  }

  /** While the join is possible, every new file taken so far is hashed once. */
  ghost predicate HashedSoFar(filenames: seq<string>, hashes: seq<string>, separator: string, lib: Lib, n: int,
                              fs: FileSystem, snap: map<string, FileState>, cur: map<string, FileState>,
                              i: nat, joined: bool)
    requires i <= |filenames|
    requires forall k :: k in filenames[..i] ==> k in snap && k in cur
  {
    joined && |hashes| > 0 && Distinct(hashes) && n != 0 ==>
      forall k :: k in filenames[..i] && Fresh(k, hashes, snap[k]) ==>
        k in fs && HashedOnce(k, hashes, separator, lib, cur[k], fs[k])
  }

  /** While the join is possible, every openable file taken so far has had
      one turn per occurrence among the items taken. */
  ghost predicate Repeated(filenames: seq<string>, hashes: seq<string>, separator: string, lib: Lib, n: int,
                           fs: FileSystem, snap: map<string, FileState>, cur: map<string, FileState>,
                           i: nat, joined: bool)
    requires i <= |filenames|
    requires forall k :: k in filenames[..i] ==> k in snap && k in cur
  {
    joined ==>
      forall k :: k in filenames[..i] && k in fs && Shaped(hashes, snap[k]) ==>
        cur[k] == Turns(hashes, separator, lib, n, snap[k], fs[k], Count(filenames[..i], k))
  }

  /** The dispatch loop after the first `i` queue items. */
  ghost predicate Dispatching(filenames: seq<string>, hashes: seq<string>, separator: string, lib: Lib, n: int,
                              threads: int, fs: FileSystem, snap: map<string, FileState>, done: set<string>,
                              cur: map<string, FileState>, i: nat, alive: int, joined: bool)
  {
    && Untouched(filenames, snap, done, cur, i)
    && Kept(hashes, lib, fs, snap, done, cur)
    && Joinable(filenames, threads, fs, done, i, alive, joined)
    && HashedSoFar(filenames, hashes, separator, lib, n, fs, snap, cur, i, joined)
    && Repeated(filenames, hashes, separator, lib, n, fs, snap, cur, i, joined)
  }

  lemma Prefix(filenames: seq<string>, i: nat)
    requires i < |filenames|
    ensures filenames[..i + 1] == filenames[..i] + [filenames[i]]
  {
  }

  /** Queue item `i` with no live worker: it stays queued, and the join is lost. */
  lemma DispatchIdle(filenames: seq<string>, hashes: seq<string>, separator: string, lib: Lib, n: int,
                     threads: int, fs: FileSystem, snap: map<string, FileState>, done: set<string>,
                     cur: map<string, FileState>, i: nat, joined: bool)
    requires i < |filenames|
    requires Dispatching(filenames, hashes, separator, lib, n, threads, fs, snap, done, cur, i, 0, joined)
    ensures Dispatching(filenames, hashes, separator, lib, n, threads, fs, snap, done, cur, i + 1, 0, false)
  {
    Prefix(filenames, i);
    assert threads > 0 ==> !joined;
  }

  lemma UntouchedStep(filenames: seq<string>, snap: map<string, FileState>, done: set<string>,
                      cur: map<string, FileState>, i: nat, s1: FileState)
    requires i < |filenames|
    requires Untouched(filenames, snap, done, cur, i)
    requires Done(cur[filenames[i]]) ==> s1 == cur[filenames[i]]
    ensures Untouched(filenames, snap, done, cur[filenames[i] := s1], i + 1)
  {
    Prefix(filenames, i);
  }

  lemma KeptStep(filename: string, hashes: seq<string>, lib: Lib, fs: FileSystem, snap: map<string, FileState>,
                 done: set<string>, cur: map<string, FileState>, s1: FileState)
    requires cur.Keys == snap.Keys && filename in cur
    requires Kept(hashes, lib, fs, snap, done, cur)
    requires Consistent(filename, hashes, lib, cur[filename]) ==> Consistent(filename, hashes, lib, s1)
    requires Done(s1) ==> Done(cur[filename]) || filename in fs
    ensures Kept(hashes, lib, fs, snap, done, cur[filename := s1])
  {
  }

  lemma JoinableStep(filenames: seq<string>, threads: int, fs: FileSystem, done: set<string>,
                     i: nat, alive: int, joined: bool, ok: bool)
    requires i < |filenames| && alive > 0
    requires Joinable(filenames, threads, fs, done, i, alive, joined)
    requires ok <==> filenames[i] in done || filenames[i] in fs
    ensures Joinable(filenames, threads, fs, done, i + 1, if ok then alive else alive - 1, joined && ok)
  {
    Prefix(filenames, i);
  }

  lemma HashedStep(filenames: seq<string>, hashes: seq<string>, separator: string, lib: Lib, n: int,
                   fs: FileSystem, snap: map<string, FileState>, cur: map<string, FileState>,
                   i: nat, joined: bool, s1: FileState, ok: bool)
    requires i < |filenames|
    requires forall k :: k in filenames ==> k in snap
    requires cur.Keys == snap.Keys
    requires forall k :: k in cur && k !in filenames[..i] ==> cur[k] == snap[k]
    requires HashedSoFar(filenames, hashes, separator, lib, n, fs, snap, cur, i, joined)
    requires WorkStep(filenames[i], hashes, separator, lib, n, fs, cur[filenames[i]], s1, ok)
    ensures HashedSoFar(filenames, hashes, separator, lib, n, fs, snap, cur[filenames[i] := s1], i + 1, joined && ok)
  {
    Prefix(filenames, i);
    var f := filenames[i];
    if joined && ok && |hashes| > 0 && Distinct(hashes) && n != 0 && f in filenames[..i] && Fresh(f, hashes, snap[f]) {
      DigestMapEmpty(hashes, lib, cur[f].counts.ho);
    }
  }

  lemma RepeatedStep(filenames: seq<string>, hashes: seq<string>, separator: string, lib: Lib, n: int,
                     fs: FileSystem, snap: map<string, FileState>, cur: map<string, FileState>,
                     i: nat, joined: bool, s1: FileState, ok: bool)
    requires i < |filenames|
    requires forall k :: k in filenames ==> k in snap
    requires cur.Keys == snap.Keys
    requires forall k :: k in cur && k !in filenames[..i] ==> cur[k] == snap[k]
    requires Repeated(filenames, hashes, separator, lib, n, fs, snap, cur, i, joined)
    requires WorkStep(filenames[i], hashes, separator, lib, n, fs, cur[filenames[i]], s1, ok)
    ensures Repeated(filenames, hashes, separator, lib, n, fs, snap, cur[filenames[i] := s1], i + 1, joined && ok)
  {
    Prefix(filenames, i);
    var f := filenames[i];
    var taken, next := filenames[..i], filenames[..i + 1];
    if joined && ok && f in fs && Shaped(hashes, snap[f]) {
      var m := Count(taken, f);
      if f !in taken {
        CountAbsent(taken, f);
      }
      assert cur[f] == Turns(hashes, separator, lib, n, snap[f], fs[f], m);
      assert s1 == Turns(hashes, separator, lib, n, snap[f], fs[f], m + 1);
    }
    if joined && ok {
      forall k | k in next && k in fs && Shaped(hashes, snap[k])
        ensures cur[f := s1][k] == Turns(hashes, separator, lib, n, snap[k], fs[k], Count(next, k))
      {
        CountSnoc(taken, f, k);
      }
    }
  }

  /** Queue item `i` taken by a live worker, which hashes the file's `File`
      from `cur[filenames[i]]` to `s1` and dies when `ok` is false. */
  lemma DispatchWork(filenames: seq<string>, hashes: seq<string>, separator: string, lib: Lib, n: int,
                     threads: int, fs: FileSystem, snap: map<string, FileState>, done: set<string>,
                     cur: map<string, FileState>, i: nat, alive: int, joined: bool,
                     s1: FileState, ok: bool)
    requires i < |filenames| && alive > 0
    requires Dispatching(filenames, hashes, separator, lib, n, threads, fs, snap, done, cur, i, alive, joined)
    requires WorkStep(filenames[i], hashes, separator, lib, n, fs, cur[filenames[i]], s1, ok)
    ensures Dispatching(filenames, hashes, separator, lib, n, threads, fs, snap, done, cur[filenames[i] := s1], i + 1,
                        if ok then alive else alive - 1, joined && ok)
  {
    var f := filenames[i];
    Prefix(filenames, i);
    UntouchedStep(filenames, snap, done, cur, i, s1);
    KeptStep(f, hashes, lib, fs, snap, done, cur, s1);
    JoinableStep(filenames, threads, fs, done, i, alive, joined, ok);
    HashedStep(filenames, hashes, separator, lib, n, fs, snap, cur, i, joined, s1, ok);
    RepeatedStep(filenames, hashes, separator, lib, n, fs, snap, cur, i, joined, s1, ok);
  }

  /** After the last queue item. */
  lemma DispatchEnd(filenames: seq<string>, hashes: seq<string>, separator: string, lib: Lib, n: int,
                    workers: int, fs: FileSystem, snap: map<string, FileState>, done: set<string>,
                    cur: map<string, FileState>, alive: int, joined: bool)
    requires Dispatching(filenames, hashes, separator, lib, n, workers, fs, snap, done, cur, |filenames|, alive, joined)
    ensures Drained(filenames, hashes, separator, lib, n, workers, fs, snap, cur, joined)
  {
    assert filenames[..|filenames|] == filenames;
  }

  /** `mid` is `pre` after the filenames were registered: one entry more for
      every filename not yet known, made fresh and consistent, and every
      existing entry kept as it was. */
  ghost predicate Registered(filenames: seq<string>, hashes: seq<string>, lib: Lib,
                             pre: map<string, FileState>, mid: map<string, FileState>)
  {
    && mid.Keys == pre.Keys + (set f | f in filenames)
    && (forall f :: f in pre ==> mid[f] == pre[f])
    && (forall f :: f in mid && f !in pre ==> Fresh(f, hashes, mid[f]) && Consistent(f, hashes, lib, mid[f]))
  }

  lemma RegisterStep(filenames: seq<string>, i: nat, hashes: seq<string>, lib: Lib,
                     pre: map<string, FileState>, mid: map<string, FileState>, s: FileState)
    requires i < |filenames|
    requires Registered(filenames[..i], hashes, lib, pre, mid)
    requires filenames[i] !in mid ==> Fresh(filenames[i], hashes, s) && Consistent(filenames[i], hashes, lib, s)
    ensures Registered(filenames[..i + 1], hashes, lib, pre,
                       if filenames[i] in mid then mid else mid[filenames[i] := s])
  {
    assert filenames[..i + 1] == filenames[..i] + [filenames[i]];
  }

  /** `post` is `snap` after `workers` workers ran the queue `filenames`,
      ending with `joined`: a file not queued, or already completed, is left
      as it was; every file stays consistent; the join returns exactly when
      there was a worker for a non-empty queue and every queued file could be
      opened or was already completed; and then, with distinct algorithms and
      a non-zero block size, every queued new file ends hashed once; and,
      after a join, every queued file that opens has had one `Turn` for each
      time its name was queued. */
  ghost predicate Drained(filenames: seq<string>, hashes: seq<string>, separator: string, lib: Lib, n: int,
                          workers: int, fs: FileSystem, snap: map<string, FileState>,
                          post: map<string, FileState>, joined: bool)
  {
    && post.Keys == snap.Keys
    && (forall f :: f in snap && (f !in filenames || Done(snap[f])) ==> post[f] == snap[f])
    && (forall f :: f in snap && Consistent(f, hashes, lib, snap[f]) ==> Consistent(f, hashes, lib, post[f]))
    && (joined <==>
          && (|filenames| > 0 ==> workers > 0)
          && forall f :: f in filenames ==> f in fs || (f in snap && Done(snap[f])))
    && (joined && |hashes| > 0 && Distinct(hashes) && n != 0 ==>
          forall f :: f in filenames && f in snap && Fresh(f, hashes, snap[f]) ==>
            f in fs && HashedOnce(f, hashes, separator, lib, post[f], fs[f]))
    && (joined ==>
          forall f :: f in filenames && f in snap && f in fs && Shaped(hashes, snap[f]) ==>
            post[f] == Turns(hashes, separator, lib, n, snap[f], fs[f], Count(filenames, f)))
  }

  /** What one `Session.hash` call does to the snapshots of the `File`s,
      from `pre` to `post`: every listed filename gets an entry and no entry
      is dropped; an entry that is not listed, or whose `File` was already
      completed, is left as it was; every entry stays consistent; the join
      returns exactly when there was a worker for a non-empty list and every
      listed file could be opened or needed no work; and, after a join, with
      distinct algorithms and a non-zero block size, every listed file whose
      entry was new or untouched holds that file's digests, size and report
      line; and, after a join, every listed file that opens has had one
      `Turn`, starting from its `FreshState` when its entry was new, for each
      listing of its name. */
  ghost predicate Ran(filenames: seq<string>, hashes: seq<string>, separator: string, lib: Lib, n: int,
                      workers: int, fs: FileSystem, pre: map<string, FileState>, post: map<string, FileState>,
                      joined: bool)
  {
    && post.Keys == pre.Keys + (set f | f in filenames)
    && (forall f :: f in pre && (f !in filenames || Done(pre[f])) ==> post[f] == pre[f])
    && (forall f :: f in post && (f !in pre || Consistent(f, hashes, lib, pre[f])) ==> Consistent(f, hashes, lib, post[f]))
    && (joined <==>
         && (|filenames| > 0 ==> workers > 0)
         && forall f :: f in filenames ==> f in fs || (f in pre && Done(pre[f])))
    && (joined && |hashes| > 0 && Distinct(hashes) && n != 0 ==>
         forall f :: f in filenames && (f !in pre || Fresh(f, hashes, pre[f])) ==>
           f in fs && HashedOnce(f, hashes, separator, lib, post[f], fs[f]))
    && (joined ==>
         forall f :: f in filenames && f in post && f in fs && (f !in pre || Shaped(hashes, pre[f])) ==>
           post[f] == Turns(hashes, separator, lib, n, if f in pre then pre[f] else FreshState(f, hashes),
                            fs[f], Count(filenames, f)))
  }

  /** Registering and then draining the queue is one `Session.hash` run. */
  lemma SessionRun(filenames: seq<string>, hashes: seq<string>, separator: string, lib: Lib, n: int,
                   workers: int, fs: FileSystem, pre: map<string, FileState>, mid: map<string, FileState>,
                   post: map<string, FileState>, joined: bool)
    requires Registered(filenames, hashes, lib, pre, mid)
    requires Drained(filenames, hashes, separator, lib, n, workers, fs, mid, post, joined)
    ensures Ran(filenames, hashes, separator, lib, n, workers, fs, pre, post, joined)
  {
    forall f | f in filenames && f !in pre
      ensures f in mid && !Done(mid[f]) && mid[f] == FreshState(f, hashes)
    {
      assert f in (set g | g in filenames);
    }
  }

  class Session {
    const filenames: seq<string>
    const hashes: seq<string>
    const blocksize: int
    const separator: string
    const lib: Lib
    var threads: int
    /** One `File` per distinct filename, keyed by that filename. */
    var fo: map<string, File>

    /** Every `File` was made for its key with the session's settings. */
    ghost predicate Valid()
      reads this`fo, fo.Values
    {
      forall f :: f in fo ==>
        && fo[f].filename == f && fo[f].hashes == hashes && fo[f].blocksize == blocksize
        && fo[f].separator == separator && fo[f].lib == lib && fo[f].Shape()
    }

    /** The snapshot of every `File`, by filename. */
    ghost function States(): map<string, FileState>
      reads this`fo, fo.Values
    {
      map f | f in fo :: fo[f].State()
    }

    constructor (filenames: seq<string>, hashes: seq<string>, blocksize: int, separator: string,
                 threads: int, lib: Lib)
      ensures this.filenames == filenames && this.hashes == hashes && this.blocksize == blocksize
      ensures this.separator == separator && this.threads == threads && this.lib == lib
      ensures fo == map[] && Valid()
    {
      this.filenames := filenames;
      this.hashes := hashes;
      this.blocksize := blocksize;
      this.separator := separator;
      this.threads := threads;
      this.lib := lib;
      fo := map[];
    }

    /** `Session.hash`: create a `File` for every filename not yet known (the
        first occurrence wins), clamp the thread count to the number of
        filenames, then give the queued filenames, in order, to the workers,
        which hash each `File` that is not yet completed. A worker that meets
        an unreadable file dies before marking its queue item done, so the
        session's join never returns: `joined` is false. With no live worker
        left, the remaining queue items are never taken. */
    method Hash(fs: FileSystem) returns (joined: bool)
      requires Valid()
      modifies this, fo.Values
      ensures Valid()
      ensures threads == if |filenames| < old(threads) then |filenames| else old(threads)
      ensures forall f :: f in old(fo) ==> f in fo && fo[f] == old(fo)[f]
      ensures forall v :: v in fo.Values ==> v in old(fo).Values || fresh(v)
      ensures Ran(filenames, hashes, separator, lib, blocksize, threads, fs, old(States()), States(), joined)
    {
      ghost var pre := States();
      var workers := if |filenames| < threads then |filenames| else threads;
      Register();
      ghost var mid := States();
      joined := Drain(fs, workers);
      ghost var post := States();
      SessionRun(filenames, hashes, separator, lib, blocksize, workers, fs, pre, mid, post, joined);
      SetThreads(workers);
    }

    /** hasher.py:148-149: the session keeps the clamped thread count; no `File`
        is touched. */
    method SetThreads(t: int)
      modifies this`threads
      ensures threads == t
      ensures Valid() == old(Valid()) && States() == old(States())
    {
      threads := t;
    }

    /** hasher.py:137-139: a `File` for every filename not yet known; the first
        occurrence of a repeated filename creates it, later ones find it, and
        no existing entry is replaced. */
    method Register()
      requires Valid()
      modifies this`fo
      ensures Valid()
      ensures forall f :: f in filenames ==> f in fo
      ensures forall f :: f in old(fo) ==> f in fo && fo[f] == old(fo)[f]
      ensures forall v :: v in fo.Values ==> v in old(fo).Values || fresh(v)
      ensures Registered(filenames, hashes, lib, old(States()), States())
    {
      ghost var pre := States();
      ghost var cur := pre;
      var i := 0;
      while i < |filenames|
        invariant 0 <= i <= |filenames|
        invariant Valid()
        invariant forall f :: f in old(fo) ==> f in fo && fo[f] == old(fo)[f]
        invariant forall v :: v in fo.Values ==> v in old(fo).Values || fresh(v)
        invariant cur == States()
        invariant Registered(filenames[..i], hashes, lib, pre, cur)
      {
        var f := filenames[i];
        if f !in fo {
          Add(f);
          RegisterStep(filenames, i, hashes, lib, pre, cur, fo[f].State());
          cur := cur[f := fo[f].State()];
        } else {
          RegisterStep(filenames, i, hashes, lib, pre, cur, cur[f]);
        }
        i := i + 1;
      }
      assert filenames[..|filenames|] == filenames;
      forall f | f in filenames
        ensures f in fo
      {
        assert f in (set g | g in filenames);
        assert f in States();
      }
    }

    /** hasher.py:139: a new `File` for `f`, in a fresh object. */
    method Add(f: string)
      requires Valid() && f !in fo
      modifies this`fo
      ensures Valid()
      ensures f in fo && fresh(fo[f])
      ensures forall g :: g in old(fo) ==> g in fo && fo[g] == old(fo)[g]
      ensures forall v :: v in fo.Values ==> v in old(fo).Values || fresh(v)
      ensures States() == old(States())[f := fo[f].State()]
      ensures Fresh(f, hashes, fo[f].State()) && Consistent(f, hashes, lib, fo[f].State())
    {
      var file := new File(f, hashes, blocksize, separator, lib);
      Put(f, file);
    }

    /** Keying `file` by `f`. */
    method Put(f: string, file: File)
      requires Valid() && f !in fo
      requires file.filename == f && file.hashes == hashes && file.blocksize == blocksize
      requires file.separator == separator && file.lib == lib && file.Shape()
      modifies this`fo
      ensures Valid()
      ensures fo == old(fo)[f := file]
      ensures States() == old(States())[f := file.State()]
    {
      fo := fo[f := file];
    }

    /** hasher.py:142-144, one queue item taken by a live worker: it hashes the
        `File` of `f` unless that is already completed. `ok` is false when
        the worker died on a file that cannot be opened. */
    method Work(f: string, fs: FileSystem) returns (ok: bool)
      requires Valid() && f in fo
      modifies fo[f]
      ensures fo == old(fo)
      ensures Valid()
      ensures States() == old(States())[f := fo[f].State()]
      ensures WorkStep(f, hashes, separator, lib, blocksize, fs, old(fo[f].State()), fo[f].State(), ok)
    {
      ok := fo[f].Serve(fs);
    }

    /** hasher.py:140-145 and 151-157 as one sequential run: the filenames are
        taken from the queue in order by the live workers. There are `workers`
        of them (none when it is not positive). A worker whose file cannot be
        opened dies without marking its item done, so the join does not
        return (`joined` is false); once no worker is alive the remaining
        items stay queued. */
    method Drain(fs: FileSystem, workers: int) returns (joined: bool)
      requires Valid()
      requires forall f :: f in filenames ==> f in fo
      modifies fo.Values
      ensures fo == old(fo)
      ensures Valid()
      ensures Drained(filenames, hashes, separator, lib, blocksize, workers, fs, old(States()), States(), joined)
    {
      ghost var snap := States();
      ghost var done := set k | k in snap && Done(snap[k]);
      ghost var cur := snap;
      var alive := if workers < 0 then 0 else workers;
      joined := true;
      var i := 0;
      while i < |filenames|
        invariant fo == old(fo)
        invariant Valid()
        invariant cur == States()
        invariant Dispatching(filenames, hashes, separator, lib, blocksize, workers, fs, snap, done, cur, i, alive, joined)
      {
        var f := filenames[i];
        if alive == 0 {
          DispatchIdle(filenames, hashes, separator, lib, blocksize, workers, fs, snap, done, cur, i, joined);
          joined := false;
        } else {
          var ok := Work(f, fs);
          DispatchWork(filenames, hashes, separator, lib, blocksize, workers, fs, snap, done, cur, i, alive, joined, fo[f].State(), ok);
          cur := cur[f := fo[f].State()];
          alive := if ok then alive else alive - 1;
          joined := joined && ok;
        }
        i := i + 1;
      }
      DispatchEnd(filenames, hashes, separator, lib, blocksize, workers, fs, snap, done, cur, alive, joined);
    }

    /** The header line: "Filename", "Size", each algorithm upper-cased in
        list order, "Entropy", joined by the separator. */
    method Header() returns (header: string)
      ensures header == "Filename" + Fields(separator, HeaderFields(hashes))
    {
      ghost var uppers := seq(|hashes|, i requires 0 <= i < |hashes| => Upper(hashes[i]));
      var acc := "";
      var j := 0;
      while j < |hashes|
        invariant 0 <= j <= |hashes|
        invariant acc == Fields(separator, uppers[..j])
      {
        FieldsStep(separator, uppers, j, acc, Upper(hashes[j]));
        acc := acc + separator + Upper(hashes[j]);
        j := j + 1;
      }
      assert uppers[..|hashes|] == uppers;
      FieldsAround(separator, "Size", uppers, "Entropy");
      header := "Filename" + separator + "Size" + acc + separator + "Entropy";
    }

    /** `Session.report`: the header, then the dispatch run again. */
    method Report(fs: FileSystem) returns (header: string, joined: bool)
      requires Valid()
      modifies this, fo.Values
      ensures Valid()
      ensures header == "Filename" + Fields(separator, HeaderFields(hashes))
      ensures threads == if |filenames| < old(threads) then |filenames| else old(threads)
      ensures forall f :: f in old(fo) ==> f in fo && fo[f] == old(fo)[f]
      ensures forall v :: v in fo.Values ==> v in old(fo).Values || fresh(v)
      ensures Ran(filenames, hashes, separator, lib, blocksize, threads, fs, old(States()), States(), joined)
    {
      header := Header();
      joined := Hash(fs);
    }
  }
}
