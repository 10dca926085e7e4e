/** Uses of the engine that show its documented behaviour and its quirks,
    each proved from the contracts of `File` and `Session` alone. */
module Scenarios {
  import opened Sequences
  import opened BlockReader
  import opened Hasher

  /** Two new objects for the same file, one hash call each, with different
      non-zero block sizes: the report line, the digests, the size and the
      histogram agree. */
  method BlockSizeIndependent(fs: FileSystem, filename: string, hashes: seq<string>, separator: string,
                              lib: Lib, n1: int, n2: int) returns (a: File, b: File)
    requires n1 != 0 && n2 != 0 && Distinct(hashes) && filename in fs
    ensures a.blocksize == n1 && b.blocksize == n2
    ensures a.report == b.report == ContentLine(filename, hashes, separator, lib, fs[filename])
    ensures a.result == b.result && a.size == b.size == |fs[filename]|
    ensures a.histogram == b.histogram == Histogram(fs[filename])
  {
    a := new File(filename, hashes, n1, separator, lib);
    var ok := a.Hash(fs);
    b := new File(filename, hashes, n2, separator, lib);
    ok := b.Hash(fs);
  }

  /** With no algorithm listed, `result` stays empty and falsy, so a second
      hash call reads the file again: the size and every bucket double, the
      entropy term is folded twice, and the report carries two suffixes. */
  method RereadWithoutAlgorithms(fs: FileSystem, filename: string, separator: string, lib: Lib, n: int)
    returns (f: File)
    requires n != 0 && filename in fs
    ensures !f.Completed()
    ensures f.size == 2 * |fs[filename]|
    ensures |f.histogram| == 256 && forall b :: 0 <= b < 256 ==> f.histogram[b] == 2 * Count(fs[filename], b)
    ensures f.entropy == Negated(Negated(Zero, Histogram(fs[filename])), f.histogram)
    ensures f.report == ContentLine(filename, [], separator, lib, fs[filename])
                        + ReportFields(separator, 2 * |fs[filename]|, [], lib.formatEntropy(f.entropy))
  {
    f := new File(filename, [], n, separator, lib);
    var ok := f.Hash(fs);
    ok := f.Hash(fs);
    assert DigestColumn([], lib, f.ho) == [];
  }

  /** With algorithms listed, a second hash call does not read the file again
      but appends the same report suffix once more. */
  method RepeatedReport(fs: FileSystem, filename: string, hashes: seq<string>, separator: string,
                        lib: Lib, n: int) returns (f: File)
    requires n != 0 && |hashes| > 0 && Distinct(hashes) && filename in fs
    ensures f.Completed() && f.size == |fs[filename]|
    ensures f.report == ContentLine(filename, hashes, separator, lib, fs[filename])
                        + ContentLine(filename, hashes, separator, lib, fs[filename])[|filename|..]
  {
    f := new File(filename, hashes, n, separator, lib);
    var ok := f.Hash(fs);
    ghost var line := f.report;
    ok := f.Hash(fs);
    assert line[|filename|..] == f.LineSuffix();
  }
}
