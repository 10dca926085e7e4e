# hasher: a Dafny model of the block-wise multi-digest engine

`hasher.py` reads each file once, in blocks of at most `blocksize` bytes. Every
block goes to each requested hash object, to a 256-bucket byte histogram and
to a size counter. When the file is done, the entropy is computed and the
size, the hex digests and the entropy are appended to the file's report
line. A `Session` creates one `File` per distinct filename. It clamps the
thread count, lets worker threads take the queued filenames, and builds the
report header.

The model follows the source's imperative form:

- `Hasher.File` is a class with the same mutable fields (`result`, `report`,
  `size`, `histogram`, `entropy`, `ho`). Its methods update them in place:
  the read loop, per-block feeding and tallying, and the report appends.
- `Hasher.Session` is a class with the dictionary `fo` of `File` objects and
  the mutable `threads`. `Register` is the registration loop. `Drain` models
  the worker pool as a sequential loop over the queue.
- Each class's methods are proved against value-level specifications, stated
  on `FileState` snapshots:
  - `Absorbed` relates the counters before and after a list of blocks;
  - `Consistent` is the invariant of every reachable `File` state;
  - `Fresh` is a new `File`;
  - `HashedOnce` is a new `File` hashed once with content `c`;
  - `WorkStep` is one queue item taken by a live worker;
  - `Ran` is one whole `Session.hash` call over the map of snapshots.

Files:

- `sequences.dfy` (module `Sequences`): occurrence counts; the concatenation
  of blocks; `Fed`, the bytes an accumulator receives when every block is
  given to it `m` times.
- `blocks.dfy` (module `BlockReader`): bytes; the blocks of successive
  `read(n)` calls; the histogram of a byte sequence.
- `text.dfy` (module `Text`): the decimal rendering of `%d` and its reading
  back; separator-joined fields; Python's `str.split` for one character;
  ASCII upper-casing.
- `hasher.dfy` (module `Hasher`): the `File` and `Session` classes and
  their specifications.
- `scenarios.dfy` (module `Scenarios`): short uses of the classes that show
  block-size independence and the source's quirks, proved from the class
  contracts alone.

Outside services are parameters:

- `Lib.hexDigest(alg, bytes)` is the hex digest of the exact bytes an
  algorithm's object received.
- `Lib.formatEntropy` is the `%f` rendering.
- A file system `map<string, seq<byte>>` has an absent path standing for a
  file that `open` cannot open.
- The entropy is the symbolic term `Entropy`, not a float. `Negated(prev, h)`
  stands for `-(prev + Σ f/n·log2(f/n))` over the histogram `h`.

Source quirks kept as written:

- `result` starts as `0` and becomes `{}`. Both are the empty map in the
  model, and both are falsy. With an empty `hashes` list the map stays
  empty, so every later `hash` call reads the file again
  (`Scenarios.RereadWithoutAlgorithms`).
- Every `File.hash` call appends the size, digest and entropy suffix again,
  even when nothing is re-read (`Scenarios.RepeatedReport`).
- The thread count is clamped to `len(filenames)`, so duplicates count
  (`Hasher.Session.Hash`). The count is not raised to 1, and it can
  become 0.
- A `blocksize` of 0 makes the first read empty. Nothing is then read, yet,
  when some algorithm is listed, the file is completed with the digests of
  the empty input. With none listed it stays incomplete, and every call
  reads nothing again and appends another suffix. A negative
  `blocksize` reads the whole file in one block (`BlockReader.WholeRead`).
- A worker that cannot open its file dies with an exception before it calls
  `task_done`. `q.join()` then never returns, and the remaining workers go on
  taking items. The model returns `joined == false` and decrements the count
  of live workers. Items queued once no worker is alive are never taken.

Further behaviour of the code that the model keeps:

- **Thread clamp.** The clamp compares the thread count with the number of
  listed names, duplicates included, and has no lower bound: an empty list
  sets it to 0 (hasher.py:147-149).
- **Unreadable file.** `open` raises inside the worker, which ends that
  thread before `q.task_done()`, so `q.join()` never returns
  (hasher.py:142-145, 157).
- **Completion.** `hash` is not idempotent: with an empty `hashes` list
  `result` stays falsy and the file is read again, and the report suffix is
  appended on every call (hasher.py:73-108).
- **Entropy sign.** The sum is multiplied by -1 even when it is 0, so an
  empty or single-valued file has entropy `-0.0` (hasher.py:95-99).
- **Argument checks.** Neither class checks its arguments (hasher.py:47-65,
  118-129). The command line checks only `--threads`, with `positive_int`
  (hasher.py:185-198); it has no block-size option and always uses the
  default block size (hasher.py:195-209); it clamps the thread count to the
  number of names itself (hasher.py:205-206). The model accepts any integer
  for the block size and the thread count.
- **Repeated algorithm.** Listing an algorithm twice makes both entries share
  one `hashlib` object (hasher.py:64-65), which then receives every block
  twice in a row (hasher.py:82-83). Its digest is that of the doubled blocks
  and so depends on the block size. The model keeps this (`Fed`), and the
  block-size independence and hashed-once results require `Distinct(hashes)`.

## Model

| member | source | states |
|---|---|---|
| Sequences.FedOnce | hasher.py:82-83 | an accumulator given each block once has received exactly the blocks joined in order |
| Sequences.FedAppend | hasher.py:76-83 | feeding two runs of blocks in a row feeds their concatenation, so the input order is the block order |
| Sequences.CountDistinct | hasher.py:64-65 | in a list without repetitions each algorithm occurs once, so it gets each block once |
| BlockReader.ReadLen | hasher.py:77 | one `read(n)` returns at most the bytes left and at most n for n ≥ 0, nothing exactly when n is 0 or the file is exhausted, and fewer than n only at the end |
| BlockReader.BlocksFrom | hasher.py:76-79 | the blocks from a position are all non-empty, and there are none exactly when the block size is 0 or the position is the end |
| BlockReader.Blocks | hasher.py:76-79 | the blocks of a content are all non-empty, and there are none exactly when the block size is 0 or the content is empty |
| BlockReader.BlocksCover | hasher.py:76-79 | the blocks the read loop obtains, joined, are the whole content for any non-zero block size, and nothing for block size 0 |
| BlockReader.BlocksFromCover | hasher.py:76-79 | from any position the remaining blocks join to the rest of the content |
| BlockReader.BlockSizes | hasher.py:76-79 | with block size n ≥ 1 every block holds 1..n bytes and every block but the last holds exactly n |
| BlockReader.WholeRead | hasher.py:77 | a negative block size reads the whole content as a single block, or no block for an empty file |
| BlockReader.HistogramOf | hasher.py:86-87 | 256 counts that agree with the occurrences of every byte value are the histogram of the content |
| BlockReader.HistogramSum | hasher.py:86-87 | the 256 buckets of a content's histogram add up to its length |
| Text.DigitChar | hasher.py:103 | a digit character whose code is the digit's value |
| Text.Decimal | hasher.py:103 | the `%d` text is non-empty, all digits, has no leading zero, and is `0` exactly for the number 0 |
| Text.DecimalRoundTrip | hasher.py:103 | reading the `%d` text of a size back gives the size |
| Text.FieldsAppend | hasher.py:106 | appending separator-prefixed fields for two lists in a row appends them for the joined list |
| Text.FieldsAround | hasher.py:163-167 | a first field, a run of fields and a last field appended in that order |
| Text.UpperChar | hasher.py:165 | ASCII `upper` of one character: a lower-case letter becomes the matching upper-case one (code minus 32), anything else is kept |
| Text.Upper | hasher.py:165 | `str.upper` on ASCII: same length, each lower-case letter replaced in place by the matching upper-case one, every other character kept in place |
| Text.IndexOf | hasher.py:103-108 | the position of the first occurrence of a character |
| Text.SplitFields | hasher.py:103-108 | a head and fields joined by a one-character separator occurring in none of them split back into exactly those pieces |
| Hasher.ReportFieldsJoined | hasher.py:103-108 | one call's suffix is the separator-joined fields size, each digest in list order, entropy |
| Hasher.ContentLineSplits | hasher.py:103-108 | a hashed file's report line splits back into filename, size, digests in list order and entropy text, and the size text reads back as the content length |
| Hasher.HeaderSplits | hasher.py:163-167 | the header splits back into Filename, Size, each upper-cased algorithm in order, Entropy, and has one column per field of a report line |
| Hasher.ConsistentTotals | hasher.py:86-90 | in every reachable state the histogram is that of the bytes read, the size is their count, and the buckets add up to the size |
| Hasher.AbsorbedNone | hasher.py:73 | reading no block leaves size, histogram and accumulators as they were |
| Hasher.AbsorbedBlock | hasher.py:81-90 | one block fed once per listing, tallied and added to the size is an ingestion of that block |
| Hasher.AbsorbedChain | hasher.py:76-90 | two runs of ingestion in a row are one ingestion of both block lists in order |
| Hasher.AbsorbedContent | hasher.py:76-90 | reading a whole content grows the size by its length and each bucket by its byte's count, for every non-zero block size; a once-listed accumulator receives the content itself; block size 0 changes nothing |
| Hasher.FreshRead | hasher.py:58-90 | a new object with distinct algorithms that read a content holds that content's size, histogram and accumulator inputs |
| Hasher.DigestsRecorded | hasher.py:104-105 | digests recorded one by one for every listed algorithm form the digest map |
| Hasher.DigestMapEmpty | hasher.py:101-105 | the digest map is non-empty exactly when some algorithm is listed, so `result` becomes truthy exactly then |
| Hasher.RecordDigests | hasher.py:104-106 | the loop records each listed digest under its algorithm and appends them in list order |
| Hasher.AbsorbedIs | hasher.py:76-90 | the ingestion relation holds exactly for the counters `AfterRead` computes: it determines the outcome of a read |
| Hasher.FreshState | hasher.py:54-65 | the state of a new object is fresh and has 256 buckets and one accumulator per algorithm |
| Hasher.Turn | hasher.py:73-108 | one `hash` call on a state: a completed state is left as it was, the shape is kept |
| Hasher.TurnRead | hasher.py:73-108 | a `hash` call on an incomplete state reads the content's blocks, ingests them, folds the entropy over the new histogram, records the digests and appends the suffix |
| Hasher.TurnTaken | hasher.py:73-108 | any state that a read of the content produces, with those digests and that suffix, is exactly the `Turn` outcome |
| Hasher.Turns | hasher.py:137-157 | repeated `hash` calls keep the shape and leave a completed state as it was |
| Hasher.TurnsFresh | hasher.py:73-108 | with distinct algorithms and a non-zero block size, any number of calls on a new object complete it after the first read and leave it hashed once |
| Hasher.TurnsWithoutAlgorithms | hasher.py:73-108 | with no algorithm, k calls on a new object read the content k times: size and every bucket are k times the content's and it never completes |
| Hasher.HashOutcome | hasher.py:67-108 | one successful hash keeps the invariant, leaves a new object hashed once with the content, and completes it exactly when some algorithm is listed |
| Hasher.File.constructor | hasher.py:47-65 | a new object: report is the filename, zero size, 256 empty buckets, one empty accumulator per algorithm, falsy result |
| Hasher.File.Feed | hasher.py:82-83 | every accumulator receives the block once per listing of its algorithm, in list order |
| Hasher.File.Tally | hasher.py:86-87 | each bucket grows by the occurrences of its byte value in the block |
| Hasher.File.Ingest | hasher.py:81-90 | one block fed, tallied and added to the size, and recorded as read |
| Hasher.File.ReadAll | hasher.py:76-90 | the loop reads exactly the blocks of the content up to the first empty read and ingests them in order |
| Hasher.File.Read | hasher.py:74-101 | the whole content ingested, the entropy term folded over the new histogram, result reset to empty |
| Hasher.File.AppendReport | hasher.py:103-108 | result becomes the digest map and the report grows by size, digests in list order and entropy, nothing removed |
| Hasher.File.Hash | hasher.py:67-108 | an unopenable file changes nothing; a completed object reads nothing; otherwise size and histogram grow by the content's for every non-zero block size; in every successful case the suffix is appended; completion iff some algorithm is listed; a new object ends hashed once |
| Hasher.File.Completed | hasher.py:73 | the truth value of `result`: true exactly when some digest is recorded |
| Hasher.File.Serve | hasher.py:143-144 | a worker's turn: a completed object is left as it was, otherwise hashed; the worker survives iff the object was completed or the file opens; a successful turn on an incomplete object is exactly one `Turn` |
| Hasher.DispatchIdle | hasher.py:151-157 | with no live worker a queue item stays queued and the join is lost |
| Hasher.UntouchedStep | hasher.py:142-144 | a worker's turn touches only its own file, and leaves an already completed one as it was |
| Hasher.KeptStep | hasher.py:142-144 | a worker's turn keeps every file consistent and completes only a file that opens |
| Hasher.JoinableStep | hasher.py:142-145 | the join stays possible exactly while every item taken so far was finished |
| Hasher.HashedStep | hasher.py:142-145 | while the join is possible, every new file taken so far has been hashed once, a repeated filename included |
| Hasher.RepeatedStep | hasher.py:142-156 | while the join is possible, every openable file taken so far has had exactly one `Turn` per occurrence of its name among the items taken |
| Hasher.DispatchWork | hasher.py:141-145 | one queue item taken by a live worker keeps the dispatch invariant |
| Hasher.DispatchEnd | hasher.py:155-157 | after the last item the dispatch invariant is the outcome of the run |
| Hasher.RegisterStep | hasher.py:137-139 | one more filename: a new one adds a fresh consistent entry, a known one changes nothing |
| Hasher.SessionRun | hasher.py:131-157 | registration followed by the queue run is one `Session.hash` outcome |
| Hasher.Session.constructor | hasher.py:118-129 | the settings stored, no `File` yet |
| Hasher.Session.Hash | hasher.py:131-157 | one entry per listed name, every new entry a newly built object and no existing object replaced; unlisted or completed entries unchanged; every state stays consistent; threads becomes min(threads, number of names); the join returns iff some worker exists for a non-empty list and every listed file opens or was completed; after a join every new listed file is hashed once and every openable listed file has had one `Turn` per listing of its name |
| Hasher.Session.SetThreads | hasher.py:148-149 | the clamped count is stored and no `File` changes |
| Hasher.Session.Register | hasher.py:137-139 | every listed name gets an entry, the first occurrence creates it, every existing entry keeps the same object |
| Hasher.Session.Add | hasher.py:138-139 | a new fresh, consistent `File`, a new object, is entered under a name not yet known; every existing entry keeps its object |
| Hasher.Session.Put | hasher.py:139 | the dictionary gains exactly the one entry |
| Hasher.Session.Work | hasher.py:142-145 | one queue item: only that name's `File` changes, as one worker step |
| Hasher.Session.Drain | hasher.py:140-157 | the queued names, in order, handled by the live workers: the run's outcome on the map of states, including one `Turn` per listing of an openable file when the join returns |
| Hasher.Session.Header | hasher.py:163-167 | Filename, Size, each algorithm upper-cased in list order, Entropy, joined by the separator |
| Hasher.Session.Report | hasher.py:159-169 | the header, then one more `Session.hash` run with its full outcome, new entries newly built and no existing object replaced |
| Scenarios.BlockSizeIndependent | hasher.py:76-108 | two new objects hashing the same file with different non-zero block sizes agree on report, result, size and histogram |
| Scenarios.RereadWithoutAlgorithms | hasher.py:73-108 | with no algorithm the second call reads again: size and buckets double and the report carries two suffixes |
| Scenarios.RepeatedReport | hasher.py:73-108 | with algorithms a second call reads nothing and appends the same suffix again |

## Left out

- Hash algorithm internals (`hashlib.new`, `update`, `hexdigest`): a foreign library. A digest is the function `Lib.hexDigest` of the exact bytes the algorithm's object received. `ho` holds those bytes.
- Entropy arithmetic: floating point and `math.log`. The entropy is a symbolic term over the histogram and the previous value. Its `%f` text is `Lib.formatEntropy`. The model does not decide that an empty or single-valued file gives `-0.0`.
- Threads, `Queue`, daemon workers and `q.join()`: concurrency. The dispatch is one sequential loop that takes the items in queue order. A blocked join is the result `joined == false`, not a hang.
- The race on a duplicated filename is not modelled. Two workers can both see a falsy `result` before either finishes; the model hashes the second occurrence only when the first left `result` falsy.
- Hasher.Session.Hash: stores the clamped thread count after the queue run instead of before it. The workers never read `self.threads`, so the difference cannot be observed.
- File I/O (`open`, `read`, `close`): the file is a byte sequence, and `read(n)` takes the next at most `n` bytes. A read error in the middle of a file is not modelled; only a file that cannot be opened is.
- The `p` flag, `print` of report lines and the header, and the logging setup and `log.info`: output only. `Session.report` returns the header instead of printing it.
- The re-entrant `self.hash(1)` in `Session.report` is modelled only as a second dispatch run.
- The command-line entry point (argparse, `positive_int`, the `--tab` switch): thin glue around `Session`.
- The default arguments of `File.__init__` and `Session.__init__` (hasher.py:48-49, 119-120): every constructor of the model takes all its arguments.
- An algorithm name that `hashlib.new` rejects raises `ValueError` (hasher.py:65) while the session registers its files (hasher.py:139), before any worker starts. The model accepts every name; `Lib.hexDigest` is total.
- `str.upper` beyond ASCII: `Text.Upper` changes only `a`..`z`.
- Hasher.File.Hash: for a `blocksize` of 0 it states size, histogram and accumulators through `Absorbed` over `Blocks(content, 0)`, which is empty. It states the full `Digested` outcome only for non-zero block sizes and distinct algorithms.
- Hasher.Session.Hash: states the hashed-once outcome only when algorithms are listed, distinct, and the block size is non-zero. In every case where the join returns it states each openable listed file's exact state as one `Turn` per listing of its name (`Turns`).
