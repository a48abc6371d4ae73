/** The per-file truncation of cut_csv.py: read the file in chunks of
    100000 rows, fix the target row count from the first chunk, keep chunks
    while the count of kept chunks times the chunk size is below the target,
    slice the first chunk where it is not and stop reading; then write the
    concatenation under a derived name when the target is positive. */
module Truncate {
  import opened PyText

  /** A data row of a CSV file; its columns are never looked at. */
  type Row

  /** Rows per chunk handed out by the CSV reader. */
  const ChunkSize: nat := 100000

  datatype Option<T> = None | Some(value: T)

  /** The two ways processing one file fails (and ends the whole run). */
  datatype Failure =
    | DivisionByZero   // `math.floor(num_rows / divisor)` with divisor 0
    | TargetNeverSet   // `small_num_rows > 0` with small_num_rows still None

  datatype Output = Output(name: string, rows: seq<Row>)

  datatype FileOutcome = Written(out: Output) | Skipped | Failed(failure: Failure)

  /** What the chunked reader guarantees: no chunk is longer than the chunk
      size and all chunks but the last are exactly that long. */
  predicate WellChunked(chunks: seq<seq<Row>>) {
    && (forall i :: 0 <= i < |chunks| ==> |chunks[i]| <= ChunkSize)
    && (forall i :: 0 <= i < |chunks| - 1 ==> |chunks[i]| == ChunkSize)
  }

  /** `pd.concat(pieces)`: the rows of all pieces, in order. */
  function Concat(pieces: seq<seq<Row>>): seq<Row> {
    if pieces == [] then [] else pieces[0] + Concat(pieces[1..])
  }

  ghost predicate IsPrefix(a: seq<Row>, b: seq<Row>) {
    |a| <= |b| && b[..|a|] == a
  }

  lemma {:induction false} ConcatAppend(a: seq<seq<Row>>, b: seq<seq<Row>>)
    ensures Concat(a + b) == Concat(a) + Concat(b)
  {
    if a != [] {
      assert (a + b)[1..] == a[1..] + b;
      ConcatAppend(a[1..], b);
    } else {
      assert a + b == b;
    }
  }

  /** The target row count: `math.floor(len(first chunk) / divisor)`, set when
      the first chunk arrives; no chunk, no target. */
  function Target(chunks: seq<seq<Row>>, divisor: int): Option<int> {
    if |chunks| > 0 && divisor != 0 then Some(FloorDiv(|chunks[0]|, divisor)) else None
  }

  /** The target depends on the first chunk's length and the divisor alone:
      later chunks never change it, it is the floor of the quotient, and it is
      never positive for a negative divisor. */
  lemma TargetFromFirstChunk(c0: seq<Row>, rest: seq<seq<Row>>, divisor: int)
    ensures Target([c0] + rest, divisor) == Target([c0], divisor)
    ensures Target([c0], divisor).Some? <==> divisor != 0
    ensures divisor > 0 ==> var t := Target([c0], divisor).value;
              t * divisor <= |c0| < t * divisor + divisor
    ensures divisor < 0 ==> Target([c0], divisor).value <= 0
  {
    if divisor < 0 {
      var t := FloorDiv(|c0|, divisor);
      assert t * divisor >= |c0| >= 0;
    }
  }

  /** The iteration at which the loop takes its `else` branch: the first `i`
      with `i * ChunkSize >= target`. */
  function BreakAt(target: int): (b: nat)
    ensures target <= 0 ==> b == 0
    ensures target > 0 ==> (b - 1) * ChunkSize < target <= b * ChunkSize
  {
    if target <= 0 then 0 else (target + ChunkSize - 1) / ChunkSize
  }

  lemma BelowBreak(i: nat, target: int)
    requires i * ChunkSize < target
    ensures i < BreakAt(target)
  {
  }

  lemma AtBreak(i: nat, target: int)
    requires i <= BreakAt(target) && i * ChunkSize >= target
    ensures i == BreakAt(target)
  {
  }

  /** The pieces the loop collects, in closed form: every chunk before the
      breaking iteration whole, then the breaking chunk sliced to
      `target - that index * ChunkSize`; all chunks when the loop never breaks. */
  function Kept(chunks: seq<seq<Row>>, target: int): seq<seq<Row>> {
    var b := BreakAt(target);
    if b < |chunks| then chunks[..b] + [PrefixSlice(chunks[b], target - b * ChunkSize)] else chunks
  }

  /** How many chunks the loop pulls from the reader before it stops. */
  function ChunksRead(chunks: seq<seq<Row>>, divisor: int): nat {
    if |chunks| == 0 then 0
    else if divisor == 0 then 1
    else var b := BreakAt(FloorDiv(|chunks[0]|, divisor));
         if b < |chunks| then b + 1 else |chunks|
  }

  /** `base + "_" + str(divisor) + ext` with `(base, ext) = os.path.splitext(name)`. */
  function OutputName(name: string, divisor: int): string {
    var (base, ext) := SplitExt(name);
    base + "_" + Decimal(divisor) + ext
  }

  /** A listed `X.csv` whose `X` has a non-dot character (and no slash, as a
      name in a directory listing) is written as `X_<divisor>.csv`. */
  lemma CsvOutputName(x: string, divisor: int)
    requires forall k :: 0 <= k < |x| ==> x[k] != '/'
    requires exists k :: 0 <= k < |x| && x[k] != '.'
    ensures OutputName(x + ".csv", divisor) == x + "_" + Decimal(divisor) + ".csv"
  {
    SplitCsvName(x);
  }

  /** What cut_csv.py does with one CSV file, given the chunks its reader yields. */
  function FileSpec(name: string, chunks: seq<seq<Row>>, divisor: int): FileOutcome {
    if |chunks| == 0 then Failed(TargetNeverSet)
    else if divisor == 0 then Failed(DivisionByZero)
    else
      var target := FloorDiv(|chunks[0]|, divisor);
      var kept := Kept(chunks, target);
      if target > 0 && |kept| > 0 then Written(Output(OutputName(name, divisor), Concat(kept)))
      else Skipped
  }

  /** The chunk loop (cut_csv.py lines 60-91) itself. `chunks` is what the
      reader would yield; `consumed` is how many of them the loop pulled and
      `target` the final value of `small_num_rows`. */
  method TruncateFile(name: string, chunks: seq<seq<Row>>, divisor: int)
    returns (outcome: FileOutcome, consumed: nat, target: Option<int>)
    ensures outcome == FileSpec(name, chunks, divisor)
    ensures consumed == ChunksRead(chunks, divisor)
    ensures target == Target(chunks, divisor)
  {
    target := None;
    var kept: seq<seq<Row>> := [];
    var i := 0;
    while i < |chunks|
      invariant 0 <= i <= |chunks|
      invariant target.None? <==> i == 0
      invariant target.Some? ==> divisor != 0 && target.value == FloorDiv(|chunks[0]|, divisor)
      invariant target.Some? ==> i <= BreakAt(target.value)
      invariant kept == chunks[..i]
    {
      var chunk := chunks[i];
      i := i + 1;
      if target.None? {
        if divisor == 0 {
          return Failed(DivisionByZero), i, target;
        }
        target := Some(FloorDiv(|chunk|, divisor));
      }
      if |kept| * ChunkSize < target.value {
        BelowBreak(|kept|, target.value);
        kept := kept + [chunk];
      } else {
        AtBreak(|kept|, target.value);
        kept := kept + [PrefixSlice(chunk, target.value - |kept| * ChunkSize)];
        break;
      }
    }
    consumed := i;
    if target.None? {
      return Failed(TargetNeverSet), consumed, target;
    }
    assert kept == Kept(chunks, target.value);
    assert consumed == ChunksRead(chunks, divisor);
    if target.value > 0 && |kept| > 0 {
      outcome := Written(Output(OutputName(name, divisor), Concat(kept)));
    } else {
      outcome := Skipped;
    }
  }

  // ---------------------------------------------------------------------------
  // What the loop keeps

  /** One kept piece per chunk read; each piece before the breaking iteration
      is its chunk whole and was kept because `i * ChunkSize < target`; the
      piece at the breaking iteration is that chunk sliced. */
  lemma KeptPieces(chunks: seq<seq<Row>>, target: int)
    ensures |Kept(chunks, target)| == if BreakAt(target) < |chunks| then BreakAt(target) + 1 else |chunks|
    ensures forall i :: 0 <= i < |Kept(chunks, target)| && i < BreakAt(target) ==>
              Kept(chunks, target)[i] == chunks[i] && i * ChunkSize < target
    ensures BreakAt(target) < |chunks| ==>
              BreakAt(target) * ChunkSize >= target &&
              Kept(chunks, target)[BreakAt(target)] == PrefixSlice(chunks[BreakAt(target)], target - BreakAt(target) * ChunkSize)
  {
    var b := BreakAt(target);
    forall i | 0 <= i < |Kept(chunks, target)| && i < b ensures i * ChunkSize < target {
      assert i <= b - 1;
    }
  }

  /** The kept rows are always a prefix of the file's rows, in order. */
  lemma KeptIsPrefix(chunks: seq<seq<Row>>, target: int)
    ensures IsPrefix(Concat(Kept(chunks, target)), Concat(chunks))
  {
    var b := BreakAt(target);
    if b < |chunks| {
      var piece := PrefixSlice(chunks[b], target - b * ChunkSize);
      assert chunks == chunks[..b] + ([chunks[b]] + chunks[b + 1..]);
      ConcatAppend(chunks[..b], [chunks[b]] + chunks[b + 1..]);
      ConcatAppend(chunks[..b], [piece]);
      assert Concat([piece]) == piece;
      var pre := Concat(chunks[..b]);
      assert Concat(chunks) == pre + (chunks[b] + Concat(chunks[b + 1..]));
      assert Concat(Kept(chunks, target)) == pre + piece;
    }
  }

  /** With at least one chunk the loop keeps at least one piece, so the
      `chunks` half of the write test never decides anything. */
  lemma KeptNonEmpty(chunks: seq<seq<Row>>, target: int)
    requires |chunks| > 0
    ensures |Kept(chunks, target)| > 0
  {
  }

  /** With divisor >= 1 and a first chunk no longer than the chunk size the
      target is at most the chunk size: a positive target keeps the first
      chunk whole and the loop reads at most two chunks. A one-chunk file is
      kept entirely; with a second chunk, that chunk contributes
      `len(c1) - (ChunkSize - target)` rows when positive, and none when the
      target equals the chunk size (the slice stop is then 0). */
  lemma PositiveTargetKeepsFirstChunk(chunks: seq<seq<Row>>, divisor: int)
    requires WellChunked(chunks) && |chunks| > 0 && divisor >= 1
    requires FloorDiv(|chunks[0]|, divisor) > 0
    ensures var target := FloorDiv(|chunks[0]|, divisor);
            var kept := Kept(chunks, target);
            && target <= |chunks[0]| <= ChunkSize
            && kept[0] == chunks[0]
            && ChunksRead(chunks, divisor) <= 2
            && (|chunks| == 1 ==> Concat(kept) == chunks[0])
            && (|chunks| >= 2 ==>
                  |Concat(kept)| == |chunks[0]| +
                    (if target == ChunkSize || |chunks[1]| <= ChunkSize - target then 0
                     else |chunks[1]| - (ChunkSize - target)))
  {
    var target := FloorDiv(|chunks[0]|, divisor);
    FloorDivAtMost(|chunks[0]|, divisor);
    assert BreakAt(target) == 1;
    var kept := Kept(chunks, target);
    if |chunks| == 1 {
      assert kept == chunks;
      assert Concat(kept) == chunks[0] + Concat([]);
    } else {
      var piece := PrefixSlice(chunks[1], target - ChunkSize);
      assert kept == [chunks[0], piece];
      assert kept[1..] == [piece];
      assert [piece][1..] == [];
      assert Concat(kept) == chunks[0] + (piece + Concat([]));
    }
  }

  /** A non-positive target slices the first chunk and stops: one chunk is read
      and nothing is written. */
  lemma NonPositiveTargetStopsAtFirstChunk(name: string, chunks: seq<seq<Row>>, divisor: int)
    requires |chunks| > 0 && divisor != 0 && FloorDiv(|chunks[0]|, divisor) <= 0
    ensures Kept(chunks, FloorDiv(|chunks[0]|, divisor)) == [PrefixSlice(chunks[0], FloorDiv(|chunks[0]|, divisor))]
    ensures ChunksRead(chunks, divisor) == 1
    ensures FileSpec(name, chunks, divisor) == Skipped
  {
  }

  // ---------------------------------------------------------------------------
  // The write decision

  /** A file is written iff it yields a chunk, the divisor is non-zero and the
      target is positive; a written file always has divisor >= 1, the derived
      name, and the kept rows, which are a prefix of the file's rows. */
  lemma WrittenIff(name: string, chunks: seq<seq<Row>>, divisor: int)
    ensures FileSpec(name, chunks, divisor).Written? <==>
              |chunks| > 0 && divisor != 0 && FloorDiv(|chunks[0]|, divisor) > 0
    ensures FileSpec(name, chunks, divisor).Written? ==>
              var out := FileSpec(name, chunks, divisor).out;
              && divisor >= 1
              && out.name == OutputName(name, divisor)
              && out.rows == Concat(Kept(chunks, FloorDiv(|chunks[0]|, divisor)))
              && IsPrefix(out.rows, Concat(chunks))
  {
    if |chunks| > 0 && divisor != 0 {
      var target := FloorDiv(|chunks[0]|, divisor);
      KeptNonEmpty(chunks, target);
      KeptIsPrefix(chunks, target);
      if divisor < 0 {
        assert target * divisor >= |chunks[0]| >= 0;
        assert target <= 0;
      }
    }
  }

  /** The error paths: divisor 0 fails at the target computation as soon as a
      chunk arrives; a file that yields no chunk fails at the write test. */
  lemma FailureIff(name: string, chunks: seq<seq<Row>>, divisor: int)
    ensures FileSpec(name, chunks, divisor) == Failed(DivisionByZero) <==> |chunks| > 0 && divisor == 0
    ensures FileSpec(name, chunks, divisor) == Failed(TargetNeverSet) <==> |chunks| == 0
  {
  }

  /** Reading stops after the breaking chunk: only the chunks read decide the
      outcome, so any chunks the reader would yield afterwards change nothing. */
  lemma UnreadChunksIrrelevant(name: string, chunks: seq<seq<Row>>, rest: seq<seq<Row>>, divisor: int)
    requires ChunksRead(chunks, divisor) < |chunks|
    ensures FileSpec(name, chunks, divisor) == FileSpec(name, chunks[..ChunksRead(chunks, divisor)] + rest, divisor)
  {
    var n := ChunksRead(chunks, divisor);
    var other := chunks[..n] + rest;
    assert other[0] == chunks[0];
    if divisor != 0 {
      var target := FloorDiv(|chunks[0]|, divisor);
      var b := BreakAt(target);
      assert other[..b] == chunks[..b] && other[b] == chunks[b];
      assert Kept(other, target) == Kept(chunks, target);
    }
  }

  // ---------------------------------------------------------------------------
  // Examples

  /** A 30-row file with divisor 4 is written with all 30 rows under `a_4.csv`. */
  lemma SmallFileKeptWhole(c: seq<Row>)
    requires |c| == 30
    ensures FileSpec("a.csv", [c], 4) == Written(Output("a_4.csv", c))
  {
    assert FloorDiv(30, 4) == 7;
    PositiveTargetKeepsFirstChunk([c], 4);
    assert "a"[0] != '.';
    SplitCsvName("a");
    assert "a" + ".csv" == "a.csv";
    assert Decimal(4) == "4";
    assert OutputName("a.csv", 4) == "a_4.csv";
    assert Concat([c]) == c + Concat([]);
  }

  /** A file whose first chunk is full (100000 rows) with divisor 4 has target
      25000, yet the whole first chunk is kept; a second full chunk then adds
      25000 more rows (slice stop -75000). */
  lemma FullChunksDivisorFour(c0: seq<Row>, c1: seq<Row>)
    requires |c0| == ChunkSize && |c1| == ChunkSize
    ensures FileSpec("orders.csv", [c0], 4).Written?
    ensures |FileSpec("orders.csv", [c0], 4).out.rows| == 100000
    ensures |FileSpec("orders.csv", [c0, c1], 4).out.rows| == 125000
  {
    assert FloorDiv(ChunkSize, 4) == 25000;
    PositiveTargetKeepsFirstChunk([c0], 4);
    PositiveTargetKeepsFirstChunk([c0, c1], 4);
  }

  // ---------------------------------------------------------------------------
  // The truncation the comments describe

  /** Keep rows until `need` rows are kept: whole chunks while they fit, then
      the prefix of the next chunk that makes up the rest. */
  function CorrectedKept(chunks: seq<seq<Row>>, need: int): seq<seq<Row>> {
    if chunks == [] || need <= 0 then []
    else if |chunks[0]| < need then [chunks[0]] + CorrectedKept(chunks[1..], need - |chunks[0]|)
    else [chunks[0][..need]]
  }

  /** The corrected pieces hold exactly the first `need` rows of the file
      (all of them when the file is shorter). */
  lemma {:induction false} CorrectedKeepsTarget(chunks: seq<seq<Row>>, need: nat)
    ensures var all := Concat(chunks);
            Concat(CorrectedKept(chunks, need)) == all[..if need <= |all| then need else |all|]
  {
    var all := Concat(chunks);
    if chunks == [] || need == 0 {
    } else if |chunks[0]| < need {
      CorrectedKeepsTarget(chunks[1..], need - |chunks[0]|);
      var rest := Concat(chunks[1..]);
      assert all == chunks[0] + rest;
      var m := need - |chunks[0]|;
      var k := if m <= |rest| then m else |rest|;
      assert Concat(CorrectedKept(chunks, need)) == chunks[0] + rest[..k];
      assert chunks[0] + rest[..k] == all[..|chunks[0]| + k];
    } else {
      assert Concat(CorrectedKept(chunks, need)) == chunks[0][..need] + Concat([]);
      assert all[..need] == chunks[0][..need];
    }
  }

  /** With divisor >= 1 the corrected truncation writes exactly
      `floor(len(first chunk) / divisor)` rows. */
  lemma CorrectedRowCount(chunks: seq<seq<Row>>, divisor: int)
    requires |chunks| > 0 && divisor >= 1
    ensures |Concat(CorrectedKept(chunks, FloorDiv(|chunks[0]|, divisor)))| == FloorDiv(|chunks[0]|, divisor)
  {
    var target := FloorDiv(|chunks[0]|, divisor);
    FloorDivAtMost(|chunks[0]|, divisor);
    CorrectedKeepsTarget(chunks, target);
    assert Concat(chunks) == chunks[0] + Concat(chunks[1..]);
  }

  /** The as-written loop does not: the 30-row file with divisor 4 keeps 30
      rows where the corrected truncation keeps 7. */
  lemma AsWrittenOverKeeps(c: seq<Row>)
    requires |c| == 30
    ensures |Concat(Kept([c], FloorDiv(30, 4)))| == 30
    ensures |Concat(CorrectedKept([c], FloorDiv(30, 4)))| == 7
  {
    SmallFileKeptWhole(c);
    CorrectedRowCount([c], 4);
  }
}
