/** What cut_csv.py decides about names and answers, and the run over all
    CSV files of the directory: it picks the zip archives and the CSV sources
    from a listing, reads yes/no answers, announces archive members, and
    truncates every source in listing order until one fails. */
module CutCsv {
  import opened PyText
  import opened Truncate

  /** The one CSV name that is never processed. */
  const Reserved: string := "page_views.csv"

  // ---------------------------------------------------------------------------
  // Listing filters

  /** A list comprehension `[f for f in xs if keep(f)]`. */
  function Filter(xs: seq<string>, keep: string -> bool): seq<string> {
    if xs == [] then [] else (if keep(xs[0]) then [xs[0]] else []) + Filter(xs[1..], keep)
  }

  /** The comprehension keeps exactly the elements that pass, each as often as
      it occurs, and keeps their order (filtering distributes over `+`). */
  lemma {:induction false} FilterKeeps(xs: seq<string>, keep: string -> bool)
    ensures forall f :: multiset(Filter(xs, keep))[f] == if keep(f) then multiset(xs)[f] else 0
  {
    if xs != [] {
      FilterKeeps(xs[1..], keep);
      assert xs == [xs[0]] + xs[1..];
    }
  }

  lemma {:induction false} FilterAppend(xs: seq<string>, ys: seq<string>, keep: string -> bool)
    ensures Filter(xs + ys, keep) == Filter(xs, keep) + Filter(ys, keep)
  {
    if xs == [] {
      assert xs + ys == ys;
    } else {
      assert (xs + ys)[1..] == xs[1..] + ys;
      FilterAppend(xs[1..], ys, keep);
    }
  }

  predicate IsZip(f: string) {
    EndsWith(f, ".zip")
  }

  predicate IsSource(f: string) {
    EndsWith(f, ".csv") && f != Reserved
  }

  /** The zip archives of the listing (cut_csv.py line 21). */
  function ZipFiles(listing: seq<string>): seq<string> {
    Filter(listing, IsZip)
  }

  /** The CSV files to truncate (cut_csv.py line 54). */
  function CsvSources(listing: seq<string>): seq<string> {
    Filter(listing, IsSource)
  }

  /** The sources are exactly the listed names ending in `.csv` other than
      `page_views.csv`, each as often as listed, in listing order. */
  lemma CsvSourcesAre(listing: seq<string>)
    ensures forall f :: f in CsvSources(listing) <==> f in listing && EndsWith(f, ".csv") && f != Reserved
    ensures forall f :: multiset(CsvSources(listing))[f] == if IsSource(f) then multiset(listing)[f] else 0
    ensures forall xs, ys :: listing == xs + ys ==> CsvSources(listing) == CsvSources(xs) + CsvSources(ys)
  {
    FilterKeeps(listing, IsSource);
    forall f ensures f in CsvSources(listing) <==> f in listing && IsSource(f) {
      assert f in CsvSources(listing) <==> multiset(CsvSources(listing))[f] > 0;
      assert f in listing <==> multiset(listing)[f] > 0;
    }
    forall xs, ys | listing == xs + ys ensures CsvSources(listing) == CsvSources(xs) + CsvSources(ys) {
      FilterAppend(xs, ys, IsSource);
    }
  }

  /** The archives are exactly the listed names ending in `.zip`, in listing order. */
  lemma ZipFilesAre(listing: seq<string>)
    ensures forall f :: f in ZipFiles(listing) <==> f in listing && EndsWith(f, ".zip")
    ensures forall f :: multiset(ZipFiles(listing))[f] == if IsZip(f) then multiset(listing)[f] else 0
    ensures forall xs, ys :: listing == xs + ys ==> ZipFiles(listing) == ZipFiles(xs) + ZipFiles(ys)
  {
    FilterKeeps(listing, IsZip);
    forall f ensures f in ZipFiles(listing) <==> f in listing && IsZip(f) {
      assert f in ZipFiles(listing) <==> multiset(ZipFiles(listing))[f] > 0;
      assert f in listing <==> multiset(listing)[f] > 0;
    }
    forall xs, ys | listing == xs + ys ensures ZipFiles(listing) == ZipFiles(xs) + ZipFiles(ys) {
      FilterAppend(xs, ys, IsZip);
    }
  }

  // ---------------------------------------------------------------------------
  // Yes/no answers

  /** `answer.strip().lower() == 'yes'` */
  predicate Confirm(answer: string) {
    Lower(Strip(answer)) == "yes"
  }

  /** `yes` in any mix of upper and lower case. */
  predicate IsYesSpelling(w: string) {
    && |w| == 3
    && (w[0] == 'y' || w[0] == 'Y')
    && (w[1] == 'e' || w[1] == 'E')
    && (w[2] == 's' || w[2] == 'S')
  }

  lemma LowerIsYes(w: string)
    ensures Lower(w) == "yes" <==> IsYesSpelling(w)
  {
    if |w| == 3 {
      assert Lower(w) == [LowerChar(w[0]), LowerChar(w[1]), LowerChar(w[2])];
    }
  }

  /** `yes` in any case with nothing but whitespace around it. */
  predicate PaddedYes(answer: string) {
    exists i, j :: 0 <= i <= j <= |answer| && AllSpace(answer[..i])
                   && IsYesSpelling(answer[i..j]) && AllSpace(answer[j..])
  }

  /** A confirming answer is `yes` in some case, with whitespace around it. */
  lemma ConfirmedAnswerShape(answer: string) returns (i: nat, j: nat)
    requires Confirm(answer)
    ensures i <= j <= |answer| && AllSpace(answer[..i]) && IsYesSpelling(answer[i..j]) && AllSpace(answer[j..])
  {
    LowerIsYes(Strip(answer));
    StripSplits(answer);
    var m := Strip(answer);
    i :| 0 <= i <= |answer| - |m| && AllSpace(answer[..i])
         && answer[i..i + |m|] == m && AllSpace(answer[i + |m|..]);
    j := i + |m|;
  }

  /** `yes` in any case with only whitespace around it confirms. */
  lemma PaddedYesConfirms(answer: string, i: nat, j: nat)
    requires i <= j <= |answer| && AllSpace(answer[..i]) && IsYesSpelling(answer[i..j]) && AllSpace(answer[j..])
    ensures Confirm(answer)
  {
    var w := answer[i..j];
    assert answer == answer[..i] + w + answer[j..];
    assert Trimmed(w);
    StripUnique(answer[..i], w, answer[j..]);
    LowerIsYes(w);
  }

  /** An answer confirms exactly when it is `yes`, in any case, with nothing
      but whitespace around it. */
  lemma ConfirmIff(answer: string)
    ensures Confirm(answer) <==> PaddedYes(answer)
  {
    if Confirm(answer) {
      var i, j := ConfirmedAnswerShape(answer);
    }
    if PaddedYes(answer) {
      var i, j :| 0 <= i <= j <= |answer| && AllSpace(answer[..i])
                  && IsYesSpelling(answer[i..j]) && AllSpace(answer[j..]);
      PaddedYesConfirms(answer, i, j);
    }
  }

  /** The archives extracted (cut_csv.py lines 23-31): the user is asked only
      when there are archives, and a confirming answer extracts all of them. */
  function ArchivesExtracted(zips: seq<string>, answer: string): seq<string> {
    if zips != [] && Confirm(answer) then zips else []
  }

  /** All archives are extracted iff there are some and the answer is a padded
      `yes`; otherwise none is. */
  lemma ExtractionIff(zips: seq<string>, answer: string)
    ensures ArchivesExtracted(zips, answer) == [] || ArchivesExtracted(zips, answer) == zips
    ensures ArchivesExtracted(zips, answer) != [] <==> zips != [] && PaddedYes(answer)
  {
    ConfirmIff(answer);
  }

  // ---------------------------------------------------------------------------
  // Archive members

  /** The message printed for one member of an extracted archive. */
  datatype MemberNote = WillBeProcessed(member: string) | NotCsvSkipped(member: string)

  /** The notes for an archive's member list, one per member in order
      (cut_csv.py lines 34-39). */
  function Announce(members: seq<string>): (notes: seq<MemberNote>)
    ensures |notes| == |members|
    ensures forall k :: 0 <= k < |members| ==>
              notes[k].member == members[k] && (notes[k].WillBeProcessed? <==> EndsWith(members[k], ".csv"))
  {
    if members == [] then []
    else [if EndsWith(members[0], ".csv") then WillBeProcessed(members[0]) else NotCsvSkipped(members[0])]
         + Announce(members[1..])
  }

  /** The announcement is only about the extension: a member named
      `page_views.csv` is announced as processed, but no listing ever makes it
      a source. */
  lemma ReservedAnnouncedButNotProcessed(listing: seq<string>)
    ensures Announce([Reserved])[0].WillBeProcessed?
    ensures Reserved !in CsvSources(listing)
  {
    assert Reserved == "page_views" + ".csv";
    EndsWithIff(Reserved, ".csv");
    CsvSourcesAre(listing);
  }

  // ---------------------------------------------------------------------------
  // The run over all sources

  /** The files written, in order, and the failure that ended the run, if any.
      Files written before a failure stay written. */
  datatype RunResult = RunResult(written: seq<Output>, failure: Option<Failure>)

  /** The outer loop over the sources (cut_csv.py lines 57-92), one file after
      another, stopping at the first failure. */
  function RunFiles(files: seq<string>, divisor: int, read: string -> seq<seq<Row>>): RunResult {
    if files == [] then RunResult([], None)
    else match FileSpec(files[0], read(files[0]), divisor)
      case Failed(e) => RunResult([], Some(e))
      case Skipped => RunFiles(files[1..], divisor, read)
      case Written(out) =>
        var rest := RunFiles(files[1..], divisor, read);
        RunResult([out] + rest.written, rest.failure)
  }

  /** The truncation stage of the script, from the listing taken at line 54,
      the divisor entered, and what the reader yields for each file. */
  function Run(listing: seq<string>, divisor: int, read: string -> seq<seq<Row>>): RunResult {
    RunFiles(CsvSources(listing), divisor, read)
  }

  /** The outer loop itself, driving `TruncateFile` over the sources. */
  method ProcessAll(listing: seq<string>, divisor: int, read: string -> seq<seq<Row>>)
    returns (result: RunResult)
    ensures result == Run(listing, divisor, read)
  {
    var files := CsvSources(listing);
    var written: seq<Output> := [];
    var i := 0;
    while i < |files|
      invariant 0 <= i <= |files|
      invariant RunFiles(files, divisor, read) ==
                  var rest := RunFiles(files[i..], divisor, read);
                  RunResult(written + rest.written, rest.failure)
    {
      assert files[i..][1..] == files[i + 1..];
      var outcome, _, _ := TruncateFile(files[i], read(files[i]), divisor);
      match outcome {
        case Failed(e) =>
          return RunResult(written, Some(e));
        case Skipped =>
        case Written(out) =>
          written := written + [out];
      }
      i := i + 1;
    }
    result := RunResult(written, None);
  }

  /** Every file written comes from a source, has divisor >= 1, carries the
      derived name and holds a prefix of that source's rows. */
  lemma {:induction false} RunWritesDerivedFiles(files: seq<string>, divisor: int, read: string -> seq<seq<Row>>)
    ensures forall out :: out in RunFiles(files, divisor, read).written ==>
              divisor >= 1 &&
              exists f :: f in files && out.name == OutputName(f, divisor) && IsPrefix(out.rows, Concat(read(f)))
  {
    if files != [] {
      RunWritesDerivedFiles(files[1..], divisor, read);
      WrittenIff(files[0], read(files[0]), divisor);
      forall out | out in RunFiles(files, divisor, read).written
        ensures divisor >= 1 &&
                exists f :: f in files && out.name == OutputName(f, divisor) && IsPrefix(out.rows, Concat(read(f)))
      {
        if out !in RunFiles(files[1..], divisor, read).written {
          assert out == FileSpec(files[0], read(files[0]), divisor).out;
          assert files[0] in files;
        } else {
          var f :| f in files[1..] && out.name == OutputName(f, divisor) && IsPrefix(out.rows, Concat(read(f)));
          assert f in files;
        }
      }
    }
  }

  /** A divisor of 0 or below writes nothing. */
  lemma {:induction false} NonPositiveDivisorWritesNothing(files: seq<string>, divisor: int, read: string -> seq<seq<Row>>)
    requires divisor <= 0
    ensures RunFiles(files, divisor, read).written == []
  {
    if files != [] {
      WrittenIff(files[0], read(files[0]), divisor);
      NonPositiveDivisorWritesNothing(files[1..], divisor, read);
    }
  }

  /** The run fails exactly when some source yields no chunk, or when the
      divisor is 0 and there is a source at all. */
  lemma {:induction false} RunFailsIff(files: seq<string>, divisor: int, read: string -> seq<seq<Row>>)
    ensures RunFiles(files, divisor, read).failure.Some? <==>
              exists k :: 0 <= k < |files| && (|read(files[k])| == 0 || divisor == 0)
  {
    if files != [] {
      RunFailsIff(files[1..], divisor, read);
      FailureIff(files[0], read(files[0]), divisor);
      if exists k :: 0 <= k < |files| && (|read(files[k])| == 0 || divisor == 0) {
        var k :| 0 <= k < |files| && (|read(files[k])| == 0 || divisor == 0);
        if k > 0 && |read(files[0])| > 0 && divisor != 0 {
          assert files[1..][k - 1] == files[k];
        }
      }
      if exists k :: 0 <= k < |files| - 1 && (|read(files[1..][k])| == 0 || divisor == 0) {
        var k :| 0 <= k < |files| - 1 && (|read(files[1..][k])| == 0 || divisor == 0);
        assert files[1..][k] == files[k + 1];
      }
    }
  }

  // ---------------------------------------------------------------------------
  // Archive cleanup

  /** The archives deleted (cut_csv.py lines 94-102). The prompt is reached only
      when the loop over the sources finished: a failure is an uncaught
      exception that ends the script before line 96. */
  function ArchivesDeleted(zips: seq<string>, run: RunResult, answer: string): seq<string> {
    if run.failure.None? && zips != [] && Confirm(answer) then zips else []
  }

  /** After the truncation stage over `listing`, either all archives are deleted
      or none is; they are deleted iff there are some, every source yielded a
      chunk with a non-zero divisor (or there is no source), and the answer is
      a padded `yes`. */
  lemma DeletionIff(zips: seq<string>, listing: seq<string>, divisor: int,
                    read: string -> seq<seq<Row>>, answer: string)
    ensures var deleted := ArchivesDeleted(zips, Run(listing, divisor, read), answer);
            deleted == [] || deleted == zips
    ensures var sources := CsvSources(listing);
            ArchivesDeleted(zips, Run(listing, divisor, read), answer) != [] <==>
              && zips != []
              && (forall k :: 0 <= k < |sources| ==> |read(sources[k])| > 0 && divisor != 0)
              && PaddedYes(answer)
  {
    ConfirmIff(answer);
    RunFailsIff(CsvSources(listing), divisor, read);
  }
}
