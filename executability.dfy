/** Testing one file under one architecture: the sandbox outcome is
    classified, emulator failures give an empty result, and a completed run
    is converted to text and rewritten (trace, bare-space option, merging). */
module Executability {
  import opened Text
  import opened OrderedMaps
  import opened RunResults
  import opened Aggregation

  /** The option names a sandbox run may produce: distinct, and free of the
      comma that merged keys use as separator. */
  predicate WellNamed(options: Options)
  {
    DistinctKeys(options) && forall k :: k in Keys(options) ==> ',' !in k
  }

  lemma WellNamedIsCommaFree(options: Options)
    requires WellNamed(options)
    ensures CommaFree(Names(options))
  {
    forall n | n in Names(options) ensures ',' !in n {
      var i :| 0 <= i < |options| && Names(options)[i] == n;
      assert options[i].0 in Keys(options);
    }
  }

  /** The rewrites applied, in this order, to the text of a completed run. */
  function Rewrite(options: Options, decode: seq<byte> -> string, compress: string -> seq<byte>): Options
  {
    Merge(ReplaceEmpty(ProcessStrace(ConvertOutputToStrings(options, decode), compress)))
  }

  /** The result stored for one (file, architecture) pair. */
  function QemuExecutability(outcome: SandboxOutcome, decode: seq<byte> -> string,
                             compress: string -> seq<byte>): (r: ArchResult)
    ensures !outcome.Completed? ==> r == ClassifyRun(outcome) && r.Failed?
    ensures outcome.Completed? ==> r.Ran?
    ensures outcome.Completed? && ResultContainsQemuErrors(outcome.options) ==> r == Ran([])
    ensures outcome.Completed? && outcome.options == [] ==> r == Ran([])
  {
    match ClassifyRun(outcome)
    case Failed(e) => Failed(e)
    case Ran(options) =>
      if options == [] || ResultContainsQemuErrors(options) then Ran([])
      else Ran(Rewrite(options, decode, compress))
  }

  /** The rewrites keep the option names well formed. */
  lemma RewriteStepsWellNamed(options: Options, decode: seq<byte> -> string, compress: string -> seq<byte>)
    requires WellNamed(options)
    ensures WellNamed(ConvertOutputToStrings(options, decode))
    ensures WellNamed(ProcessStrace(ConvertOutputToStrings(options, decode), compress))
    ensures WellNamed(ReplaceEmpty(ProcessStrace(ConvertOutputToStrings(options, decode), compress)))
  {
    var c := ConvertOutputToStrings(options, decode);
    var t := ProcessStrace(c, compress);
    var e := ReplaceEmpty(t);
    assert ',' !in TraceOption && ',' !in EmptyLabel;
    forall k | k in Keys(e) ensures ',' !in k {
      if k != EmptyLabel && k != SpaceOption {
        assert k in Keys(t);
      }
    }
  }

  /** Computes the stored result of one run, rewriting the option dictionary in place. */
  method CheckQemuExecutability(outcome: SandboxOutcome, decode: seq<byte> -> string,
                                compress: string -> seq<byte>) returns (r: ArchResult)
    requires outcome.Completed? ==> WellNamed(outcome.options)
    ensures r == QemuExecutability(outcome, decode, compress)
  {
    r := ClassifyRun(outcome);
    if r.Failed? || r.options == [] {
      return;
    }
    if ResultContainsQemuErrors(r.options) {
      return Ran([]);
    }
    RewriteStepsWellNamed(r.options, decode, compress);
    var result := new ArchResultSet(ConvertOutputToStrings(r.options, decode));
    result.ProcessStraceOutput(compress);
    result.ReplaceEmptyStrings();
    WellNamedIsCommaFree(result.options);
    MergeKeysDistinct(result.options);
    result.MergeSimilarEntries();
    r := Ran(result.options);
  }

  /** The rewrites never change the verdict: a stored result shows real
      execution exactly when the run completed, produced options free of
      emulator errors, and one of its non-trace options ran validly. */
  lemma QemuExecutabilityVerdict(outcome: SandboxOutcome, decode: seq<byte> -> string,
                                 compress: string -> seq<byte>)
    requires outcome.Completed? ==> WellNamed(outcome.options) && EmptyLabel !in Keys(outcome.options)
    ensures ArchHasValidRun(QemuExecutability(outcome, decode, compress)) <==>
      && outcome.Completed?
      && !ResultContainsQemuErrors(outcome.options)
      && ArchHasValidRun(Ran(ConvertOutputToStrings(outcome.options, decode)))
  {
    if outcome.Completed? && outcome.options != [] && !ResultContainsQemuErrors(outcome.options) {
      var c := ConvertOutputToStrings(outcome.options, decode);
      var t := ProcessStrace(c, compress);
      var e := ReplaceEmpty(t);
      RewriteStepsWellNamed(outcome.options, decode, compress);
      ProcessStracePreservesVerdict(c, compress);
      assert EmptyLabel !in Keys(t) by {
        assert EmptyLabel[0] != TraceOption[0];
      }
      ReplaceEmptyPreservesVerdict(t);
      WellNamedIsCommaFree(e);
      MergePreservesVerdict(e);
    }
  }

  /** Nothing is lost in the rewrites: every option of a completed run other
      than the trace and the bare-space option is stored under a key that
      contains its name and reads back to list it, holding its record as text. */
  lemma QemuExecutabilityKeepsOptions(options: Options, decode: seq<byte> -> string,
                                      compress: string -> seq<byte>)
    requires WellNamed(options) && EmptyLabel !in Keys(options)
    requires options != [] && !ResultContainsQemuErrors(options)
    ensures var r := QemuExecutability(Completed(options), decode, compress);
      forall k :: k in Keys(options) && k != TraceOption && k != SpaceOption ==>
        exists j :: (0 <= j < |r.options| && IsFactor(k, r.options[j].0) && k in Parts(r.options[j].0)
          && r.options[j].1 == ValueToStrings(Get(options, k), decode))
  {
    forall k | k in Keys(options) && k != TraceOption && k != SpaceOption
      ensures var r := QemuExecutability(Completed(options), decode, compress);
        exists j :: (0 <= j < |r.options| && IsFactor(k, r.options[j].0) && k in Parts(r.options[j].0)
          && r.options[j].1 == ValueToStrings(Get(options, k), decode))
    {
      OptionKept(options, decode, compress, k);
    }
  }

  lemma OptionKept(options: Options, decode: seq<byte> -> string, compress: string -> seq<byte>, k: string)
    requires WellNamed(options) && EmptyLabel !in Keys(options)
    requires options != [] && !ResultContainsQemuErrors(options)
    requires k in Keys(options) && k != TraceOption && k != SpaceOption
    ensures var r := QemuExecutability(Completed(options), decode, compress);
      exists j :: (0 <= j < |r.options| && IsFactor(k, r.options[j].0) && k in Parts(r.options[j].0)
        && r.options[j].1 == ValueToStrings(Get(options, k), decode))
  {
    var c := ConvertOutputToStrings(options, decode);
    var t := ProcessStrace(c, compress);
    var e := ReplaceEmpty(t);
    RewriteStepsWellNamed(options, decode, compress);
    assert QemuExecutability(Completed(options), decode, compress) == Ran(Merge(e));
    var i0 := IndexOf(options, k);
    assert c[i0] == (k, ValueToStrings(options[i0].1, decode));
    GetAt(c, i0);
    assert k != EmptyLabel;
    assert Get(e, k) == ValueToStrings(Get(options, k), decode);
    var i := IndexOf(e, k);
    WellNamedIsCommaFree(e);
    NamesSurviveMerge(e, i);
  }

  /** No stored result has a bare-space key: it is always stored under the printable label. */
  lemma QemuExecutabilityDropsSpace(outcome: SandboxOutcome, decode: seq<byte> -> string,
                                    compress: string -> seq<byte>)
    ensures outcome.Completed? ==> SpaceOption !in Keys(QemuExecutability(outcome, decode, compress).options)
  {
    if outcome.Completed? && outcome.options != [] && !ResultContainsQemuErrors(outcome.options) {
      MergeAddsNoSpaceKey(ReplaceEmpty(ProcessStrace(ConvertOutputToStrings(outcome.options, decode), compress)));
    }
  }

  /** A run that never completed, or that the emulator itself rejected, does not count. */
  lemma FailedRunsDoNotCount(outcome: SandboxOutcome, decode: seq<byte> -> string,
                             compress: string -> seq<byte>)
    requires !outcome.Completed? || ResultContainsQemuErrors(outcome.options)
    ensures !ArchHasValidRun(QemuExecutability(outcome, decode, compress))
  {
  }

  /** A timeout is stored as {'error': 'timeout'}, a failed driver as {'error': 'process error'}. */
  lemma FailureMarkersStored(decode: seq<byte> -> string, compress: string -> seq<byte>)
    ensures QemuExecutability(TimedOut, decode, compress) == Failed(TimeoutError)
    ensures QemuExecutability(ProcessFailed, decode, compress) == Failed(ProcessError)
  {
  }
}
