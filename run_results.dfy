/** What one sandboxed run of a file under one architecture yields, and the
    decisions taken on it alone: the executability heuristic, the search for
    emulator error markers, and the conversion of every output field to text. */
module RunResults {
  import opened Text
  import opened OrderedMaps

  /** One field of a run record: text, the raw bytes the sandbox captured,
      or a number (the emulated program's exit status). */
  datatype Scalar = Str(s: string) | Raw(b: seq<byte>) | Number(n: int)

  /** What an invocation option maps to: a run record such as
      {stdout, stderr, return_code}, or, once the trace has been processed,
      the compressed trace. */
  datatype Value = Record(fields: map<string, Scalar>) | Blob(data: seq<byte>)

  /** Invocation option -> value, in the order the options were run. */
  type Options = OrderedMap<string, Value>

  /** The result for one (file, architecture) pair: the option dictionary, or
      the dictionary {'error': reason} when the sandbox run never completed. */
  datatype ArchResult = Failed(error: string) | Ran(options: Options)

  /** How a sandbox run ended, as the external runner reports it. */
  datatype SandboxOutcome = Completed(options: Options) | TimedOut | ProcessFailed

  const TraceOption: string := "strace"
  const TimeoutError: string := "timeout"
  const ProcessError: string := "process error"

  /** A run record of three text fields. */
  function TextRecord(returnCode: string, stdout: string, stderr: string): Value
  {
    Record(map["return_code" := Str(returnCode), "stdout" := Str(stdout), "stderr" := Str(stderr)])
  }

  // ---------------------------------------------------------------------
  // Failure classification

  /** A run that timed out or whose driver failed becomes an error marker;
      a completed run keeps its options. */
  function ClassifyRun(outcome: SandboxOutcome): (r: ArchResult)
    ensures r.Failed? <==> !outcome.Completed?
    ensures outcome.TimedOut? ==> r.error == TimeoutError
    ensures outcome.ProcessFailed? ==> r.error == ProcessError
    ensures outcome.Completed? ==> r.options == outcome.options
  {
    match outcome
    case Completed(options) => Ran(options)
    case TimedOut => Failed(TimeoutError)
    case ProcessFailed => Failed(ProcessError)
  }

  /** The two failure kinds are told apart. */
  lemma ClassificationDistinguishesFailures()
    ensures ClassifyRun(TimedOut) != ClassifyRun(ProcessFailed)
  {
    assert TimeoutError[0] != ProcessError[0];
  }

  // ---------------------------------------------------------------------
  // Validity heuristic

  /** One run counts as real execution when it printed something on stdout and
      either exited with status "0" or printed nothing on stderr. A field the
      record lacks makes the run count for nothing (a missing key is caught). */
  predicate OutputWithoutError(v: Value)
  {
    match v
    case Blob(_) => false
    case Record(f) =>
      && "stdout" in f && f["stdout"] != Str("")
      && "return_code" in f
      && (f["return_code"] == Str("0") || ("stderr" in f && f["stderr"] == Str("")))
  }

  /** Some option other than the trace produced a valid run under this architecture;
      an error marker never does. */
  predicate ArchHasValidRun(a: ArchResult)
  {
    a.Ran? && exists i :: 0 <= i < |a.options| && a.options[i].0 != TraceOption && OutputWithoutError(a.options[i].1)
  }

  /** The executable verdict over architecture -> result. */
  predicate ValidExecutionInResults(results: map<string, ArchResult>)
  {
    exists arch :: arch in results && ArchHasValidRun(results[arch])
  }

  /** With a single architecture and a single option, the verdict is that option's. */
  lemma SingleRunVerdict(v: Value)
    ensures ValidExecutionInResults(map["arch" := Ran([("option", v)])]) <==> OutputWithoutError(v)
  {
    var results := map["arch" := Ran([("option", v)])];
    if OutputWithoutError(v) {
      var a := results["arch"];
      assert a.options[0].0 != TraceOption by {
        assert a.options[0].0[0] == 'o' && TraceOption[0] == 's';
      }
      assert OutputWithoutError(a.options[0].1);
      assert ArchHasValidRun(a);
    }
  }

  /** The six cases the heuristic is pinned to, including the asymmetric last
      one: output on both streams with a non-zero status is no evidence. */
  lemma ValidityTruthTable()
    ensures !ValidExecutionInResults(map["arch" := Ran([("option", TextRecord("0", "", ""))])])
    ensures !ValidExecutionInResults(map["arch" := Ran([("option", TextRecord("1", "", ""))])])
    ensures ValidExecutionInResults(map["arch" := Ran([("option", TextRecord("0", "something", ""))])])
    ensures ValidExecutionInResults(map["arch" := Ran([("option", TextRecord("1", "something", ""))])])
    ensures ValidExecutionInResults(map["arch" := Ran([("option", TextRecord("0", "something", "error"))])])
    ensures !ValidExecutionInResults(map["arch" := Ran([("option", TextRecord("1", "something", "error"))])])
  {
    assert "something" != "" && "error" != "" && "1" != "0";
    var rows := [("0", "", ""), ("1", "", ""), ("0", "something", ""), ("1", "something", ""),
                 ("0", "something", "error"), ("1", "something", "error")];
    forall row | row in rows
      ensures ValidExecutionInResults(map["arch" := Ran([("option", TextRecord(row.0, row.1, row.2))])])
          <==> row.1 != "" && (row.0 == "0" || row.2 == "")
    {
      SingleRunVerdict(TextRecord(row.0, row.1, row.2));
      ValidTextRecord(row.0, row.1, row.2);
    }
  }

  /** A complete text record is valid exactly when stdout is non-empty and the
      status is "0" or stderr is empty. */
  lemma ValidTextRecord(returnCode: string, stdout: string, stderr: string)
    ensures OutputWithoutError(TextRecord(returnCode, stdout, stderr))
        <==> stdout != "" && (returnCode == "0" || stderr == "")
  {
  }

  /** Runs that never completed are never evidence of execution. */
  lemma FailedRunsAreNotExecutable(results: map<string, ArchResult>)
    requires forall arch :: arch in results ==> results[arch].Failed?
    ensures !ValidExecutionInResults(results)
  {
  }

  /** A file whose every run printed nothing and exited with "0" is not executable. */
  lemma SilentRunsAreNotExecutable(results: map<string, ArchResult>)
    requires forall arch, i :: arch in results && results[arch].Ran? && 0 <= i < |results[arch].options| ==>
      results[arch].options[i].1 == TextRecord("0", "", "")
    ensures !ValidExecutionInResults(results)
  {
  }

  /** A run under the right architecture that printed "Hello World\n" makes the file executable. */
  lemma HelloWorldIsExecutable(results: map<string, ArchResult>, arch: string, option: string)
    requires arch in results && results[arch].Ran? && option != TraceOption
    requires option in Keys(results[arch].options)
    requires DistinctKeys(results[arch].options)
    requires Get(results[arch].options, option) == TextRecord("0", "Hello World\n", "")
    ensures ValidExecutionInResults(results)
  {
    var opts := results[arch].options;
    var i := IndexOf(opts, option);
    assert OutputWithoutError(opts[i].1);
    assert ArchHasValidRun(results[arch]);
  }

  // ---------------------------------------------------------------------
  // Emulator error markers

  /** The messages by which the emulator, not the emulated program, reports failure. */
  const QemuErrorTexts: seq<string> := ["Invalid ELF", "Unsupported syscall"]

  function QemuErrors(): (markers: seq<seq<byte>>)
    ensures |markers| == |QemuErrorTexts|
  {
    [Bytes(QemuErrorTexts[0]), Bytes(QemuErrorTexts[1])]
  }

  /** The captured output holds one of the emulator's error markers. */
  predicate ContainsDockerError(output: seq<byte>)
  {
    exists i :: 0 <= i < |QemuErrors()| && IsFactor(QemuErrors()[i], output)
  }

  /** A field of a run record shows an emulator error (only raw captured bytes are searched). */
  predicate FieldHasQemuError(s: Scalar)
  {
    s.Raw? && ContainsDockerError(s.b)
  }

  /** Some field of some option's record shows an emulator error. */
  predicate ResultContainsQemuErrors(options: Options)
  {
    exists i, f :: 0 <= i < |options| && options[i].1.Record? && f in options[i].1.fields
      && FieldHasQemuError(options[i].1.fields[f])
  }

  lemma {:induction false} FactorNoLonger<T>(p: seq<T>, s: seq<T>)
    requires IsFactor(p, s)
    ensures |p| <= |s|
  {
    IsFactorIffOccurs(p, s);
  }

  lemma BytesConcat(a: string, b: string)
    ensures Bytes(a + b) == Bytes(a) + Bytes(b)
  {
  }

  /** A text with no emulator marker in it, written as bytes, is marker-free when it is shorter than both markers. */
  lemma ShortOutputHasNoError(output: seq<byte>)
    requires |output| < 11
    ensures !ContainsDockerError(output)
  {
    if ContainsDockerError(output) {
      var i :| 0 <= i < |QemuErrors()| && IsFactor(QemuErrors()[i], output);
      FactorNoLonger(QemuErrors()[i], output);
    }
  }

  /** The marker examples: a syscall-emulation failure is found; plain output and empty output are not. */
  lemma DockerErrorExamples()
    ensures ContainsDockerError(Bytes("Unknown syscall 4001 qemu: Unsupported syscall: 4001\n"))
    ensures !ContainsDockerError(Bytes("foobar"))
    ensures !ContainsDockerError([])
  {
    var pre, mark, post := "Unknown syscall 4001 qemu: ", "Unsupported syscall", ": 4001\n";
    assert pre + mark + post == "Unknown syscall 4001 qemu: Unsupported syscall: 4001\n";
    BytesConcat(pre, mark);
    BytesConcat(pre + mark, post);
    FactorOfItself(Bytes(mark), Bytes(pre), Bytes(post));
    assert QemuErrors()[1] == Bytes(mark);
    ShortOutputHasNoError(Bytes("foobar"));
    ShortOutputHasNoError([]);
  }

  /** The option-level examples: a record holding "Invalid ELF" is flagged, one holding "no errors" is not. */
  lemma QemuErrorExamples()
    ensures ResultContainsQemuErrors([("parameter", Record(map["std_out" := Raw(Bytes("foo Invalid ELF bar"))]))])
    ensures !ResultContainsQemuErrors([("parameter", Record(map["std_out" := Raw(Bytes("no errors"))]))])
  {
    var pre, mark, post := "foo ", "Invalid ELF", " bar";
    assert pre + mark + post == "foo Invalid ELF bar";
    BytesConcat(pre, mark);
    BytesConcat(pre + mark, post);
    FactorOfItself(Bytes(mark), Bytes(pre), Bytes(post));
    assert QemuErrors()[0] == Bytes(mark);
    var flagged: Options := [("parameter", Record(map["std_out" := Raw(Bytes("foo Invalid ELF bar"))]))];
    assert FieldHasQemuError(flagged[0].1.fields["std_out"]);
    var clean: Options := [("parameter", Record(map["std_out" := Raw(Bytes("no errors"))]))];
    if ResultContainsQemuErrors(clean) {
      var i, f :| 0 <= i < |clean| && clean[i].1.Record? && f in clean[i].1.fields
        && FieldHasQemuError(clean[i].1.fields[f]);
      assert f == "std_out";
      ShortOutputHasNoError(Bytes("no errors"));
    }
  }

  // ---------------------------------------------------------------------
  // Conversion of captured output to text

  /** Bytes become text through `decode`, numbers their decimal form, text stays. */
  function ScalarToString(s: Scalar, decode: seq<byte> -> string): Scalar
  {
    match s
    case Str(_) => s
    case Raw(b) => Str(decode(b))
    case Number(n) => Str(IntToDecimal(n))
  }

  function ValueToStrings(v: Value, decode: seq<byte> -> string): Value
  {
    match v
    case Record(f) => Record(map k | k in f :: ScalarToString(f[k], decode))
    case Blob(_) => v
  }

  /** Every field of every record becomes text; the options, their order and
      the field names are kept; text is left alone, bytes are decoded and a
      number becomes its decimal string, which reads back as the same number. */
  function ConvertOutputToStrings(options: Options, decode: seq<byte> -> string): (r: Options)
    ensures |r| == |options|
    ensures forall i :: 0 <= i < |r| ==> r[i].0 == options[i].0
    ensures forall i :: 0 <= i < |r| ==> (r[i].1.Record? <==> options[i].1.Record?)
    ensures forall i :: 0 <= i < |r| && options[i].1.Blob? ==> r[i].1 == options[i].1
    ensures forall i, f :: 0 <= i < |r| && r[i].1.Record? ==>
      (f in r[i].1.fields <==> f in options[i].1.fields)
    ensures forall i, f :: 0 <= i < |r| && r[i].1.Record? && f in r[i].1.fields ==> r[i].1.fields[f].Str?
    ensures forall i, f :: 0 <= i < |r| && options[i].1.Record? && f in options[i].1.fields ==>
      match options[i].1.fields[f]
      case Str(t) => r[i].1.fields[f] == Str(t)
      case Raw(b) => r[i].1.fields[f] == Str(decode(b))
      case Number(n) => r[i].1.fields[f] == Str(IntToDecimal(n)) && DecimalValue(r[i].1.fields[f].s) == n
    ensures Keys(r) == Keys(options)
    ensures DistinctKeys(options) ==> DistinctKeys(r)
  {
    var r := seq(|options|, i requires 0 <= i < |options| => (options[i].0, ValueToStrings(options[i].1, decode)));
    forall i, f | 0 <= i < |r| && options[i].1.Record? && f in options[i].1.fields && options[i].1.fields[f].Number?
      ensures DecimalValue(r[i].1.fields[f].s) == options[i].1.fields[f].n
    {
      DecimalRoundTrip(options[i].1.fields[f].n);
    }
    assert Keys(r) == Keys(options) by {
      forall k | k in Keys(options) ensures k in Keys(r) {
        var i :| 0 <= i < |options| && options[i].0 == k;
        assert r[i].0 == k;
      }
    }
    r
  }

  /** A return code of 0 is stored as the text "0". */
  lemma ReturnCodeZeroBecomesText(decode: seq<byte> -> string)
    ensures ConvertOutputToStrings([("-h", Record(map["std_out" := Raw([]), "std_err" := Raw([]), "return_code" := Number(0)]))], decode)
      == [("-h", Record(map["std_out" := Str(decode([])), "std_err" := Str(decode([])), "return_code" := Str("0")]))]
  {
    var r := ConvertOutputToStrings([("-h", Record(map["std_out" := Raw([]), "std_err" := Raw([]), "return_code" := Number(0)]))], decode);
    assert IntToDecimal(0) == "0";
    assert r[0].1.fields == map["std_out" := Str(decode([])), "std_err" := Str(decode([])), "return_code" := Str("0")];
  }
}
