/** Collecting the per-architecture results of the files found inside a
    firmware image, deciding which files are executable, summarising, and
    the outcome rules of analysing one object. */
module Jobs {
  import opened Text
  import opened OrderedMaps
  import opened RunResults
  import opened Aggregation
  import opened Executability

  datatype Option<T> = None | Some(value: T)

  // ---------------------------------------------------------------------
  // Job results

  /** What is collected for one included file: its path and
      architecture suffix -> stored result. */
  datatype FileEntry = FileEntry(path: string, results: map<string, ArchResult>)

  /** Python's truth value of a stored result: only the empty dictionary
      is false (an error marker is a non-empty dictionary). */
  predicate IsNonEmpty(result: ArchResult)
  {
    result.Failed? || result.options != []
  }

  /** File uid -> collected entry after storing one more result: an empty
      result is dropped; a first result for the file creates its entry; a
      later one is filed under its architecture beside the earlier ones. */
  function InsertJob(files: map<string, FileEntry>, path: string, arch: string, uid: string,
                     result: ArchResult): (r: map<string, FileEntry>)
    ensures !IsNonEmpty(result) ==> r == files
    ensures IsNonEmpty(result) ==> r.Keys == files.Keys + {uid}
    ensures IsNonEmpty(result) && uid !in files ==> r[uid] == FileEntry(path, map[arch := result])
    ensures IsNonEmpty(result) && uid in files ==>
      r[uid].path == files[uid].path && r[uid].results.Keys == files[uid].results.Keys + {arch}
      && r[uid].results[arch] == result
      && forall a :: a in files[uid].results && a != arch ==> r[uid].results[a] == files[uid].results[a]
    ensures forall u :: u in files && u != uid ==> r[u] == files[u]
  {
    if !IsNonEmpty(result) then files
    else if uid in files then files[uid := FileEntry(files[uid].path, files[uid].results[arch := result])]
    else files[uid := FileEntry(path, map[arch := result])]
  }

  /** Storing a result never loses the evidence that a file executes under
      some other architecture, and a valid result makes its file executable. */
  lemma InsertJobKeepsEvidence(files: map<string, FileEntry>, path: string, arch: string, uid: string,
                               result: ArchResult, u: string)
    requires u in files && ValidExecutionInResults(files[u].results)
    requires u != uid || forall a :: a in files[u].results && ArchHasValidRun(files[u].results[a]) ==> a != arch
    ensures u in InsertJob(files, path, arch, uid, result)
    ensures ValidExecutionInResults(InsertJob(files, path, arch, uid, result)[u].results)
  {
    var r := InsertJob(files, path, arch, uid, result);
    var a :| a in files[u].results && ArchHasValidRun(files[u].results[a]);
    assert a in r[u].results && r[u].results[a] == files[u].results[a];
  }

  lemma InsertJobNewEvidence(files: map<string, FileEntry>, path: string, arch: string, uid: string,
                             result: ArchResult)
    requires ArchHasValidRun(result)
    ensures uid in InsertJob(files, path, arch, uid, result)
    ensures ValidExecutionInResults(InsertJob(files, path, arch, uid, result)[uid].results)
  {
    assert arch in InsertJob(files, path, arch, uid, result)[uid].results;
  }

  /** The two-architecture example: the second result is filed beside the first. */
  lemma InsertJobExample()
    ensures var out := Ran([("--option", TextRecord("0", "test", ""))]);
      var once := InsertJob(map[], "test_path", "test_arch", "test_uid", out);
      once == map["test_uid" := FileEntry("test_path", map["test_arch" := out])]
      && InsertJob(once, "test_path", "test_arch_2", "test_uid", out)
         == map["test_uid" := FileEntry("test_path", map["test_arch" := out, "test_arch_2" := out])]
  {
  }

  /** File uid -> collected entry, filled in place as jobs finish. */
  class JobResults {
    var files: map<string, FileEntry>

    constructor ()
      ensures files == map[]
    {
      files := map[];
    }

    /** Tests the file under one architecture and stores the result. */
    method ProcessQemuJob(path: string, arch: string, uid: string, outcome: SandboxOutcome,
                          decode: seq<byte> -> string, compress: string -> seq<byte>)
      requires outcome.Completed? ==> WellNamed(outcome.options)
      modifies this
      ensures files == InsertJob(old(files), path, arch, uid, QemuExecutability(outcome, decode, compress))
    {
      var result := CheckQemuExecutability(outcome, decode, compress);
      if IsNonEmpty(result) {
        if uid in files {
          var entry := files[uid];
          files := files[uid := FileEntry(entry.path, entry.results[arch := result])];
        } else {
          files := files[uid := FileEntry(path, map[arch := result])];
        }
      }
    }
  }

  // ---------------------------------------------------------------------
  // Verdicts and summary

  /** What is reported for one included file. */
  datatype FileReport = FileReport(path: string, results: map<string, ArchResult>, executable: bool)

  /** Every collected file with its executable verdict. */
  function MarkExecutable(files: map<string, FileEntry>): (r: map<string, FileReport>)
    ensures r.Keys == files.Keys
    ensures forall u :: u in r ==> r[u].path == files[u].path && r[u].results == files[u].results
    ensures forall u :: u in r ==> (r[u].executable <==>
      exists arch :: arch in files[u].results && ArchHasValidRun(files[u].results[arch]))
  {
    map u | u in files :: FileReport(files[u].path, files[u].results, ValidExecutionInResults(files[u].results))
  }

  /** The tag list of the analysis: "executable" once some file is, otherwise nothing. */
  function GetSummary(files: map<string, FileReport>): (r: seq<string>)
    ensures r == [] || r == ["executable"]
    ensures r == ["executable"] <==> exists u :: u in files && files[u].executable
  {
    if exists u :: u in files && files[u].executable then ["executable"] else []
  }

  /** The summary examples: none for no files or only non-executable ones,
      "executable" once one file is. */
  lemma GetSummaryExamples()
    ensures GetSummary(map[]) == []
    ensures GetSummary(map["foo" := FileReport("", map[], false)]) == []
    ensures GetSummary(map["foo" := FileReport("", map[], false), "bar" := FileReport("", map[], true)])
      == ["executable"]
  {
    var files := map["foo" := FileReport("", map[], false), "bar" := FileReport("", map[], true)];
    assert "bar" in files && files["bar"].executable;
  }

  /** The summary of marked files says "executable" exactly when some file
      shows real execution under some architecture. */
  lemma SummaryOfMarkedFiles(files: map<string, FileEntry>)
    ensures GetSummary(MarkExecutable(files)) == ["executable"] <==>
      exists u :: u in files && ValidExecutionInResults(files[u].results)
  {
    var m := MarkExecutable(files);
    if exists u :: u in files && ValidExecutionInResults(files[u].results) {
      var u :| u in files && ValidExecutionInResults(files[u].results);
      assert u in m && m[u].executable;
    }
  }

  // ---------------------------------------------------------------------
  // Analysing one object

  /** The file types whose objects are themselves executables. */
  const FileTypes: seq<string> := ["application/x-executable", "application/x-sharedlib"]

  /** The object's own file-type analysis names one of the executable types.
      A missing analysis or a missing "mime" entry does not. */
  predicate HasRelevantType(fileType: Option<map<string, string>>)
  {
    fileType.Some? && "mime" in fileType.value && fileType.value["mime"] in FileTypes
  }

  lemma HasRelevantTypeExamples()
    ensures !HasRelevantType(None)
    ensures !HasRelevantType(Some(map["mime" := "foo"]))
    ensures HasRelevantType(Some(map["mime" := "application/x-executable"]))
  {
    assert "foo" != FileTypes[0] && "foo" != FileTypes[1];
  }

  /** What the analysis of one object stores under the plugin's name. */
  datatype AnalysisOutcome =
    | ParentFlag                 // {'parent_flag': True}: the object itself is an executable
    | EmptySummary               // {'summary': []}: nothing was included in the object
    | NotStored                  // nothing: the container daemon is not running
    | Analysed(files: map<string, FileReport>, summary: seq<string>)

  /** The outcome rules: an executable object is only flagged; an object
      without included files gets an empty summary; with the daemon down
      nothing is stored; otherwise the collected files are marked and summarised. */
  function ProcessObject(ownType: Option<map<string, string>>, filesIncluded: seq<string>,
                         daemonRunning: bool, collected: map<string, FileEntry>): (r: AnalysisOutcome)
    ensures HasRelevantType(ownType) <==> r == ParentFlag
    ensures !HasRelevantType(ownType) && filesIncluded == [] ==> r == EmptySummary
    ensures !HasRelevantType(ownType) && filesIncluded != [] && !daemonRunning ==> r == NotStored
    ensures r.Analysed? <==> !HasRelevantType(ownType) && filesIncluded != [] && daemonRunning
    ensures r.Analysed? ==> r.files == MarkExecutable(collected) && r.summary == GetSummary(r.files)
  {
    if HasRelevantType(ownType) then ParentFlag
    else if filesIncluded == [] then EmptySummary
    else if !daemonRunning then NotStored
    else
      var files := MarkExecutable(collected);
      Analysed(files, GetSummary(files))
  }

  /** An analysed object is summarised as executable exactly when one of
      its files ran validly under one of its architectures. */
  lemma AnalysedSummary(ownType: Option<map<string, string>>, filesIncluded: seq<string>,
                        daemonRunning: bool, collected: map<string, FileEntry>)
    requires ProcessObject(ownType, filesIncluded, daemonRunning, collected).Analysed?
    ensures ProcessObject(ownType, filesIncluded, daemonRunning, collected).summary == ["executable"] <==>
      exists u :: u in collected && ValidExecutionInResults(collected[u].results)
  {
    SummaryOfMarkedFiles(collected);
  }

  /** When every architecture timed out, no file is executable and the summary is empty. */
  lemma TimeoutsAreNotExecutable(ownType: Option<map<string, string>>, filesIncluded: seq<string>,
                                 collected: map<string, FileEntry>)
    requires !HasRelevantType(ownType) && filesIncluded != []
    requires forall u, a :: u in collected && a in collected[u].results ==>
      collected[u].results[a] == Failed(TimeoutError)
    ensures var r := ProcessObject(ownType, filesIncluded, true, collected);
      r.Analysed? && r.summary == [] && forall u :: u in r.files ==> !r.files[u].executable
  {
  }

  /** The three early outcomes on their examples. */
  lemma ProcessObjectExamples(daemonRunning: bool, ownType: Option<map<string, string>>,
                              collected: map<string, FileEntry>)
    ensures ProcessObject(Some(map["mime" := FileTypes[0]]), ["foo", "bar"], daemonRunning, collected) == ParentFlag
    ensures !HasRelevantType(ownType) ==> ProcessObject(ownType, [], daemonRunning, collected) == EmptySummary
    ensures !HasRelevantType(ownType) ==> ProcessObject(ownType, ["foo", "bar"], false, collected) == NotStored
  {
  }
}
