/**
 * The whole conversion pass of app.py lines 92-194 over the records of
 * `parsers_data.json`: each record is converted in turn, and every saved
 * record writes one file into the output tree, which starts out empty
 * because the directory is removed and recreated first (lines 101-104).
 *
 * The completion client answers one call after another, so the model hands
 * it a single stream of responses: each record consumes the responses its
 * own loop asks for, and the next record starts after them. The JavaScript
 * sources are a map from file name to contents; a name missing from the map
 * is the `FileNotFoundError` of line 114.
 */
module Batch {
  import opened Wrappers
  import opened Records
  import opened Repair
  import opened Naming

  /** Reading `js_filename` from the sources directory (lines 111-116). */
  function Lookup(sources: map<string, string>, name: string): (r: Option<string>)
    ensures r.Some? <==> name in sources
    ensures r.Some? ==> r.value == sources[name]
  {
    if name in sources then Some(sources[name]) else None
  }

  /** The number of completion calls a list of runs made. */
  function TotalCalls(runs: seq<Run>): (calls: nat) {
    if |runs| == 0 then 0 else TotalCalls(runs[..|runs| - 1]) + runs[|runs| - 1].Calls()
  }

  /** The responses left after the first `n` calls. */
  function Drop(responses: seq<Option<string>>, n: nat): (rest: seq<Option<string>>)
    ensures |rest| == if n <= |responses| then |responses| - n else 0
  {
    if n <= |responses| then responses[n..] else []
  }

  /** A script that has run out stands for a client that returns no text. */
  function Padded(responses: seq<Option<string>>): (padded: seq<Option<string>>)
    ensures |padded| >= MaxAttempts
    ensures |responses| >= MaxAttempts ==> padded == responses
    ensures |responses| < MaxAttempts ==>
              padded[..|responses|] == responses && forall k :: |responses| <= k < |padded| ==> padded[k].None?
  {
    if |responses| >= MaxAttempts then responses
    else responses + seq(MaxAttempts - |responses|, _ => None)
  }

  /** Converts one record, given its source and the responses from its first call on. */
  type Converter = (ParserRecord, Option<string>, seq<Option<string>>) -> Run

  /** The records in order, each one given the responses left over by the records before it. */
  function Chain(records: seq<ParserRecord>, sources: map<string, string>,
                 responses: seq<Option<string>>, convert: Converter): (runs: seq<Run>)
    ensures |runs| == |records|
    decreases |records|
  {
    if |records| == 0 then []
    else
      var run := convert(records[0], Lookup(sources, records[0].jsFilename), responses);
      [run] + Chain(records[1..], sources, Drop(responses, run.Calls()), convert)
  }

  lemma {:induction false} TotalCallsCons(run: Run, runs: seq<Run>)
    ensures TotalCalls([run] + runs) == run.Calls() + TotalCalls(runs)
    decreases |runs|
  {
    if |runs| == 0 {
      assert ([run] + runs)[..0] == [];
    } else {
      var n := |runs| - 1;
      assert ([run] + runs)[..n + 1] == [run] + runs[..n];
      TotalCallsCons(run, runs[..n]);
    }
  }

  /** Runs of at most three calls each make at most three calls per run in total. */
  lemma {:induction false} TotalCallsBound(runs: seq<Run>)
    requires forall j :: 0 <= j < |runs| ==> runs[j].Calls() <= MaxAttempts
    ensures TotalCalls(runs) <= MaxAttempts * |runs|
    decreases |runs|
  {
    if |runs| > 0 {
      var n := |runs| - 1;
      assert forall j :: 0 <= j < n ==> runs[..n][j] == runs[j];
      TotalCallsBound(runs[..n]);
    }
  }

  lemma DropDrop(responses: seq<Option<string>>, a: nat, b: nat)
    ensures Drop(Drop(responses, a), b) == Drop(responses, a + b)
  {
  }

  /** Record `i` is converted against the responses that follow the calls of the records before it. */
  lemma {:induction false} ChainConsumes(records: seq<ParserRecord>, sources: map<string, string>,
                                         responses: seq<Option<string>>, convert: Converter, i: nat)
    requires i < |records|
    ensures var runs := Chain(records, sources, responses, convert);
      runs[i] == convert(records[i], Lookup(sources, records[i].jsFilename), Drop(responses, TotalCalls(runs[..i])))
    decreases i
  {
    var runs := Chain(records, sources, responses, convert);
    var run := runs[0];
    var rest := Drop(responses, run.Calls());
    var tail := Chain(records[1..], sources, rest, convert);
    assert runs == [run] + tail;
    if i == 0 {
      assert runs[..0] == [];
      assert Drop(responses, 0) == responses;
    } else {
      ChainConsumes(records[1..], sources, rest, convert, i - 1);
      var prev := tail[..i - 1];
      assert runs[..i] == [run] + prev;
      TotalCallsCons(run, prev);
      var u := TotalCalls(prev);
      DropDrop(responses, run.Calls(), u);
      assert records[1..][i - 1] == records[i];
      assert runs[i] == tail[i - 1];
    }
  }

  /** `Repair.Convert` with the given checks, as a converter. */
  function RecordConverter(checks: Checks): (convert: Converter) {
    (rec, source, responses) => Convert(rec, source, Padded(responses), checks)
  }

  /** The facts `ConvertAll` promises, proved on the chain it is made of. */
  lemma ChainCalls(records: seq<ParserRecord>, sources: map<string, string>,
                   responses: seq<Option<string>>, checks: Checks)
    ensures var runs := Chain(records, sources, responses, RecordConverter(checks));
      && (forall i :: 0 <= i < |runs| ==> runs[i].Calls() <= MaxAttempts)
      && (forall i :: 0 <= i < |runs| ==> (runs[i].outcome.Skipped? <==> records[i].jsFilename !in sources))
      && TotalCalls(runs) <= MaxAttempts * |records|
  {
    var runs := Chain(records, sources, responses, RecordConverter(checks));
    forall i | 0 <= i < |runs|
      ensures runs[i].Calls() <= MaxAttempts
      ensures runs[i].outcome.Skipped? <==> records[i].jsFilename !in sources
    {
      ChainConsumes(records, sources, responses, RecordConverter(checks), i);
    }
    TotalCallsBound(runs);
  }

  /**
   * Lines 107-194 without the file writes: one run per record, in order.
   * Every record makes at most three calls, one without a source makes none
   * and is the only kind that is skipped, and so the pass makes at most
   * three calls per record.
   */
  function ConvertAll(records: seq<ParserRecord>, sources: map<string, string>,
                      responses: seq<Option<string>>, checks: Checks): (runs: seq<Run>)
    ensures |runs| == |records|
    ensures forall i :: 0 <= i < |runs| ==> runs[i].Calls() <= MaxAttempts
    ensures forall i :: 0 <= i < |runs| ==> (runs[i].outcome.Skipped? <==> records[i].jsFilename !in sources)
    ensures TotalCalls(runs) <= MaxAttempts * |records|
  {
    ChainCalls(records, sources, responses, checks);
    Chain(records, sources, responses, RecordConverter(checks))
  }

  /**
   * Record `i` is converted, by `Repair.Convert`, against the responses that
   * follow the calls of the records before it; a record without a source
   * makes no call and the next record goes on where it left off. Together
   * with `Repair.ConvertCalls` this pins down which response answers which
   * prompt.
   */
  lemma ConvertAllConsumes(records: seq<ParserRecord>, sources: map<string, string>,
                           responses: seq<Option<string>>, checks: Checks, i: nat)
    requires |responses| >= MaxAttempts * |records| && i < |records|
    ensures var runs := ConvertAll(records, sources, responses, checks);
      var used := TotalCalls(runs[..i]);
      && used <= MaxAttempts * i
      && runs[i] == Convert(records[i], Lookup(sources, records[i].jsFilename), responses[used..], checks)
  {
    var runs := ConvertAll(records, sources, responses, checks);
    assert forall j :: 0 <= j < i ==> runs[..i][j] == runs[j];
    TotalCallsBound(runs[..i]);
    ChainConsumes(records, sources, responses, RecordConverter(checks), i);
  }

  /** The class name is indexed only for saved records (line 185). */
  predicate SavedNamed(records: seq<ParserRecord>, runs: seq<Run>)
    requires |records| == |runs|
  {
    forall i :: 0 <= i < |runs| && runs[i].outcome.Saved? ==> |records[i].className| > 0
  }

  /** The header line, then the code (lines 190-192). */
  function Contents(rec: ParserRecord, code: string): (text: string)
    ensures |text| == |"# Auto-generated from "| + |rec.jsFilename| + 1 + |code|
    ensures text[..|"# Auto-generated from "|] == "# Auto-generated from "
    ensures text[|"# Auto-generated from "|..|"# Auto-generated from "| + |rec.jsFilename|] == rec.jsFilename
    ensures text[|"# Auto-generated from "| + |rec.jsFilename|] == '\n'
    ensures text[|text| - |code|..] == code
  {
    "# Auto-generated from " + rec.jsFilename + "\n" + code
  }

  /** One file write: where, and what. */
  datatype FileWrite = FileWrite(path: OutputFile, text: string)

  /** What each record writes: nothing unless it was saved (lines 182-192). */
  function PlannedWrites(records: seq<ParserRecord>, runs: seq<Run>): (writes: seq<Option<FileWrite>>)
    requires |records| == |runs| && SavedNamed(records, runs)
    ensures |writes| == |runs|
    ensures forall i :: 0 <= i < |runs| ==> (writes[i].Some? <==> runs[i].outcome.Saved?)
    ensures forall i :: 0 <= i < |runs| && runs[i].outcome.Saved? ==>
              writes[i] == Some(FileWrite(OutputFor(records[i].className), Contents(records[i], runs[i].outcome.code)))
  {
    seq(|runs|, i requires 0 <= i < |runs| =>
      if runs[i].outcome.Saved?
      then Some(FileWrite(OutputFor(records[i].className), Contents(records[i], runs[i].outcome.code)))
      else None)
  }

  /**
   * The writes performed in order on an empty directory: a path holds a
   * file exactly when some write went to it.
   */
  function Store(writes: seq<Option<FileWrite>>): (files: map<OutputFile, string>)
    ensures forall k :: 0 <= k < |writes| && writes[k].Some? ==> writes[k].value.path in files
    ensures forall f :: f in files ==> exists k :: 0 <= k < |writes| && writes[k].Some? && writes[k].value.path == f
    decreases |writes|
  {
    if |writes| == 0 then map[]
    else
      var n := |writes| - 1;
      var files := Store(writes[..n]);
      assert forall k :: 0 <= k < n ==> writes[..n][k] == writes[k];
      match writes[n]
      case None => files
      case Some(w) => files[w.path := w.text]
  }

  /** A write that no later write to the same path shadows leaves its text in the file. */
  lemma {:induction false} LastWriterWins(writes: seq<Option<FileWrite>>, k: nat)
    requires k < |writes| && writes[k].Some?
    requires forall j :: k < j < |writes| && writes[j].Some? ==> writes[j].value.path != writes[k].value.path
    ensures writes[k].value.path in Store(writes)
    ensures Store(writes)[writes[k].value.path] == writes[k].value.text
    decreases |writes|
  {
    var n := |writes| - 1;
    if k < n {
      var prefix := writes[..n];
      assert prefix[k] == writes[k];
      forall j | k < j < n && prefix[j].Some?
        ensures prefix[j].value.path != prefix[k].value.path
      {
        assert prefix[j] == writes[j];
      }
      LastWriterWins(prefix, k);
    }
  }

  /** The files the saved runs write, whatever produced the runs. */
  lemma WrittenFiles(records: seq<ParserRecord>, runs: seq<Run>)
    requires |records| == |runs| && SavedNamed(records, runs)
    ensures var files := Store(PlannedWrites(records, runs));
      && (forall i :: 0 <= i < |runs| && runs[i].outcome.Saved? ==> OutputFor(records[i].className) in files)
      && (forall f :: f in files ==>
            exists i :: 0 <= i < |runs| && runs[i].outcome.Saved? && OutputFor(records[i].className) == f)
  {
    var writes := PlannedWrites(records, runs);
    forall f | f in Store(writes)
      ensures exists i :: 0 <= i < |runs| && runs[i].outcome.Saved? && OutputFor(records[i].className) == f
    {
      var k :| 0 <= k < |writes| && writes[k].Some? && writes[k].value.path == f;
      assert runs[k].outcome.Saved?;
    }
  }

  /**
   * The whole pass: convert every record, then write the saved ones into
   * the emptied output tree. Every saved record's path holds a file, and
   * every file in the tree belongs to a record whose source was found and
   * whose code was saved.
   */
  function Generate(records: seq<ParserRecord>, sources: map<string, string>,
                    responses: seq<Option<string>>, checks: Checks): (files: map<OutputFile, string>)
    requires SavedNamed(records, ConvertAll(records, sources, responses, checks))
    ensures var runs := ConvertAll(records, sources, responses, checks);
      && (forall i :: 0 <= i < |records| && runs[i].outcome.Saved? ==> OutputFor(records[i].className) in files)
      && (forall f :: f in files ==>
            exists i :: 0 <= i < |records| && records[i].jsFilename in sources && runs[i].outcome.Saved?
                        && OutputFor(records[i].className) == f)
  {
    var runs := ConvertAll(records, sources, responses, checks);
    FilesOfFoundSources(records, sources, runs);
    Store(PlannedWrites(records, runs))
  }

  /** `WrittenFiles` for runs that are skipped exactly when their source is missing. */
  lemma FilesOfFoundSources(records: seq<ParserRecord>, sources: map<string, string>, runs: seq<Run>)
    requires |records| == |runs| && SavedNamed(records, runs)
    requires forall i :: 0 <= i < |runs| ==> (runs[i].outcome.Skipped? <==> records[i].jsFilename !in sources)
    ensures var files := Store(PlannedWrites(records, runs));
      && (forall i :: 0 <= i < |records| && runs[i].outcome.Saved? ==> OutputFor(records[i].className) in files)
      && (forall f :: f in files ==>
            exists i :: 0 <= i < |records| && records[i].jsFilename in sources && runs[i].outcome.Saved?
                        && OutputFor(records[i].className) == f)
  {
    WrittenFiles(records, runs);
  }

  /**
   * The file of a saved record that no later saved record shadows holds the
   * header naming its JavaScript source, then its code.
   */
  lemma GeneratedContents(records: seq<ParserRecord>, sources: map<string, string>,
                          responses: seq<Option<string>>, checks: Checks, i: nat)
    requires SavedNamed(records, ConvertAll(records, sources, responses, checks))
    requires var runs := ConvertAll(records, sources, responses, checks);
      && i < |records| && runs[i].outcome.Saved?
      && forall j :: i < j < |records| && runs[j].outcome.Saved? ==>
           OutputFor(records[j].className) != OutputFor(records[i].className)
    ensures var runs := ConvertAll(records, sources, responses, checks);
      Generate(records, sources, responses, checks)[OutputFor(records[i].className)]
        == Contents(records[i], runs[i].outcome.code)
  {
    var runs := ConvertAll(records, sources, responses, checks);
    LastWriterWins(PlannedWrites(records, runs), i);
  }
}
