/** The controller (`process_research_request`): decompose the request into a
    topic and subtopics, research every subtopic, then synthesize the report.
    A failed decomposition stops the request before any research; otherwise
    synthesis always follows research. */
module Pipeline {
  import opened Wrappers
  import opened Text
  import opened Naming
  import opened Fences
  import opened Research
  import opened Report

  /** The parsed decomposition: the `topic` and `subtopics` fields. */
  datatype Decomposition = Decomposition(topic: string, subtopics: seq<string>)

  /** `json.loads` followed by reading the two keys; `None` when parsing or a
      key lookup raises. The JSON library is not part of this model. */
  type Parser = string -> Option<Decomposition>

  /** Everything the controller gets from outside: the completion service's
      replies, the JSON parser and the clock readings for the report. */
  datatype Env = Env(
    decompose: string -> Reply,
    parse: Parser,
    research: ResearchOracle,
    synthesize: SynthesisOracle,
    fileStamp: string,
    generatedStamp: string)

  /** The decomposition step: a failed completion gives no plan; otherwise
      the fence-extracted reply is parsed. */
  function Decompose(reply: Reply, parse: Parser): (r: Option<Decomposition>)
    ensures reply.Failure? ==> r.None?
  {
    match reply
    case Failure(_) => None
    case Success(text) => parse(ExtractJson(text))
  }

  /** What the parser sees, branch by branch: the stripped reply itself when
      it has no fence; the text after the first "```json" (cut at a second
      "```json", then at the next "```") when it has one; and else the text
      between the first two "```". */
  lemma DecomposeReadings(reply: Reply, parse: Parser)
    ensures reply.Failure? ==> Decompose(reply, parse).None?
    ensures reply.Success? && !Contains(Strip(reply.text), Fence) ==>
      Decompose(reply, parse) == parse(Strip(reply.text))
    ensures reply.Success? && Contains(Strip(reply.text), JsonOpen) ==>
      Decompose(reply, parse) == parse(Strip(UpTo(UpTo(After(Strip(reply.text), JsonOpen), JsonOpen), Fence)))
    ensures reply.Success? && !Contains(Strip(reply.text), JsonOpen) && Contains(Strip(reply.text), Fence) ==>
      Decompose(reply, parse) == parse(Strip(UpTo(After(Strip(reply.text), Fence), Fence)))
  {
    if reply.Success? {
      ExtractJsonBranches(reply.text);
    }
  }

  /** A backtick-free JSON reply decomposes the same whether or not the model
      wrapped it in a "```json" fence, or (unless it starts with "json") in a
      plain "```" fence. */
  lemma FenceDoesNotMatter(body: string, parse: Parser)
    requires NoBacktick(body)
    ensures Decompose(Success(JsonOpen + body + Fence), parse) == Decompose(Success(body), parse)
    ensures !(|body| >= 4 && body[..4] == "json") ==>
      Decompose(Success(Fence + body + Fence), parse) == Decompose(Success(body), parse)
  {
    JsonFenceRoundTrip(body);
    if !(|body| >= 4 && body[..4] == "json") {
      PlainFenceRoundTrip(body);
    }
  }

  /** `Aborted`: the decomposition failed and nothing else ran. `Finished`:
      research and synthesis ran; the report outcome says how synthesis went. */
  datatype Outcome = Aborted | Finished(report: ReportOutcome)

  /** The plan, the outcome, the research results, the note directory, the
      order in which synthesis listed the notes, the notes text sent for
      synthesis and the report directory after one request. */
  datatype RunResult = RunResult(
    plan: Option<Decomposition>,
    outcome: Outcome,
    results: map<string, string>,
    notes: Store,
    listed: seq<string>,
    request: Option<string>,
    reports: Store)

  /** `process_research_request`. */
  method ProcessResearchRequest(userRequest: string, env: Env, notes: Store, reports: Store)
    returns (run: RunResult)
    ensures run.plan == Decompose(env.decompose(userRequest), env.parse)
    ensures run.plan.None? ==>
      run == RunResult(None, Aborted, map[], notes, [], None, reports)
    ensures run.plan.Some? ==> run.outcome.Finished?
    ensures run.plan.Some? ==>
      var b := Run(Batch(map[], notes), run.plan.value.subtopics, env.research);
      run.results == b.results && run.notes == b.notes
    ensures run.plan.Some? ==>
      (run.outcome.report.NoNotes? <==> forall n :: n in run.notes ==> !IsNoteFile(n))
    ensures run.plan.Some? ==> Listing(run.listed, run.notes)
    ensures run.plan.Some? ==> (run.request.Some? <==> !run.outcome.report.NoNotes?)
    ensures run.plan.Some? && run.request.Some? ==> run.request.value == CombinedNotes(run.listed, run.notes)
    ensures run.plan.Some? && run.request.Some? ==>
      (run.outcome.report.Saved? <==> env.synthesize(run.plan.value.topic, run.request.value).Success?)
    ensures run.plan.Some? && run.outcome.report.CompletionFailed? ==>
      run.request.Some? && env.synthesize(run.plan.value.topic, run.request.value) == Failure(run.outcome.report.msg)
    ensures run.plan.Some? && ListedSuccess(run.plan.value.subtopics, env.research) ==>
      !run.outcome.report.NoNotes?
    ensures run.plan.Some? && Successes(run.plan.value.subtopics, env.research) == 0 &&
            (forall n :: n in notes ==> !IsNoteFile(n)) ==>
      run.outcome == Finished(NoNotes) && run.reports == reports
    ensures run.outcome.Finished? && run.outcome.report.Saved? ==>
      && run.plan.Some? && run.request.Some?
      && env.synthesize(run.plan.value.topic, run.request.value).Success?
      && run.outcome.report.path == ReportPath(run.plan.value.topic, env.fileStamp)
      && run.reports == reports[ReportFileName(run.plan.value.topic, env.fileStamp) :=
           ReportBody(run.plan.value.topic, env.generatedStamp, env.synthesize(run.plan.value.topic, run.request.value).text)]
    ensures !(run.outcome.Finished? && run.outcome.report.Saved?) ==> run.reports == reports
    ensures run.plan.Some? && run.request.Some? ==>
      FindingsReached(run.request.value, run.plan.value.subtopics, env.research)
  {
    var plan := Decompose(env.decompose(userRequest), env.parse);
    if plan.None? {
      return RunResult(None, Aborted, map[], notes, [], None, reports);
    }
    var topic := plan.value.topic;
    var subtopics := plan.value.subtopics;
    var batch := ResearchTopic(subtopics, notes, env.research);
    var synthesis := GenerateReport(topic, batch.notes, reports, env.synthesize, env.fileStamp, env.generatedStamp);
    run := RunResult(plan, Finished(synthesis.outcome), batch.results, batch.notes, synthesis.listed,
                    synthesis.request, synthesis.reports);
    assert run.plan.value == Decomposition(topic, subtopics);
    assert run.outcome.report == synthesis.outcome;
    var b0 := Batch(map[], notes);
    if ListedSuccess(subtopics, env.research) {
      SuccessLeavesNoteFile(b0, subtopics, env.research);
    }
    if Successes(subtopics, env.research) == 0 {
      AllFailuresWriteNothing(b0, subtopics, env.research);
    }
    if synthesis.request.Some? {
      FindingsReachSynthesis(b0, subtopics, env.research, synthesis.listed);
    }
  }

  /** The findings of every successful subtopic whose note was not overwritten
      later in the batch, and whose note the listing picks up, appear in
      `request`. */
  ghost predicate FindingsReached(request: string, subs: seq<string>, oracle: ResearchOracle)
  {
    forall i :: 0 <= i < |subs| && Succeeds(subs, oracle, i) && LastWriter(subs, oracle, i) &&
                IsNoteFile(NoteFileName(subs[i])) ==>
      Contains(request, oracle(i, subs[i]).reply.text)
  }

  /** Some subtopic succeeded and its note lands in the listed directory. */
  predicate ListedSuccess(subs: seq<string>, oracle: ResearchOracle)
  {
    exists i :: 0 <= i < |subs| && Succeeds(subs, oracle, i) && IsNoteFile(NoteFileName(subs[i]))
  }

  /** A successful subtopic whose slug has no `/` leaves a note file the
      listing picks up. */
  lemma SuccessLeavesNoteFile(b: Batch, subs: seq<string>, oracle: ResearchOracle)
    requires ListedSuccess(subs, oracle)
    ensures exists n :: n in Run(b, subs, oracle).notes && IsNoteFile(n)
  {
    var i :| 0 <= i < |subs| && Succeeds(subs, oracle, i) && IsNoteFile(NoteFileName(subs[i]));
    WrittenMembers(subs, oracle, NoteFileName(subs[i]));
    NotesKeys(b, subs, oracle);
  }

  /** The findings of a successful subtopic whose note was not overwritten
      later in the batch, and whose note name has no `/`, reach the synthesis
      request. */
  lemma FindingReachesSynthesis(b: Batch, subs: seq<string>, oracle: ResearchOracle, names: seq<string>, i: nat)
    requires i < |subs| && Succeeds(subs, oracle, i) && LastWriter(subs, oracle, i)
    requires IsNoteFile(NoteFileName(subs[i]))
    requires Listing(names, Run(b, subs, oracle).notes)
    ensures Contains(CombinedNotes(names, Run(b, subs, oracle).notes), oracle(i, subs[i]).reply.text)
  {
    var after := Run(b, subs, oracle).notes;
    var a := oracle(i, subs[i]);
    var name := NoteFileName(subs[i]);
    LastWriteWins(b, subs, oracle, i);
    var k :| 0 <= k < |names| && names[k] == name;
    NoteInCombined(names, after, k);
    NoteBodyEndsWithFindings(subs[i], a.stamp, a.reply.text);
    var body := NoteBody(subs[i], a.stamp, a.reply.text);
    assert Contains(body, a.reply.text);
    ContainsTrans(CombinedNotes(names, after), body, a.reply.text);
  }

  /** End to end: whatever the listing order, the synthesis request holds
      the findings of every successful subtopic not overwritten later whose
      note is listed. */
  lemma FindingsReachSynthesis(b: Batch, subs: seq<string>, oracle: ResearchOracle, names: seq<string>)
    requires Listing(names, Run(b, subs, oracle).notes)
    ensures FindingsReached(CombinedNotes(names, Run(b, subs, oracle).notes), subs, oracle)
  {
    forall i | 0 <= i < |subs| && Succeeds(subs, oracle, i) && LastWriter(subs, oracle, i) &&
               IsNoteFile(NoteFileName(subs[i]))
      ensures Contains(CombinedNotes(names, Run(b, subs, oracle).notes), oracle(i, subs[i]).reply.text)
    {
      FindingReachesSynthesis(b, subs, oracle, names, i);
    }
  }
}
