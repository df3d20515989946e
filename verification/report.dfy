/** Report synthesis: every note file in the directory (not only this run's)
    is framed with its name, the frames are joined, one completion turns them
    into a report, and the report is saved under a time-stamped name. */
module Report {
  import opened Wrappers
  import opened Text
  import opened Naming

  /** Put between two framed notes. */
  const NoteSeparator: string := "\n---\n"

  const ReportsDir: string := "files/reports"

  /** The label put in front of a note: its file name. */
  function FrameHeader(name: string): string
  {
    "## From: " + name + "\n\n"
  }

  /** A note as it enters the synthesis request. */
  function Frame(name: string, content: string): string
  {
    FrameHeader(name) + content + "\n"
  }

  function Frames(names: seq<string>, notes: Store): (frames: seq<string>)
    requires forall n :: n in names ==> n in notes
    ensures |frames| == |names|
    ensures forall i :: 0 <= i < |names| ==> frames[i] == Frame(names[i], notes[names[i]])
  {
    seq(|names|, i requires 0 <= i < |names| => Frame(names[i], notes[names[i]]))
  }

  /** The notes part of the synthesis request: the framed notes, in listing
      order, joined by the separator. */
  function CombinedNotes(names: seq<string>, notes: Store): string
    requires forall n :: n in names ==> n in notes
  {
    Join(Frames(names, notes), NoteSeparator)
  }

  /** Where the content of the `i`-th listed note starts in the combined
      text: after the frames before it, their separators and its label. */
  function NoteOffset(names: seq<string>, notes: Store, i: nat): nat
    requires i < |names| && forall n :: n in names ==> n in notes
  {
    Offset(Frames(names, notes), NoteSeparator, i) + |FrameHeader(names[i])|
  }

  /** Where the separator after the `i`-th frame starts. */
  function SeparatorOffset(names: seq<string>, notes: Store, i: nat): nat
    requires i < |names| && forall n :: n in names ==> n in notes
  {
    Offset(Frames(names, notes), NoteSeparator, i) + |Frame(names[i], notes[names[i]])|
  }

  /** For n >= 1 notes the combined text is the n frames with n - 1
      separators between them; each note's content sits right after its
      label. */
  lemma CombinedLayout(names: seq<string>, notes: Store)
    requires names != [] && forall n :: n in names ==> n in notes
    ensures |CombinedNotes(names, notes)| == TotalLength(Frames(names, notes)) + (|names| - 1) * |NoteSeparator|
    ensures forall i :: 0 <= i < |names| - 1 ==>
      OccursAt(CombinedNotes(names, notes), NoteSeparator, SeparatorOffset(names, notes, i))
    ensures forall i :: 0 <= i < |names| ==>
      OccursAt(CombinedNotes(names, notes), notes[names[i]], NoteOffset(names, notes, i))
  {
    JoinLength(Frames(names, notes), NoteSeparator);
    forall i | 0 <= i < |names|
      ensures OccursAt(CombinedNotes(names, notes), notes[names[i]], NoteOffset(names, notes, i))
      ensures i < |names| - 1 ==> OccursAt(CombinedNotes(names, notes), NoteSeparator, SeparatorOffset(names, notes, i))
    {
      FrameInCombined(names, notes, i);
    }
  }

  lemma FrameInCombined(names: seq<string>, notes: Store, i: nat)
    requires i < |names| && forall n :: n in names ==> n in notes
    ensures OccursAt(CombinedNotes(names, notes), notes[names[i]], NoteOffset(names, notes, i))
    ensures i < |names| - 1 ==> OccursAt(CombinedNotes(names, notes), NoteSeparator, SeparatorOffset(names, notes, i))
  {
    var frames := Frames(names, notes);
    var combined := Join(frames, NoteSeparator);
    var at := Offset(frames, NoteSeparator, i);
    JoinLayout(frames, NoteSeparator, i);
    ContentInFrame(names[i], notes[names[i]]);
    OccursTrans(combined, frames[i], notes[names[i]], at, |FrameHeader(names[i])|);
  }

  /** A note's content follows its label in its frame. */
  lemma ContentInFrame(name: string, content: string)
    ensures OccursAt(Frame(name, content), content, |FrameHeader(name)|)
  {
    var header := FrameHeader(name);
    assert Frame(name, content) == header + (content + "\n");
    OccursAtStart(content, "\n");
    OccursInConcat(header, content + "\n", content, 0);
  }

  /** Every listed note's content appears in the combined text. */
  lemma NoteInCombined(names: seq<string>, notes: Store, i: nat)
    requires i < |names| && forall n :: n in names ==> n in notes
    ensures Contains(CombinedNotes(names, notes), notes[names[i]])
  {
    FrameInCombined(names, notes, i);
  }

  /** The saved report: a title, the generation time, a rule, the text. */
  function ReportBody(topic: string, generated: string, content: string): string
  {
    "# Research Report: " + topic + "\n\n" + "*Generated: " + generated + "*\n\n" + "---\n\n" + content
  }

  /** The path `generate_report` returns. */
  function ReportPath(topic: string, stamp: string): string
  {
    ReportsDir + "/" + ReportFileName(topic, stamp)
  }

  /** Why no report came out, or where it went; the Python code returns
      `None` for the first two. */
  datatype ReportOutcome = NoNotes | CompletionFailed(msg: string) | Saved(path: string)

  /** The listing used, the notes text sent to the completion service (`None`
      when no call was made), the outcome and the report directory after. */
  datatype Synthesis = Synthesis(listed: seq<string>, request: Option<string>, outcome: ReportOutcome, reports: Store)

  /** The completion service's reply to a synthesis request for a topic and a
      combined notes text. */
  type SynthesisOracle = (string, string) -> Reply

  /** `names` lists each note file of `notes` once, in some order. */
  ghost predicate Listing(names: seq<string>, notes: Store)
  {
    && (forall i, j :: 0 <= i < j < |names| ==> names[i] != names[j])
    && (forall n :: n in names <==> n in notes && IsNoteFile(n))
  }

  /** `glob("*.md")` over the note directory, in an order this model leaves
      open. */
  method ListNotes(notes: Store) returns (names: seq<string>)
    ensures Listing(names, notes)
  {
    names := [];
    var pending := notes.Keys;
    while pending != {}
      invariant pending <= notes.Keys
      invariant forall i, j :: 0 <= i < j < |names| ==> names[i] != names[j]
      invariant forall n :: n in names <==> n in notes && IsNoteFile(n) && n !in pending
      decreases pending
    {
      var n :| n in pending;
      if IsNoteFile(n) {
        names := names + [n];
      }
      pending := pending - {n};
    }
  }

  /** `generate_report`. */
  method GenerateReport(topic: string, notes: Store, reports: Store, synthesize: SynthesisOracle,
                        fileStamp: string, generatedStamp: string)
    returns (s: Synthesis)
    ensures Listing(s.listed, notes)
    ensures s.outcome.NoNotes? <==> forall n :: n in notes ==> !IsNoteFile(n)
    ensures s.outcome.NoNotes? ==> s.request == None && s.reports == reports
    ensures !s.outcome.NoNotes? ==> s.request == Some(CombinedNotes(s.listed, notes))
    ensures !s.outcome.NoNotes? ==> forall n :: n in notes && IsNoteFile(n) ==> Contains(s.request.value, notes[n])
    ensures s.outcome.CompletionFailed? ==>
      s.request.Some? && synthesize(topic, s.request.value) == Failure(s.outcome.msg) && s.reports == reports
    ensures s.outcome.Saved? ==>
      && s.request.Some?
      && synthesize(topic, s.request.value).Success?
      && s.outcome.path == ReportPath(topic, fileStamp)
      && s.reports == reports[ReportFileName(topic, fileStamp) :=
                              ReportBody(topic, generatedStamp, synthesize(topic, s.request.value).text)]
  {
    var names := ListNotes(notes);
    if names == [] {
      return Synthesis(names, None, NoNotes, reports);
    }
    var combined := CombinedNotes(names, notes);
    forall n | n in notes && IsNoteFile(n) ensures Contains(combined, notes[n]) {
      var i :| 0 <= i < |names| && names[i] == n;
      NoteInCombined(names, notes, i);
    }
    match synthesize(topic, combined) {
      case Success(content) =>
        var name := ReportFileName(topic, fileStamp);
        var body := ReportBody(topic, generatedStamp, content);
        s := Synthesis(names, Some(combined), Saved(ReportsDir + "/" + name), reports[name := body]);
      case Failure(msg) =>
        s := Synthesis(names, Some(combined), CompletionFailed(msg), reports);
    }
  }
}
