/** Batch research over the subtopics of one request: one search-augmented
    completion per subtopic, in list order; a success is saved as a note, a
    failure is recorded and the batch goes on. */
module Research {
  import opened Wrappers
  import opened Text
  import opened Naming

  /** What the environment gives back for one subtopic: the completion reply
      and the clock reading taken when the note is written. */
  datatype Attempt = Attempt(reply: Reply, stamp: string)

  /** The environment's answer to the `i`-th research call (0-based), which is
      made for `subtopic`. */
  type ResearchOracle = (nat, string) -> Attempt

  /** The value `research_topic` returns (per-subtopic text) and the note
      directory after the batch. */
  datatype Batch = Batch(results: map<string, string>, notes: Store)

  /** The note file's content: a heading, the research time stamp, then the
      findings. */
  function NoteBody(subtopic: string, stamp: string, findings: string): string
  {
    "# " + subtopic + "\n\n" + "*Researched: " + stamp + "*\n\n" + findings
  }

  /** The findings are the tail of the note, after its fixed header. */
  lemma NoteBodyEndsWithFindings(subtopic: string, stamp: string, findings: string)
    ensures var body := NoteBody(subtopic, stamp, findings);
      |body| == |subtopic| + |stamp| + |findings| + 20 &&
      OccursAt(body, findings, |body| - |findings|)
  {
    var body := NoteBody(subtopic, stamp, findings);
    assert body[|body| - |findings|..] == findings;
  }

  /** What the results map holds for a subtopic. */
  function ResultText(reply: Reply): string
  {
    match reply
    case Success(text) => text
    case Failure(msg) => "Error: " + msg
  }

  /** One subtopic: the result is always recorded; only a success writes the
      note, under the subtopic's note file name. */
  function Step(b: Batch, subtopic: string, a: Attempt): Batch
  {
    match a.reply
    case Success(text) =>
      Batch(b.results[subtopic := text], b.notes[NoteFileName(subtopic) := NoteBody(subtopic, a.stamp, text)])
    case Failure(msg) =>
      Batch(b.results[subtopic := "Error: " + msg], b.notes)
  }

  /** The reference fold: the subtopics processed one after the other, the
      `i`-th with the environment's `i`-th answer. */
  function Run(b: Batch, subs: seq<string>, oracle: ResearchOracle): Batch
    decreases |subs|
  {
    if subs == [] then b
    else
      var n := |subs| - 1;
      Step(Run(b, subs[..n], oracle), subs[n], oracle(n, subs[n]))
  }

  predicate Succeeds(subs: seq<string>, oracle: ResearchOracle, i: nat)
    requires i < |subs|
  {
    oracle(i, subs[i]).reply.Success?
  }

  /** Number of subtopics whose completion succeeded. */
  function Successes(subs: seq<string>, oracle: ResearchOracle): nat
    decreases |subs|
  {
    if subs == [] then 0
    else
      var n := |subs| - 1;
      Successes(subs[..n], oracle) + (if Succeeds(subs, oracle, n) then 1 else 0)
  }

  /** The note file names the batch writes. */
  function Written(subs: seq<string>, oracle: ResearchOracle): set<string>
    decreases |subs|
  {
    if subs == [] then {}
    else
      var n := |subs| - 1;
      Written(subs[..n], oracle) + (if Succeeds(subs, oracle, n) then {NoteFileName(subs[n])} else {})
  }

  /** Every subtopic gets an entry in the results, and nothing else does. */
  lemma {:induction false} ResultKeys(b: Batch, subs: seq<string>, oracle: ResearchOracle)
    ensures forall k :: k in Run(b, subs, oracle).results <==> k in b.results || k in subs
  {
    if subs != [] {
      var n := |subs| - 1;
      ResultKeys(b, subs[..n], oracle);
      assert subs == subs[..n] + [subs[n]];
    }
  }

  /** A subtopic's entry holds the outcome of its last attempt (the content,
      or "Error: " and the message), whatever happened to the others. */
  lemma {:induction false} ResultOfLastAttempt(b: Batch, subs: seq<string>, oracle: ResearchOracle, i: nat)
    requires i < |subs|
    requires forall j :: i < j < |subs| ==> subs[j] != subs[i]
    ensures subs[i] in Run(b, subs, oracle).results
    ensures Run(b, subs, oracle).results[subs[i]] == ResultText(oracle(i, subs[i]).reply)
  {
    var n := |subs| - 1;
    if i < n {
      ResultOfLastAttempt(b, subs[..n], oracle, i);
    }
  }

  /** A name is written exactly when some subtopic with that note name
      succeeded. */
  lemma {:induction false} WrittenMembers(subs: seq<string>, oracle: ResearchOracle, k: string)
    ensures k in Written(subs, oracle) <==>
      exists i :: 0 <= i < |subs| && Succeeds(subs, oracle, i) && NoteFileName(subs[i]) == k
  {
    if subs != [] {
      var n := |subs| - 1;
      WrittenMembers(subs[..n], oracle, k);
      if k in Written(subs, oracle) && k !in Written(subs[..n], oracle) {
        assert Succeeds(subs, oracle, n) && NoteFileName(subs[n]) == k;
      }
      if exists i :: 0 <= i < |subs| && Succeeds(subs, oracle, i) && NoteFileName(subs[i]) == k {
        var i :| 0 <= i < |subs| && Succeeds(subs, oracle, i) && NoteFileName(subs[i]) == k;
        if i < n {
          assert Succeeds(subs[..n], oracle, i);
        }
      }
    }
  }

  /** After the batch the note directory holds the earlier files plus the
      written ones. */
  lemma {:induction false} NotesKeys(b: Batch, subs: seq<string>, oracle: ResearchOracle)
    ensures Run(b, subs, oracle).notes.Keys == b.notes.Keys + Written(subs, oracle)
  {
    if subs != [] {
      NotesKeys(b, subs[..|subs| - 1], oracle);
    }
  }

  /** A file no successful subtopic names is left as it was. */
  lemma {:induction false} NotesUntouched(b: Batch, subs: seq<string>, oracle: ResearchOracle, k: string)
    requires k !in Written(subs, oracle)
    ensures k in Run(b, subs, oracle).notes <==> k in b.notes
    ensures k in b.notes ==> Run(b, subs, oracle).notes[k] == b.notes[k]
  {
    if subs != [] {
      NotesUntouched(b, subs[..|subs| - 1], oracle, k);
    }
  }

  /** The note of subtopic `i` is the last one written under its name. */
  predicate LastWriter(subs: seq<string>, oracle: ResearchOracle, i: nat)
    requires i < |subs|
  {
    forall j :: i < j < |subs| && Succeeds(subs, oracle, j) ==> NoteFileName(subs[j]) != NoteFileName(subs[i])
  }

  /** Last write wins: a note name holds the note of the last successful
      subtopic with that name. */
  lemma {:induction false} LastWriteWins(b: Batch, subs: seq<string>, oracle: ResearchOracle, i: nat)
    requires i < |subs| && Succeeds(subs, oracle, i) && LastWriter(subs, oracle, i)
    ensures NoteFileName(subs[i]) in Run(b, subs, oracle).notes
    ensures Run(b, subs, oracle).notes[NoteFileName(subs[i])] ==
      NoteBody(subs[i], oracle(i, subs[i]).stamp, oracle(i, subs[i]).reply.text)
  {
    var n := |subs| - 1;
    if i < n {
      var prefix := subs[..n];
      assert Succeeds(prefix, oracle, i);
      forall j | i < j < |prefix| && Succeeds(prefix, oracle, j)
        ensures NoteFileName(prefix[j]) != NoteFileName(prefix[i])
      {
        assert Succeeds(subs, oracle, j);
      }
      LastWriteWins(b, prefix, oracle, i);
    }
  }

  /** At most one new name per success. */
  lemma {:induction false} WrittenBound(subs: seq<string>, oracle: ResearchOracle)
    ensures |Written(subs, oracle)| <= Successes(subs, oracle)
  {
    if subs != [] {
      WrittenBound(subs[..|subs| - 1], oracle);
    }
  }

  /** The batch adds at most as many files as there were successes. */
  lemma NewNotesBound(b: Batch, subs: seq<string>, oracle: ResearchOracle)
    ensures |Run(b, subs, oracle).notes.Keys - b.notes.Keys| <= Successes(subs, oracle)
  {
    NotesKeys(b, subs, oracle);
    WrittenBound(subs, oracle);
    var added := Run(b, subs, oracle).notes.Keys - b.notes.Keys;
    assert added <= Written(subs, oracle);
    SubsetCard(added, Written(subs, oracle));
  }

  lemma SubsetCard<T>(a: set<T>, b: set<T>)
    requires a <= b
    ensures |a| <= |b|
  {
    assert b == a + (b - a);
  }

  /** When no two successful subtopics share a note name, each success adds
      its own name. */
  lemma {:induction false} DistinctWrittenCount(subs: seq<string>, oracle: ResearchOracle)
    requires forall i, j :: 0 <= i < j < |subs| && Succeeds(subs, oracle, i) && Succeeds(subs, oracle, j) ==>
      NoteFileName(subs[i]) != NoteFileName(subs[j])
    ensures |Written(subs, oracle)| == Successes(subs, oracle)
  {
    if subs != [] {
      var n := |subs| - 1;
      var prefix := subs[..n];
      forall i, j | 0 <= i < j < |prefix| && Succeeds(prefix, oracle, i) && Succeeds(prefix, oracle, j)
        ensures NoteFileName(prefix[i]) != NoteFileName(prefix[j])
      {
        assert Succeeds(subs, oracle, i) && Succeeds(subs, oracle, j);
      }
      DistinctWrittenCount(prefix, oracle);
      if Succeeds(subs, oracle, n) {
        WrittenMembers(prefix, oracle, NoteFileName(subs[n]));
      }
    }
  }

  /** Starting from notes whose names the batch does not write, and with
      distinct note names among the successes, the batch leaves exactly one
      more file per success: with K of N subtopics failing, N - K notes are
      added. */
  lemma NoteCount(b: Batch, subs: seq<string>, oracle: ResearchOracle)
    requires forall i, j :: 0 <= i < j < |subs| && Succeeds(subs, oracle, i) && Succeeds(subs, oracle, j) ==>
      NoteFileName(subs[i]) != NoteFileName(subs[j])
    requires forall i :: 0 <= i < |subs| && Succeeds(subs, oracle, i) ==> NoteFileName(subs[i]) !in b.notes
    ensures |Run(b, subs, oracle).notes| == |b.notes| + Successes(subs, oracle)
  {
    NotesKeys(b, subs, oracle);
    DistinctWrittenCount(subs, oracle);
    forall k | k in Written(subs, oracle) ensures k !in b.notes.Keys {
      WrittenMembers(subs, oracle, k);
    }
    assert b.notes.Keys !! Written(subs, oracle);
    assert |Run(b, subs, oracle).notes.Keys| == |b.notes.Keys| + |Written(subs, oracle)|;
  }

  /** When every subtopic fails, the note directory is unchanged. */
  lemma {:induction false} AllFailuresWriteNothing(b: Batch, subs: seq<string>, oracle: ResearchOracle)
    requires Successes(subs, oracle) == 0
    ensures Run(b, subs, oracle).notes == b.notes
  {
    if subs != [] {
      AllFailuresWriteNothing(b, subs[..|subs| - 1], oracle);
    }
  }

  /** `research_topic`: the loop over the subtopics. */
  method ResearchTopic(subtopics: seq<string>, notes: Store, oracle: ResearchOracle) returns (b: Batch)
    ensures b == Run(Batch(map[], notes), subtopics, oracle)
    ensures forall k :: k in b.results <==> k in subtopics
    ensures b.notes.Keys == notes.Keys + Written(subtopics, oracle)
    ensures forall k :: k !in Written(subtopics, oracle) ==> (k in b.notes <==> k in notes)
    ensures forall k :: k !in Written(subtopics, oracle) && k in notes ==> b.notes[k] == notes[k]
    ensures |b.notes.Keys - notes.Keys| <= Successes(subtopics, oracle)
  {
    var results: map<string, string> := map[];
    var dir := notes;
    for i := 0 to |subtopics|
      invariant Batch(results, dir) == Run(Batch(map[], notes), subtopics[..i], oracle)
    {
      var subtopic := subtopics[i];
      var a := oracle(i, subtopic);
      match a.reply {
        case Success(text) =>
          results := results[subtopic := text];
          dir := dir[NoteFileName(subtopic) := NoteBody(subtopic, a.stamp, text)];
        case Failure(msg) =>
          results := results[subtopic := "Error: " + msg];
      }
      assert subtopics[..i + 1][..i] == subtopics[..i];
    }
    assert subtopics[..|subtopics|] == subtopics;
    b := Batch(results, dir);
    ResultKeys(Batch(map[], notes), subtopics, oracle);
    NotesKeys(Batch(map[], notes), subtopics, oracle);
    forall k | k !in Written(subtopics, oracle)
      ensures (k in b.notes <==> k in notes) && (k in notes ==> b.notes[k] == notes[k])
    {
      NotesUntouched(Batch(map[], notes), subtopics, oracle, k);
    }
    NewNotesBound(Batch(map[], notes), subtopics, oracle);
  }
}
