# Research agent core, modelled in Dafny

This project models the orchestration core of the Kimi research agent
(`research_agent/agent_kimi.py`). A research request goes through three steps:

1. **Decomposition** (`process_research_request`). The completion service is
   asked to split the request into a topic and subtopics. The JSON text is cut
   out of its Markdown code fence and parsed. If the completion, the parse or a
   key lookup fails, the request is abandoned.
2. **Research** (`research_topic`). One search-augmented completion is made
   per subtopic, in list order. A success is saved as a note under
   `slug(subtopic) + ".md"`. A failure is recorded as `"Error: " + msg` and the
   loop goes on to the next subtopic.
3. **Synthesis** (`generate_report`). Every `*.md` note in the directory is
   framed with its file name. This includes notes left by earlier runs. The
   frames are joined with `"\n---\n"` and sent in one completion. A success is
   saved as `slug(topic) + "_report_" + stamp + ".md"`. No notes, or a failed
   completion, gives no report.

The outside world is modelled as follows:

- The completion service, the JSON parser and the clock are function-typed
  parameters (oracles). The research oracle gets the call's 0-based index and
  its subtopic. It returns the reply and the time stamp written into the note.
- The note and report directories are `map<string, string>` values from file
  name to content.
- The glob's enumeration order is a nondeterministic choice in
  `Report.ListNotes`. Every property about synthesis therefore holds for any
  listing order.

Modules, leaves first:

- `Wrappers`: `Option`, and `Reply` (the outcome of one completion).
- `Text`: the Python string operations the code uses, over ASCII: `lower`,
  `replace`, `[:n]`, `strip`, `in`, `split` and `join`.
- `Naming`: slugs, note file names and report file names.
- `Fences`: extraction of the JSON from the decomposition reply.
- `Research`: the batch loop, with a reference fold `Run`.
- `Report`: listing, framing, joining and the synthesis step.
- `Pipeline`: the controller.

Behaviour of the code worth noting:

- Only the space character becomes `_` in a slug. Tabs and newlines stay as
  they are, and so does `/`. A `/` puts the note in a subdirectory, where
  the listing does not look (`Naming.NoteFileIsListed`).
- The decomposition prompt asks for "2-4 specific subtopics" of "3-8 words"
  each (`agent_kimi.py:214` and `:224`). The code never checks either.
- Synthesis failure (no notes, or a failed completion) is just `None` in the
  code. The model keeps the two cases apart as `NoNotes` and
  `CompletionFailed`.
- One new note file per successful subtopic (N - K files when K of N fail)
  holds only when the successful subtopics' note names are distinct and new
  (`Research.NoteCount`). Otherwise a later note overwrites an earlier one.
- The ```` ```json ```` branch takes `split("```json")[1]`, which ends at a
  second ```` ```json ````. It does not always end at the next ```` ``` ````.
  The two readings can differ only when a second ```` ```json ```` follows
  the first. `Fences.StraddlingFence` gives an input where they do differ:
  a ```` ``` ```` that overlaps the second ```` ```json ````.
  `Fences.JsonBranchSingle` proves the two agree whenever no second
  ```` ```json ```` follows.

## Model

| member | source | states |
|---|---|---|
| Naming.Slug | research_agent/agent_kimi.py:111 | the slug is `min(len(s), 50)` long; character i is `_` where `s[i]` is a space and the ASCII lower case of `s[i]` otherwise; so no space or upper-case letter is left |
| Naming.SlugIdempotent | research_agent/agent_kimi.py:111 | slugging a slug gives the same slug |
| Naming.NoteFileIsListed | research_agent/agent_kimi.py:111 | `glob("*.md")` lists a subtopic's note exactly when the first 50 characters of the subtopic contain no `/`; the name is at most 53 characters long |
| Naming.ReportNamesDistinct | research_agent/agent_kimi.py:185-186 | two report names for one topic are equal exactly when their time stamps are equal |
| Text.Find | research_agent/agent_kimi.py:240-243 | `Find` returns the first index where the pattern occurs, or `None` exactly when it occurs nowhere; this is the search behind `in` and `split` |
| Text.Split | research_agent/agent_kimi.py:241-243 | `split` yields at least one piece, and at least two exactly when the separator occurs; the first piece is the text before the first separator; no piece contains the separator |
| Text.SplitSecond | research_agent/agent_kimi.py:241-243 | piece `[1]` of a split is the text after the first separator, up to the next one |
| Text.JoinSplit | research_agent/agent_kimi.py:241-243 | joining the pieces of a split with the same separator gives back the original string |
| Text.JoinLength | research_agent/agent_kimi.py:153 | the joined text is as long as the parts together plus one separator between each pair of neighbours |
| Text.JoinLayout | research_agent/agent_kimi.py:153 | part i of the join sits at its offset, and a separator follows it unless it is the last part |
| Text.Strip | research_agent/agent_kimi.py:237 | `strip` returns a piece of the input; everything outside that piece is whitespace; the result neither starts nor ends with whitespace |
| Text.StripIdempotent | research_agent/agent_kimi.py:237 | stripping twice is the same as stripping once |
| Fences.ExtractJson | research_agent/agent_kimi.py:237-243 | without a fence the result is the stripped reply; with a fence the result has no "```" in it; the result is always stripped |
| Fences.JsonBranch | research_agent/agent_kimi.py:240-241 | when "```json" is present its branch decides, whatever other fences there are: the split piece after the first "```json" is cut at its first "```" and stripped |
| Fences.JsonBranchSingle | research_agent/agent_kimi.py:240-241 | with a single "```json", the result is the text after it up to the next "```" (or the end), stripped |
| Fences.PlainBranch | research_agent/agent_kimi.py:242-243 | with "```" but not "```json", the result is the text between the first and second "```" (or the end), stripped |
| Fences.StraddlingFence | research_agent/agent_kimi.py:241 | for replies shaped "```json`" + "```json" + tail, the code yields "`" where "text up to the next ```" would be empty |
| Fences.JsonFenceRoundTrip | research_agent/agent_kimi.py:237-243 | a backtick-free body gives its stripped self, whether bare or wrapped in "```json" ... "```" |
| Fences.PlainFenceRoundTrip | research_agent/agent_kimi.py:242-243 | a backtick-free body wrapped in a plain "```" fence gives its stripped self, unless it starts with "json" |
| Research.NoteBodyEndsWithFindings | research_agent/agent_kimi.py:114-117 | the note is its 20-character fixed header, the subtopic and the stamp, followed by the findings; the findings are its tail |
| Research.ResearchTopic | research_agent/agent_kimi.py:57-127 | the loop equals the reference fold; the results have a key for each subtopic and for nothing else; the note files are the old ones plus the written ones; unwritten names keep their content; at most one new file per success |
| Research.ResultKeys | research_agent/agent_kimi.py:73-125 | every subtopic, failed or not, gets a results entry, and no other key is added |
| Research.ResultOfLastAttempt | research_agent/agent_kimi.py:107-125 | a subtopic's entry is the content of its last attempt, or "Error: " plus the message, whatever happened to the other subtopics |
| Research.WrittenMembers | research_agent/agent_kimi.py:107-117 | a note name is written exactly when some subtopic with that name succeeded |
| Research.NotesKeys | research_agent/agent_kimi.py:110-117 | after the batch the directory holds the earlier files plus exactly the written names |
| Research.NotesUntouched | research_agent/agent_kimi.py:110-125 | a name no successful subtopic writes keeps its presence and content; failures write nothing |
| Research.LastWriteWins | research_agent/agent_kimi.py:110-117 | a written name holds the note (heading, stamp, findings) of the last successful subtopic with that name |
| Research.NewNotesBound | research_agent/agent_kimi.py:110-117 | the batch adds at most as many new file names as there were successes |
| Research.NoteCount | research_agent/agent_kimi.py:73-125 | when the successful subtopics have distinct note names not yet in the directory, the batch adds exactly one file per success (N - K files when K of N fail) |
| Research.AllFailuresWriteNothing | research_agent/agent_kimi.py:122-125 | when every subtopic fails the note directory is unchanged |
| Report.ListNotes | research_agent/agent_kimi.py:143 | the listing names exactly once every name ending in `.md` with no `/` (a file of the directory itself), and nothing else |
| Report.ContentInFrame | research_agent/agent_kimi.py:146 | in a framed note the content follows the "## From: name" label |
| Report.CombinedLayout | research_agent/agent_kimi.py:146-153 | for n >= 1 notes the combined text is the n frames plus n - 1 separators; a separator follows every frame but the last; each note's content sits right after its label |
| Report.NoteInCombined | research_agent/agent_kimi.py:146-153 | every listed note's content occurs in the combined text |
| Report.GenerateReport | research_agent/agent_kimi.py:129-201 | with no `.md` note there is no completion call and no report; otherwise the request is the combined notes in listing order, holding every note, old or new; a report is saved under the slug-and-stamp name, with title, stamp and rule before the text, exactly when the completion succeeds; a failure leaves the report directory unchanged |
| Pipeline.DecomposeReadings | research_agent/agent_kimi.py:237-247 | a failed completion gives no plan; a successful one gives what the parser makes of the stripped reply when it has no fence, of the text after the first "```json" up to a second "```json" and then to the next "```" when it has one, and of the text between the first two "```" otherwise |
| Pipeline.FenceDoesNotMatter | research_agent/agent_kimi.py:237-247 | a backtick-free JSON reply decomposes the same bare, in a "```json" fence, or in a plain fence (unless it starts with "json") |
| Pipeline.ProcessResearchRequest | research_agent/agent_kimi.py:203-264 | a failed decomposition changes nothing and runs nothing else; otherwise research always runs and is always followed by synthesis; synthesis finds notes iff a listed `.md` note exists afterwards, and a success for a subtopic whose slug has no `/` guarantees one; a synthesis request is sent exactly when notes were found, and it is the combined notes in some listing of the `.md` files; the report is saved exactly when that completion succeeds, and a failure carries the completion's message; all failures with no earlier notes give no report; only a saved report changes the report directory; the findings of every successful subtopic whose note survives the batch and is listed reach the synthesis request |
| Pipeline.SuccessLeavesNoteFile | research_agent/agent_kimi.py:110-150 | after a batch in which some subtopic whose slug has no `/` succeeded, the directory holds a note the listing picks up, so synthesis is attempted |
| Pipeline.FindingReachesSynthesis | research_agent/agent_kimi.py:114-153 | the findings of a successful subtopic whose note is not overwritten later, and whose slug has no `/`, occur in the synthesis request |
| Pipeline.FindingsReachSynthesis | research_agent/agent_kimi.py:114-153 | for any listing order, the synthesis request holds the findings of every such subtopic |

## Left out

- The OpenAI/Moonshot client, the `web_search` tool descriptor, the prompts,
  the model name and the temperatures are left out. Each completion is an
  oracle reply `Success(text)` or `Failure(msg)`. The synthesis oracle is
  given the topic and the combined notes text.
- A reply whose `content` is `None` is not modelled: a successful reply always
  carries text.
- `json.loads` and the `["topic"]` / `["subtopics"]` lookups are left out. They
  are modelled as a `Parser` oracle returning `Option<Decomposition>`.
- Pipeline.ProcessResearchRequest: a parsed `topic` that is not a string is
  not modelled. In the source such a topic goes through research and the
  synthesis completion, then raises at line 186. That is inside the `try` of
  line 172, so no report is saved. A `subtopics` value that is a string is
  researched character by character, and a JSON object is researched over
  its keys. The `Parser` oracle can represent both as a sequence of strings.
  A list holding a non-string raises at the join of line 250, before any
  research. That matches the `Parser` oracle returning `None`.
- File-system failures are not modelled: directory creation, and `open` or
  `write` raising. Every write succeeds.
- Pipeline.ProcessResearchRequest: the newline limit of
  `Pipeline.FindingReachesSynthesis` applies to the findings clause. The
  report-name limit of `Report.GenerateReport` applies to the `Saved` clauses.
- Report.GenerateReport: a topic whose slug contains `/` gives a report name
  inside a subdirectory of `files/reports`. Only `files/reports` itself is
  created, so `open` at line 189 raises, and line 198 returns `None` after a
  successful completion. The model saves the report under that name. Its
  `Saved`-exactly-when-the-completion-succeeds claim therefore holds in the
  program only for topics whose first 50 characters contain no `/`.
- Report.GenerateReport: notes are read back in text mode (line 144), which
  turns `"\r\n"` and `"\r"` into `"\n"`. The model reads back exactly what
  is stored, so "the request holds every note" holds in the program only for
  notes without `\r`.
- Pipeline.FindingReachesSynthesis: notes are written and read back in text
  mode (lines 114 and 144). On reading, Python turns `"\r\n"` and `"\r"` into
  `"\n"`. The model reads back exactly what was written, so the lemma holds
  in the program only for findings without `\r`.
- Pipeline.FindingsReachSynthesis: the same newline limit as
  `Pipeline.FindingReachesSynthesis`.
- Research.ResearchTopic: does not model a note write that raises after a
  successful completion. In the source that turns the result entry into
  `"Error: ..."`. One such case is a slug containing `/` whose subdirectory
  does not exist. The model stores that note under its `/` name, which the
  listing skips, so the note still never reaches synthesis.
- Report.ListNotes: the glob's enumeration order is left open. Directories
  whose names end in `.md` are not told apart from files.
- `datetime.now()` is left out. Its readings are strings the caller supplies:
  one per note, and two per report (the file-name stamp and the "Generated"
  stamp).
- The `log` calls and the session transcript are left out, and so are the
  findings preview and the progress lines. They are observational only. The
  `topic` argument of `research_topic` is used only in log lines, so
  `Research.ResearchTopic` does not take it.
- The interactive `chat()` loop, `.env` loading, the API-key check and
  `asyncio` are left out as process plumbing.
- Naming.Slug: lower-cases ASCII letters only. Python's `str.lower` also maps
  non-ASCII letters.
- Text.Strip: strips the ASCII whitespace of `str.isspace` (space, 9 to 13 and
  28 to 31) only. Python also strips Unicode spaces.
