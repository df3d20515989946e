/** How the agent names its files: the slug shared by note keys and report
    names, the note file name, the report file name, and which names the
    note listing picks up. */
module Naming {
  import opened Text

  /** A directory of text files: file name to content. */
  type Store = map<string, string>

  /** Slugs are cut to this many characters. */
  const SlugLength: nat := 50

  /** `s.lower().replace(' ', '_')[:50]`: the first `min(|s|, 50)` characters
      of `s`, lower-cased, with each space turned into an underscore. Only the
      space character is replaced; tabs and newlines stay as they are. */
  function Slug(s: string): (r: string)
    ensures |r| == if |s| <= SlugLength then |s| else SlugLength
    ensures forall i :: 0 <= i < |r| ==> r[i] == (if s[i] == ' ' then '_' else LowerChar(s[i]))
    ensures forall i :: 0 <= i < |r| ==> r[i] != ' ' && !IsUpper(r[i])
  {
    Take(ReplaceChar(Lower(s), ' ', '_'), SlugLength)
  }

  /** Slugging a slug changes nothing. */
  lemma SlugIdempotent(s: string)
    ensures Slug(Slug(s)) == Slug(s)
  {
    var t := Slug(s);
    assert Lower(t) == t;
    assert ReplaceChar(t, ' ', '_') == t;
  }

  /** The file a note for `subtopic` is saved under. */
  function NoteFileName(subtopic: string): string
  {
    Slug(subtopic) + ".md"
  }

  /** The file name of a report on `topic` generated at `stamp`. */
  function ReportFileName(topic: string, stamp: string): string
  {
    Slug(topic) + "_report_" + stamp + ".md"
  }

  /** The names the note listing (`glob("*.md")`, which does not descend
      into subdirectories) picks up: names ending in ".md" that contain no
      `/`, so the file sits in the notes directory itself. */
  predicate IsNoteFile(name: string)
  {
    EndsWith(name, ".md") && forall i :: 0 <= i < |name| ==> name[i] != '/'
  }

  /** The listing picks up a subtopic's note exactly when the part of the
      subtopic the slug keeps has no `/`; a `/` puts the note in a
      subdirectory. */
  lemma NoteFileIsListed(subtopic: string)
    ensures IsNoteFile(NoteFileName(subtopic)) <==>
      forall i :: 0 <= i < |subtopic| && i < SlugLength ==> subtopic[i] != '/'
    ensures |NoteFileName(subtopic)| <= SlugLength + 3
  {
    var slug := Slug(subtopic);
    var n := NoteFileName(subtopic);
    assert n[|n| - 3..] == ".md";
    assert forall i :: 0 <= i < |slug| ==> n[i] == slug[i];
    assert forall i :: 0 <= i < |slug| ==> (slug[i] == '/' <==> subtopic[i] == '/');
  }

  /** The report name embeds the topic's slug and the time stamp; two
      different stamps give two different names for the same topic. */
  lemma ReportNamesDistinct(topic: string, a: string, b: string)
    ensures ReportFileName(topic, a) == ReportFileName(topic, b) <==> a == b
  {
    var prefix := Slug(topic) + "_report_";
    if ReportFileName(topic, a) == ReportFileName(topic, b) {
      var na := ReportFileName(topic, a);
      var nb := ReportFileName(topic, b);
      assert na == prefix + a + ".md";
      assert nb == prefix + b + ".md";
      assert |a| == |b|;
      assert a == na[|prefix|..|prefix| + |a|];
      assert b == nb[|prefix|..|prefix| + |b|];
    }
  }
}
