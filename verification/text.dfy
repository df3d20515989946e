/** The few Python `str` operations the research agent relies on, over ASCII:
    `lower`, `replace` of one character, slicing `[:n]`, `strip`, `in`,
    `split(sep)` and `sep.join(parts)`. */
module Text {
  import opened Wrappers

  /** `str.isspace` restricted to ASCII: space, \t \n \v \f \r and the
      separators 0x1C..0x1F. */
  predicate IsSpace(c: char) {
    c == ' ' || 9 <= c as int <= 13 || 28 <= c as int <= 31
  }

  predicate IsUpper(c: char) {
    'A' <= c <= 'Z'
  }

  /** ASCII `str.lower` on one character. */
  function LowerChar(c: char): (d: char)
    ensures !IsUpper(d)
    ensures IsUpper(c) ==> d as int == c as int + 32
    ensures !IsUpper(c) ==> d == c
  {
    if IsUpper(c) then (c as int + 32) as char else c
  }

  /** `s.lower()` (ASCII letters only). */
  function Lower(s: string): (r: string)
    ensures |r| == |s|
    ensures forall i :: 0 <= i < |s| ==> r[i] == LowerChar(s[i])
  {
    if s == [] then [] else [LowerChar(s[0])] + Lower(s[1..])
  }

  /** `s.replace(target, replacement)` for single-character arguments. */
  function ReplaceChar(s: string, target: char, replacement: char): (r: string)
    ensures |r| == |s|
    ensures forall i :: 0 <= i < |s| ==> r[i] == (if s[i] == target then replacement else s[i])
  {
    if s == [] then []
    else [if s[0] == target then replacement else s[0]] + ReplaceChar(s[1..], target, replacement)
  }

  /** The slice `s[:n]` for a non-negative `n`. */
  function Take(s: string, n: nat): (r: string)
    ensures |r| == if |s| <= n then |s| else n
    ensures r == s[..|r|]
  {
    if |s| <= n then s else s[..n]
  }

  predicate EndsWith(s: string, suffix: string) {
    |suffix| <= |s| && s[|s| - |suffix|..] == suffix
  }

  // ---------------------------------------------------------------- strip

  /** The index of the first non-whitespace character at or after `i`, or
      `|s|`. */
  function SkipSpaces(s: string, i: nat): (k: nat)
    requires i <= |s|
    ensures i <= k <= |s|
    ensures forall j :: i <= j < k ==> IsSpace(s[j])
    ensures k < |s| ==> !IsSpace(s[k])
    decreases |s| - i
  {
    if i < |s| && IsSpace(s[i]) then SkipSpaces(s, i + 1) else i
  }

  /** The index just after the last non-whitespace character before `k`, or
      0. */
  function SkipSpacesBack(s: string, k: nat): (e: nat)
    requires k <= |s|
    ensures e <= k
    ensures forall j :: e <= j < k ==> IsSpace(s[j])
    ensures e > 0 ==> !IsSpace(s[e - 1])
  {
    if k > 0 && IsSpace(s[k - 1]) then SkipSpacesBack(s, k - 1) else k
  }

  /** Where the stripped text starts in `s`. */
  function StripStart(s: string): nat
  {
    SkipSpaces(s, 0)
  }

  /** `s.strip()`: the result sits in `s` at `StripStart(s)`, everything
      around it is whitespace, and it neither starts nor ends with
      whitespace. */
  function Strip(s: string): (r: string)
    ensures OccursAt(s, r, StripStart(s))
    ensures forall i :: 0 <= i < |s| && !(StripStart(s) <= i < StripStart(s) + |r|) ==> IsSpace(s[i])
    ensures r == [] || (!IsSpace(r[0]) && !IsSpace(r[|r| - 1]))
  {
    var a := SkipSpaces(s, 0);
    var b := SkipSpacesBack(s, |s|);
    if b <= a then [] else s[a..b]
  }

  /** A string that neither starts nor ends with whitespace is its own strip. */
  lemma StripNoop(s: string)
    requires s != [] && !IsSpace(s[0]) && !IsSpace(s[|s| - 1])
    ensures Strip(s) == s
  {
    assert SkipSpaces(s, 0) == 0;
    assert SkipSpacesBack(s, |s|) == |s|;
    assert s[0..|s|] == s;
  }

  /** Stripping is idempotent. */
  lemma StripIdempotent(s: string)
    ensures Strip(Strip(s)) == Strip(s)
  {
    if Strip(s) != [] {
      StripNoop(Strip(s));
    }
  }

  // ------------------------------------------------------------ searching

  /** `p` occurs in `s` starting at index `i`. */
  predicate OccursAt(s: string, p: string, i: int) {
    0 <= i && i + |p| <= |s| && s[i..i + |p|] == p
  }

  lemma OccursShift(s: string, p: string, i: int)
    requires s != [] && 0 <= i
    ensures OccursAt(s, p, i + 1) <==> OccursAt(s[1..], p, i)
  {
    if 0 <= i && i + 1 + |p| <= |s| {
      assert s[1..][i..i + |p|] == s[i + 1..i + 1 + |p|];
    }
  }

  /** The first index at which `p` occurs in `s`, as Python's `str.find`
      computes it (`None` for -1). */
  function Find(s: string, p: string): (r: Option<nat>)
    ensures r.Some? ==> OccursAt(s, p, r.value)
    ensures r.Some? ==> forall j :: 0 <= j < r.value ==> !OccursAt(s, p, j)
    ensures r.None? ==> forall j :: !OccursAt(s, p, j)
    decreases |s|
  {
    if |s| < |p| then None
    else if s[..|p|] == p then Some(0)
    else
      match Find(s[1..], p)
      case None =>
        assert forall j :: !OccursAt(s, p, j) by {
          forall j | OccursAt(s, p, j) ensures false {
            if j > 0 { OccursShift(s, p, j - 1); }
          }
        }
        None
      case Some(i) =>
        assert forall j :: 0 <= j < i + 1 ==> !OccursAt(s, p, j) by {
          forall j | 0 <= j < i + 1 && OccursAt(s, p, j) ensures false {
            if j > 0 { OccursShift(s, p, j - 1); }
          }
        }
        OccursShift(s, p, i);
        Some(i + 1)
  }

  /** `Find` returns the first occurrence. */
  lemma FirstOccurrence(s: string, p: string, i: nat)
    requires OccursAt(s, p, i) && forall j :: 0 <= j < i ==> !OccursAt(s, p, j)
    ensures Find(s, p) == Some(i)
  {
  }

  /** Python's `p in s`. */
  predicate Contains(s: string, p: string) {
    Find(s, p).Some?
  }

  /** An occurrence inside an occurrence is an occurrence. */
  lemma OccursTrans(s: string, m: string, p: string, i: int, j: int)
    requires OccursAt(s, m, i) && OccursAt(m, p, j)
    ensures OccursAt(s, p, i + j)
  {
    forall k | 0 <= k < |p|
      ensures s[i + j + k] == p[k]
    {
      assert p[k] == m[j + k] == s[i + j + k];
    }
    assert s[i + j..i + j + |p|] == p;
  }

  /** Containment is transitive. */
  lemma ContainsTrans(s: string, m: string, p: string)
    requires Contains(s, m) && Contains(m, p)
    ensures Contains(s, p)
  {
    OccursTrans(s, m, p, Find(s, m).value, Find(m, p).value);
  }

  /** A pattern absent from `s` is absent from every piece of `s`. */
  lemma AbsentFromPiece(s: string, m: string, p: string, i: int)
    requires OccursAt(s, m, i) && !Contains(s, p)
    ensures !Contains(m, p)
  {
    if Contains(m, p) {
      OccursTrans(s, m, p, i, Find(m, p).value);
    }
  }

  /** Whitespace stripping never creates an occurrence of a pattern. */
  lemma StripKeepsAbsent(s: string, p: string)
    requires !Contains(s, p)
    ensures !Contains(Strip(s), p)
  {
    AbsentFromPiece(s, Strip(s), p, StripStart(s));
  }

  /** The part of `s` before the first `p`, or all of `s`. */
  function UpTo(s: string, p: string): (r: string)
    ensures |r| <= |s| && r == s[..|r|]
    ensures Contains(s, p) ==> OccursAt(s, p, |r|)
    ensures p != [] ==> !Contains(r, p)
  {
    match Find(s, p)
    case None => s
    case Some(i) =>
      var r := s[..i];
      assert forall j :: OccursAt(r, p, j) ==> OccursAt(s, p, j);
      r
  }

  /** The part of `s` after the first `p`. */
  function After(s: string, p: string): (r: string)
    requires Contains(s, p)
    ensures OccursAt(s, p, |s| - |r| - |p|)
    ensures r == s[|s| - |r|..]
    ensures forall j :: 0 <= j < |s| - |r| - |p| ==> !OccursAt(s, p, j)
  {
    s[Find(s, p).value + |p|..]
  }

  // ------------------------------------------------------- split and join

  /** `s.split(sep)` for a non-empty separator (Python raises ValueError on an
      empty one): the pieces between successive non-overlapping occurrences,
      scanning from the left. */
  function Split(s: string, sep: string): (parts: seq<string>)
    requires sep != []
    ensures |parts| >= 1
    ensures parts[0] == UpTo(s, sep)
    ensures Contains(s, sep) <==> |parts| >= 2
    ensures forall k :: 0 <= k < |parts| ==> !Contains(parts[k], sep)
    decreases |s|
  {
    match Find(s, sep)
    case None => [s]
    case Some(i) =>
      var rest := s[i + |sep|..];
      var tail := Split(rest, sep);
      assert UpTo(s, sep) == s[..i];
      assert After(s, sep) == rest;
      var parts := [s[..i]] + tail;
      assert forall k :: 1 <= k < |parts| ==> parts[k] == tail[k - 1];
      parts
  }

  /** The second piece of a split is the text after the first separator, up to
      the next one. */
  lemma SplitSecond(s: string, sep: string)
    requires sep != [] && Contains(s, sep)
    ensures Split(s, sep)[1] == UpTo(After(s, sep), sep)
  {
    var i := Find(s, sep).value;
    assert After(s, sep) == s[i + |sep|..];
  }

  /** `sep.join(parts)`. */
  function Join(parts: seq<string>, sep: string): string
  {
    if parts == [] then []
    else if |parts| == 1 then parts[0]
    else parts[0] + sep + Join(parts[1..], sep)
  }

  /** Joining the pieces of a split gives back the split string. */
  lemma {:induction false} JoinSplit(s: string, sep: string)
    requires sep != []
    ensures Join(Split(s, sep), sep) == s
    decreases |s|
  {
    var f := Find(s, sep);
    if f.Some? {
      var i := f.value;
      var rest := s[i + |sep|..];
      var tail := Split(rest, sep);
      assert Split(s, sep) == [s[..i]] + tail;
      JoinSplit(rest, sep);
      JoinCons(s[..i], tail, sep);
      assert s[i..i + |sep|] == sep;
      assert s == s[..i] + s[i..i + |sep|] + rest;
    }
  }

  lemma JoinCons(head: string, tail: seq<string>, sep: string)
    requires tail != []
    ensures Join([head] + tail, sep) == head + sep + Join(tail, sep)
  {
    assert ([head] + tail)[1..] == tail;
  }

  /** Where the `i`-th part starts in `Join(parts, sep)`. */
  function Offset(parts: seq<string>, sep: string, i: nat): nat
    requires i <= |parts|
  {
    if i == 0 then 0 else |parts[0]| + |sep| + Offset(parts[1..], sep, i - 1)
  }

  function TotalLength(parts: seq<string>): nat {
    if parts == [] then 0 else |parts[0]| + TotalLength(parts[1..])
  }

  lemma OccursInConcat(a: string, b: string, p: string, j: int)
    requires OccursAt(b, p, j)
    ensures OccursAt(a + b, p, |a| + j)
  {
    assert (a + b)[|a| + j..|a| + j + |p|] == b[j..j + |p|];
  }

  lemma OccursAtStart(a: string, b: string)
    ensures OccursAt(a + b, a, 0)
  {
    assert (a + b)[..|a|] == a;
  }

  /** The length of `Join(parts, sep)`: the parts' lengths plus one separator
      between each two neighbours. */
  lemma {:induction false} JoinLength(parts: seq<string>, sep: string)
    requires parts != []
    ensures |Join(parts, sep)| == TotalLength(parts) + (|parts| - 1) * |sep|
  {
    if |parts| > 1 {
      JoinLength(parts[1..], sep);
    }
  }

  /** Part `i` of `Join(parts, sep)` sits at `Offset(parts, sep, i)` and is
      followed by a separator unless it is the last. */
  lemma {:induction false} JoinLayout(parts: seq<string>, sep: string, i: nat)
    requires i < |parts|
    ensures OccursAt(Join(parts, sep), parts[i], Offset(parts, sep, i))
    ensures i < |parts| - 1 ==> OccursAt(Join(parts, sep), sep, Offset(parts, sep, i) + |parts[i]|)
  {
    var j := Join(parts, sep);
    if |parts| == 1 {
      assert j[0..|parts[0]|] == parts[0];
    } else {
      var tail := parts[1..];
      var head := parts[0] + sep;
      assert j == head + Join(tail, sep);
      if i == 0 {
        OccursAtStart(parts[0], sep + Join(tail, sep));
        assert j == parts[0] + (sep + Join(tail, sep));
        OccursAtStart(sep, Join(tail, sep));
        OccursInConcat(parts[0], sep + Join(tail, sep), sep, 0);
      } else {
        JoinLayout(tail, sep, i - 1);
        assert parts[i] == tail[i - 1];
        OccursInConcat(head, Join(tail, sep), parts[i], Offset(tail, sep, i - 1));
        if i < |parts| - 1 {
          OccursInConcat(head, Join(tail, sep), sep, Offset(tail, sep, i - 1) + |tail[i - 1]|);
        }
      }
    }
  }
}
