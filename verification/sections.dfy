/**
 The section extractor of the resume script: one forward pass over the lines of
 the resume, a cursor saying which section (if any) is being filled, and the
 trimmed content lines collected into "experience" and "education".
 */
module Sections {
  import opened Text

  datatype Section = Experience | Education

  /** The scanner's `current_section`: no section, or the one being filled. */
  datatype Cursor = Idle | Active(section: Section)

  /** What one line does to the scanner; the first matching rule decides. */
  datatype LineKind = Header(section: Section) | Reset | Content

  /** The returned mapping. Its two fields are its two keys, "experience" and "education". */
  datatype SectionMap = SectionMap(experience: seq<string>, education: seq<string>) {
    function Get(s: Section): seq<string> {
      match s
      case Experience => experience
      case Education => education
    }
  }

  /** Words whose presence ends the active section. */
  const ResetWords: seq<string> := ["summary", "skills", "project"]

  /** The if/elif chain applied to a line: "experience" first, then "education",
      then a blank line or a reset word. A line falls through every test exactly when,
      once stripped, it is a clean entry. */
  function Classify(line: string): (k: LineKind)
    ensures k == Content <==> CleanEntry(Strip(line))
  {
    var lowered := Lower(Strip(line));
    if Contains(lowered, "experience") then Header(Experience)
    else if Contains(lowered, "education") then Header(Education)
    else if Strip(line) == "" || ContainsAny(lowered, ResetWords) then Reset
    else ContentIsClean(line); Content
  }

  /** The kind of every line, in order. */
  function KindsOf(lines: seq<string>): (kinds: seq<LineKind>)
    ensures |kinds| == |lines|
    ensures forall i :: 0 <= i < |lines| ==> kinds[i] == Classify(lines[i])
  {
    seq(|lines|, i requires 0 <= i < |lines| => Classify(lines[i]))
  }

  /** The cursor after reading one line of the given kind. */
  function Step(cur: Cursor, kind: LineKind): Cursor {
    match kind
    case Header(s) => Active(s)
    case Reset => Idle
    case Content => cur
  }

  /** The cursor after reading lines of the given kinds, starting from none. */
  function CursorAfter(kinds: seq<LineKind>): Cursor {
    if kinds == [] then Idle
    else Step(CursorAfter(kinds[..|kinds| - 1]), kinds[|kinds| - 1])
  }

  /** Line `i` is stored into section `s`: it is a content line read while `s` is active. */
  predicate StoredAt(kinds: seq<LineKind>, i: int, s: Section)
    requires 0 <= i < |kinds|
  {
    kinds[i] == Content && CursorAfter(kinds[..i]) == Active(s)
  }

  /** The entries of section `s` after reading `lines` (of the given kinds), in reading order. */
  function Entries(kinds: seq<LineKind>, lines: seq<string>, s: Section): seq<string>
    requires |kinds| == |lines|
  {
    if lines == [] then []
    else
      var n := |lines| - 1;
      Entries(kinds[..n], lines[..n], s)
        + (if kinds[n] == Content && CursorAfter(kinds[..n]) == Active(s) then [Strip(lines[n])] else [])
  }

  /** `extract_experience_and_education` as a function of the text. Every entry is clean
      and is the stripped form of some line of the text. */
  function ExtractSections(text: string): (r: SectionMap)
    ensures forall e :: e in r.experience ==> CleanEntry(e) && exists line :: line in SplitLines(text) && e == Strip(line)
    ensures forall e :: e in r.education ==> CleanEntry(e) && exists line :: line in SplitLines(text) && e == Strip(line)
  {
    var lines := SplitLines(text);
    var kinds := KindsOf(lines);
    EntriesClean(lines, Experience);
    EntriesClean(lines, Education);
    SectionMap(Entries(kinds, lines, Experience), Entries(kinds, lines, Education))
  }

  /** `extract_experience_and_education` as the script writes it: a loop over the
      lines with `continue` after a header. It computes the same entries as the fold. */
  method ScanSections(text: string) returns (r: SectionMap)
    ensures r == ExtractSections(text)
  {
    var lines := SplitLines(text);
    ghost var kinds := KindsOf(lines);
    var experience: seq<string> := [];
    var education: seq<string> := [];
    var current := Idle;
    for i := 0 to |lines|
      invariant current == CursorAfter(kinds[..i])
      invariant experience == Entries(kinds[..i], lines[..i], Experience)
      invariant education == Entries(kinds[..i], lines[..i], Education)
    {
      var line := lines[i];
      var lineLower := Lower(Strip(line));
      assert kinds[i] == Classify(line);
      CursorStep(kinds, i);
      EntriesStep(kinds, lines, i, Experience);
      EntriesStep(kinds, lines, i, Education);
      if Contains(lineLower, "experience") {
        assert kinds[i] == Header(Experience);
        current := Active(Experience);
        continue;
      } else if Contains(lineLower, "education") {
        assert kinds[i] == Header(Education);
        current := Active(Education);
        continue;
      } else if Strip(line) == "" || ContainsAny(lineLower, ResetWords) {
        assert kinds[i] == Reset;
        current := Idle;
      } else {
        assert kinds[i] == Content;
      }
      if current.Active? {
        if current.section == Experience {
          experience := experience + [Strip(line)];
        } else {
          education := education + [Strip(line)];
        }
      }
    }
    WholePrefix(kinds);
    WholePrefix(lines);
    r := SectionMap(experience, education);
  }

  // ---------------------------------------------------------------------------
  // What gets stored
  // ---------------------------------------------------------------------------

  /** A stored entry: non-blank, already trimmed, and free of every trigger word. */
  predicate CleanEntry(e: string) {
    var lowered := Lower(e);
    && e != ""
    && Strip(e) == e
    && !Contains(lowered, "experience")
    && !Contains(lowered, "education")
    && !ContainsAny(lowered, ResetWords)
  }

  /** Reading one more line moves the cursor by one step. */
  lemma CursorStep(kinds: seq<LineKind>, i: int)
    requires 0 <= i < |kinds|
    ensures CursorAfter(kinds[..i + 1]) == Step(CursorAfter(kinds[..i]), kinds[i])
  {
    assert kinds[..i + 1][..i] == kinds[..i];
  }

  /** Reading one more line adds at most its trimmed form, and only when it is stored. */
  lemma EntriesStep(kinds: seq<LineKind>, lines: seq<string>, i: int, s: Section)
    requires |kinds| == |lines|
    requires 0 <= i < |lines|
    ensures Entries(kinds[..i + 1], lines[..i + 1], s)
            == Entries(kinds[..i], lines[..i], s) + (if StoredAt(kinds, i, s) then [Strip(lines[i])] else [])
  {
    assert kinds[..i + 1][..i] == kinds[..i];
    assert lines[..i + 1][..i] == lines[..i];
  }

  /** The entries after the last line: those before it, then the line if it is stored. */
  lemma EntriesLast(kinds: seq<LineKind>, lines: seq<string>, s: Section)
    requires |kinds| == |lines| > 0
    ensures Entries(kinds, lines, s)
            == Entries(kinds[..|lines| - 1], lines[..|lines| - 1], s)
               + (if StoredAt(kinds, |lines| - 1, s) then [Strip(lines[|lines| - 1])] else [])
  {
  }

  /** Whether a line is stored does not depend on the lines after it. */
  lemma StoredAtPrefix(kinds: seq<LineKind>, n: int, j: int, s: Section)
    requires 0 <= j < n <= |kinds|
    ensures StoredAt(kinds[..n], j, s) == StoredAt(kinds, j, s)
  {
    assert kinds[..n][..j] == kinds[..j];
  }

  /** The positions of the lines stored into section `s`, in reading order. */
  function StoredPositions(kinds: seq<LineKind>, s: Section): seq<nat> {
    if kinds == [] then []
    else
      var n := |kinds| - 1;
      StoredPositions(kinds[..n], s) + (if StoredAt(kinds, n, s) then [n] else [])
  }

  /** The stored positions are increasing, in range, and really stored; and every stored
      position is among them. */
  lemma {:induction false} StoredPositionsSound(kinds: seq<LineKind>, s: Section)
    ensures forall k :: 0 <= k < |StoredPositions(kinds, s)| ==>
              StoredPositions(kinds, s)[k] < |kinds| && StoredAt(kinds, StoredPositions(kinds, s)[k], s)
    ensures forall k, m :: 0 <= k < m < |StoredPositions(kinds, s)| ==>
              StoredPositions(kinds, s)[k] < StoredPositions(kinds, s)[m]
    ensures forall i :: 0 <= i < |kinds| && StoredAt(kinds, i, s) ==> i in StoredPositions(kinds, s)
    decreases |kinds|
  {
    if kinds != [] {
      var n := |kinds| - 1;
      var prev := StoredPositions(kinds[..n], s);
      StoredPositionsSound(kinds[..n], s);
      var pos := StoredPositions(kinds, s);
      assert pos == prev + (if StoredAt(kinds, n, s) then [n] else []);
      forall k | 0 <= k < |prev|
        ensures StoredAt(kinds, prev[k], s)
      {
        StoredAtPrefix(kinds, n, prev[k], s);
      }
      forall i | 0 <= i < n && StoredAt(kinds, i, s)
        ensures i in pos
      {
        StoredAtPrefix(kinds, n, i, s);
        assert i in prev;
      }
    }
  }

  /** Entry `k` is the trimmed line at stored position `k`. */
  lemma {:induction false} EntriesAtStoredPositions(kinds: seq<LineKind>, lines: seq<string>, s: Section)
    requires |kinds| == |lines|
    ensures |Entries(kinds, lines, s)| == |StoredPositions(kinds, s)|
    ensures forall k :: 0 <= k < |Entries(kinds, lines, s)| ==>
              StoredPositions(kinds, s)[k] < |lines|
              && Entries(kinds, lines, s)[k] == Strip(lines[StoredPositions(kinds, s)[k]])
    decreases |lines|
  {
    if lines != [] {
      var n := |lines| - 1;
      EntriesAtStoredPositions(kinds[..n], lines[..n], s);
      var before := Entries(kinds[..n], lines[..n], s);
      var prev := StoredPositions(kinds[..n], s);
      var stored := StoredAt(kinds, n, s);
      EntriesLast(kinds, lines, s);
      assert Entries(kinds, lines, s) == before + (if stored then [Strip(lines[n])] else []);
      assert StoredPositions(kinds, s) == prev + (if stored then [n] else []);
      forall k | 0 <= k < |before|
        ensures lines[..n][prev[k]] == lines[prev[k]]
      {
      }
    }
  }

  /** Every entry comes from a distinct content line read while its section was active,
      the entries keep the order of those lines, and each entry is its line trimmed. */
  lemma EntryOrigins(kinds: seq<LineKind>, lines: seq<string>, s: Section) returns (idx: seq<nat>)
    requires |kinds| == |lines|
    ensures |idx| == |Entries(kinds, lines, s)|
    ensures forall k :: 0 <= k < |idx| ==> idx[k] < |lines| && StoredAt(kinds, idx[k], s)
    ensures forall k :: 0 <= k < |idx| ==> Entries(kinds, lines, s)[k] == Strip(lines[idx[k]])
    ensures forall k, m :: 0 <= k < m < |idx| ==> idx[k] < idx[m]
    ensures forall i :: 0 <= i < |lines| && StoredAt(kinds, i, s) ==> i in idx
  {
    idx := StoredPositions(kinds, s);
    StoredPositionsSound(kinds, s);
    EntriesAtStoredPositions(kinds, lines, s);
  }

  /** A line that passes none of the scanner's tests is, stripped, a clean entry. */
  lemma ContentIsClean(line: string)
    requires Strip(line) != ""
    requires !Contains(Lower(Strip(line)), "experience") && !Contains(Lower(Strip(line)), "education")
    requires !ContainsAny(Lower(Strip(line)), ResetWords)
    ensures CleanEntry(Strip(line))
  {
    StripIdempotent(line);
  }

  /** Every entry of a section is clean and is the stripped form of one of the lines. */
  lemma EntriesClean(lines: seq<string>, s: Section)
    ensures var entries := Entries(KindsOf(lines), lines, s);
            forall e :: e in entries ==> CleanEntry(e) && exists line :: line in lines && e == Strip(line)
  {
    var kinds := KindsOf(lines);
    var idx := EntryOrigins(kinds, lines, s);
    var entries := Entries(kinds, lines, s);
    forall e | e in entries
      ensures CleanEntry(e)
      ensures exists line :: line in lines && e == Strip(line)
    {
      var k :| 0 <= k < |entries| && entries[k] == e;
      assert kinds[idx[k]] == Classify(lines[idx[k]]);
      assert lines[idx[k]] in lines;
    }
  }

  // ---------------------------------------------------------------------------
  // What the cursor is
  // ---------------------------------------------------------------------------

  /** The cursor a marker line (header or reset) leaves behind. */
  function MarkerCursor(k: LineKind): Cursor
    requires !k.Content?
  {
    if k.Header? then Active(k.section) else Idle
  }

  /** The cursor is decided by the last header or reset line: content lines after it
      do not move it. */
  lemma {:induction false} CursorFollowsLastMarker(kinds: seq<LineKind>, j: int)
    requires 0 <= j < |kinds|
    requires !kinds[j].Content?
    requires forall k :: j < k < |kinds| ==> kinds[k].Content?
    ensures CursorAfter(kinds) == MarkerCursor(kinds[j])
    decreases |kinds|
  {
    var n := |kinds| - 1;
    if j < n {
      CursorFollowsLastMarker(kinds[..n], j);
    }
  }

  /** With no header read yet, no section is active. */
  lemma {:induction false} CursorIdleBeforeHeader(kinds: seq<LineKind>)
    requires forall k :: 0 <= k < |kinds| ==> !kinds[k].Header?
    ensures CursorAfter(kinds) == Idle
    decreases |kinds|
  {
    if kinds != [] {
      CursorIdleBeforeHeader(kinds[..|kinds| - 1]);
    }
  }

  /** Lines before the first header contribute nothing to either section. */
  lemma DroppedBeforeFirstHeader(lines: seq<string>, i: int)
    requires 0 <= i < |lines|
    requires forall k :: 0 <= k < i ==> !Classify(lines[k]).Header?
    ensures forall s :: Entries(KindsOf(lines)[..i + 1], lines[..i + 1], s) == Entries(KindsOf(lines)[..i], lines[..i], s)
  {
    var kinds := KindsOf(lines);
    CursorIdleBeforeHeader(kinds[..i]);
    forall s
      ensures Entries(kinds[..i + 1], lines[..i + 1], s) == Entries(kinds[..i], lines[..i], s)
    {
      EntriesStep(kinds, lines, i, s);
    }
  }

  lemma {:induction false} CursorIdleAfterReset(kinds: seq<LineKind>, j: int)
    requires 0 <= j < |kinds|
    requires kinds[j] == Reset
    requires forall k :: j < k < |kinds| ==> !kinds[k].Header?
    ensures CursorAfter(kinds) == Idle
    decreases |kinds|
  {
    var n := |kinds| - 1;
    if j < n {
      CursorIdleAfterReset(kinds[..n], j);
    }
  }

  /** After a blank or reset line, lines contribute nothing until the next header. */
  lemma DroppedAfterReset(lines: seq<string>, j: int, i: int)
    requires 0 <= j < i < |lines|
    requires Classify(lines[j]) == Reset
    requires forall k :: j < k <= i ==> !Classify(lines[k]).Header?
    ensures forall s :: Entries(KindsOf(lines)[..i + 1], lines[..i + 1], s) == Entries(KindsOf(lines)[..i], lines[..i], s)
  {
    var kinds := KindsOf(lines);
    CursorIdleAfterReset(kinds[..i], j);
    forall s
      ensures Entries(kinds[..i + 1], lines[..i + 1], s) == Entries(kinds[..i], lines[..i], s)
    {
      EntriesStep(kinds, lines, i, s);
    }
  }

  /** A clean line read while section `s` is active is appended, stripped, to `s`, and
      the other section is left as it is. */
  lemma KeptWhileActive(lines: seq<string>, i: int, s: Section)
    requires 0 <= i < |lines|
    requires CleanEntry(Strip(lines[i]))
    requires CursorAfter(KindsOf(lines)[..i]) == Active(s)
    ensures Entries(KindsOf(lines)[..i + 1], lines[..i + 1], s)
            == Entries(KindsOf(lines)[..i], lines[..i], s) + [Strip(lines[i])]
    ensures forall t :: t != s ==> Entries(KindsOf(lines)[..i + 1], lines[..i + 1], t) == Entries(KindsOf(lines)[..i], lines[..i], t)
  {
    var kinds := KindsOf(lines);
    assert kinds[i] == Content;
    forall t
      ensures Entries(kinds[..i + 1], lines[..i + 1], t)
              == Entries(kinds[..i], lines[..i], t) + (if t == s then [Strip(lines[i])] else [])
    {
      EntriesStep(kinds, lines, i, t);
    }
  }

  /** Every clean line of the text read while section `s` is active ends up, stripped, in
      what the extractor returns for `s`. */
  lemma StoredLinesKept(text: string, s: Section)
    ensures var lines := SplitLines(text);
            forall i :: 0 <= i < |lines| && CleanEntry(Strip(lines[i])) && CursorAfter(KindsOf(lines)[..i]) == Active(s)
                        ==> Strip(lines[i]) in ExtractSections(text).Get(s)
  {
    var lines := SplitLines(text);
    var kinds := KindsOf(lines);
    var idx := EntryOrigins(kinds, lines, s);
    var entries := Entries(kinds, lines, s);
    assert ExtractSections(text).Get(s) == entries;
    forall i | 0 <= i < |lines| && CleanEntry(Strip(lines[i])) && CursorAfter(kinds[..i]) == Active(s)
      ensures Strip(lines[i]) in entries
    {
      assert kinds[i] == Classify(lines[i]);
      assert StoredAt(kinds, i, s);
      var k :| 0 <= k < |idx| && idx[k] == i;
      assert entries[k] == Strip(lines[i]);
    }
  }

  // ---------------------------------------------------------------------------
  // Trigger precedence
  // ---------------------------------------------------------------------------

  /** A line mentioning "experience" opens the experience section, whatever else it
      mentions; "education" is looked at before the reset words; a blank or reset line
      closes the section; and none of these lines is stored. */
  lemma TriggerPrecedence(lines: seq<string>, i: int)
    requires 0 <= i < |lines|
    ensures var lowered := Lower(Strip(lines[i]));
            Contains(lowered, "experience") ==> CursorAfter(KindsOf(lines)[..i + 1]) == Active(Experience)
    ensures var lowered := Lower(Strip(lines[i]));
            !Contains(lowered, "experience") && Contains(lowered, "education")
            ==> CursorAfter(KindsOf(lines)[..i + 1]) == Active(Education)
    ensures var lowered := Lower(Strip(lines[i]));
            !Contains(lowered, "experience") && !Contains(lowered, "education")
            && (Strip(lines[i]) == "" || ContainsAny(lowered, ResetWords))
            ==> CursorAfter(KindsOf(lines)[..i + 1]) == Idle
    ensures Classify(lines[i]) != Content
            ==> forall s :: Entries(KindsOf(lines)[..i + 1], lines[..i + 1], s) == Entries(KindsOf(lines)[..i], lines[..i], s)
  {
    var kinds := KindsOf(lines);
    CursorStep(kinds, i);
    forall s
      ensures Classify(lines[i]) != Content ==> Entries(kinds[..i + 1], lines[..i + 1], s) == Entries(kinds[..i], lines[..i], s)
    {
      EntriesStep(kinds, lines, i, s);
    }
  }
}
