/**
 The header fields of the resume script: the name and role taken from the first
 two lines, and the contact details picked out of the lines by an ordered
 if/elif classifier (email, then phone, then GitHub link).
 */
module Fields {
  import opened Text

  const DefaultName: string := "Your Name"
  const DefaultRole: string := "Your Role"

  datatype NameRole = NameRole(name: string, role: string)

  /** The text of `s` up to its first '\n' (all of it when there is none). */
  function FirstLine(s: string): (r: string)
    ensures '\n' !in r
  {
    s[..IndexOf(s, '\n')]
  }

  /** `extract_name_role`: split the stripped text on "\n" and take the first two pieces,
      each stripped. `split` always yields at least one piece, so the name default is never
      used: the name is the first line of the stripped text, and neither field holds a break. */
  function ExtractNameRole(text: string): (r: NameRole)
    ensures r.name == Strip(FirstLine(Strip(text)))
    ensures '\n' !in r.name && '\n' !in r.role
  {
    var lines := Split(Strip(text), '\n');
    StripKeepsNoNewChar(lines[0], '\n');
    StripKeepsNoNewChar(if |lines| > 1 then lines[1] else DefaultRole, '\n');
    PickNameRole(lines)
  }

  /** The first two pieces (or the defaults where they are missing), each stripped. */
  function PickNameRole(lines: seq<string>): NameRole {
    var name := if |lines| > 0 then lines[0] else DefaultName;
    var role := if |lines| > 1 then lines[1] else DefaultRole;
    NameRole(Strip(name), Strip(role))
  }

  /** Without a line break in the stripped text, the name is all of it and the role is the default. */
  lemma SingleLineNameRole(text: string)
    requires '\n' !in Strip(text)
    ensures ExtractNameRole(text) == NameRole(Strip(text), DefaultRole)
  {
    var t := Strip(text);
    var parts := Split(t, '\n');
    assert IndexOf(t, '\n') == |t|;
    WholePrefix(t);
    assert parts[0] == t;
    StripIdempotent(text);
  }

  /** With a line break in the stripped text, the role is the line after the first break, stripped. */
  lemma MultiLineRole(text: string)
    requires '\n' in Strip(text)
    ensures var t := Strip(text);
            ExtractNameRole(text).role == Strip(FirstLine(t[IndexOf(t, '\n') + 1..]))
  {
    SecondPiece(Strip(text));
  }

  /** With a line break, the second piece of the split is the first line after it. */
  lemma SecondPiece(t: string)
    requires '\n' in t
    ensures |Split(t, '\n')| > 1
    ensures Split(t, '\n')[1] == FirstLine(t[IndexOf(t, '\n') + 1..])
  {
    var rest := t[IndexOf(t, '\n') + 1..];
    SplitStep(t, '\n');
    assert Split(t, '\n')[1] == Split(rest, '\n')[0];
  }

  /** Stripping does not introduce a character. */
  lemma StripKeepsNoNewChar(s: string, c: char)
    requires c !in s
    ensures c !in Strip(s)
  {
    StripIsInfix(s);
    var i := |s| - |TrimStart(s)|;
    var r := Strip(s);
    forall k | 0 <= k < |r|
      ensures r[k] != c
    {
      assert r[k] == s[i..i + |r|][k];
    }
  }

  /** Empty or all-blank text gives an empty name (not the default) and the default role. */
  lemma BlankTextNameRole(text: string)
    requires forall k :: 0 <= k < |text| ==> IsSpace(text[k])
    ensures ExtractNameRole(text) == NameRole("", DefaultRole)
  {
    assert Strip(text) == "" by {
      StripEmptyIffBlank(text);
    }
    assert PickNameRole(Split("", '\n')) == NameRole("", DefaultRole) by {
      assert Split("", '\n') == [""];
      StripUnchanged(DefaultRole);
    }
  }

  /** A string that neither starts nor ends with whitespace is its own strip. */
  lemma StripUnchanged(s: string)
    requires s == [] || (!IsSpace(s[0]) && !IsSpace(s[|s| - 1]))
    ensures Strip(s) == s
  {
  }

  /** "Jane Doe\nEngineer" and every text shaped like it: two trimmed, non-empty lines give
      exactly the name and the role. */
  lemma TwoLineNameRole(a: string, b: string)
    requires a != [] && b != []
    requires '\n' !in a && '\n' !in b
    requires !IsSpace(a[0]) && !IsSpace(a[|a| - 1]) && !IsSpace(b[0]) && !IsSpace(b[|b| - 1])
    ensures ExtractNameRole(a + ['\n'] + b) == NameRole(a, b)
  {
    var t := a + ['\n'] + b;
    assert t[0] == a[0] && t[|t| - 1] == b[|b| - 1];
    StripUnchanged(t);
    StripUnchanged(a);
    StripUnchanged(b);
    SplitJoin([a, b], '\n');
    JoinCons(a, [b], ['\n']);
  }

  // ---------------------------------------------------------------------------
  // Contact details
  // ---------------------------------------------------------------------------

  datatype Contact = Contact(email: string, phone: string, github: string)

  /** Which field a line fills; the first matching rule decides. */
  datatype ContactKind = EmailLine | PhoneLine | GithubLine | Unmatched

  /** The if/elif chain of `extract_contact`: an '@' makes an email; otherwise a digit and a
      stripped length over 8 make a phone; otherwise "github.com" makes a profile link. A line
      that fills a field is never blank once stripped. */
  function ClassifyContact(line: string): (k: ContactKind)
    ensures k == Unmatched <==> '@' !in line && !(HasDigit(line) && |Strip(line)| > 8) && !Contains(line, "github.com")
    ensures k != Unmatched ==> Strip(line) != ""
  {
    if '@' in line then ClassifiedNotBlank(line); EmailLine
    else if HasDigit(line) && |Strip(line)| > 8 then PhoneLine
    else if Contains(line, "github.com") then ClassifiedNotBlank(line); GithubLine
    else Unmatched
  }

  /** The field a kind of line fills. */
  function Field(c: Contact, k: ContactKind): string
    requires k != Unmatched
  {
    match k
    case EmailLine => c.email
    case PhoneLine => c.phone
    case GithubLine => c.github
  }

  /** The kind of every line, in order. */
  function ContactKindsOf(lines: seq<string>): (kinds: seq<ContactKind>)
    ensures |kinds| == |lines|
    ensures forall i :: 0 <= i < |lines| ==> kinds[i] == ClassifyContact(lines[i])
  {
    seq(|lines|, i requires 0 <= i < |lines| => ClassifyContact(lines[i]))
  }

  /** One iteration of the loop: the line, stripped, overwrites the field of its kind. */
  function Record(c: Contact, kind: ContactKind, line: string): Contact {
    match kind
    case EmailLine => c.(email := Strip(line))
    case PhoneLine => c.(phone := Strip(line))
    case GithubLine => c.(github := Strip(line))
    case Unmatched => c
  }

  /** The loop over `lines` (of the given kinds), starting from three empty fields. */
  function ScanContact(kinds: seq<ContactKind>, lines: seq<string>): Contact
    requires |kinds| == |lines|
  {
    if lines == [] then Contact("", "", "")
    else
      var n := |lines| - 1;
      Record(ScanContact(kinds[..n], lines[..n]), kinds[n], lines[n])
  }

  /** `extract_contact`: each field holds the last line classified into it, stripped. */
  function ExtractContact(text: string): (c: Contact)
    ensures var lines := SplitLines(text);
            c == Contact(LastLine(lines, EmailLine), LastLine(lines, PhoneLine), LastLine(lines, GithubLine))
  {
    var lines := SplitLines(text);
    var kinds := ContactKindsOf(lines);
    ContactLastMatch(kinds, lines, EmailLine);
    ContactLastMatch(kinds, lines, PhoneLine);
    ContactLastMatch(kinds, lines, GithubLine);
    ScanContact(kinds, lines)
  }

  /** The stripped form of the last line of kind `k`, searched from the end; "" when there
      is none. */
  function LastLine(lines: seq<string>, k: ContactKind): string
    requires k != Unmatched
  {
    var i := LastOf(ContactKindsOf(lines), k);
    if i < 0 then "" else Strip(lines[i])
  }

  /** The position of the last line of kind `k`, or -1 when there is none. */
  function LastOf(kinds: seq<ContactKind>, k: ContactKind): (i: int)
    ensures -1 <= i < |kinds|
    ensures i >= 0 ==> kinds[i] == k
    ensures i < 0 ==> forall j :: 0 <= j < |kinds| ==> kinds[j] != k
    ensures forall j :: i < j < |kinds| ==> kinds[j] != k
  {
    if kinds == [] then -1
    else if kinds[|kinds| - 1] == k then |kinds| - 1
    else LastOf(kinds[..|kinds| - 1], k)
  }

  /** One iteration touches only the field of the line's kind. */
  lemma RecordField(c: Contact, kind: ContactKind, line: string, k: ContactKind)
    requires k != Unmatched
    ensures Field(Record(c, kind, line), k) == if kind == k then Strip(line) else Field(c, k)
  {
  }

  /** Each field is the stripped form of the last line classified into it, and empty when
      there is no such line. */
  lemma {:induction false} ContactLastMatch(kinds: seq<ContactKind>, lines: seq<string>, k: ContactKind)
    requires |kinds| == |lines|
    requires k != Unmatched
    ensures var i := LastOf(kinds, k);
            Field(ScanContact(kinds, lines), k) == if i < 0 then "" else Strip(lines[i])
    decreases |lines|
  {
    if lines != [] {
      var n := |lines| - 1;
      ContactLastMatch(kinds[..n], lines[..n], k);
      RecordField(ScanContact(kinds[..n], lines[..n]), kinds[n], lines[n], k);
      if kinds[n] != k {
        var i := LastOf(kinds[..n], k);
        assert LastOf(kinds, k) == i;
        if i >= 0 {
          assert lines[..n][i] == lines[i];
        }
      }
    }
  }

  /** A line holding an '@' or "github.com" is not blank once stripped. */
  lemma ClassifiedNotBlank(line: string)
    requires '@' in line || Contains(line, "github.com")
    ensures Strip(line) != ""
  {
    StripKeeps(line);
    if '@' in line {
      var k :| 0 <= k < |line| && line[k] == '@';
      assert line[k] in Strip(line);
    } else {
      ContainsIffOccurs(line, "github.com");
      var i :| OccursAt(line, "github.com", i);
      assert line[i] == line[i..i + 10][0] == 'g';
      assert line[i] in Strip(line);
    }
  }

  /** A field is empty exactly when no line of the text was classified into it. */
  lemma ContactFieldEmptyIff(text: string, k: ContactKind)
    requires k != Unmatched
    ensures Field(ExtractContact(text), k) == ""
            <==> forall line :: line in SplitLines(text) ==> ClassifyContact(line) != k
  {
    var lines := SplitLines(text);
    var kinds := ContactKindsOf(lines);
    ContactLastMatch(kinds, lines, k);
    var i := LastOf(kinds, k);
    if i >= 0 {
      assert kinds[i] == ClassifyContact(lines[i]);
      assert lines[i] in lines;
    } else {
      forall line | line in lines
        ensures ClassifyContact(line) != k
      {
        var i :| 0 <= i < |lines| && lines[i] == line;
        assert kinds[i] == ClassifyContact(line);
      }
    }
  }

  /** A non-empty field is the stripped form of some line classified into it. */
  lemma FieldSource(text: string, k: ContactKind)
    requires k != Unmatched
    ensures Field(ExtractContact(text), k) != ""
            ==> exists line :: line in SplitLines(text) && Field(ExtractContact(text), k) == Strip(line)
                               && ClassifyContact(line) == k
  {
    var lines := SplitLines(text);
    var kinds := ContactKindsOf(lines);
    ContactLastMatch(kinds, lines, k);
    var i := LastOf(kinds, k);
    if i >= 0 {
      assert lines[i] in lines;
    }
  }

  /** An email comes from a line with an '@'. */
  lemma EmailSource(text: string)
    ensures var c := ExtractContact(text);
            c.email != "" ==> exists line :: line in SplitLines(text) && c.email == Strip(line) && '@' in line
  {
    FieldSource(text, EmailLine);
  }

  /** A phone comes from a line without '@' that has a digit and more than 8 characters once
      stripped. */
  lemma PhoneSource(text: string)
    ensures var c := ExtractContact(text);
            c.phone != "" ==> exists line :: line in SplitLines(text) && c.phone == Strip(line)
                                              && '@' !in line && HasDigit(line) && |Strip(line)| > 8
  {
    FieldSource(text, PhoneLine);
  }

  /** A profile link comes from a "github.com" line that is neither an email nor a phone. */
  lemma GithubSource(text: string)
    ensures var c := ExtractContact(text);
            c.github != "" ==> exists line :: line in SplitLines(text) && c.github == Strip(line)
                                               && '@' !in line && Contains(line, "github.com")
                                               && !(HasDigit(line) && |Strip(line)| > 8)
  {
    FieldSource(text, GithubLine);
  }
}
