/**
 The string primitives the resume script relies on, restricted to ASCII:
 `str.strip`, `str.lower`, `str.isdigit`, `str.title`, the substring test
 `w in s`, `str.split("\n")`, `str.splitlines` (with '\n' as the only line
 boundary) and `str.join`.
 */
module Text {

  /** Python's `str.isspace` on ASCII: space, \t \n \v \f \r and the separators \x1c-\x1f. */
  predicate IsSpace(c: char) {
    c == ' ' || ('\t' <= c <= '\r') || ('\U{1C}' <= c <= '\U{1F}')
  }

  predicate IsDigit(c: char) {
    '0' <= c <= '9'
  }

  predicate IsUpper(c: char) {
    'A' <= c <= 'Z'
  }

  predicate IsLower(c: char) {
    'a' <= c <= 'z'
  }

  predicate IsLetter(c: char) {
    IsUpper(c) || IsLower(c)
  }

  /** Some character of `s` is a digit: `any(c.isdigit() for c in s)`. */
  predicate HasDigit(s: string) {
    exists k :: 0 <= k < |s| && IsDigit(s[k])
  }

  // ---------------------------------------------------------------------------
  // strip
  // ---------------------------------------------------------------------------

  /** Drops leading whitespace. */
  function TrimStart(s: string): (r: string)
    ensures |r| <= |s| && r == s[|s| - |r|..]
    ensures r == [] || !IsSpace(r[0])
    ensures forall k :: 0 <= k < |s| - |r| ==> IsSpace(s[k])
  {
    if s != [] && IsSpace(s[0]) then TrimStart(s[1..]) else s
  }

  /** Drops trailing whitespace. */
  function TrimEnd(s: string): (r: string)
    ensures |r| <= |s| && r == s[..|r|]
    ensures r == [] || !IsSpace(r[|r| - 1])
    ensures forall k :: |r| <= k < |s| ==> IsSpace(s[k])
  {
    if s != [] && IsSpace(s[|s| - 1]) then TrimEnd(s[..|s| - 1]) else s
  }

  /** Python's `str.strip()`: `s` without the whitespace at either end. */
  function Strip(s: string): (r: string)
    ensures |r| <= |s|
    ensures r == [] || (!IsSpace(r[0]) && !IsSpace(r[|r| - 1]))
  {
    TrimEnd(TrimStart(s))
  }

  /** The stripped string is the infix of `s` between two runs of whitespace. */
  lemma StripIsInfix(s: string)
    ensures var i := |s| - |TrimStart(s)|;
            && i + |Strip(s)| <= |s|
            && Strip(s) == s[i..i + |Strip(s)|]
            && (forall k :: 0 <= k < i ==> IsSpace(s[k]))
            && (forall k :: i + |Strip(s)| <= k < |s| ==> IsSpace(s[k]))
  {
    var t := TrimStart(s);
    var i := |s| - |t|;
    var r := TrimEnd(t);
    assert t == s[i..];
    assert r == t[..|r|];
    assert r == s[i..i + |r|];
    forall k | i + |r| <= k < |s|
      ensures IsSpace(s[k])
    {
      assert s[k] == t[k - i];
    }
  }

  /** Stripping keeps every non-space character. */
  lemma StripKeepsAt(s: string, k: int)
    requires 0 <= k < |s| && !IsSpace(s[k])
    ensures s[k] in Strip(s)
  {
    var r := Strip(s);
    var i := |s| - |TrimStart(s)|;
    StripIsInfix(s);
    assert i <= k < i + |r|;
    assert r[k - i] == s[i..i + |r|][k - i];
  }

  /** Stripping keeps every non-space character. */
  lemma StripKeeps(s: string)
    ensures forall k :: 0 <= k < |s| && !IsSpace(s[k]) ==> s[k] in Strip(s)
  {
    forall k | 0 <= k < |s| && !IsSpace(s[k])
      ensures s[k] in Strip(s)
    {
      StripKeepsAt(s, k);
    }
  }

  /** A string is stripped to nothing exactly when it is all whitespace. */
  lemma StripEmptyIffBlank(s: string)
    ensures Strip(s) == [] <==> forall k :: 0 <= k < |s| ==> IsSpace(s[k])
  {
    StripKeeps(s);
    if Strip(s) == [] {
      forall k | 0 <= k < |s|
        ensures IsSpace(s[k])
      {
        assert s[k] in s;
      }
    }
  }

  /** Stripping twice is stripping once. */
  lemma StripIdempotent(s: string)
    ensures Strip(Strip(s)) == Strip(s)
  {
    var r := Strip(s);
    assert TrimStart(r) == r;
    assert TrimEnd(r) == r;
  }

  // ---------------------------------------------------------------------------
  // lower, title
  // ---------------------------------------------------------------------------

  function LowerChar(c: char): (d: char)
    ensures !IsUpper(d)
    ensures IsLetter(c) <==> IsLower(d)
  {
    if IsUpper(c) then (c as int - 'A' as int + 'a' as int) as char else c
  }

  function UpperChar(c: char): (d: char)
    ensures !IsLower(d)
    ensures IsLetter(c) <==> IsUpper(d)
  {
    if IsLower(c) then (c as int - 'a' as int + 'A' as int) as char else c
  }

  /** Python's `str.lower()` on ASCII. */
  function Lower(s: string): (r: string)
    ensures |r| == |s|
    ensures forall k :: 0 <= k < |r| ==> !IsUpper(r[k])
  {
    seq(|s|, k requires 0 <= k < |s| => LowerChar(s[k]))
  }

  /** Python's `str.title()` on ASCII, scanning with "the previous character was a letter".
      Only the case of letters changes; a letter is raised exactly when it starts a word. */
  function TitleFrom(s: string, afterLetter: bool): (r: string)
    ensures |r| == |s|
    ensures forall k :: 0 <= k < |s| && !IsLetter(s[k]) ==> r[k] == s[k]
    ensures forall k :: 0 <= k < |s| ==> LowerChar(r[k]) == LowerChar(s[k])
    ensures forall k :: 0 <= k < |s| && IsLetter(s[k]) ==>
              (IsUpper(r[k]) <==> if k == 0 then !afterLetter else !IsLetter(s[k - 1]))
  {
    if s == [] then []
    else
      var c := s[0];
      var d := if !IsLetter(c) then c else if afterLetter then LowerChar(c) else UpperChar(c);
      var rest := TitleFrom(s[1..], IsLetter(c));
      assert forall k :: 1 <= k < |s| ==> s[1..][k - 1] == s[k] && ([d] + rest)[k] == rest[k - 1];
      [d] + rest
  }

  /** `str.title()`: the letters that start a word are raised and the others lowered. */
  function Title(s: string): (r: string)
    ensures |r| == |s|
    ensures forall k :: 0 <= k < |s| && !IsLetter(s[k]) ==> r[k] == s[k]
    ensures Lower(r) == Lower(s)
    ensures forall k :: 0 <= k < |s| && IsLetter(s[k]) ==> (IsUpper(r[k]) <==> k == 0 || !IsLetter(s[k - 1]))
  {
    TitleFrom(s, false)
  }

  /** In the middle of a word, lower-case letters are left alone. */
  lemma {:induction false} TitleFromInsideWord(w: string)
    requires forall k :: 0 <= k < |w| ==> IsLower(w[k])
    ensures TitleFrom(w, true) == w
    decreases |w|
  {
    if w != [] {
      TitleFromInsideWord(w[1..]);
      assert IsLetter(w[0]);
    }
  }

  /** A lower-case word comes out of `title()` with only its first letter raised,
      and lowering it again gives the word back. */
  lemma TitleOfLowerWord(w: string)
    requires w != []
    requires forall k :: 0 <= k < |w| ==> IsLower(w[k])
    ensures Title(w) == [UpperChar(w[0])] + w[1..]
    ensures Lower(Title(w)) == w
  {
    TitleFromInsideWord(w[1..]);
    assert IsLetter(w[0]);
    var t := Title(w);
    assert t == [UpperChar(w[0])] + w[1..];
    forall k | 0 <= k < |w|
      ensures Lower(t)[k] == w[k]
    {
      if k == 0 {
        assert LowerChar(UpperChar(w[0])) == w[0];
      }
    }
  }

  // ---------------------------------------------------------------------------
  // substring test
  // ---------------------------------------------------------------------------

  /** Python's `w in s` on strings, scanned left to right. */
  function Contains(s: string, w: string): bool
    decreases |s|
  {
    |w| <= |s| && (s[..|w|] == w || Contains(s[1..], w))
  }

  /** `w` sits in `s` starting at position `i`. */
  predicate OccursAt(s: string, w: string, i: int) {
    0 <= i && i + |w| <= |s| && s[i..i + |w|] == w
  }

  /** `Contains` is exactly "w occurs at some position of s". */
  lemma {:induction false} ContainsIffOccurs(s: string, w: string)
    ensures Contains(s, w) <==> exists i :: OccursAt(s, w, i)
    decreases |s|
  {
    if |w| <= |s| && s[..|w|] != w {
      ContainsIffOccurs(s[1..], w);
      if Contains(s[1..], w) {
        var i :| OccursAt(s[1..], w, i);
        assert s[1..][i..i + |w|] == s[i + 1..i + 1 + |w|];
        assert OccursAt(s, w, i + 1);
      }
      if exists i :: OccursAt(s, w, i) {
        var i :| OccursAt(s, w, i);
        assert i != 0;
        assert s[1..][i - 1..i - 1 + |w|] == s[i..i + |w|];
        assert OccursAt(s[1..], w, i - 1);
      }
    } else if |w| <= |s| {
      assert OccursAt(s, w, 0);
    }
  }

  /** A word contained in an infix of a string is contained in the string. */
  lemma ContainsInInfix(s: string, i: int, j: int, w: string)
    requires 0 <= i <= j <= |s|
    requires Contains(s[i..j], w)
    ensures Contains(s, w)
  {
    ContainsIffOccurs(s[i..j], w);
    var p :| OccursAt(s[i..j], w, p);
    assert p + |w| <= j - i;
    forall k | 0 <= k < |w|
      ensures s[i + p..i + p + |w|][k] == w[k]
    {
      assert s[i..j][p..p + |w|][k] == w[k];
    }
    assert OccursAt(s, w, i + p);
    ContainsIffOccurs(s, w);
  }

  /** Every string contains itself. */
  lemma ContainsSelf(w: string)
    ensures Contains(w, w)
  {
    assert w[..|w|] == w;
  }

  /** A word contained in a part of a string is contained in the whole. */
  lemma ContainsInMiddle(a: string, b: string, c: string, w: string)
    requires Contains(b, w)
    ensures Contains(a + b + c, w)
  {
    var s := a + b + c;
    assert s[|a|..|a| + |b|] == b;
    ContainsInInfix(s, |a|, |a| + |b|, w);
  }

  /** Some word of `ws` occurs in `s`: `any(w in s for w in ws)`. */
  function ContainsAny(s: string, ws: seq<string>): (b: bool)
    ensures b <==> exists k :: 0 <= k < |ws| && Contains(s, ws[k])
  {
    |ws| > 0 && (Contains(s, ws[0]) || ContainsAny(s, ws[1..]))
  }

  // ---------------------------------------------------------------------------
  // split and join
  // ---------------------------------------------------------------------------

  /** Position of the first `c` in `s`, or `|s|` when there is none. */
  function IndexOf(s: string, c: char): (i: nat)
    ensures i <= |s|
    ensures c !in s[..i]
    ensures i < |s| ==> s[i] == c
    ensures i == |s| <==> c !in s
  {
    if s == [] then 0
    else if s[0] == c then 0
    else
      var j := IndexOf(s[1..], c);
      assert s[..1 + j] == [s[0]] + s[1..][..j];
      1 + j
  }

  /** Python's `s.split(sep)` for a one-character separator. */
  function Split(s: string, sep: char): (parts: seq<string>)
    ensures |parts| >= 1
    ensures forall k :: 0 <= k < |parts| ==> sep !in parts[k]
    ensures parts[0] == s[..IndexOf(s, sep)]
    ensures |parts| == 1 <==> sep !in s
    decreases |s|
  {
    var i := IndexOf(s, sep);
    if i == |s| then [s] else [s[..i]] + Split(s[i + 1..], sep)
  }

  /** Python's `sep.join(parts)`. */
  function Join(parts: seq<string>, sep: string): string
  {
    if |parts| == 0 then ""
    else if |parts| == 1 then parts[0]
    else parts[0] + sep + Join(parts[1..], sep)
  }

  /** Each part appears in the joined string. */
  lemma {:induction false} JoinHasPart(parts: seq<string>, sep: string, i: int)
    requires 0 <= i < |parts|
    ensures Contains(Join(parts, sep), parts[i])
    decreases |parts|
  {
    if |parts| == 1 {
      ContainsSelf(parts[0]);
    } else if i == 0 {
      ContainsSelf(parts[0]);
      ContainsInMiddle([], parts[0], sep + Join(parts[1..], sep), parts[0]);
      assert [] + parts[0] + (sep + Join(parts[1..], sep)) == Join(parts, sep);
    } else {
      JoinHasPart(parts[1..], sep, i - 1);
      ContainsInMiddle(parts[0] + sep, Join(parts[1..], sep), [], parts[i]);
      assert parts[0] + sep + Join(parts[1..], sep) + [] == Join(parts, sep);
    }
  }

  /** Joining the pieces of a split with the separator gives the string back. */
  lemma {:induction false} JoinSplit(s: string, sep: char)
    ensures Join(Split(s, sep), [sep]) == s
    decreases |s|
  {
    var i := IndexOf(s, sep);
    if i < |s| {
      var tail := s[i + 1..];
      SplitStep(s, sep);
      JoinSplit(tail, sep);
      JoinCons(s[..i], Split(tail, sep), [sep]);
      Around(s, i);
    }
  }

  /** Taking all of a sequence is the sequence. */
  lemma WholePrefix<T>(s: seq<T>)
    ensures s[..|s|] == s
  {
  }

  /** A string is the part before position `i`, the character at `i`, and the part after. */
  lemma Around(s: string, i: int)
    requires 0 <= i < |s|
    ensures s == s[..i] + [s[i]] + s[i + 1..]
    ensures i == |s| - 1 ==> s == s[..i] + [s[i]]
  {
  }

  /** Splitting at the first separator: the head piece, then the split of the rest. */
  lemma SplitStep(s: string, sep: char)
    requires sep in s
    ensures Split(s, sep) == [s[..IndexOf(s, sep)]] + Split(s[IndexOf(s, sep) + 1..], sep)
  {
  }

  /** Joining a non-empty list after a first piece puts one separator between them. */
  lemma JoinCons(head: string, rest: seq<string>, sep: string)
    requires |rest| >= 1
    ensures Join([head] + rest, sep) == head + sep + Join(rest, sep)
  {
    assert ([head] + rest)[1..] == rest;
  }

  lemma {:induction false} IndexOfAfterFree(a: string, c: char, b: string)
    requires c !in a
    ensures IndexOf(a + [c] + b, c) == |a|
    decreases |a|
  {
    if a != [] {
      IndexOfAfterFree(a[1..], c, b);
      assert (a + [c] + b)[1..] == a[1..] + [c] + b;
    }
  }

  /** Splitting a join of separator-free pieces gives the pieces back. */
  lemma {:induction false} SplitJoin(parts: seq<string>, sep: char)
    requires |parts| >= 1
    requires forall k :: 0 <= k < |parts| ==> sep !in parts[k]
    ensures Split(Join(parts, [sep]), sep) == parts
    decreases |parts|
  {
    if |parts| > 1 {
      var p := parts[0];
      var rest := parts[1..];
      var tail := Join(rest, [sep]);
      var s := p + [sep] + tail;
      assert parts == [p] + rest;
      JoinCons(p, rest, [sep]);
      IndexOfAfterFree(p, sep, tail);
      assert s[..|p|] == p;
      assert s[|p| + 1..] == tail;
      SplitJoin(rest, sep);
      assert Split(s, sep) == [p] + Split(tail, sep);
    } else {
      assert parts == [parts[0]];
      assert IndexOf(parts[0], sep) == |parts[0]|;
    }
  }

  /** Python's `s.splitlines()` with '\n' as the only line boundary: the empty string
      has no lines, and a final '\n' ends the last line rather than starting a new one. */
  function SplitLines(s: string): (lines: seq<string>)
    ensures forall k :: 0 <= k < |lines| ==> '\n' !in lines[k]
    ensures lines == [] <==> s == []
  {
    if s == [] then []
    else if s[|s| - 1] == '\n' then Split(s[..|s| - 1], '\n')
    else Split(s, '\n')
  }

  /** The lines joined with '\n', plus the final newline if there was one, give the text back. */
  lemma SplitLinesRoundTrip(s: string)
    requires s != []
    ensures Join(SplitLines(s), ['\n']) + (if s[|s| - 1] == '\n' then ['\n'] else []) == s
  {
    var n := |s| - 1;
    if s[n] == '\n' {
      JoinSplit(s[..n], '\n');
      Around(s, n);
    } else {
      JoinSplit(s, '\n');
    }
  }

  /** `c * n` in Python: `n` copies of `c`. */
  function Repeat(c: char, n: nat): (r: string)
    ensures |r| == n
    ensures forall k :: 0 <= k < n ==> r[k] == c
  {
    seq(n, _ => c)
  }
}
