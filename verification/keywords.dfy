/**
 The keyword ranker of `create_resume`: the job description is tokenized by an
 outside NLP library, the alphabetic non-stop tokens are lower-cased, and the
 distinct words are sorted. The tokens arrive here as plain data.
 */
module Keywords {
  import opened Text

  /** A token as the tokenizer reports it: its text and two of its flags. */
  datatype Token = Token(text: string, isAlpha: bool, isStop: bool)

  /** The filter of the list comprehension: alphabetic and not a stop word. */
  predicate Kept(t: Token) {
    t.isAlpha && !t.isStop
  }

  /** The list comprehension: the lowered text of every kept token, in token order. */
  function Candidates(tokens: seq<Token>): (ws: seq<string>)
    ensures |ws| <= |tokens|
    ensures forall w :: w in ws <==> exists i :: 0 <= i < |tokens| && Kept(tokens[i]) && Lower(tokens[i].text) == w
  {
    if tokens == [] then []
    else
      var rest := Candidates(tokens[1..]);
      assert forall i :: 1 <= i < |tokens| ==> tokens[1..][i - 1] == tokens[i];
      (if Kept(tokens[0]) then [Lower(tokens[0].text)] else []) + rest
  }

  // ---------------------------------------------------------------------------
  // Python's string order: code point by code point, a proper prefix first
  // ---------------------------------------------------------------------------

  function Less(a: string, b: string): bool {
    if b == [] then false
    else if a == [] then true
    else if a[0] != b[0] then a[0] < b[0]
    else Less(a[1..], b[1..])
  }

  lemma {:induction false} LessIrreflexive(a: string)
    ensures !Less(a, a)
  {
    if a != [] {
      LessIrreflexive(a[1..]);
    }
  }

  lemma {:induction false} LessAsymmetric(a: string, b: string)
    requires Less(a, b)
    ensures !Less(b, a)
  {
    if a != [] && b != [] && a[0] == b[0] {
      LessAsymmetric(a[1..], b[1..]);
    }
  }

  lemma {:induction false} LessTransitive(a: string, b: string, c: string)
    requires Less(a, b) && Less(b, c)
    ensures Less(a, c)
  {
    if a != [] && a[0] == b[0] && b[0] == c[0] {
      LessTransitive(a[1..], b[1..], c[1..]);
    }
  }

  lemma {:induction false} LessTotal(a: string, b: string)
    ensures a == b || Less(a, b) || Less(b, a)
  {
    if a != [] && b != [] && a[0] == b[0] {
      LessTotal(a[1..], b[1..]);
      if a[1..] == b[1..] {
        assert a == [a[0]] + a[1..] && b == [b[0]] + b[1..];
      }
    }
  }

  /** "Not after" is transitive as well. */
  lemma NotLessTransitive(a: string, b: string, c: string)
    requires !Less(b, a) && !Less(c, b)
    ensures !Less(c, a)
  {
    LessTotal(a, b);
    if Less(c, a) && a != b {
      LessTransitive(c, a, b);
    }
  }

  /** Sorted with no two equal elements. */
  predicate StrictlySorted(s: seq<string>) {
    forall i, j :: 0 <= i < j < |s| ==> Less(s[i], s[j])
  }

  /** Sorted, duplicates allowed. */
  predicate Sorted(s: seq<string>) {
    forall i, j :: 0 <= i < j < |s| ==> !Less(s[j], s[i])
  }

  lemma StrictlySortedIsSorted(s: seq<string>)
    requires StrictlySorted(s)
    ensures Sorted(s)
  {
    forall i, j | 0 <= i < j < |s|
      ensures !Less(s[j], s[i])
    {
      LessAsymmetric(s[i], s[j]);
    }
  }

  // ---------------------------------------------------------------------------
  // sorted(set(ws))
  // ---------------------------------------------------------------------------

  /** Putting a word before a strictly sorted sequence whose head is after it. */
  lemma StrictCons(w: string, s: seq<string>)
    requires StrictlySorted(s)
    requires s != [] ==> Less(w, s[0])
    ensures StrictlySorted([w] + s)
  {
    var r := [w] + s;
    forall i, j | 0 <= i < j < |r|
      ensures Less(r[i], r[j])
    {
      if i == 0 && j > 1 {
        LessTransitive(w, s[0], s[j - 1]);
      }
    }
  }

  /** Adds `w` to a strictly sorted sequence unless it is already there. */
  function InsertNew(w: string, s: seq<string>): (r: seq<string>)
    requires StrictlySorted(s)
    ensures StrictlySorted(r)
    ensures forall x :: x in r <==> x == w || x in s
  {
    if s == [] then [w]
    else if w == s[0] then s
    else if Less(w, s[0]) then StrictCons(w, s); [w] + s
    else
      var rest := InsertNew(w, s[1..]);
      LessTotal(w, s[0]);
      assert rest[0] == w || rest[0] in s[1..];
      StrictCons(s[0], rest);
      assert s == [s[0]] + s[1..];
      [s[0]] + rest
  }

  /** `sorted(set(ws))`: the distinct words of `ws` in increasing order. */
  function SortedSet(ws: seq<string>): (r: seq<string>)
    ensures StrictlySorted(r)
    ensures forall x :: x in r <==> x in ws
  {
    if ws == [] then []
    else
      assert ws == [ws[0]] + ws[1..];
      InsertNew(ws[0], SortedSet(ws[1..]))
  }

  /** The keyword list of lines 78-79. */
  function KeywordList(tokens: seq<Token>): (kws: seq<string>)
    ensures StrictlySorted(kws)
    ensures forall w :: w in kws <==> exists i :: 0 <= i < |tokens| && Kept(tokens[i]) && Lower(tokens[i].text) == w
  {
    SortedSet(Candidates(tokens))
  }

  /** Two strictly sorted sequences with the same elements are the same sequence. */
  lemma {:induction false} StrictlySortedUnique(a: seq<string>, b: seq<string>)
    requires StrictlySorted(a) && StrictlySorted(b)
    requires forall x :: x in a <==> x in b
    ensures a == b
    decreases |a|
  {
    if a != [] && b != [] {
      assert b[0] in b && a[0] in a;
      var i :| 0 <= i < |a| && a[i] == b[0];
      var j :| 0 <= j < |b| && b[j] == a[0];
      if i > 0 && j > 0 {
        LessAsymmetric(a[0], b[0]);
      }
      if i > 0 && j == 0 {
        LessIrreflexive(a[0]);
      }
      assert a[0] == b[0];
      forall x
        ensures x in a[1..] <==> x in b[1..]
      {
        if x in a[1..] {
          var k :| 1 <= k < |a| && a[k] == x;
          LessIrreflexive(x);
          assert x != a[0];
          assert x in b;
        }
        if x in b[1..] {
          var k :| 1 <= k < |b| && b[k] == x;
          LessIrreflexive(x);
          assert x != b[0];
          assert x in a;
        }
      }
      StrictlySortedUnique(a[1..], b[1..]);
      assert a == [a[0]] + a[1..] && b == [b[0]] + b[1..];
    } else if a != [] {
      HeadIn(a);
      assert false;
    } else if b != [] {
      HeadIn(b);
      assert false;
    }
  }

  lemma HeadIn<T>(s: seq<T>)
    requires s != []
    ensures s[0] in s
  {
  }

  /** The keyword list is the only strictly sorted enumeration of the kept, lowered tokens. */
  lemma KeywordsCanonical(tokens: seq<Token>, s: seq<string>)
    requires StrictlySorted(s)
    requires forall w :: w in s <==> exists i :: 0 <= i < |tokens| && Kept(tokens[i]) && Lower(tokens[i].text) == w
    ensures s == KeywordList(tokens)
  {
    StrictlySortedUnique(s, KeywordList(tokens));
  }

  // ---------------------------------------------------------------------------
  // sorted(ws) of line 95
  // ---------------------------------------------------------------------------

  /** Putting a word before a sorted sequence none of whose elements is before it. */
  lemma SortedCons(w: string, s: seq<string>)
    requires Sorted(s)
    requires s != [] ==> !Less(s[0], w)
    ensures Sorted([w] + s)
  {
    var r := [w] + s;
    forall i, j | 0 <= i < j < |r|
      ensures !Less(r[j], r[i])
    {
      if i == 0 && j > 1 {
        NotLessTransitive(w, s[0], s[j - 1]);
      }
    }
  }

  /** One step of insertion sort. */
  function Insert(w: string, s: seq<string>): (r: seq<string>)
    requires Sorted(s)
    ensures Sorted(r)
    ensures multiset(r) == multiset(s) + multiset{w}
  {
    if s == [] then [w]
    else if !Less(s[0], w) then SortedCons(w, s); [w] + s
    else
      var rest := Insert(w, s[1..]);
      LessAsymmetric(s[0], w);
      assert s == [s[0]] + s[1..];
      assert rest[0] in multiset(rest);
      SortedCons(s[0], rest);
      [s[0]] + rest
  }

  /** Python's `sorted` on strings. */
  function Sort(ws: seq<string>): (r: seq<string>)
    ensures Sorted(r)
    ensures multiset(r) == multiset(ws)
  {
    if ws == [] then []
    else
      assert ws == [ws[0]] + ws[1..];
      Insert(ws[0], Sort(ws[1..]))
  }

  /** Sorting a sorted sequence leaves it as it is. */
  lemma {:induction false} SortOfSorted(ws: seq<string>)
    requires Sorted(ws)
    ensures Sort(ws) == ws
  {
    if ws != [] {
      SortOfSorted(ws[1..]);
      assert ws == [ws[0]] + ws[1..];
    }
  }

  /** The re-sort of line 95 returns the keyword list unchanged. */
  lemma ResortIsIdentity(tokens: seq<Token>)
    ensures Sort(KeywordList(tokens)) == KeywordList(tokens)
  {
    StrictlySortedIsSorted(KeywordList(tokens));
    SortOfSorted(KeywordList(tokens));
  }
}
