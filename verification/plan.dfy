/**
 The document `create_resume` builds, as the sequence of blocks it appends in
 order. Rendering (fonts, sizes, alignment, the picture file, saving) stays
 abstract: a block records only what kind of paragraph it is and its text.
 */
module Plan {
  import opened Text
  import opened Sections
  import opened Fields
  import opened Keywords

  datatype Block =
    | Picture                          // the uploaded photo, 1.5 inches wide
    | Heading(level: nat, text: string) // `add_heading`
    | Para(text: string)               // `add_paragraph` in the default style
    | Label(text: string)              // `write_heading`: a bold 14pt paragraph
    | Bullet(text: string)             // `add_paragraph` in the 'List Bullet' style

  const SummaryTitle: string := "Professional Summary"
  const SkillsTitle: string := "Skills"
  const ExperienceTitle: string := "Experience"
  const EducationTitle: string := "Education"
  const SummaryOpening: string := "Experienced professional with proven expertise in "
  const SummaryClosing: string := ". Passionate about delivering quality solutions."
  const KeywordSeparator: string := ", "
  const SummaryKeywordLimit: nat := 8
  const BulletMark: string := "• "
  const RuleWidth: nat := 70

  /** The line of contact details: mail, phone and globe symbols, separated by bars. */
  function ContactLine(c: Contact): string {
    "\U{1F4E7} " + c.email + " | \U{1F4DE} " + c.phone + " | \U{1F310} " + c.github
  }

  /** A horizontal rule made of underscores. */
  function Rule(): (r: string)
    ensures |r| == RuleWidth
    ensures forall k :: 0 <= k < |r| ==> r[k] == '_'
  {
    Repeat('_', RuleWidth)
  }

  /** `ws[:n]` in Python: the first `n` elements, or all of them when there are fewer. */
  function Take(ws: seq<string>, n: nat): (r: seq<string>)
    ensures |r| == if |ws| < n then |ws| else n
    ensures r == ws[..|r|]
  {
    if |ws| < n then ws else ws[..n]
  }

  /** The summary sentence naming the first eight keywords. */
  function SummarySentence(kws: seq<string>): string {
    SummaryOpening + Join(Take(kws, SummaryKeywordLimit), KeywordSeparator) + SummaryClosing
  }

  /** The text of a skill bullet. */
  function SkillText(k: string): string {
    BulletMark + Title(k)
  }

  /** The bullet texts of the skills, in order. */
  function SkillTexts(skills: seq<string>): (ts: seq<string>)
    ensures |ts| == |skills|
    ensures forall i :: 0 <= i < |skills| ==> ts[i] == SkillText(skills[i])
  {
    seq(|skills|, i requires 0 <= i < |skills| => SkillText(skills[i]))
  }

  /** One bullet per skill, in order. */
  function SkillBullets(skills: seq<string>): (bs: seq<Block>)
    ensures |bs| == |skills|
    ensures forall i :: 0 <= i < |skills| ==> bs[i] == Bullet(SkillText(skills[i]))
  {
    seq(|skills|, i requires 0 <= i < |skills| => Bullet(SkillText(skills[i])))
  }

  /** One plain paragraph per item, in order. */
  function Paras(items: seq<string>): (bs: seq<Block>)
    ensures |bs| == |items|
    ensures forall i :: 0 <= i < |items| ==> bs[i] == Para(items[i])
  {
    seq(|items|, i requires 0 <= i < |items| => Para(items[i]))
  }

  /** A titled section, emitted only when it has items. */
  function OptionalSection(title: string, items: seq<string>): seq<Block> {
    if items == [] then [] else [Label(title)] + Paras(items)
  }

  function ImageBlocks(hasImage: bool): seq<Block> {
    if hasImage then [Picture] else []
  }

  function HeaderBlocks(nr: NameRole, c: Contact): seq<Block> {
    [Heading(0, nr.name), Para(nr.role), Para(ContactLine(c)), Para(Rule())]
  }

  function SummaryBlocks(kws: seq<string>): seq<Block> {
    [Label(SummaryTitle), Para(SummarySentence(kws))]
  }

  /** The fixed blocks before the skill bullets. */
  function LeadBlocks(nr: NameRole, c: Contact, kws: seq<string>, hasImage: bool): seq<Block> {
    ImageBlocks(hasImage) + HeaderBlocks(nr, c) + SummaryBlocks(kws) + [Label(SkillsTitle)]
  }

  /** Everything before the two optional sections. */
  function FrontBlocks(nr: NameRole, c: Contact, kws: seq<string>, hasImage: bool): seq<Block> {
    LeadBlocks(nr, c, kws, hasImage) + SkillBullets(Sort(kws))
  }

  /** `front` followed by the experience and education sections, each only when non-empty. */
  function WithSections(front: seq<Block>, sections: SectionMap): seq<Block> {
    front
      + OptionalSection(ExperienceTitle, sections.experience)
      + OptionalSection(EducationTitle, sections.education)
  }

  /** The document built from what the extractors found. Read back, it opens with the
      optional photo and the name, its bullets are the sorted skills, and each section label
      appears exactly when that section has items, with those items under it. */
  function Assemble(nr: NameRole, c: Contact, sections: SectionMap, kws: seq<string>, hasImage: bool): (plan: seq<Block>)
    ensures Picture in plan <==> hasImage
    ensures var off := if hasImage then 1 else 0;
            && off < |plan|
            && (hasImage ==> plan[0] == Picture)
            && plan[off] == Heading(0, nr.name)
    ensures BulletTexts(plan) == SkillTexts(Sort(kws))
    ensures Label(ExperienceTitle) in plan <==> sections.experience != []
    ensures Label(EducationTitle) in plan <==> sections.education != []
    ensures ReadSection(plan, ExperienceTitle) == sections.experience
    ensures ReadSection(plan, EducationTitle) == sections.education
  {
    var front := FrontBlocks(nr, c, kws, hasImage);
    var plan := WithSections(front, sections);
    PlanOpening(nr, c, kws, hasImage, sections);
    FrontContents(nr, c, kws, hasImage);
    FrontHasNoSectionLabels(nr, c, kws, hasImage);
    NoPictureInSections(front, sections);
    SectionsAddNoBullets(front, sections);
    SectionShownIff(front, sections);
    ExperienceReadBack(front, sections);
    EducationReadBack(front, sections);
    plan
  }

  /** `create_resume`: the blocks of the document, in the order they are added. The job
      description arrives already tokenized, and the photo only as whether one was given.
      Read back, the document shows the photo exactly when one was given, opens with the
      extracted name, bullets the job-description keywords in keyword order, and holds under
      each section label exactly the entries the extractor found, the label appearing
      exactly when there are some. */
  function CreateResume(resumeText: string, jdTokens: seq<Token>, hasImage: bool): (plan: seq<Block>)
    ensures Picture in plan <==> hasImage
    ensures var off := if hasImage then 1 else 0;
            off < |plan| && plan[off] == Heading(0, ExtractNameRole(resumeText).name)
    ensures BulletTexts(plan) == SkillTexts(KeywordList(jdTokens))
    ensures var sections := ExtractSections(resumeText);
            && (Label(ExperienceTitle) in plan <==> sections.experience != [])
            && (Label(EducationTitle) in plan <==> sections.education != [])
            && ReadSection(plan, ExperienceTitle) == sections.experience
            && ReadSection(plan, EducationTitle) == sections.education
  {
    ResortIsIdentity(jdTokens);
    Assemble(ExtractNameRole(resumeText), ExtractContact(resumeText), ExtractSections(resumeText),
             KeywordList(jdTokens), hasImage)
  }

  // ---------------------------------------------------------------------------
  // Reading a plan back
  // ---------------------------------------------------------------------------

  /** The blocks after the first occurrence of `b`; nothing when `b` does not occur. */
  function After(bs: seq<Block>, b: Block): (r: seq<Block>)
    ensures |r| < |bs| || r == []
  {
    if bs == [] then []
    else if bs[0] == b then bs[1..]
    else After(bs[1..], b)
  }

  /** The texts of the plain paragraphs at the front of `bs`. */
  function LeadingParas(bs: seq<Block>): (items: seq<string>)
    ensures |items| <= |bs|
  {
    if bs == [] || !bs[0].Para? then []
    else [bs[0].text] + LeadingParas(bs[1..])
  }

  /** The items a reader finds under the label `title`: the paragraphs that follow it. */
  function ReadSection(bs: seq<Block>, title: string): seq<string> {
    LeadingParas(After(bs, Label(title)))
  }

  /** The texts of all bullets, in order. */
  function BulletTexts(bs: seq<Block>): seq<string> {
    if bs == [] then []
    else (if bs[0].Bullet? then [bs[0].text] else []) + BulletTexts(bs[1..])
  }

  lemma {:induction false} AfterSkips(a: seq<Block>, rest: seq<Block>, b: Block)
    requires b !in a
    ensures After(a + rest, b) == After(rest, b)
    decreases |a|
  {
    if a != [] {
      var s := a + rest;
      assert s[0] == a[0] && s[1..] == a[1..] + rest;
      assert a[0] in a;
      AfterSkips(a[1..], rest, b);
      assert After(s, b) == After(s[1..], b);
    } else {
      assert a + rest == rest;
    }
  }

  lemma {:induction false} LeadingParasOfParas(items: seq<string>, rest: seq<Block>)
    requires rest == [] || !rest[0].Para?
    ensures LeadingParas(Paras(items) + rest) == items
    decreases |items|
  {
    if items != [] {
      assert (Paras(items) + rest)[1..] == Paras(items[1..]) + rest;
      LeadingParasOfParas(items[1..], rest);
      assert items == [items[0]] + items[1..];
    }
  }

  lemma {:induction false} BulletTextsAppend(a: seq<Block>, b: seq<Block>)
    ensures BulletTexts(a + b) == BulletTexts(a) + BulletTexts(b)
    decreases |a|
  {
    if a != [] {
      var s := a + b;
      assert s[0] == a[0] && s[1..] == a[1..] + b;
      BulletTextsAppend(a[1..], b);
      var head := if a[0].Bullet? then [a[0].text] else [];
      assert BulletTexts(s) == head + BulletTexts(s[1..]);
    } else {
      assert a + b == b;
    }
  }

  lemma {:induction false} BulletTextsOfSkills(skills: seq<string>)
    ensures BulletTexts(SkillBullets(skills)) == seq(|skills|, i requires 0 <= i < |skills| => SkillText(skills[i]))
    decreases |skills|
  {
    if skills != [] {
      assert SkillBullets(skills)[1..] == SkillBullets(skills[1..]);
      BulletTextsOfSkills(skills[1..]);
    }
  }

  lemma {:induction false} NoBulletsInParas(items: seq<string>)
    ensures BulletTexts(Paras(items)) == []
    decreases |items|
  {
    if items != [] {
      assert Paras(items)[1..] == Paras(items[1..]);
      NoBulletsInParas(items[1..]);
    }
  }

  // ---------------------------------------------------------------------------
  // Properties of the plan
  // ---------------------------------------------------------------------------

  /** The blocks a section adds: nothing, or its label and one paragraph per item. */
  function SectionSize(items: seq<string>): nat {
    if items == [] then 0 else 1 + |items|
  }

  /** The lead blocks: the optional photo first, then the name as a level-0 heading, the
      role, the contact line, the rule, the summary title and sentence, and the skills title.
      They hold no bullet, and their only labels are the summary and skills titles. */
  lemma LeadContents(nr: NameRole, c: Contact, kws: seq<string>, hasImage: bool)
    ensures var lead := LeadBlocks(nr, c, kws, hasImage);
            var off := if hasImage then 1 else 0;
            && |lead| == off + 7
            && (hasImage ==> lead[0] == Picture)
            && lead[off] == Heading(0, nr.name)
            && lead[off + 1] == Para(nr.role)
            && lead[off + 2] == Para(ContactLine(c))
            && lead[off + 3] == Para(Rule())
            && lead[off + 4] == Label(SummaryTitle)
            && lead[off + 5] == Para(SummarySentence(kws))
            && lead[off + 6] == Label(SkillsTitle)
    ensures var lead := LeadBlocks(nr, c, kws, hasImage);
            && (forall k :: 0 <= k < |lead| ==> !lead[k].Bullet?)
            && (Picture in lead <==> hasImage)
            && (forall t :: Label(t) in lead ==> t == SummaryTitle || t == SkillsTitle)
  {
  }

  /** The front: the lead blocks, then one bullet per skill in sorted order. Its only labels
      are the summary and skills titles, it holds the photo exactly when one is given, and its
      bullets are the sorted skills. */
  lemma FrontContents(nr: NameRole, c: Contact, kws: seq<string>, hasImage: bool)
    ensures var front := FrontBlocks(nr, c, kws, hasImage);
            forall t :: Label(t) in front ==> t == SummaryTitle || t == SkillsTitle
    ensures Picture in FrontBlocks(nr, c, kws, hasImage) <==> hasImage
    ensures var skills := Sort(kws);
            BulletTexts(FrontBlocks(nr, c, kws, hasImage)) == SkillTexts(skills)
  {
    var lead := LeadBlocks(nr, c, kws, hasImage);
    var bullets := SkillBullets(Sort(kws));
    LeadContents(nr, c, kws, hasImage);
    assert Picture !in bullets;
    forall t | Label(t) in bullets
      ensures false
    {
    }
    BulletTextsAppend(lead, bullets);
    NoFixedBullets(lead);
    BulletTextsOfSkills(Sort(kws));
  }

  /** The document opens with the photo, when there is one, and then the name. */
  lemma PlanOpening(nr: NameRole, c: Contact, kws: seq<string>, hasImage: bool, sections: SectionMap)
    ensures var plan := WithSections(FrontBlocks(nr, c, kws, hasImage), sections);
            var off := if hasImage then 1 else 0;
            && off < |plan|
            && (hasImage ==> plan[0] == Picture)
            && plan[off] == Heading(0, nr.name)
  {
    var lead := LeadBlocks(nr, c, kws, hasImage);
    var plan := WithSections(FrontBlocks(nr, c, kws, hasImage), sections);
    LeadContents(nr, c, kws, hasImage);
    assert plan == lead + plan[|lead|..];
  }

  /** Neither section label is among the fixed blocks. */
  lemma FrontHasNoSectionLabels(nr: NameRole, c: Contact, kws: seq<string>, hasImage: bool)
    ensures Label(ExperienceTitle) !in FrontBlocks(nr, c, kws, hasImage)
    ensures Label(EducationTitle) !in FrontBlocks(nr, c, kws, hasImage)
  {
    FrontContents(nr, c, kws, hasImage);
  }

  /** A section's blocks: its label, then one paragraph per item; nothing without items. */
  lemma OptionalSectionLayout(title: string, items: seq<string>)
    ensures var bs := OptionalSection(title, items);
            && |bs| == SectionSize(items)
            && (items != [] ==> bs[0] == Label(title))
            && (forall i :: 0 <= i < |items| ==> bs[1 + i] == Para(items[i]))
  {
    if items != [] {
      var ps := Paras(items);
      var bs := [Label(title)] + ps;
      forall i | 0 <= i < |items|
        ensures bs[1 + i] == Para(items[i])
      {
        assert bs[1 + i] == ps[i];
      }
    }
  }

  /** The sections after a front: the experience section's blocks, then the education
      section's, each of the size `SectionSize` gives (nothing for an empty section). */
  lemma SectionsLayout(front: seq<Block>, sections: SectionMap)
    ensures var plan := WithSections(front, sections);
            var n := |front|;
            var m := n + SectionSize(sections.experience);
            && |plan| == m + SectionSize(sections.education)
            && plan[..n] == front
            && plan[n..m] == OptionalSection(ExperienceTitle, sections.experience)
            && plan[m..] == OptionalSection(EducationTitle, sections.education)
  {
    var exp := OptionalSection(ExperienceTitle, sections.experience);
    var edu := OptionalSection(EducationTitle, sections.education);
    var plan := front + exp + edu;
    assert |exp| == SectionSize(sections.experience);
    assert |edu| == SectionSize(sections.education);
    assert plan[..|front|] == front;
    assert plan[|front|..|front| + |exp|] == exp;
    assert plan[|front| + |exp|..] == edu;
  }

  /** After the lead blocks comes one bullet per skill, in keyword order when the keywords
      are already sorted (as the keyword list always is). */
  lemma FrontLayout(nr: NameRole, c: Contact, kws: seq<string>, hasImage: bool)
    requires Sorted(kws)
    ensures var front := FrontBlocks(nr, c, kws, hasImage);
            var lead := LeadBlocks(nr, c, kws, hasImage);
            && |front| == |lead| + |kws|
            && front[..|lead|] == lead
            && (forall i :: 0 <= i < |kws| ==> front[|lead| + i] == Bullet(SkillText(kws[i])))
  {
    SortOfSorted(kws);
  }

  /** The sections add no photo: the document holds one exactly when its front does. */
  lemma NoPictureInSections(front: seq<Block>, sections: SectionMap)
    ensures Picture in WithSections(front, sections) <==> Picture in front
  {
    assert Picture !in OptionalSection(ExperienceTitle, sections.experience);
    assert Picture !in OptionalSection(EducationTitle, sections.education);
  }

  /** After a front that carries neither section label, each section label is written exactly
      when its section has items. */
  lemma SectionShownIff(front: seq<Block>, sections: SectionMap)
    requires Label(ExperienceTitle) !in front && Label(EducationTitle) !in front
    ensures var plan := WithSections(front, sections);
            && (Label(ExperienceTitle) in plan <==> sections.experience != [])
            && (Label(EducationTitle) in plan <==> sections.education != [])
  {
    var exp := OptionalSection(ExperienceTitle, sections.experience);
    var edu := OptionalSection(EducationTitle, sections.education);
    assert Label(EducationTitle) !in exp;
    assert Label(ExperienceTitle) !in edu;
    if sections.experience != [] {
      assert exp[0] == Label(ExperienceTitle);
    }
    if sections.education != [] {
      assert edu[0] == Label(EducationTitle);
    }
  }

  /** The paragraphs a reader finds under a section's own label are its items, whatever
      follows, provided what follows does not start with a paragraph. */
  lemma ReadOwnSection(title: string, items: seq<string>, rest: seq<Block>)
    requires items != []
    requires rest == [] || !rest[0].Para?
    ensures ReadSection(OptionalSection(title, items) + rest, title) == items
  {
    var tail := Paras(items) + rest;
    assert OptionalSection(title, items) + rest == [Label(title)] + tail;
    AfterHead(Label(title), tail);
    LeadingParasOfParas(items, rest);
  }

  lemma AfterHead(b: Block, tail: seq<Block>)
    ensures After([b] + tail, b) == tail
  {
    assert ([b] + tail)[1..] == tail;
  }

  /** Where a label does not occur, a reader finds nothing under it. */
  lemma ReadAbsentSection(bs: seq<Block>, title: string)
    requires Label(title) !in bs
    ensures ReadSection(bs, title) == []
  {
    AfterSkips(bs, [], Label(title));
    assert bs + [] == bs;
  }

  /** Reading the document back: after a front that carries neither section label, the
      paragraphs under the "Experience" label are exactly the experience entries. */
  lemma ExperienceReadBack(front: seq<Block>, sections: SectionMap)
    requires Label(ExperienceTitle) !in front
    ensures ReadSection(WithSections(front, sections), ExperienceTitle) == sections.experience
  {
    var exp := OptionalSection(ExperienceTitle, sections.experience);
    var edu := OptionalSection(EducationTitle, sections.education);
    assert WithSections(front, sections) == front + (exp + edu);
    AfterSkips(front, exp + edu, Label(ExperienceTitle));
    if sections.experience != [] {
      ReadOwnSection(ExperienceTitle, sections.experience, edu);
    } else {
      assert exp + edu == edu;
      assert Label(ExperienceTitle) !in edu;
      ReadAbsentSection(edu, ExperienceTitle);
    }
  }

  /** Likewise the paragraphs under the "Education" label are exactly the education entries. */
  lemma EducationReadBack(front: seq<Block>, sections: SectionMap)
    requires Label(EducationTitle) !in front
    ensures ReadSection(WithSections(front, sections), EducationTitle) == sections.education
  {
    var exp := OptionalSection(ExperienceTitle, sections.experience);
    var edu := OptionalSection(EducationTitle, sections.education);
    assert Label(EducationTitle) !in exp;
    AfterSkips(front + exp, edu, Label(EducationTitle));
    if sections.education != [] {
      ReadOwnSection(EducationTitle, sections.education, []);
      assert edu + [] == edu;
    } else {
      ReadAbsentSection(edu, EducationTitle);
    }
  }

  /** The sections add no bullet. */
  lemma SectionsAddNoBullets(front: seq<Block>, sections: SectionMap)
    ensures BulletTexts(WithSections(front, sections)) == BulletTexts(front)
  {
    var exp := OptionalSection(ExperienceTitle, sections.experience);
    var edu := OptionalSection(EducationTitle, sections.education);
    BulletTextsAppend(front + exp, edu);
    BulletTextsAppend(front, exp);
    SectionHasNoBullets(ExperienceTitle, sections.experience);
    SectionHasNoBullets(EducationTitle, sections.education);
  }

  /** The summary sentence names each of the first eight keywords (all of them when there
      are at most eight), between its fixed opening and closing. */
  lemma SummaryNamesKeywords(kws: seq<string>, i: int)
    requires 0 <= i < |kws| && i < SummaryKeywordLimit
    ensures Contains(SummarySentence(kws), kws[i])
  {
    var shown := Take(kws, SummaryKeywordLimit);
    assert shown[i] == kws[i];
    JoinHasPart(shown, KeywordSeparator, i);
    ContainsInMiddle(SummaryOpening, Join(shown, KeywordSeparator), SummaryClosing, kws[i]);
  }

  /** A skill bullet shows the keyword with its first letter raised: lowering the text after
      the bullet mark gives the keyword back. */
  lemma SkillTextNamesKeyword(k: string)
    requires k != []
    requires forall j :: 0 <= j < |k| ==> IsLower(k[j])
    ensures SkillText(k)[..|BulletMark|] == BulletMark
    ensures Lower(SkillText(k)[|BulletMark|..]) == k
  {
    TitleOfLowerWord(k);
    assert SkillText(k)[|BulletMark|..] == Title(k);
  }

  lemma {:induction false} NoFixedBullets(bs: seq<Block>)
    requires forall k :: 0 <= k < |bs| ==> !bs[k].Bullet?
    ensures BulletTexts(bs) == []
    decreases |bs|
  {
    if bs != [] {
      NoFixedBullets(bs[1..]);
    }
  }

  lemma SectionHasNoBullets(title: string, items: seq<string>)
    ensures BulletTexts(OptionalSection(title, items)) == []
  {
    if items != [] {
      NoBulletsInParas(items);
      BulletTextsAppend([Label(title)], Paras(items));
    }
  }
}
