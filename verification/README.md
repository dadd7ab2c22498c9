# Resume builder — a Dafny model of its text heuristics and document plan

The resume builder turns a pasted resume and a job description into a Word document. This
project models its core in Dafny and proves properties of the model:

- **Section extraction** (`extract_experience_and_education`) is a single pass over the
  lines with a three-valued state: no section, experience or education. It is modelled as a
  left fold (`Sections.ExtractSections`) and as the loop the script writes
  (`Sections.ScanSections`), and the two are proved equal.
- **Name and role** (`extract_name_role`) strips the text, splits it on `"\n"` and takes the
  first two pieces.
- **Contact details** (`extract_contact`) classify each line by an ordered if/elif chain:
  email, then phone, then GitHub link. For each field, the last matching line wins.
- **Keyword ranking** (lines 78-79 and 95) works on a token sequence supplied as data. Each
  token is its text plus the tokenizer's "alphabetic" and "stop word" flags. The result is
  `sorted(set(...))` of the lowered texts of the alphabetic non-stop tokens. The second sort
  at line 95 is modelled too.
- **Document plan** (`create_resume`) is the sequence of blocks the script appends: an
  optional picture, then headings, paragraphs, labels and bullets, in order. Rendering stays
  abstract.

Files:
- `text.dfy` (module `Text`): the Python string operations the script uses, over ASCII.
  These are `strip`, `lower`, `title`, `in` on strings, `split("\n")`, `join` and
  `splitlines`. Split and join are proved to be inverses, and `SplitLines` is proved to lose
  only a trailing line break.
- `sections.dfy` (module `Sections`): the section scanner.
- `fields.dfy` (module `Fields`): name/role and contact extraction.
- `keywords.dfy` (module `Keywords`): Python's string order, `sorted(set(...))` and `sorted`.
- `plan.dfy` (module `Plan`): the block sequence of `create_resume`. Functions that read a
  plan back recover what went into it: the items under a section label, and the bullet texts.

`extract_name_role` has a `"Your Name"` default (resume_builder.py:40). But
`text.strip().split("\n")` always yields at least one piece, so that default is dead code.
Empty or blank text gives the name `""` and the role "Your Role" (`Fields.BlankTextNameRole`).
The role default is used when the stripped text has no line break
(`Fields.SingleLineNameRole`). Otherwise the role is the stripped second piece
(`Fields.MultiLineRole`), even when that piece is blank.

## Model

| member | source | states |
|---|---|---|
| Sections.Classify | resume_builder.py:23-31 | The if/elif chain gives each line a kind. A line is a content line (neither a header nor a blank or reset line) exactly when, once stripped, it is a clean entry: non-empty, equal to its own strip, and free of "experience", "education", "summary", "skills" and "project" when lowered. |
| Sections.ExtractSections | resume_builder.py:17-36 | `extract_experience_and_education` as a fold over the lines. Every entry of either section is a clean entry, and is the stripped form of some line of the text. |
| Sections.ScanSections | resume_builder.py:17-36 | The loop as written (state reset on blank or reset lines, `continue` after a header, append of the stripped line while a section is active) returns exactly the two lists of the left-fold definition. The loop invariant ties each iteration to the fold over the lines read so far. |
| Sections.EntryOrigins | resume_builder.py:22-34 | A section's entries are the stripped input lines at strictly increasing positions, so input order is kept and the section is a subsequence of the stripped lines. Those positions are exactly the content lines read while that section was active: each entry comes from one, and every such line gives an entry. |
| Sections.TriggerPrecedence | resume_builder.py:24-31 | A line whose stripped lower form contains "experience" always leaves the state at experience, even if it also holds "education" or a reset word. Otherwise "education" leaves it at education, before any reset word is looked at. A blank or reset line leaves no section active. Header and reset lines are never stored. |
| Sections.CursorFollowsLastMarker | resume_builder.py:24-31 | The state after a run of lines is decided by the last header or reset line among them: the content lines after it do not change it. |
| Sections.DroppedBeforeFirstHeader | resume_builder.py:20-34 | A line read before any header line adds nothing to either section. |
| Sections.DroppedAfterReset | resume_builder.py:30-34 | A line read after a blank or reset line, with no header in between, adds nothing to either section. |
| Sections.KeptWhileActive | resume_builder.py:32-34 | A clean line read while a section is active is appended, stripped, to that section, and the other section is unchanged. |
| Sections.StoredLinesKept | resume_builder.py:17-36 | Every clean line of the text read while a section is active ends up, stripped, among the entries the extractor returns for that section. |
| Sections.CursorIdleBeforeHeader | resume_builder.py:20-31 | As long as no header line has been read, no section is active, whatever mix of content, blank and reset lines came first. |
| Sections.CursorIdleAfterReset | resume_builder.py:30-31 | After a blank or reset line, no section is active until the next header line, however many content lines follow. |
| Sections.EntriesAtStoredPositions | resume_builder.py:32-34 | A section holds one entry per line stored into it, and entry k is the stripped line at the k-th stored position. |
| Fields.ExtractNameRole | resume_builder.py:38-42 | The name is the first line of the stripped text (up to its first line break), stripped. Neither the name nor the role ever contains a line break. |
| Fields.SingleLineNameRole | resume_builder.py:39-42 | When the stripped text has no line break, the name is the whole stripped text and the role is "Your Role". |
| Fields.MultiLineRole | resume_builder.py:39-42 | When the stripped text has a line break, the role is the line after the first break, stripped. |
| Fields.BlankTextNameRole | resume_builder.py:38-42 | Empty or all-whitespace text gives the name "" (not "Your Name") and the role "Your Role". |
| Fields.TwoLineNameRole | resume_builder.py:38-42 | Two trimmed non-empty lines without line breaks, joined by "\n", come back exactly as name and role. |
| Fields.ClassifyContact | resume_builder.py:47-52 | A line fills no field exactly when it has no "@", is not phone-like (a digit and more than 8 stripped characters) and has no "github.com". A line that fills a field is never blank once stripped, so a chosen field is never "". |
| Fields.ExtractContact | resume_builder.py:44-53 | `extract_contact`, a forward scan in which later lines overwrite earlier ones, yields for each field the stripped form of the last line of that kind, found by searching backwards. The field is "" when there is no such line. |
| Fields.ContactLastMatch | resume_builder.py:45-53 | A field is "" when no line was classified into it. Otherwise it is the stripped form of the last line that was. |
| Fields.ContactFieldEmptyIff | resume_builder.py:45-53 | A contact field is empty exactly when no line of the text is classified into it. |
| Fields.EmailSource | resume_builder.py:47-48 | A non-empty email is the stripped form of an input line that contains "@". |
| Fields.PhoneSource | resume_builder.py:49-50 | A non-empty phone is the stripped form of an input line with no "@", at least one digit, and more than 8 characters once stripped. |
| Fields.GithubSource | resume_builder.py:51-52 | A non-empty GitHub link is the stripped form of an input line with no "@" that contains "github.com" and is not phone-like. A "github.com" line with a digit and more than 8 characters is therefore taken as the phone, never the link. |
| Keywords.Candidates | resume_builder.py:78 | The comprehension's words are exactly the lowered texts of the tokens that are alphabetic and not stop words. |
| Keywords.SortedSet | resume_builder.py:79 | `sorted(set(ws))` is strictly increasing in Python's string order: sorted, with no duplicates. It holds exactly the words of `ws`. |
| Keywords.KeywordList | resume_builder.py:78-79 | The keyword list is strictly increasing. A word is in it exactly when it is the lowered text of some alphabetic non-stop token. |
| Keywords.KeywordsCanonical | resume_builder.py:78-79 | Any strictly increasing sequence of exactly those words equals the keyword list. The list is the sorted enumeration of the set, independent of how it is computed. |
| Keywords.StrictlySortedUnique | resume_builder.py:79 | Two strictly increasing sequences with the same elements are equal. |
| Keywords.LessTotal | resume_builder.py:79 | Python's string order is total: two strings are equal or one comes before the other. |
| Keywords.LessTransitive | resume_builder.py:79 | Python's string order is transitive. |
| Keywords.InsertNew | resume_builder.py:79 | Adding one word to a strictly increasing sequence keeps it strictly increasing, and the result holds exactly the old words plus the new one. |
| Keywords.Sort | resume_builder.py:95 | `sorted(ws)` is sorted and is a permutation of `ws`. |
| Keywords.ResortIsIdentity | resume_builder.py:95 | Sorting the keyword list again returns it unchanged. |
| Keywords.Insert | resume_builder.py:95 | Inserting a word into a sorted sequence keeps it sorted and adds exactly one copy of that word. |
| Plan.LeadContents | resume_builder.py:82-94 | The fixed blocks come in this order: the picture first when one is given, then the name as a level-0 heading, the role, the contact line, the rule, the "Professional Summary" label, the summary sentence and the "Skills" label. They contain no bullet, and their only labels are those two titles. |
| Plan.FrontLayout | resume_builder.py:94-97 | After the "Skills" label comes one bullet per keyword: "• " followed by the title-cased keyword, in keyword order when the keywords are sorted. |
| Plan.SectionsLayout | resume_builder.py:99-109 | After the skills come the experience section's blocks, then the education section's, as consecutive slices of the document. Each slice is what `OptionalSection` gives for that section. |
| Plan.OptionalSectionLayout | resume_builder.py:99-109 | A section takes no blocks when it has no items. Otherwise it takes its label followed by one paragraph per item, in order. |
| Plan.SectionShownIff | resume_builder.py:99-109 | The "Experience" label appears exactly when the experience list is non-empty, and likewise for "Education". |
| Plan.FrontContents | resume_builder.py:82-97 | Before the sections, the only labels are "Professional Summary" and "Skills". The picture appears exactly when one was given. The bullets are the keywords' skill texts in sorted order. |
| Plan.SectionsAddNoBullets | resume_builder.py:99-109 | The experience and education sections add no bullet, so the bullets of the whole document are those of the skills list. |
| Plan.ReadOwnSection | resume_builder.py:99-109 | The paragraphs right after a non-empty section's label are exactly its items, when what follows the section does not start with a paragraph. |
| Plan.ExperienceReadBack | resume_builder.py:100-103 | Reading the paragraphs under the "Experience" label recovers exactly the experience entries. |
| Plan.EducationReadBack | resume_builder.py:106-109 | Reading the paragraphs under the "Education" label recovers exactly the education entries. |
| Plan.Assemble | resume_builder.py:82-109 | The assembled document opens with the picture when one is given, and then the name as a level-0 heading. It holds the picture exactly when one is given, and its bullets are the sorted skills. Each section label appears exactly when its section has items, and the paragraphs under it are exactly those items. |
| Plan.CreateResume | resume_builder.py:70-109 | In the document built from a resume and a job description: the picture appears exactly when one was given, and the extracted name follows it. The bullets are the keywords, title-cased, in keyword order. Each section label appears exactly when the extractor found entries for it, and the paragraphs under it are exactly those entries. |
| Plan.SummaryNamesKeywords | resume_builder.py:91 | Each of the first eight keywords (all of them when there are at most eight) occurs in the summary sentence. |
| Plan.SkillTextNamesKeyword | resume_builder.py:97 | A bullet for a lower-case word is "• " followed by the word with its first letter raised. Lowering the text after the mark gives the word back. |
| Text.Strip | resume_builder.py:23 | `strip()` gives a string no longer than its input that neither starts nor ends with whitespace. |
| Text.StripIsInfix | resume_builder.py:23 | The stripped string is the infix of the input between a leading and a trailing run of whitespace. |
| Text.ContainsIffOccurs | resume_builder.py:24 | `w in s` holds exactly when `w` occurs in `s` at some position. |
| Text.Split | resume_builder.py:39 | `split("\n")` yields at least one piece, no piece contains the separator, and the first piece is the text up to the first separator. There is one piece exactly when the text has no separator. |
| Text.SplitLines | resume_builder.py:19 | `splitlines()` yields lines without line breaks, and no lines exactly when the text is empty. |
| Text.SplitLinesRoundTrip | resume_builder.py:19 | Joining the lines from `splitlines` with "\n" gives back the text, less one trailing line break when there is one. |
| Text.JoinSplit | resume_builder.py:39 | Joining the pieces of `split("\n")` with "\n" gives back the text. |
| Text.SplitJoin | resume_builder.py:39 | Joining one or more pieces that contain no line break with "\n", then splitting on "\n", gives the pieces back. |
| Text.Title | resume_builder.py:97 | `title()` keeps the length and every non-letter, changes only the case of letters, and makes a letter upper-case exactly when it starts the text or follows a non-letter. |
| Text.TitleOfLowerWord | resume_builder.py:97 | `title()` of a lower-case word raises only its first letter, and lowering it again gives the word back. |

## Left out

- The Streamlit page is not modelled: the inputs, the button, the download widget and the warning for empty input (resume_builder.py:117-145). The plan is defined for every input, as `create_resume` is.
- The spaCy model load and tokenization are not modelled. The job description arrives as an already tokenized sequence of `(text, isAlpha, isStop)`, and the two flags are taken as given.
- Document rendering is not modelled: fonts, sizes, bold, alignment, the picture width, the 'List Bullet' style's own bullet, and saving to a byte buffer (resume_builder.py:55-68, 71, 112-115). A block records only its kind and text, and `write_heading` becomes a `Label` block.
- The image path is not modelled, nor the temporary file that stages the upload. Only whether a picture is given is kept (`hasImage`), which is what `if image_path` decides.
- Unicode is not modelled. `lower`, `title` and `isdigit` act on ASCII letters and digits only. `strip` removes Python's ASCII whitespace, including the separators `\x1c`-`\x1f`.
- `splitlines` is modelled as splitting on `"\n"` only. Python's empty-text and trailing-break cases are kept, but `\r`, `\r\n`, `\x0b`, `\x0c`, `\x1c`-`\x1e`, `\x85`, `\u2028` and `\u2029` are not line boundaries here.
- Plan.SummaryNamesKeywords: states that the first eight keywords appear in the sentence, not that later keywords are absent. A later keyword may occur inside an earlier one.
