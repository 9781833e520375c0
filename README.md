# Resume skill matcher and job-role ranker, modelled in Dafny

The application takes an uploaded resume (PDF or DOCX) and does one of two
things with its text:

- **Skill-gap analysis** (`process_resume`). It looks up the chosen job role
  in a catalog built from a spreadsheet, then compares the role's
  comma-separated skills with the resume's words. It reports the skills the
  resume has (matched) and the ones it lacks (missing).
- **Recommendations** (`get_recommendations`). It scores every spreadsheet
  row against the resume text, sorts by score and keeps the best three.

The browser script adds one small pure function, `filterJobRoles`. It narrows
the role drop-down to the roles that contain the typed text, ignoring case.

The model is split into these modules:

- `Text` (text.dfy) holds the string operations the code relies on. These are
  Python's `strip`, `split`, `join`, `lower`, `replace` and `endswith`, and
  JavaScript's `includes`. It proves the split/join round trips and the
  positional meaning of `includes`.
- `Catalog` (catalog.dfy) holds the spreadsheet rows and the
  `dict(zip(...))` built from them. A later row with the same role
  overwrites an earlier one. A missing role looks up as `""`.
- `SkillGap` (skill_gap.dfy) holds the job-skill and resume-skill sets, the
  matched and missing sets, the error result, and the plot-file name
  sanitisation.
- `Ranking` (ranking.dfy) holds the loop that builds one recommendation per
  row, the stable descending sort, the cut to three, and the empty-ranking
  plot path. The loop is a method proved against a specification function.
- `Extraction` (extraction.dfy) holds the PDF page loop, the DOCX paragraph
  join and the file-name dispatch.
- `RoleFilter` (role_filter.dfy) holds `filterJobRoles`.
- `Wrappers` (wrappers.dfy) holds `Option` and `Result`.

Some inputs come from code the model cannot see, so they are parameters:

- The TF-IDF cosine score is a function `similarity(resumeText, skillsText)`.
- spaCy's tokeniser is a function `tokenize(resumeText)`.
- The parsed page and paragraph texts are sequences of strings.

Three behaviours of the code shape the model:

- Looking up a role yields `""` when the role is absent. A role whose skills
  text is empty is treated as absent too (`if not job_description`). The
  result is an error carrying the message `Job role '<role>' not found.`, not
  a raised exception.
- The format is chosen from the suffix of the uploaded file name. `.pdf` is tested first and the test is case-sensitive.
- The ranking iterates the spreadsheet rows, not the deduplicated dictionary.
  So a role listed twice can be recommended twice, each time with the score
  of its own row.

## Model

| member | source | states |
|---|---|---|
| `Catalog.Build` | app.py:28-29 | The dictionary's keys are exactly the rows' roles. For each role, the value is the skills text of the last row with that role. |
| `Catalog.Lookup` | app.py:47 | A present role gives its text. The result is empty exactly when the role is absent or its text is empty, so those two cases look alike to the caller. |
| `Catalog.LookupBuilt` | app.py:47 | A role no row has looks up as `""`. A role present looks up as the text of its last row. |
| `Catalog.LaterRowWins` | app.py:29 | When two rows share a role, the later row's text is the one looked up, whatever rows lie between them. |
| `Text.Strip` | app.py:52 | `strip()` returns a piece of its input whose first and last characters are not whitespace. |
| `Text.StripOnlySpaces` | app.py:52 | `strip()` removes only whitespace: the result sits inside the input with nothing but whitespace before and after it. |
| `Text.Lower` | app.py:52 | Lower-casing keeps the length, leaves no upper-case letter, maps each character to its lower-case form at the same place and leaves every non-letter unchanged. |
| `Text.JoinSplit` | app.py:52 | Joining the pieces of `split(sep)` with `sep` gives back the original string, so splitting loses nothing. |
| `Text.SplitJoin` | app.py:43 | Splitting a join of separator-free parts gives back the parts. |
| `Text.ContainsAt` | static/script.js:45 | `includes` holds exactly when the substring occurs at some index. |
| `SkillGap.NormalizePhrase` | app.py:52 | `strip().lower()` of a piece is as long as the stripped piece. Its contract states only this length fact; what the phrase looks like is stated by `SkillGap.NormalizedIsSkillPhrase`. |
| `SkillGap.NormalizedIsSkillPhrase` | app.py:52 | A non-blank piece without commas normalises to a non-empty, trimmed, comma-free, lower-case phrase. |
| `SkillGap.JobSkills` | app.py:52 | Every job skill is non-empty, has no leading or trailing whitespace, holds no comma and is lower case. Every non-blank piece of the description contributes its normalised form. |
| `SkillGap.JobSkillsOnly` | app.py:52 | Every job skill is the normalised form of some non-blank piece of the description, so nothing else enters the set. |
| `SkillGap.JobSkillsOfEmpty` | app.py:52 | An empty skills text yields no job skills. |
| `SkillGap.JobSkillsOfJoinedPhrases` | app.py:52 | Normalised phrases joined by commas give back exactly the set of those phrases, so N distinct phrases give N skills; no phrases give no skills. |
| `SkillGap.CaseVariantsCollapse` | app.py:52 | Two pieces that differ only in case and surrounding whitespace collapse into a single skill. |
| `SkillGap.ResumeSkills` | app.py:55-56 | Every resume skill is a non-empty all-letter lower-case word. Every all-letter token contributes its lower-case form. |
| `SkillGap.ResumeSkillsOnly` | app.py:55-56 | Every resume skill is the lower-case form of some all-letter token, so nothing else enters the set. |
| `SkillGap.SanitizeRole` | app.py:72 | The sanitised name has the input's length and contains no space and no '/'. Spaces and slashes become '_'. Every other character is unchanged. |
| `SkillGap.PlotPath` | app.py:72-73 | The plot path is "static/" followed by a name without '/', so the file always lands directly in static/. |
| `SkillGap.SanitizeRoleCollides` | app.py:71-72 | Two different roles ("UI/UX Designer" and "UI UX Designer") get the same plot file name, so the names are not unique per role. |
| `SkillGap.ProcessResume` | app.py:45-60 | An unknown role or an empty skills text gives the error naming the role, and only those do. Otherwise matched ∪ missing is the job-skill set and the two are disjoint. Matched lies within the resume skills and missing shares nothing with them. Every job skill containing a non-letter is missing. |
| `SkillGap.MultiWordSkillAlwaysMissing` | app.py:52-60 | A job skill containing a space is reported missing for every resume. |
| `SkillGap.DataAnalystExample` | app.py:45-60 | With the Data Analyst catalog example, "sql" and "python" are matched and "excel" is missing. |
| `Ranking.CollectRecommendations` | app.py:89-102 | The loop yields one recommendation per row, in row order. Each carries the row's role and the similarity of the resume to that row's text. |
| `Ranking.SortBySimilarity` | app.py:105 | The sorted list is a permutation of the recommendations: the same length and the same multiset. |
| `Ranking.SortBySimilarityCorrect` | app.py:105 | The sort orders by similarity, highest first. It is stable: for every score, the recommendations with that score keep their row order. |
| `Ranking.Rank` | app.py:105 | The ranking holds min(3, n) entries taken from the input, in non-increasing order of similarity. Nothing left out scores above the last entry kept. Among equal scores, the kept ones are the earliest rows, in row order. |
| `Ranking.DuplicateRoleRankedTwice` | app.py:92-105 | A role that appears in two rows is recommended twice, because the rows are ranked rather than the dictionary. |
| `Ranking.GetRecommendations` | app.py:87-123 | The result is the ranking of the per-row recommendations, of length min(3, rows). The plot path is None exactly when there are no rows. |
| `Extraction.ExtractPdfText` | app.py:32-38 | The text is the pages concatenated in order with no separator. |
| `Extraction.PageAt` | app.py:34-37 | Each page's text appears in the result right after the text of the pages before it. |
| `Extraction.ExtractDocxText` | app.py:40-43 | The paragraphs are joined with line breaks: when there is at least one paragraph and none holds a line break, splitting the text at line breaks gives back the paragraphs. |
| `Extraction.ParagraphAt` | app.py:40-43 | For any paragraphs, paragraph i sits in the text right after the earlier paragraphs and one line break after each. A line break follows every paragraph but the last, and the last paragraph ends the text. |
| `Extraction.DocxEmptyParagraph` | app.py:43 | A document with no paragraphs and one with a single empty paragraph give the same text. |
| `Extraction.SuffixesExclusive` | app.py:175-177 | No file name ends in both ".pdf" and ".docx", so the order of the two tests does not matter. |
| `Extraction.UploadKind` | app.py:175-180 | A name ending in ".pdf" is a PDF and one ending in ".docx" is a DOCX. Any other name is unsupported. |
| `Extraction.UpperCaseSuffixRejected` | app.py:175-180 | The suffix test is case-sensitive: "resume.PDF" and "resume.DOCX" are unsupported. |
| `Extraction.ExtractResumeText` | app.py:174-180 | A PDF upload yields its pages concatenated and a DOCX upload its paragraphs joined by line breaks. Any other upload yields the unsupported-file-type error, and only those do. |
| `RoleFilter.FilterJobRoles` | static/script.js:43-47 | A role is kept exactly when its lower-case form contains the lower-case input. Each matching role is kept as many times as the list holds it, and the result is a subsequence of the role list, in its original order. |
| `RoleFilter.FilterEmptyInputKeepsAll` | static/script.js:44-45 | An empty input keeps every role. |
| `RoleFilter.FilterIdempotent` | static/script.js:45 | Filtering the result again with the same input changes nothing. |
| `RoleFilter.FilterIgnoresInputCase` | static/script.js:44-45 | Lower-casing the input first does not change the result. |

`Extraction.ExtractResumeText` also stands for the identical dispatch in the
recommendations route (app.py:202-208). That route's error is a redirect
rather than a page, which the model does not distinguish.

## Left out

- The TF-IDF vectorisation and cosine similarity (app.py:96-99) are
  floating-point code inside sklearn. Scores are the `similarity` parameter.
  So the model does not prove that scores lie in [0, 1] or that identical
  texts score 1.
- Ranking.GetRecommendations: the similarity is a total parameter. In the
  source, `fit_transform` (app.py:97-98) raises an empty-vocabulary error
  when neither the resume text nor a row's skills text holds a word of two
  or more word characters (for instance an empty resume text against the
  skills "C, R"). The request then fails, while the model still returns a
  ranking; that exception is not modelled.
- spaCy model loading and tokenisation (app.py:23, app.py:55) are a foreign
  library. The token sequence comes from the `tokenize` parameter.
- PDF and DOCX parsing (app.py:35-37, app.py:42-43) are foreign I/O. The page
  and paragraph texts are parameters. A corrupt file, which makes the parser
  raise, is not modelled.
- Reading the spreadsheet and trimming its column names (app.py:26-28) are
  foreign I/O. The rows are given as (role, skills) string pairs. Missing
  columns and empty cells, which pandas reads as NaN rather than strings, are
  not modelled.
- SkillGap.ResumeSkills: letters are ASCII letters only. spaCy's `is_alpha`
  also accepts non-ASCII letters, such as "Café".
- Text.Lower: only ASCII letters are lower-cased. Python's `lower()` and
  JavaScript's `toLowerCase()` map all of Unicode. This affects
  `SkillGap.JobSkills`, `SkillGap.ResumeSkills` and `RoleFilter.FilterJobRoles`
  for non-ASCII text.
- SkillGap.ProcessResume: `matched_skills` and `missing_skills` are returned
  as sets. The source converts them to lists, in an unspecified order.
- The matplotlib charts and `savefig` (app.py:62-76, app.py:107-119) are
  rendering and file output. Only the plot path strings are modelled.
- The Flask routes, templates, `secure_filename`, saving the upload, the
  login and signup stubs and the debug `print` (app.py:126-219) are HTTP and
  I/O glue. Only their extraction dispatch is modelled.
- Everything in static/script.js except `filterJobRoles` is left out: DOM
  updates, `displayJobRoles`, `fetch`, `sessionStorage`, alerts and form
  handlers. These are UI and network code. The role list and the typed text
  are parameters.
- Concurrent requests writing the same plot file are not modelled. The model
  has no concurrency.
