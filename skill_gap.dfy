/**
 * `process_resume`: the skill-gap report for one job role.  The job's skills
 * are the comma-separated phrases of its description, trimmed and
 * lower-cased; the resume's skills are the lower-cased all-letter tokens of
 * the resume text.  The report lists their intersection as matched and the
 * job skills outside the resume as missing.  Tokenisation (spaCy) is a
 * parameter of the model.
 */
module SkillGap {
  import opened Wrappers
  import opened Text
  import opened Catalog

  /** A normalised job skill: non-empty, trimmed, free of commas and lower case. */
  predicate IsSkillPhrase(s: string) {
    && |s| > 0
    && !IsSpace(s[0]) && !IsSpace(s[|s| - 1])
    && ',' !in s
    && IsLowerCase(s)
  }

  /** `skill.strip().lower()` for one comma-separated piece of a description. */
  function NormalizePhrase(piece: string): (r: string)
    ensures |r| == |Strip(piece)|
  {
    Lower(Strip(piece))
  }

  /** A non-blank piece without commas normalises to a skill phrase. */
  lemma NormalizedIsSkillPhrase(piece: string)
    requires ',' !in piece && Strip(piece) != []
    ensures IsSkillPhrase(NormalizePhrase(piece))
  {
    var stripped := Strip(piece);
    StrippedNoComma(piece);
    LowerNoComma(stripped);
    var r := Lower(stripped);
    assert r[0] == LowerChar(stripped[0]);
    assert r[|r| - 1] == LowerChar(stripped[|r| - 1]);
  }

  lemma StrippedNoComma(piece: string)
    requires ',' !in piece
    ensures ',' !in Strip(piece)
  {
    var stripped := Strip(piece);
    var k :| OccursAt(piece, stripped, k);
    forall j | 0 <= j < |stripped| ensures stripped[j] != ',' {
      assert stripped[j] == piece[k + j];
    }
  }

  lemma LowerNoComma(s: string)
    requires ',' !in s
    ensures ',' !in Lower(s)
  {
    var r := Lower(s);
    forall j | 0 <= j < |r| ensures r[j] != ',' {
      assert s[j] in s;
    }
  }

  /** A phrase that is already normalised is left as it is. */
  lemma NormalizeSkillPhrase(s: string)
    requires IsSkillPhrase(s)
    ensures NormalizePhrase(s) == s
  {
    StripClean(s);
    LowerOfLowerCase(s);
  }

  /** A normalised phrase written after a space, as after ", ", normalises to itself. */
  lemma NormalizeSpacedPhrase(s: string)
    requires IsSkillPhrase(s)
    ensures NormalizePhrase(" " + s) == s
  {
    StripSpaced(s);
    LowerOfLowerCase(s);
  }

  /** The normalised forms of the non-blank pieces, as the set comprehension collects them. */
  function PiecesSkills(pieces: seq<string>): set<string>
  {
    if pieces == [] then {}
    else (if Strip(pieces[0]) != [] then {NormalizePhrase(pieces[0])} else {}) + PiecesSkills(pieces[1..])
  }

  /** Every non-blank piece contributes its normalised form. */
  lemma {:induction false} PiecesSkillsHas(pieces: seq<string>, p: string)
    requires p in pieces && Strip(p) != []
    ensures NormalizePhrase(p) in PiecesSkills(pieces)
  {
    if p != pieces[0] {
      var k :| 0 <= k < |pieces| && pieces[k] == p;
      assert pieces[1..][k - 1] == p;
      PiecesSkillsHas(pieces[1..], p);
    }
  }

  /** Every collected skill is the normalised form of some non-blank piece. */
  lemma {:induction false} PiecesSkillsOnly(pieces: seq<string>, s: string)
    requires s in PiecesSkills(pieces)
    ensures exists p :: p in pieces && Strip(p) != [] && NormalizePhrase(p) == s
  {
    var first, rest := pieces[0], pieces[1..];
    if Strip(first) != [] && s == NormalizePhrase(first) {
      assert first in pieces;
    } else {
      assert s in PiecesSkills(rest);
      PiecesSkillsOnly(rest, s);
      var p :| p in rest && Strip(p) != [] && NormalizePhrase(p) == s;
      InTail(pieces, p);
    }
  }

  lemma InTail(pieces: seq<string>, p: string)
    requires pieces != [] && p in pieces[1..]
    ensures p in pieces
  {
    var k :| 0 <= k < |pieces[1..]| && pieces[1..][k] == p;
    assert pieces[k + 1] == p;
  }

  /**
   * `set([skill.strip().lower() for skill in description.split(",") if skill.strip()])`:
   * every element is a normalised phrase, and every non-blank piece
   * contributes one (`JobSkillsOnly` gives the converse).
   */
  function JobSkills(description: string): (skills: set<string>)
    ensures forall s :: s in skills ==> IsSkillPhrase(s)
    ensures forall p :: p in Split(description, ',') && Strip(p) != [] ==> NormalizePhrase(p) in skills
  {
    var pieces := Split(description, ',');
    var skills := PiecesSkills(pieces);
    assert forall s :: s in skills ==> IsSkillPhrase(s) by {
      forall s | s in skills ensures IsSkillPhrase(s) {
        PiecesSkillsOnly(pieces, s);
        var p :| p in pieces && Strip(p) != [] && NormalizePhrase(p) == s;
        NormalizedIsSkillPhrase(p);
      }
    }
    assert forall p :: p in pieces && Strip(p) != [] ==> NormalizePhrase(p) in skills by {
      forall p | p in pieces && Strip(p) != [] ensures NormalizePhrase(p) in skills {
        PiecesSkillsHas(pieces, p);
      }
    }
    skills
  }

  /** Every job skill comes from a non-blank piece of the description. */
  lemma JobSkillsOnly(description: string, s: string)
    requires s in JobSkills(description)
    ensures exists p :: p in Split(description, ',') && Strip(p) != [] && NormalizePhrase(p) == s
  {
    PiecesSkillsOnly(Split(description, ','), s);
  }

  /** An empty description has no skills. */
  lemma JobSkillsOfEmpty()
    ensures JobSkills("") == {}
  {
    assert Split("", ',') == [""];
    assert Strip("") == [];
    assert [""][1..] == [];
  }

  /**
   * Joining normalised phrases with commas and extracting the job skills
   * gives back exactly the set of those phrases: N distinct phrases give N
   * skills.
   */
  lemma JobSkillsOfJoinedPhrases(phrases: seq<string>)
    requires forall k :: 0 <= k < |phrases| ==> IsSkillPhrase(phrases[k])
    ensures JobSkills(Join(phrases, ',')) == set p | p in phrases
  {
    if phrases == [] {
      JobSkillsOfEmpty();
    } else {
      JoinedPhrasesContribute(phrases);
      JoinedPhrasesOnly(phrases);
    }
  }

  lemma JoinedPhrasesContribute(phrases: seq<string>)
    requires |phrases| >= 1
    requires forall k :: 0 <= k < |phrases| ==> IsSkillPhrase(phrases[k])
    ensures forall p :: p in phrases ==> p in JobSkills(Join(phrases, ','))
  {
    SplitJoin(phrases, ',');
    forall p | p in phrases ensures p in JobSkills(Join(phrases, ',')) {
      NormalizeSkillPhrase(p);
    }
  }

  lemma JoinedPhrasesOnly(phrases: seq<string>)
    requires |phrases| >= 1
    requires forall k :: 0 <= k < |phrases| ==> IsSkillPhrase(phrases[k])
    ensures forall s :: s in JobSkills(Join(phrases, ',')) ==> s in phrases
  {
    SplitJoin(phrases, ',');
    forall s | s in JobSkills(Join(phrases, ',')) ensures s in phrases {
      JobSkillsOnly(Join(phrases, ','), s);
      var p :| p in phrases && Strip(p) != [] && NormalizePhrase(p) == s;
      NormalizeSkillPhrase(p);
    }
  }

  /** The job skills of a description, given the pieces its split yields. */
  lemma JobSkillsOfPieces(description: string, pieces: seq<string>)
    requires Split(description, ',') == pieces
    ensures JobSkills(description) == PiecesSkills(pieces)
  {
  }

  /** Two pieces that differ only in case and surrounding spaces collapse into one skill. */
  lemma CaseVariantsCollapse(a: string, b: string)
    requires ',' !in a && ',' !in b
    requires Strip(a) != [] && NormalizePhrase(a) == NormalizePhrase(b)
    ensures JobSkills(a + "," + b) == {NormalizePhrase(a)}
  {
    SplitTwo(a, b);
    JobSkillsOfPieces(a + "," + b, [a, b]);
    PiecesSkillsTwo(a, b);
  }

  lemma SplitTwo(a: string, b: string)
    requires ',' !in a && ',' !in b
    ensures Split(a + "," + b, ',') == [a, b]
  {
    assert Join([a, b], ',') == a + "," + b;
    SplitJoin([a, b], ',');
  }

  lemma PiecesSkillsTwo(a: string, b: string)
    requires Strip(a) != [] && NormalizePhrase(a) == NormalizePhrase(b)
    ensures PiecesSkills([a, b]) == {NormalizePhrase(a)}
  {
    assert Strip(b) != [];
    assert PiecesSkills([]) == {};
    PiecesSkillsCons(b, []);
    PiecesSkillsCons(a, [b]);
  }

  /** spaCy's `token.is_alpha`: non-empty and made of letters only. */
  predicate IsAlpha(token: string) {
    |token| > 0 && forall i :: 0 <= i < |token| ==> IsLetter(token[i])
  }

  /** `set([token.text.lower() for token in resume_doc if token.is_alpha])`. */
  function ResumeSkills(tokens: seq<string>): (skills: set<string>)
    ensures forall s :: s in skills ==> IsAlpha(s) && IsLowerCase(s)
    ensures forall t :: t in tokens && IsAlpha(t) ==> Lower(t) in skills
  {
    set t | t in tokens && IsAlpha(t) :: Lower(t)
  }

  /** Every resume skill is the lower-cased form of some all-letter token, so nothing else enters the set. */
  lemma ResumeSkillsOnly(tokens: seq<string>, s: string)
    requires s in ResumeSkills(tokens)
    ensures exists t :: t in tokens && IsAlpha(t) && Lower(t) == s
  {
  }

  /** `job_role.replace(" ", "_").replace("/", "_")`. */
  function SanitizeRole(role: string): (r: string)
    ensures |r| == |role| && ' ' !in r && '/' !in r
    ensures forall i :: 0 <= i < |role| && role[i] != ' ' && role[i] != '/' ==> r[i] == role[i]
    ensures forall i :: 0 <= i < |role| && (role[i] == ' ' || role[i] == '/') ==> r[i] == '_'
  {
    ReplaceChar(ReplaceChar(role, ' ', '_'), '/', '_')
  }

  /**
   * `os.path.join("static", f"{sanitized_job_role}_skills_plot.png")`.  The
   * sanitised name holds no '/', so it is never an absolute path and the join
   * always puts one '/' after "static".
   */
  function PlotPath(role: string): (path: string)
    ensures |path| > 7 && path[..7] == "static/" && '/' !in path[7..]
  {
    var name := SanitizeRole(role) + "_skills_plot.png";
    assert '/' !in name by {
      assert forall i :: 0 <= i < |name| ==> name[i] != '/';
    }
    "static/" + name
  }

  /** Distinct roles can share one plot file: sanitisation is not injective. */
  lemma SanitizeRoleCollides()
    ensures "UI/UX Designer" != "UI UX Designer"
    ensures SanitizeRole("UI/UX Designer") == SanitizeRole("UI UX Designer")
  {
    assert "UI/UX Designer"[2] != "UI UX Designer"[2];
  }

  /** What `process_resume` returns when the role is found. */
  datatype SkillReport = SkillReport(jobRole: string, matched: set<string>, missing: set<string>, plotPath: string)

  /**
   * `process_resume(resume_text, job_role)`.  An unknown role, or one whose
   * skills text is empty, gives the error message naming the role.
   */
  function ProcessResume(descriptions: Descriptions, resumeText: string, role: string,
                         tokenize: string -> seq<string>): (r: Result<SkillReport, string>)
    ensures r.Failure? <==> Lookup(descriptions, role) == ""
    ensures r.Failure? ==> r.error == "Job role '" + role + "' not found."
    ensures r.Success? ==>
      var job := JobSkills(Lookup(descriptions, role));
      var resume := ResumeSkills(tokenize(resumeText));
      && r.value.jobRole == role
      && r.value.matched + r.value.missing == job
      && r.value.matched * r.value.missing == {}
      && r.value.matched <= resume
      && r.value.missing !! resume
      && (forall s :: s in job && !IsAlpha(s) ==> s in r.value.missing)
      && r.value.plotPath == PlotPath(role)
  {
    var description := Lookup(descriptions, role);
    if description == "" then
      Failure("Job role '" + role + "' not found.")
    else
      var jobSkills := JobSkills(description);
      var resumeSkills := ResumeSkills(tokenize(resumeText));
      Success(SkillReport(role, jobSkills * resumeSkills, jobSkills - resumeSkills, PlotPath(role)))
  }

  /**
   * A multi-word skill such as "machine learning" is always reported missing,
   * whatever the resume says, because resume skills are single all-letter tokens.
   */
  lemma MultiWordSkillAlwaysMissing(descriptions: Descriptions, resumeText: string, role: string,
                                    tokenize: string -> seq<string>, skill: string)
    requires skill in JobSkills(Lookup(descriptions, role))
    requires ' ' in skill
    ensures ProcessResume(descriptions, resumeText, role, tokenize).Success?
    ensures skill in ProcessResume(descriptions, resumeText, role, tokenize).value.missing
  {
    JobSkillsOfEmpty();
    assert Lookup(descriptions, role) != "";
    var i :| 0 <= i < |skill| && skill[i] == ' ';
    assert !IsAlpha(skill) by {
      assert !IsLetter(skill[i]);
    }
  }

  /** The worked example: a Data Analyst role matched against a short resume. */
  lemma DataAnalystExample(tokenize: string -> seq<string>)
    requires tokenize("Experienced with SQL and Python projects")
          == ["Experienced", "with", "SQL", "and", "Python", "projects"]
    ensures
      var rows := [Row("Data Analyst", "sql, excel, python"), Row("Web Developer", "html, css, javascript")];
      var r := ProcessResume(Build(rows), "Experienced with SQL and Python projects", "Data Analyst", tokenize);
      && r.Success?
      && r.value.matched == {"sql", "python"}
      && r.value.missing == {"excel"}
  {
    ExampleLookup();
    ExampleJobSkills();
    ExampleResumeSkills();
    ExampleSetAlgebra(ResumeSkills(["Experienced", "with", "SQL", "and", "Python", "projects"]));
  }

  lemma ExampleLookup()
    ensures Lookup(Build([Row("Data Analyst", "sql, excel, python"), Row("Web Developer", "html, css, javascript")]),
                   "Data Analyst") == "sql, excel, python"
  {
    var rows := [Row("Data Analyst", "sql, excel, python"), Row("Web Developer", "html, css, javascript")];
    assert rows[1].role != rows[0].role;
    assert IsLastWithRole(rows, 0);
  }

  lemma ExampleJobSkills()
    ensures JobSkills("sql, excel, python") == {"sql", "excel", "python"}
  {
    ExampleSplit();
    JobSkillsOfPieces("sql, excel, python", ["sql", " excel", " python"]);
    ExamplePiecesSkills();
  }

  lemma ExamplePiecesSkills()
    ensures PiecesSkills(["sql", " excel", " python"]) == {"sql", "excel", "python"}
  {
    ExamplePhrases();
    PiecesSkillsThree("sql", " excel", " python");
  }

  lemma PiecesSkillsThree(a: string, b: string, c: string)
    requires Strip(a) != [] && Strip(b) != [] && Strip(c) != []
    ensures PiecesSkills([a, b, c]) == {NormalizePhrase(a), NormalizePhrase(b), NormalizePhrase(c)}
  {
    assert PiecesSkills([]) == {};
    PiecesSkillsCons(c, []);
    PiecesSkillsCons(b, [c]);
    PiecesSkillsCons(a, [b, c]);
    UnionOfThree(NormalizePhrase(a), NormalizePhrase(b), NormalizePhrase(c), PiecesSkills([a, b, c]));
  }

  lemma UnionOfThree<T>(x: T, y: T, z: T, s: set<T>)
    requires s == {x} + ({y} + ({z} + {}))
    ensures s == {x, y, z}
  {
  }

  lemma PiecesSkillsCons(p: string, rest: seq<string>)
    requires Strip(p) != []
    ensures PiecesSkills([p] + rest) == {NormalizePhrase(p)} + PiecesSkills(rest)
  {
    assert ([p] + rest)[1..] == rest;
  }

  lemma ExampleSplit()
    ensures Split("sql, excel, python", ',') == ["sql", " excel", " python"]
  {
    assert Join([" python"], ',') == " python";
    assert Join([" excel", " python"], ',') == " excel" + [','] + " python";
    assert "sql, excel, python" == Join(["sql", " excel", " python"], ',');
    SplitJoin(["sql", " excel", " python"], ',');
  }

  lemma ExamplePhrases()
    ensures NormalizePhrase("sql") == "sql"
    ensures NormalizePhrase(" excel") == "excel"
    ensures NormalizePhrase(" python") == "python"
  {
    LowerWordIsSkillPhrase("sql");
    NormalizeSkillPhrase("sql");
    LowerWordIsSkillPhrase("excel");
    NormalizeSpacedPhrase("excel");
    LowerWordIsSkillPhrase("python");
    NormalizeSpacedPhrase("python");
  }

  /** A non-empty word of lower-case ASCII letters is a normalised skill phrase. */
  lemma LowerWordIsSkillPhrase(s: string)
    requires |s| > 0 && forall i :: 0 <= i < |s| ==> 'a' <= s[i] <= 'z'
    ensures IsSkillPhrase(s)
  {
    assert ',' !in s by {
      forall c | c in s ensures c != ',' {
        var i :| 0 <= i < |s| && s[i] == c;
      }
    }
  }

  lemma ExampleResumeSkills()
    ensures var resume := ResumeSkills(["Experienced", "with", "SQL", "and", "Python", "projects"]);
      "sql" in resume && "python" in resume && "excel" !in resume
  {
    var tokens := ["Experienced", "with", "SQL", "and", "Python", "projects"];
    assert IsAlpha(tokens[2]) && Lower(tokens[2]) == "sql";
    assert IsAlpha(tokens[4]) && Lower(tokens[4]) == "python";
    // no token has five characters, so none lower-cases to "excel"
    assert forall t :: t in tokens ==> |t| != 5;
  }

  lemma ExampleSetAlgebra(resume: set<string>)
    requires "sql" in resume && "python" in resume && "excel" !in resume
    ensures {"sql", "excel", "python"} * resume == {"sql", "python"}
    ensures {"sql", "excel", "python"} - resume == {"excel"}
  {
  }
}
