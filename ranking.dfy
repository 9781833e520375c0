/**
 * `get_recommendations`: one recommendation per spreadsheet row, in row
 * order, each carrying the similarity of the resume text to that row's
 * skills text; then a stable sort by similarity, highest first, and the
 * first three.  The similarity itself (TF-IDF vectors and their cosine) is a
 * parameter of the model.  The rows are ranked, not the role dictionary, so
 * a role listed twice can be recommended twice.
 */
module Ranking {
  import opened Wrappers
  import opened Catalog

  /** `{"job_title": ..., "similarity": ...}`. */
  datatype Recommendation = Recommendation(jobTitle: string, similarity: real)

  /** How many recommendations are kept: the `[:3]` slice. */
  const TopCount: nat := 3

  /** What the loop over the rows builds: one recommendation per row, in row order. */
  function Scored(rows: seq<Row>, resumeText: string, similarity: (string, string) -> real): (recs: seq<Recommendation>)
    ensures |recs| == |rows|
  {
    seq(|rows|, i requires 0 <= i < |rows| => Recommendation(rows[i].role, similarity(resumeText, rows[i].skills)))
  }

  /** The loop of `get_recommendations` that appends one recommendation per row. */
  method CollectRecommendations(rows: seq<Row>, resumeText: string, similarity: (string, string) -> real)
    returns (recs: seq<Recommendation>)
    ensures |recs| == |rows|
    ensures forall i :: 0 <= i < |rows| ==>
      recs[i].jobTitle == rows[i].role && recs[i].similarity == similarity(resumeText, rows[i].skills)
    ensures recs == Scored(rows, resumeText, similarity)
  {
    recs := [];
    for i := 0 to |rows|
      invariant |recs| == i
      invariant forall k :: 0 <= k < i ==> recs[k] == Recommendation(rows[k].role, similarity(resumeText, rows[k].skills))
    {
      recs := recs + [Recommendation(rows[i].role, similarity(resumeText, rows[i].skills))];
    }
  }

  /** Similarities never increase along `s`. */
  ghost predicate Descending(s: seq<Recommendation>) {
    forall i, j :: 0 <= i < j < |s| ==> s[i].similarity >= s[j].similarity
  }

  /** The recommendations of `s` whose similarity is exactly `score`, in their order in `s`. */
  function Ties(s: seq<Recommendation>, score: real): seq<Recommendation>
  {
    if s == [] then []
    else (if s[0].similarity == score then [s[0]] else []) + Ties(s[1..], score)
  }

  lemma {:induction false} TiesAppend(a: seq<Recommendation>, b: seq<Recommendation>, score: real)
    ensures Ties(a + b, score) == Ties(a, score) + Ties(b, score)
  {
    if a != [] {
      TiesAppend(a[1..], b, score);
      assert (a + b)[0] == a[0];
      assert (a + b)[1..] == a[1..] + b;
    } else {
      assert a + b == b;
    }
  }

  /**
   * Inserts `x` in front of the first element whose similarity is not
   * greater than its own, so `x` only moves past strictly better entries.
   */
  function Insert(x: Recommendation, s: seq<Recommendation>): (r: seq<Recommendation>)
    ensures |r| == |s| + 1
    ensures multiset(r) == multiset(s) + multiset{x}
  {
    if s == [] || x.similarity >= s[0].similarity then [x] + s
    else
      assert s == [s[0]] + s[1..];
      [s[0]] + Insert(x, s[1..])
  }

  lemma {:induction false} InsertDescending(x: Recommendation, s: seq<Recommendation>)
    requires Descending(s)
    ensures Descending(Insert(x, s))
  {
    if s == [] || x.similarity >= s[0].similarity {
      ConsDescending(x, s);
    } else {
      var s0, rest := s[0], s[1..];
      var t := Insert(x, rest);
      InsertDescending(x, rest);
      assert Insert(x, s) == [s0] + t;
      forall j | 0 <= j < |t| ensures s0.similarity >= t[j].similarity {
        assert t[j] in multiset(t);
        if t[j] != x {
          var k :| 0 <= k < |rest| && rest[k] == t[j];
          assert s[k + 1] == rest[k];
        }
      }
      ConsDescending(s0, t);
    }
  }

  /** Putting in front an entry that scores at least as high as every other keeps the order. */
  lemma ConsDescending(y: Recommendation, s: seq<Recommendation>)
    requires Descending(s)
    requires forall j :: 0 <= j < |s| ==> y.similarity >= s[j].similarity
    ensures Descending([y] + s)
  {
    var r := [y] + s;
    forall i, j | 0 <= i < j < |r| ensures r[i].similarity >= r[j].similarity {
      assert r[j] == s[j - 1];
      if i > 0 {
        assert r[i] == s[i - 1];
      }
    }
  }

  lemma TiesCons(y: Recommendation, s: seq<Recommendation>, score: real)
    ensures Ties([y] + s, score) == (if y.similarity == score then [y] else []) + Ties(s, score)
  {
    assert ([y] + s)[0] == y;
    assert ([y] + s)[1..] == s;
  }

  /** Inserting `x` keeps every group of equal similarities in its order, `x` in front of its group. */
  lemma {:induction false} InsertTies(x: Recommendation, s: seq<Recommendation>, score: real)
    ensures Ties(Insert(x, s), score) == Ties([x] + s, score)
  {
    if s == [] || x.similarity >= s[0].similarity {
    } else {
      var s0, rest := s[0], s[1..];
      assert s == [s0] + rest;
      var tx := if x.similarity == score then [x] else [];
      var t0 := if s0.similarity == score then [s0] else [];
      // x scores strictly below s0, so at most one of the two joins the group of `score`
      assert tx == [] || t0 == [];
      calc {
        Ties(Insert(x, s), score);
        { assert Insert(x, s) == [s0] + Insert(x, rest); TiesCons(s0, Insert(x, rest), score); }
        t0 + Ties(Insert(x, rest), score);
        { InsertTies(x, rest, score); TiesCons(x, rest, score); }
        t0 + (tx + Ties(rest, score));
        { SwapEmpty(t0, tx, Ties(rest, score)); }
        tx + (t0 + Ties(rest, score));
        { TiesCons(s0, rest, score); }
        tx + Ties(s, score);
        { TiesCons(x, s, score); }
        Ties([x] + s, score);
      }
    }
  }

  lemma SwapEmpty<T>(a: seq<T>, b: seq<T>, c: seq<T>)
    requires a == [] || b == []
    ensures a + (b + c) == b + (a + c)
  {
    if a == [] {
      assert a + (b + c) == b + c && a + c == c;
    } else {
      assert b + c == c && b + (a + c) == a + c;
    }
  }

  /** `sorted(recs, key=lambda x: x["similarity"], reverse=True)`: a stable insertion sort. */
  function SortBySimilarity(s: seq<Recommendation>): (r: seq<Recommendation>)
    ensures |r| == |s| && multiset(r) == multiset(s)
  {
    if s == [] then []
    else
      assert s == [s[0]] + s[1..];
      Insert(s[0], SortBySimilarity(s[1..]))
  }

  /**
   * The sort orders by similarity, highest first, and is stable: the
   * recommendations sharing any one similarity keep their row order.
   */
  lemma {:induction false} SortBySimilarityCorrect(s: seq<Recommendation>)
    ensures Descending(SortBySimilarity(s))
    ensures forall score :: Ties(SortBySimilarity(s), score) == Ties(s, score)
  {
    if s != [] {
      SortBySimilarityCorrect(s[1..]);
      InsertDescending(s[0], SortBySimilarity(s[1..]));
      forall score ensures Ties(SortBySimilarity(s), score) == Ties(s, score) {
        InsertTies(s[0], SortBySimilarity(s[1..]), score);
        TiesCons(s[0], SortBySimilarity(s[1..]), score);
        TiesCons(s[0], s[1..], score);
        assert [s[0]] + s[1..] == s;
      }
    }
  }

  /**
   * The sorted list cut to its first three entries.  It holds min(3, n)
   * entries taken from the input, highest similarity first; nothing left out
   * scores above the last entry kept; and among equal similarities the
   * earliest rows are the ones kept, in row order.
   */
  function Rank(recs: seq<Recommendation>): (top: seq<Recommendation>)
    ensures |top| == if |recs| < TopCount then |recs| else TopCount
    ensures Descending(top)
    ensures multiset(top) <= multiset(recs)
    ensures forall e :: e in multiset(recs) - multiset(top) ==> |top| > 0 && e.similarity <= top[|top| - 1].similarity
    ensures forall score :: Ties(top, score) <= Ties(recs, score)
  {
    var sorted := SortBySimilarity(recs);
    var n := if |recs| < TopCount then |recs| else TopCount;
    SortBySimilarityCorrect(recs);
    LeftOutBounded(sorted, n);
    TiesOfPrefix(sorted, n);
    sorted[..n]
  }

  /** In a descending list, whatever lies after the first `n` scores no more than entry `n - 1`. */
  lemma LeftOutBounded(sorted: seq<Recommendation>, n: nat)
    requires Descending(sorted) && n <= |sorted| && (n == 0 ==> sorted == [])
    ensures Descending(sorted[..n])
    ensures multiset(sorted[..n]) <= multiset(sorted)
    ensures forall e :: e in multiset(sorted) - multiset(sorted[..n]) ==> n > 0 && e.similarity <= sorted[n - 1].similarity
  {
    assert sorted == sorted[..n] + sorted[n..];
    assert multiset(sorted) == multiset(sorted[..n]) + multiset(sorted[n..]);
    forall e | e in multiset(sorted) - multiset(sorted[..n])
      ensures n > 0 && e.similarity <= sorted[n - 1].similarity
    {
      assert e in multiset(sorted[n..]);
      var j :| n <= j < |sorted| && sorted[j] == e;
      assert sorted[n - 1].similarity >= sorted[j].similarity;
    }
  }

  /** Cutting a list keeps, for every similarity, a prefix of that similarity's group. */
  lemma TiesOfPrefix(s: seq<Recommendation>, n: nat)
    requires n <= |s|
    ensures forall score :: Ties(s[..n], score) <= Ties(s, score)
  {
    assert s == s[..n] + s[n..];
    forall score ensures Ties(s[..n], score) <= Ties(s, score) {
      TiesAppend(s[..n], s[n..], score);
    }
  }

  /** A role listed in two rows is ranked twice, once per row. */
  lemma DuplicateRoleRankedTwice(role: string, first: string, second: string,
                                 resumeText: string, similarity: (string, string) -> real)
    ensures var top := Rank(Scored([Row(role, first), Row(role, second)], resumeText, similarity));
      |top| == 2 && top[0].jobTitle == role && top[1].jobTitle == role
  {
    var recs := Scored([Row(role, first), Row(role, second)], resumeText, similarity);
    var top := Rank(recs);
    assert top[0] in multiset(recs) && top[1] in multiset(recs);
  }

  /** What `get_recommendations` returns. */
  datatype RecommendationResult = RecommendationResult(recommendations: seq<Recommendation>, plotPath: Option<string>)

  /**
   * `get_recommendations(resume_text)` over the spreadsheet rows.  A bar
   * chart is drawn only when there is something to show; otherwise the plot
   * path is None.
   */
  method GetRecommendations(rows: seq<Row>, resumeText: string, similarity: (string, string) -> real)
    returns (result: RecommendationResult)
    ensures result.recommendations == Rank(Scored(rows, resumeText, similarity))
    ensures |result.recommendations| == if |rows| < TopCount then |rows| else TopCount
    ensures result.plotPath.None? <==> rows == []
    ensures result.plotPath.Some? ==> result.plotPath.value == "static/recommendations_plot.png"
  {
    var recs := CollectRecommendations(rows, resumeText, similarity);
    var top := Rank(recs);
    if |top| > 0 {
      result := RecommendationResult(top, Some("static/recommendations_plot.png"));
    } else {
      result := RecommendationResult(top, None);
    }
  }
}
