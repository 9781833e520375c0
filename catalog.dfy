/**
 * The job catalog: the rows of the spreadsheet, in order, and the dictionary
 * `job_descriptions = dict(zip(roles, skills))` built from them.  Building the
 * dictionary inserts the rows front to back, so when a role appears in
 * several rows the text of the last such row is the one kept.
 */
module Catalog {

  /** One spreadsheet row: the "Job Role" cell and the "Technical Skills Needed" cell. */
  datatype Row = Row(role: string, skills: string)

  /** Role name to required-skills text. */
  type Descriptions = map<string, string>

  /** Row `i` is the last row of `rows` whose role is `rows[i].role`. */
  ghost predicate IsLastWithRole(rows: seq<Row>, i: int)
    requires 0 <= i < |rows|
  {
    forall j :: i < j < |rows| ==> rows[j].role != rows[i].role
  }

  /** `dict(zip(job_data["Job Role"], job_data["Technical Skills Needed"]))`. */
  function Build(rows: seq<Row>): (d: Descriptions)
    ensures d.Keys == set i | 0 <= i < |rows| :: rows[i].role
    ensures forall i :: 0 <= i < |rows| && IsLastWithRole(rows, i) ==> d[rows[i].role] == rows[i].skills
  {
    if rows == [] then map[]
    else
      var last := rows[|rows| - 1];
      var d := Build(rows[..|rows| - 1]);
      assert forall i :: 0 <= i < |rows| - 1 ==> rows[..|rows| - 1][i] == rows[i];
      d[last.role := last.skills]
  }

  /**
   * `job_descriptions.get(role, "")`: a present role gives its text, an absent
   * one the empty default, so an absent role and an empty text look alike.
   */
  function Lookup(d: Descriptions, role: string): (text: string)
    ensures role in d ==> text == d[role]
    ensures text == "" <==> role !in d || d[role] == ""
  {
    if role in d then d[role] else ""
  }

  /**
   * Looking a role up in the built dictionary gives the skills text of the
   * last row with that role, and the empty string for a role no row has.
   */
  lemma LookupBuilt(rows: seq<Row>, role: string)
    ensures (forall i :: 0 <= i < |rows| ==> rows[i].role != role) ==> Lookup(Build(rows), role) == ""
    ensures forall i :: 0 <= i < |rows| && rows[i].role == role && IsLastWithRole(rows, i) ==>
      Lookup(Build(rows), role) == rows[i].skills
  {
  }

  /** A later row with the same role overwrites an earlier one. */
  lemma {:induction false} LaterRowWins(rows: seq<Row>, role: string, earlier: string, later: string)
    ensures Lookup(Build([Row(role, earlier)] + rows + [Row(role, later)]), role) == later
  {
    var all := [Row(role, earlier)] + rows + [Row(role, later)];
    assert IsLastWithRole(all, |all| - 1);
  }
}
