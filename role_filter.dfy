/**
 * `filterJobRoles` in static/script.js: the roles offered in the drop-down
 * are those whose lower-cased name contains the lower-cased text typed so
 * far.  The role list and the typed text are parameters; showing the result
 * is left to the page.
 */
module RoleFilter {
  import opened Text

  /** `role.toLowerCase().includes(input.toLowerCase())`. */
  predicate Matches(role: string, input: string) {
    Contains(Lower(role), Lower(input))
  }

  /** `xs` can be obtained from `ys` by deleting elements. */
  ghost predicate IsSubsequence<T>(xs: seq<T>, ys: seq<T>)
    decreases |ys|
  {
    if xs == [] then true
    else if ys == [] then false
    else (xs[0] == ys[0] && IsSubsequence(xs[1..], ys[1..])) || IsSubsequence(xs, ys[1..])
  }

  /**
   * `jobRoles.filter(role => role.toLowerCase().includes(input))`: exactly the
   * matching roles, each as often as the list holds it, kept in their
   * original order.
   */
  function FilterJobRoles(roles: seq<string>, input: string): (kept: seq<string>)
    ensures forall r :: r in kept <==> r in roles && Matches(r, input)
    ensures forall r :: multiset(kept)[r] == if Matches(r, input) then multiset(roles)[r] else 0
    ensures IsSubsequence(kept, roles)
  {
    if roles == [] then []
    else
      var rest := FilterJobRoles(roles[1..], input);
      assert roles == [roles[0]] + roles[1..];
      assert forall r :: r in roles <==> r == roles[0] || r in roles[1..];
      if Matches(roles[0], input) then [roles[0]] + rest else rest
  }

  /** Typing nothing keeps every role. */
  lemma {:induction false} FilterEmptyInputKeepsAll(roles: seq<string>)
    ensures FilterJobRoles(roles, "") == roles
  {
    if roles != [] {
      FilterEmptyInputKeepsAll(roles[1..]);
      ContainsEmpty(Lower(roles[0]));
      assert Lower("") == "";
    }
  }

  /** Filtering the filtered list again with the same text changes nothing. */
  lemma {:induction false} FilterIdempotent(roles: seq<string>, input: string)
    ensures FilterJobRoles(FilterJobRoles(roles, input), input) == FilterJobRoles(roles, input)
  {
    if roles != [] {
      FilterIdempotent(roles[1..], input);
      var rest := FilterJobRoles(roles[1..], input);
      if Matches(roles[0], input) {
        assert ([roles[0]] + rest)[1..] == rest;
      }
    }
  }

  /** The filter ignores case on both sides (for ASCII letters). */
  lemma {:induction false} FilterIgnoresInputCase(roles: seq<string>, input: string)
    ensures FilterJobRoles(roles, Lower(input)) == FilterJobRoles(roles, input)
  {
    LowerIdempotent(input);
    if roles != [] {
      FilterIgnoresInputCase(roles[1..], input);
    }
  }
}
