/** Lists of page ids. */
module Lists {
  ghost predicate Distinct(s: seq<nat>) {
    forall i, j :: 0 <= i < j < |s| ==> s[i] != s[j]
  }

  function Members(s: seq<nat>): set<nat> { set i | 0 <= i < |s| :: s[i] }
}
