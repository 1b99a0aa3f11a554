/** The markdown link pattern `\[([^\]]+)\]\(([^)]+)\)` that the table-of-contents
    parser searches each bullet line for, written as a deterministic scanner.

    At a given start the pattern has at most one match: group 1 cannot contain
    `]`, so it ends at the first `]` after the `[`; group 2 cannot contain `)`,
    so it ends at the first `)` after the `(`. A search returns the match with
    the smallest start. */
module LinkPattern {
  import opened Text

  /** One match: the `[` at `open`, the `]` at `close`, the `)` at `end`.
      Group 1 is `line[open + 1..close]`, group 2 is `line[close + 2..end]`. */
  datatype Match = Match(open: nat, close: nat, end: nat)

  /** The pattern matches `line` from `i`, with the `]` at `k` and the `)` at `m`:
      both groups are non-empty, group 1 holds no `]` and group 2 no `)`. */
  predicate IsMatchAt(line: string, i: nat, k: nat, m: nat) {
    i + 1 < k && k + 2 < m < |line| &&
    line[i] == '[' && line[k] == ']' && line[k + 1] == '(' && line[m] == ')' &&
    (forall t :: i < t < k ==> line[t] != ']') &&
    (forall t :: k + 1 < t < m ==> line[t] != ')')
  }

  /** At one start the pattern matches in at most one way. */
  lemma MatchUnique(line: string, i: nat, k: nat, m: nat, k': nat, m': nat)
    requires IsMatchAt(line, i, k, m) && IsMatchAt(line, i, k', m')
    ensures k == k' && m == m'
  {
  }

  /** The match starting at `i`, if the pattern matches there. */
  function MatchAt(line: string, i: nat): (r: Option<Match>)
    requires i < |line|
    ensures r.Some? ==> r.value.open == i && IsMatchAt(line, i, r.value.close, r.value.end)
  {
    if line[i] != '[' then None
    else
      var k := IndexOf(line, ']', i + 1);
      if k < i + 2 || k + 1 >= |line| || line[k + 1] != '(' then None
      else
        var m := IndexOf(line, ')', k + 2);
        if m == |line| || m < k + 3 then None
        else Some(Match(i, k, m))
  }

  /** `MatchAt` misses no match: when it finds none, the pattern does not match
      from `i` at all. */
  lemma MatchAtComplete(line: string, i: nat)
    requires i < |line|
    ensures MatchAt(line, i).None? ==> forall k: nat, m: nat :: !IsMatchAt(line, i, k, m)
  {
  }

  /** `re.search` from `from`: the match with the smallest start at or after `from`. */
  function SearchFrom(line: string, from: nat): (r: Option<Match>)
    requires from <= |line|
    ensures r.Some? ==> from <= r.value.open && IsMatchAt(line, r.value.open, r.value.close, r.value.end)
    decreases |line| - from
  {
    if from == |line| then None
    else
      var here := MatchAt(line, from);
      if here.Some? then here else SearchFrom(line, from + 1)
  }

  lemma {:induction false} SearchFromLeftmost(line: string, from: nat)
    requires from <= |line|
    ensures SearchFrom(line, from).Some? ==>
      forall i: nat, k: nat, m: nat :: from <= i < SearchFrom(line, from).value.open ==> !IsMatchAt(line, i, k, m)
    ensures SearchFrom(line, from).None? ==> forall i: nat, k: nat, m: nat :: from <= i ==> !IsMatchAt(line, i, k, m)
    decreases |line| - from
  {
    if from < |line| {
      MatchAtComplete(line, from);
      if MatchAt(line, from).None? {
        SearchFromLeftmost(line, from + 1);
      }
    }
  }

  /** `re.search` over the whole line. */
  function Search(line: string): (r: Option<Match>)
    ensures r.Some? ==> IsMatchAt(line, r.value.open, r.value.close, r.value.end)
  {
    SearchFrom(line, 0)
  }

  /** The search finds the leftmost match, and finds one whenever the pattern
      matches anywhere in the line. */
  lemma SearchLeftmost(line: string)
    ensures Search(line).Some? ==>
      forall i: nat, k: nat, m: nat :: i < Search(line).value.open ==> !IsMatchAt(line, i, k, m)
    ensures Search(line).None? ==> forall i: nat, k: nat, m: nat :: !IsMatchAt(line, i, k, m)
  {
    SearchFromLeftmost(line, 0);
  }

  /** Group 1 of a match: the link text. */
  function LinkText(line: string, x: Match): (r: string)
    requires IsMatchAt(line, x.open, x.close, x.end)
    ensures r != [] && ']' !in r
  {
    line[x.open + 1..x.close]
  }

  /** Group 2 of a match: the link target. */
  function LinkTarget(line: string, x: Match): (r: string)
    requires IsMatchAt(line, x.open, x.close, x.end)
    ensures r != [] && ')' !in r
  {
    line[x.close + 2..x.end]
  }
}
