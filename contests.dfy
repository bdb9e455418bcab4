/**
 * A contest and its lazily built problem list. The contest page is a
 * parameter: the texts of the links in its `td.id` cells, in page order.
 */
module Contests {
  import opened Wrappers
  import opened Chars
  import opened Problems

  /** A problem as `Problem(contest, name)` creates it: nothing fetched yet,
      ready for extraction. */
  ghost predicate Named(p: Problem, contest: string, name: string)
    reads p
  {
    p.contest == contest && p.problem == name && p.Initial() && p.Valid()
  }

  /** The loop of `get_problem_names`: one new Problem per cell, in order. */
  method NewProblems(contest: string, cells: seq<string>) returns (acc: seq<Problem>)
    ensures |acc| == |cells|
    ensures forall i :: 0 <= i < |acc| ==> fresh(acc[i]) && Named(acc[i], contest, Strip(cells[i]))
    ensures forall i, j :: 0 <= i < j < |acc| ==> acc[i] != acc[j]
  {
    acc := [];
    for i := 0 to |cells|
      modifies {}
      invariant |acc| == i
      invariant forall k :: 0 <= k < i ==> fresh(acc[k]) && Named(acc[k], contest, Strip(cells[k]))
      invariant forall j, k :: 0 <= j < k < i ==> acc[j] != acc[k]
    {
      var name := Strip(cells[i]);
      var p := new Problem(contest, name);
      acc := acc + [p];
    }
  }

  class Contest {
    const contest: string
    var page: Option<seq<string>>
    var problems: Option<seq<Problem>>

    constructor (contest: string)
      ensures this.contest == contest && page.None? && problems.None?
    {
      this.contest := contest;
      page := None;
      problems := None;
    }

    /** `get_problem_names`. The page is downloaded only when none is held;
        the problem list is built once, one new Problem per `td.id` cell,
        in page order, named by the cell's stripped text. */
    method GetProblemNames(downloaded: seq<string>) returns (ps: seq<Problem>)
      modifies this
      ensures page == if old(page).None? then Some(downloaded) else old(page)
      ensures old(problems).Some? ==> problems == old(problems) && ps == old(problems).value
      ensures old(problems).None? ==>
        problems == Some(ps)
        && |ps| == |page.value|
        && (forall i :: 0 <= i < |ps| ==> fresh(ps[i]) && Named(ps[i], contest, Strip(page.value[i])))
        && (forall i, j :: 0 <= i < j < |ps| ==> ps[i] != ps[j])
    {
      if page.None? {
        page := Some(downloaded);
      }
      if problems.Some? {
        return problems.value;
      }
      var acc := NewProblems(contest, page.value);
      problems := Some(acc);
      ps := acc;
    }
  }
}
