/**
 * `Info.get_upcoming_contests`: the contests of the site's contest list that
 * are not finished, each formatted by `Info.str_single_contest`, one per
 * line. The formatter reads the local clock, so it is a parameter here.
 */
module Listing {

  /** One entry of the site's contest list. */
  datatype ContestEntry = ContestEntry(
    id: int,
    name: string,
    phase: string,
    relativeTimeSeconds: int,
    startTimeSeconds: int,
    durationSeconds: int)

  /** The entries whose phase is not "FINISHED", in list order. */
  function Upcoming(cs: seq<ContestEntry>): (r: seq<ContestEntry>)
    ensures |r| <= |cs|
  {
    if cs == [] then []
    else
      var last := cs[|cs| - 1];
      if last.phase != "FINISHED" then Upcoming(cs[..|cs| - 1]) + [last] else Upcoming(cs[..|cs| - 1])
  }

  /** An entry is listed exactly when it is in the contest list and not
      finished. */
  lemma {:induction false} UpcomingMembers(cs: seq<ContestEntry>, e: ContestEntry)
    ensures e in Upcoming(cs) <==> e in cs && e.phase != "FINISHED"
    decreases |cs|
  {
    if cs != [] {
      UpcomingMembers(cs[..|cs| - 1], e);
      assert cs == cs[..|cs| - 1] + [cs[|cs| - 1]];
    }
  }

  /** Filtering keeps list order: it distributes over concatenation. */
  lemma {:induction false} UpcomingAppend(a: seq<ContestEntry>, b: seq<ContestEntry>)
    ensures Upcoming(a + b) == Upcoming(a) + Upcoming(b)
    decreases |b|
  {
    if b == [] {
      assert a + b == a;
    } else {
      var b' := b[..|b| - 1];
      assert (a + b)[..|a + b| - 1] == a + b';
      UpcomingAppend(a, b');
    }
  }

  /** The formatted entries, in order. */
  function Formatted(cs: seq<ContestEntry>, colored: bool, format: (ContestEntry, bool) -> string): (r: seq<string>)
    ensures |r| == |cs|
    ensures forall i :: 0 <= i < |cs| ==> r[i] == format(cs[i], colored)
  {
    if cs == [] then []
    else Formatted(cs[..|cs| - 1], colored, format) + [format(cs[|cs| - 1], colored)]
  }

  /** `'\n'.join(items)`: the items separated by single newlines. */
  function Join(items: seq<string>): string
  {
    if items == [] then []
    else if |items| == 1 then items[0]
    else Join(items[..|items| - 1]) + "\n" + items[|items| - 1]
  }

  /** What the loop accumulates: every item followed by a newline. */
  function Terminated(items: seq<string>): string
  {
    if items == [] then [] else Terminated(items[..|items| - 1]) + items[|items| - 1] + "\n"
  }

  /** Newline-terminated items are the joined items plus one newline. */
  lemma {:induction false} TerminatedIsJoinNewline(items: seq<string>)
    requires items != []
    ensures Terminated(items) == Join(items) + "\n"
    decreases |items|
  {
    if |items| > 1 {
      TerminatedIsJoinNewline(items[..|items| - 1]);
    } else {
      assert items[..0] == [];
    }
  }

  /** Python's `s[:-1]`, which leaves the empty string empty. */
  function DropLast(s: string): (r: string)
    ensures s != [] ==> r + [s[|s| - 1]] == s
    ensures s == [] ==> r == []
  {
    if s == [] then [] else s[..|s| - 1]
  }

  /** One more contest adds its formatted line to the accumulated text
      exactly when it is not finished. */
  lemma TerminatedStep(cs: seq<ContestEntry>, c: ContestEntry, colored: bool, format: (ContestEntry, bool) -> string)
    ensures Terminated(Formatted(Upcoming(cs + [c]), colored, format))
      == Terminated(Formatted(Upcoming(cs), colored, format))
         + (if c.phase != "FINISHED" then format(c, colored) + "\n" else "")
  {
    UpcomingAppend(cs, [c]);
    assert [c][..0] == [];
    var items := Formatted(Upcoming(cs), colored, format);
    if c.phase != "FINISHED" {
      var items' := Formatted(Upcoming(cs + [c]), colored, format);
      assert items' == items + [format(c, colored)];
      assert items'[..|items|] == items;
    }
  }

  /** The loop of `get_upcoming_contests`, then `total[:-1]`. */
  method GetUpcomingContests(contests: seq<ContestEntry>, colored: bool, format: (ContestEntry, bool) -> string)
    returns (r: string)
    ensures r == Join(Formatted(Upcoming(contests), colored, format))
  {
    var total := "";
    for i := 0 to |contests|
      invariant total == Terminated(Formatted(Upcoming(contests[..i]), colored, format))
    {
      var contest := contests[i];
      assert contests[..i + 1] == contests[..i] + [contest];
      TerminatedStep(contests[..i], contest, colored, format);
      if contest.phase != "FINISHED" {
        total := total + format(contest, colored) + "\n";
      }
    }
    assert contests[..|contests|] == contests;
    var items := Formatted(Upcoming(contests), colored, format);
    if items != [] {
      TerminatedIsJoinNewline(items);
    }
    r := DropLast(total);
  }

  /** Each upcoming entry appears in the listing followed by a newline,
      except the last, which ends it. */
  lemma JoinSeparates(items: seq<string>, item: string)
    requires items != []
    ensures Join(items + [item]) == Join(items) + "\n" + item
  {
    assert (items + [item])[..|items|] == items;
  }

  /** When every contest is finished the listing is empty. */
  lemma AllFinishedListsNothing(contests: seq<ContestEntry>, colored: bool, format: (ContestEntry, bool) -> string)
    requires forall i :: 0 <= i < |contests| ==> contests[i].phase == "FINISHED"
    ensures Join(Formatted(Upcoming(contests), colored, format)) == ""
  {
    var u := Upcoming(contests);
    if u != [] {
      UpcomingMembers(contests, u[0]);
    }
  }
}
