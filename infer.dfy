/**
 * `Infer.infer_dir`: reads from a working-directory path whether the user
 * stands in a contest directory (`…/741`) or a problem directory
 * (`…/741/A`), as laid out by the downloader.
 */
module Infer {
  import opened Chars
  import opened PosixPath

  /** What a directory path was recognised as. */
  datatype Inferred =
    | ContestDir(contest: string)
    | ProblemDir(contest: string, problem: string)
    | Neither

  /** `Infer.infer_dir(path)` for an explicit path. The contest test comes
      first; an empty last component, as in a path ending in '/', counts as
      all digits. */
  function InferDir(path: string): (r: Inferred)
    ensures r.ContestDir? ==> AllDigits(r.contest) && IsLastComponent(path, r.contest)
    ensures r.ProblemDir? ==>
      AllDigits(r.contest) && AllUpper(r.problem) && r.problem != []
      && IsLastComponent(path, r.problem)
  {
    var parts := Split(path);
    var head, last := parts.0, parts.1;
    if AllDigits(last) then ContestDir(last)
    else
      var first := Split(head).1;
      if AllDigits(first) && AllUpper(last) then ProblemDir(first, last) else Neither
  }

  /** A contest directory `{dir}/{contest}` is recognised as that contest. */
  lemma ContestDirRecognised(dir: string, contest: string)
    requires AllDigits(contest)
    ensures InferDir(dir + "/" + contest) == ContestDir(contest)
  {
    SplitAfterSlash(dir, contest);
  }

  /** A path ending in '/' has an empty last component, hence a contest with
      an empty id. */
  lemma TrailingSlashIsContest(dir: string)
    ensures InferDir(dir + "/") == ContestDir("")
  {
    SplitAfterSlash(dir, "");
    assert dir + "/" + "" == dir + "/";
  }

  /** A problem directory `{dir}/{contest}/{problem}` is recognised as that
      problem of that contest. */
  lemma ProblemDirRecognised(dir: string, contest: string, problem: string)
    requires AllDigits(contest) && contest != []
    requires AllUpper(problem) && problem != []
    ensures InferDir(dir + "/" + contest + "/" + problem) == ProblemDir(contest, problem)
  {
    var parent := dir + "/" + contest;
    assert parent[|parent| - 1] == contest[|contest| - 1];
    SplitChild(parent, problem);
    assert !IsDigit(problem[0]);
    SplitAfterSlash(dir, contest);
  }

  /** A last component holding a character that is neither a digit nor an
      upper-case letter is never recognised. */
  lemma OtherNamesNeither(dir: string, name: string, k: nat)
    requires '/' !in name && k < |name|
    requires !IsDigit(name[k]) && !IsUpper(name[k])
    ensures InferDir(dir + "/" + name) == Neither
  {
    SplitAfterSlash(dir, name);
  }

  /** Every path of at least two components, `{dir}/{parent}/{name}`, is
      classified by its last two components alone: a digit name is a
      contest, a capital name under a digit parent is a problem of that
      contest, and anything else is neither. */
  lemma InferDirClassifies(dir: string, parent: string, name: string)
    requires '/' !in parent && '/' !in name && parent != []
    ensures InferDir(dir + "/" + parent + "/" + name) ==
      if AllDigits(name) then ContestDir(name)
      else if AllDigits(parent) && AllUpper(name) then ProblemDir(parent, name)
      else Neither
  {
    var above := dir + "/" + parent;
    assert above[|above| - 1] == parent[|parent| - 1];
    SplitChild(above, name);
    SplitAfterSlash(dir, parent);
  }

  /** A relative path of one component has the empty string as its parent,
      which counts as all digits: a capital name is a problem of the
      contest `""`. */
  lemma InferBareName(name: string)
    requires '/' !in name
    ensures InferDir(name) ==
      if AllDigits(name) then ContestDir(name)
      else if AllUpper(name) then ProblemDir("", name)
      else Neither
  {
    SplitBareName(name);
    SplitBareName("");
  }
}
