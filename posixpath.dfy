/**
 * The two POSIX `os.path` functions the script relies on, `split` and
 * `splitext`, with '/' as the only separator and '.' as the extension mark.
 */
module PosixPath {

  /** Index one past the last `c` of `p`, or 0 when there is none. */
  function LastEnd(p: string, c: char): (k: nat)
    ensures k <= |p|
    ensures k > 0 ==> p[k - 1] == c
    ensures forall i :: k <= i < |p| ==> p[i] != c
  {
    if p == [] || p[|p| - 1] == c then |p|
    else LastEnd(p[..|p| - 1], c)
  }

  /** Text free of `c` appended after `a` leaves the last `c` where it was. */
  lemma {:induction false} LastEndPastSuffix(a: string, t: string, c: char)
    requires c !in t
    ensures LastEnd(a + t, c) == LastEnd(a, c)
    decreases |t|
  {
    if t == [] {
      assert a + t == a;
    } else {
      var t' := t[..|t| - 1];
      assert (a + t)[..|a + t| - 1] == a + t';
      LastEndPastSuffix(a, t', c);
    }
  }

  /** `x` is the last component of `p`: a suffix free of '/' that is either
      all of `p` or comes right after a '/'. */
  predicate IsLastComponent(p: string, x: string)
  {
    '/' !in x && |x| <= |p| && x == p[|p| - |x|..]
    && (|x| == |p| || p[|p| - |x| - 1] == '/')
  }

  /** POSIX `os.path.splitext(p)`: the extension starts at the last '.' of
      the last path component, unless only dots precede it there. */
  function SplitExt(p: string): (r: (string, string))
    ensures r.0 + r.1 == p
    ensures r.1 == [] || (r.1[0] == '.' && '.' !in r.1[1..] && '/' !in r.1)
    ensures r.1 != [] <==>
      exists j, k :: LastEnd(p, '/') <= j < k < |p| && p[j] != '.' && p[k] == '.'
  {
    var sepEnd := LastEnd(p, '/');
    var dotEnd := LastEnd(p, '.');
    if dotEnd > sepEnd && exists k :: sepEnd <= k < dotEnd - 1 && p[k] != '.' then
      assert p[dotEnd - 1..][1..] == p[dotEnd..];
      (p[..dotEnd - 1], p[dotEnd - 1..])
    else (p, [])
  }

  predicate AllSlashes(s: string) { forall i :: 0 <= i < |s| ==> s[i] == '/' }

  /** `s.rstrip('/')`. */
  function RStripSlashes(s: string): (r: string)
    ensures r <= s && AllSlashes(s[|r|..])
    ensures r == [] || r[|r| - 1] != '/'
  {
    if s == [] || s[|s| - 1] != '/' then s
    else
      var r := RStripSlashes(s[..|s| - 1]);
      assert s[|r|..] == s[..|s| - 1][|r|..] + ['/'];
      r
  }

  /** POSIX `os.path.split(p)`: the tail is the last component; the head is
      everything before it, with its trailing slashes removed unless it
      consists of slashes only. */
  function Split(p: string): (r: (string, string))
    ensures IsLastComponent(p, r.1)
    ensures var i := |p| - |r.1|;
      r.0 <= p[..i] && AllSlashes(p[|r.0|..i])
      && (AllSlashes(p[..i]) ==> r.0 == p[..i])
      && (!AllSlashes(p[..i]) ==> r.0 != [] && r.0[|r.0| - 1] != '/')
  {
    var i := LastEnd(p, '/');
    var head, tail := p[..i], p[i..];
    assert '/' !in tail by {
      forall j | 0 <= j < |tail| ensures tail[j] != '/' {
        assert tail[j] == p[i + j];
      }
    }
    if !AllSlashes(head) then
      var h := RStripSlashes(head);
      assert p[|h|..|p| - |tail|] == head[|h|..];
      (h, tail)
    else (head, tail)
  }

  /** The name after the last '/' is the tail. */
  lemma SplitAfterSlash(base: string, name: string)
    requires '/' !in name
    ensures Split(base + "/" + name).1 == name
  {
    var p := base + "/" + name;
    LastEndPastSuffix(base + "/", name, '/');
    assert p[|base| + 1..] == name;
  }

  /** Splitting `{parent}/{name}` gives back `parent` and `name` when the
      parent ends in a character other than '/'. */
  lemma SplitChild(parent: string, name: string)
    requires '/' !in name && parent != [] && parent[|parent| - 1] != '/'
    ensures Split(parent + "/" + name) == (parent, name)
  {
    var p := parent + "/" + name;
    LastEndPastSuffix(parent + "/", name, '/');
    assert p[..|parent| + 1] == parent + "/";
    assert (parent + "/")[..|parent|] == parent;
    assert RStripSlashes(parent + "/") == parent;
    assert !AllSlashes(parent + "/") by {
      assert (parent + "/")[|parent| - 1] == parent[|parent| - 1];
    }
  }

  /** A name without '/' splits into an empty head and itself. */
  lemma SplitBareName(name: string)
    requires '/' !in name
    ensures Split(name) == ([], name)
  {
    LastEndPastSuffix([], name, '/');
    assert [] + name == name;
  }
}
