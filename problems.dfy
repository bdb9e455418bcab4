/**
 * A contest problem and what the script extracts from its page: the
 * statement with its images renamed to local files, and the sample tests.
 * The fetched page is a parameter; only the parts the script walks are kept:
 * the `src` of each `<img>` of the statement, in document order, and the
 * `<pre>` block of each `div.input` and `div.output`, as text and `<br>`
 * segments.
 */
module Problems {
  import opened Wrappers
  import opened Chars

  /** A child of a `<pre>` block: a run of text or a `<br>` element. */
  datatype Segment = Text(s: string) | Br

  /** The parts of a parsed `problem-statement` element the script walks.
      The arrays are the document's own nodes, changed in place. */
  datatype Statement = Statement(
    images: array<string>,
    inputs: seq<array<Segment>>,
    outputs: seq<array<Segment>>)

  /** The sample blocks of one document are distinct nodes. */
  ghost predicate WellFormed(st: Statement)
  {
    DistinctBlocks(st.inputs, st.outputs)
  }

  ghost predicate DistinctBlocks(inputs: seq<array<Segment>>, outputs: seq<array<Segment>>)
  {
    (forall i, j :: 0 <= i < j < |inputs| ==> inputs[i] != inputs[j])
    && (forall i, j :: 0 <= i < j < |outputs| ==> outputs[i] != outputs[j])
    && (forall i, j :: 0 <= i < |inputs| && 0 <= j < |outputs| ==> inputs[i] != outputs[j])
  }

  function ImagesOf(st: Option<Statement>): set<object>
  {
    if st.Some? then {st.value.images} else {}
  }

  function Blocks(blocks: seq<array<Segment>>): set<array<Segment>>
  {
    set i | 0 <= i < |blocks| :: blocks[i]
  }

  /** The input blocks of a statement, which `get_testcases` rewrites. */
  function InputsOf(st: Option<Statement>): set<array<Segment>>
  {
    if st.Some? then Blocks(st.value.inputs) else {}
  }

  /** All sample blocks of a statement. */
  function BlocksOf(st: Option<Statement>): set<array<Segment>>
  {
    if st.Some? then Blocks(st.value.inputs) + Blocks(st.value.outputs) else {}
  }

  ghost function Contents(blocks: seq<array<Segment>>): (r: seq<seq<Segment>>)
    reads Blocks(blocks)
    ensures |r| == |blocks| && forall i :: 0 <= i < |blocks| ==> r[i] == blocks[i][..]
  {
    seq(|blocks|, i reads Blocks(blocks) requires 0 <= i < |blocks| => blocks[i][..])
  }

  // ---------------------------------------------------------------------
  // Images

  /** The local file name of the image found `i`-th: `str(i) + '.png'`. */
  function LocalName(i: nat): string
  {
    NatToString(i) + ".png"
  }

  /** Two images never get the same local name. */
  lemma LocalNameInjective(i: nat, j: nat)
    requires LocalName(i) == LocalName(j)
    ensures i == j
  {
    var a, b := NatToString(i), NatToString(j);
    assert |a| == |b|;
    assert a == LocalName(i)[..|a|] == LocalName(j)[..|b|] == b;
    NatToStringInjective(i, j);
  }

  /** The `(local name, original src)` pairs recorded for `srcs`. */
  function Renamed(srcs: seq<string>): (r: seq<(string, string)>)
  {
    seq(|srcs|, i requires 0 <= i < |srcs| => (LocalName(i), srcs[i]))
  }

  /** One entry per image, in document order; entry i pairs `str(i)+'.png'`
      with the i-th original src; the local names are pairwise distinct. */
  lemma RenamedShape(srcs: seq<string>)
    ensures |Renamed(srcs)| == |srcs|
    ensures forall i :: 0 <= i < |srcs| ==> Renamed(srcs)[i] == (NatToString(i) + ".png", srcs[i])
    ensures forall i, j :: 0 <= i < j < |srcs| ==> Renamed(srcs)[i].0 != Renamed(srcs)[j].0
  {
    forall i, j | 0 <= i < j < |srcs|
      ensures Renamed(srcs)[i].0 != Renamed(srcs)[j].0
    {
      if Renamed(srcs)[i].0 == Renamed(srcs)[j].0 {
        LocalNameInjective(i, j);
      }
    }
  }

  // ---------------------------------------------------------------------
  // Sample blocks

  /** `.text` of a block: a `<br>` element contributes no text. */
  function TextOf(p: seq<Segment>): string
  {
    if p == [] then []
    else TextOf(p[..|p| - 1]) + (match p[|p| - 1] case Text(s) => s case Br => "")
  }

  /** The block read with every `<br>` as one line break. */
  function TextWithBreaks(p: seq<Segment>): string
  {
    if p == [] then []
    else TextWithBreaks(p[..|p| - 1]) + (match p[|p| - 1] case Text(s) => s case Br => "\n")
  }

  /** `br.replace_with('\n')` for every `<br>` of a block. */
  function ReplaceBreaks(p: seq<Segment>): (r: seq<Segment>)
    ensures |r| == |p|
    ensures forall i :: 0 <= i < |p| ==> r[i] == if p[i].Br? then Text("\n") else p[i]
  {
    seq(|p|, i requires 0 <= i < |p| => if p[i].Br? then Text("\n") else p[i])
  }

  /** Replacing `<br>` nodes by newlines makes `.text` read each of them as
      exactly one line break. */
  lemma {:induction false} ReplacedText(p: seq<Segment>)
    ensures TextOf(ReplaceBreaks(p)) == TextWithBreaks(p)
    decreases |p|
  {
    if p != [] {
      var q := p[..|p| - 1];
      assert ReplaceBreaks(p)[..|p| - 1] == ReplaceBreaks(q);
      ReplacedText(q);
    }
  }

  /** A block without `<br>` nodes reads the same either way. */
  lemma {:induction false} NoBreaksSameText(p: seq<Segment>)
    requires forall i :: 0 <= i < |p| ==> p[i].Text?
    ensures TextOf(p) == TextWithBreaks(p)
    decreases |p|
  {
    if p != [] {
      NoBreaksSameText(p[..|p| - 1]);
    }
  }

  /** A second replacement finds no `<br>` left. */
  lemma ReplaceBreaksIdempotent(p: seq<Segment>)
    ensures ReplaceBreaks(ReplaceBreaks(p)) == ReplaceBreaks(p)
  {
  }

  function Texts(blocks: seq<seq<Segment>>): (r: seq<string>)
    ensures |r| == |blocks| && forall i :: 0 <= i < |blocks| ==> r[i] == TextOf(blocks[i])
  {
    seq(|blocks|, i requires 0 <= i < |blocks| => TextOf(blocks[i]))
  }

  function ReplaceAll(blocks: seq<seq<Segment>>): (r: seq<seq<Segment>>)
    ensures |r| == |blocks| && forall i :: 0 <= i < |blocks| ==> r[i] == ReplaceBreaks(blocks[i])
  {
    seq(|blocks|, i requires 0 <= i < |blocks| => ReplaceBreaks(blocks[i]))
  }

  /** Blocks whose `<br>` nodes were replaced have none left to replace. */
  lemma ReplaceAllIdempotent(blocks: seq<seq<Segment>>)
    ensures ReplaceAll(ReplaceAll(blocks)) == ReplaceAll(blocks)
  {
    forall i | 0 <= i < |blocks|
      ensures ReplaceAll(ReplaceAll(blocks))[i] == ReplaceAll(blocks)[i]
    {
      ReplaceBreaksIdempotent(blocks[i]);
    }
  }

  /** The loop `for br in pre.find_all('br'): br.replace_with('\n')`. */
  method ReplaceBreaksInPlace(pre: array<Segment>)
    modifies pre
    ensures pre[..] == ReplaceBreaks(old(pre[..]))
  {
    for i := 0 to pre.Length
      invariant pre[..i] == ReplaceBreaks(old(pre[..]))[..i]
      invariant pre[i..] == old(pre[..])[i..]
    {
      if pre[i].Br? {
        pre[i] := Text("\n");
      }
    }
  }

  /** The error `get_testcases` raises when a statement has output blocks
      but no input block: `inp` is read before it is ever bound. */
  const UnboundInp := "UnboundLocalError: local variable 'inp' referenced before assignment"

  /** The error raised when the page has no `problem-statement` element. */
  const NoStatement := "AttributeError: 'NoneType' object has no attribute 'find_all'"

  /** The input loop of `get_testcases`: each block's `<br>` nodes are
      replaced in place, then its text is read. */
  method ReadInputBlocks(inputs: seq<array<Segment>>, outputs: seq<array<Segment>>)
    returns (texts: seq<string>)
    requires DistinctBlocks(inputs, outputs)
    modifies Blocks(inputs)
    ensures Contents(inputs) == ReplaceAll(old(Contents(inputs)))
    ensures Contents(outputs) == old(Contents(outputs))
    ensures texts == Texts(ReplaceAll(old(Contents(inputs))))
  {
    ghost var ins0 := Contents(inputs);
    texts := [];
    for j := 0 to |inputs|
      invariant texts == Texts(ReplaceAll(ins0[..j]))
      invariant forall k :: 0 <= k < j ==> inputs[k][..] == ReplaceBreaks(ins0[k])
      invariant forall k :: j <= k < |inputs| ==> inputs[k][..] == ins0[k]
      invariant Contents(outputs) == old(Contents(outputs))
    {
      var inp := inputs[j];
      ReplaceBreaksInPlace(inp);
      texts := texts + [TextOf(inp[..])];
      assert ReplaceAll(ins0[..j + 1]) == ReplaceAll(ins0[..j]) + [ReplaceBreaks(ins0[j])];
    }
    assert ins0[..|inputs|] == ins0;
  }

  /** The output loop of `get_testcases`: it replaces the `<br>` nodes of
      `inp`, the last input block, not of the output block, and reads the
      output block's text as it is; with no input block `inp` is unbound. */
  method ReadOutputBlocks(inputs: seq<array<Segment>>, outputs: seq<array<Segment>>)
    returns (texts: Result<seq<string>>)
    requires DistinctBlocks(inputs, outputs)
    requires forall k :: 0 <= k < |inputs| ==> inputs[k][..] == ReplaceBreaks(inputs[k][..])
    modifies Blocks(inputs)
    ensures Contents(inputs) == old(Contents(inputs))
    ensures Contents(outputs) == old(Contents(outputs))
    ensures |inputs| == 0 && |outputs| > 0 ==> texts == Err(UnboundInp)
    ensures |inputs| > 0 || |outputs| == 0 ==> texts == Ok(Texts(old(Contents(outputs))))
  {
    ghost var outs0 := Contents(outputs);
    var testOutputs := [];
    for j := 0 to |outputs|
      invariant j > 0 ==> |inputs| > 0
      invariant testOutputs == Texts(outs0[..j])
      invariant Contents(inputs) == old(Contents(inputs))
      invariant Contents(outputs) == outs0
    {
      var out := outputs[j];
      if |inputs| == 0 {
        return Err(UnboundInp);
      }
      var inp := inputs[|inputs| - 1];
      ReplaceBreaksIdempotent(old(inp[..]));
      ReplaceBreaksInPlace(inp);
      testOutputs := testOutputs + [TextOf(out[..])];
      assert Texts(outs0[..j + 1]) == Texts(outs0[..j]) + [TextOf(outs0[j])];
    }
    assert outs0[..|outputs|] == outs0;
    return Ok(testOutputs);
  }

  class Problem {
    const contest: string
    const problem: string
    var rawStatement: Option<Statement>
    var imageUrls: seq<(string, string)>
    var inTestCases: Option<seq<string>>
    var outTestCases: Option<seq<string>>

    /** The image list and the statement's `src` attributes agree: the
        statement is renamed as a whole or not fetched at all. */
    ghost predicate Valid()
      reads this`rawStatement, this`imageUrls, ImagesOf(rawStatement)
    {
      match rawStatement
      case None => imageUrls == []
      case Some(st) =>
        WellFormed(st) && |imageUrls| == st.images.Length
        && forall i :: 0 <= i < |imageUrls| ==> imageUrls[i].0 == LocalName(i) == st.images[i]
    }

    ghost predicate Initial()
      reads this
    {
      rawStatement.None? && imageUrls == [] && inTestCases.None? && outTestCases.None?
    }

    constructor (contest: string, problem: string)
      ensures this.contest == contest && this.problem == problem
      ensures Initial() && Valid()
    {
      this.contest := contest;
      this.problem := problem;
      rawStatement := None;
      imageUrls := [];
      inTestCases := None;
      outTestCases := None;
    }

    /** The statement the next extraction works on: the cached one, or the
        freshly fetched one when nothing is cached. */
    function Current(fetched: Option<Statement>): Option<Statement>
      reads this`rawStatement
    {
      if rawStatement.Some? then rawStatement else fetched
    }

    /** The fetched statement, when the page is actually fetched: only when
        nothing is cached. */
    function Fetching(fetched: Option<Statement>): Option<Statement>
      reads this`rawStatement
    {
      if rawStatement.Some? then None else fetched
    }

    /** The state a successful `get_testcases` leaves: the cached
        statement's input blocks hold no `<br>` any more, and the cached
        lists are the texts of its blocks. Reading them again changes
        nothing and gives the same lists. */
    ghost predicate Settled()
      reads this, BlocksOf(rawStatement)
    {
      rawStatement.Some? &&
      var ins, outs := Contents(rawStatement.value.inputs), Contents(rawStatement.value.outputs);
      ins == ReplaceAll(ins) && (|ins| > 0 || |outs| == 0)
      && inTestCases == Some(Texts(ins)) && outTestCases == Some(Texts(outs))
    }

    /** `get_raw_statement_and_image_urls`. `fetched` is the statement found
        on the problem page, `None` when the page has none. The page is only
        used when nothing is cached; the first success renames every image
        `src` to its local name and records the pairs. */
    method GetRawStatementAndImageUrls(fetched: Option<Statement>)
      returns (r: Result<(Statement, seq<(string, string)>)>)
      requires Valid()
      requires fetched.Some? ==> WellFormed(fetched.value)
      modifies this, ImagesOf(Fetching(fetched))
      ensures Valid()
      ensures inTestCases == old(inTestCases) && outTestCases == old(outTestCases)
      ensures old(rawStatement).Some? ==>
        rawStatement == old(rawStatement) && imageUrls == old(imageUrls)
        && r == Ok((rawStatement.value, imageUrls))
        && (fetched.Some? ==> fetched.value.images[..] == old(fetched.value.images[..]))
      ensures old(rawStatement).None? && fetched.None? ==>
        r == Err(NoStatement) && rawStatement.None? && imageUrls == old(imageUrls)
      ensures old(rawStatement).None? && fetched.Some? ==>
        var st := fetched.value;
        rawStatement == fetched
        && imageUrls == old(imageUrls) + Renamed(old(st.images[..]))
        && (forall i :: 0 <= i < st.images.Length ==> st.images[i] == LocalName(i))
        && r == Ok((st, imageUrls))
    {
      if rawStatement.Some? {
        return Ok((rawStatement.value, imageUrls));
      }
      rawStatement := fetched;
      if fetched.None? {
        return Err(NoStatement);
      }
      var st := fetched.value;
      var counter := 0;
      while counter < st.images.Length
        invariant 0 <= counter <= st.images.Length
        invariant rawStatement == fetched
        invariant inTestCases == old(inTestCases) && outTestCases == old(outTestCases)
        invariant imageUrls == old(imageUrls) + Renamed(old(st.images[..])[..counter])
        invariant forall i :: 0 <= i < counter ==> st.images[i] == LocalName(i)
        invariant st.images[counter..] == old(st.images[..])[counter..]
      {
        var newUrl := NatToString(counter) + ".png";
        assert st.images[counter] == old(st.images[..])[counter];
        assert Renamed(old(st.images[..])[..counter + 1])
          == Renamed(old(st.images[..])[..counter]) + [(newUrl, st.images[counter])];
        imageUrls := imageUrls + [(newUrl, st.images[counter])];
        st.images[counter] := newUrl;
        counter := counter + 1;
      }
      assert old(st.images[..])[..counter] == old(st.images[..]);
      return Ok((st, imageUrls));
    }

    /** `get_raw_statement`: the first half of the pair. */
    method GetRawStatement(fetched: Option<Statement>) returns (r: Result<Statement>)
      requires Valid()
      requires fetched.Some? ==> WellFormed(fetched.value)
      modifies this, ImagesOf(Fetching(fetched))
      ensures Valid()
      ensures inTestCases == old(inTestCases) && outTestCases == old(outTestCases)
      ensures r.Ok? <==> old(Current(fetched)).Some?
      ensures r.Ok? ==> rawStatement == Some(r.value) && r.value == old(Current(fetched)).value
      ensures r.Err? ==> r == Err(NoStatement) && rawStatement.None? && imageUrls == old(imageUrls)
      ensures old(rawStatement).Some? ==>
        imageUrls == old(imageUrls)
        && (fetched.Some? ==> fetched.value.images[..] == old(fetched.value.images[..]))
      ensures old(rawStatement).None? && fetched.Some? ==>
        imageUrls == old(imageUrls) + Renamed(old(fetched.value.images[..]))
    {
      var pair := GetRawStatementAndImageUrls(fetched);
      if pair.Err? {
        return Err(pair.error);
      }
      return Ok(pair.value.0);
    }

    /** `get_testcases`. Input blocks get their `<br>` nodes replaced by
        newlines, in place, before their text is read. The output loop
        replaces the `<br>` nodes of `inp`, the last input block, again,
        not those of the output block, so an output's line breaks read as
        nothing; with no input block at all, `inp` is unbound and the first
        output block raises. */
    method GetTestcases(fetched: Option<Statement>) returns (r: Result<(seq<string>, seq<string>)>)
      requires Valid()
      requires fetched.Some? ==> WellFormed(fetched.value)
      modifies this, ImagesOf(Fetching(fetched)), InputsOf(Current(fetched))
      ensures Valid()
      ensures old(rawStatement).Some? ==>
        imageUrls == old(imageUrls)
        && (fetched.Some? ==> fetched.value.images[..] == old(fetched.value.images[..]))
      ensures old(rawStatement).None? && fetched.Some? ==>
        imageUrls == old(imageUrls) + Renamed(old(fetched.value.images[..]))
      ensures r.Ok? ==> Settled()
      ensures old(Settled()) ==>
        r == Ok((old(inTestCases).value, old(outTestCases).value))
        && inTestCases == old(inTestCases) && outTestCases == old(outTestCases)
      ensures old(Current(fetched)).None? ==>
        r == Err(NoStatement) && rawStatement.None? && imageUrls == old(imageUrls)
        && inTestCases == old(inTestCases) && outTestCases == old(outTestCases)
      ensures old(Current(fetched)).Some? ==>
        var st := old(Current(fetched)).value;
        var ins, outs := old(Contents(st.inputs)), old(Contents(st.outputs));
        rawStatement == Some(st)
        && Contents(st.inputs) == ReplaceAll(ins)
        && Contents(st.outputs) == outs
        && (|ins| == 0 && |outs| > 0 ==>
              r == Err(UnboundInp)
              && inTestCases == old(inTestCases) && outTestCases == old(outTestCases))
        && (|ins| > 0 || |outs| == 0 ==>
              r == Ok((Texts(ReplaceAll(ins)), Texts(outs)))
              && inTestCases == Some(r.value.0) && outTestCases == Some(r.value.1))
    {
      ghost var cur := Current(fetched);
      ghost var ins0, outs0 := [], [];
      if cur.Some? {
        ins0, outs0 := Contents(cur.value.inputs), Contents(cur.value.outputs);
      }
      var raw := GetRawStatement(fetched);
      if raw.Err? {
        return Err(raw.error);
      }
      assert Contents(raw.value.inputs) == ins0 && Contents(raw.value.outputs) == outs0;
      r := TestcasesOf(raw.value);
      ReplaceAllIdempotent(ins0);
    }

    /** `get_testcases` once the statement `st` is cached. Its second call
        to `get_raw_statement` returns that same cached statement, so `st`
        is used for both loops. */
    method TestcasesOf(st: Statement) returns (r: Result<(seq<string>, seq<string>)>)
      requires Valid() && rawStatement == Some(st)
      modifies this`inTestCases, this`outTestCases, Blocks(st.inputs)
      ensures Valid()
      ensures
        var ins, outs := old(Contents(st.inputs)), old(Contents(st.outputs));
        Contents(st.inputs) == ReplaceAll(ins)
        && Contents(st.outputs) == outs
        && (|ins| == 0 && |outs| > 0 ==>
              r == Err(UnboundInp)
              && inTestCases == old(inTestCases) && outTestCases == old(outTestCases))
        && (|ins| > 0 || |outs| == 0 ==>
              r == Ok((Texts(ReplaceAll(ins)), Texts(outs)))
              && inTestCases == Some(r.value.0) && outTestCases == Some(r.value.1))
    {
      var testInputs := ReadInputBlocks(st.inputs, st.outputs);
      var testOutputs := ReadOutputBlocks(st.inputs, st.outputs);
      if testOutputs.Err? {
        return Err(testOutputs.error);
      }
      inTestCases := Some(testInputs);
      outTestCases := Some(testOutputs.value);
      return Ok((testInputs, testOutputs.value));
    }
  }

  // ---------------------------------------------------------------------
  // The output line breaks

  /** What `get_testcases` evidently means to return: every block of either
      kind read with each `<br>` as one line break. */
  function IntendedTestcases(ins: seq<seq<Segment>>, outs: seq<seq<Segment>>): (r: (seq<string>, seq<string>))
    ensures |r.0| == |ins| && |r.1| == |outs|
    ensures forall i :: 0 <= i < |ins| ==> r.0[i] == TextOf(ReplaceBreaks(ins[i]))
    ensures forall i :: 0 <= i < |outs| ==> r.1[i] == TextOf(ReplaceBreaks(outs[i]))
  {
    var r := (seq(|ins|, i requires 0 <= i < |ins| => TextWithBreaks(ins[i])),
              seq(|outs|, i requires 0 <= i < |outs| => TextWithBreaks(outs[i])));
    forall i | 0 <= i < |ins| ensures r.0[i] == TextOf(ReplaceBreaks(ins[i])) {
      ReplacedText(ins[i]);
    }
    forall i | 0 <= i < |outs| ensures r.1[i] == TextOf(ReplaceBreaks(outs[i])) {
      ReplacedText(outs[i]);
    }
    r
  }

  /** The inputs `get_testcases` returns are the intended ones. */
  lemma InputsAsIntended(ins: seq<seq<Segment>>, outs: seq<seq<Segment>>)
    ensures Texts(ReplaceAll(ins)) == IntendedTestcases(ins, outs).0
  {
  }

  /** An output block `1<br>2` comes back as "12" instead of "1\n2". */
  lemma OutputBreaksDropped()
    ensures Texts([[Text("1"), Br, Text("2")]]) == ["12"]
    ensures IntendedTestcases([[Text("1")]], [[Text("1"), Br, Text("2")]]).1 == ["1\n2"]
  {
    var p := [Text("1"), Br, Text("2")];
    assert p[..2][..1][..0] == [];
    assert p[..2][..1] == [Text("1")];
    assert p[..2] == [Text("1"), Br];
    assert TextOf([Text("1")]) == "1";
    assert TextOf(p[..2]) == "1";
    assert TextOf(p) == "12";
    assert TextWithBreaks([Text("1")]) == "1";
    assert TextWithBreaks(p[..2]) == "1\n";
    assert TextWithBreaks(p) == "1\n2";
    ReplacedText(p);
  }

  /** When no output block holds a `<br>`, the outputs read as written
      agree with the intended ones. */
  lemma OutputsAsIntendedWithoutBreaks(ins: seq<seq<Segment>>, outs: seq<seq<Segment>>)
    requires forall i, k :: 0 <= i < |outs| && 0 <= k < |outs[i]| ==> outs[i][k].Text?
    ensures Texts(outs) == IntendedTestcases(ins, outs).1
  {
    forall i | 0 <= i < |outs| ensures TextOf(outs[i]) == TextWithBreaks(outs[i]) {
      NoBreaksSameText(outs[i]);
    }
    var want := IntendedTestcases(ins, outs).1;
    forall i | 0 <= i < |outs| ensures want[i] == TextWithBreaks(outs[i]) {
      ReplacedText(outs[i]);
    }
  }
}
