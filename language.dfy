/**
 * Choosing the language id of a submission: `Session.infer_from_extension`
 * and the `lang` default in `Session.submit`, which reads the extension with
 * `os.path.splitext`.
 */
module Language {
  import opened Wrappers
  import opened PosixPath

  /** The site's language id for C++ files. */
  const CppId: int := 42

  /** `Session.infer_from_extension(ext)`. */
  function InferFromExtension(ext: string): (r: Result<int>)
    ensures r.Ok? <==> ext == ".cpp"
    ensures r.Ok? ==> r.value == CppId
    ensures r.Err? ==> r.error == "Unsupported language supplied: " + ext
  {
    if ext == ".cpp" then Ok(CppId)
    else Err("Unsupported language supplied: " + ext)
  }

  /** The language id `Session.submit(filename, problem, lang)` posts: an
      explicit `lang` wins; otherwise the file's extension decides. */
  function SubmitLanguage(filename: string, lang: Option<int>): (r: Result<int>)
    ensures lang.Some? ==> r == Ok(lang.value)
    ensures lang.None? ==> (r.Ok? <==> SplitExt(filename).1 == ".cpp")
    ensures r.Ok? && lang.None? ==> r.value == CppId
  {
    if lang.None? then InferFromExtension(SplitExt(filename).1) else Ok(lang.value)
  }

  /** A C++ source whose name is more than dots is submitted as id 42,
      whether it is given bare, as the script's own `main.cpp`, or inside
      any directory. */
  lemma {:induction false} CppSourceInferred(dir: string, name: string)
    requires dir == [] || dir[|dir| - 1] == '/'
    requires '/' !in name && exists k :: 0 <= k < |name| && name[k] != '.'
    ensures SplitExt(dir + name + ".cpp") == (dir + name, ".cpp")
    ensures SubmitLanguage(dir + name + ".cpp", None) == Ok(CppId)
  {
    var p := dir + name + ".cpp";
    var n := |dir| + |name|;
    assert p[..n] == dir + name;
    assert p[n..] == ".cpp";
    assert p == (dir + name + ".") + "cpp";
    LastEndPastSuffix(dir + name + ".", "cpp", '.');
    assert p == dir + (name + ".cpp");
    LastEndPastSuffix(dir, name + ".cpp", '/');
    var k :| 0 <= k < |name| && name[k] != '.';
    assert p[|dir| + k] == name[k];
  }

  /** A dot file such as `.cpp` has no extension, so it is refused. */
  lemma DotFileRefused()
    ensures SplitExt(".cpp").1 == []
    ensures SubmitLanguage(".cpp", None).Err?
  {
    assert ".cpp" == "." + "cpp";
    LastEndPastSuffix(".", "cpp", '.');
  }
}
