# pycf core, modelled in Dafny

pycf is a command-line companion for Codeforces. It downloads a contest's
problems and their sample tests, submits solutions, shows the sample tests
with coloured digits, and lists upcoming contests. This project models the
parts of its script that compute something, as opposed to the parts that
talk to the network or the terminal:

- Terminal display (`display.dfy`). `colorcode` wraps every digit in its own
  ANSI colour and leaves every other character alone. `indent` puts an
  indentation at the start of a text and in front of every later line
  that is not empty.
- Choosing a submission language (`language.dfy`, `posixpath.dfy`). An
  explicit language id wins. Otherwise the id is inferred from the file's
  extension, using POSIX `os.path.splitext`.
- Recognising the working directory (`infer.dfy`, `posixpath.dfy`). A
  directory named by digits is a contest. A directory named by capitals,
  inside one named by digits, is a problem of that contest.
- Problem pages (`problems.dfy`). The statement is fetched once and cached.
  Its images are renamed in place to `0.png`, `1.png`, … and the
  (local name, original src) pairs are recorded. Sample inputs and outputs
  are read from the statement's `<pre>` blocks.
- Contest pages (`contests.dfy`). The problem list is built once, one
  `Problem` per `td.id` cell, in page order.
- Upcoming contests (`listing.dfy`). Every contest not in phase `FINISHED`
  is formatted and the entries are joined with newlines.
- Shared pieces. `chars.dfy` holds ASCII character classes, `rstrip`,
  `strip` and `str(n)` with its inverse. `wrappers.dfy` holds `Option` and
  `Result`, which stand for `None` and for raised exceptions.

The network is modelled as parameters. A method takes what the page would
have yielded: the statement found on a problem page, the `td.id` texts of a
contest page, or the decoded contest list.

`Problem` and `Contest` are classes because the script updates their fields
in place. The statement's image `src` attributes and its `<pre>` blocks are
arrays, because the script rewrites those document nodes in place. Both
`colorcode` and `indent` build their output in a loop, so each is a method
proved equal to a recursive specification function. The properties are then
proved about those functions: a round trip for each, plus shape lemmas.

One disagreement between the described behaviour and the code: outputs are
described as normalised like inputs, but the code replaces the line breaks
of the last input block inside the output loop. The model follows the code
(see Findings). Another: a page without a statement is described as a parse
error, but the code raises `AttributeError` on `None`, and the model
reports that.

## Model

| member | source | states |
|---|---|---|
| Display.ColorCodeLoop | main.py:113-138 | The character loop builds exactly the coloured rendering `ColorCode(s)`, one piece per input character, in order |
| Display.ColorCodeChar | main.py:116-137 | A digit becomes ESC `[` code `m`, the digit, then the reset sequence, with the code listed for that digit. Any other character is copied unchanged |
| Display.ColorCodeAppend | main.py:113-138 | Colouring distributes over concatenation: `ColorCode(s + t) == ColorCode(s) + ColorCode(t)` |
| Display.ColorCodeNoDigits | main.py:136-137 | A string without digits is returned unchanged |
| Display.UncolorColorCode | main.py:113-138 | For text without ESC characters, colouring is invertible: stripping the colour pieces gives the original text back |
| Display.Prepared | main.py:141-143 | The text that is indented is `s.rstrip()` followed by exactly one newline |
| Display.Indent | main.py:140-155 | The loop with the `was_n` flag builds exactly `Indented(s, ind)` |
| Display.IndentFromSnoc | main.py:146-152 | One loop step appends `ind` before a character exactly when a newline precedes it and it is not a newline itself |
| Display.IndentIgnoresTrailingSpace | main.py:141 | Trailing whitespace in the input does not change the result |
| Display.IndentedShape | main.py:141-155 | The result starts with `ind` and ends with one newline. The character before that newline is the last character of the stripped text, or the result is `ind + "\n"` for blank input |
| Display.DedentIndentFrom | main.py:146-152 | Removing `ind` after every newline that precedes a non-newline undoes the loop |
| Display.IndentRoundTrip | main.py:140-155 | Dedenting the result of indent gives back `s.rstrip() + "\n"` when `ind` does not start with a newline. Only the indentation was inserted |
| PosixPath.SplitExt | main.py:89 | `os.path.splitext`: the two parts concatenate to the path. A non-empty extension is a `.` with no further `.` or `/`. There is an extension exactly when the last component has a `.` with a non-`.` character of that component before it, so leading dots are never an extension |
| PosixPath.Split | main.py:339-342 | `os.path.split`: the tail is the last component, meaning it holds no `/` and is the whole path or follows a `/`. The head is the rest with its trailing slashes removed, unless it is all slashes, in which case it is kept whole |
| Language.InferFromExtension | main.py:57-61 | `.cpp` and nothing else maps to 42. Every other extension is an error naming that extension |
| Language.SubmitLanguage | main.py:87-89 | An explicit language is used as given. Without one, the language is inferred from the extension of the file name |
| Language.CppSourceInferred | main.py:88-89 | A file `name.cpp` is submitted as 42 when `name` holds no `/` and has a character other than `.`. This holds bare, like the script's own `main.cpp`, and after any directory prefix ending in `/` |
| Language.DotFileRefused | main.py:89 | A file named `.cpp` has no extension, so its language cannot be inferred |
| Infer.InferDir | main.py:339-346 | A contest result's id is all digits and is the last path component. A problem result has an all-digit contest and a non-empty all-capital problem, and the problem is the last path component |
| Infer.InferDirClassifies | main.py:339-346 | For every path `dir/parent/name`: a digit name gives that contest. Otherwise a capital name under a digit parent gives that problem of that contest. Everything else gives `Neither` |
| Infer.InferBareName | main.py:339-346 | A one-component path is a contest when it is all digits. Otherwise it is a problem of the contest `""` when it is all capitals, because the empty parent counts as all digits. Otherwise it is `Neither` |
| Infer.ContestDirRecognised | main.py:339-341 | Any path ending in an all-digit component names that contest |
| Infer.TrailingSlashIsContest | main.py:339-341 | A path ending in `/` has an empty last component, which counts as all digits, so it names the contest `""` |
| Infer.ProblemDirRecognised | main.py:342-344 | `dir/contest/problem`, with a digit contest and a non-empty capital problem, names that problem of that contest |
| Infer.OtherNamesNeither | main.py:339-346 | A last component with a character that is neither a digit nor a capital names nothing |
| Listing.UpcomingMembers | main.py:328-329 | An entry is kept exactly when it is in the list and its phase is not `FINISHED` |
| Listing.UpcomingAppend | main.py:327-329 | The filter keeps the order: filtering a concatenation concatenates the filtered parts |
| Listing.TerminatedIsJoinNewline | main.py:326-331 | Appending `"\n"` after each entry and dropping the final character equals `'\n'.join` of the entries |
| Listing.GetUpcomingContests | main.py:323-331 | The accumulation loop returns the formatted non-finished contests joined by newlines |
| Listing.JoinSeparates | main.py:329-331 | Adding one entry to the joined list adds a newline and that entry |
| Listing.AllFinishedListsNothing | main.py:324-331 | When every contest is finished, the result is the empty string |
| Chars.ParseNatToString | main.py:183 | `int(str(n)) == n` for every natural `n` |
| Chars.NatToStringInjective | main.py:183 | Distinct counters give distinct decimal strings |
| Chars.RStripIgnoresTrailingSpace | main.py:141 | Appending whitespace never changes what `rstrip` keeps |
| Chars.RStripRemovesSpace | main.py:141 | `rstrip` removes whitespace characters only |
| Problems.LocalNameInjective | main.py:183 | Two images never get the same local name `str(i) + '.png'` |
| Problems.RenamedShape | main.py:181-186 | One pair per image, in document order. Pair i is (`str(i)+'.png'`, original src i). Local names are pairwise distinct |
| Problems.Problem.constructor | main.py:162-171 | A new problem has nothing cached: no statement, no image pairs, no test cases |
| Problems.Problem.GetRawStatementAndImageUrls | main.py:173-188 | Cached statement: returned with its pairs, nothing changes. Otherwise the fetched statement is cached, every image src becomes its local name in place, and the pairs are appended. No statement: `AttributeError` |
| Problems.Problem.GetRawStatement | main.py:190-191 | Fails exactly when no statement is cached or fetched. Otherwise returns the cached statement, or the newly renamed one |
| Problems.ReplaceBreaksInPlace | main.py:219-220 | Every `<br>` node of a block becomes a newline text node. Other nodes stay as they are |
| Problems.ReplaceAllIdempotent | main.py:219-220 | Blocks whose `<br>` nodes were replaced are left as they are by a second replacement |
| Problems.ReplacedText | main.py:219-222 | After the replacement, the block's text reads each `<br>` as exactly one line break |
| Problems.ReadInputBlocks | main.py:216-222 | One input text per `div.input` block, in order, each read after its breaks became newlines. Output blocks are untouched |
| Problems.ReadOutputBlocks | main.py:224-230 | One output text per `div.output` block, read with its breaks untouched. With output blocks but no input block, `UnboundLocalError` |
| Problems.Problem.TestcasesOf | main.py:215-235 | Input blocks are rewritten in place. Output blocks are unchanged. Both lists are cached and returned, unless the unbound-`inp` error leaves the cache as it was |
| Problems.Problem.GetTestcases | main.py:215-235 | No statement: `AttributeError` and nothing changes. Otherwise the same as `TestcasesOf` on the statement that `get_raw_statement` yields. The image pairs stay as they were when the statement was cached, and gain the renamed srcs when it is fetched now. Success leaves the problem settled. On a settled problem a call returns the cached lists and changes nothing |
| Problems.OutputBreaksDropped | main.py:225-230 | As written, an output block `1<br>2` reads `"12"`, while the intended reading is `"1\n2"` |
| Problems.IntendedTestcases | main.py:216-230 | The corrected reading: every input and output block is read with each `<br>` as one line break |
| Problems.OutputsAsIntendedWithoutBreaks | main.py:224-230 | When no output block holds a `<br>`, the outputs as written equal the intended ones |
| Contests.NewProblems | main.py:283-284 | One new, distinct problem per `td.id` cell, in order. Each is named by the contest and the cell's stripped text, with nothing cached |
| Contests.Contest.constructor | main.py:260-264 | A new contest has no page and no problem list |
| Contests.Contest.GetProblemNames | main.py:274-286 | The page is taken only when none is held. A cached list is returned unchanged. Otherwise one new problem per cell is built, cached and returned |

## Left out

- Network traffic is not modelled: login, CSRF token scraping, the submit POST, page and image downloads, and the contest-list API call. Each method takes the page's relevant content as a parameter instead.
- HTML parsing is not modelled. A statement is its image `src` list plus its `<pre>` blocks, each a sequence of text and `<br>` nodes.
- `get_wrapped_statement` (template copy and `prettify`), `get_images` and `Problem.download`/`Contest.download` are not modelled. They are HTML templating and concurrent downloads, not computation.
- `Problem.save`, `Contest.save`, cookies, `latest_in_dir`, the test runner, tmux and the command-line interface are not modelled, because they are file-system and process I/O.
- `str_single_contest` is a parameter of `Listing.GetUpcomingContests`. Its output depends on the clock, the time zone and `timedelta` formatting.
- `infer_dir` with no argument reads the current directory. `Infer.InferDir` always takes the path. Its result is a tag (`ContestDir`, `ProblemDir` or `Neither`), not a new session-less `Contest` or `Problem` object.
- `isdigit`, `isupper` and `isspace` are restricted to ASCII. Unicode digits, capitals and spaces are not modelled.
- An `<img>` without `src` (which raises `KeyError` midway through the renaming), a `div.input`/`div.output` without `<pre>`, and a `td.id` without a link are not modelled. The modelled statement always has those parts.
- Problems.Problem.GetTestcases: the second `get_raw_statement` call is modelled as returning the statement the first call cached, which is what the cache does.
- The `session` attributes and the `images`/`wrapped_statement` fields of `Problem` are not modelled, since only the left-out operations use them.
- Language.SubmitLanguage: the language id is an `int`. The `str(lang)` payload and the reading of the source file are not modelled.

## Findings

| source | as written | input that shows it | evidently intended | confidence | as-written member | corrected member |
|---|---|---|---|---|---|---|
| main.py:227 | the output loop iterates `inp.find_all('br')`, the last input block, instead of `out.find_all('br')` | an output block `1<br>2` comes back as `"12"`; a statement with an output block and no input block raises `UnboundLocalError` | replace the `<br>` nodes of each output block, so it reads `"1\n2"` | high, not executed | Problems.OutputBreaksDropped | Problems.IntendedTestcases |
