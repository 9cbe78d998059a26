# rich-codex capture-and-diff core in Dafny

This project models the core of rich-codex, a tool that scans Markdown files
for image directives such as ``![`rich --help`](img/help.svg "Help")`` and
turns each one into a screenshot request (a `RichImg` object). It runs the
command or formats the snippet, renders the terminal output to SVG, and
converts it to PNG or PDF where asked. It writes each destination file only
when the new image differs enough from the one on disk. The Dafny model
follows that code and proves what it promises.

The two modelled source files are `src/rich_codex/rich_img.py` and
`src/rich_codex/codex_search.py`. The Dafny modules are:

- `Py`: Python values (a setting may be `None`, a string, an int, a float or a
  bool), the exceptions that can escape, truthiness, `==` and `float()`/`int()`.
- `PyStr`: the `str` methods the code relies on, with their shapes proved:
  `strip`, `startswith`, `endswith`, `lower`, `split(sep)`, `split()` and
  `splitlines()`.
- `Files`: the disk as a map from path to bytes, in a `FileSystem` class that
  `copyfile`, `mkstemp`, `unlink` and file writes update. It also holds the
  `pathlib` helpers `parent`, `/`, `suffix` and `is_relative_to`.
- `Requests`: a request as a value. It holds:
  - the `RICH_IMG_ATTRS` fingerprints behind `__eq__`, `__hash__` and
    `_hash_no_fn`;
  - the `IGNORE_COMMANDS` deny-list;
  - what `run_command`, `format_snippet` and `get_output` record;
  - the write gate of `_enough_image_difference`;
  - the bookkeeping of `save_images`: per-destination steps, the
    `svg_img`/`png_img`/`pdf_img` caches, and the counters.
- `RichImgs`: the `RichImg` class, with fields updated in place by its
  methods. Each method is proved against the functions of `Requests`.
- `ScanSpec`: the line loop of `search_files` as a fold over lines and
  files, with a `local_config` map. It covers the include/exclude set algebra,
  configuration-comment merging, and the request a directive creates.
- `CodexSearches`: the `CodexSearch` class. It covers `_clean_list`,
  `search_files`, `collapse_duplicates` and `save_all_images`, as imperative
  methods proved against `ScanSpec`.

External libraries are parameters: `glob`, the file reader, the two regular
expressions (as matchers that return their groups), `Levenshtein.ratio`,
`difflib.Differ`, `re.search`, rich's renderer, cairosvg, and string-to-number
parsing. Python's set iteration order is a nondeterministic choice (`:|`), so
every proved property holds for any order.

Where the code does something other than what its comments or the tool's
documented design describe, the model follows the code:

- A configuration comment is cleared by the next non-blank line, and blank
  lines carry it forward (codex_search.py:118-120). The documented design
  says that a blank line resets it.
- The config is created once, before the file loop (codex_search.py:86), so it
  carries across file boundaries.
- `RichImg(...)` at codex_search.py:102 passes five arguments by position. Each
  binds one parameter early (rich_img.py:48-57), and `use_pty` stays `False`.
  So a theme name in a comment becomes the terminal width, and `int()` of a
  theme name raises.
- The skip-regex filter of the gate can never change the decision. `diffs` is
  a generator, and logging its length at rich_img.py:254 drains it, so the
  list of lost lines is always empty.
- A file that cannot be opened raises instead of being skipped. An unset
  threshold raises `TypeError` in `float()` as soon as a destination exists.
- `Path(old_fn).relative_to(Path.cwd())` at rich_img.py:274 runs on every
  call of the gate. `Path.cwd()` is absolute, so it raises `ValueError` for
  every relative destination, missing or not, and for an absolute one
  outside the working directory. The scanner builds each destination next
  to the Markdown file that `glob` returned (codex_search.py:107). With
  relative glob patterns that file, and so the destination, is relative.
  Such a request is never written or skipped: its first save raises.
- `collapse_duplicates` appends destination lists with `extend`, so a repeated
  destination is kept, not removed.
- When cairosvg is missing, the `continue` at rich_img.py:355 skips the unlink
  of that destination's temporary file.
- Only the last value of `svg_tmp_filename` is unlinked, after the loop
  (rich_img.py:395-397). Once an SVG destination is cached,
  `svg_tmp_filename` is reassigned to that destination (rich_img.py:339).
  The temporary file the SVG was first rendered into is then never deleted.
  Two examples: destinations `[x.svg, y.png]`, or a second `save_images` on
  a request whose record was cleared. The model keeps the same files on
  disk: every temporary file stays in the disk map.

## Model

| member | source | states |
|---|---|---|
| Py.FloatOf | src/rich_codex/rich_img.py:233 | `float(v)` raises exactly for `None` (TypeError) or an unparsable string; numbers keep their value, True is 1 |
| Py.IntOf | src/rich_codex/rich_img.py:73 | `int(v)` raises exactly for `None` or an unparsable string; an int is returned unchanged |
| Py.Truncate | src/rich_codex/rich_img.py:73 | `int()` of a float truncates toward zero: the result is within one of x, on the side of zero |
| Py.PyEqCrossType | src/rich_codex/rich_img.py:89 | `==` on settings compares numbers across int, float and bool by value (80 == 80.0, True == 1), while "1" != 1 |
| PyStr.StripByShape | src/rich_codex/codex_search.py:113 | `strip(chars)` returns the slice of the input between a dropped prefix and a dropped suffix, and neither end of it is a dropped character |
| PyStr.BlankIffAllSpace | src/rich_codex/codex_search.py:119 | `line.strip() == ""` holds exactly when every character of the line is white space |
| PyStr.StripIdempotent | src/rich_codex/codex_search.py:63 | stripping a stripped string changes nothing |
| PyStr.FindFrom | src/rich_codex/codex_search.py:127-128 | the search for "=" returns the first occurrence at or after the start, and None only when there is none |
| PyStr.Split | src/rich_codex/rich_img.py:116 | `cmd.split("&;")` returns at least one piece, and no piece contains the separator |
| PyStr.SplitWhole | src/rich_codex/rich_img.py:116 | a command without the two-character separator is a single part |
| PyStr.JoinSplit | src/rich_codex/rich_img.py:116 | joining the parts with the separator gives back the command: splitting loses nothing |
| PyStr.WordsAreWords | src/rich_codex/codex_search.py:126 | every piece of `config_str.split()` is a non-empty run of non-space characters |
| PyStr.WordsKeepNonSpace | src/rich_codex/codex_search.py:126 | `split()` loses exactly the white space: the pieces concatenated are the non-space characters in order |
| PyStr.SplitLines | src/rich_codex/codex_search.py:36 | `splitlines()` is empty exactly for the empty string, and no line contains a line break |
| Files.Suffix | src/rich_codex/rich_img.py:241 | `Path.suffix` is empty or starts with "." and ends the path |
| Files.FormatOf | src/rich_codex/rich_img.py:314-328 | a destination is PNG, PDF or SVG exactly when its lower-cased name ends in ".png", ".pdf" or ".svg", so the three tests are exclusive |
| Files.FileSystem.CopyFile | src/rich_codex/rich_img.py:317 | `copyfile` raises for a missing source or a copy onto itself; otherwise the destination gets the source's bytes and nothing else changes |
| Files.FileSystem.WriteFile | src/rich_codex/rich_img.py:368-373 | writing a converted image replaces exactly that file's contents |
| Files.FileSystem.MkTemp | src/rich_codex/rich_img.py:331 | `mkstemp` creates a new empty file under the temporary directory, with a name no file had |
| Files.FileSystem.Unlink | src/rich_codex/rich_img.py:390-392 | `unlink` removes exactly that path, and raises when it is missing |
| Requests.ConsoleWidth | src/rich_codex/rich_img.py:73 | the capture width is None for a falsy setting and raises exactly for a truthy non-numeric string |
| Requests.SameFingerprintEqual | src/rich_codex/rich_img.py:84-99 | requests with the same hash compare equal, and the hashes agree exactly when the no-filename hashes and the destination lists agree |
| Requests.IdentityIgnoresSettings | src/rich_codex/rich_img.py:25-33 | neither `__eq__` nor the hashes depend on the thresholds, `use_pty`, the recorded output, the counters or `aborted` |
| Requests.EqualButDifferentFingerprint | src/rich_codex/rich_img.py:89-94 | two requests can compare equal and hash differently (width 80 and 80.0) |
| Requests.DeniedIsPrefixTest | src/rich_codex/rich_img.py:115-116 | the deny-list tests prefixes, so "rmdir build" is refused |
| Requests.ShellAndIsNotSeparator | src/rich_codex/rich_img.py:116 | only the two-character "&;" separates parts, so "ls && rm x" is not refused |
| Requests.RunCommandOutcome | src/rich_codex/rich_img.py:107-122 | the command is left stripped; `aborted` is set exactly when it is denied; only an accepted command records output, and it becomes the title only when the title was "" |
| Requests.GetOutputDispatch | src/rich_codex/rich_img.py:210-217 | a command wins over a snippet; a snippet is formatted only without a command; with neither nothing changes; destinations never change |
| Requests.JsonExactlyWhen | src/rich_codex/rich_img.py:196-208 | a snippet is printed as JSON exactly when its syntax is unset or "json" and the printer accepts it; "JSON" is highlighted |
| Requests.GateWritesNewImage | src/rich_codex/rich_img.py:226-227 | a destination that does not exist is always written |
| Requests.GateVerdict | src/rich_codex/rich_img.py:219-282 | when the gate decides, it writes exactly when the destination is missing or the change exceeds the threshold; it raises exactly in the listed error cases |
| Requests.GateSkipsAfterCopy | src/rich_codex/rich_img.py:232-234 | after the candidate is copied, asking again sees a 0% change and skips for any non-negative threshold |
| Requests.GateUnsetThresholdRaises | src/rich_codex/rich_img.py:233 | an unset threshold raises TypeError for every existing destination |
| Requests.ThemeOf | src/rich_codex/rich_img.py:293-302 | the theme is the default when unset or unknown, the named theme when it exists, and a non-string setting raises |
| Requests.CacheIsEarlierDestination | src/rich_codex/rich_img.py:342-387 | a cached destination is an earlier destination of that format that took the render path; for PNG and PDF it is one that was written |
| Requests.CountersCountGates | src/rich_codex/rich_img.py:274-282 | saved plus skipped equals the number of destinations that went through the gate |
| Requests.NoRenderAfterSvgCached | src/rich_codex/rich_img.py:334-339 | once an SVG destination is cached, no later destination renders the SVG again |
| Requests.RelativeDestinationRaises | src/rich_codex/rich_img.py:274 | with an absolute working directory, the gate raises for every relative destination, and raises ValueError when that destination does not exist |
| Requests.PassesNext | src/rich_codex/rich_img.py:308-392 | one pass's outcome extends the record of gate calls and disks by that pass, keeping every earlier gate call and disk as it was, or gives the reason LoopFailed names for the error that stopped the loop, with the disk then differing from the last one recorded only in temporary files (a copy that raises writes nothing) |
| Requests.WrittenBytesKept | src/rich_codex/rich_img.py:308-392 | a destination outside the temporary directory that a step wrote with a successful copy still holds the candidate's bytes at every later step until a step writes it again, because each step changes only the destination it wrote and temporary files |
| Requests.WrittenBytesFinal | src/rich_codex/rich_img.py:304-397 | on the disk save_images leaves, with or without an error, a destination outside the temporary directory that a step wrote with a successful copy holds that candidate's bytes unless a later step wrote it again |
| Requests.BytesKeptAlong | src/rich_codex/rich_img.py:308-392 | along the loop's disks, a file outside the temporary directory that no step writes keeps its bytes |
| RichImgs.AnyPartStartsWith | src/rich_codex/rich_img.py:116 | the loop finds a part starting with the word exactly when one exists |
| RichImgs.FindDeniedWord | src/rich_codex/rich_img.py:115-119 | a refused word is found exactly when the command is denied |
| RichImgs.Removed | src/rich_codex/rich_img.py:255 | the lost lines are, in order, exactly the diff lines starting with "-", and each such line occurs in them as often as in the diff |
| RichImgs.Matching | src/rich_codex/rich_img.py:262-264 | the lines a pattern matches, each one a line it was searched in |
| RichImgs.MatchingCounts | src/rich_codex/rich_img.py:262-264 | a line the pattern matches is collected as often as it occurs among the lost lines, and a line it does not match never |
| RichImgs.MatchPattern | src/rich_codex/rich_img.py:263-264 | the inner loop appends exactly the lines the pattern matches, in order |
| RichImgs.MatchLostLines | src/rich_codex/rich_img.py:260-264 | the nested loops collect, pattern by pattern, the lines each pattern matches |
| RichImgs.ChangeMatchesRegexes | src/rich_codex/rich_img.py:244-268 | the regex filter never asks to skip, because the drained generator leaves no lost lines |
| RichImgs.RichImg.constructor | src/rich_codex/rich_img.py:48-82 | a new request has the given settings, an empty title, no command, snippet or destinations, and zero counters |
| RichImgs.RichImg.RunCommand | src/rich_codex/rich_img.py:107-122 | the object's new state is the run_command effect of Requests (see RunCommandOutcome) |
| RichImgs.RichImg.FormatSnippet | src/rich_codex/rich_img.py:189-208 | records the JSON or highlighted snippet chosen by the snippet-capture rule |
| RichImgs.RichImg.GetOutput | src/rich_codex/rich_img.py:210-217 | the object's new state is the get_output effect (see GetOutputDispatch) |
| RichImgs.RichImg.EnoughImageDifference | src/rich_codex/rich_img.py:219-282 | returns the gate's decision and bumps exactly the matching counter, and nothing else, unless it raises |
| RichImgs.RichImg.CountVerdict | src/rich_codex/rich_img.py:275-280 | a write bumps the saved counter, a skip the skipped counter |
| RichImgs.RichImg.GateAndCopy | src/rich_codex/rich_img.py:316-317 | the source is copied exactly when the gate says write; a skip or a gate error leaves the disk alone |
| RichImgs.RichImg.RenderSvgToTemp | src/rich_codex/rich_img.py:334-336 | the SVG of everything recorded goes into a new temporary file, and the record is cleared |
| RichImgs.RichImg.ConvertAndCopy | src/rich_codex/rich_img.py:365-387 | a missing SVG raises FileNotFoundError with the disk unchanged; otherwise the temporary file holds the SVG converted to PNG or PDF, the gate judges it against the destination on that disk, and a write raises exactly the copy's error or gives the destination the converted bytes |
| RichImgs.RichImg.GateRendered | src/rich_codex/rich_img.py:341-387 | an SVG destination gates the SVG itself, a PNG or PDF one its conversion; the destination is written with the candidate's bytes exactly when the gate says write and the copy succeeds |
| RichImgs.RichImg.CacheRendered | src/rich_codex/rich_img.py:342-387 | the caches become those of the step rules: an SVG destination once decided, a PNG or PDF one only once written |
| RichImgs.RichImg.WriteRendered | src/rich_codex/rich_img.py:341-387 | the format branch taken is the one the step rules allow; a gated step wrote exactly on the gate's word, raised only with its copy's error, and left the candidate's bytes in the destination; an error before the step is decided came from the gate or from opening the SVG; skipped steps leave the disk alone |
| RichImgs.RichImg.PrepareSvg | src/rich_codex/rich_img.py:331-339 | a new empty temporary file is made; when no SVG destination is cached the SVG of the record goes into a second new temporary file and the record is cleared, otherwise the cached SVG destination is used |
| RichImgs.RenderOutcome | src/rich_codex/rich_img.py:330-392 | the render path, seen from the disk before the pass, has the outcome PassOutcome names: the gate saw that disk with only temporary files added, a written destination received the fresh or cached SVG converted to its format, and an error names its source |
| RichImgs.RemoveTemp | src/rich_codex/rich_img.py:389-392 | the temporary file is removed exactly when it lies under the temporary directory, and nothing else changes |
| RichImgs.RichImg.SaveRendered | src/rich_codex/rich_img.py:330-392 | the SVG is rendered exactly when no SVG destination is cached; the pass has the outcome PassOutcome names; the temporary file tmp is new, and without an error it is deleted exactly unless conversion was skipped |
| RichImgs.CachedOutcome | src/rich_codex/rich_img.py:313-328 | a cached destination's pass gates that earlier destination's bytes on the unchanged disk, and a write copies exactly those bytes |
| RichImgs.RichImg.SaveTo | src/rich_codex/rich_img.py:313-392 | a destination whose format is cached gets, through the gate, the bytes of that earlier destination, without rendering; otherwise it takes the render path; either way the pass has the outcome PassOutcome names |
| RichImgs.RichImg.SaveCounted | src/rich_codex/rich_img.py:308-392 | one pass of the destination loop appends the step it decided, keeps the counters and the record in step with the steps, keeps a cached SVG destination, and leaves svg_tmp_filename the cached SVG destination or a temporary file |
| RichImgs.RichImg.SaveNext | src/rich_codex/rich_img.py:308-392 | one pass of the destination loop extends the steps, gate calls and disks by that pass, leaving the earlier ones as they were, and changes the disk only in the destination it wrote and temporary files; or it ends with the error LoopFailed names, leaving the disk as last recorded but for temporary files |
| RichImgs.RichImg.SaveEach | src/rich_codex/rich_img.py:304-392 | the destination loop takes, in order, the step the caches allow for every destination; each gated step wrote on the gate's word with the bytes it offered; each disk differs from the one before only in the destination that step wrote and in temporary files, the first being the disk before the loop; it stops only with the error of a failed copy, of a gate, or of opening a missing SVG, and then the disk differs from the last one recorded only in temporary files |
| RichImgs.RichImg.SaveImages | src/rich_codex/rich_img.py:284-397 | nothing happens for an aborted request or one without destinations; otherwise the counters grow by the written and skipped steps, the SVG is rendered from the record once, only written destinations and temporary files change, each written destination holds the bytes its step offered; after a loop that got through every destination the final svg_tmp_filename is unlinked exactly when it lies under the temporary directory, nothing else changes, and FileNotFoundError is raised exactly when that file is missing; any other error is one LoopFailed names; with or without an error the final disk differs from the last one recorded only in temporary files, so written destinations keep their bytes (WrittenBytesFinal) |
| ScanSpec.GlobAllMembers | src/rich_codex/codex_search.py:71-72 | a file is in the union of the globs exactly when some pattern finds it |
| ScanSpec.SearchSetMembers | src/rich_codex/codex_search.py:70-74 | a file is searched exactly when some include pattern finds it and no exclude pattern does |
| ScanSpec.SearchSetOrderFree | src/rich_codex/codex_search.py:70-74 | the searched set does not depend on pattern order or repetition |
| ScanSpec.AssignmentSplitsAtFirst | src/rich_codex/codex_search.py:127-128 | a part assigns exactly when it holds "=", and is cut at the first one, so a value may contain "=" |
| ScanSpec.MergeLastWins | src/rich_codex/codex_search.py:126-129 | the last part that assigns a key decides its value |
| ScanSpec.MergeKeepsUnassigned | src/rich_codex/codex_search.py:126-129 | a key no part assigns keeps its earlier value, or stays absent |
| ScanSpec.SkipValues | src/rich_codex/codex_search.py:93 | SKIP skips exactly when its value is non-empty ("0" too); a bare SKIP without "=" is ignored |
| ScanSpec.LineRequests | src/rich_codex/codex_search.py:92-116 | a line adds one request when it matches and SKIP is not set, none otherwise, and raises exactly when building that request raises |
| ScanSpec.ScanLinesAppend | src/rich_codex/codex_search.py:89-129 | scanning two runs of lines is scanning the first, then the second from where it stopped |
| ScanSpec.ScanLinesKeeps | src/rich_codex/codex_search.py:116 | scanning only appends requests |
| ScanSpec.InertLines | src/rich_codex/codex_search.py:118-129 | blank lines with no directive and no comment leave the scan unchanged |
| ScanSpec.CommentGovernsNextLine | src/rich_codex/codex_search.py:92-129 | a comment governs the next non-blank line, across blank lines, and that line's image uses the comment's settings alone |
| ScanSpec.ConfigClearedByNonBlankLine | src/rich_codex/codex_search.py:118-120 | a non-blank line without a comment empties the config, so the next image uses the defaults |
| ScanSpec.SameLineCommentIgnored | src/rich_codex/codex_search.py:91-129 | a comment on an image's own line never affects that image |
| ScanSpec.ConfigCarriesAcrossFiles | src/rich_codex/codex_search.py:86-89 | a comment on the last line of one file governs an image on the first line of the next |
| ScanSpec.DirectiveBindsShifted | src/rich_codex/codex_search.py:97-113 | a directive's request has the command, one destination next to the file and the stripped title; its settings bind one constructor parameter early, and use_pty is False |
| ScanSpec.TitleHasNoEdges | src/rich_codex/codex_search.py:112-113 | a title neither starts nor ends with a quote or a space |
| ScanSpec.ShiftedThresholdRaises | src/rich_codex/codex_search.py:97-102 | with no skip-regex setting, the request's threshold is unset and the gate raises for every existing destination |
| ScanSpec.ThemeNameRaises | src/rich_codex/codex_search.py:100-102 | a theme name in a comment reaches `int()` as the width and raises ValueError |
| ScanSpec.RelativeImagePath | src/rich_codex/codex_search.py:107 | a relative image path in a file found by a relative path makes a relative destination |
| ScanSpec.RelativeDirectiveRaisesAtGate | src/rich_codex/codex_search.py:97-108 | a directive with a relative image path in a file found by a relative path makes a request with one destination, and the gate raises for it on every disk |
| ScanSpec.UsePtyNeverPassed | src/rich_codex/codex_search.py:101-102 | USE_PTY becomes the theme, never use_pty |
| ScanSpec.SkipDropsDirective | src/rich_codex/codex_search.py:93 | while SKIP is set, a line adds no request and only the config moves on |
| CodexSearches.CleanList | src/rich_codex/codex_search.py:59-66 | the loop returns the cleaned lines |
| CodexSearches.CleanedExactly | src/rich_codex/codex_search.py:59-66 | the cleaned list is, in input order, exactly the stripped lines that are non-empty and do not start with "#" |
| CodexSearches.CleanedIdempotent | src/rich_codex/codex_search.py:59-66 | cleaning a cleaned list changes nothing |
| CodexSearches.CodexSearch.constructor | src/rich_codex/codex_search.py:23-57 | the includes are the cleaned lines or "**/*.md"; the excludes are the fixed ones, then the cleaned given ones, then the cleaned `.gitignore`; no requests and zero totals |
| CodexSearches.CodexSearch.ResolveSearchFiles | src/rich_codex/codex_search.py:70-74 | the two loops compute the searched set (see SearchSetMembers) |
| CodexSearches.CodexSearch.MergeConfig | src/rich_codex/codex_search.py:126-129 | the merge loop computes the merged config (see MergeLastWins) |
| CodexSearches.CodexSearch.NewRequest | src/rich_codex/codex_search.py:97-113 | the new object's state is the directive's request (see DirectiveBindsShifted) |
| CodexSearches.CodexSearch.AddRequest | src/rich_codex/codex_search.py:94-116 | appends exactly the directive's request, or raises with the list unchanged |
| CodexSearches.CodexSearch.ScanOneLine | src/rich_codex/codex_search.py:89-129 | one pass adds the line's requests and moves the config as the fold says |
| CodexSearches.CodexSearch.ScanFileLines | src/rich_codex/codex_search.py:88-129 | the line loop agrees with the fold over the file's lines, stopping at the first error |
| CodexSearches.CodexSearch.SearchFiles | src/rich_codex/codex_search.py:68-129 | every searched file is scanned once, in some order, with the config carried along; the requests are those of the fold |
| CodexSearches.CodexSearch.DedupByHash | src/rich_codex/codex_search.py:134 | the set keeps one object per hash, each an input object, with no two of equal hash |
| CodexSearches.CodexSearch.MergedResult | src/rich_codex/codex_search.py:136-142 | after the merge loop, no two outputs share a no-filename hash, and every original destination is in the output standing for its hash |
| CodexSearches.CodexSearch.MergeNew | src/rich_codex/codex_search.py:141-142 | a new hash makes its object the one standing for it |
| CodexSearches.CodexSearch.MergeExtend | src/rich_codex/codex_search.py:139-140 | a known hash appends the object's destinations to the one standing for it |
| CodexSearches.CodexSearch.AppendPaths | src/rich_codex/codex_search.py:140 | `extend` changes that object's destination list only and no hash |
| CodexSearches.CodexSearch.MergeByNoFn | src/rich_codex/codex_search.py:136-142 | the merge keeps at most one object per no-filename hash and loses no destination |
| CodexSearches.CodexSearch.CollapseDuplicates | src/rich_codex/codex_search.py:131-144 | the count does not grow; no two requests share a no-filename hash; every destination of every request is in the remaining request with its hash |
| CodexSearches.CodexSearch.SaveOne | src/rich_codex/codex_search.py:184-185 | an aborted request is saved without error |
| CodexSearches.CodexSearch.SaveAllImages | src/rich_codex/codex_search.py:181-187 | the totals grow by the sum of the saved and skipped counters of the requests handled, which is all of them unless an error stops the loop |

## Left out

- Running commands: `pty`, the window-size `ioctl`, the SIGWINCH handler, `subprocess.Popen` and the read loop (rich_img.py:125-182). These are OS and concurrency plumbing; a run is recorded as a `CommandOutput(cmd, pty)` entry instead of its real output.
- ANSI decoding and rich's rendering (`print`, `print_json`, `Syntax`, `save_svg`) and cairosvg's conversion. These are foreign libraries, modelled as functions of the recorded output that always succeed. A conversion that raises, such as `svg2png` or `svg2pdf` on a malformed SVG (rich_img.py:368-383), is not modelled.
- `Levenshtein.ratio`, `difflib.Differ` and `re.search`: abstract functions. The percentage is a real number; float rounding and the `:.2f` formatting are not modelled.
- `confirm_command` and `confirm_commands`: interactive prompts.
- Logging throughout, and the log message built in the gate.
- `mkdir` of destination directories: directories are not modelled.
- Hash collisions: `hash(str([...]))` is the fingerprint value itself, so distinct fingerprints never collide. How `str()` prints each value is not modelled.
- `lower()` changes ASCII letters only; Unicode case mapping is not modelled.
- Decoding files as text and the `IOError` of `.gitignore` are parameters. `glob`, reading a searched file and the two regular expressions are matchers passed in.
- Path normalisation beyond `parent`, `/`, `suffix` and `is_relative_to` is not modelled.
- `self.rich_imgs = merged_imgs.values()` stores a dict view; the model stores a list in the dict's order.
- Files.FileSystem.MkTemp: chooses any new name under the temporary directory; `mkstemp`'s naming scheme is not modelled.
- CodexSearches.CodexSearch.SearchFiles: the order in which the set yields files is a ghost result, not a fixed order.
- CodexSearches.CodexSearch.CollapseDuplicates: does not state that no destination is invented, nor the order in which lists are appended (it depends on the set's iteration order).
- CodexSearches.CodexSearch.SaveAllImages: does not state that the requests after a failing one are left untouched; it relates the totals to the counters the handled requests hold after saving.
- CodexSearches.CodexSearch.SaveOne: states only that an aborted request saves without error; its full effect is that of RichImg.GetOutput followed by RichImg.SaveImages.
- RichImgs.RichImg.SaveImages: the bytes a written destination received are stated only for a destination outside the temporary directory, because the disk frames leave every file under the temporary directory unconstrained.
- RichImgs.RichImg.SaveImages: the final temporary SVG is stated only to be the cached SVG destination or a file under the temporary directory, not which render's `mkstemp` file it is.
- RichImgs.RichImg.SaveImages: the error cases are stated when the theme lookup succeeds; a theme lookup that raises is stated separately, with nothing changed.
