/** One screenshot request (a RichImg object of rich_img.py) as a value, and
    the decisions rich_img.py takes about it without touching the disk:
    its identity, the command deny-list, what run_command, format_snippet
    and get_output record, and whether a candidate image replaces an
    existing one. The class RichImgs.RichImg is proved against these. */
module Requests {
  import opened Py
  import opened PyStr
  import opened Files

  /** What the capture console has recorded; the renderer turns it into an SVG. */
  datatype Captured =
    | CommandOutput(cmd: string, pty: bool)       // the output of running cmd in a shell
    | JsonSnippet(text: string)                  // Console.print_json(json=text)
    | SyntaxSnippet(text: string, syntax: Value)  // Console.print(Syntax(text, syntax))

  datatype Request = Request(
    snippetSyntax: Value,
    minPctDiff: Value,
    skipChangeRegex: Value,
    terminalWidth: Value,
    terminalTheme: Value,
    usePty: Value,
    consoleWidth: Option<int>,   // the capture console's width, int(terminal_width)
    title: string,
    cmd: Option<string>,
    snippet: Option<string>,
    imgPaths: seq<string>,
    captured: seq<Captured>,
    numImgSaved: nat,
    numImgSkipped: nat,
    aborted: bool)

  /** `int(terminal_width) if terminal_width else None`, as the capture
      console is built; int() of a non-numeric string raises. */
  function ConsoleWidth(terminalWidth: Value, parseInt: string -> Option<int>): (r: Result<Option<int>>)
    ensures !Truthy(terminalWidth) ==> r == Ok(None)
    ensures r.Err? <==> Truthy(terminalWidth) && terminalWidth.StrV? && parseInt(terminalWidth.s).None?
  {
    if !Truthy(terminalWidth) then Ok(None)
    else match IntOf(terminalWidth, parseInt)
      case Ok(n) => Ok(Some(n))
      case Err(e) => Err(e)
  }

  /** The state __init__ leaves: no command, no snippet, no paths, empty title. */
  function Initial(snippetSyntax: Value, minPctDiff: Value, skipChangeRegex: Value,
                   terminalWidth: Value, terminalTheme: Value, usePty: Value,
                   consoleWidth: Option<int>): Request
  {
    Request(snippetSyntax, minPctDiff, skipChangeRegex, terminalWidth, terminalTheme, usePty,
            consoleWidth, "", None, None, [], [], 0, 0, false)
  }

  // ---------------------------------------------------------------- identity

  /** The attributes of RICH_IMG_ATTRS, in order; `hash(str([...]))` is
      modelled by this value itself, so distinct values never collide. */
  datatype Fingerprint = Fingerprint(
    terminalWidth: Value, terminalTheme: Value, title: string, cmd: Option<string>,
    snippet: Option<string>, snippetSyntax: Value, imgPaths: seq<string>)

  /** RICH_IMG_ATTRS without img_paths (_hash_no_fn). */
  datatype FingerprintNoFn = FingerprintNoFn(
    terminalWidth: Value, terminalTheme: Value, title: string, cmd: Option<string>,
    snippet: Option<string>, snippetSyntax: Value)

  function FingerprintOf(r: Request): Fingerprint
  {
    Fingerprint(r.terminalWidth, r.terminalTheme, r.title, r.cmd, r.snippet, r.snippetSyntax, r.imgPaths)
  }

  function NoFnOf(r: Request): FingerprintNoFn
  {
    FingerprintNoFn(r.terminalWidth, r.terminalTheme, r.title, r.cmd, r.snippet, r.snippetSyntax)
  }

  /** __eq__: every attribute of RICH_IMG_ATTRS compares equal with Python's `==`. */
  predicate Equal(a: Request, b: Request)
  {
    && PyEq(a.terminalWidth, b.terminalWidth) && PyEq(a.terminalTheme, b.terminalTheme)
    && a.title == b.title && a.cmd == b.cmd && a.snippet == b.snippet
    && PyEq(a.snippetSyntax, b.snippetSyntax) && a.imgPaths == b.imgPaths
  }

  /** Requests with the same hash compare equal, and the no-filename hash
      only forgets the destinations. */
  lemma SameFingerprintEqual(a: Request, b: Request)
    ensures FingerprintOf(a) == FingerprintOf(b) ==> Equal(a, b)
    ensures FingerprintOf(a) == FingerprintOf(b) <==> NoFnOf(a) == NoFnOf(b) && a.imgPaths == b.imgPaths
  {
    PyEqReflexive(a.terminalWidth);
    PyEqReflexive(a.terminalTheme);
    PyEqReflexive(a.snippetSyntax);
  }

  /** Neither identity sees the thresholds, use_pty, the recorded output,
      the counters or the aborted flag. */
  lemma IdentityIgnoresSettings(a: Request, minPctDiff: Value, skipChangeRegex: Value, usePty: Value,
                                captured: seq<Captured>, saved: nat, skipped: nat, aborted: bool)
    ensures var b := a.(minPctDiff := minPctDiff, skipChangeRegex := skipChangeRegex, usePty := usePty,
                        captured := captured, numImgSaved := saved, numImgSkipped := skipped, aborted := aborted);
      FingerprintOf(b) == FingerprintOf(a) && NoFnOf(b) == NoFnOf(a) && Equal(a, b)
  {
    SameFingerprintEqual(a, a);
  }

  /** __eq__ is coarser than __hash__: a width of 80 and one of 80.0 compare
      equal but print, and so hash, differently. */
  lemma EqualButDifferentFingerprint()
    ensures exists a: Request, b: Request :: Equal(a, b) && FingerprintOf(a) != FingerprintOf(b)
  {
    var a := Initial(NoneV, IntV(0), NoneV, IntV(80), NoneV, BoolV(false), Some(80));
    var b := a.(terminalWidth := FloatV(80.0));
    PyEqReflexive(NoneV);
    assert Equal(a, b);
    assert FingerprintOf(a).terminalWidth != FingerprintOf(b).terminalWidth;
  }

  // ------------------------------------------------------------- deny-list

  /** IGNORE_COMMANDS */
  const IgnoreCommands: seq<string> := ["rm", "cp", "mv", "sudo"]

  /** The separator run_command splits a command on: the two characters "&;". */
  const CommandSeparator: string := "&;"

  /** `any(part.strip().startswith(word) for part in cmd.split("&;"))` */
  predicate DeniedBy(cmd: string, word: string)
  {
    var parts := Split(cmd, CommandSeparator);
    exists k :: 0 <= k < |parts| && StartsWith(Strip(parts[k]), word)
  }

  /** run_command refuses cmd: some word of IGNORE_COMMANDS prefixes some part. */
  predicate Denied(cmd: string)
  {
    exists i :: 0 <= i < |IgnoreCommands| && DeniedBy(cmd, IgnoreCommands[i])
  }

  /** The test is a prefix test, not a word test: "rmdir" is refused
      because it starts with "rm". */
  lemma DeniedIsPrefixTest()
    ensures Denied("rmdir build")
  {
    var c := "rmdir build";
    MissingCharNotContained(c, CommandSeparator, 0);
    SplitWhole(c, CommandSeparator);
    StripNoEdges(c);
    assert StartsWith(Strip(Split(c, CommandSeparator)[0]), "rm");
    assert DeniedBy(c, IgnoreCommands[0]);
  }

  /** Only the two-character "&;" separates parts: a shell "&&" does not,
      so a refused word after it goes unnoticed. */
  lemma ShellAndIsNotSeparator()
    ensures !Denied("ls && rm x")
  {
    var c := "ls && rm x";
    MissingCharNotContained(c, CommandSeparator, 1);
    SplitWhole(c, CommandSeparator);
    StripNoEdges(c);
    forall i | 0 <= i < |IgnoreCommands| ensures !DeniedBy(c, IgnoreCommands[i]) {
      assert !StartsWith(c, IgnoreCommands[i]) by { assert c[0] == 'l'; }
    }
  }

  // ----------------------------------------------------- capturing output

  /** Which renderable format_snippet records for a snippet: JSON when the
      syntax is unset or "json" and print_json accepts the text, otherwise
      a syntax-highlighted block. */
  function SnippetCapture(text: string, syntax: Value, jsonPrints: string -> bool): Captured
  {
    if (syntax == StrV("json") || syntax == NoneV) && jsonPrints(text) then JsonSnippet(text)
    else SyntaxSnippet(text, syntax)
  }

  /** The effect of run_command on the request. */
  function AfterRunCommand(r: Request): Request
  {
    match r.cmd
    case None => r
    case Some(raw) =>
      var c := Strip(raw);
      if Denied(c) then r.(cmd := Some(c), aborted := true)
      else r.(cmd := Some(c), title := if r.title == "" then c else r.title,
              captured := r.captured + [CommandOutput(c, Truthy(r.usePty))])
  }

  /** The effect of format_snippet on the request. */
  function AfterFormatSnippet(r: Request, jsonPrints: string -> bool): Request
  {
    match r.snippet
    case None => r
    case Some(text) => r.(captured := r.captured + [SnippetCapture(text, r.snippetSyntax, jsonPrints)])
  }

  /** The effect of get_output on the request. */
  function AfterGetOutput(r: Request, jsonPrints: string -> bool): Request
  {
    if r.cmd.Some? then AfterRunCommand(r)
    else if r.snippet.Some? then AfterFormatSnippet(r, jsonPrints)
    else r
  }

  /** A command is trimmed; a refused one sets aborted and records nothing;
      an accepted one records its output and becomes the title when no
      title was given. */
  lemma RunCommandOutcome(r: Request)
    requires r.cmd.Some?
    ensures var c := Strip(r.cmd.value); var s := AfterRunCommand(r);
      && s.cmd == Some(c)
      && s.aborted == (r.aborted || Denied(c))
      && s.captured == (if Denied(c) then r.captured else r.captured + [CommandOutput(c, Truthy(r.usePty))])
      && s.title == (if !Denied(c) && r.title == "" then c else r.title)
      && s.(cmd := r.cmd, aborted := r.aborted, captured := r.captured, title := r.title) == r
  {
  }

  /** AfterRunCommand in terms of the trimmed command c. */
  lemma RunCommandUnfold(r: Request, c: string)
    requires r.cmd.Some? && c == Strip(r.cmd.value)
    ensures AfterRunCommand(r) ==
      if Denied(c) then r.(cmd := Some(c), aborted := true)
      else r.(cmd := Some(c), title := if r.title == "" then c else r.title,
              captured := r.captured + [CommandOutput(c, Truthy(r.usePty))])
  {
  }

  /** A command wins over a snippet; with neither nothing happens; only the
      recorded output, and for commands the command, title and aborted
      flag, can change. */
  lemma GetOutputDispatch(r: Request, jsonPrints: string -> bool)
    ensures r.cmd.Some? ==> AfterGetOutput(r, jsonPrints) == AfterRunCommand(r)
    ensures r.cmd.None? && r.snippet.Some? ==>
      AfterGetOutput(r, jsonPrints) == r.(captured := r.captured + [SnippetCapture(r.snippet.value, r.snippetSyntax, jsonPrints)])
    ensures r.cmd.None? && r.snippet.None? ==> AfterGetOutput(r, jsonPrints) == r
    ensures var s := AfterGetOutput(r, jsonPrints);
      s.imgPaths == r.imgPaths && s.snippet == r.snippet && NoFnOf(s).terminalWidth == r.terminalWidth
  {
  }

  /** Snippets are printed as JSON exactly when the syntax is unset or
      "json" and the printer accepts them; any other syntax, "JSON" too,
      is highlighted. */
  lemma JsonExactlyWhen(text: string, syntax: Value, jsonPrints: string -> bool)
    ensures SnippetCapture(text, syntax, jsonPrints).JsonSnippet? <==>
      (syntax == NoneV || syntax == StrV("json")) && jsonPrints(text)
    ensures SnippetCapture(text, StrV("JSON"), jsonPrints) == SyntaxSnippet(text, StrV("JSON"))
  {
    assert StrV("JSON") != StrV("json") by { assert "JSON"[0] != "json"[0]; }
  }

  // ------------------------------------------------------ the write gate

  /** The libraries and process state the output side depends on. */
  datatype RenderEnv = RenderEnv(
    ratio: (Bytes, Bytes) -> real,                         // Levenshtein.ratio
    parseFloat: string -> Option<real>,                   // float() of a string
    decodeText: Bytes -> string,                          // read_text(errors="ignore")
    differ: (seq<string>, seq<string>) -> seq<string>,    // the lines difflib.Differ().compare yields
    search: (string, string) -> bool,                     // re.search(pattern, line) matched
    cwd: string,                                          // Path.cwd()
    tempDir: string,                                      // tempfile.gettempdir()
    jsonPrints: string -> bool,                           // Console.print_json accepts the text
    themes: string -> bool,                               // rich.terminal_theme has this attribute
    renderSvg: (seq<Captured>, Option<int>, string, Option<string>) -> Bytes,  // Console.save_svg
    svgToPng: Bytes -> Bytes,                             // cairosvg.svg2png
    svgToPdf: Bytes -> Bytes,                             // cairosvg.svg2pdf
    cairoAvailable: bool)                                 // cairosvg imports
  {
    /** Path.cwd() is always an absolute path. */
    predicate AbsoluteCwd()
    {
      StartsWith(cwd, "/")
    }
  }

  /** `(1 - ratio) * 100` */
  function PctChange(ratio: real): real
  {
    (1.0 - ratio) * 100.0
  }

  /** IGNORE_REGEXES.get(suffix, []) */
  function IgnoreRegexes(suffix: string): seq<string>
  {
    if suffix == ".pdf" then ["/CreationDate"] else []
  }

  /** The outcome of _enough_image_difference(newFn, oldFn): Ok(true) writes
      the candidate newFn over oldFn, Ok(false) keeps oldFn, Err is the
      exception that escapes. */
  function GateDecision(newFn: string, oldFn: string, files: map<string, Bytes>,
                        minPctDiff: Value, skipChangeRegex: Value, env: RenderEnv): Result<bool>
  {
    var decided :=
      if oldFn !in files then Ok(true)
      else if newFn !in files then Err(FileNotFound)
      else
        var pct := PctChange(env.ratio(files[newFn], files[oldFn]));
        match FloatOf(minPctDiff, env.parseFloat)
        case Err(e) => Err(e)
        case Ok(threshold) =>
          if pct > 0.0 && Truthy(skipChangeRegex) && !skipChangeRegex.StrV? then Err(AttributeError)
          else Ok(!(pct <= threshold));
    if decided.Ok? && !IsRelativeTo(oldFn, env.cwd) then Err(ValueError) else decided
  }

  /** The counters after a gate call: one of them goes up unless it raised. */
  function AfterGate(r: Request, outcome: Result<bool>): Request
  {
    match outcome
    case Err(_) => r
    case Ok(write) =>
      if write then r.(numImgSaved := r.numImgSaved + 1) else r.(numImgSkipped := r.numImgSkipped + 1)
  }

  /** A destination that does not exist yet is always written. */
  lemma GateWritesNewImage(newFn: string, oldFn: string, files: map<string, Bytes>,
                           minPctDiff: Value, skipChangeRegex: Value, env: RenderEnv)
    requires oldFn !in files && IsRelativeTo(oldFn, env.cwd)
    ensures GateDecision(newFn, oldFn, files, minPctDiff, skipChangeRegex, env) == Ok(true)
  {
  }

  /** A destination given as a relative path never gets through the gate:
      `Path(old_fn).relative_to(Path.cwd())` raises ValueError for it, since
      the working directory is absolute. So a relative destination is never
      written or skipped, whatever its contents. */
  lemma RelativeDestinationRaises(newFn: string, oldFn: string, files: map<string, Bytes>,
                                  minPctDiff: Value, skipChangeRegex: Value, env: RenderEnv)
    requires env.AbsoluteCwd() && !StartsWith(oldFn, "/")
    ensures GateDecision(newFn, oldFn, files, minPctDiff, skipChangeRegex, env).Err?
    ensures oldFn !in files ==> GateDecision(newFn, oldFn, files, minPctDiff, skipChangeRegex, env) == Err(ValueError)
  {
    var base := if EndsWith(env.cwd, "/") then env.cwd else env.cwd + "/";
    assert base[0] == '/';
  }

  /** When the gate decides, it writes exactly when the destination is
      missing or the change exceeds the threshold; the skip-regex branch
      never changes the verdict (its line list is always empty, see
      RichImgs.RichImg.EnoughImageDifference). */
  lemma GateVerdict(newFn: string, oldFn: string, files: map<string, Bytes>,
                    minPctDiff: Value, skipChangeRegex: Value, env: RenderEnv)
    ensures var d := GateDecision(newFn, oldFn, files, minPctDiff, skipChangeRegex, env);
      d.Ok? ==> (d.value <==> (oldFn !in files ||
        PctChange(env.ratio(files[newFn], files[oldFn])) > FloatOf(minPctDiff, env.parseFloat).value))
    ensures var d := GateDecision(newFn, oldFn, files, minPctDiff, skipChangeRegex, env);
      d.Err? <==> (!IsRelativeTo(oldFn, env.cwd) ||
        (oldFn in files && (newFn !in files || FloatOf(minPctDiff, env.parseFloat).Err? ||
          (PctChange(env.ratio(files[newFn], files[oldFn])) > 0.0 && Truthy(skipChangeRegex) && !skipChangeRegex.StrV?))))
  {
  }

  /** Writing the candidate and asking again skips it: once the destination
      holds the same bytes the change is 0%, which no non-negative
      threshold exceeds. This is what keeps a second run from rewriting
      unchanged images. */
  lemma GateSkipsAfterCopy(newFn: string, oldFn: string, files: map<string, Bytes>,
                           minPctDiff: Value, skipChangeRegex: Value, env: RenderEnv)
    requires newFn in files && newFn != oldFn && IsRelativeTo(oldFn, env.cwd)
    requires env.ratio(files[newFn], files[newFn]) == 1.0
    requires FloatOf(minPctDiff, env.parseFloat).Ok? && FloatOf(minPctDiff, env.parseFloat).value >= 0.0
    ensures GateDecision(newFn, oldFn, files[oldFn := files[newFn]], minPctDiff, skipChangeRegex, env) == Ok(false)
  {
    var after := files[oldFn := files[newFn]];
    assert after[newFn] == after[oldFn] == files[newFn];
    assert PctChange(env.ratio(after[newFn], after[oldFn])) == 0.0;
  }

  /** An unset threshold makes every existing destination raise TypeError:
      float(None). */
  lemma GateUnsetThresholdRaises(newFn: string, oldFn: string, files: map<string, Bytes>,
                                 skipChangeRegex: Value, env: RenderEnv)
    requires oldFn in files && newFn in files
    ensures GateDecision(newFn, oldFn, files, NoneV, skipChangeRegex, env) == Err(TypeError)
  {
  }

  // ------------------------------------------------ fanning out to paths

  /** save_images' theme lookup: an unset theme is the default, an unknown
      name falls back to the default, and a setting that is not a string
      makes getattr raise TypeError. */
  function ThemeOf(terminalTheme: Value, themes: string -> bool): (r: Result<Option<string>>)
    ensures r.Err? <==> Truthy(terminalTheme) && !terminalTheme.StrV?
    ensures r.Ok? && r.value.Some? ==> terminalTheme == StrV(r.value.value) && themes(r.value.value)
  {
    if !Truthy(terminalTheme) then Ok(None)
    else if !terminalTheme.StrV? then Err(TypeError)
    else if themes(terminalTheme.s) then Ok(Some(terminalTheme.s))
    else Ok(None)
  }

  /** What save_images did for one destination. */
  datatype Step =
    | FromCache(source: string, wrote: bool)   // an earlier destination of the same format was gated and copied
    | Rendered(svgFresh: bool, wrote: bool)    // the SVG (freshly rendered or reused) was gated or converted and gated
    | Unconverted(svgFresh: bool)              // PNG or PDF without cairosvg: nothing written
    | Unsupported(svgFresh: bool)              // no known extension: an SVG was prepared, nothing written

  predicate Wrote(s: Step)
  {
    (s.FromCache? || s.Rendered?) && s.wrote
  }

  predicate Gated(s: Step)
  {
    s.FromCache? || s.Rendered?
  }

  /** The destinations save_images reuses (svg_img, png_img, pdf_img). */
  datatype Caches = Caches(svg: Option<string>, png: Option<string>, pdf: Option<string>)
  {
    function Of(f: Format): Option<string>
    {
      match f
      case Svg => svg
      case Png => png
      case Pdf => pdf
    }
  }

  /** The cache for format f once destination filename has been handled by
      step s: a cache, once set, stays; otherwise it becomes filename when
      filename has format f and took the render path — for SVG whether or
      not it was written, for PNG and PDF only when it was. */
  function NextCache(filename: string, s: Step, f: Format, cached: Option<string>): Option<string>
  {
    if cached.Some? then cached
    else if FormatOf(filename) == Some(f) && s.Rendered? && (f == Svg || s.wrote) then Some(filename)
    else None
  }

  function NextCaches(filename: string, s: Step, c: Caches): Caches
  {
    Caches(NextCache(filename, s, Svg, c.svg), NextCache(filename, s, Png, c.png), NextCache(filename, s, Pdf, c.pdf))
  }

  /** The caches after the given steps, starting from none. */
  function CachesAfter(paths: seq<string>, steps: seq<Step>): Caches
    requires |steps| <= |paths|
  {
    if steps == [] then Caches(None, None, None)
    else
      var n := |steps| - 1;
      NextCaches(paths[n], steps[n], CachesAfter(paths, steps[..n]))
  }

  /** s is the step save_images takes for destination filename when the
      caches are c: a cached destination of the same format is reused;
      otherwise the SVG is rendered exactly when no SVG destination is
      cached, and PNG or PDF are converted only when cairosvg imports. */
  predicate StepFor(filename: string, s: Step, c: Caches, cairo: bool)
  {
    var f := FormatOf(filename);
    var svgFresh := c.svg.None?;
    match s
    case FromCache(source, _) => f.Some? && c.Of(f.value) == Some(source)
    case Rendered(rendered, _) =>
      f.Some? && c.Of(f.value).None? && rendered == svgFresh && (f.value != Svg ==> cairo)
    case Unconverted(rendered) =>
      f.Some? && f.value != Svg && c.Of(f.value).None? && !cairo && rendered == svgFresh
    case Unsupported(rendered) => f.None? && rendered == svgFresh
  }

  /** Step i is the one save_images takes for destination i, given the caches
      the earlier steps leave. */
  predicate StepFits(paths: seq<string>, steps: seq<Step>, i: nat, cairo: bool)
    requires i < |steps| <= |paths|
  {
    StepFor(paths[i], steps[i], CachesAfter(paths, steps[..i]), cairo)
  }

  predicate StepsFit(paths: seq<string>, steps: seq<Step>, cairo: bool)
    requires |steps| <= |paths|
  {
    forall i :: 0 <= i < |steps| ==> StepFits(paths, steps, i, cairo)
  }

  function SavedCount(steps: seq<Step>): nat
  {
    if steps == [] then 0 else SavedCount(steps[..|steps| - 1]) + (if Wrote(steps[|steps| - 1]) then 1 else 0)
  }

  function SkippedCount(steps: seq<Step>): nat
  {
    if steps == [] then 0
    else SkippedCount(steps[..|steps| - 1]) + (if Gated(steps[|steps| - 1]) && !Wrote(steps[|steps| - 1]) then 1 else 0)
  }

  /** How many times the SVG was rendered. */
  function RenderCount(steps: seq<Step>): nat
  {
    if steps == [] then 0
    else
      var s := steps[|steps| - 1];
      RenderCount(steps[..|steps| - 1]) + (if !s.FromCache? && s.svgFresh then 1 else 0)
  }

  function WrittenPaths(paths: seq<string>, steps: seq<Step>): set<string>
    requires |steps| <= |paths|
  {
    set i | 0 <= i < |steps| && Wrote(steps[i]) :: paths[i]
  }

  /** Appending the step for the next destination: the steps still fit,
      and the caches are updated by it. */
  lemma AppendStep(paths: seq<string>, steps: seq<Step>, s: Step, cairo: bool)
    requires |steps| < |paths| && StepsFit(paths, steps, cairo)
    requires StepFor(paths[|steps|], s, CachesAfter(paths, steps), cairo)
    ensures StepsFit(paths, steps + [s], cairo)
    ensures CachesAfter(paths, steps + [s]) == NextCaches(paths[|steps|], s, CachesAfter(paths, steps))
  {
    var longer := steps + [s];
    assert longer[..|steps|] == steps;
    forall i | 0 <= i < |steps| ensures StepFits(paths, longer, i, cairo) {
      assert longer[..i] == steps[..i];
      assert StepFits(paths, steps, i, cairo);
    }
  }

  /** Appending a step adds its own contribution to each count. */
  lemma AppendCounts(steps: seq<Step>, s: Step)
    ensures SavedCount(steps + [s]) == SavedCount(steps) + (if Wrote(s) then 1 else 0)
    ensures SkippedCount(steps + [s]) == SkippedCount(steps) + (if Gated(s) && !Wrote(s) then 1 else 0)
    ensures RenderCount(steps + [s]) == RenderCount(steps) + (if !s.FromCache? && s.svgFresh then 1 else 0)
  {
    assert (steps + [s])[..|steps|] == steps;
  }

  /** Appending a step adds its destination to the written ones when it wrote. */
  lemma AppendWritten(paths: seq<string>, steps: seq<Step>, s: Step)
    requires |steps| < |paths|
    ensures WrittenPaths(paths, steps + [s]) ==
      WrittenPaths(paths, steps) + (if Wrote(s) then {paths[|steps|]} else {})
  {
    var longer := steps + [s];
    forall p | p in WrittenPaths(paths, longer)
      ensures p in WrittenPaths(paths, steps) + (if Wrote(s) then {paths[|steps|]} else {})
    {
      var i :| 0 <= i < |longer| && Wrote(longer[i]) && paths[i] == p;
      if i < |steps| {
        assert longer[i] == steps[i];
      }
    }
    forall p | p in WrittenPaths(paths, steps) ensures p in WrittenPaths(paths, longer) {
      var i :| 0 <= i < |steps| && Wrote(steps[i]) && paths[i] == p;
      assert longer[i] == steps[i];
    }
  }

  /** The part of the state save_images changes: the two counters, the
      recorded output, and the files. */
  datatype SaveState = SaveState(saved: nat, skipped: nat, captured: seq<Captured>, files: map<string, Bytes>)

  /** What save_images' loop has done between start and now, having handled
      the steps: each counter grew by its count, the renders made saw the
      recorded output the first time and nothing after, and only written
      destinations and files under dir changed. */
  ghost predicate SavedSoFar(paths: seq<string>, steps: seq<Step>, renders: seq<seq<Captured>>,
                             start: SaveState, now: SaveState, dir: string, cairo: bool)
  {
    && |steps| <= |paths|
    && StepsFit(paths, steps, cairo)
    && now.saved == start.saved + SavedCount(steps)
    && now.skipped == start.skipped + SkippedCount(steps)
    && (|renders| > 0 ==> renders[0] == start.captured && forall j :: 0 < j < |renders| ==> renders[j] == [])
    && now.captured == (if |renders| > 0 then [] else start.captured)
    && FilesKept(start.files, now.files, WrittenPaths(paths, steps), dir)
  }

  /** One more pass of the loop keeps SavedSoFar: the pass either decided
      a step that fits (done) or was cut short by an error first; steps'
      and renders' are the steps and renders after it. */
  lemma SavedSoFarNext(paths: seq<string>, steps: seq<Step>, renders: seq<seq<Captured>>,
                       start: SaveState, mid: SaveState, now: SaveState, dir: string, cairo: bool,
                       step: Step, done: bool, rendered: bool, w: set<string>)
    returns (steps': seq<Step>, renders': seq<seq<Captured>>)
    requires |steps| < |paths| && |renders| == RenderCount(steps)
    requires SavedSoFar(paths, steps, renders, start, mid, dir, cairo)
    requires done ==> StepFor(paths[|steps|], step, CachesAfter(paths, steps), cairo)
    requires done ==> (rendered <==> !step.FromCache? && step.svgFresh)
    requires now.saved == mid.saved + (if done && Wrote(step) then 1 else 0)
    requires now.skipped == mid.skipped + (if done && Gated(step) && !Wrote(step) then 1 else 0)
    requires now.captured == if rendered then [] else mid.captured
    requires w <= (if done && Wrote(step) then {paths[|steps|]} else {}) && FilesKept(mid.files, now.files, w, dir)
    ensures SavedSoFar(paths, steps', renders', start, now, dir, cairo)
    ensures steps' == if done then steps + [step] else steps
    ensures done ==> |renders'| == RenderCount(steps')
    ensures done ==> CachesAfter(paths, steps') == NextCaches(paths[|steps|], step, CachesAfter(paths, steps))
  {
    steps' := if done then steps + [step] else steps;
    renders' := if rendered then renders + [mid.captured] else renders;
    if done {
      AppendStep(paths, steps, step, cairo);
      AppendCounts(steps, step);
      AppendWritten(paths, steps, step);
      FilesKeptChain(start.files, mid.files, now.files, WrittenPaths(paths, steps), w,
                     WrittenPaths(paths, steps'), dir);
    } else {
      FilesKeptChain(start.files, mid.files, now.files, WrittenPaths(paths, steps), w,
                     WrittenPaths(paths, steps), dir);
    }
  }

  /** A cached destination is one of the destinations, of the cached
      format, that took the render path, and for PNG and PDF one that was
      written. */
  lemma {:induction false} CacheIsEarlierDestination(paths: seq<string>, steps: seq<Step>, f: Format)
    requires |steps| <= |paths|
    ensures var c := CachesAfter(paths, steps).Of(f);
      c.Some? ==> exists i :: (0 <= i < |steps| && paths[i] == c.value && FormatOf(paths[i]) == Some(f)
        && steps[i].Rendered? && (f == Svg || steps[i].wrote))
  {
    if steps != [] {
      var n := |steps| - 1;
      CacheIsEarlierDestination(paths, steps[..n], f);
      var c := CachesAfter(paths, steps[..n]).Of(f);
      if c.Some? {
        var i :| 0 <= i < n && paths[i] == c.value && FormatOf(paths[i]) == Some(f)
          && steps[..n][i].Rendered? && (f == Svg || steps[..n][i].wrote);
        assert steps[i] == steps[..n][i];
      }
    }
  }

  /** Every gated step bumps exactly one counter. */
  lemma {:induction false} CountersCountGates(steps: seq<Step>)
    ensures SavedCount(steps) + SkippedCount(steps) == |set i | 0 <= i < |steps| && Gated(steps[i])|
  {
    if steps != [] {
      var n := |steps| - 1;
      CountersCountGates(steps[..n]);
      var before := set i | 0 <= i < n && Gated(steps[..n][i]);
      var now := set i | 0 <= i < |steps| && Gated(steps[i]);
      assert before == set i | 0 <= i < n && Gated(steps[i]);
      if Gated(steps[n]) {
        assert now == before + {n};
      } else {
        assert now == before;
      }
    }
  }

  /** Once an SVG destination has been handled, the SVG is never rendered
      again: every later destination reuses it. */
  lemma {:induction false} NoRenderAfterSvgCached(paths: seq<string>, steps: seq<Step>, cairo: bool, i: nat)
    requires |steps| <= |paths| && StepsFit(paths, steps, cairo)
    requires i < |steps| && CachesAfter(paths, steps[..i]).svg.Some?
    ensures !steps[i].FromCache? ==> !steps[i].svgFresh
  {
    assert StepFits(paths, steps, i, cairo);
  }

  // ------------------------------------------ what each destination received

  /** One call of the gate: the path of the candidate it judged, and the
      disk as it saw it. */
  datatype Pass = Pass(source: string, view: map<string, Bytes>)

  /** The request's fields save_images reads besides its destinations and
      its record, with the theme it looked up. */
  datatype SaveSettings = SaveSettings(width: Option<int>, title: string, theme: Option<string>,
                                       minPctDiff: Value, skipChangeRegex: Value)

  /** The SVG save_svg renders from the record. */
  function FreshSvg(record: seq<Captured>, ss: SaveSettings, env: RenderEnv): Bytes
  {
    env.renderSvg(record, ss.width, ss.title, ss.theme)
  }

  /** What destination filename makes of an SVG: the SVG itself, or its
      PNG or PDF conversion. */
  function Converted(filename: string, svg: Bytes, env: RenderEnv): Bytes
  {
    match FormatOf(filename)
    case Some(Png) => env.svgToPng(svg)
    case Some(Pdf) => env.svgToPdf(svg)
    case _ => svg
  }

  /** The bytes step s offers filename when the caches are c and the disk
      before the pass is before: those of the cached destination of its
      format, or else the SVG converted to its format. The SVG is newSvg,
      freshly rendered, when no SVG destination is cached, and the cached
      SVG destination's bytes otherwise. None when that file is missing. */
  function Offered(filename: string, s: Step, c: Caches, before: map<string, Bytes>, newSvg: Bytes,
                   env: RenderEnv): Option<Bytes>
  {
    match s
    case FromCache(source, _) => if source in before then Some(before[source]) else None
    case Rendered(_, _) =>
      if c.svg.None? then Some(Converted(filename, newSvg, env))
      else if c.svg.value in before then Some(Converted(filename, before[c.svg.value], env))
      else None
    case _ => None
  }

  /** view is before with files added under dir and nothing else changed. */
  predicate Extends(before: map<string, Bytes>, view: map<string, Bytes>, dir: string)
  {
    (forall p :: p in before ==> p in view && view[p] == before[p])
    && (forall p :: p in view && p !in before ==> IsRelativeTo(p, dir))
  }

  lemma ExtendsChain(a: map<string, Bytes>, b: map<string, Bytes>, c: map<string, Bytes>, dir: string)
    requires Extends(a, b, dir) && Extends(b, c, dir)
    ensures Extends(a, c, dir)
  {
  }

  /** A gated pass for filename, starting from the disk before and ending
      with after: the gate judged p.source on a disk that only adds
      temporary files to before, so against what filename held before;
      wrote is its verdict; and a copy that succeeded left the candidate's
      bytes in filename (a destination under the temporary directory may
      be cleaned up again). */
  ghost predicate GatedPass(filename: string, wrote: bool, p: Pass, before: map<string, Bytes>,
                            after: map<string, Bytes>, minPctDiff: Value, skipChangeRegex: Value, env: RenderEnv)
  {
    && Extends(before, p.view, env.tempDir)
    && (wrote <==> GateDecision(p.source, filename, p.view, minPctDiff, skipChangeRegex, env) == Ok(true))
    && (wrote && CopyError(p.view, p.source, filename).None? && !IsRelativeTo(filename, env.tempDir) ==>
          filename in after && after[filename] == p.view[p.source])
  }

  /** What step s did for filename: a gated step is a gated pass whose
      candidate holds the bytes the step offers. */
  ghost predicate PassDid(filename: string, s: Step, c: Caches, p: Pass, before: map<string, Bytes>,
                          after: map<string, Bytes>, newSvg: Bytes, minPctDiff: Value, skipChangeRegex: Value,
                          env: RenderEnv)
  {
    Gated(s) ==>
      && GatedPass(filename, s.wrote, p, before, after, minPctDiff, skipChangeRegex, env)
      && (Offered(filename, s, c, before, newSvg, env).Some? ==>
            p.source in p.view && p.view[p.source] == Offered(filename, s, c, before, newSvg, env).value)
  }

  /** p is one of the destinations the caches c hold. */
  predicate IsCached(c: Caches, p: string)
  {
    c.svg == Some(p) || c.png == Some(p) || c.pdf == Some(p)
  }

  /** The error e of a pass for filename, with the caches c, that stopped
      before deciding its step: the gate raised e, or the SVG to convert was
      not there. A candidate the pass did not make itself is a cached
      destination. */
  ghost predicate PassFailed(filename: string, c: Caches, p: Pass, before: map<string, Bytes>, minPctDiff: Value,
                             skipChangeRegex: Value, env: RenderEnv, e: Error)
  {
    && Extends(before, p.view, env.tempDir)
    && (p.source !in p.view ==> IsCached(c, p.source))
    && (GateDecision(p.source, filename, p.view, minPctDiff, skipChangeRegex, env) == Err(e)
        || (e == FileNotFound && p.source !in p.view))
  }

  /** What one pass of save_images' loop did for filename, starting from
      the disk before and the record: a pass that decided its step did
      what PassDid says and raised only if its copy failed; one that did
      not raised for a reason PassFailed names. */
  ghost predicate PassOutcome(filename: string, s: Step, c: Caches, p: Pass, before: map<string, Bytes>,
                              after: map<string, Bytes>, record: seq<Captured>, ss: SaveSettings, env: RenderEnv,
                              done: bool, err: Option<Error>)
  {
    && (done ==> PassDid(filename, s, c, p, before, after, FreshSvg(record, ss, env), ss.minPctDiff, ss.skipChangeRegex, env))
    && (done ==> err == if Wrote(s) then CopyError(p.view, p.source, filename) else None)
    && (!done ==> err.Some? && PassFailed(filename, c, p, before, ss.minPctDiff, ss.skipChangeRegex, env, err.value))
  }

  /** The copy of step s, if it wrote, succeeded. */
  ghost predicate CopyOk(filename: string, s: Step, p: Pass)
  {
    Wrote(s) ==> CopyError(p.view, p.source, filename).None?
  }

  /** The destination step s changed: filename when it wrote and its copy
      from the candidate of p succeeded (a copy that raises changes
      nothing). */
  function StepWrites(filename: string, s: Step, p: Pass): set<string>
  {
    if Wrote(s) && CopyError(p.view, p.source, filename).None? then {filename} else {}
  }

  /** passes[i] is the gate call of step i, and snaps[i] and snaps[i + 1]
      the disk before and after it, which differ only in the destination
      it wrote and in temporary files; the first render saw record, later
      ones an empty record. */
  ghost predicate PassFits(paths: seq<string>, steps: seq<Step>, passes: seq<Pass>, snaps: seq<map<string, Bytes>>,
                           record: seq<Captured>, ss: SaveSettings, env: RenderEnv, i: nat)
    requires i < |steps| <= |paths| && |passes| == |steps| && |snaps| == |steps| + 1
  {
    && PassDid(paths[i], steps[i], CachesAfter(paths, steps[..i]), passes[i], snaps[i], snaps[i + 1],
               FreshSvg(if RenderCount(steps[..i]) == 0 then record else [], ss, env),
               ss.minPctDiff, ss.skipChangeRegex, env)
    && FilesKept(snaps[i], snaps[i + 1], StepWrites(paths[i], steps[i], passes[i]), env.tempDir)
  }

  /** Every step fits its gate call and disks, stated step by step so that
      one more step only looks at the last one (PassFitsAt gives any i). */
  ghost predicate PassesFit(paths: seq<string>, steps: seq<Step>, passes: seq<Pass>, snaps: seq<map<string, Bytes>>,
                            record: seq<Captured>, ss: SaveSettings, env: RenderEnv)
    decreases |steps|
  {
    && |steps| <= |paths| && |passes| == |steps| && |snaps| == |steps| + 1
    && (|steps| > 0 ==>
          var n := |steps| - 1;
          && PassesFit(paths, steps[..n], passes[..n], snaps[..n + 1], record, ss, env)
          && PassFits(paths, steps, passes, snaps, record, ss, env, n))
  }

  /** Each step of gate calls that fit fits its own. */
  lemma {:induction false} PassFitsAt(paths: seq<string>, steps: seq<Step>, passes: seq<Pass>,
                                      snaps: seq<map<string, Bytes>>, record: seq<Captured>,
                                      ss: SaveSettings, env: RenderEnv, i: nat)
    requires PassesFit(paths, steps, passes, snaps, record, ss, env) && i < |steps|
    ensures PassFits(paths, steps, passes, snaps, record, ss, env, i)
    decreases |steps|
  {
    var n := |steps| - 1;
    if i < n {
      var steps0, passes0, snaps0 := steps[..n], passes[..n], snaps[..n + 1];
      PassFitsAt(paths, steps0, passes0, snaps0, record, ss, env, i);
      assert steps0[..i] == steps[..i];
      assert steps0[i] == steps[i] && passes0[i] == passes[i];
      assert snaps0[i] == snaps[i] && snaps0[i + 1] == snaps[i + 1];
    }
  }

  /** The copies of the first n steps succeeded. */
  ghost predicate CopiesOk(paths: seq<string>, steps: seq<Step>, passes: seq<Pass>, n: nat)
    requires n <= |steps| <= |paths| && |passes| == |steps|
  {
    forall i :: 0 <= i < n ==> CopyOk(paths[i], steps[i], passes[i])
  }

  /** Why save_images' loop stopped with error e: the copy of the last step
      failed, or the pass for the next destination raised before deciding
      its step (failure is its gate call); all earlier copies succeeded. */
  ghost predicate LoopFailed(paths: seq<string>, steps: seq<Step>, passes: seq<Pass>, snaps: seq<map<string, Bytes>>,
                             failure: Pass, ss: SaveSettings, env: RenderEnv, e: Error)
    requires |steps| <= |paths| && |passes| == |steps| && |snaps| == |steps| + 1
  {
    var n := |steps|;
    || (n > 0 && CopiesOk(paths, steps, passes, n - 1) && Wrote(steps[n - 1])
        && CopyError(passes[n - 1].view, passes[n - 1].source, paths[n - 1]) == Some(e))
    || (n < |paths| && CopiesOk(paths, steps, passes, n)
        && PassFailed(paths[n], CachesAfter(paths, steps), failure, snaps[n], ss.minPctDiff, ss.skipChangeRegex, env, e))
  }

  /** Appending the next step, its gate call and the disk after it. */
  lemma AppendPass(paths: seq<string>, steps: seq<Step>, passes: seq<Pass>, snaps: seq<map<string, Bytes>>,
                   record: seq<Captured>, ss: SaveSettings, env: RenderEnv, s: Step, p: Pass, after: map<string, Bytes>)
    requires |steps| < |paths| && PassesFit(paths, steps, passes, snaps, record, ss, env)
    requires PassDid(paths[|steps|], s, CachesAfter(paths, steps), p, snaps[|steps|], after,
                     FreshSvg(if RenderCount(steps) == 0 then record else [], ss, env), ss.minPctDiff, ss.skipChangeRegex, env)
    requires FilesKept(snaps[|steps|], after, StepWrites(paths[|steps|], s, p), env.tempDir)
    ensures PassesFit(paths, steps + [s], passes + [p], snaps + [after], record, ss, env)
  {
    var steps', passes', snaps' := steps + [s], passes + [p], snaps + [after];
    assert steps'[..|steps|] == steps && passes'[..|steps|] == passes && snaps'[..|steps| + 1] == snaps;
  }

  /** Appending a step whose copy succeeded, or any step when the count
      stops before it. */
  lemma AppendCopies(paths: seq<string>, steps: seq<Step>, passes: seq<Pass>, n: nat, s: Step, p: Pass)
    requires |steps| < |paths| && |passes| == |steps| && n <= |steps| && CopiesOk(paths, steps, passes, n)
    ensures CopiesOk(paths, steps + [s], passes + [p], n)
    ensures n == |steps| && CopyOk(paths[n], s, p) ==> CopiesOk(paths, steps + [s], passes + [p], n + 1)
  {
    var steps', passes' := steps + [s], passes + [p];
    forall i | 0 <= i < n ensures CopyOk(paths[i], steps'[i], passes'[i]) {
      assert steps'[i] == steps[i] && passes'[i] == passes[i];
    }
  }

  /** One more pass of the loop keeps the gate calls fitting: a pass that
      decided its step appends it, its gate call and the disk after it; an
      error stops the loop for the reason LoopFailed names. captured is the
      record the pass started from. */
  lemma PassesNext(paths: seq<string>, steps: seq<Step>, passes: seq<Pass>, snaps: seq<map<string, Bytes>>,
                   record: seq<Captured>, ss: SaveSettings, env: RenderEnv, captured: seq<Captured>,
                   step: Step, done: bool, pass: Pass, after: map<string, Bytes>, err: Option<Error>)
    returns (passes': seq<Pass>, snaps': seq<map<string, Bytes>>)
    requires |steps| < |paths| && PassesFit(paths, steps, passes, snaps, record, ss, env)
    requires CopiesOk(paths, steps, passes, |steps|)
    requires captured == if RenderCount(steps) > 0 then [] else record
    requires PassOutcome(paths[|steps|], step, CachesAfter(paths, steps), pass, snaps[|steps|], after,
                         captured, ss, env, done, err)
    requires FilesKept(snaps[|steps|], after, if done && Wrote(step) && err.None? then {paths[|steps|]} else {},
                       env.tempDir)
    ensures var steps' := if done then steps + [step] else steps;
      && PassesFit(paths, steps', passes', snaps', record, ss, env)
      && |passes| <= |passes'| && passes'[..|passes|] == passes
      && |snaps| <= |snaps'| && snaps'[..|snaps|] == snaps
      && (err.None? ==> snaps'[|steps'|] == after && CopiesOk(paths, steps', passes', |steps'|))
      && (err.Some? ==> LoopFailed(paths, steps', passes', snaps', pass, ss, env, err.value))
      && (err.Some? ==> FilesKept(snaps'[|steps'|], after, {}, env.tempDir))
  {
    if done {
      assert StepWrites(paths[|steps|], step, pass) == if done && Wrote(step) && err.None? then {paths[|steps|]} else {};
      AppendPass(paths, steps, passes, snaps, record, ss, env, step, pass, after);
      AppendCopies(paths, steps, passes, |steps|, step, pass);
      passes', snaps' := passes + [pass], snaps + [after];
    } else {
      passes', snaps' := passes, snaps;
    }
  }

  /** Step j changed the disk only in the destination it wrote and in
      temporary files. */
  lemma StepKeeps(paths: seq<string>, steps: seq<Step>, passes: seq<Pass>, snaps: seq<map<string, Bytes>>,
                  record: seq<Captured>, ss: SaveSettings, env: RenderEnv, j: nat)
    requires PassesFit(paths, steps, passes, snaps, record, ss, env) && j < |steps|
    ensures FilesKept(snaps[j], snaps[j + 1], StepWrites(paths[j], steps[j], passes[j]), env.tempDir)
  {
    PassFitsAt(paths, steps, passes, snaps, record, ss, env, j);
  }

  /** Every step changed the disk only in the destination it wrote and in
      temporary files. */
  lemma StepsKeep(paths: seq<string>, steps: seq<Step>, passes: seq<Pass>, snaps: seq<map<string, Bytes>>,
                  record: seq<Captured>, ss: SaveSettings, env: RenderEnv)
    requires PassesFit(paths, steps, passes, snaps, record, ss, env)
    ensures forall j :: 0 <= j < |steps| ==>
      FilesKept(snaps[j], snaps[j + 1], StepWrites(paths[j], steps[j], passes[j]), env.tempDir)
  {
    forall j | 0 <= j < |steps|
      ensures FilesKept(snaps[j], snaps[j + 1], StepWrites(paths[j], steps[j], passes[j]), env.tempDir)
    {
      StepKeeps(paths, steps, passes, snaps, record, ss, env, j);
    }
  }

  /** A destination outside the temporary directory that step i wrote, with
      a copy that succeeded, holds the candidate's bytes right after it. */
  lemma StepLeaves(paths: seq<string>, steps: seq<Step>, passes: seq<Pass>, snaps: seq<map<string, Bytes>>,
                   record: seq<Captured>, ss: SaveSettings, env: RenderEnv, i: nat)
    requires PassesFit(paths, steps, passes, snaps, record, ss, env) && i < |steps|
    requires Wrote(steps[i]) && CopyOk(paths[i], steps[i], passes[i]) && !IsRelativeTo(paths[i], env.tempDir)
    ensures paths[i] in snaps[i + 1] && snaps[i + 1][paths[i]] == passes[i].view[passes[i].source]
  {
    PassFitsAt(paths, steps, passes, snaps, record, ss, env, i);
  }

  /** Along disks that each differ from the one before only in the
      destination its step wrote and in temporary files, a file outside the
      temporary directory that no step from i on wrote keeps its bytes. */
  lemma {:induction false} BytesKeptAlong(paths: seq<string>, steps: seq<Step>, passes: seq<Pass>,
                                          snaps: seq<map<string, Bytes>>, dir: string, f: string, i: nat, k: nat)
    requires i <= k <= |steps| <= |paths| && |passes| == |steps| && |snaps| == |steps| + 1
    requires forall j :: i <= j < k ==> FilesKept(snaps[j], snaps[j + 1], StepWrites(paths[j], steps[j], passes[j]), dir)
    requires forall j :: i <= j < k ==> !(Wrote(steps[j]) && paths[j] == f)
    requires f in snaps[i] && !IsRelativeTo(f, dir)
    ensures f in snaps[k] && snaps[k][f] == snaps[i][f]
    decreases k
  {
    if i < k {
      BytesKeptAlong(paths, steps, passes, snaps, dir, f, i, k - 1);
      assert f !in StepWrites(paths[k - 1], steps[k - 1], passes[k - 1]);
      assert FilesKept(snaps[k - 1], snaps[k], StepWrites(paths[k - 1], steps[k - 1], passes[k - 1]), dir);
    }
  }

  /** A destination outside the temporary directory that step i wrote, with
      a copy that succeeded, still holds the candidate's bytes before step
      k when no step in between wrote it again. */
  lemma WrittenBytesKept(paths: seq<string>, steps: seq<Step>, passes: seq<Pass>, snaps: seq<map<string, Bytes>>,
                         record: seq<Captured>, ss: SaveSettings, env: RenderEnv, i: nat, k: nat)
    requires PassesFit(paths, steps, passes, snaps, record, ss, env)
    requires i < k <= |steps|
    requires Wrote(steps[i]) && CopyOk(paths[i], steps[i], passes[i]) && !IsRelativeTo(paths[i], env.tempDir)
    requires forall j :: i < j < k ==> !(Wrote(steps[j]) && paths[j] == paths[i])
    ensures paths[i] in snaps[k] && snaps[k][paths[i]] == passes[i].view[passes[i].source]
  {
    StepLeaves(paths, steps, passes, snaps, record, ss, env, i);
    StepsKeep(paths, steps, passes, snaps, record, ss, env);
    BytesKeptAlong(paths, steps, passes, snaps, env.tempDir, paths[i], i + 1, k);
  }

  /** The same on the disk save_images leaves behind, whether or not it
      raised: a destination outside the temporary directory that step i
      wrote, with a copy that succeeded, holds the candidate's bytes at the
      end unless a later step wrote it again. */
  lemma WrittenBytesFinal(paths: seq<string>, steps: seq<Step>, passes: seq<Pass>, snaps: seq<map<string, Bytes>>,
                          record: seq<Captured>, ss: SaveSettings, env: RenderEnv, final: map<string, Bytes>, i: nat)
    requires PassesFit(paths, steps, passes, snaps, record, ss, env)
    requires FilesKept(snaps[|steps|], final, {}, env.tempDir)
    requires i < |steps|
    requires Wrote(steps[i]) && CopyOk(paths[i], steps[i], passes[i]) && !IsRelativeTo(paths[i], env.tempDir)
    requires forall j :: i < j < |steps| ==> !(Wrote(steps[j]) && paths[j] == paths[i])
    ensures paths[i] in final && final[paths[i]] == passes[i].view[passes[i].source]
  {
    WrittenBytesKept(paths, steps, passes, snaps, record, ss, env, i, |steps|);
  }

  /** A loop that failed did not get through every destination with every
      copy succeeding. */
  lemma LoopFailedStopsEarly(paths: seq<string>, steps: seq<Step>, passes: seq<Pass>, snaps: seq<map<string, Bytes>>,
                             failure: Pass, ss: SaveSettings, env: RenderEnv, e: Error)
    requires |steps| <= |paths| && |passes| == |steps| && |snaps| == |steps| + 1
    requires LoopFailed(paths, steps, passes, snaps, failure, ss, env, e)
    ensures !(|steps| == |paths| && CopiesOk(paths, steps, passes, |steps|))
  {
  }
}
