/** The directive scanner of codex_search.py as a fold over the lines of the
    searched files: which markdown lines become screenshot requests, with
    which settings, and how `<!-- RICH-CODEX ... -->` comments set those
    settings. The class CodexSearches.CodexSearch is proved against it. */
module ScanSpec {
  import opened Py
  import opened PyStr
  import opened Files
  import opened Requests

  /** The groups img_cmd_re captures on a line: ![`cmd`](img_path "title"). */
  datatype ImageMatch = ImageMatch(cmd: string, imgPath: string, title: Option<string>)

  /** The libraries and the disk the search depends on. */
  datatype SearchEnv = SearchEnv(
    glob: string -> set<string>,                  // glob(pattern, recursive=True)
    readLines: string -> Option<seq<string>>,     // the lines of an open file; None when it cannot be read
    imageMatch: string -> Option<ImageMatch>,     // img_cmd_re.match(line)
    configMatch: string -> Option<string>,        // config_comment_re.match(line), its config_str group
    parseInt: string -> Option<int>)              // int() of a string

  /** The settings the search object was created with; a configuration
      comment overrides them for one request. */
  datatype Defaults = Defaults(minPctDiff: Value, skipChangeRegex: Value, terminalWidth: Value,
                               terminalTheme: Value, usePty: Value)

  /** local_config: keys and values are the text around the first "=". */
  type Config = map<string, string>

  // ----------------------------------------------------- includes / excludes

  /** The union of glob(pattern) over the patterns. */
  function GlobAll(patterns: seq<string>, glob: string -> set<string>): set<string>
  {
    if patterns == [] then {}
    else GlobAll(patterns[..|patterns| - 1], glob) + glob(patterns[|patterns| - 1])
  }

  /** The files search_files reads: what some includes pattern finds and no
      excludes pattern finds. */
  function SearchSet(includes: seq<string>, excludes: seq<string>, glob: string -> set<string>): set<string>
  {
    GlobAll(includes, glob) - GlobAll(excludes, glob)
  }

  lemma {:induction false} GlobAllMembers(patterns: seq<string>, glob: string -> set<string>, p: string)
    ensures p in GlobAll(patterns, glob) <==> exists i :: 0 <= i < |patterns| && p in glob(patterns[i])
    decreases |patterns|
  {
    if patterns != [] {
      var init := patterns[..|patterns| - 1];
      GlobAllMembers(init, glob, p);
      if p in GlobAll(init, glob) {
        var i :| 0 <= i < |init| && p in glob(init[i]);
        assert patterns[i] == init[i];
      }
      if exists i :: 0 <= i < |patterns| && p in glob(patterns[i]) {
        var i :| 0 <= i < |patterns| && p in glob(patterns[i]);
        if i < |init| {
          assert init[i] == patterns[i];
        }
      }
    }
  }

  /** A file is searched exactly when an includes pattern finds it and no
      excludes pattern does. */
  lemma SearchSetMembers(includes: seq<string>, excludes: seq<string>, glob: string -> set<string>, p: string)
    ensures p in SearchSet(includes, excludes, glob) <==>
      (exists i :: 0 <= i < |includes| && p in glob(includes[i])) &&
      (forall j :: 0 <= j < |excludes| ==> p !in glob(excludes[j]))
  {
    GlobAllMembers(includes, glob, p);
    GlobAllMembers(excludes, glob, p);
  }

  /** Neither the order nor repetitions of the patterns matter: the set
      depends only on which patterns are given. */
  lemma SearchSetOrderFree(includes: seq<string>, excludes: seq<string>,
                           includes': seq<string>, excludes': seq<string>, glob: string -> set<string>)
    requires forall x :: x in includes <==> x in includes'
    requires forall x :: x in excludes <==> x in excludes'
    ensures SearchSet(includes, excludes, glob) == SearchSet(includes', excludes', glob)
  {
    forall p ensures p in SearchSet(includes, excludes, glob) <==> p in SearchSet(includes', excludes', glob) {
      SearchSetMembers(includes, excludes, glob, p);
      SearchSetMembers(includes', excludes', glob, p);
      if (exists i :: 0 <= i < |includes| && p in glob(includes[i])) {
        var i :| 0 <= i < |includes| && p in glob(includes[i]);
        assert includes[i] in includes';
      }
      if (exists i :: 0 <= i < |includes'| && p in glob(includes'[i])) {
        var i :| 0 <= i < |includes'| && p in glob(includes'[i]);
        assert includes'[i] in includes;
      }
      if (exists j :: 0 <= j < |excludes| && p in glob(excludes[j])) {
        var j :| 0 <= j < |excludes| && p in glob(excludes[j]);
        assert excludes[j] in excludes';
      }
      if (exists j :: 0 <= j < |excludes'| && p in glob(excludes'[j])) {
        var j :| 0 <= j < |excludes'| && p in glob(excludes'[j]);
        assert excludes'[j] in excludes;
      }
    }
  }

  // ------------------------------------------------ configuration comments

  /** `key, value = part.split("=", 1)` when "=" is in part. */
  function Assignment(part: string): Option<(string, string)>
  {
    match FindFrom(part, "=", 0)
    case None => None
    case Some(k) => Some((part[..k], part[k + 1..]))
  }

  /** A part assigns exactly when it holds "=", and it is cut at the first
      one: the key holds no "=", the value may. */
  lemma AssignmentSplitsAtFirst(part: string)
    ensures Assignment(part).None? <==> !Contains(part, "=")
    ensures Assignment(part).Some? ==>
      var (key, value) := Assignment(part).value;
      part == key + "=" + value && !Contains(key, "=")
  {
    match FindFrom(part, "=", 0)
    case None =>
    case Some(k) =>
      var key := part[..k];
      assert !Contains(key, "=") by {
        forall j: nat | OccursAt(key, "=", j) ensures false {
          assert key[j..j + 1] == part[j..j + 1];
          assert OccursAt(part, "=", j);
        }
      }
      assert part == key + "=" + part[k + 1..] by {
        assert part[k..k + 1] == "=";
      }
  }

  /** part assigns the key k. */
  predicate Assigns(part: string, k: string)
  {
    Assignment(part).Some? && Assignment(part).value.0 == k
  }

  /** The loop that merges a comment's `KEY=value` parts into local_config. */
  function MergeParts(config: Config, parts: seq<string>): Config
  {
    if parts == [] then config
    else
      var merged := MergeParts(config, parts[..|parts| - 1]);
      var a := Assignment(parts[|parts| - 1]);
      if a.None? then merged else merged[a.value.0 := a.value.1]
  }

  /** The last part that assigns a key decides its value. */
  lemma {:induction false} MergeLastWins(config: Config, parts: seq<string>, k: string, i: nat)
    requires i < |parts| && Assigns(parts[i], k)
    requires forall j :: i < j < |parts| ==> !Assigns(parts[j], k)
    ensures k in MergeParts(config, parts) && MergeParts(config, parts)[k] == Assignment(parts[i]).value.1
    decreases |parts|
  {
    var n := |parts| - 1;
    if i < n {
      var init := parts[..n];
      assert init[i] == parts[i];
      assert forall j :: i < j < |init| ==> init[j] == parts[j];
      MergeLastWins(config, init, k, i);
      assert !Assigns(parts[n], k);
    }
  }

  /** A key no part assigns keeps its earlier value, or stays absent. */
  lemma {:induction false} MergeKeepsUnassigned(config: Config, parts: seq<string>, k: string)
    requires forall i :: 0 <= i < |parts| ==> !Assigns(parts[i], k)
    ensures k in MergeParts(config, parts) <==> k in config
    ensures k in config ==> MergeParts(config, parts)[k] == config[k]
    decreases |parts|
  {
    if parts != [] {
      var init := parts[..|parts| - 1];
      assert forall i :: 0 <= i < |init| ==> init[i] == parts[i];
      MergeKeepsUnassigned(config, init, k);
      assert !Assigns(parts[|parts| - 1], k);
    }
  }

  /** `local_config.get(key, default)`: a configured value is always a string. */
  function Get(config: Config, key: string, default: Value): Value
  {
    if key in config then StrV(config[key]) else default
  }

  /** `local_config.get("SKIP")` is truthy. */
  predicate Skipped(config: Config)
  {
    Truthy(Get(config, "SKIP", NoneV))
  }

  /** FindFrom lands on the first '=' at or after from. */
  lemma {:induction false} FindFirstEquals(s: string, i: nat, from: nat)
    requires from <= i < |s| && s[i] == '='
    requires forall j :: from <= j < i ==> s[j] != '='
    ensures FindFrom(s, "=", from) == Some(i)
    decreases i - from
  {
    if from < i {
      assert s[from..from + 1][0] == s[from];
      FindFirstEquals(s, i, from + 1);
    } else {
      assert s[i..i + 1] == [s[i]];
    }
  }

  /** A SKIP part takes effect exactly when its value is non-empty, so
      SKIP=0 and SKIP=false skip too; a bare SKIP without "=" is ignored. */
  lemma SkipValues(value: string)
    ensures Skipped(MergeParts(map[], ["SKIP=" + value])) <==> value != ""
    ensures !Skipped(MergeParts(map[], ["SKIP"]))
  {
    var part := "SKIP=" + value;
    assert part[0] == 'S' && part[1] == 'K' && part[2] == 'I' && part[3] == 'P' && part[4] == '=';
    FindFirstEquals(part, 4, 0);
    assert part[..4] == "SKIP" && part[5..] == value;
    assert ["SKIP=" + value][..0] == [];
    assert Assignment("SKIP") == None by {
      MissingCharNotContained("SKIP", "=", 0);
      AssignmentSplitsAtFirst("SKIP");
    }
  }

  /** The next config after a line: emptied by a non-blank line, kept by a
      blank one, then the line's own comment is merged in. */
  function NextConfig(line: string, config: Config, env: SearchEnv): Config
  {
    var kept := if IsBlank(line) then config else map[];
    match env.configMatch(line)
    case None => kept
    case Some(configStr) => MergeParts(kept, Words(configStr))
  }

  // --------------------------------------------------------- the requests

  predicate IsTitleEdge(c: char)
  {
    c == '\'' || c == '"' || c == ' '
  }

  /** `m["title"].strip("'\" ")` when the group is set and non-empty, else
      the constructor's "". */
  function TitleOf(title: Option<string>): string
  {
    if title.Some? && title.value != "" then StripBy(title.value, IsTitleEdge) else ""
  }

  /** `str(Path(file).parent / Path(img_path.strip()))` */
  function ImagePath(file: string, imgPath: string): string
  {
    JoinPath(Parent(file), Strip(imgPath))
  }

  /** A directive in a file given by a relative path, naming a relative
      image path, gets a relative destination. */
  lemma RelativeImagePath(file: string, imgPath: string)
    requires !StartsWith(file, "/") && !StartsWith(Strip(imgPath), "/")
    ensures !StartsWith(ImagePath(file, imgPath), "/")
  {
    var dir := Parent(file);
    var rel := Strip(imgPath);
    assert |dir| > 0 && dir[0] != '/';
    if rel != "" && dir != "." {
      assert (if EndsWith(dir, "/") then dir + rel else dir + "/" + rel)[0] == dir[0];
    }
  }

  /** The request an image directive of file creates. The five settings
      are passed to RichImg by position, so each binds one parameter early:
      MIN_PCT_DIFF becomes the snippet syntax, SKIP_CHANGE_REGEX the
      threshold, TERMINAL_WIDTH the skip regexes, TERMINAL_THEME the width
      and USE_PTY the theme, while use_pty keeps its default False. The
      constructor's int(terminal_width) can raise. */
  function DirectiveRequest(file: string, m: ImageMatch, config: Config, d: Defaults,
                            parseInt: string -> Option<int>): Result<Request>
  {
    var minPctDiff := Get(config, "MIN_PCT_DIFF", d.minPctDiff);
    var skipChangeRegex := Get(config, "SKIP_CHANGE_REGEX", d.skipChangeRegex);
    var tWidth := Get(config, "TERMINAL_WIDTH", d.terminalWidth);
    var tTheme := Get(config, "TERMINAL_THEME", d.terminalTheme);
    var usePty := Get(config, "USE_PTY", d.usePty);
    match ConsoleWidth(tTheme, parseInt)
    case Err(e) => Err(e)
    case Ok(width) =>
      var r := Initial(minPctDiff, skipChangeRegex, tWidth, tTheme, usePty, BoolV(false), width);
      Ok(r.(cmd := Some(m.cmd), imgPaths := [ImagePath(file, m.imgPath)], title := TitleOf(m.title)))
  }

  /** The requests one line adds, judged with the config as it stood before
      the line: one for an image directive unless SKIP is set. */
  function LineRequests(file: string, line: string, config: Config, d: Defaults, env: SearchEnv)
    : (r: Result<seq<Request>>)
    ensures r.Ok? ==> |r.value| == if env.imageMatch(line).Some? && !Skipped(config) then 1 else 0
    ensures r.Err? <==> (env.imageMatch(line).Some? && !Skipped(config) &&
      ConsoleWidth(Get(config, "TERMINAL_THEME", d.terminalTheme), env.parseInt).Err?)
  {
    match env.imageMatch(line)
    case None => Ok([])
    case Some(m) =>
      if Skipped(config) then Ok([])
      else match DirectiveRequest(file, m, config, d, env.parseInt)
        case Err(e) => Err(e)
        case Ok(req) => Ok([req])
  }

  /** Where the scan stands: local_config and the requests collected. */
  datatype ScanState = ScanState(config: Config, requests: seq<Request>)

  /** One pass of the line loop. */
  function ScanLine(file: string, line: string, st: ScanState, d: Defaults, env: SearchEnv): Result<ScanState>
  {
    match LineRequests(file, line, st.config, d, env)
    case Err(e) => Err(e)
    case Ok(added) => Ok(ScanState(NextConfig(line, st.config, env), st.requests + added))
  }

  /** The line loop over the lines of one file. */
  function ScanLines(file: string, lines: seq<string>, st: ScanState, d: Defaults, env: SearchEnv): Result<ScanState>
  {
    if lines == [] then Ok(st)
    else match ScanLines(file, lines[..|lines| - 1], st, d, env)
      case Err(e) => Err(e)
      case Ok(mid) => ScanLine(file, lines[|lines| - 1], mid, d, env)
  }

  /** Opening and scanning one file; the config carries in from the last file. */
  function ScanFile(file: string, st: ScanState, d: Defaults, env: SearchEnv): Result<ScanState>
  {
    match env.readLines(file)
    case None => Err(IOError)
    case Some(lines) => ScanLines(file, lines, st, d, env)
  }

  /** The file loop, over the files in the order the set yields them. */
  function ScanFiles(files: seq<string>, st: ScanState, d: Defaults, env: SearchEnv): Result<ScanState>
  {
    if files == [] then Ok(st)
    else match ScanFiles(files[..|files| - 1], st, d, env)
      case Err(e) => Err(e)
      case Ok(mid) => ScanFile(files[|files| - 1], mid, d, env)
  }

  /** Scanning a + b is scanning a, then b from where a stopped. */
  lemma {:induction false} ScanLinesAppend(file: string, a: seq<string>, b: seq<string>, st: ScanState,
                                           d: Defaults, env: SearchEnv)
    ensures ScanLines(file, a + b, st, d, env) ==
      match ScanLines(file, a, st, d, env)
      case Err(e) => Err(e)
      case Ok(mid) => ScanLines(file, b, mid, d, env)
    decreases |b|
  {
    if b == [] {
      assert a + b == a;
    } else {
      var n := |b| - 1;
      assert (a + b)[..|a + b| - 1] == a + b[..n];
      ScanLinesAppend(file, a, b[..n], st, d, env);
    }
  }

  /** Scanning never drops a request it already has. */
  lemma {:induction false} ScanLinesKeeps(file: string, lines: seq<string>, st: ScanState, d: Defaults, env: SearchEnv)
    ensures ScanLines(file, lines, st, d, env).Ok? ==>
      st.requests <= ScanLines(file, lines, st, d, env).value.requests
    decreases |lines|
  {
    if lines != [] {
      ScanLinesKeeps(file, lines[..|lines| - 1], st, d, env);
    }
  }

  /** Lines that are blank and match neither pattern leave the scan as it was. */
  predicate Inert(line: string, env: SearchEnv)
  {
    IsBlank(line) && env.imageMatch(line).None? && env.configMatch(line).None?
  }

  lemma {:induction false} InertLines(file: string, lines: seq<string>, st: ScanState, d: Defaults, env: SearchEnv)
    requires forall k :: 0 <= k < |lines| ==> Inert(lines[k], env)
    ensures ScanLines(file, lines, st, d, env) == Ok(st)
    decreases |lines|
  {
    if lines != [] {
      InertLines(file, lines[..|lines| - 1], st, d, env);
      assert st.requests + [] == st.requests;
    }
  }

  /** A configuration comment governs the next non-blank line: blank lines
      in between carry it forward, and the image on that line is built from
      the comment's settings alone, whatever the config was before. */
  lemma CommentGovernsNextLine(file: string, comment: string, blanks: seq<string>, image: string,
                               st: ScanState, d: Defaults, env: SearchEnv)
    requires !IsBlank(comment) && env.imageMatch(comment).None? && env.configMatch(comment).Some?
    requires forall k :: 0 <= k < |blanks| ==> Inert(blanks[k], env)
    ensures var config := MergeParts(map[], Words(env.configMatch(comment).value));
      ScanLines(file, [comment] + blanks + [image], st, d, env) ==
        ScanLine(file, image, ScanState(config, st.requests), d, env)
  {
    var config := MergeParts(map[], Words(env.configMatch(comment).value));
    var mid := ScanState(config, st.requests);
    assert ScanLines(file, [comment], st, d, env) == Ok(mid) by {
      assert [comment][..0] == [];
      assert st.requests + [] == st.requests;
    }
    ScanLinesAppend(file, [comment], blanks, st, d, env);
    InertLines(file, blanks, mid, d, env);
    ScanLinesAppend(file, [comment] + blanks, [image], st, d, env);
    assert [image][..0] == [];
  }

  /** A configuration comment applies once: a non-blank line without its
      own comment empties the config, so the image after it is built from
      the defaults. */
  lemma ConfigClearedByNonBlankLine(file: string, line: string, image: string,
                                    st: ScanState, d: Defaults, env: SearchEnv)
    requires !IsBlank(line) && env.configMatch(line).None?
    requires ScanLine(file, line, st, d, env).Ok?
    ensures ScanLines(file, [line, image], st, d, env) ==
      ScanLine(file, image, ScanState(map[], ScanLine(file, line, st, d, env).value.requests), d, env)
  {
    var s1 := ScanLine(file, line, st, d, env).value;
    assert s1.config == map[];
    assert [line][..0] == [];
    assert ScanLines(file, [line], st, d, env) == Ok(s1);
    assert [line, image][..1] == [line];
  }

  /** A comment on the same line as an image never affects that image: the
      requests of a line do not depend on the comment matcher. */
  lemma SameLineCommentIgnored(file: string, line: string, st: ScanState, d: Defaults, env: SearchEnv,
                               configMatch: string -> Option<string>)
    ensures var other := ScanLine(file, line, st, d, env.(configMatch := configMatch));
      var this_ := ScanLine(file, line, st, d, env);
      other.Ok? == this_.Ok? && (other.Ok? ==> other.value.requests == this_.value.requests)
  {
  }

  /** The config carries across file boundaries: a comment on the last line
      of one file governs an image on the first line of the next. */
  lemma ConfigCarriesAcrossFiles(f1: string, f2: string, lines1: seq<string>, image: string, rest: seq<string>,
                                 st: ScanState, d: Defaults, env: SearchEnv)
    requires env.readLines(f1) == Some(lines1) && env.readLines(f2) == Some([image] + rest)
    requires |lines1| > 0 && ScanLines(f1, lines1, st, d, env).Ok?
    requires var last := lines1[|lines1| - 1];
      !IsBlank(last) && env.configMatch(last).Some?
    ensures var config := MergeParts(map[], Words(env.configMatch(lines1[|lines1| - 1]).value));
      var mid := ScanLines(f1, lines1, st, d, env).value;
      var first := ScanLine(f2, image, ScanState(config, mid.requests), d, env);
      ScanFiles([f1, f2], st, d, env) ==
        if first.Err? then Err(first.error) else ScanLines(f2, rest, first.value, d, env)
  {
    var config := MergeParts(map[], Words(env.configMatch(lines1[|lines1| - 1]).value));
    var mid := ScanLines(f1, lines1, st, d, env).value;
    assert mid.config == config;
    assert [f1, f2][..1] == [f1];
    assert [f1][..0] == [];
    assert ScanFiles([f1], st, d, env) == Ok(mid);
    assert ScanFiles([f1, f2], st, d, env) == ScanLines(f2, [image] + rest, mid, d, env);
    ScanLinesAppend(f2, [image], rest, mid, d, env);
    assert [image][..0] == [];
  }

  // --------------------------------------------- what a directive produces

  /** The request a directive makes in a file found by a relative glob
      pattern, naming a relative image path, can never be saved: its one
      destination is relative, so the gate raises for it on every call. */
  lemma RelativeDirectiveRaisesAtGate(file: string, m: ImageMatch, config: Config, d: Defaults,
                                      parseInt: string -> Option<int>, newFn: string,
                                      files: map<string, Bytes>, env: RenderEnv)
    requires !StartsWith(file, "/") && !StartsWith(Strip(m.imgPath), "/") && env.AbsoluteCwd()
    requires DirectiveRequest(file, m, config, d, parseInt).Ok?
    ensures var r := DirectiveRequest(file, m, config, d, parseInt).value;
      |r.imgPaths| == 1 &&
      GateDecision(newFn, r.imgPaths[0], files, r.minPctDiff, r.skipChangeRegex, env).Err?
  {
    var r := DirectiveRequest(file, m, config, d, parseInt).value;
    RelativeImagePath(file, m.imgPath);
    RelativeDestinationRaises(newFn, r.imgPaths[0], files, r.minPctDiff, r.skipChangeRegex, env);
  }

  /** The fields of a directive's request: the command and a single path
      next to the file, the title stripped of quotes and spaces, and the
      settings bound one parameter early with use_pty False. */
  lemma DirectiveBindsShifted(file: string, m: ImageMatch, config: Config, d: Defaults,
                              parseInt: string -> Option<int>)
    ensures var r := DirectiveRequest(file, m, config, d, parseInt);
      var theme := Get(config, "TERMINAL_THEME", d.terminalTheme);
      (r.Err? <==> ConsoleWidth(theme, parseInt).Err?) &&
      (r.Ok? ==>
        r.value.cmd == Some(m.cmd) && r.value.snippet.None? &&
        r.value.imgPaths == [JoinPath(Parent(file), Strip(m.imgPath))] &&
        r.value.title == (if m.title.Some? && m.title.value != "" then StripBy(m.title.value, IsTitleEdge) else "") &&
        r.value.snippetSyntax == Get(config, "MIN_PCT_DIFF", d.minPctDiff) &&
        r.value.minPctDiff == Get(config, "SKIP_CHANGE_REGEX", d.skipChangeRegex) &&
        r.value.skipChangeRegex == Get(config, "TERMINAL_WIDTH", d.terminalWidth) &&
        r.value.terminalWidth == theme &&
        r.value.terminalTheme == Get(config, "USE_PTY", d.usePty) &&
        r.value.usePty == BoolV(false) &&
        r.value.captured == [] && r.value.numImgSaved == 0 && r.value.numImgSkipped == 0 && !r.value.aborted)
  {
  }

  /** A title has no quote or space at either end. */
  lemma TitleHasNoEdges(title: Option<string>)
    ensures var t := TitleOf(title);
      t == [] || (!IsTitleEdge(t[0]) && !IsTitleEdge(t[|t| - 1]))
  {
    if title.Some? && title.value != "" {
      StripByShape(title.value, IsTitleEdge);
    }
  }

  /** With the threshold's default unset and no SKIP_CHANGE_REGEX in the
      comment, the request's threshold is unset, so the write gate raises
      TypeError for every destination that already exists. */
  lemma ShiftedThresholdRaises(file: string, m: ImageMatch, config: Config, d: Defaults,
                               parseInt: string -> Option<int>, newFn: string, oldFn: string,
                               files: map<string, Bytes>, env: RenderEnv)
    requires d.skipChangeRegex == NoneV && "SKIP_CHANGE_REGEX" !in config
    requires DirectiveRequest(file, m, config, d, parseInt).Ok?
    requires oldFn in files && newFn in files
    ensures var r := DirectiveRequest(file, m, config, d, parseInt).value;
      GateDecision(newFn, oldFn, files, r.minPctDiff, r.skipChangeRegex, env) == Err(TypeError)
  {
    var r := DirectiveRequest(file, m, config, d, parseInt).value;
    assert r.minPctDiff == NoneV;
    GateUnsetThresholdRaises(newFn, oldFn, files, r.skipChangeRegex, env);
  }

  /** A theme name in a comment reaches the constructor as the terminal
      width, and int() of a name raises ValueError. */
  lemma ThemeNameRaises(file: string, m: ImageMatch, config: Config, d: Defaults,
                        parseInt: string -> Option<int>)
    requires "TERMINAL_THEME" in config && config["TERMINAL_THEME"] != "" &&
             parseInt(config["TERMINAL_THEME"]).None?
    ensures DirectiveRequest(file, m, config, d, parseInt) == Err(ValueError)
  {
  }

  /** USE_PTY never reaches use_pty: the request's use_pty is False
      whatever the comment or the default says. */
  lemma UsePtyNeverPassed(file: string, m: ImageMatch, config: Config, d: Defaults,
                          parseInt: string -> Option<int>, value: string)
    ensures var r := DirectiveRequest(file, m, config[("USE_PTY") := value], d, parseInt);
      r.Ok? ==> r.value.usePty == BoolV(false) && r.value.terminalTheme == StrV(value)
  {
  }

  /** SKIP drops the directive: no request, and the scan goes on. */
  lemma SkipDropsDirective(file: string, line: string, st: ScanState, d: Defaults, env: SearchEnv)
    requires Skipped(st.config)
    ensures ScanLine(file, line, st, d, env) == Ok(ScanState(NextConfig(line, st.config, env), st.requests))
  {
    assert st.requests + [] == st.requests;
  }
}
