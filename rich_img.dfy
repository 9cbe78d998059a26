/** The RichImg class of rich_img.py: one screenshot request, whose methods
    capture a command's output or format a snippet, and write the rendered
    image to each destination unless the change is too small. Each method
    is proved against the value-level functions of module Requests. */
module RichImgs {
  import opened Py
  import opened PyStr
  import opened Files
  import opened Requests

  /** `any(part.strip().startswith(word) for part in cmd.split("&;"))` */
  method AnyPartStartsWith(cmd: string, word: string) returns (found: bool)
    ensures found <==> DeniedBy(cmd, word)
  {
    var parts := Split(cmd, CommandSeparator);
    for k := 0 to |parts|
      invariant forall m :: 0 <= m < k ==> !StartsWith(Strip(parts[m]), word)
    {
      if StartsWith(Strip(parts[k]), word) {
        return true;
      }
    }
    return false;
  }

  /** The deny-list loop of run_command: the first word of IGNORE_COMMANDS
      that starts some "&;"-separated part of cmd. */
  method FindDeniedWord(cmd: string) returns (word: Option<string>)
    ensures word.Some? <==> Denied(cmd)
  {
    for i := 0 to |IgnoreCommands|
      invariant forall j :: 0 <= j < i ==> !DeniedBy(cmd, IgnoreCommands[j])
    {
      var found := AnyPartStartsWith(cmd, IgnoreCommands[i]);
      if found {
        return Some(IgnoreCommands[i]);
      }
    }
    return None;
  }

  /** `[d for d in diffs if d.startswith("-")]` */
  function Removed(diffs: seq<string>): (lost: seq<string>)
    ensures forall k :: 0 <= k < |lost| ==> lost[k] in diffs && StartsWith(lost[k], "-")
    ensures forall d :: d in diffs && StartsWith(d, "-") ==> d in lost
    ensures forall d :: multiset(lost)[d] == if StartsWith(d, "-") then multiset(diffs)[d] else 0
  {
    if diffs == [] then []
    else
      var rest := Removed(diffs[..|diffs| - 1]);
      var d := diffs[|diffs| - 1];
      assert diffs == diffs[..|diffs| - 1] + [d];
      assert forall e :: e in diffs ==> e in diffs[..|diffs| - 1] || e == d;
      if StartsWith(d, "-") then rest + [d] else rest
  }

  /** The lines of lines that pattern finds a match in. */
  function Matching(pattern: string, lines: seq<string>, search: (string, string) -> bool): (m: seq<string>)
    ensures |m| <= |lines|
    ensures forall k :: 0 <= k < |m| ==> m[k] in lines && search(pattern, m[k])
  {
    if lines == [] then []
    else
      var rest := Matching(pattern, lines[..|lines| - 1], search);
      var l := lines[|lines| - 1];
      if search(pattern, l) then rest + [l] else rest
  }

  /** Matching keeps every line the pattern finds a match in, as many times
      as it occurs, and no other line. */
  lemma {:induction false} MatchingCounts(pattern: string, lines: seq<string>, search: (string, string) -> bool)
    ensures forall x ::
      multiset(Matching(pattern, lines, search))[x] == if search(pattern, x) then multiset(lines)[x] else 0
  {
    if lines != [] {
      var n := |lines| - 1;
      MatchingCounts(pattern, lines[..n], search);
      assert lines == lines[..n] + [lines[n]];
    }
  }

  /** The regex filter's matched list: for each pattern in order, the lines
      it finds a match in, so a line found by two patterns counts twice. */
  function MatchedLines(patterns: seq<string>, lines: seq<string>, search: (string, string) -> bool): seq<string>
  {
    if patterns == [] then []
    else MatchedLines(patterns[..|patterns| - 1], lines, search) + Matching(patterns[|patterns| - 1], lines, search)
  }

  /** The inner loop of the regex filter: the lines one pattern finds a
      match in, appended to matched in order. */
  method MatchPattern(pattern: string, lines: seq<string>, search: (string, string) -> bool, matched: seq<string>)
    returns (out: seq<string>)
    ensures out == matched + Matching(pattern, lines, search)
  {
    out := matched;
    for l := 0 to |lines|
      invariant out == matched + Matching(pattern, lines[..l], search)
    {
      assert lines[..l + 1][..l] == lines[..l];
      if search(pattern, lines[l]) {
        out := out + [lines[l]];
      }
    }
    assert lines[..|lines|] == lines;
  }

  /** The nested loops that collect matched_lost_lines. */
  method MatchLostLines(patterns: seq<string>, lines: seq<string>, search: (string, string) -> bool)
    returns (matched: seq<string>)
    ensures matched == MatchedLines(patterns, lines, search)
  {
    matched := [];
    for p := 0 to |patterns|
      invariant matched == MatchedLines(patterns[..p], lines, search)
    {
      assert patterns[..p + 1][..p] == patterns[..p];
      matched := MatchPattern(patterns[p], lines, search, matched);
    }
    assert patterns[..|patterns|] == patterns;
  }

  /** What the format branches of the render path did, from the disk mid
      to the disk written: pass is the gate call (svgTmp for an SVG
      destination or a missing SVG, the temporary file tmp holding the
      conversion otherwise); a decided gated step wrote on the gate's word
      and raised only if its copy failed, and the candidate was copied when
      it was written; an undecided pass raised from the gate or for the
      missing SVG; a step that was not gated changed nothing. */
  ghost predicate BranchOutcome(filename: string, svgTmp: string, tmp: string, pass: Pass, mid: map<string, Bytes>,
                                written: map<string, Bytes>, minPctDiff: Value, skipChangeRegex: Value,
                                env: RenderEnv, done: bool, step: Step, err: Option<Error>)
  {
    && pass == (if FormatOf(filename) == Some(Svg) || svgTmp !in mid then Pass(svgTmp, mid)
                else Pass(tmp, mid[tmp := Converted(filename, mid[svgTmp], env)]))
    && (done && Gated(step) ==>
          (step.wrote <==> GateDecision(pass.source, filename, pass.view, minPctDiff, skipChangeRegex, env) == Ok(true)))
    && (done ==> err == if Wrote(step) then CopyError(pass.view, pass.source, filename) else None)
    && (!done ==>
          err.Some? &&
          (GateDecision(pass.source, filename, pass.view, minPctDiff, skipChangeRegex, env) == Err(err.value)
           || (err == Some(FileNotFound) && pass.source !in pass.view)))
    && (!done || Gated(step) ==>
          written == if done && Wrote(step) && err.None? then pass.view[filename := pass.view[pass.source]] else pass.view)
    && (done && !Gated(step) ==> written == mid)
  }

  /** The disk mid that the render path prepares from the disk before: the
      fresh temporary file tmp, empty, and, when no SVG destination is
      cached, the SVG newSvg written to the fresh file svgTmp (else svgTmp
      is the cached SVG destination). */
  ghost predicate PreparedSvg(before: map<string, Bytes>, mid: map<string, Bytes>, tmp: string, svgTmp: string,
                              c: Caches, newSvg: Bytes, dir: string)
  {
    && tmp !in before && IsRelativeTo(tmp, dir)
    && (c.svg.None? ==>
          && svgTmp !in before[tmp := []] && IsRelativeTo(svgTmp, dir)
          && mid == before[tmp := []][svgTmp := newSvg])
    && (c.svg.Some? ==> svgTmp == c.svg.value && mid == before[tmp := []])
  }

  /** The render path's outcome, seen from the disk before the pass: mid is
      that disk with the temporary file tmp made and, when no SVG
      destination is cached, the SVG rendered from record into the fresh
      file svgTmp (else svgTmp is the cached SVG destination); the format
      branches took mid to written, and after is written with tmp deleted
      or kept. */
  lemma RenderOutcome(filename: string, step: Step, c: Caches, pass: Pass, before: map<string, Bytes>,
                      mid: map<string, Bytes>, written: map<string, Bytes>, after: map<string, Bytes>,
                      tmp: string, svgTmp: string, record: seq<Captured>, ss: SaveSettings, env: RenderEnv,
                      done: bool, err: Option<Error>)
    requires PreparedSvg(before, mid, tmp, svgTmp, c, FreshSvg(record, ss, env), env.tempDir)
    requires BranchOutcome(filename, svgTmp, tmp, pass, mid, written, ss.minPctDiff, ss.skipChangeRegex, env, done, step, err)
    requires done ==> !step.FromCache? && (step.Rendered? ==> FormatOf(filename).Some?)
    requires after == written || after == written - {tmp}
    ensures PassOutcome(filename, step, c, pass, before, after, record, ss, env, done, err)
  {
    RenderExtends(filename, pass, before, mid, tmp, svgTmp, c.svg.None?, FreshSvg(record, ss, env), env);
    if done && step.Rendered? {
      RenderOffered(filename, step, c, pass, before, mid, tmp, svgTmp, record, ss, env);
    }
    if done && Wrote(step) && CopyError(pass.view, pass.source, filename).None?
       && !IsRelativeTo(filename, env.tempDir) {
      assert filename != tmp;
    }
  }

  /** The gate call of the render path sees the disk before the pass with
      only temporary files added. */
  lemma RenderExtends(filename: string, pass: Pass, before: map<string, Bytes>, mid: map<string, Bytes>,
                      tmp: string, svgTmp: string, rendered: bool, newSvg: Bytes, env: RenderEnv)
    requires tmp !in before && IsRelativeTo(tmp, env.tempDir)
    requires rendered ==>
      && svgTmp !in before[tmp := []] && IsRelativeTo(svgTmp, env.tempDir)
      && mid == before[tmp := []][svgTmp := newSvg]
    requires !rendered ==> mid == before[tmp := []]
    requires pass == (if FormatOf(filename) == Some(Svg) || svgTmp !in mid then Pass(svgTmp, mid)
                      else Pass(tmp, mid[tmp := Converted(filename, mid[svgTmp], env)]))
    ensures Extends(before, pass.view, env.tempDir)
  {
    assert Extends(before, mid, env.tempDir);
  }

  /** The candidate a rendered step hands the gate holds the SVG (fresh or
      cached) converted to the destination's format. */
  lemma RenderOffered(filename: string, step: Step, c: Caches, pass: Pass, before: map<string, Bytes>,
                      mid: map<string, Bytes>, tmp: string, svgTmp: string, record: seq<Captured>,
                      ss: SaveSettings, env: RenderEnv)
    requires tmp !in before
    requires c.svg.None? ==> svgTmp != tmp && mid == before[tmp := []][svgTmp := FreshSvg(record, ss, env)]
    requires c.svg.Some? ==> svgTmp == c.svg.value && mid == before[tmp := []]
    requires pass == (if FormatOf(filename) == Some(Svg) || svgTmp !in mid then Pass(svgTmp, mid)
                      else Pass(tmp, mid[tmp := Converted(filename, mid[svgTmp], env)]))
    requires step.Rendered? && FormatOf(filename).Some?
    ensures var o := Offered(filename, step, c, before, FreshSvg(record, ss, env), env);
      o.Some? ==> pass.source in pass.view && pass.view[pass.source] == o.value
  {
  }

  /** The end of a render-path pass: the temporary file tmp is deleted when
      it lies under the temporary directory. */
  method RemoveTemp(tmp: string, fs: FileSystem, env: RenderEnv)
    modifies fs
    ensures fs.files == if IsRelativeTo(tmp, env.tempDir) then old(fs.files) - {tmp} else old(fs.files)
    ensures FilesKept(old(fs.files), fs.files, {}, env.tempDir)
  {
    if IsRelativeTo(tmp, env.tempDir) {
      var _ := fs.Unlink(tmp);
    }
  }

  /** The cached path's outcome: the gate judged the cached destination
      source on the disk before, and a written destination got its bytes. */
  lemma CachedOutcome(filename: string, source: string, c: Caches, verdict: Result<bool>, err: Option<Error>,
                      before: map<string, Bytes>, after: map<string, Bytes>, record: seq<Captured>,
                      ss: SaveSettings, env: RenderEnv)
    requires IsCached(c, source)
    requires verdict == GateDecision(source, filename, before, ss.minPctDiff, ss.skipChangeRegex, env)
    requires verdict.Err? ==> err == Some(verdict.error)
    requires verdict == Ok(false) ==> err.None? && after == before
    requires verdict == Ok(true) ==>
      (err == CopyError(before, source, filename) &&
       after == if err.None? then before[filename := before[source]] else before)
    ensures PassOutcome(filename, if verdict.Ok? then FromCache(source, verdict.value) else Unsupported(false), c,
                        Pass(source, before), before, after, record, ss, env, verdict.Ok?, err)
  {
    assert Extends(before, before, env.tempDir);
  }

  /** The regex filter of _enough_image_difference: whether every line the
      candidate loses is matched by the skip regexes. `diffs` is a
      generator that has already been drained to log its length, so the
      lost lines are always none and the filter never asks to skip. */
  method ChangeMatchesRegexes(skipRegexes: seq<string>, newBytes: Bytes, oldBytes: Bytes, env: RenderEnv)
    returns (ignorable: bool)
    ensures !ignorable
  {
    ignorable := false;
    var newLines := SplitLines(env.decodeText(newBytes));
    var oldLines := SplitLines(env.decodeText(oldBytes));
    if |newLines| > 0 || |oldLines| > 0 {
      var diffs := env.differ(newLines, oldLines);
      // len(list(diffs)) consumes the generator
      diffs := [];
      var lostLines := Removed(diffs);
      if |lostLines| > 0 {
        var matched := MatchLostLines(skipRegexes, lostLines, env.search);
        if |matched| == |lostLines| {
          ignorable := true;
        }
      }
    }
  }

  class RichImg {
    var snippetSyntax: Value
    var minPctDiff: Value
    var skipChangeRegex: Value
    var terminalWidth: Value
    var terminalTheme: Value
    var usePty: Value
    var consoleWidth: Option<int>
    var title: string
    var cmd: Option<string>
    var snippet: Option<string>
    var imgPaths: seq<string>
    var captured: seq<Captured>
    var numImgSaved: nat
    var numImgSkipped: nat
    var aborted: bool

    /** The object's state as a Request value. */
    function Snapshot(): Request
      reads this
    {
      Request(snippetSyntax, minPctDiff, skipChangeRegex, terminalWidth, terminalTheme, usePty,
              consoleWidth, title, cmd, snippet, imgPaths, captured, numImgSaved, numImgSkipped, aborted)
    }

    /** __hash__, which depends on the RICH_IMG_ATTRS fields only. */
    function Hash(): Fingerprint
      reads this`terminalWidth, this`terminalTheme, this`title, this`cmd, this`snippet,
            this`snippetSyntax, this`imgPaths
    {
      Fingerprint(terminalWidth, terminalTheme, title, cmd, snippet, snippetSyntax, imgPaths)
    }

    /** _hash_no_fn, which does not depend on img_paths either. */
    function HashNoFn(): FingerprintNoFn
      reads this`terminalWidth, this`terminalTheme, this`title, this`cmd, this`snippet, this`snippetSyntax
    {
      FingerprintNoFn(terminalWidth, terminalTheme, title, cmd, snippet, snippetSyntax)
    }

    /** __init__. The capture console's width is int(terminal_width), which
        raises for a non-numeric string; callers check ConsoleWidth first. */
    constructor (snippetSyntax: Value, minPctDiff: Value, skipChangeRegex: Value,
                 terminalWidth: Value, terminalTheme: Value, usePty: Value,
                 parseInt: string -> Option<int>)
      requires ConsoleWidth(terminalWidth, parseInt).Ok?
      ensures Snapshot() == Initial(snippetSyntax, minPctDiff, skipChangeRegex, terminalWidth,
                                    terminalTheme, usePty, ConsoleWidth(terminalWidth, parseInt).value)
    {
      this.snippetSyntax := snippetSyntax;
      this.minPctDiff := minPctDiff;
      this.skipChangeRegex := skipChangeRegex;
      this.terminalWidth := terminalWidth;
      this.terminalTheme := terminalTheme;
      this.usePty := usePty;
      this.title := "";
      this.consoleWidth := ConsoleWidth(terminalWidth, parseInt).value;
      this.cmd := None;
      this.snippet := None;
      this.imgPaths := [];
      this.captured := [];
      this.numImgSaved := 0;
      this.numImgSkipped := 0;
      this.aborted := false;
    }

    /** run_command: trim the command, refuse it if the deny-list matches,
        otherwise default the title to it and record its output. (Its
        return value, False when refused, is never used.) */
    method RunCommand()
      modifies this
      ensures Snapshot() == AfterRunCommand(old(Snapshot()))
    {
      if cmd.None? {
        return;
      }
      ghost var before := Snapshot();
      var c := Strip(cmd.value);
      RunCommandUnfold(before, c);
      cmd := Some(c);
      var word := FindDeniedWord(c);
      if word.Some? {
        aborted := true;
        assert Snapshot() == before.(cmd := Some(c), aborted := true);
        return;
      }
      if title == "" {
        title := c;
      }
      captured := captured + [CommandOutput(c, Truthy(usePty))];
      assert Snapshot() == before.(cmd := Some(c), title := if before.title == "" then c else before.title,
                                   captured := before.captured + [CommandOutput(c, Truthy(before.usePty))]);
    }

    /** format_snippet: JSON when the syntax is unset or "json" and the
        printer accepts the text, a highlighted block otherwise. */
    method FormatSnippet(jsonPrints: string -> bool)
      modifies this`captured
      ensures Snapshot() == AfterFormatSnippet(old(Snapshot()), jsonPrints)
    {
      if snippet.None? {
        return;
      }
      if (snippetSyntax == StrV("json") || snippetSyntax == NoneV) && jsonPrints(snippet.value) {
        captured := captured + [JsonSnippet(snippet.value)];
        return;
      }
      captured := captured + [SyntaxSnippet(snippet.value, snippetSyntax)];
    }

    /** get_output: a command wins over a snippet. */
    method GetOutput(jsonPrints: string -> bool)
      modifies this
      ensures Snapshot() == AfterGetOutput(old(Snapshot()), jsonPrints)
    {
      if cmd.Some? {
        RunCommand();
      } else if snippet.Some? {
        FormatSnippet(jsonPrints);
      }
    }

    /** _enough_image_difference: whether the candidate newFn should replace
        oldFn, counting the verdict. The regex filter runs over the lost
        lines of the diff, but `diffs` is a generator that has already been
        drained to log its length, so that list is always empty and the
        filter never changes the verdict. */
    method EnoughImageDifference(newFn: string, oldFn: string, fs: FileSystem, env: RenderEnv)
      returns (outcome: Result<bool>)
      requires env.AbsoluteCwd()
      modifies this`numImgSaved, this`numImgSkipped
      ensures outcome == GateDecision(newFn, oldFn, fs.files, minPctDiff, skipChangeRegex, env)
      ensures Snapshot() == AfterGate(old(Snapshot()), outcome)
    {
      var createFile := true;
      if oldFn in fs.files {
        if newFn !in fs.files {
          return Err(FileNotFound);
        }
        var newBytes, oldBytes := fs.files[newFn], fs.files[oldFn];
        var pctChange := PctChange(env.ratio(newBytes, oldBytes));
        var threshold := FloatOf(minPctDiff, env.parseFloat);
        if threshold.Err? {
          return Err(threshold.error);
        }
        if pctChange <= threshold.value {
          createFile := false;
        }
        if pctChange > 0.0 {
          var skipRegexes := IgnoreRegexes(Suffix(newFn));
          if Truthy(skipChangeRegex) {
            if !skipChangeRegex.StrV? {
              return Err(AttributeError);
            }
            skipRegexes := skipRegexes + SplitLines(skipChangeRegex.s);
          }
          if |skipRegexes| > 0 {
            var ignorable := ChangeMatchesRegexes(skipRegexes, newBytes, oldBytes, env);
            if ignorable {
              createFile := false;
            }
          }
        }
      }
      if !IsRelativeTo(oldFn, env.cwd) {
        return Err(ValueError);
      }
      CountVerdict(createFile);
      return Ok(createFile);
    }

    /** The counter update at the end of _enough_image_difference. */
    method CountVerdict(write: bool)
      modifies this`numImgSaved, this`numImgSkipped
      ensures Snapshot() == AfterGate(old(Snapshot()), Ok(write))
    {
      if write {
        numImgSaved := numImgSaved + 1;
      } else {
        numImgSkipped := numImgSkipped + 1;
      }
    }

    /** `if self._enough_image_difference(src, filename): copyfile(src, filename)`:
        the gate's verdict, and the error from the gate or from the copy. */
    method GateAndCopy(src: string, filename: string, fs: FileSystem, env: RenderEnv)
      returns (verdict: Result<bool>, err: Option<Error>)
      requires env.AbsoluteCwd()
      modifies this`numImgSaved, this`numImgSkipped, fs
      ensures verdict == GateDecision(src, filename, old(fs.files), minPctDiff, skipChangeRegex, env)
      ensures numImgSaved == old(numImgSaved) + (if verdict == Ok(true) then 1 else 0)
      ensures numImgSkipped == old(numImgSkipped) + (if verdict == Ok(false) then 1 else 0)
      ensures verdict.Err? ==> err == Some(verdict.error) && fs.files == old(fs.files)
      ensures verdict == Ok(false) ==> err.None? && fs.files == old(fs.files)
      ensures verdict == Ok(true) ==>
        (err == CopyError(old(fs.files), src, filename) &&
         fs.files == if err.None? then old(fs.files)[filename := old(fs.files)[src]] else old(fs.files))
      ensures FilesKept(old(fs.files), fs.files, if verdict == Ok(true) && err.None? then {filename} else {}, env.tempDir)
    {
      verdict := EnoughImageDifference(src, filename, fs, env);
      err := None;
      if verdict.Err? {
        err := Some(verdict.error);
      } else if verdict.value {
        err := fs.CopyFile(src, filename);
      }
    }

    /** save_svg into a new temporary file: the SVG of everything recorded
        so far, after which the record is empty (save_svg clears it). */
    method RenderSvgToTemp(theme: Option<string>, fs: FileSystem, env: RenderEnv) returns (source: string)
      modifies this`captured, fs
      ensures source !in old(fs.files) && IsRelativeTo(source, env.tempDir)
      ensures fs.files == old(fs.files)[source := env.renderSvg(old(captured), consoleWidth, title, theme)]
      ensures captured == []
    {
      source := fs.MkTemp(env.tempDir);
      fs.WriteFile(source, env.renderSvg(captured, consoleWidth, title, theme));
      captured := [];
    }

    /** Converting the SVG in svgTmp to PNG (or PDF) into the temporary file
        tmp, then gating and copying it to filename. Opening an SVG that
        does not exist raises. `pass` is the gate call: tmp on the disk
        holding the conversion, or svgTmp on the unchanged disk when it is
        missing. */
    method ConvertAndCopy(svgTmp: string, tmp: string, filename: string, toPng: bool, fs: FileSystem, env: RenderEnv)
      returns (verdict: Result<bool>, err: Option<Error>, ghost pass: Pass)
      requires env.AbsoluteCwd() && IsRelativeTo(tmp, env.tempDir)
      modifies this`numImgSaved, this`numImgSkipped, fs
      ensures pass == if svgTmp !in old(fs.files) then Pass(svgTmp, old(fs.files))
        else Pass(tmp, old(fs.files)[tmp := if toPng then env.svgToPng(old(fs.files)[svgTmp])
                                            else env.svgToPdf(old(fs.files)[svgTmp])])
      ensures verdict == if svgTmp !in old(fs.files) then Err(FileNotFound)
        else GateDecision(tmp, filename, pass.view, minPctDiff, skipChangeRegex, env)
      ensures verdict.Err? ==> err == Some(verdict.error)
      ensures verdict == Ok(false) ==> err.None?
      ensures verdict == Ok(true) ==> err == CopyError(pass.view, pass.source, filename)
      ensures fs.files == if verdict == Ok(true) && err.None? then pass.view[filename := pass.view[pass.source]]
        else pass.view
      ensures numImgSaved == old(numImgSaved) + (if verdict == Ok(true) then 1 else 0)
      ensures numImgSkipped == old(numImgSkipped) + (if verdict == Ok(false) then 1 else 0)
      ensures FilesKept(old(fs.files), fs.files, if verdict == Ok(true) && err.None? then {filename} else {}, env.tempDir)
    {
      if svgTmp !in fs.files {
        return Err(FileNotFound), Some(FileNotFound), Pass(svgTmp, fs.files);
      }
      var converted := if toPng then env.svgToPng(fs.files[svgTmp]) else env.svgToPdf(fs.files[svgTmp]);
      fs.WriteFile(tmp, converted);
      ghost var mid := fs.files;
      pass := Pass(tmp, mid);
      verdict, err := GateAndCopy(tmp, filename, fs, env);
      ghost var w := if verdict == Ok(true) && err.None? then {filename} else {};
      FilesKeptChain(old(fs.files), mid, fs.files, {}, w, w, env.tempDir);
    }

    /** The gated branches of save_images' render path: gate and copy the
        SVG in svgTmp to an SVG destination, or convert it into the
        temporary file tmp and gate and copy that to a PNG or PDF one.
        `pass` is the gate call: svgTmp for an SVG destination (or a missing
        SVG), tmp holding the conversion otherwise. */
    method GateRendered(filename: string, isSvg: bool, isPng: bool, svgTmp: string, tmp: string,
                        fs: FileSystem, env: RenderEnv)
      returns (verdict: Result<bool>, err: Option<Error>, ghost pass: Pass)
      requires env.AbsoluteCwd() && IsRelativeTo(tmp, env.tempDir)
      requires isSvg <==> FormatOf(filename) == Some(Svg)
      requires isPng <==> FormatOf(filename) == Some(Png)
      requires isSvg || isPng || FormatOf(filename) == Some(Pdf)
      modifies this`numImgSaved, this`numImgSkipped, fs
      ensures pass == if isSvg || svgTmp !in old(fs.files) then Pass(svgTmp, old(fs.files))
        else Pass(tmp, old(fs.files)[tmp := Converted(filename, old(fs.files)[svgTmp], env)])
      ensures verdict == if pass.source !in pass.view && !isSvg then Err(FileNotFound)
        else GateDecision(pass.source, filename, pass.view, minPctDiff, skipChangeRegex, env)
      ensures verdict.Err? ==> err == Some(verdict.error)
      ensures verdict == Ok(false) ==> err.None?
      ensures verdict == Ok(true) ==> err == CopyError(pass.view, pass.source, filename)
      ensures fs.files == if verdict == Ok(true) && err.None? then pass.view[filename := pass.view[pass.source]]
        else pass.view
      ensures numImgSaved == old(numImgSaved) + (if verdict == Ok(true) then 1 else 0)
      ensures numImgSkipped == old(numImgSkipped) + (if verdict == Ok(false) then 1 else 0)
      ensures FilesKept(old(fs.files), fs.files, if verdict == Ok(true) && err.None? then {filename} else {}, env.tempDir)
    {
      if isSvg {
        pass := Pass(svgTmp, fs.files);
        verdict, err := GateAndCopy(svgTmp, filename, fs, env);
      } else {
        verdict, err, pass := ConvertAndCopy(svgTmp, tmp, filename, isPng, fs, env);
      }
    }

    /** The cache updates after a gated render-path write: an SVG
        destination becomes svg_img once the gate decided, whether or not it
        was written; a PNG or PDF destination becomes png_img or pdf_img
        only once written. */
    method CacheRendered(filename: string, isSvg: bool, isPng: bool, svgFresh: bool, verdict: Result<bool>,
                         err: Option<Error>, c: Caches)
      returns (caches: Caches)
      requires isSvg <==> FormatOf(filename) == Some(Svg)
      requires isPng <==> FormatOf(filename) == Some(Png)
      requires isSvg || isPng || FormatOf(filename) == Some(Pdf)
      requires c.Of(FormatOf(filename).value).None?
      ensures verdict.Ok? && err.None? ==> caches == NextCaches(filename, Rendered(svgFresh, verdict.value), c)
    {
      caches := c;
      if verdict == Ok(true) && err.None? {
        if isSvg {
          caches := caches.(svg := Some(filename));
        } else if isPng {
          caches := caches.(png := Some(filename));
        } else {
          caches := caches.(pdf := Some(filename));
        }
      } else if verdict == Ok(false) && isSvg {
        caches := caches.(svg := Some(filename));
      }
    }

    /** The format branches of save_images' render path: the gated
        branches, skipped when cairosvg cannot be imported for a PNG or PDF
        destination, and nothing for an unknown extension. */
    method WriteRendered(filename: string, isSvg: bool, isPng: bool, isPdf: bool, svgFresh: bool,
                         svgTmp: string, tmp: string, c: Caches, fs: FileSystem, env: RenderEnv)
      returns (err: Option<Error>, done: bool, step: Step, caches: Caches, ghost pass: Pass)
      requires env.AbsoluteCwd()
      requires isSvg <==> FormatOf(filename) == Some(Svg)
      requires isPng <==> FormatOf(filename) == Some(Png)
      requires isPdf <==> FormatOf(filename) == Some(Pdf)
      requires FormatOf(filename).Some? ==> c.Of(FormatOf(filename).value).None?
      requires svgFresh == c.svg.None? && IsRelativeTo(tmp, env.tempDir)
      modifies this`numImgSaved, this`numImgSkipped, fs
      ensures err.None? ==> done
      ensures done ==> StepFor(filename, step, c, env.cairoAvailable) && !step.FromCache?
      ensures done && err.None? ==> caches == NextCaches(filename, step, c)
      ensures BranchOutcome(filename, svgTmp, tmp, pass, old(fs.files), fs.files, minPctDiff, skipChangeRegex,
                            env, done, step, err)
      ensures numImgSaved == old(numImgSaved) + (if done && Wrote(step) then 1 else 0)
      ensures numImgSkipped == old(numImgSkipped) + (if done && Gated(step) && !Wrote(step) then 1 else 0)
      ensures FilesKept(old(fs.files), fs.files, if done && Wrote(step) && err.None? then {filename} else {}, env.tempDir)
    {
      caches, err, done := c, None, true;
      pass := if isSvg || svgTmp !in fs.files then Pass(svgTmp, fs.files)
        else Pass(tmp, fs.files[tmp := Converted(filename, fs.files[svgTmp], env)]);
      if !isSvg && !isPng && !isPdf {
        step := Unsupported(svgFresh);
      } else if !isSvg && !env.cairoAvailable {
        // cairosvg cannot be imported: skip, leaving the temporary files
        step := Unconverted(svgFresh);
      } else {
        var verdict;
        verdict, err, pass := GateRendered(filename, isSvg, isPng, svgTmp, tmp, fs, env);
        caches := CacheRendered(filename, isSvg, isPng, svgFresh, verdict, err, c);
        step := Rendered(svgFresh, verdict == Ok(true));
        done := verdict.Ok?;
      }
    }

    /** The settings save_images works with, given the theme it looked up. */
    function Settings(theme: Option<string>): SaveSettings
      reads this`consoleWidth, this`title, this`minPctDiff, this`skipChangeRegex
    {
      SaveSettings(consoleWidth, title, theme, minPctDiff, skipChangeRegex)
    }

    /** The start of save_images' render path: the temporary file tmp,
        and the SVG to use — rendered into the fresh temporary file svgTmp
        unless an SVG destination is cached, which svgTmp then is. */
    method PrepareSvg(c: Caches, theme: Option<string>, fs: FileSystem, env: RenderEnv)
      returns (tmp: string, svgTmp: string)
      modifies this`captured, fs
      ensures PreparedSvg(old(fs.files), fs.files, tmp, svgTmp, c, old(FreshSvg(captured, Settings(theme), env)), env.tempDir)
      ensures captured == if c.svg.None? then [] else old(captured)
      ensures FilesKept(old(fs.files), fs.files, {}, env.tempDir)
    {
      tmp := fs.MkTemp(env.tempDir);
      if c.svg.None? {
        svgTmp := RenderSvgToTemp(theme, fs, env);
      } else {
        svgTmp := c.svg.value;
      }
    }

    /** The render path of save_images' loop, for a destination whose format
        has no cached destination: make the temporary file tmp, render the
        SVG unless an SVG destination is cached, write the destination's
        format, and delete tmp (not when conversion was skipped). */
    method SaveRendered(filename: string, c: Caches, theme: Option<string>, fs: FileSystem, env: RenderEnv)
      returns (err: Option<Error>, done: bool, step: Step, caches: Caches, svgTmp: string, ghost rendered: bool,
               ghost pass: Pass, tmp: string)
      requires env.AbsoluteCwd()
      requires FormatOf(filename).Some? ==> c.Of(FormatOf(filename).value).None?
      modifies this`captured, this`numImgSaved, this`numImgSkipped, fs
      ensures err.None? ==> done
      ensures done ==> StepFor(filename, step, c, env.cairoAvailable) && !step.FromCache?
      ensures done && err.None? ==> caches == NextCaches(filename, step, c)
      ensures rendered <==> c.svg.None?
      ensures PassOutcome(filename, step, c, pass, old(fs.files), fs.files, old(captured), old(Settings(theme)), env, done, err)
      ensures tmp !in old(fs.files) && IsRelativeTo(tmp, env.tempDir)
      ensures err.None? ==> (tmp in fs.files <==> step.Unconverted?)
      ensures if c.svg.Some? then svgTmp == c.svg.value else IsRelativeTo(svgTmp, env.tempDir)
      ensures numImgSaved == old(numImgSaved) + (if done && Wrote(step) then 1 else 0)
      ensures numImgSkipped == old(numImgSkipped) + (if done && Gated(step) && !Wrote(step) then 1 else 0)
      ensures captured == if rendered then [] else old(captured)
      ensures FilesKept(old(fs.files), fs.files, if done && Wrote(step) && err.None? then {filename} else {}, env.tempDir)
    {
      var lower := Lower(filename);
      var isSvg, isPng, isPdf := EndsWith(lower, ".svg"), EndsWith(lower, ".png"), EndsWith(lower, ".pdf");
      rendered := c.svg.None?;
      ghost var ss := Settings(theme);
      tmp, svgTmp := PrepareSvg(c, theme, fs, env);
      ghost var mid := fs.files;
      err, done, step, caches, pass := WriteRendered(filename, isSvg, isPng, isPdf, c.svg.None?, svgTmp, tmp, c, fs, env);
      ghost var w := if done && Wrote(step) && err.None? then {filename} else {};
      FilesKeptChain(old(fs.files), mid, fs.files, {}, w, w, env.tempDir);
      ghost var written := fs.files;
      if err.None? && !step.Unconverted? {
        // delete the temporary file
        RemoveTemp(tmp, fs, env);
      }
      FilesKeptChain(old(fs.files), written, fs.files, w, {}, w, env.tempDir);
      RenderOutcome(filename, step, c, pass, old(fs.files), mid, written, fs.files, tmp, svgTmp,
                    old(captured), ss, env, done, err);
    }

    /** One pass of save_images' loop, for destination filename with the
        caches c: reuse the cached destination of its format, if any, or
        take the render path. `done` says the pass got as far as deciding
        the step (an error can cut it short before that); `caches` and
        `svgTmp` are the new svg_img/png_img/pdf_img and svg_tmp_filename,
        `rendered` says the SVG was rendered, and `pass` is the gate call. */
    method SaveTo(filename: string, c: Caches, theme: Option<string>, fs: FileSystem, env: RenderEnv)
      returns (err: Option<Error>, done: bool, step: Step, caches: Caches, svgTmp: Option<string>,
               ghost rendered: bool, ghost pass: Pass)
      requires env.AbsoluteCwd()
      modifies this`captured, this`numImgSaved, this`numImgSkipped, fs
      ensures err.None? ==> done
      ensures done ==> StepFor(filename, step, c, env.cairoAvailable)
      ensures done && err.None? ==> caches == NextCaches(filename, step, c)
      ensures done ==> (rendered <==> !step.FromCache? && step.svgFresh)
      ensures PassOutcome(filename, step, c, pass, old(fs.files), fs.files, old(captured), old(Settings(theme)), env, done, err)
      ensures numImgSaved == old(numImgSaved) + (if done && Wrote(step) then 1 else 0)
      ensures numImgSkipped == old(numImgSkipped) + (if done && Gated(step) && !Wrote(step) then 1 else 0)
      ensures captured == if rendered then [] else old(captured)
      ensures err.None? && !step.FromCache? ==> svgTmp.Some?
      ensures svgTmp.Some? ==> c.svg == svgTmp || IsRelativeTo(svgTmp.value, env.tempDir)
      ensures FilesKept(old(fs.files), fs.files, if done && Wrote(step) && err.None? then {filename} else {}, env.tempDir)
    {
      var lower := Lower(filename);
      var cached: Option<string> := None;
      if EndsWith(lower, ".png") && c.png.Some? {
        cached := c.png;
      } else if EndsWith(lower, ".pdf") && c.pdf.Some? {
        cached := c.pdf;
      } else if EndsWith(lower, ".svg") && c.svg.Some? {
        cached := c.svg;
      }
      if cached.Some? {
        // reuse the destination already made in this format
        var verdict;
        pass := Pass(cached.value, fs.files);
        verdict, err := GateAndCopy(cached.value, filename, fs, env);
        done, step, caches, svgTmp, rendered := verdict.Ok?, Unsupported(false), c, None, false;
        if verdict.Ok? {
          step := FromCache(cached.value, verdict.value);
        }
        CachedOutcome(filename, cached.value, c, verdict, err, old(fs.files), fs.files, old(captured),
                      old(Settings(theme)), env);
      } else {
        var tmpSvg, tmp;
        err, done, step, caches, tmpSvg, rendered, pass, tmp := SaveRendered(filename, c, theme, fs, env);
        svgTmp := Some(tmpSvg);
      }
    }

    /** The part of the state save_images changes, as a value. */
    function SaveStateOf(fs: FileSystem): SaveState
      reads this`numImgSaved, this`numImgSkipped, this`captured, fs
    {
      SaveState(numImgSaved, numImgSkipped, captured, fs.files)
    }

    /** One pass of the loop of save_images with the counters and the
        record accounted for: `done`, `step` and `pass` are those of SaveTo,
        and steps' is steps with the step appended when it was decided. */
    method SaveCounted(paths: seq<string>, i: nat, theme: Option<string>, caches: Caches, fs: FileSystem, env: RenderEnv,
                       ghost steps: seq<Step>, ghost renders: seq<seq<Captured>>, ghost start: SaveState)
      returns (err: Option<Error>, next: Caches, svgTmp: Option<string>, ghost done: bool, ghost step: Step,
               ghost pass: Pass, ghost steps': seq<Step>, ghost renders': seq<seq<Captured>>)
      requires env.AbsoluteCwd()
      requires i == |steps| < |paths| && caches == CachesAfter(paths, steps) && |renders| == RenderCount(steps)
      requires SavedSoFar(paths, steps, renders, start, SaveStateOf(fs), env.tempDir, env.cairoAvailable)
      modifies this`captured, this`numImgSaved, this`numImgSkipped, fs
      ensures err.None? ==> done
      ensures steps' == if done then steps + [step] else steps
      ensures err.None? && steps == [] ==> svgTmp.Some?
      ensures err.None? ==> next == CachesAfter(paths, steps') && |renders'| == RenderCount(steps')
      ensures err.None? && caches.svg.Some? ==> next.svg == caches.svg
      ensures svgTmp.Some? ==> caches.svg == svgTmp || IsRelativeTo(svgTmp.value, env.tempDir)
      ensures SavedSoFar(paths, steps', renders', start, SaveStateOf(fs), env.tempDir, env.cairoAvailable)
      ensures PassOutcome(paths[i], step, caches, pass, old(fs.files), fs.files, old(captured), old(Settings(theme)), env,
                          done, err)
      ensures FilesKept(old(fs.files), fs.files, if done && Wrote(step) && err.None? then {paths[i]} else {}, env.tempDir)
    {
      ghost var mid := SaveStateOf(fs);
      var stepNow;
      ghost var rendered;
      err, done, stepNow, next, svgTmp, rendered, pass := SaveTo(paths[i], caches, theme, fs, env);
      step := stepNow;
      steps', renders' := SavedSoFarNext(paths, steps, renders, start, mid, SaveStateOf(fs), env.tempDir,
                                         env.cairoAvailable, step, done, rendered,
                                         if done && Wrote(step) && err.None? then {paths[i]} else {});
    }

    /** One pass of the loop of save_images, with its bookkeeping. */
    method SaveNext(paths: seq<string>, i: nat, theme: Option<string>, caches: Caches, fs: FileSystem, env: RenderEnv,
                    ghost steps: seq<Step>, ghost renders: seq<seq<Captured>>, ghost start: SaveState,
                    ghost passes: seq<Pass>, ghost snaps: seq<map<string, Bytes>>, ghost ss: SaveSettings)
      returns (err: Option<Error>, next: Caches, svgTmp: Option<string>,
               ghost steps': seq<Step>, ghost renders': seq<seq<Captured>>,
               ghost passes': seq<Pass>, ghost snaps': seq<map<string, Bytes>>, ghost failure: Pass)
      requires env.AbsoluteCwd() && ss == Settings(theme)
      requires i == |steps| < |paths| && caches == CachesAfter(paths, steps) && |renders| == RenderCount(steps)
      requires SavedSoFar(paths, steps, renders, start, SaveStateOf(fs), env.tempDir, env.cairoAvailable)
      requires PassesFit(paths, steps, passes, snaps, start.captured, ss, env)
      requires snaps[|steps|] == fs.files && CopiesOk(paths, steps, passes, |steps|)
      modifies this`captured, this`numImgSaved, this`numImgSkipped, fs
      ensures err.None? ==> |steps'| == |steps| + 1
      ensures err.None? && steps == [] ==> svgTmp.Some?
      ensures err.None? ==> next == CachesAfter(paths, steps') && |renders'| == RenderCount(steps')
      ensures err.None? && caches.svg.Some? ==> next.svg == caches.svg
      ensures svgTmp.Some? ==> caches.svg == svgTmp || IsRelativeTo(svgTmp.value, env.tempDir)
      ensures SavedSoFar(paths, steps', renders', start, SaveStateOf(fs), env.tempDir, env.cairoAvailable)
      ensures PassesFit(paths, steps', passes', snaps', start.captured, ss, env)
      ensures |passes| <= |passes'| && passes'[..|passes|] == passes
      ensures |snaps| <= |snaps'| && snaps'[..|snaps|] == snaps
      ensures err.None? ==> snaps'[|steps'|] == fs.files && CopiesOk(paths, steps', passes', |steps'|)
      ensures err.Some? ==> LoopFailed(paths, steps', passes', snaps', failure, ss, env, err.value)
      ensures err.Some? ==> FilesKept(snaps'[|steps'|], fs.files, {}, env.tempDir)
    {
      ghost var record := captured;
      ghost var done, step;
      err, next, svgTmp, done, step, failure, steps', renders' :=
        SaveCounted(paths, i, theme, caches, fs, env, steps, renders, start);
      passes', snaps' := PassesNext(paths, steps, passes, snaps, start.captured, ss, env, record,
                                    step, done, failure, fs.files, err);
    }

    /** The loop of save_images over the destinations paths, with the
        theme already looked up. It stops at the first error. `svgTmp` is
        svg_tmp_filename after the loop; `passes` are the gate calls of
        the steps, `snaps` the disk before each step and after the last,
        and `failure` the gate call of a pass an error cut short. */
    method SaveEach(paths: seq<string>, theme: Option<string>, fs: FileSystem, env: RenderEnv)
      returns (err: Option<Error>, svgTmp: Option<string>, ghost steps: seq<Step>, ghost renders: seq<seq<Captured>>,
               ghost passes: seq<Pass>, ghost snaps: seq<map<string, Bytes>>, ghost failure: Pass)
      requires env.AbsoluteCwd()
      modifies this`captured, this`numImgSaved, this`numImgSkipped, fs
      ensures err.None? ==> |steps| == |paths| && |renders| == RenderCount(steps)
      ensures err.None? && paths != [] ==> svgTmp.Some?
      ensures err.None? && svgTmp.Some? ==>
        CachesAfter(paths, steps).svg == svgTmp || IsRelativeTo(svgTmp.value, env.tempDir)
      ensures SavedSoFar(paths, steps, renders, old(SaveStateOf(fs)), SaveStateOf(fs), env.tempDir, env.cairoAvailable)
      ensures PassesFit(paths, steps, passes, snaps, old(captured), Settings(theme), env)
      ensures snaps[0] == old(fs.files)
      ensures err.None? ==> snaps[|steps|] == fs.files && CopiesOk(paths, steps, passes, |steps|)
      ensures err.Some? ==> LoopFailed(paths, steps, passes, snaps, failure, Settings(theme), env, err.value)
      ensures err.Some? ==> FilesKept(snaps[|steps|], fs.files, {}, env.tempDir)
    {
      steps, renders, passes, snaps := [], [], [], [fs.files];
      err, svgTmp := None, None;
      failure := Pass("", map[]);
      var caches := Caches(None, None, None);
      var i := 0;
      while i < |paths| && err.None?
        invariant i <= |paths| && (err.None? ==> |steps| == i)
        invariant err.None? ==> caches == CachesAfter(paths, steps) && |renders| == RenderCount(steps)
        invariant err.None? && i > 0 ==> svgTmp.Some?
        invariant err.None? && svgTmp.Some? ==>
          CachesAfter(paths, steps).svg == svgTmp || IsRelativeTo(svgTmp.value, env.tempDir)
        invariant SavedSoFar(paths, steps, renders, old(SaveStateOf(fs)), SaveStateOf(fs), env.tempDir, env.cairoAvailable)
        invariant PassesFit(paths, steps, passes, snaps, old(captured), Settings(theme), env)
        invariant |snaps| > 0 && snaps[0] == old(fs.files)
        invariant err.None? ==> snaps[|steps|] == fs.files && CopiesOk(paths, steps, passes, |steps|)
        invariant err.Some? ==> LoopFailed(paths, steps, passes, snaps, failure, Settings(theme), env, err.value)
        invariant err.Some? ==> FilesKept(snaps[|steps|], fs.files, {}, env.tempDir)
      {
        var t;
        err, caches, t, steps, renders, passes, snaps, failure :=
          SaveNext(paths, i, theme, caches, fs, env, steps, renders, old(SaveStateOf(fs)), passes, snaps, Settings(theme));
        if t.Some? {
          svgTmp := t;
        }
        i := i + 1;
      }
    }

    /** save_images: nothing for an aborted request or one without
        destinations; otherwise look up the theme and, for each destination
        in order, reuse the destination already produced in the same
        format, or render the SVG (once, until an SVG destination exists),
        convert it if needed, and write it through the gate; finally delete
        the temporary SVG. The ghost `steps` says what happened to each
        destination handled; `renders` lists the recorded output each SVG
        render saw. Rendering clears the record, so every render after the
        first one sees nothing. `passes` are the gate calls of the steps,
        `snaps` the disk before each step and after the last, and `failure`
        the gate call of a pass an error cut short. */
    method SaveImages(fs: FileSystem, env: RenderEnv)
      returns (err: Option<Error>, ghost steps: seq<Step>, ghost renders: seq<seq<Captured>>,
               ghost passes: seq<Pass>, ghost snaps: seq<map<string, Bytes>>, ghost failure: Pass,
               ghost lastSvg: Option<string>)
      requires env.AbsoluteCwd()
      modifies this`captured, this`numImgSaved, this`numImgSkipped, fs
      ensures old(aborted) || old(imgPaths) == [] ==>
        err.None? && steps == [] && renders == [] && fs.files == old(fs.files)
      ensures !old(aborted) && old(imgPaths) != [] && ThemeOf(old(terminalTheme), env.themes).Err? ==>
        err == Some(TypeError) && steps == [] && renders == [] && fs.files == old(fs.files)
      ensures |steps| <= |imgPaths|
      ensures StepsFit(imgPaths, steps, env.cairoAvailable)
      ensures err.None? && !old(aborted) ==> |steps| == |imgPaths| && |renders| == RenderCount(steps)
      ensures numImgSaved == old(numImgSaved) + SavedCount(steps)
      ensures numImgSkipped == old(numImgSkipped) + SkippedCount(steps)
      ensures |renders| > 0 ==> renders[0] == old(captured) && forall j :: 0 < j < |renders| ==> renders[j] == []
      ensures captured == if |renders| > 0 then [] else old(captured)
      ensures FilesKept(old(fs.files), fs.files, WrittenPaths(imgPaths, steps), env.tempDir)
      ensures ThemeOf(terminalTheme, env.themes).Ok? ==>
        PassesFit(imgPaths, steps, passes, snaps, old(captured), Settings(ThemeOf(terminalTheme, env.themes).value), env)
      ensures |snaps| == |steps| + 1 && |passes| == |steps| && snaps[0] == old(fs.files)
      ensures err.None? ==> CopiesOk(imgPaths, steps, passes, |steps|)
      ensures FilesKept(snaps[|steps|], fs.files, {}, env.tempDir)
      ensures lastSvg.Some? <==>
        && !old(aborted) && old(imgPaths) != [] && ThemeOf(terminalTheme, env.themes).Ok?
        && |steps| == |imgPaths| && CopiesOk(imgPaths, steps, passes, |steps|)
      ensures lastSvg.Some? ==>
        CachesAfter(imgPaths, steps).svg == lastSvg || IsRelativeTo(lastSvg.value, env.tempDir)
      ensures lastSvg.Some? && IsRelativeTo(lastSvg.value, env.tempDir) ==>
        && err == (if lastSvg.value in snaps[|steps|] then None else Some(FileNotFound))
        && fs.files == snaps[|steps|] - {lastSvg.value}
      ensures lastSvg.Some? && !IsRelativeTo(lastSvg.value, env.tempDir) ==> err.None? && fs.files == snaps[|steps|]
      ensures lastSvg.None? && err.None? ==> fs.files == snaps[|steps|]
      ensures err.Some? && lastSvg.None? && !old(aborted) && old(imgPaths) != [] && ThemeOf(terminalTheme, env.themes).Ok? ==>
        LoopFailed(imgPaths, steps, passes, snaps, failure, Settings(ThemeOf(terminalTheme, env.themes).value), env, err.value)
    {
      steps, renders, passes, snaps := [], [], [], [fs.files];
      failure := Pass("", map[]);
      err, lastSvg := None, None;
      if !aborted && |imgPaths| > 0 {
        var theme := ThemeOf(terminalTheme, env.themes);
        if theme.Err? {
          err := Some(theme.error);
        } else {
          var svgTmp;
          err, svgTmp, steps, renders, passes, snaps, failure := SaveEach(imgPaths, theme.value, fs, env);
          if err.Some? {
            LoopFailedStopsEarly(imgPaths, steps, passes, snaps, failure,
                                 Settings(ThemeOf(terminalTheme, env.themes).value), env, err.value);
          } else {
            lastSvg := svgTmp;
          }
          // delete the temporary SVG, which may be the last SVG destination
          if err.None? && IsRelativeTo(svgTmp.value, env.tempDir) {
            ghost var files := fs.files;
            err := fs.Unlink(svgTmp.value);
            assert FilesKept(files, fs.files, {}, env.tempDir);
            FilesKeptChain(old(fs.files), files, fs.files, WrittenPaths(imgPaths, steps), {},
                           WrittenPaths(imgPaths, steps), env.tempDir);
          }
        }
      }
    }
  }
}
