/** The CodexSearch class of codex_search.py: it finds the files to search,
    turns their image directives into RichImg requests, merges requests
    that differ only in their destinations, and totals what saving them
    wrote and skipped. Each method is proved against module ScanSpec. */
module CodexSearches {
  import opened Py
  import opened PyStr
  import opened Files
  import opened Requests
  import opened RichImgs
  import opened ScanSpec

  /** The search patterns used when none are given. */
  const DefaultInclude: seq<string> := ["**/*.md"]

  /** The exclusions that always apply. */
  const DefaultExclude: seq<string> := ["**/.git*", "**/.git*/**", "**/node_modules/**"]

  // ------------------------------------------------------------ _clean_list

  /** A stripped line survives _clean_list: not empty, not a comment. */
  predicate KeptLine(s: string)
  {
    s != "" && !StartsWith(s, "#")
  }

  /** The lines _clean_list returns. */
  function Cleaned(lines: seq<string>): seq<string>
  {
    if lines == [] then []
    else
      var line := Strip(lines[|lines| - 1]);
      Cleaned(lines[..|lines| - 1]) + if KeptLine(line) then [line] else []
  }

  /** _clean_list: strip each line and keep those that are neither empty
      nor comments. */
  method CleanList(uncleanLines: seq<string>) returns (cleanLines: seq<string>)
    ensures cleanLines == Cleaned(uncleanLines)
  {
    cleanLines := [];
    for k := 0 to |uncleanLines|
      invariant cleanLines == Cleaned(uncleanLines[..k])
    {
      assert uncleanLines[..k + 1][..k] == uncleanLines[..k];
      var line := Strip(uncleanLines[k]);
      if !StartsWith(line, "#") && line != "" {
        cleanLines := cleanLines + [line];
      }
    }
    assert uncleanLines[..|uncleanLines|] == uncleanLines;
  }

  /** idx picks, in increasing order, the lines whose stripped text is
      kept, and cleaned is those stripped lines. */
  predicate Picks(lines: seq<string>, cleaned: seq<string>, idx: seq<nat>)
  {
    && |idx| == |cleaned|
    && (forall k :: 0 <= k < |idx| ==> idx[k] < |lines| && cleaned[k] == Strip(lines[idx[k]]))
    && (forall k, m :: 0 <= k < m < |idx| ==> idx[k] < idx[m])
    && (forall i :: 0 <= i < |lines| ==> (KeptLine(Strip(lines[i])) <==> i in idx))
  }

  /** One more line: a kept line extends the picks by its index. */
  lemma PicksStep(lines: seq<string>, rest: seq<nat>) returns (idx: seq<nat>)
    requires lines != [] && Picks(lines[..|lines| - 1], Cleaned(lines[..|lines| - 1]), rest)
    ensures Picks(lines, Cleaned(lines), idx)
  {
    var n := |lines| - 1;
    var init := lines[..n];
    assert forall i :: 0 <= i < n ==> init[i] == lines[i];
    var cleaned := Cleaned(init);
    if KeptLine(Strip(lines[n])) {
      idx := rest + [n];
      assert Cleaned(lines) == cleaned + [Strip(lines[n])];
      forall k | 0 <= k < |idx|
        ensures idx[k] < |lines| && Cleaned(lines)[k] == Strip(lines[idx[k]])
      {
        if k < |rest| {
          assert idx[k] == rest[k];
        }
      }
      forall i | 0 <= i < |lines| ensures KeptLine(Strip(lines[i])) <==> i in idx {
        if i < n {
          assert i in idx <==> i in rest;
        }
      }
    } else {
      idx := rest;
      assert Cleaned(lines) == cleaned + [];
      forall i | 0 <= i < |lines| ensures KeptLine(Strip(lines[i])) <==> i in idx {
        if i == n {
          assert n !in rest;
        }
      }
    }
  }

  /** _clean_list keeps, in input order, exactly the stripped lines that
      are neither empty nor comments: idx lists the lines it keeps. */
  lemma {:induction false} CleanedExactly(lines: seq<string>) returns (idx: seq<nat>)
    ensures Picks(lines, Cleaned(lines), idx)
    decreases |lines|
  {
    if lines == [] {
      idx := [];
    } else {
      var rest := CleanedExactly(lines[..|lines| - 1]);
      idx := PicksStep(lines, rest);
    }
  }

  /** Cleaning a cleaned list changes nothing. */
  lemma {:induction false} CleanedIdempotent(lines: seq<string>)
    ensures Cleaned(Cleaned(lines)) == Cleaned(lines)
    decreases |lines|
  {
    if lines != [] {
      var init := lines[..|lines| - 1];
      var line := Strip(lines[|lines| - 1]);
      CleanedIdempotent(init);
      if KeptLine(line) {
        var c := Cleaned(init) + [line];
        assert Cleaned(lines) == c;
        assert c[..|c| - 1] == Cleaned(init);
        StripIdempotent(lines[|lines| - 1], IsSpace);
        assert Strip(line) == line;
      } else {
        assert Cleaned(init) + [] == Cleaned(init);
        assert Cleaned(lines) == Cleaned(init);
      }
    }
  }

  // ------------------------------------------------------- the request list

  /** The requests the objects hold, in list order. */
  function Snapshots(imgs: seq<RichImg>): seq<Request>
    reads imgs
  {
    if imgs == [] then []
    else Snapshots(imgs[..|imgs| - 1]) + [imgs[|imgs| - 1].Snapshot()]
  }

  /** No object is listed twice. */
  predicate Distinct(imgs: seq<RichImg>)
  {
    forall i, j :: 0 <= i < j < |imgs| ==> imgs[i] != imgs[j]
  }

  /** The number of images the objects saved, and skipped. */
  function SumSaved(imgs: seq<RichImg>): nat
    reads (set o | o in imgs)`numImgSaved
  {
    if imgs == [] then 0 else SumSaved(imgs[..|imgs| - 1]) + imgs[|imgs| - 1].numImgSaved
  }

  function SumSkipped(imgs: seq<RichImg>): nat
    reads (set o | o in imgs)`numImgSkipped
  {
    if imgs == [] then 0 else SumSkipped(imgs[..|imgs| - 1]) + imgs[|imgs| - 1].numImgSkipped
  }

  /** The totals depend on the objects' own counters only. */
  twostate lemma SumsFramed(imgs: seq<RichImg>)
    requires forall o :: o in imgs ==> unchanged(o)
    ensures SumSaved(imgs) == old(SumSaved(imgs)) && SumSkipped(imgs) == old(SumSkipped(imgs))
  {
  }

  /** A set of objects has no more members than a list naming them. */
  lemma {:induction false} SetOfSeqSize(s: seq<RichImg>, members: set<RichImg>)
    requires forall o :: o in members <==> o in s
    ensures |members| <= |s|
    decreases |s|
  {
    if s != [] {
      var init := s[..|s| - 1];
      var last := s[|s| - 1];
      var front := members - {last} + (if last in init then {last} else {});
      assert forall o :: o in front <==> o in init by {
        forall o | o in members ensures o in init || o == last {
          var i :| 0 <= i < |s| && s[i] == o;
          if i < |init| {
            assert init[i] == o;
          }
        }
      }
      SetOfSeqSize(init, front);
      assert members <= front + {last};
    }
  }

  class CodexSearch {
    var searchInclude: seq<string>
    var searchExclude: seq<string>
    var noConfirm: bool
    var minPctDiff: Value
    var skipChangeRegex: Value
    var terminalWidth: Value
    var terminalTheme: Value
    var usePty: Value
    var richImgs: seq<RichImg>
    var numImgSaved: nat
    var numImgSkipped: nat

    /** The request list holds each object once. */
    predicate Valid()
      reads this`richImgs
    {
      Distinct(richImgs)
    }

    /** The settings a directive falls back on. */
    function Settings(): Defaults
      reads this`minPctDiff, this`skipChangeRegex, this`terminalWidth, this`terminalTheme, this`usePty
    {
      Defaults(minPctDiff, skipChangeRegex, terminalWidth, terminalTheme, usePty)
    }

    /** The collected requests as values. */
    function Requests(): seq<Request>
      reads this`richImgs, richImgs
    {
      Snapshots(richImgs)
    }

    /** __init__: the patterns given one per line, cleaned, or DefaultInclude;
        the fixed exclusions, then the cleaned given ones, then the cleaned
        lines of .gitignore when it can be read (gitignore is None when
        opening it raised IOError). */
    constructor (searchInclude: Option<string>, searchExclude: Option<string>, noConfirm: bool,
                 minPctDiff: Value, skipChangeRegex: Value, terminalWidth: Value, terminalTheme: Value,
                 usePty: Value, gitignore: Option<seq<string>>)
      ensures this.searchInclude == if searchInclude.None? then DefaultInclude else Cleaned(SplitLines(searchInclude.value))
      ensures this.searchExclude == DefaultExclude
        + (if searchExclude.None? then [] else Cleaned(SplitLines(searchExclude.value)))
        + (if gitignore.None? then [] else Cleaned(gitignore.value))
      ensures Settings() == Defaults(minPctDiff, skipChangeRegex, terminalWidth, terminalTheme, usePty)
      ensures this.noConfirm == noConfirm
      ensures richImgs == [] && numImgSaved == 0 && numImgSkipped == 0 && Valid()
    {
      var patterns := DefaultInclude;
      if searchInclude.Some? {
        patterns := CleanList(SplitLines(searchInclude.value));
      }
      this.searchInclude := patterns;
      var exclude := DefaultExclude;
      if searchExclude.Some? {
        var extra := CleanList(SplitLines(searchExclude.value));
        exclude := exclude + extra;
      }
      if gitignore.Some? {
        var extra := CleanList(gitignore.value);
        exclude := exclude + extra;
      }
      this.searchExclude := exclude;
      this.noConfirm := noConfirm;
      this.minPctDiff := minPctDiff;
      this.skipChangeRegex := skipChangeRegex;
      this.terminalWidth := terminalWidth;
      this.terminalTheme := terminalTheme;
      this.usePty := usePty;
      this.richImgs := [];
      this.numImgSaved := 0;
      this.numImgSkipped := 0;
    }

    /** The include loop and the exclude loop of search_files. */
    method ResolveSearchFiles(glob: string -> set<string>) returns (files: set<string>)
      ensures files == SearchSet(searchInclude, searchExclude, glob)
    {
      files := {};
      for k := 0 to |searchInclude|
        invariant files == GlobAll(searchInclude[..k], glob)
      {
        assert searchInclude[..k + 1][..k] == searchInclude[..k];
        files := files + glob(searchInclude[k]);
      }
      assert searchInclude[..|searchInclude|] == searchInclude;
      for k := 0 to |searchExclude|
        invariant files == GlobAll(searchInclude, glob) - GlobAll(searchExclude[..k], glob)
      {
        assert searchExclude[..k + 1][..k] == searchExclude[..k];
        files := files - glob(searchExclude[k]);
      }
      assert searchExclude[..|searchExclude|] == searchExclude;
    }

    /** The config merge of one comment: every part with "=" sets its key. */
    static method MergeConfig(config: Config, parts: seq<string>) returns (merged: Config)
      ensures merged == MergeParts(config, parts)
    {
      merged := config;
      for k := 0 to |parts|
        invariant merged == MergeParts(config, parts[..k])
      {
        assert parts[..k + 1][..k] == parts[..k];
        var assignment := Assignment(parts[k]);
        if assignment.Some? {
          merged := merged[assignment.value.0 := assignment.value.1];
        }
      }
      assert parts[..|parts|] == parts;
    }

    /** The body of the image branch: a new RichImg with the settings passed
        by position, its command, its one destination next to file, and
        its title. int() of the width the constructor receives can raise. */
    method AddRequest(file: string, m: ImageMatch, config: Config, parseInt: string -> Option<int>)
      returns (err: Option<Error>)
      requires Valid()
      modifies this`richImgs
      ensures Valid()
      ensures var r := DirectiveRequest(file, m, config, Settings(), parseInt);
        if r.Err? then err == Some(r.error) && richImgs == old(richImgs)
        else err.None? && Requests() == old(Requests()) + [r.value]
      ensures |richImgs| >= |old(richImgs)| && richImgs[..|old(richImgs)|] == old(richImgs)
      ensures forall j :: |old(richImgs)| <= j < |richImgs| ==> fresh(richImgs[j])
    {
      var tTheme := Get(config, "TERMINAL_THEME", this.terminalTheme);
      var width := ConsoleWidth(tTheme, parseInt);
      if width.Err? {
        err := Some(width.error);
      } else {
        err := None;
        var img := NewRequest(file, m, config, parseInt);
        var before := richImgs;
        richImgs := richImgs + [img];
        assert richImgs[..|richImgs| - 1] == before;
      }
    }

    /** The object the image branch builds, before it is listed. */
    method NewRequest(file: string, m: ImageMatch, config: Config, parseInt: string -> Option<int>)
      returns (img: RichImg)
      requires DirectiveRequest(file, m, config, Settings(), parseInt).Ok?
      ensures fresh(img) && img.Snapshot() == DirectiveRequest(file, m, config, Settings(), parseInt).value
    {
      var minPctDiff := Get(config, "MIN_PCT_DIFF", this.minPctDiff);
      var skipChangeRegex := Get(config, "SKIP_CHANGE_REGEX", this.skipChangeRegex);
      var tWidth := Get(config, "TERMINAL_WIDTH", this.terminalWidth);
      var tTheme := Get(config, "TERMINAL_THEME", this.terminalTheme);
      var usePty := Get(config, "USE_PTY", this.usePty);
      // RichImg(min_pct_diff, skip_change_regex, t_width, t_theme, use_pty)
      img := new RichImg(minPctDiff, skipChangeRegex, tWidth, tTheme, usePty, BoolV(false), parseInt);
      img.cmd := Some(m.cmd);
      img.imgPaths := [ImagePath(file, m.imgPath)];
      if m.title.Some? && m.title.value != "" {
        img.title := StripBy(m.title.value, IsTitleEdge);
      }
    }

    /** One pass of the line loop: the image directive is judged with the
        config as it stood, then the config is emptied unless the line is
        blank, then the line's own comment is merged in. */
    method ScanOneLine(file: string, line: string, config: Config, env: SearchEnv)
      returns (err: Option<Error>, config': Config)
      requires Valid()
      modifies this`richImgs
      ensures Valid()
      ensures ScanLine(file, line, ScanState(config, old(Requests())), Settings(), env) ==
        if err.Some? then Err(err.value) else Ok(ScanState(config', Requests()))
      ensures |richImgs| >= |old(richImgs)| && richImgs[..|old(richImgs)|] == old(richImgs)
      ensures forall j :: |old(richImgs)| <= j < |richImgs| ==> fresh(richImgs[j])
    {
      ghost var added := LineRequests(file, line, config, Settings(), env);
      err := None;
      config' := config;
      var imgMatch := env.imageMatch(line);
      if imgMatch.Some? && !Truthy(Get(config, "SKIP", NoneV)) {
        err := AddRequest(file, imgMatch.value, config, env.parseInt);
      } else {
        assert added == Ok([]) && old(Requests()) + [] == old(Requests());
      }
      assert if err.Some? then added == Err(err.value) else added.Ok? && Requests() == old(Requests()) + added.value;
      if err.None? {
        if !IsBlank(line) {
          config' := map[];
        }
        var configMatch := env.configMatch(line);
        if configMatch.Some? {
          config' := MergeConfig(config', Words(configMatch.value));
        }
        assert config' == NextConfig(line, config, env);
      }
    }

    /** The line loop over one open file. */
    method ScanFileLines(file: string, lines: seq<string>, config: Config, env: SearchEnv)
      returns (err: Option<Error>, config': Config)
      requires Valid()
      modifies this`richImgs
      ensures Valid()
      ensures ScanLines(file, lines, ScanState(config, old(Requests())), Settings(), env) ==
        if err.Some? then Err(err.value) else Ok(ScanState(config', Requests()))
      ensures |richImgs| >= |old(richImgs)| && richImgs[..|old(richImgs)|] == old(richImgs)
      ensures forall j :: |old(richImgs)| <= j < |richImgs| ==> fresh(richImgs[j])
    {
      ghost var start := ScanState(config, Requests());
      err := None;
      config' := config;
      var k := 0;
      while k < |lines| && err.None?
        invariant 0 <= k <= |lines| && Valid()
        invariant ScanLines(file, lines[..k], start, Settings(), env) ==
          if err.Some? then Err(err.value) else Ok(ScanState(config', Requests()))
        invariant |richImgs| >= |old(richImgs)| && richImgs[..|old(richImgs)|] == old(richImgs)
        invariant forall j :: |old(richImgs)| <= j < |richImgs| ==> fresh(richImgs[j])
        decreases |lines| - k
      {
        assert lines[..k + 1][..k] == lines[..k];
        ghost var before := richImgs;
        err, config' := ScanOneLine(file, lines[k], config', env);
        forall j | |old(richImgs)| <= j < |richImgs| ensures fresh(richImgs[j]) {
          if j < |before| {
            assert richImgs[j] == before[j];
          }
        }
        k := k + 1;
      }
      if err.Some? {
        ScanLinesAppend(file, lines[..k], lines[k..], start, Settings(), env);
        assert lines[..k] + lines[k..] == lines;
      } else {
        assert lines[..k] == lines;
      }
    }

    /** search_files: the files found, each scanned in the order the set
        yields them (order), with local_config carried from file to file. A
        file that cannot be read raises IOError. */
    method SearchFiles(env: SearchEnv) returns (err: Option<Error>, ghost order: seq<string>)
      requires Valid()
      modifies this`richImgs
      ensures Valid()
      ensures forall i, j :: 0 <= i < j < |order| ==> order[i] != order[j]
      ensures forall f :: f in order ==> f in SearchSet(searchInclude, searchExclude, env.glob)
      ensures err.None? ==> forall f :: f in SearchSet(searchInclude, searchExclude, env.glob) ==> f in order
      ensures var scanned := ScanFiles(order, ScanState(map[], old(Requests())), Settings(), env);
        if err.Some? then scanned == Err(err.value)
        else scanned.Ok? && scanned.value.requests == Requests()
      ensures |richImgs| >= |old(richImgs)| && richImgs[..|old(richImgs)|] == old(richImgs)
      ensures forall j :: |old(richImgs)| <= j < |richImgs| ==> fresh(richImgs[j])
    {
      var files := ResolveSearchFiles(env.glob);
      ghost var start := ScanState(map[], Requests());
      var config: Config := map[];
      var remaining := files;
      err := None;
      order := [];
      while remaining != {} && err.None?
        invariant remaining <= files && Valid()
        invariant forall f :: f in files ==> (f in order <==> f !in remaining)
        invariant forall f :: f in order ==> f in files
        invariant forall i, j :: 0 <= i < j < |order| ==> order[i] != order[j]
        invariant ScanFiles(order, start, Settings(), env) ==
          if err.Some? then Err(err.value) else Ok(ScanState(config, Requests()))
        invariant |richImgs| >= |old(richImgs)| && richImgs[..|old(richImgs)|] == old(richImgs)
        invariant forall j :: |old(richImgs)| <= j < |richImgs| ==> fresh(richImgs[j])
        decreases remaining
      {
        var file :| file in remaining;
        remaining := remaining - {file};
        assert (order + [file])[..|order|] == order;
        order := order + [file];
        var lines := env.readLines(file);
        if lines.None? {
          err := Some(IOError);
        } else {
          ghost var before := richImgs;
          err, config := ScanFileLines(file, lines.value, config, env);
          forall j | |old(richImgs)| <= j < |richImgs| ensures fresh(richImgs[j]) {
          if j < |before| {
            assert richImgs[j] == before[j];
          }
        }
        }
      }
    }

    /** `set(self.rich_imgs)`: objects with the same hash compare equal
        (Requests.SameFingerprintEqual), and the set keeps the first of
        them. kept lists the set without repeats; rep[i] is where the
        object standing for richImgs[i] is in kept. */
    method DedupByHash() returns (kept: seq<RichImg>, ghost rep: seq<nat>)
      requires Valid()
      ensures Distinct(kept) && |kept| <= |richImgs|
      ensures forall o :: o in kept ==> o in richImgs
      ensures |rep| == |richImgs|
      ensures forall i :: 0 <= i < |richImgs| ==> rep[i] < |kept| && kept[rep[i]].Hash() == richImgs[i].Hash()
      ensures forall i, j :: 0 <= i < j < |kept| ==> kept[i].Hash() != kept[j].Hash()
    {
      kept := [];
      rep := [];
      for k := 0 to |richImgs|
        invariant Distinct(kept) && |kept| <= k && |rep| == k
        invariant forall o :: o in kept ==> o in richImgs[..k]
        invariant forall i :: 0 <= i < k ==> rep[i] < |kept| && kept[rep[i]].Hash() == richImgs[i].Hash()
        invariant forall i, j :: 0 <= i < j < |kept| ==> kept[i].Hash() != kept[j].Hash()
      {
        var ri := richImgs[k];
        var found := -1;
        for m := 0 to |kept|
          invariant found == -1 ==> forall j :: 0 <= j < m ==> kept[j].Hash() != ri.Hash()
          invariant found != -1 ==> 0 <= found < |kept| && kept[found].Hash() == ri.Hash()
        {
          if found == -1 && kept[m].Hash() == ri.Hash() {
            found := m;
          }
        }
        if found == -1 {
          assert ri !in kept;
          kept := kept + [ri];
          rep := rep + [|kept| - 1];
        } else {
          rep := rep + [found];
        }
      }
      assert richImgs[..|richImgs|] == richImgs;
    }

    /** The objects met so far and those still to meet make up all, and
        share nothing. */
    static ghost predicate MergeSplit(all: set<RichImg>, processed: set<RichImg>, remaining: set<RichImg>)
    {
      remaining !! processed && remaining + processed == all
    }

    /** key and orig record each object's no-filename hash, which the merge
        does not change, and its destinations before the merge. */
    static ghost predicate MergeKeyed(all: set<RichImg>, key: map<RichImg, FingerprintNoFn>)
      reads all
    {
      forall o :: o in all ==> o in key && o.HashNoFn() == key[o]
    }

    /** out lists, once each, the objects met that stand for a hash, and
        merged finds each of them by that hash. */
    static ghost predicate MergeIndex(key: map<RichImg, FingerprintNoFn>, merged: map<FingerprintNoFn, RichImg>,
                                      out: seq<RichImg>, processed: set<RichImg>)
    {
      && |out| <= |processed| && Distinct(out)
      && (forall o :: o in out ==> o in processed && o in key && key[o] in merged && merged[key[o]] == o)
      && (forall h :: h in merged ==> merged[h] in out && merged[h] in key && key[merged[h]] == h)
    }

    /** paths[h] is the destination list of the object standing for h, and
        the objects not yet met keep their own. */
    static ghost predicate MergeSynced(orig: map<RichImg, seq<string>>, merged: map<FingerprintNoFn, RichImg>,
                                       paths: map<FingerprintNoFn, seq<string>>, remaining: set<RichImg>)
      reads remaining, merged.Values
    {
      && (forall h :: h in merged ==> h in paths && merged[h].imgPaths == paths[h])
      && (forall o :: o in remaining ==> o in orig && o.imgPaths == orig[o])
    }

    /** Every destination of an object met is in the list kept for its
        hash. */
    static ghost predicate MergeCovered(key: map<RichImg, FingerprintNoFn>, orig: map<RichImg, seq<string>>,
                                        merged: map<FingerprintNoFn, RichImg>,
                                        paths: map<FingerprintNoFn, seq<string>>, processed: set<RichImg>)
    {
      forall o, p :: o in processed && o in key && o in orig && p in orig[o] ==>
        key[o] in merged && key[o] in paths && p in paths[key[o]]
    }

    /** What the merge loop keeps true. */
    static ghost predicate Merging(all: set<RichImg>, key: map<RichImg, FingerprintNoFn>,
                                   orig: map<RichImg, seq<string>>, merged: map<FingerprintNoFn, RichImg>,
                                   paths: map<FingerprintNoFn, seq<string>>,
                                   out: seq<RichImg>, processed: set<RichImg>, remaining: set<RichImg>)
      reads all, merged.Values
    {
      && MergeSplit(all, processed, remaining)
      && (forall o :: o in all ==> o in key && o in orig)
      && MergeIndex(key, merged, out, processed)
      && MergeSynced(orig, merged, paths, remaining)
      && MergeCovered(key, orig, merged, paths, processed)
    }

    /** Once every object has been met, out holds one object per
        no-filename hash, and every original destination is in the list of
        the object standing for its hash. */
    static lemma MergedResult(all: set<RichImg>, key: map<RichImg, FingerprintNoFn>,
                              orig: map<RichImg, seq<string>>, merged: map<FingerprintNoFn, RichImg>,
                              paths: map<FingerprintNoFn, seq<string>>,
                              out: seq<RichImg>, processed: set<RichImg>)
      requires Merging(all, key, orig, merged, paths, out, processed, {})
      requires MergeKeyed(all, key)
      ensures |out| <= |all| && forall o :: o in out ==> o in all
      ensures forall i, j :: 0 <= i < j < |out| ==> out[i].HashNoFn() != out[j].HashNoFn()
      ensures forall o, p :: o in all && p in orig[o] ==>
        exists q :: q in out && q.HashNoFn() == o.HashNoFn() && p in q.imgPaths
    {
      forall o, p | o in all && p in orig[o]
        ensures exists q :: q in out && q.HashNoFn() == o.HashNoFn() && p in q.imgPaths
      {
        var q := merged[key[o]];
        assert q in out && p in paths[key[o]];
      }
      forall i, j | 0 <= i < j < |out| ensures out[i].HashNoFn() != out[j].HashNoFn() {
        assert merged[key[out[i]]] == out[i] && merged[key[out[j]]] == out[j];
      }
    }

    /** The object standing for a hash is one of the objects. */
    static lemma StandsIn(all: set<RichImg>, key: map<RichImg, FingerprintNoFn>,
                          orig: map<RichImg, seq<string>>, merged: map<FingerprintNoFn, RichImg>,
                          paths: map<FingerprintNoFn, seq<string>>,
                          out: seq<RichImg>, processed: set<RichImg>, remaining: set<RichImg>, h: FingerprintNoFn)
      requires Merging(all, key, orig, merged, paths, out, processed, remaining)
      requires h in merged
      ensures merged[h] in all
    {
    }

    /** A new hash: ri is listed and found by it. */
    static lemma IndexAddNew(key: map<RichImg, FingerprintNoFn>, merged: map<FingerprintNoFn, RichImg>,
                             out: seq<RichImg>, processed: set<RichImg>, ri: RichImg)
      requires MergeIndex(key, merged, out, processed)
      requires ri !in processed && ri in key && key[ri] !in merged
      ensures MergeIndex(key, merged[key[ri] := ri], out + [ri], processed + {ri})
    {
      assert ri !in out;
    }

    /** An old hash: out and merged stay as they are. */
    static lemma IndexGrow(key: map<RichImg, FingerprintNoFn>, merged: map<FingerprintNoFn, RichImg>,
                           out: seq<RichImg>, processed: set<RichImg>, ri: RichImg)
      requires MergeIndex(key, merged, out, processed)
      ensures MergeIndex(key, merged, out, processed + {ri})
    {
      if ri !in processed {
        assert |processed + {ri}| == |processed| + 1;
      } else {
        assert processed + {ri} == processed;
      }
    }

    /** A new hash: its list is ri's own. */
    static lemma CoveredAddNew(key: map<RichImg, FingerprintNoFn>, orig: map<RichImg, seq<string>>,
                               merged: map<FingerprintNoFn, RichImg>, paths: map<FingerprintNoFn, seq<string>>,
                               processed: set<RichImg>, ri: RichImg, ref: RichImg)
      requires MergeCovered(key, orig, merged, paths, processed)
      requires ri in key && ri in orig && key[ri] !in merged
      ensures MergeCovered(key, orig, merged[key[ri] := ref], paths[key[ri] := orig[ri]], processed + {ri})
    {
    }

    /** An old hash: ri's destinations are appended to its list. */
    static lemma CoveredExtend(key: map<RichImg, FingerprintNoFn>, orig: map<RichImg, seq<string>>,
                               merged: map<FingerprintNoFn, RichImg>, paths: map<FingerprintNoFn, seq<string>>,
                               processed: set<RichImg>, ri: RichImg)
      requires MergeCovered(key, orig, merged, paths, processed)
      requires ri in key && ri in orig && key[ri] in merged && key[ri] in paths
      ensures MergeCovered(key, orig, merged, paths[key[ri] := paths[key[ri]] + orig[ri]], processed + {ri})
    {
    }

    /** One pass of the merge loop, for an object ri whose no-filename hash
        is new: it stands for that hash from now on. */
    static method MergeNew(ri: RichImg, merged: map<FingerprintNoFn, RichImg>, out: seq<RichImg>,
                           ghost all: set<RichImg>, ghost key: map<RichImg, FingerprintNoFn>,
                           ghost orig: map<RichImg, seq<string>>, ghost paths: map<FingerprintNoFn, seq<string>>,
                           ghost processed: set<RichImg>, ghost remaining: set<RichImg>)
      returns (merged': map<FingerprintNoFn, RichImg>, out': seq<RichImg>, ghost paths': map<FingerprintNoFn, seq<string>>)
      requires ri in remaining && ri in key && ri.HashNoFn() == key[ri] && key[ri] !in merged
      requires Merging(all, key, orig, merged, paths, out, processed, remaining)
      ensures Merging(all, key, orig, merged', paths', out', processed + {ri}, remaining - {ri})
    {
      merged' := merged[ri.HashNoFn() := ri];
      out' := out + [ri];
      paths' := paths[ri.HashNoFn() := ri.imgPaths];
      IndexAddNew(key, merged, out, processed, ri);
      CoveredAddNew(key, orig, merged, paths, processed, ri, ri);
    }

    /** One pass of the merge loop, for an object ri whose no-filename hash
        was met before: its destinations go to the object standing for it. */
    static method MergeExtend(ri: RichImg, target: RichImg, merged: map<FingerprintNoFn, RichImg>, out: seq<RichImg>,
                              ghost all: set<RichImg>, ghost key: map<RichImg, FingerprintNoFn>,
                              ghost orig: map<RichImg, seq<string>>, ghost paths: map<FingerprintNoFn, seq<string>>,
                              ghost processed: set<RichImg>, ghost remaining: set<RichImg>)
      returns (ghost paths': map<FingerprintNoFn, seq<string>>)
      requires ri in remaining && ri in key && ri.HashNoFn() == key[ri] && key[ri] in merged
      requires target == merged[key[ri]]
      requires Merging(all, key, orig, merged, paths, out, processed, remaining)
      requires MergeKeyed(all, key)
      modifies target`imgPaths
      ensures Merging(all, key, orig, merged, paths', out, processed + {ri}, remaining - {ri})
      ensures MergeKeyed(all, key)
    {
      ghost var h := key[ri];
      forall g | g in merged && g != h ensures merged[g] != target {
        assert key[merged[g]] == g;
      }
      AppendPaths(ri, target, h, merged, all, key, orig, paths, remaining);
      paths' := paths[h := paths[h] + orig[ri]];
      IndexGrow(key, merged, out, processed, ri);
      CoveredExtend(key, orig, merged, paths, processed, ri);
    }

    /** img_paths.extend on the object standing for ri's hash, which leaves
        every no-filename hash as it was and every other list alone. */
    static method AppendPaths(ri: RichImg, target: RichImg, ghost h: FingerprintNoFn,
                              ghost merged: map<FingerprintNoFn, RichImg>,
                              ghost all: set<RichImg>, ghost key: map<RichImg, FingerprintNoFn>,
                              ghost orig: map<RichImg, seq<string>>, ghost paths: map<FingerprintNoFn, seq<string>>,
                              ghost remaining: set<RichImg>)
      requires MergeKeyed(all, key) && MergeSynced(orig, merged, paths, remaining)
      requires ri in remaining && target !in remaining && h in merged && merged[h] == target
      requires forall g :: g in merged && g != h ==> merged[g] != target
      modifies target`imgPaths
      ensures MergeKeyed(all, key)
      ensures MergeSynced(orig, merged, paths[h := paths[h] + orig[ri]], remaining - {ri})
    {
      target.imgPaths := target.imgPaths + ri.imgPaths;
    }

    /** The merge loop of collapse_duplicates over the deduplicated objects,
        taken in whatever order the set yields them: the first object with
        a given no-filename hash is kept, and the destinations of each later
        one are appended to its img_paths. */
    static method MergeByNoFn(kept: seq<RichImg>) returns (out: seq<RichImg>)
      requires Distinct(kept)
      modifies (set o | o in kept)`imgPaths
      ensures Distinct(out) && |out| <= |kept|
      ensures forall o :: o in out ==> o in kept
      ensures forall i, j :: 0 <= i < j < |out| ==> out[i].HashNoFn() != out[j].HashNoFn()
      ensures forall o, p :: o in kept && p in old(o.imgPaths) ==>
        exists q :: q in out && q.HashNoFn() == o.HashNoFn() && p in q.imgPaths
    {
      var merged: map<FingerprintNoFn, RichImg> := map[];
      out := [];
      var remaining := set o | o in kept;
      ghost var all := remaining;
      // the no-filename hashes, which the merge does not change
      ghost var key: map<RichImg, FingerprintNoFn> := map o: RichImg | o in all :: o.HashNoFn();
      ghost var orig: map<RichImg, seq<string>> := map o: RichImg | o in all :: o.imgPaths;
      ghost var paths: map<FingerprintNoFn, seq<string>> := map[];
      ghost var processed: set<RichImg> := {};
      while remaining != {}
        invariant Merging(all, key, orig, merged, paths, out, processed, remaining)
        invariant MergeKeyed(all, key)
        decreases remaining
      {
        var ri :| ri in remaining;
        var h := ri.HashNoFn();
        if h in merged {
          var target := merged[h];
          StandsIn(all, key, orig, merged, paths, out, processed, remaining, h);
          assert target in kept;
          paths := MergeExtend(ri, target, merged, out, all, key, orig, paths, processed, remaining);
        } else {
          merged, out, paths := MergeNew(ri, merged, out, all, key, orig, paths, processed, remaining);
        }
        remaining := remaining - {ri};
        processed := processed + {ri};
      }
      MergedResult(all, key, orig, merged, paths, out, processed);
      SetOfSeqSize(kept, all);
    }

    /** collapse_duplicates: drop exact duplicates, then merge requests that
        differ only in their destinations into one of them, whose
        destination list is extended in place. The set's iteration order is
        not fixed, so which object survives is not either. Nothing but
        img_paths changes in any object. */
    method CollapseDuplicates()
      requires Valid()
      modifies this`richImgs, (set o | o in richImgs)`imgPaths
      ensures Valid()
      ensures |richImgs| <= |old(richImgs)|
      ensures forall o :: o in richImgs ==> o in old(richImgs)
      ensures forall i, j :: 0 <= i < j < |richImgs| ==> richImgs[i].HashNoFn() != richImgs[j].HashNoFn()
      ensures forall o, p :: o in old(richImgs) && p in old(o.imgPaths) ==>
        exists q :: q in richImgs && q.HashNoFn() == o.HashNoFn() && p in q.imgPaths
    {
      ghost var before := richImgs;
      var kept, rep := DedupByHash();
      var out := MergeByNoFn(kept);
      richImgs := out;
      forall o, p | o in before && p in old(o.imgPaths)
        ensures exists q :: q in out && q.HashNoFn() == o.HashNoFn() && p in q.imgPaths
      {
        var i :| 0 <= i < |before| && before[i] == o;
        var k := kept[rep[i]];
        assert old(k.Hash()) == old(o.Hash());
        assert old(k.imgPaths) == old(o.imgPaths);
        assert k in kept;
      }
    }

    /** The body of the save loop for one request: run its command or
        format its snippet, then save its images. */
    static method SaveOne(img: RichImg, fs: FileSystem, env: RenderEnv) returns (err: Option<Error>)
      requires env.AbsoluteCwd()
      modifies img, fs
      ensures old(img.aborted) ==> err.None?
    {
      img.GetOutput(env.jsonPrints);
      ghost var steps, renders, passes, snaps, failure, lastSvg;
      err, steps, renders, passes, snaps, failure, lastSvg := img.SaveImages(fs, env);
    }

    /** save_all_images: each request captures its output and saves its
        images, and its counters are added to the totals. An error ends
        the loop; done is the number of requests fully handled. */
    method SaveAllImages(fs: FileSystem, env: RenderEnv) returns (err: Option<Error>, done: nat)
      requires Valid() && env.AbsoluteCwd()
      modifies this`numImgSaved, this`numImgSkipped, (set o | o in richImgs), fs
      ensures done <= |richImgs| && (err.None? ==> done == |richImgs|)
      ensures numImgSaved == old(numImgSaved) + SumSaved(richImgs[..done])
      ensures numImgSkipped == old(numImgSkipped) + SumSkipped(richImgs[..done])
    {
      err := None;
      done := 0;
      while done < |richImgs|
        invariant done <= |richImgs|
        invariant numImgSaved == old(numImgSaved) + SumSaved(richImgs[..done])
        invariant numImgSkipped == old(numImgSkipped) + SumSkipped(richImgs[..done])
      {
        var img := richImgs[done];
        ghost var prefix, next := richImgs[..done], richImgs[..done + 1];
        assert img !in prefix && next[..done] == prefix && next[done] == img;
        label before:
        var saveErr := SaveOne(img, fs, env);
        if saveErr.Some? {
          err := saveErr;
          break;
        }
        numImgSaved := numImgSaved + img.numImgSaved;
        numImgSkipped := numImgSkipped + img.numImgSkipped;
        SumsFramed@before(prefix);
        done := done + 1;
      }
    }
  }
}
