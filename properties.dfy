/**
 * What patch_html guarantees about a run, stated on the outcome of a scan
 * in any context and then for the context a run of yuicat.py builds.
 */
module Properties {
  import opened Wrappers
  import opened Paths
  import opened Resolver
  import opened Tags
  import opened Patcher

  /** A line that is neither an include nor the bundle element. */
  predicate Plain(c: Context, line: string) {
    c.classify(line).Skip? || c.classify(line).Other?
  }

  /**
   * A document is left alone, and nothing is compressed, exactly when every
   * line is blank, a comment or other content.
   */
  lemma NothingToBundle(c: Context, outFile: string, backup: Option<string>, status: int, ls: seq<string>)
    ensures Outcome(c, outFile, backup, status, ls) == Ok(Patched([], None))
            <==> forall i :: 0 <= i < |ls| ==> Plain(c, ls[i])
  {
    LogicalsNonEmpty(c, ls);
    if forall i :: 0 <= i < |ls| ==> Plain(c, ls[i]) {
      forall i | 0 <= i < |ls| ensures ErrorAt(c, ls, i).None? {
        assert Plain(c, ls[i]);
      }
      ResolvedFacts(c, ls);
    }
    if Outcome(c, outFile, backup, status, ls) == Ok(Patched([], None)) {
      assert FirstErrorFrom(c, ls, 0) == None;
      ResolvedFacts(c, ls);
      assert Logicals(c, ls) == [];
      forall i | 0 <= i < |ls| ensures Plain(c, ls[i]) {
        assert ErrorAt(c, ls, i).None? && !IsInclude(c, ls[i]);
      }
    }
  }

  /**
   * The list a successful run returns holds, for each include line in
   * document order, the physical file its name resolves to, and no file
   * twice; a rewrite compresses exactly those files into `outFile`.
   */
  lemma ReturnedIncludes(c: Context, outFile: string, backup: Option<string>, status: int, ls: seq<string>)
    requires Outcome(c, outFile, backup, status, ls).Ok?
    ensures var files := Outcome(c, outFile, backup, status, ls).value.includes;
      && |files| == |Logicals(c, ls)|
      && (forall k :: 0 <= k < |files| ==> c.resolve(Logicals(c, ls)[k]) == Ok(files[k]))
      && (forall a, b :: 0 <= a < b < |files| ==> files[a] != files[b])
    ensures var o := Outcome(c, outFile, backup, status, ls).value;
      o.rewrite.Some? ==> o.rewrite.value.compression == Compression(o.includes, outFile, c.fileType)
  {
    assert FirstErrorFrom(c, ls, 0) == None;
    ResolvedFacts(c, ls);
  }

  /**
   * The rewrite of a successful run with includes: the last include line is
   * `i`, the new document is the kept lines before it, the bundle element,
   * then every line after it, and it is shorter by the number of includes
   * less one. Every line of it other than the element is a line of the
   * original that is not an include.
   */
  lemma RewriteShape(c: Context, outFile: string, backup: Option<string>, status: int, ls: seq<string>, i: nat)
    requires i < |ls| && IsInclude(c, ls[i])
    requires forall j :: i < j < |ls| ==> !IsInclude(c, ls[j])
    requires Outcome(c, outFile, backup, status, ls).Ok?
    ensures status == 0
    ensures var o := Outcome(c, outFile, backup, status, ls).value;
      && o.rewrite.Some?
      && o.rewrite.value.backup == backup
      && o.rewrite.value.lines == Kept(c, ls[..i]) + [c.element] + ls[i + 1..]
      && |o.rewrite.value.lines| == |ls| - |o.includes| + 1
      && forall x :: x in o.rewrite.value.lines ==> x == c.element || (x in ls && !IsInclude(c, x))
  {
    assert FirstErrorFrom(c, ls, 0) == None;
    ResolvedFacts(c, ls);
    LogicalsNonEmpty(c, ls);
    KeptAroundLast(c, ls, i);
    KeptLength(c, ls);
    KeptFacts(c, ls);
    var kept, m := Kept(c, ls), LastMatch(c, ls);
    assert kept[..m] == Kept(c, ls[..i]) && kept[m..] == ls[i + 1..];
  }

  /** With the last include at `i`, the kept lines are those before it, then all the lines after it. */
  lemma KeptAroundLast(c: Context, ls: seq<string>, i: nat)
    requires i < |ls| && IsInclude(c, ls[i])
    requires forall j :: i < j < |ls| ==> !IsInclude(c, ls[j])
    ensures Kept(c, ls) == Kept(c, ls[..i]) + ls[i + 1..]
    ensures LastMatch(c, ls) == |Kept(c, ls[..i])|
  {
    assert ls == ls[..i] + ([ls[i]] + ls[i + 1..]);
    KeptAppend(c, ls[..i], [ls[i]] + ls[i + 1..]);
    KeptAppend(c, [ls[i]], ls[i + 1..]);
    assert Kept(c, [ls[i]]) == [] by { assert [ls[i]][..0] == []; }
    KeptAll(c, ls[i + 1..]);
    LastMatchAt(c, ls, i);
  }

  /**
   * Two include lines whose names resolve to the same physical file make the
   * run fail, whatever their logical names.
   */
  lemma DuplicateRejected(c: Context, outFile: string, backup: Option<string>, status: int, ls: seq<string>,
                          a: nat, b: nat, f: string)
    requires a < b < |ls| && IsInclude(c, ls[a]) && IsInclude(c, ls[b])
    requires c.resolve(c.classify(ls[a]).logical) == Ok(f) && c.resolve(c.classify(ls[b]).logical) == Ok(f)
    ensures Outcome(c, outFile, backup, status, ls).Err?
  {
    assert ls[..b][a] == ls[a];
    InResolved(c, ls[..b], a, f);
    assert ErrorAt(c, ls, b).Some?;
  }

  /**
   * The script-ordering flag is set after `ls` exactly when some include
   * line is followed, not necessarily directly, by a line of other content.
   * Blank lines and comments never set it.
   */
  lemma {:induction false} FlagExactly(c: Context, ls: seq<string>)
    ensures OtherAfterInclude(c, ls)
            <==> exists a, m :: 0 <= a < m < |ls| && IsInclude(c, ls[a]) && c.classify(ls[m]).Other?
  {
    if ls != [] {
      var n := |ls| - 1;
      var init := ls[..n];
      FlagExactly(c, init);
      LogicalsNonEmpty(c, init);
      if OtherAfterInclude(c, ls) {
        if OtherAfterInclude(c, init) {
          var a, m :| 0 <= a < m < |init| && IsInclude(c, init[a]) && c.classify(init[m]).Other?;
          assert ls[a] == init[a] && ls[m] == init[m];
        } else {
          var a :| 0 <= a < |init| && IsInclude(c, init[a]);
          assert ls[a] == init[a];
          assert IsInclude(c, ls[a]) && c.classify(ls[n]).Other?;
        }
      }
      if exists a, m :: 0 <= a < m < |ls| && IsInclude(c, ls[a]) && c.classify(ls[m]).Other? {
        var a, m :| 0 <= a < m < |ls| && IsInclude(c, ls[a]) && c.classify(ls[m]).Other?;
        assert init[a] == ls[a];
        if m < n {
          assert init[m] == ls[m];
        } else {
          assert IsInclude(c, init[a]);
        }
      }
    }
  }

  /**
   * Line `b` is rejected as a script after other content exactly when the
   * run is for scripts, line `b` is an include that resolves, and an earlier
   * include is followed by other content before `b`.
   */
  lemma ScriptAfterContentExactly(c: Context, ls: seq<string>, b: nat)
    requires b < |ls|
    ensures (ErrorAt(c, ls, b).Some? && ErrorAt(c, ls, b).value.ScriptAfterContent?)
            <==> (&& c.fileType == Js
                  && IsInclude(c, ls[b]) && c.resolve(c.classify(ls[b]).logical).Ok?
                  && exists a, m :: 0 <= a < m < b && IsInclude(c, ls[a]) && c.classify(ls[m]).Other?)
  {
    var s := ls[..b];
    FlagExactly(c, s);
    if exists a, m :: 0 <= a < m < b && IsInclude(c, ls[a]) && c.classify(ls[m]).Other? {
      var a, m :| 0 <= a < m < b && IsInclude(c, ls[a]) && c.classify(ls[m]).Other?;
      assert s[a] == ls[a] && s[m] == ls[m];
    }
    if OtherAfterInclude(c, s) {
      var a, m :| 0 <= a < m < |s| && IsInclude(c, s[a]) && c.classify(s[m]).Other?;
      assert s[a] == ls[a] && s[m] == ls[m];
    }
  }

  /**
   * Scripts must form one block: an include, then other content, then
   * another include makes a script run fail.
   */
  lemma ScriptAfterContentRejected(c: Context, outFile: string, backup: Option<string>, status: int,
                                   ls: seq<string>, a: nat, m: nat, b: nat)
    requires c.fileType == Js
    requires a < m < b < |ls| && IsInclude(c, ls[a]) && c.classify(ls[m]).Other? && IsInclude(c, ls[b])
    ensures Outcome(c, outFile, backup, status, ls).Err?
  {
    ScriptAfterContentExactly(c, ls, b);
    assert ErrorAt(c, ls, b).Some?;
  }

  /** Stylesheet runs are never rejected for the order of their includes. */
  lemma StylesheetsNeverOutOfOrder(c: Context, outFile: string, backup: Option<string>, status: int,
                                   ls: seq<string>)
    requires c.fileType == Css
    ensures Outcome(c, outFile, backup, status, ls).Err? ==>
              !Outcome(c, outFile, backup, status, ls).error.ScriptAfterContent?
  {
    if FirstErrorFrom(c, ls, 0).Some? {
      var i :| 0 <= i < |ls| && ErrorAt(c, ls, i) == FirstErrorFrom(c, ls, 0);
      ScriptAfterContentExactly(c, ls, i);
    }
  }

  /**
   * The line number a diagnostic reports is the position of the offending
   * line in the list after the earlier includes were deleted from it, so it
   * falls short of the line's place in the file by the number of includes
   * before it.
   */
  lemma ReportedLine(c: Context, ls: seq<string>, i: nat)
    requires i < |ls| && ErrorAt(c, ls, i).Some?
    ensures var e := ErrorAt(c, ls, i).value;
      (e.ScriptAfterContent? || e.IncludedTwice?) ==> e.line == i + 1 - |Logicals(c, ls[..i])|
  {
    KeptLength(c, ls[..i]);
  }

  /** The same include written on two consecutive lines is reported at line 1. */
  lemma RepeatedIncludeReportedAtFirstLine(c: Context, outFile: string, backup: Option<string>, status: int,
                                           line: string, p: string, f: string)
    requires c.classify(line) == Include(p) && c.resolve(p) == Ok(f)
    ensures Outcome(c, outFile, backup, status, [line, line]) == Err(IncludedTwice(1, f))
  {
    var ls := [line, line];
    assert ls[..1] == [line] && ls[..1][..0] == [];
    assert ErrorAt(c, ls, 0) == None;
    assert ErrorAt(c, ls, 1) == Some(IncludedTwice(1, f));
    NoErrorBeforeAll(c, ls, 1);
    FirstErrorAt(c, ls, 1);
  }

  /**
   * A failing compressor leaves the document alone: a run that does not
   * fail with a nonzero status writes nothing, and it fails that way exactly
   * when the scan succeeds and found includes. The failure records the run
   * the compressor was given: the collected files and the bundle's file.
   */
  lemma CompressorFailureWritesNothing(c: Context, outFile: string, backup: Option<string>, status: int,
                                       ls: seq<string>)
    requires status != 0
    ensures Outcome(c, outFile, backup, status, ls).Ok? ==>
              Outcome(c, outFile, backup, status, ls).value == Patched([], None)
    ensures Outcome(c, outFile, backup, status, ls)
              == Err(CompressorFailed(Compression(Resolved(c, ls), outFile, c.fileType), status))
            <==> FirstErrorFrom(c, ls, 0).None? && exists i :: 0 <= i < |ls| && IsInclude(c, ls[i])
  {
    LogicalsNonEmpty(c, ls);
    if FirstErrorFrom(c, ls, 0).None? {
      ResolvedFacts(c, ls);
    } else {
      var i :| 0 <= i < |ls| && ErrorAt(c, ls, i) == FirstErrorFrom(c, ls, 0);
      assert !ErrorAt(c, ls, i).value.CompressorFailed?;
    }
  }

  /**
   * A rewritten document cannot be patched again in the same context: its
   * lines before the bundle element are plain, so the scan reaches the
   * element and stops there.
   */
  lemma RerunRejected(c: Context, outFile: string, backup: Option<string>, status: int, ls: seq<string>,
                      outFile': string, backup': Option<string>, status': int)
    requires c.classify(c.element) == Bundle
    requires Outcome(c, outFile, backup, status, ls).Ok?
    requires Outcome(c, outFile, backup, status, ls).value.rewrite.Some?
    ensures Outcome(c, outFile', backup', status', Outcome(c, outFile, backup, status, ls).value.rewrite.value.lines)
            == Err(AlreadyProcessed)
  {
    assert FirstErrorFrom(c, ls, 0) == None;
    var kept, m := Kept(c, ls), LastMatch(c, ls);
    var out := kept[..m] + [c.element] + kept[m..];
    KeptFacts(c, ls);
    forall i | 0 <= i < m ensures ErrorAt(c, out, i).None? {
      assert out[i] == kept[i];
      assert kept[i] in ls;
      var k :| 0 <= k < |ls| && ls[k] == kept[i];
      assert ErrorAt(c, ls, k).None?;
    }
    assert out[m] == c.element;
    NoErrorBeforeAll(c, out, m);
    FirstErrorAt(c, out, m);
  }

  /** The context of a run classifies the bundle element it writes as the bundle. */
  lemma ElementIsBundle(layout: Layout, t: FileType, htmlFile: string, prefix: string)
    ensures var c := ContextFor(layout, t, htmlFile, prefix);
      c.element == BundleElement(layout, t, htmlFile, prefix) && c.classify(c.element) == Bundle
  {
  }

  /**
   * Running patch_html again, with the same type, file and prefix, on the
   * document it rewrote fails as already processed.
   */
  lemma PatchTwiceRejected(layout: Layout, t: FileType, htmlFile: string, prefix: string,
                           noBackup: bool, status: int, ls: seq<string>, noBackup': bool, status': int)
    requires Patch(layout, t, htmlFile, prefix, noBackup, status, ls).Ok?
    requires Patch(layout, t, htmlFile, prefix, noBackup, status, ls).value.rewrite.Some?
    ensures Patch(layout, t, htmlFile, prefix, noBackup', status',
                  Patch(layout, t, htmlFile, prefix, noBackup, status, ls).value.rewrite.value.lines)
            == Err(AlreadyProcessed)
  {
    ElementIsBundle(layout, t, htmlFile, prefix);
    RerunRejected(ContextFor(layout, t, htmlFile, prefix), BundleOutFile(layout, t, htmlFile, prefix),
                  BackupFile(htmlFile, t, noBackup), status, ls,
                  BundleOutFile(layout, t, htmlFile, prefix), BackupFile(htmlFile, t, noBackup'), status');
  }

  /**
   * The bundle is written below the physical root under the name the new
   * element gives below the logical root: each maps to the other.
   */
  lemma BundleNamesAgree(layout: Layout, t: FileType, htmlFile: string, prefix: string)
    requires '/' !in prefix
    ensures Canonical(layout.Of(t).physical) ==>
              PhysicalToLogical(layout, BundleOutFile(layout, t, htmlFile, prefix), t)
              == Ok(BundleLogicalName(layout, t, htmlFile, prefix))
    ensures Canonical(layout.Of(t).logical) ==>
              LogicalToPhysical(layout, BundleLogicalName(layout, t, htmlFile, prefix), t)
              == Ok(BundleOutFile(layout, t, htmlFile, prefix))
  {
    var root, base := layout.Of(t), BundleBaseName(prefix, htmlFile, t);
    assert root.physical <= root.physical && root.logical <= root.logical;
    if Canonical(root.physical) {
      PhysicalAccepted(layout, t, root.physical, base);
    }
    if Canonical(root.logical) {
      LogicalAccepted(layout, t, root.logical, base);
    }
  }

  /**
   * Under an absolute logical root, the bundle element is itself an include
   * of the bundle's logical name; the scan tells it apart only because it
   * compares whole lines with the element before it looks for includes.
   */
  lemma ElementIncludesBundle(layout: Layout, t: FileType, htmlFile: string, prefix: string)
    requires var d := layout.Of(t).logical; |d| > 0 && d[0] == '/' && '"' !in d
    requires '/' !in prefix && '"' !in prefix && '"' !in htmlFile
    ensures MatchTag(t, BundleElement(layout, t, htmlFile, prefix)) == Some(BundleLogicalName(layout, t, htmlFile, prefix))
  {
    BundleNameValid(layout, t, htmlFile, prefix);
    TagRoundTrip(t, BundleLogicalName(layout, t, htmlFile, prefix));
  }

  /** Under an absolute logical root, the bundle's logical name is one the include pattern accepts. */
  lemma BundleNameValid(layout: Layout, t: FileType, htmlFile: string, prefix: string)
    requires var d := layout.Of(t).logical; |d| > 0 && d[0] == '/' && '"' !in d
    requires '/' !in prefix && '"' !in prefix && '"' !in htmlFile
    ensures ValidPath(t, BundleLogicalName(layout, t, htmlFile, prefix))
  {
    var d, base := layout.Of(t).logical, BundleBaseName(prefix, htmlFile, t);
    assert '"' !in base && prefix + "_" <= base;
    assert |base| >= |t.Name()| + 2 && EndsWith(base, "." + t.Name());
    NameBelowRootValid(t, d, base, prefix);
    assert BundleLogicalName(layout, t, htmlFile, prefix) == Join(d, base);
  }

  /** A bundle name joined below an absolute directory is a name the include pattern accepts. */
  lemma NameBelowRootValid(t: FileType, d: string, base: string, prefix: string)
    requires |d| > 0 && d[0] == '/' && '"' !in d && '"' !in base && '/' !in prefix
    requires prefix + "_" <= base
    requires |base| >= |t.Name()| + 2 && EndsWith(base, "." + t.Name())
    ensures ValidPath(t, Join(d, base))
  {
    NotAbsolute(prefix, base);
    JoinKeepsShape(d, base, "." + t.Name());
  }

  /** A bundle name never starts with a separator. */
  lemma NotAbsolute(prefix: string, base: string)
    requires '/' !in prefix && prefix + "_" <= base
    ensures base != [] && base[0] != '/'
  {
    if prefix == [] { assert base[0] == '_'; } else { assert base[0] == prefix[0]; }
  }

  /**
   * A relative name joined below an absolute directory is absolute, keeps
   * the name's ending, and holds a double quote only if one of them does.
   */
  lemma JoinKeepsShape(d: string, base: string, ext: string)
    requires |d| > 0 && d[0] == '/' && '"' !in d && '"' !in base
    requires |base| >= |ext| + 1 && base[0] != '/' && EndsWith(base, ext)
    ensures var p := Join(d, base);
      |p| >= |ext| + 2 && p[0] == '/' && '"' !in p && EndsWith(p, ext)
  {
    var p := Join(d, base);
    assert p == d + base || p == d + "/" + base;
    assert p[|p| - |base|..] == base;
    assert p[|p| - |ext|..] == base[|base| - |ext|..];
    assert p[0] == d[0];
  }

  /**
   * An include that follows a comment on the same line is skipped with the
   * comment: the line is never searched for an include.
   */
  lemma IncludeAfterCommentSkipped(t: FileType, element: string, p: string)
    requires |element| > 1 && element[1] != '!'
    ensures Classify(t, element, "<!---->" + Tag(t, p)) == Skip
  {
    var line := "<!---->" + Tag(t, p);
    assert line == [] + "<!--" + [] + "-->" + Tag(t, p);
    CommentLine([], [], Tag(t, p));
    assert line[1] == '!';
  }
}
