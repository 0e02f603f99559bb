/**
 * patch_html of yuicat.py: one forward scan over an HTML document's lines
 * that deletes every include of one asset type, checks that no file is
 * included twice and (for scripts) that the includes form one block, and
 * puts a single element for the bundle where the last include was.
 *
 * `Patch` states the outcome declaratively, in terms of the original lines;
 * `PatchHtml` is the scan itself, deleting from its list while it walks it,
 * and is proved to compute `Patch`.
 */
module Patcher {
  import opened Wrappers
  import opened Paths
  import opened Resolver
  import opened Tags

  /** The ways patch_html aborts. */
  datatype PatchError =
    | AlreadyProcessed
    | NotRooted(cause: LayoutError)
    | ScriptAfterContent(line: nat)
    | IncludedTwice(line: nat, fileName: string)
    | CompressorFailed(compression: Compression, status: int)

  /** The compressor run: input files in order, output file, asset type. */
  datatype Compression = Compression(files: seq<string>, outFile: string, fileType: FileType)

  /** What a patch that found includes writes: the bundle, the backup copy, the new lines. */
  datatype Rewrite = Rewrite(compression: Compression, backup: Option<string>, lines: seq<string>)

  /** patch_html's return value together with the writes it made, if any. */
  datatype Patched = Patched(includes: seq<string>, rewrite: Option<Rewrite>)

  /** The bundle's file name: the prefix, the HTML file's stem and the type as extension. */
  function BundleBaseName(prefix: string, htmlFile: string, t: FileType): (r: string)
    ensures prefix + "_" <= r
    ensures |r| >= |t.Name()| + 2 && EndsWith(r, "." + t.Name())
    ensures '/' !in prefix ==> '/' !in r
    ensures '"' !in prefix && '"' !in htmlFile ==> '"' !in r
  {
    var stem, ext := Stem(htmlFile), t.Name();
    NameParts(prefix, stem, ext);
    NameLacks(prefix, stem, ext, '/');
    NameLacks(prefix, stem, ext, '"');
    prefix + "_" + stem + "." + ext
  }

  /** How a bundle name begins and ends. */
  lemma NameParts(prefix: string, stem: string, ext: string)
    ensures var r := prefix + "_" + stem + "." + ext;
      prefix + "_" <= r && |r| >= |ext| + 2 && EndsWith(r, "." + ext)
  {
  }

  /** A character that none of its parts holds is not in a bundle name. */
  lemma NameLacks(prefix: string, stem: string, ext: string, ch: char)
    requires ch != '_' && ch != '.' && ch !in ext
    ensures ch !in prefix && ch !in stem ==> ch !in prefix + "_" + stem + "." + ext
  {
  }

  /**
   * The bundle of the HTML file `d/n.x` is named after `n`: the prefix, an
   * underscore, `n`, a dot and the type.
   */
  lemma BundleNameOf(prefix: string, d: string, n: string, x: string, t: FileType)
    requires Canonical(d) && '/' !in n && '/' !in x && '.' !in x
    requires exists k :: 0 <= k < |n| && n[k] != '.'
    ensures BundleBaseName(prefix, Join(d, n + "." + x), t) == prefix + "_" + n + "." + t.Name()
  {
    StemOfJoin(d, n, x);
  }

  /** A base name joined below a directory is the joined name's base name, and the directory its head. */
  lemma NameBelow(d: string, b: string)
    requires '/' !in b && b != []
    ensures Basename(Join(d, b)) == b
    ensures Canonical(d) ==> Dirname(Join(d, b)) == d
  {
    var p := Join(d, b);
    if Canonical(d) {
      SplitJoin(d, b);
    } else {
      assert p == d + b;
      assert p[|d| - 1] == '/';
      forall j | |d| - 1 < j < |p| ensures p[j] != '/' {
        assert p[j] == b[j - |d|];
      }
      RFindAt(p, '/', |d| - 1);
      assert p[|d|..] == b;
    }
  }

  /** The name the HTML uses for the bundle: the bundle's base name below the logical root. */
  function BundleLogicalName(layout: Layout, t: FileType, htmlFile: string, prefix: string): (r: string)
    ensures '/' !in prefix ==> Basename(r) == BundleBaseName(prefix, htmlFile, t)
    ensures '/' !in prefix && Canonical(layout.Of(t).logical) ==> Dirname(r) == layout.Of(t).logical
  {
    var d, b := layout.Of(t).logical, BundleBaseName(prefix, htmlFile, t);
    if '/' in prefix then Join(d, b) else NameBelow(d, b); Join(d, b)
  }

  /** Where the compressor writes the bundle: its base name below the physical root. */
  function BundleOutFile(layout: Layout, t: FileType, htmlFile: string, prefix: string): (r: string)
    ensures '/' !in prefix ==> Basename(r) == BundleBaseName(prefix, htmlFile, t)
    ensures '/' !in prefix && Canonical(layout.Of(t).physical) ==> Dirname(r) == layout.Of(t).physical
  {
    var d, b := layout.Of(t).physical, BundleBaseName(prefix, htmlFile, t);
    if '/' in prefix then Join(d, b) else NameBelow(d, b); Join(d, b)
  }

  /**
   * The element a patch inserts, which also marks a document as already
   * patched. It is neither a blank line nor a comment, so the scan does not
   * skip it.
   */
  function BundleElement(layout: Layout, t: FileType, htmlFile: string, prefix: string): (r: string)
    ensures r != "\n" && !IsComment(r)
  {
    var p := BundleLogicalName(layout, t, htmlFile, prefix);
    TagIsNotComment(t, p);
    Tag(t, p)
  }

  /** How the scan treats a line, tested in the order patch_html tests them. */
  datatype LineKind = Bundle | Skip | Include(logical: string) | Other

  /**
   * A line equal to the bundle element aborts the run; a blank line or a
   * comment is skipped; a line holding an include of type `t` is an include
   * of its file name; anything else is other content.
   */
  function Classify(t: FileType, element: string, line: string): (r: LineKind)
    ensures r.Bundle? <==> line == element
    ensures r.Skip? <==> line != element && (line == "\n" || IsComment(line))
    ensures r.Include? ==> ValidPath(t, r.logical) && exists i :: 0 <= i <= |line| && MatchAt(t, line, i) == Some(r.logical)
    ensures r.Other? <==> line != element && line != "\n" && !IsComment(line) && NoMatchBetween(t, line, 0, |line| + 1)
  {
    if line == element then Bundle
    else if line == "\n" || IsComment(line) then Skip
    else match MatchTag(t, line)
      case Some(p) => Include(p)
      case None => Other
  }

  /**
   * What the scan of one document needs to know about its run: the asset
   * type, the bundle element, how lines are classified and how included
   * names are resolved to physical files.
   */
  datatype Context = Context(
    fileType: FileType,
    element: string,
    classify: string -> LineKind,
    resolve: string -> Result<string, LayoutError>)

  function ContextFor(layout: Layout, t: FileType, htmlFile: string, prefix: string): (r: Context)
    ensures r.fileType == t
    ensures forall line :: r.classify(line).Bundle? <==> line == r.element
    ensures forall p :: r.resolve(p) == LogicalToPhysical(layout, p, t)
  {
    var element := BundleElement(layout, t, htmlFile, prefix);
    Context(t, element, line => Classify(t, element, line), p => LogicalToPhysical(layout, p, t))
  }

  predicate IsInclude(c: Context, line: string) {
    c.classify(line).Include?
  }

  /** The lines that are not includes, in their order. */
  function Kept(c: Context, ls: seq<string>): (r: seq<string>)
    ensures |r| <= |ls|
    ensures (forall i :: 0 <= i < |ls| ==> !IsInclude(c, ls[i])) ==> r == ls
  {
    if ls == [] then []
    else Kept(c, ls[..|ls| - 1]) + (if IsInclude(c, ls[|ls| - 1]) then [] else [ls[|ls| - 1]])
  }

  /** The file names of the includes, in their order. */
  function Logicals(c: Context, ls: seq<string>): (r: seq<string>)
    ensures |r| <= |ls|
    ensures (forall i :: 0 <= i < |ls| ==> !IsInclude(c, ls[i])) ==> r == []
  {
    if ls == [] then []
    else
      var last := c.classify(ls[|ls| - 1]);
      Logicals(c, ls[..|ls| - 1]) + (if last.Include? then [last.logical] else [])
  }

  /** The physical files of the includes that resolve, in their order. */
  function Resolved(c: Context, ls: seq<string>): (r: seq<string>)
    ensures |r| <= |Logicals(c, ls)|
  {
    if ls == [] then []
    else
      var init := Resolved(c, ls[..|ls| - 1]);
      match c.classify(ls[|ls| - 1])
      case Include(p) =>
        (match c.resolve(p)
         case Ok(f) => init + [f]
         case Err(_) => init)
      case _ => init
  }

  /**
   * The script-ordering flag after scanning `ls`: set by a line of other
   * content once an include has been collected. Blank lines and comments
   * leave it alone.
   */
  predicate OtherAfterInclude(c: Context, ls: seq<string>)
    ensures (forall i :: 0 <= i < |ls| ==> !c.classify(ls[i]).Other?) ==> !OtherAfterInclude(c, ls)
  {
    ls != [] &&
    var init := ls[..|ls| - 1];
    (OtherAfterInclude(c, init) || (c.classify(ls[|ls| - 1]).Other? && Logicals(c, init) != []))
  }

  /** The number of kept lines before the last include: where the bundle element goes. */
  function LastMatch(c: Context, ls: seq<string>): (r: nat)
    ensures r <= |Kept(c, ls)|
  {
    if ls == [] then 0
    else if IsInclude(c, ls[|ls| - 1]) then |Kept(c, ls[..|ls| - 1])|
    else LastMatch(c, ls[..|ls| - 1])
  }

  /**
   * Whether the scan aborts at line `i` of the original document, given the
   * lines before it. The line numbers in the diagnostics are positions in the
   * list after the earlier includes were deleted from it.
   */
  function ErrorAt(c: Context, ls: seq<string>, i: nat): (r: Option<PatchError>)
    requires i < |ls|
    ensures r.Some? ==> c.classify(ls[i]).Bundle? || IsInclude(c, ls[i])
    ensures r == Some(AlreadyProcessed) <==> c.classify(ls[i]).Bundle?
    ensures r.Some? && r.value.ScriptAfterContent? ==> c.fileType == Js && 1 <= r.value.line <= i + 1
    ensures r.Some? && r.value.IncludedTwice? ==> 1 <= r.value.line <= i + 1 && r.value.fileName in Resolved(c, ls[..i])
    ensures r.Some? ==> !r.value.CompressorFailed?
  {
    match c.classify(ls[i])
    case Bundle => Some(AlreadyProcessed)
    case Include(p) =>
      (match c.resolve(p)
       case Err(e) => Some(NotRooted(e))
       case Ok(f) =>
         if c.fileType == Js && OtherAfterInclude(c, ls[..i]) then
           Some(ScriptAfterContent(|Kept(c, ls[..i])| + 1))
         else if f in Resolved(c, ls[..i]) then
           Some(IncludedTwice(|Kept(c, ls[..i])| + 1, f))
         else None)
    case _ => None
  }

  /** The error of the first line, from index `k` on, at which the scan aborts. */
  function FirstErrorFrom(c: Context, ls: seq<string>, k: nat): (r: Option<PatchError>)
    requires k <= |ls|
    decreases |ls| - k
    ensures r.None? <==> forall i :: k <= i < |ls| ==> ErrorAt(c, ls, i).None?
    ensures r.Some? ==> exists i :: k <= i < |ls| && ErrorAt(c, ls, i) == r
                                    && forall i' :: k <= i' < i ==> ErrorAt(c, ls, i').None?
  {
    if k == |ls| then None
    else if ErrorAt(c, ls, k).Some? then ErrorAt(c, ls, k)
    else FirstErrorFrom(c, ls, k + 1)
  }

  /**
   * What patch_html decides for the lines `ls` of a document scanned in the
   * context `c`: the first line that aborts the scan decides the error;
   * otherwise, with includes, the compressor's exit `status` decides
   * between failure and a rewrite that puts the bundle element after the
   * kept lines that preceded the last include.
   */
  function Outcome(c: Context, outFile: string, backup: Option<string>, status: int,
                   ls: seq<string>): (r: Result<Patched, PatchError>)
    ensures r.Ok? ==> r.value.includes == Resolved(c, ls)
    ensures r.Ok? ==> (r.value.rewrite.None? <==> r.value.includes == [])
    ensures r.Ok? && r.value.rewrite.Some? ==>
              var w := r.value.rewrite.value;
              status == 0 && w.compression == Compression(r.value.includes, outFile, c.fileType)
              && w.backup == backup && c.element in w.lines
    ensures r.Err? && r.error.CompressorFailed? ==>
              status != 0 && r.error == CompressorFailed(Compression(Resolved(c, ls), outFile, c.fileType), status)
  {
    match FirstErrorFrom(c, ls, 0)
    case Some(e) => Err(e)
    case None =>
      var files := Resolved(c, ls);
      if files == [] then Ok(Patched([], None))
      else if status != 0 then Err(CompressorFailed(Compression(files, outFile, c.fileType), status))
      else
        var kept, m := Kept(c, ls), LastMatch(c, ls);
        assert (kept[..m] + [c.element] + kept[m..])[m] == c.element;
        Ok(Patched(files, Some(Rewrite(Compression(files, outFile, c.fileType), backup,
                                       kept[..m] + [c.element] + kept[m..]))))
  }

  /** Where the original is copied before it is rewritten, unless backups are off. */
  function BackupFile(htmlFile: string, t: FileType, noBackup: bool): (r: Option<string>)
    ensures r.None? <==> noBackup
    ensures r.Some? ==> htmlFile <= r.value && EndsWith(r.value, "." + t.Name() + ".bak")
    ensures r.Some? ==> |r.value| == |htmlFile| + |t.Name()| + 5
  {
    if noBackup then None else Some(htmlFile + "." + t.Name() + ".bak")
  }

  /**
   * The outcome of patch_html on the lines `ls` of `htmlFile`, when the
   * compressor exits with `status`.
   */
  function Patch(layout: Layout, t: FileType, htmlFile: string, prefix: string,
                 noBackup: bool, status: int, ls: seq<string>): (r: Result<Patched, PatchError>)
    ensures r.Ok? && r.value.rewrite.Some? ==>
              var w := r.value.rewrite.value;
              w.compression.outFile == BundleOutFile(layout, t, htmlFile, prefix)
              && w.backup == BackupFile(htmlFile, t, noBackup)
              && BundleElement(layout, t, htmlFile, prefix) in w.lines
  {
    Outcome(ContextFor(layout, t, htmlFile, prefix), BundleOutFile(layout, t, htmlFile, prefix),
            BackupFile(htmlFile, t, noBackup), status, ls)
  }

  /** Where the scan of a document ends when it does not abort. */
  datatype Scanned = Scanned(lines: seq<string>, includes: seq<string>, lastMatch: nat)

  /**
   * The loop of patch_html. The document's lines are a local list that the
   * loop deletes from as it walks it; the cursor only moves past lines that
   * stay, so every pass either advances the cursor or shortens the list.
   */
  method ScanLines(c: Context, document: seq<string>) returns (r: Result<Scanned, PatchError>)
    ensures r.Err? ==> FirstErrorFrom(c, document, 0) == Some(r.error)
    ensures r.Ok? ==> FirstErrorFrom(c, document, 0) == None
    ensures r.Ok? ==> r.value == Scanned(Kept(c, document), Resolved(c, document), LastMatch(c, document))
  {
    var pastScript := false;
    var lines := document;
    var lineNum := 0;
    var lastMatch := 0;
    var includes: seq<string> := [];
    ghost var j := 0;  // lines of `document` scanned so far
    while lineNum < |lines|
      invariant j <= |document|
      invariant Scanning(c, document, j, lines, lineNum, includes, pastScript, lastMatch)
      decreases |lines| - lineNum
    {
      var line := lines[lineNum];
      CurrentLine(c, document, j, lines, lineNum, includes, pastScript, lastMatch);
      match c.classify(line) {
        case Bundle =>
          FirstErrorAt(c, document, j);
          return Err(AlreadyProcessed);
        case Skip =>
          SkipStep(c, document, j, lines, lineNum, includes, pastScript, lastMatch);
          lineNum := lineNum + 1;
        case Include(p) =>
          var found := c.resolve(p);
          if found.Err? {
            FirstErrorAt(c, document, j);
            return Err(NotRooted(found.error));
          }
          var fileName := found.value;
          IncludeStep(c, document, j, lines, lineNum, includes, pastScript, lastMatch, p, fileName);
          lines := lines[..lineNum] + lines[lineNum + 1..];
          lastMatch := lineNum;
          if pastScript && c.fileType == Js {
            FirstErrorAt(c, document, j);
            return Err(ScriptAfterContent(lineNum + 1));
          }
          if fileName in includes {
            FirstErrorAt(c, document, j);
            return Err(IncludedTwice(lineNum + 1, fileName));
          }
          includes := includes + [fileName];
        case Other =>
          OtherStep(c, document, j, lines, lineNum, includes, pastScript, lastMatch);
          lineNum := lineNum + 1;
          pastScript := |includes| > 0;
      }
      j := j + 1;
    }
    ScanDone(c, document, j, lines, lineNum, includes, pastScript, lastMatch);
    return Ok(Scanned(lines, includes, lastMatch));
  }

  /**
   * patch_html: scan the document, then, if includes were found, run the
   * compressor on them and put the bundle element where the last include
   * was. Nothing is written unless the scan and the compressor succeed.
   */
  method PatchHtml(layout: Layout, fileType: FileType, htmlFile: string, prefix: string,
                   noBackup: bool, status: int, document: seq<string>)
    returns (r: Result<Patched, PatchError>)
    ensures r == Patch(layout, fileType, htmlFile, prefix, noBackup, status, document)
  {
    var baseName := BundleBaseName(prefix, htmlFile, fileType);
    var logicalName := Join(layout.Of(fileType).logical, baseName);
    var element := Tag(fileType, logicalName);
    var c := Context(fileType, element,
                     line => Classify(fileType, element, line),
                     p => LogicalToPhysical(layout, p, fileType));
    assert c == ContextFor(layout, fileType, htmlFile, prefix);
    var scanned :- ScanLines(c, document);
    var includes, lines, lastMatch := scanned.includes, scanned.lines, scanned.lastMatch;
    if |includes| > 0 {
      var outFile := Join(layout.Of(fileType).physical, baseName);
      if status != 0 {
        return Err(CompressorFailed(Compression(includes, outFile, fileType), status));
      }
      lines := lines[..lastMatch] + [element] + lines[lastMatch..];
      var backup := BackupFile(htmlFile, fileType, noBackup);
      return Ok(Patched(includes, Some(Rewrite(Compression(includes, outFile, fileType), backup, lines))));
    }
    return Ok(Patched([], None));
  }

  /** The scan reports the error of the first line that fails. */
  lemma FirstErrorAt(c: Context, ls: seq<string>, j: nat)
    requires j < |ls| && ErrorAt(c, ls, j).Some?
    requires NoErrorBefore(c, ls, j)
    ensures FirstErrorFrom(c, ls, 0) == ErrorAt(c, ls, j)
  {
    NoErrorBeforeAll(c, ls, j);
    var r := FirstErrorFrom(c, ls, 0);
    var i :| 0 <= i < |ls| && ErrorAt(c, ls, i) == r && forall i' :: 0 <= i' < i ==> ErrorAt(c, ls, i').None?;
    assert i == j;
  }

  /** None of the first `j` lines of `ls` aborts the scan. */
  ghost predicate NoErrorBefore(c: Context, ls: seq<string>, j: nat)
    requires j <= |ls|
  {
    j == 0 || (NoErrorBefore(c, ls, j - 1) && ErrorAt(c, ls, j - 1).None?)
  }

  lemma {:induction false} NoErrorBeforeAll(c: Context, ls: seq<string>, j: nat)
    requires j <= |ls|
    ensures NoErrorBefore(c, ls, j) <==> forall i :: 0 <= i < j ==> ErrorAt(c, ls, i).None?
  {
    if j > 0 {
      NoErrorBeforeAll(c, ls, j - 1);
    }
  }

  /**
   * The state of the scan after the first `j` lines of `document`: the list
   * holds the kept lines followed by the unscanned ones, the cursor stands
   * after the kept lines, and the flags and includes summarise the prefix.
   */
  ghost predicate Scanning(c: Context, document: seq<string>, j: nat, lines: seq<string>, lineNum: nat,
                           includes: seq<string>, pastScript: bool, lastMatch: nat)
    requires j <= |document|
  {
    var prefix := document[..j];
    && lines == Kept(c, prefix) + document[j..]
    && lineNum == |Kept(c, prefix)|
    && NoErrorBefore(c, document, j)
    && includes == Resolved(c, prefix)
    && |includes| == |Logicals(c, prefix)|
    && pastScript == OtherAfterInclude(c, prefix)
    && lastMatch == LastMatch(c, prefix)
  }

  /** The line under the cursor is the next unscanned line of the document. */
  lemma CurrentLine(c: Context, document: seq<string>, j: nat, lines: seq<string>, lineNum: nat,
                    includes: seq<string>, pastScript: bool, lastMatch: nat)
    requires j <= |document| && Scanning(c, document, j, lines, lineNum, includes, pastScript, lastMatch)
    requires lineNum < |lines|
    ensures j < |document| && lines[lineNum] == document[j]
    ensures NoErrorBefore(c, document, j)
    ensures c.classify(document[j]).Bundle? ==> ErrorAt(c, document, j) == Some(AlreadyProcessed)
    ensures c.classify(document[j]).Include? && c.resolve(c.classify(document[j]).logical).Err? ==>
              ErrorAt(c, document, j) == Some(NotRooted(c.resolve(c.classify(document[j]).logical).error))
  {
  }

  /** Moving past a blank or comment line. */
  lemma SkipStep(c: Context, document: seq<string>, j: nat, lines: seq<string>, lineNum: nat,
                 includes: seq<string>, pastScript: bool, lastMatch: nat)
    requires j < |document| && Scanning(c, document, j, lines, lineNum, includes, pastScript, lastMatch)
    requires c.classify(document[j]).Skip?
    ensures Scanning(c, document, j + 1, lines, lineNum + 1, includes, pastScript, lastMatch)
  {
    KeptStep(c, document, j);
    KeepLine(Kept(c, document[..j]), document, j);
    NoErrorStep(c, document, j);
  }

  /** Moving past any other line sets the flag once an include has been seen. */
  lemma OtherStep(c: Context, document: seq<string>, j: nat, lines: seq<string>, lineNum: nat,
                  includes: seq<string>, pastScript: bool, lastMatch: nat)
    requires j < |document| && Scanning(c, document, j, lines, lineNum, includes, pastScript, lastMatch)
    requires c.classify(document[j]).Other?
    ensures Scanning(c, document, j + 1, lines, lineNum + 1, includes, |includes| > 0, lastMatch)
  {
    KeptStep(c, document, j);
    KeepLine(Kept(c, document[..j]), document, j);
    FlagNeedsInclude(c, document[..j]);
    NoErrorStep(c, document, j);
  }

  /**
   * Deleting an include of `p` that resolves to `f`: the line aborts the
   * scan exactly on the ordering and duplicate checks, and otherwise the
   * scan goes on with `f` appended.
   */
  lemma IncludeStep(c: Context, document: seq<string>, j: nat, lines: seq<string>, lineNum: nat,
                    includes: seq<string>, pastScript: bool, lastMatch: nat, p: string, f: string)
    requires j < |document| && Scanning(c, document, j, lines, lineNum, includes, pastScript, lastMatch)
    requires c.classify(document[j]) == Include(p) && c.resolve(p) == Ok(f)
    ensures ErrorAt(c, document, j) ==
              if pastScript && c.fileType == Js then Some(ScriptAfterContent(lineNum + 1))
              else if f in includes then Some(IncludedTwice(lineNum + 1, f))
              else None
    ensures ErrorAt(c, document, j).None? ==>
              Scanning(c, document, j + 1, lines[..lineNum] + lines[lineNum + 1..], lineNum,
                       includes + [f], pastScript, lineNum)
  {
    IncludeGrows(c, document, j, p, f);
    DropLine(lines, Kept(c, document[..j]), document, j);
    if ErrorAt(c, document, j).None? {
      NoErrorStep(c, document, j);
    }
  }

  /** A finished scan has summarised the whole document. */
  lemma ScanDone(c: Context, document: seq<string>, j: nat, lines: seq<string>, lineNum: nat,
                 includes: seq<string>, pastScript: bool, lastMatch: nat)
    requires j <= |document| && Scanning(c, document, j, lines, lineNum, includes, pastScript, lastMatch)
    requires lineNum >= |lines|
    ensures FirstErrorFrom(c, document, 0) == None
    ensures Scanned(lines, includes, lastMatch) == Scanned(Kept(c, document), Resolved(c, document), LastMatch(c, document))
  {
    assert document[j..] == [] && document[..j] == document;
    NoErrorBeforeAll(c, document, j);
  }

  lemma NoErrorStep(c: Context, ls: seq<string>, j: nat)
    requires j < |ls| && NoErrorBefore(c, ls, j) && ErrorAt(c, ls, j).None?
    ensures NoErrorBefore(c, ls, j + 1)
  {
  }

  /** How the summaries grow by a line that is not an include. */
  lemma KeptStep(c: Context, ls: seq<string>, j: nat)
    requires j < |ls| && !IsInclude(c, ls[j])
    ensures Kept(c, ls[..j + 1]) == Kept(c, ls[..j]) + [ls[j]]
    ensures Logicals(c, ls[..j + 1]) == Logicals(c, ls[..j])
    ensures Resolved(c, ls[..j + 1]) == Resolved(c, ls[..j])
    ensures LastMatch(c, ls[..j + 1]) == LastMatch(c, ls[..j])
    ensures OtherAfterInclude(c, ls[..j + 1])
            <==> OtherAfterInclude(c, ls[..j]) || (c.classify(ls[j]).Other? && Logicals(c, ls[..j]) != [])
  {
    var s, s' := ls[..j], ls[..j + 1];
    assert s'[..j] == s && s'[j] == ls[j];
  }

  /** How the summaries grow by an include of `p` that resolves to `f`. */
  lemma IncludeGrows(c: Context, ls: seq<string>, j: nat, p: string, f: string)
    requires j < |ls| && c.classify(ls[j]) == Include(p) && c.resolve(p) == Ok(f)
    ensures Kept(c, ls[..j + 1]) == Kept(c, ls[..j])
    ensures Logicals(c, ls[..j + 1]) == Logicals(c, ls[..j]) + [p]
    ensures Resolved(c, ls[..j + 1]) == Resolved(c, ls[..j]) + [f]
    ensures LastMatch(c, ls[..j + 1]) == |Kept(c, ls[..j])|
    ensures OtherAfterInclude(c, ls[..j + 1]) == OtherAfterInclude(c, ls[..j])
    ensures ErrorAt(c, ls, j) ==
              if c.fileType == Js && OtherAfterInclude(c, ls[..j]) then
                Some(ScriptAfterContent(|Kept(c, ls[..j])| + 1))
              else if f in Resolved(c, ls[..j]) then
                Some(IncludedTwice(|Kept(c, ls[..j])| + 1, f))
              else None
  {
    var s, s' := ls[..j], ls[..j + 1];
    assert s'[..j] == s && s'[j] == ls[j];
  }

  /** Moving the cursor past line `j` of the document leaves the list as it was. */
  lemma KeepLine(kept: seq<string>, document: seq<string>, j: nat)
    requires j < |document|
    ensures kept + document[j..] == (kept + [document[j]]) + document[j + 1..]
  {
    assert document[j..] == [document[j]] + document[j + 1..];
  }

  /** Deleting the line under the cursor drops line `j` of the document. */
  lemma DropLine(lines: seq<string>, kept: seq<string>, document: seq<string>, j: nat)
    requires j < |document| && lines == kept + document[j..]
    ensures lines[..|kept|] + lines[|kept| + 1..] == kept + document[j + 1..]
  {
    assert lines[..|kept|] == kept;
    assert lines[|kept| + 1..] == document[j + 1..];
  }

  /** The ordering flag is only ever set once an include has been seen. */
  lemma {:induction false} FlagNeedsInclude(c: Context, ls: seq<string>)
    ensures OtherAfterInclude(c, ls) ==> Logicals(c, ls) != []
  {
    if ls != [] {
      FlagNeedsInclude(c, ls[..|ls| - 1]);
    }
  }

  /** There are includes exactly when some line is one. */
  lemma {:induction false} LogicalsNonEmpty(c: Context, ls: seq<string>)
    ensures |Logicals(c, ls)| > 0 <==> exists a :: 0 <= a < |ls| && IsInclude(c, ls[a])
  {
    if ls != [] {
      var init := ls[..|ls| - 1];
      LogicalsNonEmpty(c, init);
      if exists a :: 0 <= a < |init| && IsInclude(c, init[a]) {
        var a :| 0 <= a < |init| && IsInclude(c, init[a]);
        assert ls[a] == init[a];
      }
      if exists a :: 0 <= a < |ls| && IsInclude(c, ls[a]) {
        var a :| 0 <= a < |ls| && IsInclude(c, ls[a]);
        if a < |init| { assert init[a] == ls[a]; }
      }
    }
  }

  /** Whether line `i` aborts the scan depends only on the lines up to it. */
  lemma ErrorAtPrefix(c: Context, ls: seq<string>, n: nat, i: nat)
    requires i < n <= |ls|
    ensures ErrorAt(c, ls[..n], i) == ErrorAt(c, ls, i)
  {
    assert ls[..n][..i] == ls[..i];
  }

  /** When no line is rejected, every include resolves and no file is collected twice. */
  lemma {:induction false} ResolvedFacts(c: Context, ls: seq<string>)
    requires forall i :: 0 <= i < |ls| ==> ErrorAt(c, ls, i).None?
    ensures |Resolved(c, ls)| == |Logicals(c, ls)|
    ensures forall k :: 0 <= k < |Resolved(c, ls)| ==>
              c.resolve(Logicals(c, ls)[k]) == Ok(Resolved(c, ls)[k])
    ensures forall a, b :: 0 <= a < b < |Resolved(c, ls)| ==> Resolved(c, ls)[a] != Resolved(c, ls)[b]
  {
    if ls != [] {
      var n := |ls| - 1;
      var init := ls[..n];
      forall i | 0 <= i < |init| ensures ErrorAt(c, init, i).None? {
        ErrorAtPrefix(c, ls, n, i);
      }
      ResolvedFacts(c, init);
      assert ErrorAt(c, ls, n).None?;
    }
  }

  /** A collected file comes from an include line before it. */
  lemma {:induction false} InResolved(c: Context, ls: seq<string>, a: nat, f: string)
    requires a < |ls| && IsInclude(c, ls[a])
    requires c.resolve(c.classify(ls[a]).logical) == Ok(f)
    ensures f in Resolved(c, ls)
  {
    var n := |ls| - 1;
    if a < n {
      assert ls[..n][a] == ls[a];
      InResolved(c, ls[..n], a, f);
    }
  }

  /** Every collected file was named by some include line. */
  lemma {:induction false} ResolvedSource(c: Context, ls: seq<string>, f: string)
    requires f in Resolved(c, ls)
    ensures exists a :: 0 <= a < |ls| && IsInclude(c, ls[a])
                        && c.resolve(c.classify(ls[a]).logical) == Ok(f)
  {
    var n := |ls| - 1;
    var init := ls[..n];
    if f in Resolved(c, init) {
      ResolvedSource(c, init, f);
      var a :| 0 <= a < |init| && IsInclude(c, init[a])
               && c.resolve(c.classify(init[a]).logical) == Ok(f);
      assert ls[a] == init[a];
    }
  }

  /** Kept lines are lines of the document and are not includes. */
  lemma {:induction false} KeptFacts(c: Context, ls: seq<string>)
    ensures forall x :: x in Kept(c, ls) ==> x in ls && !IsInclude(c, x)
  {
    if ls != [] {
      var init := ls[..|ls| - 1];
      KeptFacts(c, init);
      assert forall x :: x in init ==> x in ls;
    }
  }

  /** Each line is either kept or an include. */
  lemma {:induction false} KeptLength(c: Context, ls: seq<string>)
    ensures |Kept(c, ls)| + |Logicals(c, ls)| == |ls|
  {
    if ls != [] {
      KeptLength(c, ls[..|ls| - 1]);
    }
  }

  /** Keeping lines distributes over concatenation. */
  lemma {:induction false} KeptAppend(c: Context, a: seq<string>, b: seq<string>)
    ensures Kept(c, a + b) == Kept(c, a) + Kept(c, b)
  {
    if b != [] {
      var n := |b| - 1;
      assert (a + b)[..|a + b| - 1] == a + b[..n];
      KeptAppend(c, a, b[..n]);
    } else {
      assert a + b == a;
    }
  }

  /** Without includes every line is kept. */
  lemma {:induction false} KeptAll(c: Context, ls: seq<string>)
    requires forall i :: 0 <= i < |ls| ==> !IsInclude(c, ls[i])
    ensures Kept(c, ls) == ls
  {
    if ls != [] {
      var n := |ls| - 1;
      KeptAll(c, ls[..n]);
      assert ls[..n] + [ls[n]] == ls;
    }
  }

  /** The bundle element goes after the kept lines that preceded the last include. */
  lemma {:induction false} LastMatchAt(c: Context, ls: seq<string>, i: nat)
    requires i < |ls| && IsInclude(c, ls[i])
    requires forall j :: i < j < |ls| ==> !IsInclude(c, ls[j])
    ensures LastMatch(c, ls) == |Kept(c, ls[..i])|
  {
    var n := |ls| - 1;
    if i < n {
      var init := ls[..n];
      assert init[..i] == ls[..i];
      assert forall j :: i < j < |init| ==> init[j] == ls[j];
      LastMatchAt(c, init, i);
    } else {
      assert ls[..n] == ls[..i];
    }
  }
}
