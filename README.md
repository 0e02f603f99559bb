# yuicat: patching HTML includes into one bundle

yuicat prepares a web site for release. For one asset type (`js` or `css`) and
one HTML file, `patch_html` walks the file's lines. It deletes every line that
includes a logically rooted script or stylesheet of that type. It has the
included files compressed into a single bundle and inserts one element that
includes the bundle, at the place of the last include it deleted. The run
aborts when:

- the file was already patched;
- an include is not below the logical root;
- a script include follows other content;
- the same physical file is included twice;
- the compressor fails.

Two helpers move file names between the logical directory the HTML uses and
the physical directory on disk.

The model is written in Dafny:

- `paths.dfy` (module `Paths`) has the parts of Python's `posixpath` the tool
  relies on: `split`, `basename`, `join`, `splitext` and `commonprefix`.
- `resolver.dfy` (module `Resolver`) has the asset types, the layout
  configuration with its default, and `_logical_to_physical` and
  `_physical_to_logical` with their round trips.
- `tags.dfy` (module `Tags`) has the two element templates. It also has the
  two include patterns, written as the leftmost match `re.search` finds, and
  the comment pattern that `re.match` applies.
- `patcher.dfy` (module `Patcher`) has the bundle naming and the functions
  that specify a scan: kept lines, include names, resolved files, the
  script-ordering flag, the insertion index and the first error. It also has
  the imperative `patch_html`:
  - `ScanLines` is the `while` loop. The list of lines is local to
    `patch_html`, so no caller can see it change; the model holds it in a
    local sequence, and a deletion rebinds that sequence to the list without
    the line. The loop keeps `line_num`, `last_match`, `past_script` and
    `includes` as the source does. It is proved to end with the parts of the
    specification: the kept lines (`Kept`), the resolved includes
    (`Resolved`) and the insertion index (`LastMatch`), or with the first
    error (`FirstErrorFrom`).
  - `PatchHtml` runs the scan, then runs the compressor and inserts the
    bundle element. It is proved equal to the specification `Patch`, which
    is `Outcome` built from those parts in the run's context.
- `properties.dfy` (module `Properties`) has what a run guarantees, stated on
  that specification.

The scan's diagnostics report `line_num + 1`, and `line_num` indexes the list
after earlier includes were deleted. So a reported line number falls short of
the line's place in the file by the number of includes above it. The model
keeps this behaviour: see `Properties.ReportedLine` and
`Properties.RepeatedIncludeReportedAtFirstLine`.

The message passed to `_error` for an already processed file has no
conversion for its two arguments. Formatting it raises an exception, which
still ends the run before anything is written. The model reports this case as
the error `AlreadyProcessed`.

## Model

| member | source | states |
|---|---|---|
| Paths.Split | yuicat.py:98 | os.path.split: the tail holds no separator, is a suffix of the path and follows its last separator; the head is everything before the tail, with its trailing separators removed unless it consists of separators only |
| Paths.Basename | yuicat.py:131 | os.path.basename: the name after the last separator, holding none, and ending the path |
| Paths.Join | yuicat.py:102 | os.path.join: an absolute second component replaces the first; otherwise the result is the first component, at most one separator, then the second, exactly one separator when the first is non-empty and does not end in one, and none when it is empty or already ends in one |
| Paths.SplitJoin | yuicat.py:98-102 | splitting a base name joined below a directory without a trailing separator gives back the directory and the base name |
| Paths.SplitExt | yuicat.py:131 | os.path.splitext: root and extension concatenate to the name; the extension is empty or a dot followed by neither separators nor dots |
| Paths.Stem | yuicat.py:130-132 | the HTML file's stem is a prefix of its base name, holds no separator and only characters of the file name |
| Paths.SplitExtOf | yuicat.py:131 | os.path.splitext of `n.x`, with no dot in `x` and `n` not made of dots only, gives `n` as its root |
| Paths.StemOfJoin | yuicat.py:130-132 | the stem of `n.x` joined below a directory without a trailing separator is `n`, when `n` and `x` hold no separator, `x` holds no dot and `n` is not made of dots only |
| Paths.CommonPrefix | yuicat.py:100 | os.path.commonprefix of two strings: a prefix of both, after which they differ or one of them ends |
| Paths.CommonPrefixIsPrefix | yuicat.py:100 | the common prefix of the root and the directory equals the root exactly when the root is a string prefix of the directory |
| Resolver.LogicalToPhysical | yuicat.py:96-102 | accepted exactly when the logical root is a string prefix of the directory; the result is the physical root joined with the base name; otherwise the "not logically rooted" error for that name |
| Resolver.PhysicalToLogical | yuicat.py:105-111 | the same substitution from the physical root to the logical root, with the "not physically rooted" error |
| Resolver.LogicalRoundTrip | yuicat.py:96-111 | when the physical root has no trailing separator, an accepted logical name, mapped to its physical file and back, becomes the logical root joined with its base name |
| Resolver.LogicalRoundTripIdentity | yuicat.py:96-111 | when neither root has a trailing separator, a name that is its base name joined directly below the logical root comes back unchanged |
| Resolver.PhysicalRoundTrip | yuicat.py:96-111 | when the logical root has no trailing separator, the round trip from a physical name to its logical name and back gives the physical root joined with the base name |
| Resolver.LogicalAccepted | yuicat.py:96-102 | any base name below a directory that starts with the logical root maps to the physical root joined with that base name |
| Resolver.PhysicalAccepted | yuicat.py:105-111 | any base name below a directory that starts with the physical root maps to the logical root joined with that base name |
| Resolver.LogicalRejected | yuicat.py:96-102 | a base name below a directory that does not start with the logical root is rejected as not logically rooted |
| Resolver.PhysicalRejected | yuicat.py:105-111 | a base name below a directory that does not start with the physical root is rejected as not physically rooted |
| Resolver.DefaultLayoutRoundTrip | yuicat.py:49-57 | the built-in layout's roots have no trailing separator, so every name it accepts survives the round trip as its base name below the logical root |
| Resolver.DefaultScriptToLogical | yuicat.py:105-111 | with the default layout, static/js/app.js is known to the HTML as /js/app.js |
| Resolver.SubdirectoryDropped | yuicat.py:96-102 | with the default layout, /js/lib/app.js resolves to static/js/app.js and so loses its subdirectory |
| Resolver.SiblingDirectoryAccepted | yuicat.py:100 | the root test compares strings, so /jsx/app.js is accepted as below /js |
| Resolver.RepeatedSeparatorNormalised | yuicat.py:98 | a repeated separator is dropped by os.path.split, so /js//app.js comes back from the round trip as /js/app.js |
| Resolver.PhysicalRootWithSeparator | yuicat.py:96-111 | a physical root written as "static/js/" accepts /js/a.js as static/js/a.js and then rejects that file as not physically rooted |
| Resolver.LogicalRootWithSeparator | yuicat.py:96-102 | a logical root written as "/js/" rejects /js/a.js, a file directly below it |
| Tags.MatchAt | yuicat.py:70-71 | a match of the include pattern at a position yields a name the group accepts, and the element for that name is written there |
| Tags.TagOneLine | yuicat.py:66-67 | an element is one line: it ends in a newline, the only one it holds when the file name holds none |
| Tags.SearchFrom | yuicat.py:149 | re.search: a found name is valid and its element occurs at or after the start position |
| Tags.SearchNone | yuicat.py:149-150 | the search from a position finds nothing exactly when the pattern matches at no position from there on |
| Tags.SearchLeftmost | yuicat.py:149-151 | a found name is the one matched at the leftmost position where the pattern matches |
| Tags.MatchTag | yuicat.py:149-151 | regex.search(line).group(1): the name matched at the leftmost matching position, whose group the pattern accepts; no match exactly when the pattern matches nowhere in the line |
| Tags.MatchAtTag | yuicat.py:70-71 | the element for a valid name, written at a position, is matched there with that name |
| Tags.SearchFindsTag | yuicat.py:149-151 | in a line whose only newline ends it, as readlines returns lines, the search returns the name of the element written in it |
| Tags.IndentedTag | yuicat.py:149-151 | an include line indented by any text without a newline yields the name it includes |
| Tags.NoMatchBefore | yuicat.py:149 | in such a line no match starts before the element, since its name would run over the element's opening quote |
| Tags.TagRoundTrip | yuicat.py:66-71 | searching the element written for a valid name gives that name back |
| Tags.LeadingSpace | yuicat.py:72 | the leading white-space run is all `\s` characters and is followed by none |
| Tags.ClosesExactly | yuicat.py:72 | `.*-->` matches from a position exactly when a "-->" follows before any newline |
| Tags.CommentExactly | yuicat.py:72 | html_comment.match accepts a line exactly when, after its leading white space, it opens "<!--" and a "-->" follows before any newline |
| Tags.CommentLine | yuicat.py:72 | white space followed by a comment closed on the same line is a comment, whatever follows it |
| Tags.TagIsNotComment | yuicat.py:146 | an include element is neither a blank line nor a comment |
| Patcher.BundleBaseName | yuicat.py:130-132 | the bundle name starts with the prefix and an underscore and ends with a dot and the type; it holds no separator if the prefix holds none, and no double quote if neither the prefix nor the HTML file name does |
| Patcher.BundleNameOf | yuicat.py:130-132 | the bundle of the HTML file `d/n.x` is named exactly prefix, underscore, `n`, dot, type, when `d` has no trailing separator, `n` and `x` hold no separator, `x` holds no dot and `n` is not made of dots only |
| Patcher.NameBelow | yuicat.py:133 | a base name joined below a directory is the joined name's base name, and a directory without a trailing separator is its head |
| Patcher.BundleLogicalName | yuicat.py:133 | when the prefix holds no separator, the logical name's base name is the bundle name, and its directory is the logical root when that has no trailing separator |
| Patcher.BundleOutFile | yuicat.py:169 | when the prefix holds no separator, the output file's base name is the bundle name, and its directory is the physical root when that has no trailing separator |
| Patcher.BundleElement | yuicat.py:134 | the bundle element is neither a blank line nor a comment, so the scan never skips it |
| Patcher.Classify | yuicat.py:142-150 | a line is the bundle exactly when it equals the element; otherwise skipped exactly when blank or a comment; otherwise an include of a name the pattern accepts and matches in the line, or other content exactly when the pattern matches nowhere in it |
| Patcher.ErrorAt | yuicat.py:142-160 | only the bundle element and include lines abort; the element always aborts as already processed; an ordering error happens only for scripts; a repeated file was collected before; reported line numbers lie between 1 and the line's index plus one |
| Patcher.Outcome | yuicat.py:141-181 | a run that succeeds returns the resolved includes and rewrites exactly when there are some; a rewrite compresses those files into the output file, keeps the requested backup and contains the element; a compressor failure needs a nonzero status and records the run it was given |
| Patcher.BackupFile | yuicat.py:174-177 | no backup exactly when backups are off; otherwise exactly the HTML file name followed by `.<type>.bak` (it starts with the file name, ends with `.<type>.bak` and has exactly their combined length) |
| Patcher.Patch | yuicat.py:114-181 | a rewrite compresses into the bundle's output file, backs up to the backup file and contains the bundle element |
| Patcher.ContextFor | yuicat.py:130-152 | the run's classifier treats exactly its own bundle element as already processed, and it resolves include names with the layout's logical-to-physical map for its type |
| Patcher.Kept | yuicat.py:153 | the list after the deletions has at most one line per document line, and it is the whole document when no line is an include |
| Patcher.Logicals | yuicat.py:149-151 | at most one matched name per line, and none when no line is an include (LogicalsNonEmpty gives the converse) |
| Patcher.Resolved | yuicat.py:152-161 | `includes` holds at most one file per matched name (ResolvedFacts gives exactly one when the scan succeeds) |
| Patcher.OtherAfterInclude | yuicat.py:162-164 | only a line of other content can set `past_script`; blank lines, comments and includes never do |
| Patcher.LastMatch | yuicat.py:154 | the insertion index never exceeds the number of kept lines |
| Patcher.FirstErrorFrom | yuicat.py:141-164 | no error exactly when no line aborts the scan; otherwise the error of a line before which none aborts |
| Patcher.ScanLines | yuicat.py:141-164 | the loop terminates (each pass advances the cursor or shortens the list); it fails with the first line's error, or ends with the kept lines, the resolved includes in order and the insertion index |
| Patcher.PatchHtml | yuicat.py:114-181 | patch_html computes the bundle name and element, scans, runs the compressor only when includes were found, and returns exactly the specified outcome |
| Patcher.LogicalsNonEmpty | yuicat.py:168 | the scan collects includes exactly when some line is an include |
| Patcher.ResolvedFacts | yuicat.py:152-161 | after a scan without errors, every include line contributed the file its name resolves to, in order, and no file twice |
| Patcher.ResolvedSource | yuicat.py:158-161 | every collected file is the physical file of some include line |
| Patcher.KeptLength | yuicat.py:153 | every line is either kept or deleted as an include |
| Patcher.KeptFacts | yuicat.py:153 | kept lines are lines of the document and are not includes |
| Patcher.LastMatchAt | yuicat.py:154 | the insertion index is the number of kept lines before the last include |
| Patcher.FlagNeedsInclude | yuicat.py:164 | the ordering flag is set only after an include has been collected |
| Properties.NothingToBundle | yuicat.py:168-181 | a run writes nothing and returns no includes exactly when every line is blank, a comment or other content |
| Properties.ReturnedIncludes | yuicat.py:158-170 | the returned list has one file per include line in document order, each the physical file of that line's name, none twice, and it is what the compressor is given |
| Properties.RewriteShape | yuicat.py:153-171 | with the last include at line i, the rewritten document is the kept lines before i, the bundle element, then every line after i; its length is the original length less the includes plus one; every other line is an original line that is not an include; the backup is the one asked for |
| Properties.DuplicateRejected | yuicat.py:158-160 | two include lines resolving to the same physical file make the run fail |
| Properties.FlagExactly | yuicat.py:162-164 | the ordering flag is set exactly when an include line is followed by a line of other content; blank lines and comments never set it |
| Properties.ScriptAfterContentExactly | yuicat.py:155-157 | a line is rejected for ordering exactly when the run is for scripts, the line is an include that resolves, and an earlier include is followed by other content before it |
| Properties.ScriptAfterContentRejected | yuicat.py:155-157 | include, other content, include makes a script run fail |
| Properties.StylesheetsNeverOutOfOrder | yuicat.py:155 | a stylesheet run never fails on the order of its includes |
| Properties.ReportedLine | yuicat.py:156-160 | a diagnostic's line number is the line's index plus one, less the includes deleted before it |
| Properties.RepeatedIncludeReportedAtFirstLine | yuicat.py:158-160 | the same include on two consecutive lines is reported as included twice at line 1 |
| Properties.CompressorFailureWritesNothing | yuicat.py:168-180 | with a failing compressor nothing is rewritten; the run fails that way, recording the collected files and the output file it gave the compressor, exactly when the scan succeeds and found includes |
| Properties.RerunRejected | yuicat.py:142-144 | in a context that classifies its element as the bundle, scanning a rewritten document fails as already processed |
| Properties.PatchTwiceRejected | yuicat.py:142-144 | patch_html run again with the same type, file and prefix on the document it rewrote fails as already processed |
| Properties.BundleNamesAgree | yuicat.py:133-169 | when the prefix holds no separator: the output file maps to the element's logical name when the physical root has no trailing separator, and the logical name maps to the output file when the logical root has none |
| Properties.ElementIncludesBundle | yuicat.py:134-150 | under an absolute logical root the bundle element matches the include pattern with the bundle's logical name, so only the whole-line test before the search tells it apart |
| Properties.IncludeAfterCommentSkipped | yuicat.py:146-148 | an include on the same line after a comment is skipped with the comment |

## Left out

- yuicompress_files (yuicat.py:80-93) is not modelled beyond its interface. The run records the files, output file and type it would be called with, and the compressor's exit status is a parameter. Launching java, feeding it the files and the bundle's contents are outside the model.
- A failing compressor may leave a partial bundle at the output file. The model records the run it was given in the error but does not model the file's contents.
- Reading the HTML file, writing it back, copying the backup, and reading and restoring its timestamps are file I/O. The model returns the new lines and the backup file name instead.
- The messages `_error` prints to standard error are not modelled. Exiting the process becomes an error value.
- The exception that the already-processed message raises is modelled as that error, because it ends the run at the same point.
- main, option parsing, loading the YAML layout, the glob over the HTML directory and the dump of the include list are driver code. The layout is a parameter, and `DefaultLayout` is the built-in one.
- Only the two include patterns and the comment pattern are modelled, as the matches `re` finds. A general regular-expression engine is not modelled.
- Lines are strings of characters. Python 2 byte strings and their encodings are not modelled.
- Paths.CommonPrefix takes exactly two strings, which is how yuicat.py calls it. Python's `commonprefix` compares the least and greatest of its list, which for two strings gives the same result.
- Patcher.BundleLogicalName and Patcher.BundleOutFile: state the base name only for a prefix without a separator. With a prefix such as `a/b`, join places the bundle in a subdirectory and its base name is `b_<stem>.<type>`, which the contracts do not describe.
- Paths.StemOfJoin and Patcher.BundleNameOf: state the stem only for names `n.x` with a dot-free extension and a stem that is not all dots. The names left out are those whose stem is empty or all dots, such as `.html` or `...html`. They follow splitext's general rule, given by Paths.SplitExt but not pinned by a lemma. The glob over `*.html` in main never returns them, because its `*` does not match a leading dot.
