/**
 * The include elements yuicat.py recognises and writes, and the two
 * regular expressions it scans lines with, written out as the matches
 * Python's `re` engine finds for them.
 */
module Tags {
  import opened Wrappers
  import opened Paths
  import opened Resolver

  const ScriptOpen: string := "<script type=\"text/javascript\" src=\""
  const ScriptClose: string := "\"></script>\n"
  const LinkOpen: string := "<link rel=\"stylesheet\" href=\""
  const LinkClose: string := "\">\n"

  /** The part of the element template before the file name. */
  function Open(t: FileType): string {
    match t
    case Js => ScriptOpen
    case Css => LinkOpen
  }

  /** The part of the element template after the file name, ending the line. */
  function Close(t: FileType): string {
    match t
    case Js => ScriptClose
    case Css => LinkClose
  }

  /** element_template[t] % path: the one-line include element for `path`. */
  function Tag(t: FileType, path: string): string {
    Open(t) + path + Close(t)
  }

  /** The element is one line: it ends with the only newline it holds when the name holds none. */
  lemma TagOneLine(t: FileType, path: string)
    ensures var r := Tag(t, path);
      |r| > 0 && r[|r| - 1] == '\n' && ('\n' !in path ==> '\n' !in r[..|r| - 1])
  {
    var o, c := Open(t), Close(t);
    assert '\n' !in o && '\n' !in c[..|c| - 1];
    var r := o + path + c;
    assert r[..|r| - 1] == o + path + c[..|c| - 1];
  }

  /** The template ends its opening part with the double quote that starts the name. */
  lemma OpenEndsWithQuote(t: FileType)
    ensures |Open(t)| > 0 && Open(t)[|Open(t)| - 1] == '"'
  {
  }

  /**
   * A file name the include pattern's group accepts: a separator, at least
   * one more character, then the type's extension, and no double quote.
   */
  predicate ValidPath(t: FileType, p: string) {
    var ext := "." + t.Name();
    |p| >= |ext| + 2 && p[0] == '/' && '"' !in p && EndsWith(p, ext)
  }

  /** The element for `p` is written in `line` starting at index `i`. */
  predicate OccursAt(t: FileType, line: string, i: nat, p: string) {
    i + |Tag(t, p)| <= |line| && line[i..i + |Tag(t, p)|] == Tag(t, p)
  }

  /** Three adjacent slices of a string make up the slice that spans them. */
  lemma SlicesConcat(line: string, s: nat, a: string, b: string, c: string)
    requires s + |a| + |b| + |c| <= |line|
    ensures line[s..s + |a| + |b| + |c|] == a + b + c
      <==> (line[s..s + |a|] == a && line[s + |a|..s + |a| + |b|] == b
            && line[s + |a| + |b|..s + |a| + |b| + |c|] == c)
  {
    var w := line[s..s + |a| + |b| + |c|];
    assert w[..|a|] == line[s..s + |a|];
    assert w[|a|..|a| + |b|] == line[s + |a|..s + |a| + |b|] by {
      var u := w[|a|..|a| + |b|];
      forall i | 0 <= i < |b| ensures u[i] == line[s + |a|..s + |a| + |b|][i] {
        assert u[i] == w[|a| + i];
      }
    }
    assert w[|a| + |b|..] == line[s + |a| + |b|..s + |a| + |b| + |c|];
    if w == a + b + c {
      assert w[..|a|] == a && w[|a|..|a| + |b|] == b && w[|a| + |b|..] == c;
    }
    if w[..|a|] == a && w[|a|..|a| + |b|] == b && w[|a| + |b|..] == c {
      assert w == w[..|a|] + w[|a|..|a| + |b|] + w[|a| + |b|..];
    }
  }

  /** The first double quote at or after index `k`, if any. */
  function FirstQuote(line: string, k: nat): (r: Option<nat>)
    decreases |line| - k
    ensures r.Some? ==> k <= r.value < |line| && line[r.value] == '"'
    ensures r.Some? ==> forall i :: k <= i < r.value ==> line[i] != '"'
    ensures r.None? ==> forall i :: k <= i < |line| ==> line[i] != '"'
  {
    if k >= |line| then None
    else if line[k] == '"' then Some(k)
    else FirstQuote(line, k + 1)
  }

  /**
   * The include pattern tried at position `s`. The `[^"]+` run cannot pass a
   * double quote and the extension must be followed by one, so the only
   * candidate for the group ends at the first double quote after its
   * leading separator.
   */
  function MatchAt(t: FileType, line: string, s: nat): (r: Option<string>)
    requires s <= |line|
    ensures r.Some? ==> ValidPath(t, r.value) && OccursAt(t, line, s, r.value)
  {
    var o := Open(t);
    if |line| - s < |o| || line[s..s + |o|] != o then None
    else
      var b := s + |o|;
      match FirstQuote(line, b + 1)
      case None => None
      case Some(q) =>
        var path := line[b..q];
        var c := Close(t);
        if ValidPath(t, path) && c <= line[q..] then
          OccursWhen(t, line, s, q);
          Some(path)
        else None
  }

  /** The opening part at `s`, a name up to `q`, then the closing part: the element occurs at `s`. */
  lemma OccursWhen(t: FileType, line: string, s: nat, q: nat)
    requires s + |Open(t)| <= q <= |line| && line[s..s + |Open(t)|] == Open(t)
    requires Close(t) <= line[q..]
    ensures OccursAt(t, line, s, line[s + |Open(t)|..q])
  {
    var o, c := Open(t), Close(t);
    var path := line[s + |o|..q];
    assert line[q..q + |c|] == c;
    SlicesConcat(line, s, o, path, c);
  }

  /** re.search from position `s` on: the leftmost position where the pattern matches. */
  function SearchFrom(t: FileType, line: string, s: nat): (r: Option<string>)
    requires s <= |line|
    decreases |line| - s
    ensures r.Some? ==> ValidPath(t, r.value)
    ensures r.Some? ==> exists i :: s <= i && OccursAt(t, line, i, r.value)
  {
    match MatchAt(t, line, s)
    case Some(p) => Some(p)
    case None => if s == |line| then None else SearchFrom(t, line, s + 1)
  }

  /** The pattern matches at no position from `s` up to, not including, `e`. */
  predicate NoMatchBetween(t: FileType, line: string, s: nat, e: nat)
    requires e <= |line| + 1
    decreases e - s
  {
    s >= e || (MatchAt(t, line, s).None? && NoMatchBetween(t, line, s + 1, e))
  }

  /** re.search from `s` finds nothing exactly when the pattern matches at no position. */
  lemma {:induction false} SearchNone(t: FileType, line: string, s: nat)
    requires s <= |line|
    decreases |line| - s
    ensures SearchFrom(t, line, s).None? <==> NoMatchBetween(t, line, s, |line| + 1)
  {
    if MatchAt(t, line, s).None? && s < |line| {
      SearchNone(t, line, s + 1);
    }
  }

  /** re.search from `s` returns the match at the leftmost position where the pattern matches. */
  lemma {:induction false} SearchLeftmost(t: FileType, line: string, s: nat)
    requires s <= |line|
    decreases |line| - s
    ensures var r := SearchFrom(t, line, s);
      r.Some? ==> exists i :: s <= i <= |line| && MatchAt(t, line, i) == r && NoMatchBetween(t, line, s, i)
  {
    if MatchAt(t, line, s).None? && s < |line| {
      SearchLeftmost(t, line, s + 1);
      var r := SearchFrom(t, line, s + 1);
      if r.Some? {
        var i :| s + 1 <= i <= |line| && MatchAt(t, line, i) == r && NoMatchBetween(t, line, s + 1, i);
        assert NoMatchBetween(t, line, s, i);
      }
    }
  }

  /**
   * regex[t].search(line).group(1), or None when the line holds no include:
   * the name matched at the leftmost position where the pattern matches.
   */
  function MatchTag(t: FileType, line: string): (r: Option<string>)
    ensures r.Some? ==> ValidPath(t, r.value)
    ensures r.Some? ==> exists i :: 0 <= i <= |line| && MatchAt(t, line, i) == r && NoMatchBetween(t, line, 0, i)
    ensures r.None? <==> NoMatchBetween(t, line, 0, |line| + 1)
  {
    SearchLeftmost(t, line, 0);
    SearchNone(t, line, 0);
    SearchFrom(t, line, 0)
  }

  /** An include element written at position `s` is matched there, with its own file name. */
  lemma MatchAtTag(t: FileType, line: string, s: nat, p: string)
    requires ValidPath(t, p) && OccursAt(t, line, s, p)
    ensures MatchAt(t, line, s) == Some(p)
  {
    var o, c := Open(t), Close(t);
    SlicesConcat(line, s, o, p, c);
    CloseStartsWithQuote(t);
    var b := s + |o|;
    QuoteEndsPath(line, b, p, c);
    MatchAtWhen(t, line, s, b + |p|);
  }

  /**
   * A name without double quotes written at `b` and followed by a text that
   * starts with one: the first double quote after `b` ends the name.
   */
  lemma QuoteEndsPath(line: string, b: nat, p: string, c: string)
    requires b + |p| + |c| <= |line| && p != [] && '"' !in p && c != [] && c[0] == '"'
    requires line[b..b + |p|] == p && line[b + |p|..b + |p| + |c|] == c
    ensures FirstQuote(line, b + 1) == Some(b + |p|)
    ensures line[b..b + |p|] == p && c <= line[b + |p|..]
  {
    var q := b + |p|;
    assert line[q] == c[0];
    forall i | b + 1 <= i < q ensures line[i] != '"' {
      assert line[i] == line[b..q][i - b];
    }
    FirstQuoteAt(line, b + 1, q);
    assert line[q..][..|c|] == c;
  }

  /** The conditions under which the pattern matches at `s` with the group ending at `q`. */
  lemma MatchAtWhen(t: FileType, line: string, s: nat, q: nat)
    requires s + |Open(t)| <= |line| && line[s..s + |Open(t)|] == Open(t)
    requires FirstQuote(line, s + |Open(t)| + 1) == Some(q)
    requires ValidPath(t, line[s + |Open(t)|..q]) && Close(t) <= line[q..]
    ensures MatchAt(t, line, s) == Some(line[s + |Open(t)|..q])
  {
  }

  lemma CloseStartsWithQuote(t: FileType)
    ensures |Close(t)| > 0 && Close(t)[0] == '"'
  {
  }

  /** The first double quote from `k` on is the one at `q` when none comes before it. */
  lemma FirstQuoteAt(line: string, k: nat, q: nat)
    requires k <= q < |line| && line[q] == '"'
    requires forall i :: k <= i < q ==> line[i] != '"'
    ensures FirstQuote(line, k) == Some(q)
  {
  }

  /** In a line whose only newline ends it, an element written in it ends it too. */
  lemma OneLineEnd(t: FileType, line: string, i: nat, p: string)
    requires OccursAt(t, line, i, p)
    requires line != [] && '\n' !in line[..|line| - 1]
    ensures i + |Tag(t, p)| == |line|
  {
    var tag := Tag(t, p);
    TagOneLine(t, p);
    var e := i + |tag|;
    assert line[e - 1] == tag[|tag| - 1];
    forall j | 0 <= j < |line| - 1 ensures line[j] != '\n' {
      assert line[j] == line[..|line| - 1][j];
    }
  }

  /**
   * In a line whose only newline ends it, no match starts before an element:
   * the name of such a match would have to run over the element's opening
   * double quote.
   */
  lemma NoMatchBefore(t: FileType, line: string, s: nat, i: nat, p: string)
    requires s < i
    requires ValidPath(t, p) && OccursAt(t, line, i, p)
    requires line != [] && '\n' !in line[..|line| - 1]
    ensures MatchAt(t, line, s).None?
  {
    if MatchAt(t, line, s).Some? {
      var q := MatchAt(t, line, s).value;
      QuoteInMatch(t, line, s, i, p, q);
      assert false;
    }
  }

  /** A match starting before an element that ends the line holds that element's opening quote. */
  lemma QuoteInMatch(t: FileType, line: string, s: nat, i: nat, p: string, q: string)
    requires s < i
    requires OccursAt(t, line, i, p) && OccursAt(t, line, s, q)
    requires line != [] && '\n' !in line[..|line| - 1]
    ensures '"' in q
  {
    OneLineEnd(t, line, i, p);
    OneLineEnd(t, line, s, q);
    OpenEndsWithQuote(t);
    var o, c := Open(t), Close(t);
    SlicesConcat(line, s, o, q, c);
    SlicesConcat(line, i, o, p, c);
    var k := i + |o| - 1;
    assert line[k] == line[i..i + |o|][|o| - 1] == '"';
    assert s + |o| <= k < s + |o| + |q|;
    assert q[k - s - |o|] == line[s + |o|..s + |o| + |q|][k - s - |o|] == line[k];
  }

  /**
   * In a line as readlines returns it, whose only newline ends it, the search
   * returns the name of the element written in it.
   */
  lemma {:induction false} SearchFindsTag(t: FileType, line: string, s: nat, i: nat, p: string)
    requires s <= i
    requires ValidPath(t, p) && OccursAt(t, line, i, p)
    requires line != [] && '\n' !in line[..|line| - 1]
    decreases i - s
    ensures SearchFrom(t, line, s) == Some(p)
  {
    if s == i {
      MatchAtTag(t, line, i, p);
    } else {
      NoMatchBefore(t, line, s, i, p);
      SearchFindsTag(t, line, s + 1, i, p);
    }
  }

  /** An indented include line yields the name it includes. */
  lemma IndentedTag(t: FileType, w: string, p: string)
    requires ValidPath(t, p) && '\n' !in w && '\n' !in p
    ensures MatchTag(t, w + Tag(t, p)) == Some(p)
  {
    var line := w + Tag(t, p);
    TagOneLine(t, p);
    assert line[|w|..|w| + |Tag(t, p)|] == Tag(t, p);
    assert line[..|line| - 1] == w + Tag(t, p)[..|Tag(t, p)| - 1];
    SearchFindsTag(t, line, 0, |w|, p);
  }

  /** Matching the element written for a valid file name gives that file name back. */
  lemma TagRoundTrip(t: FileType, p: string)
    requires ValidPath(t, p)
    ensures MatchTag(t, Tag(t, p)) == Some(p)
  {
    var line := Tag(t, p);
    assert line[0..|line|] == line;
    MatchAtTag(t, line, 0, p);
  }

  /** The `\s` class of Python's `re` on byte strings. */
  predicate IsSpace(c: char) {
    c == ' ' || c == '\t' || c == '\n' || c == '\r' || c == '\U{000B}' || c == '\U{000C}'
  }

  /** The length of the run of white space that starts the line. */
  function LeadingSpace(s: string): (n: nat)
    ensures n <= |s|
    ensures forall i :: 0 <= i < n ==> IsSpace(s[i])
    ensures n < |s| ==> !IsSpace(s[n])
  {
    if s != [] && IsSpace(s[0]) then 1 + LeadingSpace(s[1..]) else 0
  }

  /** `.*-->` from index `i`: a "-->" follows before any newline. */
  predicate ClosesOnLine(s: string, i: nat)
    decreases |s| - i
  {
    i + 3 <= |s| && (s[i..i + 3] == "-->" || (s[i] != '\n' && ClosesOnLine(s, i + 1)))
  }

  /**
   * html_comment.match(line): anchored at the start only, so the line is a
   * comment when, after leading white space, it opens a comment that closes
   * on the same line; whatever follows the close is ignored.
   */
  predicate IsComment(line: string) {
    var rest := line[LeadingSpace(line)..];
    "<!--" <= rest && ClosesOnLine(rest, 4)
  }

  /** An include element is neither a blank line nor a comment. */
  lemma TagIsNotComment(t: FileType, p: string)
    ensures Tag(t, p) != "\n"
    ensures !IsComment(Tag(t, p))
  {
    var line := Tag(t, p);
    assert line[0] == '<' && line[1] != '!';
    assert LeadingSpace(line) == 0;
  }

  /** A "-->" at `k`, with no newline between `i` and `k`, closes the comment. */
  lemma {:induction false} ClosesAt(s: string, i: nat, k: nat)
    requires i <= k && k + 3 <= |s| && s[k..k + 3] == "-->"
    requires forall j :: i <= j < k ==> s[j] != '\n'
    decreases k - i
    ensures ClosesOnLine(s, i)
  {
    if i < k {
      ClosesAt(s, i + 1, k);
    }
  }

  /** No newline in `s` from index `i` up to, not including, `k`. */
  predicate NoNewline(s: string, i: nat, k: nat)
    requires i <= k <= |s|
  {
    forall j :: i <= j < k ==> s[j] != '\n'
  }

  /** `.*-->` matches from `i` exactly when a "-->" follows with no newline before it. */
  lemma {:induction false} ClosesExactly(s: string, i: nat)
    decreases |s| - i
    ensures ClosesOnLine(s, i) <==>
      exists k :: i <= k && k + 3 <= |s| && s[k..k + 3] == "-->" && NoNewline(s, i, k)
  {
    if exists k :: i <= k && k + 3 <= |s| && s[k..k + 3] == "-->" && NoNewline(s, i, k) {
      var k :| i <= k && k + 3 <= |s| && s[k..k + 3] == "-->" && NoNewline(s, i, k);
      ClosesAt(s, i, k);
    }
    if ClosesOnLine(s, i) {
      if s[i..i + 3] == "-->" {
        assert NoNewline(s, i, i);
      } else {
        ClosesExactly(s, i + 1);
        var k :| i + 1 <= k && k + 3 <= |s| && s[k..k + 3] == "-->" && NoNewline(s, i + 1, k);
        assert NoNewline(s, i, k);
      }
    }
  }

  /**
   * html_comment.match(line) succeeds exactly when, after its leading white
   * space, the line opens a comment and a "-->" follows before any newline.
   */
  lemma CommentExactly(line: string)
    ensures var rest := line[LeadingSpace(line)..];
      IsComment(line) <==>
        ("<!--" <= rest
         && exists k :: 4 <= k && k + 3 <= |rest| && rest[k..k + 3] == "-->" && NoNewline(rest, 4, k))
  {
    ClosesExactly(line[LeadingSpace(line)..], 4);
  }

  /** The leading white space of a line is exactly the run before its first other character. */
  lemma LeadingSpaceOf(w: string, rest: string)
    requires forall i :: 0 <= i < |w| ==> IsSpace(w[i])
    requires rest != [] && !IsSpace(rest[0])
    ensures LeadingSpace(w + rest) == |w|
  {
    assert (w + rest)[|w|] == rest[0];
    assert forall i :: 0 <= i < |w| ==> (w + rest)[i] == w[i];
  }

  /**
   * White space, a comment opened and closed on the line, then anything at
   * all: html_comment.match accepts the line.
   */
  lemma CommentLine(w: string, body: string, tail: string)
    requires forall i :: 0 <= i < |w| ==> IsSpace(w[i])
    requires '\n' !in body
    ensures IsComment(w + "<!--" + body + "-->" + tail)
  {
    var rest := "<!--" + body + "-->" + tail;
    var line := w + "<!--" + body + "-->" + tail;
    assert line == w + rest;
    LeadingSpaceOf(w, rest);
    assert line[|w|..] == rest;
    var k := 4 + |body|;
    assert rest[k..k + 3] == "-->";
    forall j | 4 <= j < k ensures rest[j] != '\n' {
      assert rest[j] == body[j - 4];
    }
    ClosesAt(rest, 4, k);
  }
}
