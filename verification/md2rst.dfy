/**
  The line rewriter that turns a Markdown-style CHANGELOG.md into the
  reStructuredText changelog of REP-0132: `##` headings become titles over-
  and underlined with `^` (the "Sections" part of the reStructuredText Markup
  Specification). On a bullet line, everything from the first `[#` to the
  end of the line becomes an embedded-URI hyperlink `` (`number <url>`_) ``
  (its "Embedded URIs and Aliases" part); the number is what lies between
  `[` and `](`, and the URL is cut two characters before the end of the
  line. Everything else is passed through.

  `ConvertLine` follows the rewriter branch for branch, using the Python
  string operations of `PyStr`; the predicates `IsHeading`, `IsBullet` and the
  first-occurrence predicates give an independent, declarative reading of each
  branch, and the lemmas connect the two.
 */
module Md2Rst {
  import opened PyStr

  /** The issue number of a link `[#...](...)`: from index 1 (the `#`) up to
      the first `](`, or up to the last character when there is none. */
  function Number(link: string): string {
    PySlice(link, 1, Find(link, "]("))
  }

  /** The URL of a link: from the first `https` up to two characters before
      the end, or empty when there is no `https`. */
  function Url(link: string): string {
    PySlice(link, Find(link, "https"), -2)
  }

  /** The three output lines of a heading with the given title. */
  function HeadingPiece(title: string): (piece: string)
    ensures |piece| == 3 * |title| + 3 && piece[|piece| - 1] == '\n'
  {
    var bar := Repeat('^', |title|);
    bar + "\n" + title + "\n" + bar + "\n"
  }

  /** A bullet line with its link replaced by an embedded-URI hyperlink. */
  function LinkPiece(change: string, number: string, url: string): (piece: string)
    ensures |piece| == |change| + |number| + |url| + 9 && piece[|piece| - 1] == '\n'
    ensures piece[..|change|] == change
  {
    change + "(`" + number + " <" + url + ">`_)" + "\n"
  }

  /** A line passed through, with the newline that ends it. */
  function PlainPiece(line: string): (piece: string)
    ensures |piece| == |line| + 1 && piece[|piece| - 1] == '\n'
    ensures piece[..|line|] == line
  {
    line + "\n"
  }

  /** The output for one line read from the legacy file: the line is
      rstripped before any test. The result always ends with a newline: no
      line makes the rewriter fail. */
  function ConvertLine(raw: string): (piece: string)
    ensures |piece| > 0 && piece[|piece| - 1] == '\n'
  {
    var line := RStrip(raw);
    if PySlice(line, 0, 2) == "##" then
      HeadingPiece(Strip(PySlice(line, 2, |line|)))
    else
      ConvertOther(line)
  }

  /** The rewriter on an rstripped line that is not a heading. */
  function ConvertOther(line: string): (piece: string)
    requires line == [] || !IsSpace(line[|line| - 1])
    ensures |piece| > 0 && piece[|piece| - 1] == '\n'
  {
    if line == "\n" || |line| == 0 then
      PlainPiece(line)
    else
      var sline := Strip(line);
      assert |sline| > 0 by { StripNonEmpty(line); }
      if sline[0] != '*' then
        PlainPiece(line)
      else
        ConvertBullet(line)
  }

  /** The rewriter on a bullet line: the issue link, if any, is rewritten. */
  function ConvertBullet(line: string): (piece: string)
    ensures |piece| > 0 && piece[|piece| - 1] == '\n'
  {
    if Find(line, "[#") < 0 then
      PlainPiece(line)
    else
      var change := PySlice(line, 0, Find(line, "[#"));
      var link := PySlice(line, Find(line, "[#"), |line|);
      LinkPiece(change, Number(link), Url(link))
  }

  /** The whole converted document: the pieces of the lines, in order. */
  function ConvertLines(lines: seq<string>): (data: string)
    ensures data == [] <==> lines == []
    ensures lines != [] ==> data[|data| - 1] == '\n'
  {
    if lines == [] then [] else ConvertLine(lines[0]) + ConvertLines(lines[1..])
  }

  // ---------------------------------------------------------------------
  // Declarative reading of the line classes
  // ---------------------------------------------------------------------

  /** A heading line: its first two characters are `##`. */
  predicate IsHeading(line: string) {
    |line| >= 2 && line[0] == '#' && line[1] == '#'
  }

  /** A bullet line: its first character other than whitespace is `*`. */
  ghost predicate IsBullet(line: string) {
    exists k :: 0 <= k < |line| && line[k] == '*' && AllSpace(line[..k])
  }

  lemma HeadingTest(line: string)
    ensures PySlice(line, 0, 2) == "##" <==> IsHeading(line)
  {
    if |line| >= 2 {
      PySliceInRange(line, 0, 2);
      assert line[..2] == [line[0], line[1]];
    }
  }

  /** On an rstripped, non-empty line, the rewriter's bullet test (the first
      character of the stripped line is `*`) is exactly `IsBullet`. */
  lemma BulletTest(line: string)
    requires |line| > 0 && !IsSpace(line[|line| - 1])
    ensures |Strip(line)| > 0
    ensures Strip(line)[0] == '*' <==> IsBullet(line)
  {
    StripNonEmpty(line);
    RStripOfStripped(line);
    LStripRemovesSpace(line);
    var r := LStrip(line);
    var a := |line| - |r|;
    assert r[0] == line[a];
    if r[0] == '*' {
      assert AllSpace(line[..a]);
    }
    if IsBullet(line) {
      var k :| 0 <= k < |line| && line[k] == '*' && AllSpace(line[..k]);
      if k < a {
        assert line[..a][k] == line[k];
      } else if k > a {
        assert line[..k][a] == line[a];
      }
    }
  }

  /** A heading line is never a bullet line: its first character is `#`. */
  lemma HeadingIsNotBullet(line: string)
    ensures IsHeading(line) ==> !IsBullet(line)
  {
    forall k | IsHeading(line) && 0 <= k < |line| && line[k] == '*'
      ensures !AllSpace(line[..k])
    {
      assert k > 0;
      assert line[..k][0] == '#';
    }
  }

  /** A line with something other than whitespace in it produces at least
      two characters. */
  lemma NonBlankPieceIsLong(raw: string)
    requires RStrip(raw) != []
    ensures |ConvertLine(raw)| >= 2
  {
    var line := RStrip(raw);
    HeadingTest(line);
    if IsHeading(line) {
      assert PySlice(line, 0, 2) == "##";
      assert ConvertLine(raw) == HeadingPiece(Strip(PySlice(line, 2, |line|)));
    } else {
      assert PySlice(line, 0, 2) != "##";
      assert ConvertLine(raw) == ConvertOther(line);
      StripNonEmpty(line);
      assert line != "\n" && |line| != 0;
    }
  }

  // ---------------------------------------------------------------------
  // One lemma per branch of the rewriter
  // ---------------------------------------------------------------------

  /** A heading produces three lines: `^` repeated as often as the title is
      long, the title (the rest of the line with surrounding whitespace
      removed), and the same row of `^` again. */
  lemma HeadingLine(raw: string)
    requires IsHeading(RStrip(raw))
    ensures var line := RStrip(raw);
            var title := Strip(line[2..]);
            var bar := Repeat('^', |title|);
            && ConvertLine(raw) == bar + "\n" + title + "\n" + bar + "\n"
            && (title == [] || (!IsSpace(title[0]) && !IsSpace(title[|title| - 1])))
  {
    var line := RStrip(raw);
    HeadingTest(line);
    assert PySlice(line, 0, 2) == "##";
    PySliceInRange(line, 2, |line|);
    assert PySlice(line, 2, |line|) == line[2..];
    assert ConvertLine(raw) == HeadingPiece(Strip(line[2..]));
  }

  /** A line produces a single newline exactly when it is empty or consists
      of whitespace only. */
  lemma BlankLine(raw: string)
    ensures ConvertLine(raw) == "\n" <==> AllSpace(raw)
  {
    var line := RStrip(raw);
    HeadingTest(line);
    RStripRemovesSpace(raw);
    if line == [] {
      assert raw[|line|..] == raw;
      assert ConvertLine(raw) == PlainPiece(line);
    } else {
      assert raw[|line| - 1] == line[|line| - 1];
      NonBlankPieceIsLong(raw);
    }
  }

  /** A line that is neither a heading nor blank, and whose first character
      other than whitespace is not `*`, comes out as the rstripped line. */
  lemma PlainLine(raw: string)
    requires var line := RStrip(raw); line != [] && !IsHeading(line) && !IsBullet(line)
    ensures ConvertLine(raw) == RStrip(raw) + "\n"
  {
    var line := RStrip(raw);
    HeadingTest(line);
    assert PySlice(line, 0, 2) != "##";
    assert ConvertLine(raw) == ConvertOther(line);
    BulletTest(line);
    assert Strip(line)[0] != '*';
    assert line != "\n" && |line| != 0;
    assert ConvertOther(line) == PlainPiece(line);
  }

  /** An rstripped bullet line reaches the link rewriting step. */
  lemma BulletReachesRewrite(raw: string)
    requires IsBullet(RStrip(raw))
    ensures ConvertLine(raw) == ConvertBullet(RStrip(raw))
  {
    var line := RStrip(raw);
    HeadingTest(line);
    HeadingIsNotBullet(line);
    assert PySlice(line, 0, 2) != "##";
    assert ConvertLine(raw) == ConvertOther(line);
    BulletTest(line);
    assert Strip(line)[0] == '*';
    assert line != "\n" && |line| != 0;
  }

  /** A bullet line without an issue marker `[#` comes out as the rstripped
      line. */
  lemma PlainBulletLine(raw: string)
    requires var line := RStrip(raw); IsBullet(line) && !Contains(line, "[#")
    ensures ConvertLine(raw) == RStrip(raw) + "\n"
  {
    BulletReachesRewrite(raw);
    FindAbsent(RStrip(raw), "[#");
  }

  /** A bullet line whose first issue marker `[#` is at `p` keeps its text up
      to `p` verbatim and has the link from `p` on replaced by
      `` (`number <url>`_) ``. */
  lemma LinkedBulletLine(raw: string, p: int)
    requires var line := RStrip(raw); IsBullet(line) && FirstOccurrence(line, "[#", p)
    ensures var line := RStrip(raw);
            var link := line[p..];
            && ConvertLine(raw) == line[..p] + "(`" + Number(link) + " <" + Url(link) + ">`_)\n"
            && ConvertLine(raw)[..p] == line[..p]
  {
    var line := RStrip(raw);
    var link := line[p..];
    var piece := LinkPiece(line[..p], Number(link), Url(link));
    assert ConvertLine(raw) == piece by {
      BulletReachesRewrite(raw);
      FindAt(line, "[#", p);
      BulletSplit(line, p);
    }
  }

  /** The bullet rewrite with the Python slices around the marker spelled as
      ordinary sub-sequences. */
  lemma BulletSplit(line: string, p: int)
    requires Find(line, "[#") == p >= 0
    ensures ConvertBullet(line) == LinkPiece(line[..p], Number(line[p..]), Url(line[p..]))
  {
    assert PySlice(line, 0, p) == line[..p] by { PySliceInRange(line, 0, p); }
    assert PySlice(line, p, |line|) == line[p..] by { PySliceInRange(line, p, |line|); }
  }

  // ---------------------------------------------------------------------
  // The parts of a link, including malformed ones
  // ---------------------------------------------------------------------

  /** With a closing `](` first at `j`, the number is the text between `[`
      and `](`, and it begins with `#`. */
  lemma NumberOfLink(link: string, j: int)
    requires OccursAt(link, "[#", 0) && FirstOccurrence(link, "](", j)
    ensures 2 <= j && Number(link) == link[1..j] && Number(link)[0] == '#'
  {
    assert link[0] == '[' && link[1] == '#';
    assert link[j] == ']';
    FindAt(link, "](", j);
    PySliceInRange(link, 1, j);
  }

  /** Without `](` the number runs up to, but excluding, the last character;
      it still begins with `#` when the link is longer than the marker. */
  lemma NumberWithoutClose(link: string)
    requires OccursAt(link, "[#", 0) && !Contains(link, "](")
    ensures Number(link) == link[1..|link| - 1]
    ensures |link| > 2 ==> Number(link)[0] == '#'
  {
    assert link[0] == '[' && link[1] == '#';
    FindAbsent(link, "](");
    PySliceNegativeEnd(link, 1, 1);
  }

  /** With `https` first at `k`, the URL runs from there up to two characters
      before the end, so it is at least three characters long. */
  lemma UrlOfLink(link: string, k: int)
    requires FirstOccurrence(link, "https", k)
    ensures Url(link) == link[k..|link| - 2]
    ensures |Url(link)| == |link| - 2 - k >= 3
  {
    FindAt(link, "https", k);
    PySliceNegativeEnd(link, k, 2);
  }

  /** Without `https` the URL is empty. */
  lemma UrlWithoutScheme(link: string)
    requires !Contains(link, "https")
    ensures Url(link) == []
  {
    FindAbsent(link, "https");
  }

  // ---------------------------------------------------------------------
  // Whole files: splitting into lines and the shape of the output
  // ---------------------------------------------------------------------

  /** The lines of a file opened in binary mode, as Python's iteration over
      it yields them: each piece ends just after a newline, and a last piece
      without one is kept when it is non-empty. */
  function SplitLines(content: string): (lines: seq<string>)
    ensures Concat(lines) == content
    ensures FileLines(lines)
    decreases |content|
  {
    if content == [] then []
    else
      FirstNewline(content);
      var k := Find(content, "\n");
      if k < 0 then
        [content]
      else
        var head := content[..k + 1];
        var rest := SplitLines(content[k + 1..]);
        assert FileLines([head] + rest) by {
          assert forall j :: 0 <= j < k ==> head[j] == content[..k][j];
          FileLinesCons(head, rest);
        }
        assert Concat([head] + rest) == content by {
          assert ([head] + rest)[1..] == rest;
          assert content == head + content[k + 1..];
        }
        [head] + rest
  }

  /** Lines as a binary-mode file yields them: none is empty, a newline only
      ends a line, and every line but the last ends with one. */
  predicate FileLines(lines: seq<string>) {
    forall i :: 0 <= i < |lines| ==>
      && lines[i] != [] && IsFileLine(lines[i])
      && (i < |lines| - 1 ==> lines[i][|lines[i]| - 1] == '\n')
  }

  lemma FileLinesCons(head: string, rest: seq<string>)
    requires head != [] && IsFileLine(head) && head[|head| - 1] == '\n'
    requires FileLines(rest)
    ensures FileLines([head] + rest)
  {
    var lines := [head] + rest;
    forall i | 0 < i < |lines| ensures lines[i] == rest[i - 1] {
    }
  }

  /** Where the first newline of a text is: nowhere, or at `find`'s index
      with none before it. */
  lemma FirstNewline(content: string)
    ensures var k := Find(content, "\n");
            && (k < 0 ==> NoNewline(content))
            && (k >= 0 ==> k < |content| && content[k] == '\n' && NoNewline(content[..k]))
  {
    var k := Find(content, "\n");
    FindIsFirst(content, "\n");
    if k < 0 {
      forall q | 0 <= q < |content| ensures content[q] != '\n' {
        OccursAtChar(content, '\n', q);
      }
    } else {
      OccursAtChar(content, '\n', k);
      forall q | 0 <= q < k ensures content[..k][q] != '\n' {
        OccursAtChar(content, '\n', q);
      }
    }
  }

  /** The lines joined back together. */
  function Concat(lines: seq<string>): string {
    if lines == [] then [] else lines[0] + Concat(lines[1..])
  }

  /** A line as a binary-mode file yields it: a newline can only be its last
      character. */
  predicate IsFileLine(raw: string) {
    forall k :: 0 <= k < |raw| - 1 ==> raw[k] != '\n'
  }

  predicate NoNewline(s: string) {
    forall k :: 0 <= k < |s| ==> s[k] != '\n'
  }

  /** The rewriter on a whole legacy file. */
  function ConvertFile(content: string): string {
    ConvertLines(SplitLines(content))
  }

  /** How often `c` occurs in `s`. */
  function Count(s: string, c: char): (n: nat)
    ensures n <= |s|
  {
    if s == [] then 0 else (if s[0] == c then 1 else 0) + Count(s[1..], c)
  }

  /** How many lines are headings once rstripped. */
  function HeadingCount(lines: seq<string>): (n: nat)
    ensures n <= |lines|
  {
    if lines == [] then 0
    else (if IsHeading(RStrip(lines[0])) then 1 else 0) + HeadingCount(lines[1..])
  }

  lemma {:induction false} CountAppend(a: string, b: string, c: char)
    ensures Count(a + b, c) == Count(a, c) + Count(b, c)
  {
    if a == [] {
      assert a + b == b;
    } else {
      assert (a + b)[1..] == a[1..] + b;
      CountAppend(a[1..], b, c);
    }
  }

  lemma {:induction false} CountNoNewline(s: string)
    requires NoNewline(s)
    ensures Count(s, '\n') == 0
  {
    if s != [] {
      CountNoNewline(s[1..]);
    }
  }

  /** A newline-free text followed by one newline has exactly one. */
  lemma CountOneLine(s: string)
    requires NoNewline(s)
    ensures Count(s + "\n", '\n') == 1
  {
    CountAppend(s, "\n", '\n');
    CountNoNewline(s);
  }

  lemma NoNewlineSlice(s: string, i: int, j: int)
    requires NoNewline(s)
    ensures NoNewline(PySlice(s, i, j))
  {
    PySliceElements(s, i, j);
  }

  lemma NoNewlineAfterRStrip(raw: string)
    requires IsFileLine(raw)
    ensures NoNewline(RStrip(raw))
  {
    var line := RStrip(raw);
    forall k | 0 <= k < |line| ensures line[k] != '\n' {
      assert line[k] == raw[k];
    }
  }

  lemma NoNewlineStrip(s: string)
    requires NoNewline(s)
    ensures NoNewline(Strip(s))
  {
    var t := RStrip(s);
    var r := LStrip(t);
    forall k | 0 <= k < |r| ensures r[k] != '\n' {
      assert r[k] == t[|t| - |r| + k] == s[|t| - |r| + k];
    }
  }

  /** The heading piece holds exactly three newlines. */
  lemma HeadingPieceNewlines(title: string)
    requires NoNewline(title)
    ensures Count(HeadingPiece(title), '\n') == 3
  {
    var bar := Repeat('^', |title|);
    CountOneLine(bar);
    CountOneLine(title);
    CountAppend(bar + "\n", title + "\n", '\n');
    assert HeadingPiece(title) == (bar + "\n") + (title + "\n") + (bar + "\n");
    CountAppend((bar + "\n") + (title + "\n"), bar + "\n", '\n');
  }

  /** A rewritten bullet holds its newline at the end and nowhere else. */
  lemma LinkPieceNewlines(change: string, number: string, url: string)
    requires NoNewline(change) && NoNewline(number) && NoNewline(url)
    ensures IsFileLine(LinkPiece(change, number, url))
    ensures Count(LinkPiece(change, number, url), '\n') == 1
  {
    var body := change + "(`" + number + " <" + url + ">`_)";
    assert NoNewline(body);
    assert LinkPiece(change, number, url) == body + "\n";
    CountOneLine(body);
  }

  lemma PlainPieceNewlines(line: string)
    requires NoNewline(line)
    ensures IsFileLine(PlainPiece(line))
    ensures Count(PlainPiece(line), '\n') == 1
  {
    CountOneLine(line);
  }

  lemma HeadingPieceLineNewlines(raw: string)
    requires IsFileLine(raw) && IsHeading(RStrip(raw))
    ensures Count(ConvertLine(raw), '\n') == 3
  {
    var line := RStrip(raw);
    NoNewlineAfterRStrip(raw);
    var title := Strip(line[2..]);
    assert NoNewline(title) by {
      assert NoNewline(line[2..]);
      NoNewlineStrip(line[2..]);
    }
    HeadingPieceNewlines(title);
    HeadingLine(raw);
  }

  lemma BulletPieceNewlines(line: string)
    requires NoNewline(line)
    ensures IsFileLine(ConvertBullet(line)) && Count(ConvertBullet(line), '\n') == 1
  {
    var p := Find(line, "[#");
    if p < 0 {
      PlainPieceNewlines(line);
    } else {
      var link := line[p..];
      BulletSplit(line, p);
      assert NoNewline(line[..p]) && NoNewline(link);
      NoNewlineSlice(link, 1, Find(link, "]("));
      NoNewlineSlice(link, Find(link, "https"), -2);
      LinkPieceNewlines(line[..p], Number(link), Url(link));
    }
  }

  /** The piece for a file line: three newline-terminated lines for a
      heading, one for any other line, and no newline anywhere else. */
  lemma PieceNewlines(raw: string)
    requires IsFileLine(raw)
    ensures Count(ConvertLine(raw), '\n') == if IsHeading(RStrip(raw)) then 3 else 1
    ensures !IsHeading(RStrip(raw)) ==> IsFileLine(ConvertLine(raw))
  {
    var line := RStrip(raw);
    NoNewlineAfterRStrip(raw);
    if IsHeading(line) {
      HeadingPieceLineNewlines(raw);
    } else if line == [] {
      BlankLine(raw);
      PlainPieceNewlines(line);
    } else if !IsBullet(line) {
      PlainLine(raw);
      PlainPieceNewlines(line);
    } else {
      BulletReachesRewrite(raw);
      BulletPieceNewlines(line);
    }
  }

  /** Converting two runs of lines one after the other is converting their
      concatenation. */
  lemma {:induction false} ConvertLinesAppend(a: seq<string>, b: seq<string>)
    ensures ConvertLines(a + b) == ConvertLines(a) + ConvertLines(b)
  {
    if a == [] {
      assert a + b == b;
    } else {
      assert (a + b)[0] == a[0];
      assert (a + b)[1..] == a[1..] + b;
      ConvertLinesAppend(a[1..], b);
    }
  }

  /** The output has one newline per input line, plus two more per heading. */
  lemma {:induction false} ConvertLinesNewlines(lines: seq<string>)
    requires forall i :: 0 <= i < |lines| ==> IsFileLine(lines[i])
    ensures Count(ConvertLines(lines), '\n') == |lines| + 2 * HeadingCount(lines)
  {
    if lines != [] {
      PieceNewlines(lines[0]);
      ConvertLinesNewlines(lines[1..]);
      CountAppend(ConvertLine(lines[0]), ConvertLines(lines[1..]), '\n');
    }
  }

  /** A file with `n` newlines splits into `n` lines, plus one when it does
      not end with a newline. */
  lemma {:induction false} SplitLinesCount(content: string)
    ensures |SplitLines(content)| ==
            Count(content, '\n') + (if content != [] && content[|content| - 1] != '\n' then 1 else 0)
    decreases |content|
  {
    if content != [] {
      FirstNewline(content);
      var k := Find(content, "\n");
      if k < 0 {
        CountNoNewline(content);
      } else {
        var tail := content[k + 1..];
        SplitLinesStep(content, k);
        CountFirstLine(content, k);
        SplitLinesCount(tail);
        assert tail != [] ==> tail[|tail| - 1] == content[|content| - 1];
      }
    }
  }

  /** Splitting takes off the text up to the first newline as one line. */
  lemma SplitLinesStep(content: string, k: int)
    requires content != [] && Find(content, "\n") == k >= 0
    ensures SplitLines(content) == [content[..k + 1]] + SplitLines(content[k + 1..])
    ensures |SplitLines(content)| == 1 + |SplitLines(content[k + 1..])|
  {
  }

  /** A text whose first newline is at `k` has one newline more than what
      follows it. */
  lemma CountFirstLine(content: string, k: int)
    requires 0 <= k < |content| && content[k] == '\n' && NoNewline(content[..k])
    ensures Count(content, '\n') == 1 + Count(content[k + 1..], '\n')
  {
    var head, tail := content[..k + 1], content[k + 1..];
    assert head == content[..k] + "\n";
    CountOneLine(content[..k]);
    assert content == head + tail;
    CountAppend(head, tail, '\n');
  }

  /** The converted file has at least as many lines as the legacy one: one
      per line read, plus two more per heading. */
  lemma ConvertFileNewlines(content: string)
    ensures Count(ConvertFile(content), '\n') ==
            |SplitLines(content)| + 2 * HeadingCount(SplitLines(content))
    ensures Count(ConvertFile(content), '\n') >= Count(content, '\n')
  {
    ConvertLinesNewlines(SplitLines(content));
    SplitLinesCount(content);
  }
}
