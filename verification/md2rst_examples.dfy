/**
  Concrete conversions of single lines, worked out from the general lemmas of
  `Md2Rst`. They show the rewriter's behaviour as written: the issue number
  keeps its `#`, and the URL loses its last character together with the
  closing parenthesis.

  Each example receives its line as a parameter fixed by `requires`, and long
  lines are written as concatenations of short literals: the verifier expands
  a function applied to a literal argument without bound and reasons about
  short literals far more cheaply than about long ones.
 */
module Md2RstExamples {
  import opened PyStr
  import opened Md2Rst

  /** `## Changes` becomes `^^^^^^^`, `Changes`, `^^^^^^^`. */
  lemma ExampleHeading(line: string)
    requires line == "## Changes"
    ensures ConvertLine(line) == "^^^^^^^" + "\n" + "Changes" + "\n" + "^^^^^^^" + "\n"
  {
    assert ConvertLine(line) == HeadingPiece(Strip(line[2..])) by {
      RStripOfStripped(line);
      HeadingLine(line);
    }
    ExampleHeadingTitle(line[2..]);
    ExampleHeadingPiece(Strip(line[2..]));
  }

  lemma ExampleHeadingTitle(rest: string)
    requires rest == " Changes"
    ensures Strip(rest) == "Changes"
  {
    assert rest[0] == ' ' && rest[1..] == "Changes";
    RStripOfStripped(rest);
    LStripOfStripped(rest[1..]);
  }

  lemma ExampleHeadingPiece(title: string)
    requires title == "Changes"
    ensures HeadingPiece(title) == "^^^^^^^" + "\n" + "Changes" + "\n" + "^^^^^^^" + "\n"
  {
    assert Repeat('^', 7) == "^^^^^^^";
  }

  /** A bare `##` is a heading with an empty title: three empty lines. */
  lemma ExampleBareHeading(line: string)
    requires line == "##"
    ensures ConvertLine(line) == "\n\n\n"
  {
    assert ConvertLine(line) == HeadingPiece(Strip(line[2..])) by {
      RStripOfStripped(line);
      HeadingLine(line);
    }
    assert Strip(line[2..]) == [] by {
      assert line[2..] == [];
    }
    ExampleEmptyHeadingPiece(Strip(line[2..]));
  }

  lemma ExampleEmptyHeadingPiece(title: string)
    requires title == []
    ensures HeadingPiece(title) == "\n\n\n"
  {
    assert Repeat('^', 0) == [];
  }

  /** A bullet without a link is passed through. */
  lemma ExamplePlainBullet(line: string)
    requires line == "* Updated dependency"
    ensures ConvertLine(line) == "* Updated dependency\n"
  {
    RStripOfStripped(line);
    assert line[..0] == [];
    assert IsBullet(line);
    AbsentByChar(line, "[#");
    PlainBulletLine(line);
  }

  /** For `[#42](https://example.com/issues/42)` the number is `#42` and the
      URL loses its final `2`. */
  lemma ExampleLinkParts(link: string)
    requires link == "[#42](" + "https://example.com/" + "issues/42)"
    ensures Number(link) == "#42"
    ensures Url(link) == "https://example.com/" + "issues/4"
  {
    assert link[4..6] == "](";
    FirstOccurrenceByChar(link, "](", 4);
    NumberOfLink(link, 4);
    assert link[1..4] == "#42";
    assert link[6..11] == "https";
    FirstOccurrenceByChar(link, "https", 6);
    UrlOfLink(link, 6);
    assert link[6..|link| - 2] == "https://example.com/" + "issues/4";
  }

  /** For a link wrapped in parentheses, as in `([#42](url))`, the two
      characters dropped are both parentheses and the URL is exact. */
  lemma ExampleWrappedLinkUrl(link: string)
    requires link == "[#42](" + "https://example.com/" + "issues/42))"
    ensures Url(link) == "https://example.com/" + "issues/42"
  {
    assert link[..6] == "[#42](";
    assert link[6..11] == "https";
    FirstOccurrenceByChar(link, "https", 6);
    UrlOfLink(link, 6);
    assert link[6..|link| - 2] == "https://example.com/" + "issues/42";
  }

  lemma ExampleLinkedBulletShape(line: string)
    requires line == "* Fixed bug " + "[#42](" + "https://example.com/" + "issues/42)"
    ensures IsBullet(line) && FirstOccurrence(line, "[#", 12)
  {
    assert line[..0] == [];
    assert line[12..14] == "[#";
    FirstOccurrenceByChar(line, "[#", 12);
  }

  /** `* Fixed bug [#42](https://example.com/issues/42)` becomes
      ``* Fixed bug (`#42 <https://example.com/issues/4>`_)``. */
  lemma ExampleIssueLink(line: string)
    requires line == "* Fixed bug " + "[#42](" + "https://example.com/" + "issues/42)"
    ensures ConvertLine(line) == LinkPiece("* Fixed bug ", "#42", "https://example.com/" + "issues/4")
  {
    var link := line[12..];
    var change := line[..12];
    assert change == "* Fixed bug ";
    assert Number(link) == "#42" && Url(link) == "https://example.com/" + "issues/4" by {
      assert link == "[#42](" + "https://example.com/" + "issues/42)";
      ExampleLinkParts(link);
    }
    assert ConvertLine(line) == LinkPiece(change, Number(link), Url(link)) by {
      RStripOfStripped(line);
      ExampleLinkedBulletShape(line);
      LinkedBulletLine(line, 12);
    }
  }
}
