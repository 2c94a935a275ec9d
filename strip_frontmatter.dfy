/**
 * `strip_frontmatter.py`: drops the comment lines of the front matter, those
 * whose text, once stripped of surrounding whitespace, starts with `#`.
 */
module StripFrontmatter {
  import opened Strings
  import opened Tables

  /** `line.strip().startswith('#')`. */
  predicate IsComment(line: string) {
    StartsWith(Strip(line), "#")
  }

  predicate NotComment(line: string) {
    !IsComment(line)
  }

  /** The lines kept, in order and unmodified. */
  function KeptLines(lines: seq<string>): (r: seq<string>)
    ensures forall x :: x in r <==> x in lines && !IsComment(x)
    ensures |r| <= |lines|
  {
    FilterMembers(lines, NotComment);
    Filter(lines, NotComment)
  }

  /**
   * `strip_frontmatter`: the loop collecting the kept lines, and their
   * concatenation, which is what is written.
   */
  method StripFrontmatter(lines: seq<string>) returns (output: string)
    ensures output == Join(KeptLines(lines), "")
  {
    var content: seq<string> := [];
    var i := 0;
    while i < |lines|
      invariant i <= |lines|
      invariant content == Filter(lines[..i], NotComment)
    {
      var line := lines[i];
      FilterSnoc(lines[..i], line, NotComment);
      assert lines[..i + 1] == lines[..i] + [line];
      if NotComment(line) {
        content := content + [line];
      }
      i := i + 1;
    }
    assert lines[..i] == lines;
    output := Join(content, "");
  }

  /** A line is a comment exactly when its first non-whitespace character is `#`. */
  lemma CommentIff(line: string)
    ensures IsComment(line) <==> |LStrip(line)| > 0 && LStrip(line)[0] == '#'
  {
    StripStartsWith(line, '#');
  }

  /** A second pass drops nothing. */
  lemma KeptLinesIdempotent(lines: seq<string>)
    ensures KeptLines(KeptLines(lines)) == KeptLines(lines)
  {
    FilterIdempotent(lines, NotComment);
  }

  /** Indented comments are dropped; a `#` after other text keeps the line. */
  lemma KeptLinesExample()
    ensures KeptLines(["# title\n", "  # note\n", "id,shape # first\n", "1,process\n"])
      == ["id,shape # first\n", "1,process\n"]
  {
    ExampleComments("# title\n", "  # note\n", "id,shape # first\n", "1,process\n");
    TwoCommentsFirst("# title\n", "  # note\n", "id,shape # first\n", "1,process\n");
  }

  lemma TwoCommentsFirst(a: string, b: string, c: string, d: string)
    requires IsComment(a) && IsComment(b) && !IsComment(c) && !IsComment(d)
    ensures KeptLines([a, b, c, d]) == [c, d]
  {
    FilterSnoc([], a, NotComment);
    FilterSnoc([a], b, NotComment);
    FilterSnoc([a, b], c, NotComment);
    FilterSnoc([a, b, c], d, NotComment);
    assert [] + [a] == [a];
    assert [a] + [b] == [a, b];
    assert [a, b] + [c] == [a, b, c];
    assert [a, b, c] + [d] == [a, b, c, d];
    assert [] + [c] == [c];
    assert [c] + [d] == [c, d];
  }

  lemma ExampleComments(a: string, b: string, c: string, d: string)
    requires a == "# title\n" && b == "  # note\n" && c == "id,shape # first\n" && d == "1,process\n"
    ensures IsComment(a) && IsComment(b) && !IsComment(c) && !IsComment(d)
  {
    CommentIff(a);
    CommentIff(b);
    CommentIff(c);
    CommentIff(d);
    assert !IsSpace(a[0]) && !IsSpace(c[0]) && !IsSpace(d[0]);
    assert LStrip(a) == a && LStrip(c) == c && LStrip(d) == d;
    assert IsSpace(b[0]) && IsSpace(b[1..][0]) && !IsSpace(b[2..][0]);
    assert b[1..][1..] == b[2..];
    assert LStrip(b[2..]) == b[2..];
    assert LStrip(b[1..]) == b[2..];
    assert LStrip(b) == b[2..];
  }
}
