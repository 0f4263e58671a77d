/** Comments inside comments, as the tokenizer for packages reads them. */
module SqlNesting {

  import opened SqlScanners

  /** The inside of a comment: characters and whole comments. */
  datatype Body = Nothing | Text(c: char, rest: Body) | Comment(inner: Body, rest: Body)

  function TextOf(b: Body): string
  {
    match b
    case Nothing => ""
    case Text(c, rest) => [c] + TextOf(rest)
    case Comment(inner, rest) => "/*" + TextOf(inner) + "*/" + TextOf(rest)
  }

  /** No character that belongs to a comment mark stands for itself. */
  predicate Plain(b: Body)
  {
    match b
    case Nothing => true
    case Text(c, rest) => c != '/' && c != '*' && Plain(rest)
    case Comment(inner, rest) => Plain(inner) && Plain(rest)
  }

  lemma OpensDeeper(q: string, depth: nat)
    requires depth > 0
    ensures AfterComment("/*" + q, depth) == AfterComment(q, depth + 1)
    ensures AfterComment("*/" + q, depth) == AfterComment(q, depth - 1)
  {
    var a, b := "/*" + q, "*/" + q;
    assert a[0] == '/' && a[1] == '*' && a[2..] == q;
    assert b[0] == '*' && b[1] == '/' && b[2..] == q;
  }

  lemma {:induction false} BodyRead(b: Body, q: string, depth: nat)
    requires Plain(b) && depth > 0
    ensures AfterComment(TextOf(b) + q, depth) == AfterComment(q, depth)
  {
    match b
    case Nothing => assert "" + q == q;
    case Text(c, rest) =>
      var s := TextOf(b) + q;
      assert s[0] == c && s[1..] == TextOf(rest) + q;
      BodyRead(rest, q, depth);
    case Comment(inner, rest) =>
      hide AfterComment;
      var after := TextOf(rest) + q;
      assert TextOf(b) + q == "/*" + (TextOf(inner) + ("*/" + after));
      OpensDeeper(TextOf(inner) + ("*/" + after), depth);
      BodyRead(inner, "*/" + after, depth + 1);
      OpensDeeper(after, depth + 1);
      BodyRead(rest, q, depth);
  }

  /** A comment, with all comments inside it, counts for nothing: it ends at the end mark that matches its opening. */
  lemma CommentSkipped(b: Body, q: string)
    requires Plain(b)
    ensures Markers("/*" + TextOf(b) + "*/" + q) == Markers(q)
  {
    var s := "/*" + TextOf(b) + "*/" + q;
    assert s[0] == '/' && s[1] == '*' && s[2..] == TextOf(b) + ("*/" + q);
    MarkersNext(s);
    hide Markers, TextOf;
    BodyRead(b, "*/" + q, 1);
    OpensDeeper(q, 1);
    assert AfterComment(q, 0) == q;
  }

  /** A comment that lacks an end mark, its own or that of a comment inside it, hides the rest of the text. */
  lemma CommentUnclosed(b: Body)
    requires Plain(b)
    ensures Markers("/*" + TextOf(b)) == 0
    ensures Markers("/*" + ("/*" + TextOf(b) + "*/")) == 0
  {
    var body := TextOf(b);
    var s := "/*" + body;
    assert s[0] == '/' && s[1] == '*' && s[2..] == body + "";
    var t := "/*" + ("/*" + body + "*/");
    assert t[0] == '/' && t[1] == '*' && t[2..] == "/*" + (body + ("*/" + ""));
    MarkersNext(s);
    MarkersNext(t);
    assert Markers("") == 0 && AfterComment("", 1) == "";
    hide Markers, TextOf, AfterComment;
    BodyRead(b, "", 1);
    OpensDeeper(body + ("*/" + ""), 1);
    BodyRead(b, "*/" + "", 2);
    OpensDeeper("", 2);
  }
}
