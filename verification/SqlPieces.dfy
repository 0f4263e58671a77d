/** What the scanners take for a placeholder, told construct by construct: each is stated for any text after it. */
module SqlPieces {

  import opened SqlScanners

  /** Before any rest, x leaves the scanner where it began; it holds some placeholders, with these names, and is
      rewritten to r. */
  ghost predicate ReadsAs(x: string, rest: string, placeholders: nat, names: seq<string>, r: string)
  {
    && Placeholders(x + rest, Normal) == placeholders + Placeholders(rest, Normal)
    && Names(x + rest, Normal) == names + Names(rest, Normal)
    && Rewritten(x + rest, Normal) == r + Rewritten(rest, Normal)
    && Final(x + rest, Normal) == Final(rest, Normal)
  }

  /** The scanner goes from one state to another over text that it copies. */
  ghost predicate Copied(x: string, rest: string, from: State, to: State)
  {
    && Placeholders(x + rest, from) == Placeholders(rest, to)
    && Names(x + rest, from) == Names(rest, to)
    && Rewritten(x + rest, from) == x + Rewritten(rest, to)
    && Final(x + rest, from) == Final(rest, to)
  }

  lemma CopiedStep(x: string, rest: string, from: State, to: State)
    requires x != "" && Lex(x + rest, from) == Lexeme(|x|, to, Text)
    ensures Copied(x, rest, from, to)
  {
    hide Lex;
    var q := x + rest;
    assert q[..|x|] == x && q[|x|..] == rest;
  }

  lemma CopiedThen(x: string, y: string, rest: string, a: State, b: State, c: State)
    requires Copied(x, y + rest, a, b) && Copied(y, rest, b, c)
    ensures Copied(x + y, rest, a, c)
  {
    hide Lex, Placeholders, Names, Rewritten, Final;
    assert x + (y + rest) == (x + y) + rest;
    assert x + (y + Rewritten(rest, c)) == (x + y) + Rewritten(rest, c);
  }

  lemma CopiedReads(x: string, rest: string)
    requires Copied(x, rest, Normal, Normal)
    ensures ReadsAs(x, rest, 0, [], x)
  {
    hide Lex, Placeholders, Names, Rewritten, Final;
    assert [] + Names(rest, Normal) == Names(rest, Normal);
  }

  // ------------------------------------------------------------------ single characters and markers

  /** A character that begins nothing. */
  predicate BeginsNothing(c: char, rest: string)
  {
    && c !in {'\'', '"', '?'}
    && (c == '-' ==> rest == "" || rest[0] != '-')
    && (c == '/' ==> rest == "" || rest[0] != '*')
    && (c == ':' ==> rest == "" || !(rest[0] == ':' || 'a' <= rest[0] <= 'z' || 'A' <= rest[0] <= 'Z' || rest[0] == '_'))
  }

  lemma Character(c: char, rest: string)
    requires BeginsNothing(c, rest)
    ensures ReadsAs([c], rest, 0, [], [c])
  {
    var q := [c] + rest;
    assert q[0] == c && (rest != "" ==> q[1] == rest[0]);
    CopiedStep([c], rest, Normal, Normal);
    CopiedReads([c], rest);
  }

  lemma Marker(rest: string)
    ensures ReadsAs("?", rest, 1, [], "?")
  {
    var q := "?" + rest;
    assert q[0] == '?' && q[1..] == rest && q[..1] == "?";
    assert Lex(q, Normal) == Lexeme(1, Normal, Mark);
    hide Lex;
    assert [] + Names(rest, Normal) == Names(rest, Normal);
  }

  lemma DoubleColon(rest: string)
    ensures ReadsAs("::", rest, 0, [], "::")
  {
    var q := "::" + rest;
    assert q[0] == ':' && q[1] == ':';
    CopiedStep("::", rest, Normal, Normal);
    CopiedReads("::", rest);
  }

  // ------------------------------------------------------------------ names

  /** A letter or underscore, then letters, digits and underscores. */
  predicate IsName(name: string)
  {
    && name != "" && !('0' <= name[0] <= '9')
    && forall i :: 0 <= i < |name| ==> NameCharacter(name[i])
  }

  predicate NameCharacter(c: char)
  {
    'a' <= c <= 'z' || 'A' <= c <= 'Z' || '0' <= c <= '9' || c == '_'
  }

  lemma {:induction false} RunOf(x: string, rest: string)
    requires (forall i :: 0 <= i < |x| ==> NameCharacter(x[i])) && (rest != "" ==> !NameCharacter(rest[0]))
    ensures NameRun(x + rest) == |x|
  {
    var q := x + rest;
    if x != "" {
      assert q[0] == x[0] && q[1..] == x[1..] + rest;
      RunOf(x[1..], rest);
    } else {
      assert q == rest;
    }
  }

  /** A colon and a name, up to the first character that is no part of it. */
  lemma NamePlaceholder(name: string, rest: string)
    requires IsName(name) && (rest != "" ==> !NameCharacter(rest[0]))
    ensures ReadsAs(":" + name, rest, 1, [name], "?")
  {
    var x := ":" + name;
    var q := x + rest;
    assert q[0] == ':' && q[1] == name[0] && q[2..] == name[1..] + rest;
    RunOf(name[1..], rest);
    assert Lex(q, Normal) == Lexeme(|x|, Normal, Name);
    hide Lex;
    assert q[|x|..] == rest && q[1..|x|] == name;
  }

  // ------------------------------------------------------------------ quoted text

  /** Text between quotes, where a quote is written twice. */
  function Quoted(w: string, c: char): string
  {
    if w == "" then "" else (if w[0] == c then [c, c] else [w[0]]) + Quoted(w[1..], c)
  }

  function StateOf(c: char): State { if c == '\'' then SingleQuoted else DoubleQuoted }

  lemma {:induction false} InQuotes(w: string, rest: string, c: char)
    requires c == '\'' || c == '"'
    ensures Copied(Quoted(w, c), rest, StateOf(c), StateOf(c))
  {
    hide Placeholders, Names, Rewritten, Final;
    if w == "" {
      assert "" + rest == rest;
      assert "" + Rewritten(rest, StateOf(c)) == Rewritten(rest, StateOf(c));
    } else {
      var x, y := if w[0] == c then [c, c] else [w[0]], Quoted(w[1..], c);
      InQuotes(w[1..], rest, c);
      var q := x + (y + rest);
      assert q[0] == x[0] && (|x| > 1 ==> q[1] == x[1]);
      CopiedStep(x, y + rest, StateOf(c), StateOf(c));
      CopiedThen(x, y, rest, StateOf(c), StateOf(c), StateOf(c));
    }
  }

  /** Quoted text holds no placeholders, whatever stands in it. */
  lemma QuotedText(w: string, rest: string, c: char)
    requires (c == '\'' || c == '"') && (rest != "" ==> rest[0] != c)
    ensures ReadsAs([c] + Quoted(w, c) + [c], rest, 0, [], [c] + Quoted(w, c) + [c])
  {
    hide Placeholders, Names, Rewritten, Final;
    var body, end := Quoted(w, c), [c] + rest;
    assert end[0] == c && (rest != "" ==> end[1] == rest[0]);
    CopiedStep([c], rest, StateOf(c), Normal);
    InQuotes(w, end, c);
    CopiedThen(body, [c], rest, StateOf(c), StateOf(c), Normal);
    var q := [c] + ((body + [c]) + rest);
    assert q[0] == c;
    CopiedStep([c], (body + [c]) + rest, Normal, StateOf(c));
    CopiedThen([c], body + [c], rest, Normal, StateOf(c), Normal);
    assert [c] + (body + [c]) == [c] + body + [c];
    CopiedReads([c] + body + [c], rest);
  }

  // ------------------------------------------------------------------ comments

  lemma {:induction false} InLine(w: string, rest: string)
    requires '\n' !in w
    ensures Copied(w, rest, LineComment, LineComment)
  {
    hide Placeholders, Names, Rewritten, Final;
    if w == "" {
      assert "" + rest == rest;
      assert "" + Rewritten(rest, LineComment) == Rewritten(rest, LineComment);
    } else {
      InLine(w[1..], rest);
      CopiedStep([w[0]], w[1..] + rest, LineComment, LineComment);
      CopiedThen([w[0]], w[1..], rest, LineComment, LineComment, LineComment);
      assert [w[0]] + w[1..] == w;
    }
  }

  /** A comment to the end of the line. */
  lemma LineOfComment(w: string, rest: string)
    requires '\n' !in w
    ensures ReadsAs("--" + w + "\n", rest, 0, [], "--" + w + "\n")
  {
    hide Placeholders, Names, Rewritten, Final;
    CopiedStep("\n", rest, LineComment, Normal);
    InLine(w, "\n" + rest);
    CopiedThen(w, "\n", rest, LineComment, LineComment, Normal);
    var q := "--" + ((w + "\n") + rest);
    assert q[0] == '-' && q[1] == '-';
    CopiedStep("--", (w + "\n") + rest, Normal, LineComment);
    CopiedThen("--", w + "\n", rest, Normal, LineComment, Normal);
    assert "--" + (w + "\n") == "--" + w + "\n";
    CopiedReads("--" + w + "\n", rest);
  }

  /** The end of a block comment stands at i. */
  predicate EndAt(w: string, i: int) { 0 <= i < |w| - 1 && w[i] == '*' && w[i + 1] == '/' }

  /** No end of a comment before its end. */
  predicate OpenBody(w: string) { forall i :: 0 <= i < |w| ==> !EndAt(w + "*/", i) }

  lemma ShorterBody(w: string)
    requires w != "" && OpenBody(w)
    ensures OpenBody(w[1..]) && !EndAt(w + "*/", 0)
  {
    var v := w[1..];
    forall i | 0 <= i < |v| ensures !EndAt(v + "*/", i) {
      assert !EndAt(w + "*/", i + 1);
      assert (w + "*/")[1..] == v + "*/";
    }
  }

  lemma {:induction false} InBlock(w: string, rest: string)
    requires OpenBody(w)
    ensures Copied(w, "*/" + rest, BlockComment, BlockComment)
  {
    hide Placeholders, Names, Rewritten, Final;
    var end := "*/" + rest;
    if w == "" {
      assert "" + end == end;
      assert "" + Rewritten(end, BlockComment) == Rewritten(end, BlockComment);
    } else {
      var v := w[1..];
      ShorterBody(w);
      InBlock(v, rest);
      var q := [w[0]] + (v + end);
      assert q[0] == (w + "*/")[0] && q[1] == (w + "*/")[1];
      CopiedStep([w[0]], v + end, BlockComment, BlockComment);
      CopiedThen([w[0]], v, end, BlockComment, BlockComment, BlockComment);
      assert [w[0]] + v == w;
    }
  }

  /** A block comment ends at its first end mark. */
  lemma BlockOfComment(w: string, rest: string)
    requires OpenBody(w)
    ensures ReadsAs("/*" + w + "*/", rest, 0, [], "/*" + w + "*/")
  {
    hide Placeholders, Names, Rewritten, Final;
    var end := "*/" + rest;
    assert end[0] == '*' && end[1] == '/';
    CopiedStep("*/", rest, BlockComment, Normal);
    InBlock(w, rest);
    CopiedThen(w, "*/", rest, BlockComment, BlockComment, Normal);
    var q := "/*" + ((w + "*/") + rest);
    assert q[0] == '/' && q[1] == '*';
    CopiedStep("/*", (w + "*/") + rest, Normal, BlockComment);
    CopiedThen("/*", w + "*/", rest, Normal, BlockComment, Normal);
    assert "/*" + (w + "*/") == "/*" + w + "*/";
    CopiedReads("/*" + w + "*/", rest);
  }

  // ------------------------------------------------------------------ constructs that do not end

  /** Quoted text without its closing quote is an error. */
  lemma UnclosedQuote(w: string, c: char)
    requires c == '\'' || c == '"'
    ensures Unterminated(Final([c] + Quoted(w, c), Normal))
  {
    hide Placeholders, Names, Rewritten;
    InQuotes(w, "", c);
    assert Quoted(w, c) + "" == Quoted(w, c);
    CopiedStep([c], Quoted(w, c), Normal, StateOf(c));
  }

  /** So is a block comment without its end; a line comment may end with the text. */
  lemma UnclosedComment(w: string)
    requires forall i :: !EndAt(w, i)
    ensures Unterminated(Final("/*" + w, Normal))
  {
    hide Placeholders, Names, Rewritten;
    OpenToEnd(w);
    var q := "/*" + w;
    assert q[0] == '/' && q[1] == '*';
    CopiedStep("/*", w, Normal, BlockComment);
  }

  lemma {:induction false} OpenToEnd(w: string)
    requires forall i :: !EndAt(w, i)
    ensures Final(w, BlockComment) == BlockComment
  {
    if w != "" {
      var v := w[1..];
      forall i ensures !EndAt(v, i) {
        assert !EndAt(w, i + 1);
      }
      OpenToEnd(v);
      assert !EndAt(w, 0);
    }
  }

  lemma LineToEnd(w: string)
    requires '\n' !in w
    ensures !Unterminated(Final("--" + w, Normal))
  {
    hide Placeholders, Names, Rewritten;
    InLine(w, "");
    assert w + "" == w;
    var q := "--" + w;
    assert q[0] == '-' && q[1] == '-';
    CopiedStep("--", w, Normal, LineComment);
  }
}
