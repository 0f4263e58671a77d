/** The scanners over SQL text: counting placeholders, rewriting :name placeholders to ?, and counting the markers
    of a packaged statement. */
module SqlScanners {

  import opened Wrappers

  datatype State = Normal | SingleQuoted | DoubleQuoted | LineComment | BlockComment

  /** What a scanner takes in one step: text, a ? marker, or a :name. */
  datatype Kind = Text | Mark | Name

  datatype Lexeme = Lexeme(len: nat, next: State, kind: Kind)

  predicate IsNameStart(c: char) { 'a' <= c <= 'z' || 'A' <= c <= 'Z' || c == '_' }

  predicate IsNameContinue(c: char) { IsNameStart(c) || '0' <= c <= '9' }

  predicate Starts(q: string, a: char, b: char) { |q| > 1 && q[0] == a && q[1] == b }

  /** How many characters from a place on continue a name. */
  function NameRun(q: string): (n: nat)
    ensures n <= |q|
  {
    if q == "" || !IsNameContinue(q[0]) then 0 else 1 + NameRun(q[1..])
  }

  function Lex(q: string, st: State): (l: Lexeme)
    requires q != ""
    ensures 1 <= l.len <= |q|
    ensures l.kind.Name? ==> st.Normal? && q[0] == ':' && l.len >= 2 && IsNameStart(q[1])
    ensures l.kind.Mark? ==> st.Normal? && q[0] == '?' && l.len == 1
  {
    match st
    case Normal =>
      if q[0] == '\'' then Lexeme(1, SingleQuoted, Text)
      else if q[0] == '"' then Lexeme(1, DoubleQuoted, Text)
      else if Starts(q, '-', '-') then Lexeme(2, LineComment, Text)
      else if Starts(q, '/', '*') then Lexeme(2, BlockComment, Text)
      else if q[0] == '?' then Lexeme(1, Normal, Mark)
      else if Starts(q, ':', ':') then Lexeme(2, Normal, Text)
      else if q[0] == ':' && |q| > 1 && IsNameStart(q[1]) then Lexeme(2 + NameRun(q[2..]), Normal, Name)
      else Lexeme(1, Normal, Text)
    case SingleQuoted =>
      if Starts(q, '\'', '\'') then Lexeme(2, SingleQuoted, Text)
      else Lexeme(1, if q[0] == '\'' then Normal else SingleQuoted, Text)
    case DoubleQuoted =>
      if Starts(q, '"', '"') then Lexeme(2, DoubleQuoted, Text)
      else Lexeme(1, if q[0] == '"' then Normal else DoubleQuoted, Text)
    case LineComment => Lexeme(1, if q[0] == '\n' then Normal else LineComment, Text)
    case BlockComment =>
      if Starts(q, '*', '/') then Lexeme(2, Normal, Text) else Lexeme(1, BlockComment, Text)
  }

  // ------------------------------------------------------------------ what the scanners compute

  function Final(q: string, st: State): State
    decreases |q|
  {
    if q == "" then st else Final(q[Lex(q, st).len..], Lex(q, st).next)
  }

  predicate Unterminated(st: State) { st.SingleQuoted? || st.DoubleQuoted? || st.BlockComment? }

  function Placeholders(q: string, st: State): nat
    decreases |q|
  {
    if q == "" then 0
    else (if Lex(q, st).kind.Text? then 0 else 1) + Placeholders(q[Lex(q, st).len..], Lex(q, st).next)
  }

  function Marks(q: string, st: State): nat
    decreases |q|
  {
    if q == "" then 0
    else (if Lex(q, st).kind.Mark? then 1 else 0) + Marks(q[Lex(q, st).len..], Lex(q, st).next)
  }

  function Names(q: string, st: State): seq<string>
    decreases |q|
  {
    if q == "" then []
    else
      var l := Lex(q, st);
      (if l.kind.Name? then [q[1..l.len]] else []) + Names(q[l.len..], l.next)
  }

  function Piece(q: string, st: State): string
    requires q != ""
  {
    if Lex(q, st).kind.Name? then "?" else q[..Lex(q, st).len]
  }

  function Rewritten(q: string, st: State): string
    decreases |q|
  {
    if q == "" then "" else Piece(q, st) + Rewritten(q[Lex(q, st).len..], Lex(q, st).next)
  }

  // ------------------------------------------------------------------ counting

  method NameEnd(q: string, start: nat) returns (j: nat)
    requires start <= |q|
    ensures j == start + NameRun(q[start..])
  {
    j := start;
    while j < |q| && IsNameContinue(q[j])
      invariant start <= j <= |q| && j + NameRun(q[j..]) == start + NameRun(q[start..])
    {
      assert q[j..][1..] == q[j + 1..];
      j := j + 1;
    }
  }

  lemma Tail(q: string, i: nat, n: nat)
    requires i + n <= |q|
    ensures q[i..][n..] == q[i + n..]
    ensures n > 0 ==> q[i..][0] == q[i]
    ensures n > 1 ==> q[i..][1] == q[i + 1]
  {}

  /** One step of the counting scanner: how far it moves, the new state, and whether it counts. */
  method CountStep(query: string, i: nat, state: State) returns (n: nat, next: State, counts: bool)
    requires i < |query|
    ensures var l := Lex(query[i..], state);
            n == l.len && next == l.next && counts == !l.kind.Text?
  {
    var ch := query[i];
    assert query[i..][0] == ch;
    assert i + 1 < |query| ==> query[i..][1] == query[i + 1];
    n, next, counts := 1, state, false;
    match state
    case Normal =>
      if ch == '\'' {
        next := SingleQuoted;
      } else if ch == '"' {
        next := DoubleQuoted;
      } else if ch == '-' {
        if i + 1 < |query| && query[i + 1] == '-' {
          n, next := 2, LineComment;
        }
      } else if ch == '/' {
        if i + 1 < |query| && query[i + 1] == '*' {
          n, next := 2, BlockComment;
        }
      } else if ch == '?' {
        counts := true;
      } else if ch == ':' {
        if i + 1 < |query| && query[i + 1] == ':' {
          n := 2;
        } else if i + 1 < |query| && IsNameStart(query[i + 1]) {
          var j := NameEnd(query, i + 2);
          Tail(query, i, 2);
          n, counts := j - i, true;
        }
      }
    case SingleQuoted =>
      if ch == '\'' {
        if i + 1 < |query| && query[i + 1] == '\'' {
          n := 2;
        } else {
          next := Normal;
        }
      }
    case DoubleQuoted =>
      if ch == '"' {
        if i + 1 < |query| && query[i + 1] == '"' {
          n := 2;
        } else {
          next := Normal;
        }
      }
    case LineComment =>
      if ch == '\n' {
        next := Normal;
      }
    case BlockComment =>
      if ch == '*' && i + 1 < |query| && query[i + 1] == '/' {
        n, next := 2, Normal;
      }
  }

  lemma ScanNext(query: string, i: nat, st: State)
    requires i < |query|
    ensures var l := Lex(query[i..], st);
            && i + l.len <= |query| && Final(query[i..], st) == Final(query[i + l.len..], l.next)
            && Placeholders(query[i..], st) == (if l.kind.Text? then 0 else 1) + Placeholders(query[i + l.len..], l.next)
  {
    hide Lex;
    Tail(query, i, Lex(query[i..], st).len);
  }

  lemma ScanEnds(query: string, st: State)
    ensures var end := query[|query|..];
            Final(end, st) == st && Placeholders(end, st) == 0 && Names(end, st) == [] && Rewritten(end, st) == ""
  {}

  /** The number of placeholders, unless a literal or comment is not closed. */
  method CountSqlPlaceholders(query: string) returns (r: Option<nat>)
    ensures r == if Unterminated(Final(query, Normal)) then None else Some(Placeholders(query, Normal))
  {
    hide Lex, Placeholders, Final;
    var count := 0;
    var state := Normal;
    var i := 0;
    assert query[0..] == query;
    while i < |query|
      invariant 0 <= i <= |query|
      invariant count + Placeholders(query[i..], state) == Placeholders(query, Normal)
      invariant Final(query[i..], state) == Final(query, Normal)
    {
      var n, next, counts := CountStep(query, i, state);
      ScanNext(query, i, state);
      if counts {
        count := count + 1;
      }
      state := next;
      i := i + n;
    }
    ScanEnds(query, state);
    return if Unterminated(state) then None else Some(count);
  }

  // ------------------------------------------------------------------ rewriting

  datatype Rewrite = Rewrite(query: string, names: seq<string>)

  /** One step of the rewriting scanner: what it writes, and the name it found. */
  method RewriteStep(query: string, i: nat, state: State)
    returns (n: nat, next: State, piece: string, name: Option<string>)
    requires i < |query|
    ensures var l := Lex(query[i..], state);
            && n == l.len && next == l.next && piece == Piece(query[i..], state)
            && name == if l.kind.Name? then Some(query[i..][1..l.len]) else None
  {
    var ch := query[i];
    assert query[i..][0] == ch;
    assert i + 1 < |query| ==> query[i..][1] == query[i + 1];
    n, next, name := 1, state, None;
    match state {
    case Normal =>
      if ch == '\'' {
        next := SingleQuoted;
      } else if ch == '"' {
        next := DoubleQuoted;
      } else if ch == '-' {
        if i + 1 < |query| && query[i + 1] == '-' {
          n, next := 2, LineComment;
        }
      } else if ch == '/' {
        if i + 1 < |query| && query[i + 1] == '*' {
          n, next := 2, BlockComment;
        }
      } else if ch == ':' {
        if i + 1 < |query| && query[i + 1] == ':' {
          n := 2;
        } else if i + 1 < |query| && IsNameStart(query[i + 1]) {
          var j := NameEnd(query, i + 2);
          Tail(query, i, 2);
          assert query[i + 1..j] == query[i..][1..j - i];
          return j - i, Normal, "?", Some(query[i + 1..j]);
        }
      }
    case SingleQuoted =>
      if ch == '\'' {
        if i + 1 < |query| && query[i + 1] == '\'' {
          n := 2;
        } else {
          next := Normal;
        }
      }
    case DoubleQuoted =>
      if ch == '"' {
        if i + 1 < |query| && query[i + 1] == '"' {
          n := 2;
        } else {
          next := Normal;
        }
      }
    case LineComment =>
      if ch == '\n' {
        next := Normal;
      }
    case BlockComment =>
      if ch == '*' && i + 1 < |query| && query[i + 1] == '/' {
        n, next := 2, Normal;
      }
    }
    piece := query[i..i + n];
    assert piece == query[i..][..n];
  }

  predicate HasColon(query: string) { exists i :: 0 <= i < |query| && query[i] == ':' }

  /** Names become ? and are listed in order. A query without a colon is not scanned at all. */
  method RewriteNamedParams(query: string) returns (r: Option<Rewrite>)
    ensures r == if HasColon(query) && Unterminated(Final(query, Normal)) then None
                 else Some(Rewrite(Rewritten(query, Normal), Names(query, Normal)))
  {
    hide Lex, Piece, Names, Rewritten, Final;
    var colon := FindColon(query);
    if !colon {
      NoColonNoNames(query, Normal);
      NoNamesNoChange(query, Normal);
      return Some(Rewrite(query, []));
    }
    var builder, names: seq<string>, state := "", [], Normal;
    var i := 0;
    assert query[0..] == query;
    while i < |query|
      invariant 0 <= i <= |query|
      invariant builder + Rewritten(query[i..], state) == Rewritten(query, Normal)
      invariant names + Names(query[i..], state) == Names(query, Normal)
      invariant Final(query[i..], state) == Final(query, Normal)
    {
      var n, next, piece, name := RewriteStep(query, i, state);
      ScanNext(query, i, state);
      RewrittenNext(query, i, state, builder);
      NamesNext(query, i, state, names);
      builder := builder + piece;
      if name.Some? {
        names := names + [name.value];
      }
      state := next;
      i := i + n;
    }
    ScanEnds(query, state);
    if Unterminated(state) {
      return None;
    }
    if |names| == 0 {
      NoNamesNoChange(query, Normal);
      return Some(Rewrite(query, []));
    }
    assert builder + "" == builder && names + [] == names;
    return Some(Rewrite(builder, names));
  }

  lemma RewrittenNext(query: string, i: nat, st: State, builder: string)
    requires i < |query|
    ensures var l := Lex(query[i..], st);
            builder + Rewritten(query[i..], st) ==
            (builder + Piece(query[i..], st)) + Rewritten(query[i + l.len..], l.next)
  {
    hide Lex, Piece;
    Tail(query, i, Lex(query[i..], st).len);
  }

  lemma NamesNext(query: string, i: nat, st: State, names: seq<string>)
    requires i < |query|
    ensures var l := Lex(query[i..], st);
            names + Names(query[i..], st) ==
            (names + if l.kind.Name? then [query[i..][1..l.len]] else []) + Names(query[i + l.len..], l.next)
  {
    hide Lex;
    Tail(query, i, Lex(query[i..], st).len);
  }

  method FindColon(query: string) returns (found: bool)
    ensures found <==> HasColon(query)
  {
    for i := 0 to |query|
      invariant forall k :: 0 <= k < i ==> query[k] != ':'
    {
      if query[i] == ':' {
        return true;
      }
    }
    return false;
  }

  lemma {:induction false} NoColonNoNames(q: string, st: State)
    requires !HasColon(q)
    ensures Names(q, st) == []
    decreases |q|
  {
    if q != "" {
      var l := Lex(q, st);
      assert q[0] != ':';
      hide Lex;
      assert !HasColon(q[l.len..]) by {
        forall i | 0 <= i < |q| - l.len ensures q[l.len..][i] != ':' {
          assert q[l.len + i] != ':';
        }
      }
      NoColonNoNames(q[l.len..], l.next);
    }
  }

  lemma {:induction false} NoNamesNoChange(q: string, st: State)
    requires Names(q, st) == []
    ensures Rewritten(q, st) == q
    decreases |q|
  {
    if q != "" {
      hide Lex;
      var l := Lex(q, st);
      NoNamesNoChange(q[l.len..], l.next);
      assert q == q[..l.len] + q[l.len..];
    }
  }

  // ------------------------------------------------------------------ rewriting and scanning again

  /** The lexemes of a query with their text, the names as ?. */
  function Scan(q: string, st: State): seq<(State, string)>
    decreases |q|
  {
    if q == "" then [] else [(st, Piece(q, st))] + Scan(q[Lex(q, st).len..], Lex(q, st).next)
  }

  /** What the rewritten rest starts with: the same character, or ? for the colon of a name. */
  lemma FirstCharacter(q: string, st: State)
    ensures Rewritten(q, st) == "" <==> q == ""
    ensures q != "" ==>
              var r := Rewritten(q, st)[0];
              r == q[0] || (st.Normal? && q[0] == ':' && r == '?' && |q| > 1 && q[1] != ':')
  {
    if q != "" {
      var l := Lex(q, st);
      NameFollows(q, st);
      hide Lex;
      assert Rewritten(q, st) == Piece(q, st) + Rewritten(q[l.len..], l.next);
      assert Piece(q, st)[0] == if l.kind.Name? then '?' else q[0];
    }
  }

  lemma NameFollows(q: string, st: State)
    requires q != ""
    ensures Lex(q, st).kind.Name? ==> st.Normal? && q[0] == ':' && |q| > 1 && q[1] != ':'
  {}

  /** A rewritten piece, followed by the rewritten rest, is taken by a scanner just as the original was, a name
      now being a marker. */
  lemma LexAgain(q: string, st: State)
    requires q != ""
    ensures var l := Lex(q, st);
            var r := Piece(q, st) + Rewritten(q[l.len..], l.next);
            r != "" && Lex(r, st) == Lexeme(|Piece(q, st)|, l.next, if l.kind.Name? then Mark else l.kind)
  {
    var l := Lex(q, st);
    var piece, rest := Piece(q, st), Rewritten(q[l.len..], l.next);
    FirstCharacter(q[l.len..], l.next);
    hide Rewritten;
    var r := piece + rest;
    assert r[0] == piece[0];
    if |piece| == 1 {
      assert rest != "" ==> r[1] == rest[0];
    } else {
      assert r[1] == piece[1];
    }
    if l.len < |q| {
      assert q[l.len..][0] == q[l.len];
    }
  }

  /** Scanning rewritten text again: the same lexemes in the same states, so that quoted text and comments are
      untouched, no names, and as many placeholders. */
  lemma {:induction false} ScanAgain(q: string, st: State)
    ensures Scan(Rewritten(q, st), st) == Scan(q, st)
    ensures Names(Rewritten(q, st), st) == []
    ensures Placeholders(Rewritten(q, st), st) == Placeholders(q, st)
    ensures Marks(Rewritten(q, st), st) == Placeholders(q, st)
    ensures Final(Rewritten(q, st), st) == Final(q, st)
    decreases |q|
  {
    if q != "" {
      var l := Lex(q, st);
      var piece, rest := Piece(q, st), Rewritten(q[l.len..], l.next);
      LexAgain(q, st);
      ScanAgain(q[l.len..], l.next);
      var r := piece + rest;
      assert Rewritten(q, st) == r;
      PieceAgain(q, st, r);
      hide Lex, Piece, Rewritten;
      assert r[|piece|..] == rest;
    }
  }

  lemma PieceAgain(q: string, st: State, r: string)
    requires q != "" && r != "" && |Piece(q, st)| <= |r| && r[..|Piece(q, st)|] == Piece(q, st)
    requires Lex(r, st) == Lexeme(|Piece(q, st)|, Lex(q, st).next, if Lex(q, st).kind.Name? then Mark else Lex(q, st).kind)
    ensures Piece(r, st) == Piece(q, st)
  {
    hide Lex;
  }

  /** Rewriting twice is rewriting once. */
  lemma RewriteIdempotent(q: string)
    ensures Rewritten(Rewritten(q, Normal), Normal) == Rewritten(q, Normal)
    ensures Names(Rewritten(q, Normal), Normal) == []
  {
    ScanAgain(q, Normal);
    NoNamesNoChange(Rewritten(q, Normal), Normal);
  }

  // ------------------------------------------------------------------ named arguments

  datatype Arg = Arg(name: string, ordinal: nat, value: int)

  /** The last argument with a name; arguments without one bind nothing. */
  function Bound(args: seq<Arg>, name: string): Option<Arg>
  {
    if args == [] || name == "" then None
    else if args[|args| - 1].name == name then Some(args[|args| - 1])
    else Bound(args[..|args| - 1], name)
  }

  predicate CarriesBound(args: seq<Arg>, name: string, i: nat, arg: Arg)
  {
    Bound(args, name).Some? && arg == Arg("", i + 1, Bound(args, name).value.value)
  }

  /** Each argument carries the value bound to its name, in the order of the names; an error if one is missing. */
  method ReorderNamedArgs(names: seq<string>, args: seq<Arg>) returns (r: Option<seq<Arg>>)
    ensures names == [] ==> r == Some(args)
    ensures names != [] ==> (r.None? <==> exists i :: 0 <= i < |names| && Bound(args, names[i]).None?)
    ensures names != [] && r.Some? ==>
              |r.value| == |names| && forall i :: 0 <= i < |names| ==> CarriesBound(args, names[i], i, r.value[i])
  {
    if |names| == 0 {
      return Some(args);
    }
    var byName: map<string, Arg> := map[];
    for k := 0 to |args|
      invariant forall n :: n in byName ==> Bound(args[..k], n) == Some(byName[n])
      invariant forall n: string :: n !in byName ==> Bound(args[..k], n).None?
    {
      assert args[..k + 1][..k] == args[..k];
      if args[k].name != "" {
        byName := byName[args[k].name := args[k]];
      }
    }
    assert args[..|args|] == args;
    var out: seq<Arg> := [];
    for i := 0 to |names|
      invariant |out| == i
      invariant forall k :: 0 <= k < i ==> CarriesBound(args, names[k], k, out[k])
    {
      if names[i] !in byName {
        return None;
      }
      out := out + [byName[names[i]].(ordinal := i + 1, name := "")];
    }
    return Some(out);
  }

  /** The names found by the rewriting scanner are not empty. */
  lemma {:induction false} NamesNotEmpty(q: string, st: State)
    ensures forall i :: 0 <= i < |Names(q, st)| ==> Names(q, st)[i] != ""
    decreases |q|
  {
    if q != "" {
      var l := Lex(q, st);
      hide Lex;
      NamesNotEmpty(q[l.len..], l.next);
    }
  }

  /** As many names as placeholders that are not ?. */
  lemma {:induction false} NamesCounted(q: string, st: State)
    ensures |Names(q, st)| + Marks(q, st) == Placeholders(q, st)
    decreases |q|
  {
    if q != "" {
      hide Lex;
      NamesCounted(q[Lex(q, st).len..], Lex(q, st).next);
    }
  }

  // ------------------------------------------------------------------ markers of a packaged statement

  /** What is left after a comment that may hold further comments. */
  function AfterComment(q: string, depth: nat): (r: string)
    ensures |r| <= |q|
    decreases |q|
  {
    if q == "" || depth == 0 then q
    else if Starts(q, '/', '*') then AfterComment(q[2..], depth + 1)
    else if Starts(q, '*', '/') then AfterComment(q[2..], depth - 1)
    else AfterComment(q[1..], depth)
  }

  /** What is left from the first occurrence of a character on. */
  function From(q: string, c: char): (r: string)
    ensures |r| <= |q|
  {
    if q == "" || q[0] == c then q else From(q[1..], c)
  }

  function Rest(q: string): (r: string)
    ensures |r| <= |q| && (q != "" ==> |r| < |q|)
  {
    if q == "" then "" else q[1..]
  }

  function Markers(q: string): nat
    decreases |q|
  {
    if q == "" then 0
    else if Starts(q, '/', '*') then Markers(AfterComment(q[2..], 1))
    else if Starts(q, '-', '-') then Markers(From(q[2..], '\n'))
    else if q[0] == '\'' || q[0] == '"' then Markers(Rest(From(q[1..], q[0])))
    else (if q[0] == '?' then 1 else 0) + Markers(q[1..])
  }

  method SkipComment(sql: string, start: nat) returns (i: nat)
    requires start <= |sql|
    ensures start <= i <= |sql| && sql[i..] == AfterComment(sql[start..], 1)
  {
    var depth := 1;
    i := start;
    while i < |sql| && depth > 0
      invariant start <= i <= |sql| && depth >= 0
      invariant AfterComment(sql[i..], depth) == AfterComment(sql[start..], 1)
      decreases |sql| - i
    {
      assert sql[i..][1..] == sql[i + 1..];
      if i + 1 < |sql| {
        assert sql[i..][2..] == sql[i + 2..];
      }
      if i + 1 < |sql| && sql[i] == '/' && sql[i + 1] == '*' {
        depth, i := depth + 1, i + 2;
      } else if i + 1 < |sql| && sql[i] == '*' && sql[i + 1] == '/' {
        depth, i := depth - 1, i + 2;
      } else {
        i := i + 1;
      }
    }
  }

  method SkipTo(sql: string, start: nat, c: char) returns (i: nat)
    requires start <= |sql|
    ensures start <= i <= |sql| && sql[i..] == From(sql[start..], c)
  {
    i := start;
    while i < |sql| && sql[i] != c
      invariant start <= i <= |sql| && From(sql[i..], c) == From(sql[start..], c)
    {
      assert sql[i..][1..] == sql[i + 1..];
      i := i + 1;
    }
  }

  /** The marker count of the tokenizer for packages. */
  method PackageMarkers(sql: string) returns (markers: nat)
    ensures markers == Markers(sql)
  {
    hide Markers, From, AfterComment;
    markers := 0;
    var i := 0;
    assert sql[0..] == sql;
    MarkersEnd(sql);
    while i < |sql|
      invariant 0 <= i <= |sql| && markers + Markers(sql[i..]) == Markers(sql)
      decreases |sql| - i
    {
      Tail(sql, i, if i + 1 < |sql| then 2 else 1);
      Tail(sql, i, 1);
      MarkersNext(sql[i..]);
      var ch := sql[i];
      if ch == '/' && i + 1 < |sql| && sql[i + 1] == '*' {
        i := SkipComment(sql, i + 2);
      } else if ch == '-' && i + 1 < |sql| && sql[i + 1] == '-' {
        i := SkipTo(sql, i + 2, '\n');
      } else if ch == '\'' || ch == '"' {
        i := SkipTo(sql, i + 1, ch);
        if i < |sql| {
          Tail(sql, i, 1);
          i := i + 1;
        }
      } else {
        if ch == '?' {
          markers := markers + 1;
        }
        i := i + 1;
      }
    }
  }

  lemma MarkersEnd(q: string)
    ensures Markers(q[|q|..]) == 0
  {}

  lemma MarkersNext(q: string)
    requires q != ""
    ensures Markers(q) ==
            if Starts(q, '/', '*') then Markers(AfterComment(q[2..], 1))
            else if Starts(q, '-', '-') then Markers(From(q[2..], '\n'))
            else if q[0] == '\'' || q[0] == '"' then Markers(Rest(From(q[1..], q[0])))
            else (if q[0] == '?' then 1 else 0) + Markers(q[1..])
  {}

  /** No comment opens inside a block comment. */
  predicate Unnested(q: string, st: State)
    decreases |q|
  {
    q == "" || (!(st.BlockComment? && Starts(q, '/', '*')) && Unnested(q[Lex(q, st).len..], Lex(q, st).next))
  }

  /** The markers the package tokenizer counts from the middle of a construct on. */
  function Reading(q: string, st: State): nat
  {
    match st
    case Normal => Markers(q)
    case SingleQuoted => Markers(Rest(From(q, '\'')))
    case DoubleQuoted => Markers(Rest(From(q, '"')))
    case LineComment => Markers(From(q, '\n'))
    case BlockComment => Markers(AfterComment(q, 1))
  }

  predicate PlainCharacter(c: char) { c == ':' || IsNameContinue(c) }

  lemma {:induction false} PlainRun(q: string, n: nat)
    requires n <= |q| && forall k :: 0 <= k < n ==> PlainCharacter(q[k])
    ensures Markers(q) == Markers(q[n..])
  {
    if n == 0 {
      assert q[0..] == q;
    } else {
      MarkersNext(q);
      assert PlainCharacter(q[0]);
      assert Markers(q) == Markers(q[1..]);
      hide Markers, PlainCharacter;
      assert q[1..][n - 1..] == q[n..];
      PlainRun(q[1..], n - 1);
    }
  }

  lemma {:induction false} NameIsPlain(q: string)
    ensures forall k :: 0 <= k < NameRun(q) ==> IsNameContinue(q[k])
  {
    if q != "" && IsNameContinue(q[0]) {
      NameIsPlain(q[1..]);
      assert forall k :: 1 <= k < NameRun(q) ==> q[k] == q[1..][k - 1];
    }
  }

  lemma ColonReads(q: string)
    requires q != "" && q[0] == ':'
    ensures Lex(q, Normal).next.Normal? && Lex(q, Normal).kind != Mark && Markers(q) == Markers(q[Lex(q, Normal).len..])
  {
    var l := Lex(q, Normal);
    if l.len > 2 {
      NameIsPlain(q[2..]);
      assert forall k :: 2 <= k < l.len ==> q[k] == q[2..][k - 2];
    }
    hide Markers;
    PlainRun(q, l.len);
  }

  lemma NormalReads(q: string)
    requires q != ""
    ensures var l := Lex(q, Normal);
            Markers(q) == (if l.kind.Mark? then 1 else 0) + Reading(q[l.len..], l.next)
  {
    hide Markers, From, AfterComment, NameRun;
    if q[0] == ':' {
      ColonReads(q);
      hide Lex;
    } else {
      MarkersNext(q);
    }
  }

  lemma QuoteReads(q: string, st: State, c: char)
    requires q != "" && ((st.SingleQuoted? && c == '\'') || (st.DoubleQuoted? && c == '"'))
    ensures Reading(q, st) == Reading(q[Lex(q, st).len..], Lex(q, st).next)
  {
    if q[0] == c && |q| > 1 && q[1] == c {
      MarkersNext(q[1..]);
      assert q[1..][1..] == q[2..];
    }
    hide Markers;
  }

  lemma LineReads(q: string)
    requires q != ""
    ensures Reading(q, LineComment) == Reading(q[1..], Lex(q, LineComment).next)
  {
    if q[0] == '\n' {
      MarkersNext(q);
    }
    hide Markers;
  }

  lemma BlockReads(q: string)
    requires q != "" && !Starts(q, '/', '*')
    ensures Reading(q, BlockComment) == Reading(q[Lex(q, BlockComment).len..], Lex(q, BlockComment).next)
  {
    hide Markers;
    if Starts(q, '*', '/') {
      assert AfterComment(q, 1) == AfterComment(q[2..], 0) == q[2..];
    } else {
      assert AfterComment(q, 1) == AfterComment(q[1..], 1);
    }
  }

  lemma {:induction false} MarkersAgree(q: string, st: State)
    requires Unnested(q, st)
    ensures Reading(q, st) == Marks(q, st)
    decreases |q|
  {
    if q != "" {
      var l := Lex(q, st);
      match st {
        case Normal => NormalReads(q);
        case SingleQuoted => QuoteReads(q, st, '\'');
        case DoubleQuoted => QuoteReads(q, st, '"');
        case LineComment => LineReads(q);
        case BlockComment => BlockReads(q);
      }
      hide Reading, Lex;
      MarkersAgree(q[l.len..], l.next);
    }
  }

  /** Both scanners see the same ? markers unless a comment opens inside a comment; so for a query without :name
      placeholders, and for every rewritten query, they agree on the count. With a nested comment they can still
      agree by accident, when what only one of them takes for a comment holds no marker, so the converse does not
      hold. */
  lemma ScannersAgree(q: string)
    requires Unnested(q, Normal)
    ensures Markers(q) == Placeholders(q, Normal) - |Names(q, Normal)|
    ensures Markers(Rewritten(q, Normal)) == Placeholders(q, Normal)
  {
    MarkersAgree(q, Normal);
    NamesCounted(q, Normal);
    ScanAgain(q, Normal);
    UnnestedAgain(q, Normal);
    MarkersAgree(Rewritten(q, Normal), Normal);
  }

  lemma {:induction false} UnnestedAgain(q: string, st: State)
    requires Unnested(q, st)
    ensures Unnested(Rewritten(q, st), st)
    decreases |q|
  {
    if q != "" {
      var l := Lex(q, st);
      var piece, rest := Piece(q, st), Rewritten(q[l.len..], l.next);
      LexAgain(q, st);
      UnnestedAgain(q[l.len..], l.next);
      if st.BlockComment? {
        CommentStart(q);
      }
      hide Lex, Rewritten;
      assert (piece + rest)[|piece|..] == rest;
    }
  }

  lemma CommentStart(q: string)
    requires q != ""
    ensures Starts(Rewritten(q, BlockComment), '/', '*') ==> Starts(q, '/', '*')
  {
    var l := Lex(q, BlockComment);
    FirstCharacter(q, BlockComment);
    FirstCharacter(q[l.len..], l.next);
    var piece, rest := Piece(q, BlockComment), Rewritten(q[l.len..], l.next);
    assert Rewritten(q, BlockComment) == piece + rest;
    hide Rewritten;
    if l.len == 1 && |q| > 1 {
      assert (piece + rest)[1] == rest[0];
      assert q[1..][0] == q[1];
    }
  }

  lemma NestedMarkers()
    ensures Markers("/*/*/?") == 0
  {
    var q := "/*/*/?";
    assert q[2..] == "/*/?" && q[2..][2..] == "/?";
    assert "/?"[1..] == "?" && "?"[1..] == "";
    assert AfterComment("/?", 2) == AfterComment("?", 2) == AfterComment("", 2) == "";
    assert AfterComment(q[2..], 1) == AfterComment("/?", 2);
  }

  lemma NestedPlaceholders()
    ensures Placeholders("/*/*/?", Normal) == 1
  {
    var q := "/*/*/?";
    assert q[2..] == "/*/?" && "/*/?"[1..] == "*/?" && "*/?"[2..] == "?" && "?"[1..] == "";
    assert Lex(q, Normal) == Lexeme(2, BlockComment, Text);
    assert Lex("/*/?", BlockComment) == Lexeme(1, BlockComment, Text);
    assert Lex("*/?", BlockComment) == Lexeme(2, Normal, Text);
    assert Lex("?", Normal) == Lexeme(1, Normal, Mark);
    hide Lex;
    assert Placeholders("?", Normal) == 1;
    assert Placeholders("*/?", BlockComment) == 1;
    assert Placeholders("/*/?", BlockComment) == 1;
  }

  /** Where they part: a comment that opens inside a comment. */
  lemma NestedCommentExample()
    ensures Markers("/*/*/?") == 0 && Placeholders("/*/*/?", Normal) == 1
  {
    NestedMarkers();
    NestedPlaceholders();
  }
}
