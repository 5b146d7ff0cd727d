/**
  The text-level half of `SQLExecutor`: removing SQL comments from a statement and finding the
  verb that decides what `run_sql` returns.

  `strip_sql_comments` makes two regular-expression passes, modelled here as scanners:
  first every `--` through the end of its line (the line feed stays), then every shortest
  block comment (slash-star through the nearest star-slash), line feeds included.
*/
module SqlText {
  import opened Wrappers
  import opened Text

  /** Number of occurrences of `c` in `s`. */
  function Count(s: string, c: char): nat {
    if s == [] then 0 else (if s[0] == c then 1 else 0) + Count(s[1..], c)
  }

  predicate NoNewline(s: string) {
    forall i :: 0 <= i < |s| ==> s[i] != '\n'
  }

  /** The characters `a` and `b` stand next to each other at index `i` of `s`. */
  predicate PairAt(s: string, i: int, a: char, b: char) {
    0 <= i && i + 1 < |s| && s[i] == a && s[i + 1] == b
  }

  /** `a` is nowhere directly followed by `b` in `s`. */
  predicate NoPair(s: string, a: char, b: char) {
    forall i :: 0 <= i < |s| ==> !PairAt(s, i, a, b)
  }

  /** No `--` anywhere in `s`. */
  predicate NoDoubleDash(s: string) {
    NoPair(s, '-', '-')
  }

  /** No block-comment opener (slash, star) anywhere in `s`. */
  predicate NoOpener(s: string) {
    NoPair(s, '/', '*')
  }

  /** No block-comment closer (star, slash) anywhere in `s`. */
  predicate NoCloser(s: string) {
    NoPair(s, '*', '/')
  }

  /** A pair in the tail of `s` is a pair in `s`, one place further on. */
  lemma {:induction false} PairAtTail(s: string, a: char, b: char)
    requires s != []
    ensures forall i :: 1 <= i < |s| ==> (PairAt(s, i, a, b) <==> PairAt(s[1..], i - 1, a, b))
  {
  }

  lemma {:induction false} NoPairTail(s: string, a: char, b: char)
    requires s != [] && NoPair(s, a, b)
    ensures NoPair(s[1..], a, b)
  {
    forall i | 0 <= i < |s[1..]| ensures !PairAt(s[1..], i, a, b) {
      assert !PairAt(s, i + 1, a, b);
    }
  }

  lemma {:induction false} NoPairCons(c: char, s: string, a: char, b: char)
    requires NoPair(s, a, b)
    requires s == [] || !(c == a && s[0] == b)
    ensures NoPair([c] + s, a, b)
  {
    var t := [c] + s;
    forall i | 0 <= i < |t| ensures !PairAt(t, i, a, b) {
      if i > 0 {
        assert !PairAt(s, i - 1, a, b);
      }
    }
  }

  /** Text neither comment pass can touch: no `-` and no `/` at all. */
  predicate PlainText(s: string) {
    forall i :: 0 <= i < |s| ==> s[i] != '-' && s[i] != '/'
  }

  lemma {:induction false} PlainTextAppend(a: string, b: string)
    requires PlainText(a) && PlainText(b)
    ensures PlainText(a + b)
  {
    forall i | 0 <= i < |a + b| ensures (a + b)[i] != '-' && (a + b)[i] != '/' {
      if i >= |a| {
        assert (a + b)[i] == b[i - |a|];
      }
    }
  }

  // ---------------------------------------------------------------------------------------
  // First pass: re.sub(r'--.*', '', query)
  // ---------------------------------------------------------------------------------------

  /** The suffix of `s` from its first line feed on; empty when `s` has none. */
  function FromNewline(s: string): (r: string)
    ensures |r| <= |s|
    ensures r == [] || r[0] == '\n'
    ensures Count(r, '\n') == Count(s, '\n')
  {
    if s == [] || s[0] == '\n' then s
    else FromNewline(s[1..])
  }

  /**
    Deletes every `--` together with the rest of its line. The line feeds are all kept and no
    `--` is left.
  */
  function StripLineComments(s: string): (r: string)
    ensures |r| <= |s|
    ensures Count(r, '\n') == Count(s, '\n')
    ensures NoDoubleDash(r)
    ensures s != [] && s[0] != '-' ==> r != [] && r[0] == s[0]
    ensures r != [] && r[0] == '-' ==> s != [] && s[0] == '-'
    decreases |s|
  {
    if s == [] then []
    else if |s| >= 2 && s[0] == '-' && s[1] == '-' then
      assert Count(s, '\n') == Count(s[2..], '\n') by {
        assert s[1..][1..] == s[2..];
      }
      StripLineComments(FromNewline(s[2..]))
    else
      var r' := StripLineComments(s[1..]);
      var r := [s[0]] + r';
      assert forall i :: 1 <= i < |r| ==> r[i] == r'[i - 1];
      NoPairCons(s[0], r', '-', '-');
      r
  }

  /** Index of the first `--` in `s`; `|s|` when there is none. */
  function FirstDoubleDash(s: string): (k: nat)
    ensures k <= |s|
    ensures forall i :: 0 <= i < k ==> !PairAt(s, i, '-', '-')
    ensures k < |s| ==> k + 1 < |s| && s[k] == '-' && s[k + 1] == '-'
  {
    if |s| < 2 then |s|
    else if s[0] == '-' && s[1] == '-' then 0
    else
      PairAtTail(s, '-', '-');
      1 + FirstDoubleDash(s[1..])
  }

  lemma {:induction false} FromNewlineSkips(a: string, rest: string)
    requires NoNewline(a)
    requires rest == [] || rest[0] == '\n'
    ensures FromNewline(a + rest) == rest
    decreases |a|
  {
    if a != [] {
      assert (a + rest)[1..] == a[1..] + rest;
      FromNewlineSkips(a[1..], rest);
    } else {
      assert a + rest == rest;
    }
  }

  /**
    On one line, followed by a line feed or by nothing, the first pass keeps exactly the text
    before the line's first `--`.
  */
  lemma {:induction false} StripLineCommentsOfLine(line: string, rest: string)
    requires NoNewline(line)
    requires rest == [] || rest[0] == '\n'
    ensures StripLineComments(line + rest) == line[..FirstDoubleDash(line)] + StripLineComments(rest)
    decreases |line|
  {
    var s := line + rest;
    if line == [] {
      assert s == rest;
    } else if |line| >= 2 && line[0] == '-' && line[1] == '-' {
      StripLineCommentsSkipCase(line, rest);
      assert line[..FirstDoubleDash(line)] == [];
    } else {
      var k := FirstDoubleDash(line);
      var k' := FirstDoubleDash(line[1..]);
      assert NoNewline(line[1..]);
      calc {
        StripLineComments(line + rest);
        { StripLineCommentsKeepCase(line, rest); }
        [line[0]] + StripLineComments(line[1..] + rest);
        { StripLineCommentsOfLine(line[1..], rest); }
        [line[0]] + (line[1..][..k'] + StripLineComments(rest));
        { ConsAppend(line[0], line[1..][..k'], StripLineComments(rest)); }
        ([line[0]] + line[1..][..k']) + StripLineComments(rest);
        { FirstDoubleDashStep(line); }
        line[..k] + StripLineComments(rest);
      }
    }
  }

  lemma {:induction false} StripLineCommentsSkipCase(line: string, rest: string)
    requires NoNewline(line)
    requires rest == [] || rest[0] == '\n'
    requires |line| >= 2 && line[0] == '-' && line[1] == '-'
    ensures FirstDoubleDash(line) == 0
    ensures StripLineComments(line + rest) == StripLineComments(rest)
  {
    var s := line + rest;
    assert s[0] == '-' && s[1] == '-';
    assert s[2..] == line[2..] + rest;
    FromNewlineSkips(line[2..], rest);
  }

  lemma {:induction false} StripLineCommentsKeepCase(line: string, rest: string)
    requires rest == [] || rest[0] == '\n'
    requires line != [] && !(|line| >= 2 && line[0] == '-' && line[1] == '-')
    ensures StripLineComments(line + rest) == [line[0]] + StripLineComments(line[1..] + rest)
  {
    var s := line + rest;
    assert s[0] == line[0] && s[1..] == line[1..] + rest;
    if |line| >= 2 {
      assert s[1] == line[1];
    } else if rest != [] {
      assert s[1] == '\n';
    }
  }

  lemma {:induction false} FirstDoubleDashStep(line: string)
    requires line != [] && !(|line| >= 2 && line[0] == '-' && line[1] == '-')
    ensures line[..FirstDoubleDash(line)] == [line[0]] + line[1..][..FirstDoubleDash(line[1..])]
  {
    var k := FirstDoubleDash(line);
    if |line| >= 2 {
      assert k == 1 + FirstDoubleDash(line[1..]);
      assert line[..k] == [line[0]] + line[1..][..k - 1];
    } else {
      assert line[..k] == line;
    }
  }

  /** A character that does not open `--` with what follows is kept by the first pass. */
  lemma {:induction false} StripLineCommentsCons(c: char, u: string)
    requires !(c == '-' && u != [] && u[0] == '-')
    ensures StripLineComments([c] + u) == [c] + StripLineComments(u)
  {
    var s := [c] + u;
    assert s[0] == c && s[1..] == u;
    if u != [] {
      assert s[1] == u[0];
    }
  }

  /** A statement without `--` passes the first pass unchanged. */
  lemma {:induction false} StripLineCommentsUnchanged(s: string)
    requires NoDoubleDash(s)
    ensures StripLineComments(s) == s
    decreases |s|
  {
    if s != [] {
      assert |s| >= 2 ==> !PairAt(s, 0, '-', '-');
      NoPairTail(s, '-', '-');
      StripLineCommentsUnchanged(s[1..]);
      assert s == [s[0]] + s[1..];
      StripLineCommentsCons(s[0], s[1..]);
    }
  }

  /** Text without any `-` in front of the statement passes through the first pass as is. */
  lemma {:induction false} StripLineCommentsPrefix(p: string, t: string)
    requires forall i :: 0 <= i < |p| ==> p[i] != '-'
    ensures StripLineComments(p + t) == p + StripLineComments(t)
    decreases |p|
  {
    if p == [] {
      assert p + t == t;
    } else {
      var u := p[1..] + t;
      SplitHead(p, t);
      assert p[0] != '-';
      StripLineCommentsCons(p[0], u);
      StripLineCommentsPrefix(p[1..], t);
      ConsAppend(p[0], p[1..], StripLineComments(t));
    }
  }

  // ---------------------------------------------------------------------------------------
  // Second pass: shortest block comments, across line feeds (re.DOTALL)
  // ---------------------------------------------------------------------------------------

  /** Index of the first block-comment closer (star, slash) in `t`. */
  function FindCloser(t: string): (j: Option<nat>)
    ensures j.Some? ==> j.value + 1 < |t| && t[j.value] == '*' && t[j.value + 1] == '/'
    ensures j.Some? ==> PairAt(t, j.value, '*', '/')
    ensures j.Some? ==> NoCloser(t[..j.value + 1])
    ensures j.None? ==> NoCloser(t)
  {
    if |t| < 2 then None
    else if t[0] == '*' && t[1] == '/' then Some(0)
    else
      match FindCloser(t[1..])
      case Some(j) =>
        assert t[..j + 2] == [t[0]] + t[1..][..j + 1];
        NoPairCons(t[0], t[1..][..j + 1], '*', '/');
        Some(j + 1)
      case None =>
        assert t == [t[0]] + t[1..];
        NoPairCons(t[0], t[1..], '*', '/');
        None
  }

  /**
    Deletes every comment opener through the nearest closer after it; an opener with no
    closer after it is left in place.
  */
  function StripBlockComments(s: string): (r: string)
    ensures |r| <= |s|
    decreases |s|
  {
    if s == [] then []
    else if |s| >= 2 && s[0] == '/' && s[1] == '*' then
      match FindCloser(s[2..])
      case Some(j) => StripBlockComments(s[2..][j + 2..])
      case None => [s[0]] + StripBlockComments(s[1..])
    else [s[0]] + StripBlockComments(s[1..])
  }

  lemma {:induction false} FindCloserAfter(b: string, c: string)
    requires NoCloser(b)
    ensures FindCloser(b + "*/" + c) == Some(|b|)
    decreases |b|
  {
    var t := b + "*/" + c;
    if b != [] {
      assert t[1..] == b[1..] + "*/" + c;
      NoPairTail(b, '*', '/');
      FindCloserAfter(b[1..], c);
      if |b| >= 2 {
        assert !(t[0] == '*' && t[1] == '/') by {
          assert t[0] == b[0] && t[1] == b[1];
          assert !PairAt(b, 0, '*', '/');
        }
      } else {
        assert t[1] == '*';
      }
    }
  }

  /** Each comment opener is removed through the nearest closer that follows it. */
  lemma {:induction false} StripBlockCommentsRemoves(b: string, c: string)
    requires NoCloser(b)
    ensures StripBlockComments("/*" + b + "*/" + c) == StripBlockComments(c)
  {
    var s := "/*" + b + "*/" + c;
    assert s[2..] == b + "*/" + c;
    FindCloserAfter(b, c);
    assert s[2..][|b| + 2..] == c;
  }

  /** A character that does not open a block comment with what follows is kept by the second pass. */
  lemma {:induction false} StripBlockCommentsCons(c: char, u: string)
    requires !(c == '/' && u != [] && u[0] == '*')
    ensures StripBlockComments([c] + u) == [c] + StripBlockComments(u)
  {
    var s := [c] + u;
    assert s[0] == c && s[1..] == u;
    if u != [] {
      assert s[1] == u[0];
    }
  }

  /** Text without a comment closer passes the second pass unchanged. */
  lemma {:induction false} StripBlockCommentsNoCloser(s: string)
    requires NoCloser(s)
    ensures StripBlockComments(s) == s
    decreases |s|
  {
    if s != [] {
      NoPairTail(s, '*', '/');
      StripBlockCommentsNoCloser(s[1..]);
      if |s| >= 2 && s[0] == '/' && s[1] == '*' {
        NoPairTail(s[1..], '*', '/');
        assert s[1..][1..] == s[2..];
      } else {
        assert s == [s[0]] + s[1..];
        StripBlockCommentsCons(s[0], s[1..]);
      }
    }
  }

  /** An unterminated comment opener is left as it is, with everything after it. */
  lemma {:induction false} StripBlockCommentsUnterminated(b: string)
    requires NoCloser(b)
    ensures StripBlockComments("/*" + b) == "/*" + b
  {
    var s := "/*" + b;
    assert s[2..] == b;
    assert s[1..] == "*" + b;
    assert s[1..][1..] == b;
    StripBlockCommentsNoCloser(b);
  }

  /** Text without a comment opener passes the second pass unchanged. */
  lemma {:induction false} StripBlockCommentsUnchanged(s: string)
    requires NoOpener(s)
    ensures StripBlockComments(s) == s
    decreases |s|
  {
    if s != [] {
      assert |s| >= 2 ==> !PairAt(s, 0, '/', '*');
      NoPairTail(s, '/', '*');
      StripBlockCommentsUnchanged(s[1..]);
      assert s == [s[0]] + s[1..];
      StripBlockCommentsCons(s[0], s[1..]);
    }
  }

  /**
    Text without a comment opener in front of the rest of the statement, and not forming one
    with it, passes through the second pass as it is.
  */
  lemma {:induction false} StripBlockCommentsPrefix(a: string, t: string)
    requires NoOpener(a)
    requires a == [] || a[|a| - 1] != '/' || t == [] || t[0] != '*'
    ensures StripBlockComments(a + t) == a + StripBlockComments(t)
    decreases |a|
  {
    if a == [] {
      assert a + t == t;
    } else {
      var u := a[1..] + t;
      SplitHead(a, t);
      if |a| >= 2 {
        assert u[0] == a[1];
        assert !PairAt(a, 0, '/', '*');
      } else {
        assert u == t;
      }
      StripBlockCommentsCons(a[0], u);
      NoPairTail(a, '/', '*');
      if a[1..] != [] {
        assert a[1..][|a[1..]| - 1] == a[|a| - 1];
      }
      StripBlockCommentsPrefix(a[1..], t);
      ConsAppend(a[0], a[1..], StripBlockComments(t));
    }
  }

  // ---------------------------------------------------------------------------------------
  // strip_sql_comments and the verb
  // ---------------------------------------------------------------------------------------

  /** `strip_sql_comments`: line comments first, then block comments. */
  function StripSqlComments(s: string): (r: string)
    ensures |r| <= |s|
  {
    StripBlockComments(StripLineComments(s))
  }

  /** A statement containing neither a line-comment nor a block-comment marker is returned unchanged. */
  lemma {:induction false} StripSqlCommentsUnchanged(s: string)
    requires NoDoubleDash(s) && NoOpener(s)
    ensures StripSqlComments(s) == s
  {
    StripLineCommentsUnchanged(s);
    StripBlockCommentsUnchanged(s);
  }

  /** A plain head of a statement survives both passes as it is. */
  lemma {:induction false} StripSqlCommentsPrefix(p: string, t: string)
    requires PlainText(p)
    ensures StripSqlComments(p + t) == p + StripSqlComments(t)
  {
    StripLineCommentsPrefix(p, t);
    assert NoOpener(p);
    StripBlockCommentsPrefix(p, StripLineComments(t));
  }

  /** `strip_sql_comments(query).strip()`, the statement `run_sql` executes. */
  function Cleaned(query: string): (r: string)
    ensures |r| <= |query|
    ensures r == [] || (!IsSpace(r[0]) && !IsSpace(r[|r| - 1]))
  {
    Trim(StripSqlComments(query))
  }

  /** Index of the first whitespace character in `s`; `|s|` when there is none. */
  function TokenEnd(s: string): (k: nat)
    ensures k <= |s|
    ensures NoSpace(s[..k])
    ensures k < |s| ==> IsSpace(s[k])
  {
    if s == [] || IsSpace(s[0]) then 0
    else
      var k' := TokenEnd(s[1..]);
      assert forall i :: 1 <= i < 1 + k' ==> s[i] == s[1..][i - 1];
      1 + k'
  }

  /** `s.split()[0]`: the first whitespace-delimited word of `s`, or None when there is none. */
  function FirstToken(s: string): (t: Option<string>)
    ensures t.None? <==> AllSpace(s)
    ensures t.Some? ==> |t.value| > 0 && NoSpace(t.value)
  {
    var u := TrimStart(s);
    if u == [] then
      assert s[..LeadingSpaces(s)] == s;
      None
    else
      Some(u[..TokenEnd(u)])
  }

  /** The first word of a text that starts with a word followed by whitespace or nothing. */
  lemma {:induction false} FirstTokenOf(v: string, rest: string)
    requires |v| > 0 && NoSpace(v)
    requires rest == [] || IsSpace(rest[0])
    ensures FirstToken(v + rest) == Some(v)
  {
    var s := v + rest;
    assert !IsSpace(s[0]);
    assert LeadingSpaces(s) == 0;
    assert TrimStart(s) == s;
    TokenEndOf(v, rest);
    assert s[..|v|] == v;
  }

  lemma {:induction false} TokenEndOf(v: string, rest: string)
    requires NoSpace(v)
    requires rest == [] || IsSpace(rest[0])
    ensures TokenEnd(v + rest) == |v|
    decreases |v|
  {
    if v != [] {
      assert (v + rest)[1..] == v[1..] + rest;
      TokenEndOf(v[1..], rest);
    } else {
      assert v + rest == rest;
    }
  }

  /**
    The verb of a statement: its cleaned text's first word, upper-cased; None when nothing is
    left once comments and surrounding whitespace are gone.
  */
  function Verb(query: string): (v: Option<string>)
    ensures v.None? <==> Cleaned(query) == []
    ensures v.Some? ==> |v.value| > 0
  {
    match FirstToken(Cleaned(query))
    case None => None
    case Some(w) => Some(Upper(w))
  }

  /** What `run_sql` does with a statement once executed, decided by its verb. */
  datatype StatementKind =
    | Query        // SELECT, WITH: every result row is fetched
    | Insert       // INSERT: committed explicitly, the last row id is returned
    | Mutate       // UPDATE, DELETE, CREATE: committed explicitly, the row count is returned
    | Unsupported  // anything else: no result

  /** Each kind is exactly the verbs `run_sql` lists for it; every other verb is unsupported. */
  function KindOf(verb: string): (k: StatementKind)
    ensures k == Query <==> verb == "SELECT" || verb == "WITH"
    ensures k == Insert <==> verb == "INSERT"
    ensures k == Mutate <==> verb == "UPDATE" || verb == "DELETE" || verb == "CREATE"
    ensures k == Unsupported <==> verb !in ["SELECT", "WITH", "INSERT", "UPDATE", "DELETE", "CREATE"]
  {
    if verb == "SELECT" || verb == "WITH" then Query
    else if verb == "INSERT" then Insert
    else if verb == "UPDATE" || verb == "DELETE" || verb == "CREATE" then Mutate
    else Unsupported
  }

  /** The kind of a statement; None when its cleaned text is empty and has no first word. */
  function Classify(query: string): (r: Option<StatementKind>)
    ensures r.None? <==> Cleaned(query) == []
    ensures r == Some(Query) <==> Verb(query) == Some("SELECT") || Verb(query) == Some("WITH")
    ensures r == Some(Insert) <==> Verb(query) == Some("INSERT")
    ensures r == Some(Mutate) <==>
      Verb(query) == Some("UPDATE") || Verb(query) == Some("DELETE") || Verb(query) == Some("CREATE")
  {
    match Verb(query)
    case None => None
    case Some(v) => Some(KindOf(v))
  }

  /**
    A statement that begins with a plain word and a space (as every statement the pipeline
    builds does) has that word, upper-cased, as its verb, whatever follows it.
  */
  lemma {:induction false} VerbOfPlainStatement(v: string, w: string, t: string)
    requires |v| > 0 && NoSpace(v)
    requires PlainText(v + " " + w)
    ensures Verb(v + " " + w + t) == Some(Upper(v))
  {
    var y := " " + w + StripSqlComments(t);
    CleanedOfPlainStatement(v, w, t);
    TrimAfterWord(v, y);
    var r := Trim(v + y);
    FirstTokenOf(v, r[|v|..]);
  }

  lemma {:induction false} CleanedOfPlainStatement(v: string, w: string, t: string)
    requires PlainText(v + " " + w)
    ensures Cleaned(v + " " + w + t) == Trim(v + (" " + w + StripSqlComments(t)))
  {
    var p := v + " " + w;
    var x := StripSqlComments(t);
    StripSqlCommentsPrefix(p, t);
    AppendAssoc3(v, " ", w);
    AppendAssoc3(v, " " + w, x);
    assert StripSqlComments(p + t) == v + (" " + w + x);
  }

  /**
    The same for a plain head `p` whose first word ends at index `k`: the verb of `p + t` is
    that word, upper-cased.
  */
  lemma {:induction false} VerbOfPlainHead(p: string, k: nat, t: string)
    requires 0 < k < |p| && NoSpace(p[..k]) && p[k] == ' '
    requires PlainText(p)
    ensures Verb(p + t) == Some(Upper(p[..k]))
  {
    var v, w := p[..k], p[k + 1..];
    assert p == v + " " + w;
    VerbOfPlainStatement(v, w, t);
  }

  // ---------------------------------------------------------------------------------------
  // Classification ignores letter case
  // ---------------------------------------------------------------------------------------

  /** The characters the comment passes look at are their own only upper-case form. */
  lemma {:induction false} CaseEquivMarks(a: char, b: char)
    requires UpperChar(a) == UpperChar(b)
    ensures a == '-' <==> b == '-'
    ensures a == '/' <==> b == '/'
    ensures a == '*' <==> b == '*'
    ensures a == '\n' <==> b == '\n'
  {
    if a == '-' || a == '/' || a == '*' || a == '\n' { UpperCharFixed(a, b); }
    if b == '-' || b == '/' || b == '*' || b == '\n' { UpperCharFixed(b, a); }
  }

  lemma {:induction false} CaseEquivTail(a: string, b: string, k: nat)
    requires CaseEquiv(a, b) && k <= |a|
    ensures CaseEquiv(a[k..], b[k..])
  {
    assert forall i :: 0 <= i < |a| - k ==> a[k..][i] == a[k + i] && b[k..][i] == b[k + i];
  }

  lemma {:induction false} FromNewlineCaseEquiv(a: string, b: string)
    requires CaseEquiv(a, b)
    ensures CaseEquiv(FromNewline(a), FromNewline(b))
    decreases |a|
  {
    if a != [] {
      CaseEquivMarks(a[0], b[0]);
      if a[0] != '\n' {
        CaseEquivTail(a, b, 1);
        FromNewlineCaseEquiv(a[1..], b[1..]);
      }
    }
  }

  lemma {:induction false} StripLineCommentsCaseEquiv(a: string, b: string)
    requires CaseEquiv(a, b)
    ensures CaseEquiv(StripLineComments(a), StripLineComments(b))
    decreases |a|
  {
    if a != [] {
      CaseEquivMarks(a[0], b[0]);
      if |a| >= 2 {
        CaseEquivMarks(a[1], b[1]);
      }
      if |a| >= 2 && a[0] == '-' && a[1] == '-' {
        CaseEquivTail(a, b, 2);
        FromNewlineCaseEquiv(a[2..], b[2..]);
        StripLineCommentsCaseEquiv(FromNewline(a[2..]), FromNewline(b[2..]));
      } else {
        CaseEquivTail(a, b, 1);
        StripLineCommentsCaseEquiv(a[1..], b[1..]);
      }
    }
  }

  lemma {:induction false} FindCloserCaseEquiv(a: string, b: string)
    requires CaseEquiv(a, b)
    ensures FindCloser(a) == FindCloser(b)
    decreases |a|
  {
    if |a| >= 2 {
      CaseEquivMarks(a[0], b[0]);
      CaseEquivMarks(a[1], b[1]);
      CaseEquivTail(a, b, 1);
      FindCloserCaseEquiv(a[1..], b[1..]);
    }
  }

  lemma {:induction false} StripBlockCommentsCaseEquiv(a: string, b: string)
    requires CaseEquiv(a, b)
    ensures CaseEquiv(StripBlockComments(a), StripBlockComments(b))
    decreases |a|
  {
    if a != [] {
      CaseEquivMarks(a[0], b[0]);
      if |a| >= 2 {
        CaseEquivMarks(a[1], b[1]);
      }
      CaseEquivTail(a, b, 1);
      StripBlockCommentsCaseEquiv(a[1..], b[1..]);
      if |a| >= 2 && a[0] == '/' && a[1] == '*' {
        CaseEquivTail(a, b, 2);
        FindCloserCaseEquiv(a[2..], b[2..]);
        match FindCloser(a[2..])
        case Some(j) =>
          CaseEquivTail(a[2..], b[2..], j + 2);
          StripBlockCommentsCaseEquiv(a[2..][j + 2..], b[2..][j + 2..]);
        case None =>
      }
    }
  }

  lemma {:induction false} TokenEndCaseEquiv(a: string, b: string)
    requires CaseEquiv(a, b)
    ensures TokenEnd(a) == TokenEnd(b)
    decreases |a|
  {
    if a != [] {
      CaseEquivSpace(a[0], b[0]);
      CaseEquivTail(a, b, 1);
      TokenEndCaseEquiv(a[1..], b[1..]);
    }
  }

  lemma {:induction false} UpperCaseEquiv(a: string, b: string)
    requires CaseEquiv(a, b)
    ensures Upper(a) == Upper(b)
  {
  }

  /**
    Classification is case-insensitive: two statements that differ only in the case of their
    letters have the same verb.
  */
  lemma {:induction false} VerbCaseInsensitive(a: string, b: string)
    requires CaseEquiv(a, b)
    ensures Verb(a) == Verb(b)
  {
    StripLineCommentsCaseEquiv(a, b);
    StripBlockCommentsCaseEquiv(StripLineComments(a), StripLineComments(b));
    var ca, cb := Cleaned(a), Cleaned(b);
    TrimCaseEquiv(StripSqlComments(a), StripSqlComments(b));
    LeadingSpacesCaseEquiv(ca, cb);
    var k := LeadingSpaces(ca);
    CaseEquivTail(ca, cb, k);
    TokenEndCaseEquiv(ca[k..], cb[k..]);
    if FirstToken(ca).Some? {
      var e := TokenEnd(ca[k..]);
      assert CaseEquiv(ca[k..][..e], cb[k..][..e]);
      UpperCaseEquiv(ca[k..][..e], cb[k..][..e]);
    }
  }

  // ---------------------------------------------------------------------------------------
  // Statements with comments, worked through
  // ---------------------------------------------------------------------------------------

  /** When the first pass leaves plain text followed by whitespace, the cleaned statement is that
      text. */
  lemma {:induction false} CleanedAfterLineComments(q: string, x: string, sp: string)
    requires StripLineComments(q) == x + sp
    requires PlainText(x) && AllSpace(sp)
    requires x != [] && !IsSpace(x[0]) && !IsSpace(x[|x| - 1])
    ensures Cleaned(q) == x
  {
    assert forall i :: 0 <= i < |x + sp| ==> (x + sp)[i] != '/';
    StripBlockCommentsUnchanged(x + sp);
    TrimSpacesAfter(x, sp);
  }

  /** The verb of a statement whose cleaned text starts with the word `v`. */
  lemma {:induction false} VerbOfCleaned(q: string, v: string, rest: string)
    requires Cleaned(q) == v + rest
    requires |v| > 0 && NoSpace(v)
    requires rest == [] || IsSpace(rest[0])
    ensures Verb(q) == Some(Upper(v))
  {
    FirstTokenOf(v, rest);
  }

  /** Text with no `-`, then a line comment and a line feed, keeps the text and the line feed. */
  lemma {:induction false} TrailingLineComment(x: string, c: string)
    requires forall i :: 0 <= i < |x| ==> x[i] != '-'
    requires NoNewline(c) && |c| >= 2 && c[0] == '-' && c[1] == '-'
    ensures StripLineComments(x + c + "\n") == x + "\n"
  {
    assert x + c + "\n" == x + (c + "\n");
    StripLineCommentsPrefix(x, c + "\n");
    StripLineCommentsSkipCase(c, "\n");
    StripLineCommentsUnchanged("\n");
  }

  /**
    `SELECT * FROM t -- comment` and a final line feed: the line comment is removed, the
    statement executed is `SELECT * FROM t`, and it is a query.
  */
  lemma {:induction false} SelectWithLineComment(q: string, x: string)
    requires q == "SELECT * FROM t -- comment\n"
    requires x == "SELECT * FROM t"
    ensures Cleaned(q) == x
    ensures Verb(q) == Some("SELECT")
    ensures Classify(q) == Some(Query)
  {
    SelectLineCommentStripped(q, x);
    SelectTextShape(x, "SELECT", " * FROM t");
    CleanedAfterLineComments(q, x, " \n");
    VerbOfCleaned(q, "SELECT", " * FROM t");
    KindOfVerb("SELECT");
  }

  lemma {:induction false} SelectTextShape(x: string, v: string, rest: string)
    requires x == "SELECT * FROM t" && v == "SELECT" && rest == " * FROM t"
    ensures PlainText(x) && x != [] && !IsSpace(x[0]) && !IsSpace(x[|x| - 1])
    ensures x == v + rest && |v| > 0 && NoSpace(v) && IsSpace(rest[0])
  {
  }

  lemma {:induction false} SelectLineCommentStripped(q: string, x: string)
    requires q == "SELECT * FROM t -- comment\n"
    requires x == "SELECT * FROM t"
    ensures StripLineComments(q) == x + " \n"
  {
    var c := "-- comment";
    assert q == (x + " ") + c + "\n";
    assert x + " \n" == (x + " ") + "\n";
    TrailingLineComment(x + " ", c);
  }

  /**
    The verbs of the worked statements above (SELECT, DROP) and of the pipeline's own statements
    (INSERT, SELECT, WITH), and their kinds.
  */
  lemma {:induction false} KindOfVerb(v: string)
    requires v == "INSERT" || v == "SELECT" || v == "WITH" || v == "DROP"
    ensures Upper(v) == v
    ensures KindOf(v) == if v == "INSERT" then Insert else if v == "DROP" then Unsupported else Query
  {
    UpperOfUpper(v);
  }

  /** `DROP` followed by a block comment and `TABLE t` has the verb DROP, which no branch of
      `run_sql` handles. */
  lemma {:induction false} DropIsUnsupported(q: string)
    requires q == "DROP /* x */ TABLE t"
    ensures Verb(q) == Some("DROP")
    ensures Classify(q) == Some(Unsupported)
  {
    DropTextShape(q);
    VerbOfPlainStatement("DROP", "", "/* x */ TABLE t");
    KindOfVerb("DROP");
  }

  lemma {:induction false} DropTextShape(q: string)
    requires q == "DROP /* x */ TABLE t"
    ensures q == "DROP" + " " + "" + "/* x */ TABLE t"
    ensures NoSpace("DROP") && PlainText("DROP" + " " + "")
  {
  }
}
