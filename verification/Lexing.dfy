/** The lexer of dsl/lexer.go, and what happens when tokens are written out with spaces and read again. */
module Lexing {
  import opened Wrappers

  /** The character classes of the Unicode tables. */
  datatype Chars = Chars(isSpace: char -> bool, isLetter: char -> bool, isDigit: char -> bool)

  const Punctuation: string := "-|>=<!&{}()[]:@,\"/#\\._"

  /** What the lexer relies on: disjoint classes, the ASCII letters and digits, and punctuation outside of all. */
  ghost predicate ValidChars(cc: Chars)
  {
    && (forall c :: !(cc.isSpace(c) && cc.isLetter(c)) && !(cc.isSpace(c) && cc.isDigit(c)) && !(cc.isLetter(c) && cc.isDigit(c)))
    && cc.isSpace(' ')
    && (forall c :: 'a' <= c <= 'z' ==> cc.isLetter(c)) && (forall c :: '0' <= c <= '9' ==> cc.isDigit(c))
    && (forall c :: c in Punctuation ==> !cc.isSpace(c) && !cc.isLetter(c) && !cc.isDigit(c))
  }

  datatype Kind = EndOfFile | Ident | Str | Number | Keyword | Symbol

  /** The type of a keyword or symbol token is given by its text. */
  datatype Token = Token(kind: Kind, value: string)

  const Keywords: set<string> :=
    {"schema", "version", "domain", "asset", "initial_state", "register", "event", "fn", "var", "require", "requires",
     "observable", "indexed"}

  predicate IsDouble(s: string)
  {
    s == "-|" || s == "|>" || s == ">=" || s == "<=" || s == "==" || s == "!=" || s == "&&" || s == "||"
  }

  predicate IsSingle(c: char)
  {
    c == '{' || c == '}' || c == '(' || c == ')' || c == '[' || c == ']' || c == ':' || c == '@' || c == ',' || c == '>' || c == '<'
  }

  predicate IdentStart(cc: Chars, c: char)
  {
    cc.isLetter(c) || c == '_'
  }

  predicate IdentContinue(cc: Chars, c: char)
  {
    cc.isLetter(c) || cc.isDigit(c) || c == '_' || c == '.'
  }

  // ---- The specification, on the remaining text ---------------------------------------------------------

  /** The rest after a line comment. */
  function SkipLine(s: string): (r: string)
    ensures |r| <= |s|
  {
    if s == "" || s[0] == '\n' then s else SkipLine(s[1..])
  }

  predicate StartsComment(s: string)
  {
    (|s| > 1 && s[0] == '/' && s[1] == '/') || (s != "" && s[0] == '#')
  }

  function SkipSpace(cc: Chars, s: string): (r: string)
    ensures |r| <= |s|
    decreases |s|
  {
    if s == "" then s
    else if StartsComment(s) then SkipSpace(cc, SkipLine(s[1..]))
    else if cc.isSpace(s[0]) then SkipSpace(cc, s[1..])
    else s
  }

  /** What a backslash followed by `c` stands for. */
  function Escaped(c: char): string
  {
    match c
    case 'n' => "\n"
    case 't' => "\t"
    case '\\' => "\\"
    case '"' => "\""
    case _ => ['\\', c]
  }

  /** The value of a string literal whose opening quote has been read, and the rest after its closing quote. */
  function ReadString(s: string): (r: Option<(string, string)>)
    ensures r.Some? ==> |r.value.1| < |s|
  {
    if s == "" then None
    else if s[0] == '"' then Some(("", s[1..]))
    else if s[0] == '\\' then
      if |s| == 1 then None
      else
        var tail := ReadString(s[2..]);
        if tail.None? then None else Some((Escaped(s[1]) + tail.value.0, tail.value.1))
    else
      var tail := ReadString(s[1..]);
      if tail.None? then None else Some(([s[0]] + tail.value.0, tail.value.1))
  }

  /** Length of the longest prefix of characters of a class. */
  function Span(s: string, p: char -> bool): (n: nat)
    ensures n <= |s|
  {
    if s == "" || !p(s[0]) then 0 else 1 + Span(s[1..], p)
  }

  function Continues(cc: Chars): char -> bool
  {
    c => IdentContinue(cc, c)
  }

  function Word(value: string): Token
  {
    Token(if value in Keywords then Keyword else Ident, value)
  }

  /** The first token of a text that does not start with space, and the rest. */
  function LexOne(cc: Chars, s: string): (r: Option<(Token, string)>)
    requires s != ""
    ensures r.Some? ==> |r.value.1| < |s|
  {
    if |s| >= 2 && IsDouble(s[..2]) then Some((Token(Symbol, s[..2]), s[2..]))
    else if IsSingle(s[0]) then Some((Token(Symbol, s[..1]), s[1..]))
    else if s[0] == '"' then
      var r := ReadString(s[1..]);
      if r.None? then None else Some((Token(Str, r.value.0), r.value.1))
    else if cc.isDigit(s[0]) then
      var n := Span(s, cc.isDigit);
      Some((Token(Number, s[..n]), s[n..]))
    else if IdentStart(cc, s[0]) then
      var n := Span(s, Continues(cc));
      if n == 0 then None else Some((Word(s[..n]), s[n..]))
    else None
  }

  /** `Tokenize`: all tokens up to the end of the text, or nothing when there is a lexical error. */
  function Lex(cc: Chars, s: string): Option<seq<Token>>
    decreases |s|
  {
    var r := SkipSpace(cc, s);
    if r == "" then Some([Token(EndOfFile, "")])
    else
      var t := LexOne(cc, r);
      if t.None? then None
      else
        var tail := Lex(cc, t.value.1);
        if tail.None? then None else Some([t.value.0] + tail.value)
  }

  // ---- The lexer --------------------------------------------------------------------------------------------

  class Lexer {
    const cc: Chars
    const input: string
    var pos: nat
    var line: nat
    var tokens: seq<(Token, nat)>

    ghost predicate Valid()
      reads this`pos
    {
      pos <= |input|
    }

    ghost function Rest(): string
      requires Valid()
      reads this`pos
    {
      input[pos..]
    }

    constructor (cc: Chars, input: string)
      ensures Valid() && this.cc == cc && this.input == input && Rest() == input && tokens == []
    {
      this.cc := cc;
      this.input := input;
      pos, line, tokens := 0, 1, [];
    }

    method SkipToLineEnd()
      requires Valid()
      modifies this`pos
      ensures Valid() && Rest() == SkipLine(old(Rest())) && pos >= old(pos)
      ensures old(pos) < |input| && input[old(pos)] != '\n' ==> pos > old(pos)
    {
      while pos < |input| && input[pos] != '\n'
        invariant Valid() && SkipLine(Rest()) == SkipLine(old(Rest())) && pos >= old(pos)
        invariant old(pos) < |input| && input[old(pos)] != '\n' && pos == old(pos) ==> input[pos] != '\n'
        decreases |input| - pos
      {
        assert input[pos..][1..] == input[pos + 1..];
        pos := pos + 1;
      }
    }

    method SkipWhitespace()
      requires Valid()
      modifies this`pos, this`line
      ensures Valid() && Rest() == SkipSpace(cc, old(Rest())) && pos >= old(pos)
    {
      while pos < |input|
        invariant Valid() && SkipSpace(cc, Rest()) == SkipSpace(cc, old(Rest())) && pos >= old(pos)
        decreases |input| - pos
      {
        var r := input[pos];
        assert input[pos..][1..] == input[pos + 1..];
        if (r == '/' && pos + 1 < |input| && input[pos + 1] == '/') || r == '#' {
          assert StartsComment(Rest()) && SkipLine(Rest()) == SkipLine(Rest()[1..]);
          SkipToLineEnd();
          continue;
        }
        assert !StartsComment(Rest());
        if cc.isSpace(r) {
          if r == '\n' { line := line + 1; }
          pos := pos + 1;
          continue;
        }
        break;
      }
    }

    /** `advance`: the next character, or the zero character at the end. */
    method Advance() returns (r: char)
      requires Valid()
      modifies this`pos, this`line
      ensures Valid()
      ensures old(pos) < |input| ==> r == input[old(pos)] && pos == old(pos) + 1
      ensures old(pos) == |input| ==> r == 0 as char && pos == old(pos)
    {
      if pos >= |input| { return 0 as char; }
      r := input[pos];
      pos := pos + 1;
      if r == '\n' { line := line + 1; }
    }

    /** `readString`, at the opening quote. */
    method ReadStringToken() returns (r: Option<(Token, nat)>)
      requires Valid() && Rest() != "" && Rest()[0] == '"'
      modifies this`pos, this`line
      ensures Valid() && pos >= old(pos)
      ensures var spec := ReadString(old(Rest()[1..]));
        && (r.Some? <==> spec.Some?)
        && (r.Some? ==> r.value.0 == Token(Str, spec.value.0) && Rest() == spec.value.1 && pos > old(pos))
    {
      var start := line;
      ghost var goal := ReadString(Rest()[1..]);
      assert Rest()[1..] == input[pos + 1..];
      var _ := Advance();
      var sb := "";
      EmptyPrefix(ReadString(Rest()));
      while true
        invariant Valid() && Prefixed(sb, ReadString(Rest())) == goal && pos > old(pos)
        decreases |input| - pos
      {
        if pos >= |input| { return None; }
        assert input[pos..][1..] == input[pos + 1..];
        ghost var here := Rest();
        var r := Advance();
        if r == '"' { break; }
        if r == '\\' {
          if pos < |input| { assert here[2..] == input[pos + 1..] && here[1] == input[pos]; }
          var next := Advance();
          PrefixMore(sb, Escaped(next), ReadString(Rest()));
          sb := sb + Escaped(next);
          continue;
        }
        PrefixMore(sb, [r], ReadString(Rest()));
        sb := sb + [r];
      }
      return Some((Token(Str, sb), start));
    }

    /** The loop of `readNumber` and `readIdent`: the longest run of characters of a class. */
    method ReadSpan(p: char -> bool) returns (val: string)
      requires Valid()
      modifies this`pos
      ensures Valid()
      ensures var n := Span(old(Rest()), p); val == old(Rest())[..n] && Rest() == old(Rest())[n..] && pos == old(pos) + n
    {
      var start := pos;
      while pos < |input| && p(input[pos])
        invariant start <= pos <= |input| && Span(old(Rest()), p) == pos - start + Span(Rest(), p)
        decreases |input| - pos
      {
        assert input[pos..][1..] == input[pos + 1..];
        pos := pos + 1;
      }
      val := input[start..pos];
      assert input[start..][..pos - start] == val && input[start..][pos - start..] == input[pos..];
    }

    method ReadNumber() returns (t: (Token, nat))
      requires Valid()
      modifies this`pos
      ensures Valid()
      ensures var n := Span(old(Rest()), cc.isDigit);
        t.0 == Token(Number, old(Rest())[..n]) && Rest() == old(Rest())[n..] && pos == old(pos) + n
    {
      var start := line;
      var val := ReadSpan(cc.isDigit);
      t := (Token(Number, val), start);
    }

    method ReadIdent() returns (t: (Token, nat))
      requires Valid()
      modifies this`pos
      ensures Valid()
      ensures var n := Span(old(Rest()), Continues(cc));
        t.0 == Word(old(Rest())[..n]) && Rest() == old(Rest())[n..] && pos == old(pos) + n
    {
      var start := line;
      var val := ReadSpan(Continues(cc));
      t := (if val in Keywords then Token(Keyword, val) else Token(Ident, val), start);
    }

    /** `next`: the next token and its line; nothing at a lexical error. */
    method Next() returns (r: Option<(Token, nat)>)
      requires Valid()
      modifies this`pos, this`line
      ensures Valid() && pos >= old(pos)
      ensures var rest := SkipSpace(cc, old(Rest()));
        if rest == "" then r.Some? && r.value.0 == Token(EndOfFile, "") && Rest() == ""
        else
          && (r.Some? <==> LexOne(cc, rest).Some?)
          && (r.Some? ==> r.value.0 == LexOne(cc, rest).value.0 && Rest() == LexOne(cc, rest).value.1)
    {
      SkipWhitespace();
      ghost var rest := Rest();
      if pos >= |input| { return Some((Token(EndOfFile, ""), line)); }
      var start := line;
      var r0 := input[pos];
      if pos + 1 < |input| {
        var two := input[pos..pos + 2];
        assert rest[..2] == two && rest[2..] == input[pos + 2..];
        if IsDouble(two) {
          pos := pos + 2;
          return Some((Token(Symbol, two), start));
        }
      }
      assert rest[..1] == [r0] && rest[1..] == input[pos + 1..];
      if IsSingle(r0) {
        var _ := Advance();
        return Some((Token(Symbol, [r0]), start));
      }
      if r0 == '"' {
        r := ReadStringToken();
        return;
      }
      if cc.isDigit(r0) {
        var t := ReadNumber();
        return Some(t);
      }
      if IdentStart(cc, r0) {
        var t := ReadIdent();
        assert Span(rest, Continues(cc)) >= 1;
        return Some(t);
      }
      return None;
    }

    /** `Tokenize` */
    method Tokenize() returns (r: Option<seq<(Token, nat)>>)
      requires Valid() && tokens == []
      modifies this
      ensures Valid()
      ensures r.Some? <==> Lex(cc, old(Rest())).Some?
      ensures r.Some? ==> Plain(r.value) == Lex(cc, old(Rest())).value
    {
      ghost var goal := Lex(cc, Rest());
      NothingRead(goal);
      hide SkipSpace, LexOne;
      while true
        invariant Valid() && Appended(Plain(tokens), Lex(cc, Rest())) == goal
        decreases |input| - pos
      {
        ghost var here := Rest();
        LexUnfold(cc, here);
        var tok := Next();
        if tok.None? { return None; }
        TokenRead(Plain(tokens), tok.value.0, Lex(cc, Rest()));
        PlainMore(tokens, tok.value);
        tokens := tokens + [tok.value];
        if tok.value.0.kind == EndOfFile {
          break;
        }
      }
      return Some(tokens);
    }
  }

  /** Tokens without their lines. */
  function Plain(ts: seq<(Token, nat)>): seq<Token>
  {
    seq(|ts|, i requires 0 <= i < |ts| => ts[i].0)
  }

  function Appended(ts: seq<Token>, r: Option<seq<Token>>): Option<seq<Token>>
  {
    if r.None? then None else Some(ts + r.value)
  }

  lemma NothingRead(r: Option<seq<Token>>)
    ensures Appended(Plain([]), r) == r
  {
    assert Plain([]) == [];
    if r.Some? { assert [] + r.value == r.value; }
  }

  lemma PlainMore(ts: seq<(Token, nat)>, t: (Token, nat))
    ensures Plain(ts + [t]) == Plain(ts) + [t.0]
  {
  }

  lemma TokenRead(ts: seq<Token>, t: Token, r: Option<seq<Token>>)
    ensures Appended(ts + [t], r) == Appended(ts, Appended([t], r))
  {
    if r.Some? { assert (ts + [t]) + r.value == ts + ([t] + r.value); }
  }

  lemma LexUnfold(cc: Chars, s: string)
    ensures var rest := SkipSpace(cc, s);
      Lex(cc, s) ==
        if rest == "" then Some([Token(EndOfFile, "")])
        else if LexOne(cc, rest).None? then None
        else Appended([LexOne(cc, rest).value.0], Lex(cc, LexOne(cc, rest).value.1))
    ensures |SkipSpace(cc, s)| <= |s|
    ensures var rest := SkipSpace(cc, s);
      rest != "" && LexOne(cc, rest).Some? ==>
        |LexOne(cc, rest).value.1| < |rest| && LexOne(cc, rest).value.0.kind != EndOfFile
  {
  }

  /** A value read in two parts. */
  function Prefixed(sb: string, r: Option<(string, string)>): Option<(string, string)>
  {
    if r.None? then None else Some((sb + r.value.0, r.value.1))
  }

  lemma EmptyPrefix(r: Option<(string, string)>)
    ensures Prefixed("", r) == r
  {
    if r.Some? { assert "" + r.value.0 == r.value.0; }
  }

  lemma PrefixMore(a: string, b: string, r: Option<(string, string)>)
    ensures Prefixed(a + b, r) == Prefixed(a, Prefixed(b, r))
  {
    if r.Some? { assert (a + b) + r.value.0 == a + (b + r.value.0); }
  }

  // ---- Writing tokens out ---------------------------------------------------------------------------------

  /** A token that the lexer can produce. */
  predicate IsLexeme(cc: Chars, t: Token)
  {
    match t.kind
    case EndOfFile => false
    case Str => true
    case Symbol => IsDouble(t.value) || (|t.value| == 1 && IsSingle(t.value[0]))
    case Number => t.value != "" && AllOf(t.value, cc.isDigit)
    case Keyword => t.value in Keywords
    case Ident => IsName(cc, t.value) && t.value !in Keywords
  }

  predicate IsName(cc: Chars, v: string)
  {
    v != "" && IdentStart(cc, v[0]) && AllOf(v, Continues(cc))
  }

  predicate AllOf(s: string, p: char -> bool)
  {
    forall i :: 0 <= i < |s| ==> p(s[i])
  }

  /** How a token is written. */
  function Written(t: Token): string
  {
    if t.kind == Str then "\"" + t.value + "\"" else t.value
  }

  /** A literal whose text survives being written without escapes: no quote, and no backslash that starts an escape. */
  predicate Survives(v: string)
  {
    if v == "" then true
    else if v[0] == '"' then false
    else if v[0] == '\\' then |v| > 1 && Escaped(v[1]) == ['\\', v[1]] && Survives(v[2..])
    else Survives(v[1..])
  }

  /** Reading a literal never yields more than it consumes. */
  lemma {:induction false} ReadLength(s: string)
    ensures ReadString(s).Some? ==> |ReadString(s).value.0| + 1 + |ReadString(s).value.1| <= |s|
    decreases |s|
  {
    if s != "" && s[0] == '\\' && |s| > 1 {
      ReadLength(s[2..]);
    } else if s != "" && s[0] != '"' {
      ReadLength(s[1..]);
    }
  }

  /** A written literal is read back, with what follows it, exactly when it survives. */
  lemma {:induction false} ReadBack(v: string, rest: string)
    ensures ReadString(v + "\"" + rest) == Some((v, rest)) <==> Survives(v)
    decreases |v|
  {
    var s := v + "\"" + rest;
    if v == "" {
      assert s[0] == '"' && s[1..] == rest;
    } else if v[0] == '"' {
      assert s[0] == '"' && |s[1..]| > |rest|;
    } else if v[0] == '\\' {
      assert s[0] == '\\' && |s| > 1;
      var tail := ReadString(s[2..]);
      ReadLength(s[2..]);
      if |v| > 1 {
        assert s[1] == v[1] && s[2..] == v[2..] + "\"" + rest;
        ReadBack(v[2..], rest);
        if tail.Some? { PairKept(v, tail.value.0); }
      } else {
        assert s[1] == '"';
        if tail.Some? { assert ("\"" + tail.value.0)[0] == '"'; }
      }
    } else {
      assert s[0] == v[0] && s[1..] == v[1..] + "\"" + rest;
      ReadBack(v[1..], rest);
      assert v == [v[0]] + v[1..];
    }
  }

  lemma PairKept(v: string, w: string)
    requires |v| > 1
    ensures Escaped(v[1]) == ['\\', v[1]] && v[0] == '\\' ==> (Escaped(v[1]) + w == v <==> w == v[2..])
    ensures Escaped(v[1]) != ['\\', v[1]] ==> |Escaped(v[1]) + w| == 1 + |w|
  {
    assert v == [v[0], v[1]] + v[2..];
    if Escaped(v[1]) == ['\\', v[1]] { assert (Escaped(v[1]) + w)[2..] == w; }
  }

  /** Reading a written literal never yields its text with more backslashes in front. */
  lemma {:induction false} NoMoreBackslashes(u: string, v: string, rest: string)
    requires u != "" && AllOf(u, c => c == '\\')
    ensures ReadString(v + "\"" + rest).Some? ==> ReadString(v + "\"" + rest).value.0 != u + v
    decreases |v|
  {
    var s := v + "\"" + rest;
    assert (u + v)[0] == '\\';
    if v == "" {
      assert s[0] == '"';
    } else if v[0] == '\\' && |v| > 1 {
      assert s[0] == '\\' && s[1] == v[1] && s[2..] == v[2..] + "\"" + rest;
      if v[1] == '\\' {
        NoMoreBackslashes(u + "\\", v[2..], rest);
        OneBackslashLess(u, v);
      } else {
        assert (u + v)[1] == '\\';
      }
    } else if v[0] == '\\' {
      assert s[0] == '\\' && s[1] == '"';
    }
  }

  lemma OneBackslashLess(u: string, v: string)
    requires u != "" && AllOf(u, c => c == '\\') && |v| > 1 && v[0] == v[1] == '\\'
    ensures forall w :: ['\\'] + w == u + v ==> w == u + "\\" + v[2..]
  {
    forall w | ['\\'] + w == u + v
      ensures w == u + "\\" + v[2..]
    {
      assert w == (u + v)[1..];
      assert forall i :: 0 <= i < |u| ==> (u + v)[i] == '\\';
      assert forall i :: |u| <= i < |u + v| ==> (u + v)[i] == v[i - |u|];
    }
  }

  /** A literal that does not survive is never read back with its own value, whatever follows it. */
  lemma {:induction false} ValueReadBack(v: string, rest: string)
    ensures var r := ReadString(v + "\"" + rest); r.Some? && r.value.0 == v ==> Survives(v)
    decreases |v|
  {
    var s := v + "\"" + rest;
    if v == "" || v[0] == '"' {
      assert s[0] == '"';
    } else if v[0] == '\\' && |v| > 1 {
      assert s[0] == '\\' && s[1] == v[1] && s[2..] == v[2..] + "\"" + rest;
      var tail := ReadString(s[2..]);
      if v[1] == '\\' {
        NoMoreBackslashes("\\", v[2..], rest);
        assert v[1..] == "\\" + v[2..];
        if tail.Some? { assert (['\\'] + tail.value.0)[1..] == tail.value.0; }
      } else {
        if tail.Some? { PairKept(v, tail.value.0); }
        ValueReadBack(v[2..], rest);
      }
    } else if v[0] == '\\' {
      assert s[0] == '\\' && s[1] == '"';
    } else {
      assert s[0] == v[0] && s[1..] == v[1..] + "\"" + rest;
      var tail := ReadString(s[1..]);
      if tail.Some? { assert ([v[0]] + tail.value.0)[1..] == tail.value.0; }
      ValueReadBack(v[1..], rest);
    }
  }

  /** A token followed by nothing or a space. */
  ghost predicate EndsHere(rest: string)
  {
    rest == "" || rest[0] == ' '
  }

  lemma FirstOfWritten(cc: Chars, t: Token)
    requires ValidChars(cc) && IsLexeme(cc, t)
    ensures Written(t) != ""
    ensures !cc.isSpace(Written(t)[0]) && Written(t)[0] != '/' && Written(t)[0] != '#'
  {
    if t.kind == Keyword { KeywordIsName(cc, t.value); }
    if t.kind == Ident && t.value[0] == '_' { assert '_' in Punctuation; }
    assert '/' in Punctuation && '#' in Punctuation && '"' in Punctuation;
    if t.kind == Symbol { SymbolStart(t.value); }
  }

  lemma SymbolStart(v: string)
    requires IsDouble(v) || (|v| == 1 && IsSingle(v[0]))
    ensures v != "" && v[0] in Punctuation && v[0] != '/' && v[0] != '#'
  {
  }

  lemma KeywordIsName(cc: Chars, v: string)
    requires ValidChars(cc) && v in Keywords
    ensures IsName(cc, v) && cc.isLetter(v[0])
  {
    assert v != "" && 'a' <= v[0] <= 'z';
    forall i | 0 <= i < |v|
      ensures 'a' <= v[i] <= 'z' || v[i] == '_'
    {
      KeywordLetter(v, i);
    }
    hide Keywords;
  }

  lemma KeywordLetter(v: string, i: nat)
    requires v in Keywords && i < |v|
    ensures 'a' <= v[i] <= 'z' || v[i] == '_'
  {
    if v == "initial_state" {
    } else if v == "observable" {
    } else if v in {"schema", "version", "domain", "asset", "register"} {
    } else {
    }
  }

  lemma NoSpaceToSkip(cc: Chars, t: Token, rest: string)
    requires ValidChars(cc) && IsLexeme(cc, t)
    ensures Written(t) + rest != "" && SkipSpace(cc, Written(t) + rest) == Written(t) + rest
  {
    FirstOfWritten(cc, t);
    assert (Written(t) + rest)[0] == Written(t)[0];
  }

  lemma {:induction false} SpanOfRun(v: string, rest: string, p: char -> bool)
    requires AllOf(v, p) && (rest == "" || !p(rest[0]))
    ensures Span(v + rest, p) == |v|
  {
    if v == "" {
      assert v + rest == rest;
    } else {
      assert (v + rest)[0] == v[0] && (v + rest)[1..] == v[1..] + rest;
      SpanOfRun(v[1..], rest, p);
    }
  }

  lemma CutRun(v: string, rest: string)
    ensures (v + rest)[..|v|] == v && (v + rest)[|v|..] == rest
  {
  }

  lemma SpaceIsNothingElse(cc: Chars)
    requires ValidChars(cc)
    ensures !cc.isDigit(' ') && !IdentContinue(cc, ' ')
  {
  }

  lemma SymbolReadBack(cc: Chars, v: string, rest: string)
    requires (IsDouble(v) || (|v| == 1 && IsSingle(v[0]))) && EndsHere(rest)
    ensures LexOne(cc, v + rest) == Some((Token(Symbol, v), rest))
  {
    var s := v + rest;
    CutRun(v, rest);
    if |v| == 1 && |s| >= 2 {
      assert s[..2][1] == ' ';
      assert !IsDouble(s[..2]);
    }
  }

  lemma SymbolsStart(v: string)
    ensures v != "" && (IsDouble(v) || IsSingle(v[0])) ==> v[0] in Punctuation && v[0] != '_' && v[0] != '"'
  {
  }

  lemma NotSymbolStart(cc: Chars, s: string)
    requires ValidChars(cc) && s != "" && (cc.isDigit(s[0]) || cc.isLetter(s[0]) || s[0] == '_' || s[0] == '"')
    ensures !(|s| >= 2 && IsDouble(s[..2])) && !IsSingle(s[0])
  {
    assert s[0] in Punctuation ==> !cc.isDigit(s[0]) && !cc.isLetter(s[0]);
    SymbolsStart(s);
    if |s| >= 2 {
      assert s[..2][0] == s[0];
      SymbolsStart(s[..2]);
    }
  }

  lemma NumberReadBack(cc: Chars, v: string, rest: string)
    requires ValidChars(cc) && v != "" && AllOf(v, cc.isDigit) && EndsHere(rest)
    ensures LexOne(cc, v + rest) == Some((Token(Number, v), rest))
  {
    var s := v + rest;
    assert s[0] == v[0];
    CutRun(v, rest);
    SpaceIsNothingElse(cc);
    SpanOfRun(v, rest, cc.isDigit);
    NotSymbolStart(cc, s);
    assert '"' in Punctuation;
  }

  lemma NameReadBack(cc: Chars, v: string, rest: string)
    requires ValidChars(cc) && IsName(cc, v) && (rest == "" || !IdentContinue(cc, rest[0]))
    ensures v + rest != "" && LexOne(cc, v + rest) == Some((Word(v), rest))
  {
    var s := v + rest;
    assert s[0] == v[0];
    CutRun(v, rest);
    SpanOfRun(v, rest, Continues(cc));
    NotSymbolStart(cc, s);
    assert '"' in Punctuation && '_' in Punctuation;
  }

  /** Every token reads back from what is written for it, a string literal if it survives. */
  lemma TokenReadBack(cc: Chars, t: Token, rest: string)
    requires ValidChars(cc) && IsLexeme(cc, t) && (t.kind == Str ==> Survives(t.value)) && EndsHere(rest)
    ensures Written(t) + rest != "" && LexOne(cc, Written(t) + rest) == Some((t, rest))
  {
    var s := Written(t) + rest;
    match t.kind {
      case Symbol => SymbolReadBack(cc, t.value, rest);
      case Number => NumberReadBack(cc, t.value, rest);
      case Ident =>
        SpaceIsNothingElse(cc);
        NameReadBack(cc, t.value, rest);
      case Keyword =>
        SpaceIsNothingElse(cc);
        KeywordIsName(cc, t.value);
        NameReadBack(cc, t.value, rest);
      case Str =>
        assert s[0] == '"' && s[1..] == t.value + "\"" + rest;
        ReadBack(t.value, rest);
        NotSymbolStart(cc, s);
      case EndOfFile =>
    }
  }

  /** Tokens written out with single spaces between them. */
  function Spaced(ts: seq<Token>): string
  {
    if ts == [] then ""
    else if |ts| == 1 then Written(ts[0])
    else Written(ts[0]) + " " + Spaced(ts[1..])
  }

  lemma {:induction false} SpacedAppend(ts: seq<Token>, t: Token)
    ensures Spaced(ts + [t]) == if ts == [] then Written(t) else Spaced(ts) + " " + Written(t)
  {
    if ts == [] {
      assert ts + [t] == [t];
    } else {
      SpacedAppend(ts[1..], t);
      assert (ts + [t])[0] == ts[0] && (ts + [t])[1..] == ts[1..] + [t];
      if |ts| > 1 {
        assert Written(ts[0]) + " " + (Spaced(ts[1..]) + " " + Written(t))
            == (Written(ts[0]) + " " + Spaced(ts[1..])) + " " + Written(t);
      }
    }
  }

  /** All tokens are lexemes, and all literals among them survive. */
  ghost predicate Rewritable(cc: Chars, ts: seq<Token>)
  {
    forall i :: 0 <= i < |ts| ==> IsLexeme(cc, ts[i]) && (ts[i].kind == Str ==> Survives(ts[i].value))
  }

  lemma LexAfterSpace(cc: Chars, s: string)
    requires ValidChars(cc)
    ensures Lex(cc, " " + s) == Lex(cc, s)
  {
    assert (" " + s)[0] == ' ' && (" " + s)[1..] == s;
    assert SkipSpace(cc, " " + s) == SkipSpace(cc, s);
    LexUnfold(cc, " " + s);
    LexUnfold(cc, s);
  }

  lemma RewritableParts(cc: Chars, ts: seq<Token>)
    requires Rewritable(cc, ts) && ts != []
    ensures IsLexeme(cc, ts[0]) && (ts[0].kind == Str ==> Survives(ts[0].value)) && Rewritable(cc, ts[1..])
  {
    hide IsLexeme, Survives;
  }

  lemma LexWritten(cc: Chars, t: Token, rest: string)
    requires ValidChars(cc) && IsLexeme(cc, t) && (t.kind == Str ==> Survives(t.value)) && EndsHere(rest)
    ensures Lex(cc, Written(t) + rest) == Appended([t], Lex(cc, rest))
  {
    hide *;
    NoSpaceToSkip(cc, t, rest);
    TokenReadBack(cc, t, rest);
    LexUnfold(cc, Written(t) + rest);
  }

  lemma LexEmpty(cc: Chars)
    ensures Lex(cc, "") == Some([Token(EndOfFile, "")]) && Spaced([]) == ""
  {
  }

  /** What follows the first token of a written sequence reads as the remaining tokens. */
  lemma LexFollowing(cc: Chars, ts: seq<Token>) returns (rest: string)
    requires ValidChars(cc) && ts != []
    ensures Spaced(ts) == Written(ts[0]) + rest && EndsHere(rest) && Lex(cc, rest) == Lex(cc, Spaced(ts[1..]))
  {
    SpacedFront(ts);
    rest := if |ts| == 1 then "" else " " + Spaced(ts[1..]);
    if |ts| == 1 { assert ts[1..] == []; }
    LexEmpty(cc);
    hide Lex, Written, ValidChars, Spaced;
    if |ts| > 1 { LexAfterSpace(cc, Spaced(ts[1..])); }
  }

  /** Writing tokens out and reading the text again gives the same tokens. */
  lemma {:induction false} RetokenizedSame(cc: Chars, ts: seq<Token>)
    requires ValidChars(cc) && Rewritable(cc, ts)
    ensures Lex(cc, Spaced(ts)) == Some(ts + [Token(EndOfFile, "")])
  {
    hide *;
    var eof := [Token(EndOfFile, "")];
    if ts == [] {
      LexEmpty(cc);
      assert [] + eof == eof;
    } else {
      RewritableParts(cc, ts);
      var rest := LexFollowing(cc, ts);
      LexWritten(cc, ts[0], rest);
      RetokenizedSame(cc, ts[1..]);
      AppendedFirst(ts);
    }
  }

  /** Lexemes are read back as they were written exactly when the string literals among them survive. */
  lemma {:induction false} RetokenizedIff(cc: Chars, ts: seq<Token>)
    requires ValidChars(cc) && forall i :: 0 <= i < |ts| ==> IsLexeme(cc, ts[i])
    ensures Lex(cc, Spaced(ts)) == Some(ts + [Token(EndOfFile, "")]) <==> Rewritable(cc, ts)
  {
    hide IsLexeme, Lex, Spaced, Survives, ValidChars;
    if Rewritable(cc, ts) {
      RetokenizedSame(cc, ts);
    } else {
      NotRetokenized(cc, ts);
    }
  }

  lemma {:induction false} NotRetokenized(cc: Chars, ts: seq<Token>)
    requires ValidChars(cc) && (forall i :: 0 <= i < |ts| ==> IsLexeme(cc, ts[i])) && !Rewritable(cc, ts)
    ensures Lex(cc, Spaced(ts)) != Some(ts + [Token(EndOfFile, "")])
  {
    hide IsLexeme, Lex, Spaced, Survives, ValidChars, EndsHere, Written;
    var rest := LexFollowing(cc, ts);
    if ts[0].kind == Str && !Survives(ts[0].value) {
      LiteralChanged(cc, ts[0], rest);
      assert (ts + [Token(EndOfFile, "")])[0] == ts[0];
    } else {
      LexWritten(cc, ts[0], rest);
      NotRetokenized(cc, ts[1..]);
      if Lex(cc, rest).Some? {
        assert ([ts[0]] + Lex(cc, rest).value)[1..] == Lex(cc, rest).value;
        assert (ts + [Token(EndOfFile, "")])[1..] == ts[1..] + [Token(EndOfFile, "")];
      }
    }
  }

  /** A literal that does not survive is read as another token, or not at all. */
  lemma LiteralChanged(cc: Chars, t: Token, rest: string)
    requires ValidChars(cc) && t.kind == Str && !Survives(t.value)
    ensures Lex(cc, Written(t) + rest).Some? ==>
      Lex(cc, Written(t) + rest).value != [] && Lex(cc, Written(t) + rest).value[0] != t
  {
    var s := Written(t) + rest;
    assert s[0] == '"' && s[1..] == t.value + "\"" + rest;
    NoSpaceToSkip(cc, t, rest);
    NotSymbolStart(cc, s);
    LexUnfold(cc, s);
    ValueReadBack(t.value, rest);
    hide SkipSpace, Survives, ValidChars, Written, Lex;
  }

  lemma AppendedFirst(ts: seq<Token>)
    requires ts != []
    ensures Appended([ts[0]], Some(ts[1..] + [Token(EndOfFile, "")])) == Some(ts + [Token(EndOfFile, "")])
  {
    assert [ts[0]] + (ts[1..] + [Token(EndOfFile, "")]) == ts + [Token(EndOfFile, "")];
  }

  lemma SpacedFront(ts: seq<Token>)
    requires ts != []
    ensures Spaced(ts) == Written(ts[0]) + if |ts| == 1 then "" else " " + Spaced(ts[1..])
  {
    if |ts| > 1 { Regroup(Written(ts[0]), " ", Spaced(ts[1..])); }
    hide Written;
  }

  lemma Regroup(a: string, b: string, c: string)
    ensures (a + b) + c == a + (b + c)
  {
  }

  // ---- What the lexer produces ---------------------------------------------------------------------------

  lemma {:induction false} SpanIsAll(s: string, p: char -> bool)
    ensures AllOf(s[..Span(s, p)], p)
  {
    if s != "" && p(s[0]) {
      SpanIsAll(s[1..], p);
      assert s[..Span(s, p)] == [s[0]] + s[1..][..Span(s[1..], p)];
    }
  }

  lemma LexOneIsLexeme(cc: Chars, s: string)
    requires s != "" && LexOne(cc, s).Some?
    ensures IsLexeme(cc, LexOne(cc, s).value.0)
  {
    if cc.isDigit(s[0]) { SpanIsAll(s, cc.isDigit); }
    if IdentStart(cc, s[0]) { SpanIsAll(s, Continues(cc)); }
    hide ReadString, AllOf, IsDouble;
  }

  /** Everything before the end of file is a lexeme. */
  lemma {:induction false} LexedAreLexemes(cc: Chars, s: string)
    requires Lex(cc, s).Some?
    ensures var ts := Lex(cc, s).value;
      && ts != [] && ts[|ts| - 1] == Token(EndOfFile, "")
      && forall i :: 0 <= i < |ts| - 1 ==> IsLexeme(cc, ts[i])
    decreases |s|
  {
    hide LexOne, SkipSpace, IsLexeme;
    LexUnfold(cc, s);
    var rest := SkipSpace(cc, s);
    if rest != "" {
      LexOneIsLexeme(cc, rest);
      LexedAreLexemes(cc, LexOne(cc, rest).value.1);
    }
  }
}
