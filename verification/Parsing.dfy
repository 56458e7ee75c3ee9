/** Guard expressions and type strings of dsl/parser.go, and the map depth of dsl/builder.go. */
module Parsing {
  import opened Wrappers
  import opened Lexing

  datatype ParseError = Unexpected | UnknownType

  // ---- Guard expressions -------------------------------------------------------------------------------

  /** The depth of open parentheses after `t`. */
  function DepthAfter(depth: nat, t: Token): int
  {
    if t == Token(Symbol, "(") then depth + 1 else if t == Token(Symbol, ")") then depth - 1 else depth
  }

  /** The tokens up to the parenthesis that closes `depth` open ones, or up to the end of file, and what follows. */
  function Inner(ts: seq<Token>, depth: nat): (seq<Token>, seq<Token>)
    requires depth >= 1
  {
    if ts == [] || ts[0].kind == EndOfFile then ([], ts)
    else if DepthAfter(depth, ts[0]) == 0 then ([], ts[1..])
    else
      var tail := Inner(ts[1..], DepthAfter(depth, ts[0]));
      ([ts[0]] + tail.0, tail.1)
  }

  lemma {:induction false} InnerTokens(ts: seq<Token>, depth: nat, i: nat)
    requires depth >= 1 && i < |Inner(ts, depth).0|
    ensures i < |ts| && Inner(ts, depth).0[i] == ts[i] && ts[i].kind != EndOfFile
  {
    if i > 0 { InnerTokens(ts[1..], DepthAfter(depth, ts[0]), i - 1); }
  }

  class Parser {
    const tokens: seq<Token>
    var pos: nat

    ghost predicate Valid()
      reads this
    {
      pos <= |tokens|
    }

    ghost function Rest(): seq<Token>
      requires Valid()
      reads this
    {
      tokens[pos..]
    }

    constructor (tokens: seq<Token>)
      ensures Valid() && this.tokens == tokens && Rest() == tokens
    {
      this.tokens := tokens;
      pos := 0;
    }

    method Peek() returns (t: Token)
      requires Valid()
      ensures t == if Rest() == [] then Token(EndOfFile, "") else Rest()[0]
    {
      t := if pos >= |tokens| then Token(EndOfFile, "") else tokens[pos];
    }

    method Advance() returns (t: Token)
      requires Valid()
      modifies this
      ensures Valid() && t == if old(Rest()) == [] then Token(EndOfFile, "") else old(Rest())[0]
      ensures Rest() == if old(Rest()) == [] then [] else old(Rest())[1..]
      ensures old(Rest()) != [] ==> pos == old(pos) + 1
    {
      t := Peek();
      if pos < |tokens| {
        assert tokens[pos..][1..] == tokens[pos + 1..];
        pos := pos + 1;
      }
    }

    method Expect(kind: Kind, value: string) returns (r: Result<Token, ParseError>)
      requires Valid()
      modifies this
      ensures Valid() && Rest() == if old(Rest()) == [] then [] else old(Rest())[1..]
      ensures var t := if old(Rest()) == [] then Token(EndOfFile, "") else old(Rest())[0];
        r == if t.kind == kind && (kind == Ident || t.value == value) then Ok(t) else Err(Unexpected)
    {
      var t := Advance();
      r := if t.kind == kind && (kind == Ident || t.value == value) then Ok(t) else Err(Unexpected);
    }

    /** `parseRequireExpr`; a missing closing parenthesis is no error. */
    method ParseRequireExpr() returns (r: Result<string, ParseError>)
      requires Valid()
      modifies this
      ensures Valid()
      ensures var ts := old(Rest());
        if ts == [] || ts[0] != Token(Symbol, "(") then r == Err(Unexpected)
        else r == Ok(Spaced(Inner(ts[1..], 1).0)) && Rest() == Inner(ts[1..], 1).1
    {
      var open := Expect(Symbol, "(");
      if open.Err? { return Err(open.error); }
      ghost var goal := Inner(Rest(), 1);
      ghost var read: seq<Token> := [];
      var depth := 1;
      var result := "";
      var first := true;
      Nothing(goal);
      while depth > 0
        invariant Valid() && depth >= 1 && first == (read == []) && result == Spaced(read)
        invariant Extended(read, Inner(Rest(), depth)) == goal
        decreases |tokens| - pos
      {
        var t := Peek();
        assert read + [] == read;
        if t.kind == EndOfFile { break; }
        ghost var here := Rest();
        depth := DepthAfter(depth, t);
        var _ := Advance();
        if depth == 0 { break; }
        SpacedAppend(read, t);
        ReadOne(read, t, Inner(Rest(), depth));
        read := read + [t];
        result := if first then Written(t) else result + " " + Written(t);
        first := false;
      }
      return Ok(result);
    }

    /** The key loop of `parseTypeString`, after the opening bracket and up to the closing one. */
    method ParseKeyTypes() returns (r: Result<seq<string>, ParseError>)
      requires Valid()
      modifies this
      ensures Valid()
      ensures var spec := ParseKeys(old(Rest()));
        if spec.None? then r == Err(Unexpected) else r == Ok(spec.value.0) && Rest() == spec.value.1
    {
      ghost var goal := ParseKeys(Rest());
      var keyTypes := [];
      var keyTok := Expect(Ident, "");
      if keyTok.Err? { return Err(Unexpected); }
      keyTypes := [keyTok.value.value];
      while true
        invariant Valid() && keyTypes != [] && MoreKeys(keyTypes, Rest()) == goal
        decreases |tokens| - pos
      {
        ghost var here := Rest();
        var t := Peek();
        if t != Token(Symbol, ",") { break; }
        var _ := Advance();
        if Rest() != [] { assert here[2..] == Rest()[1..]; }
        var kt := Expect(Ident, "");
        if kt.Err? { return Err(Unexpected); }
        AnotherKey(keyTypes, here);
        keyTypes := keyTypes + [kt.value.value];
      }
      ghost var last := Rest();
      var close := Expect(Symbol, "]");
      if close.Err? { return Err(Unexpected); }
      return Ok(keyTypes);
    }

    /** `parseTypeString` */
    method ParseTypeString() returns (r: Result<string, ParseError>)
      requires Valid()
      modifies this
      ensures Valid()
      ensures var spec := ParseType(old(Rest()));
        match spec
        case Err(e) => r == Err(e)
        case Ok(form) => r == Ok(Canonical(form.0.keys, form.0.value)) && Rest() == form.1
      decreases |Rest()|
    {
      ghost var ts := Rest();
      var tok := Advance();
      if tok.kind != Ident { return Err(Unexpected); }
      if tok.value != "map" && tok.value !in KnownTypes { return Err(UnknownType); }
      var next := Peek();
      if tok.value == "map" && next == Token(Symbol, "[") {
        var _ := Advance();
        assert Rest() == ts[2..];
        var keyTypes := ParseKeyTypes();
        if keyTypes.Err? { return Err(keyTypes.error); }
        ghost var inner := ParseType(Rest());
        var valType := ParseTypeString();
        if valType.Err? { return valType; }
        var keys := keyTypes.value;
        var result := valType.value;
        assert keys[|keys|..] + inner.value.0.keys == inner.value.0.keys;
        for i := |keys| downto 0
          invariant Valid() && Rest() == inner.value.1
          invariant result == Canonical(keys[i..] + inner.value.0.keys, inner.value.0.value)
        {
          CanonicalMore(keys, i, inner.value.0.keys, inner.value.0.value);
          result := "map[" + keys[i] + "]" + result;
        }
        assert keys[0..] == keys;
        return Ok(result);
      }
      return Ok(tok.value);
    }
  }

  /** What the key loop still makes of the remaining tokens, when it has read `keys`. */
  function MoreKeys(keys: seq<string>, ts: seq<Token>): Option<(seq<string>, seq<Token>)>
  {
    if ts == [] then None
    else if ts[0] == Token(Symbol, "]") then Some((keys, ts[1..]))
    else if ts[0] == Token(Symbol, ",") then
      var tail := ParseKeys(ts[1..]);
      if tail.None? then None else Some((keys + tail.value.0, tail.value.1))
    else None
  }

  lemma AnotherKey(keys: seq<string>, ts: seq<Token>)
    requires |ts| > 1 && ts[0] == Token(Symbol, ",") && ts[1].kind == Ident
    ensures MoreKeys(keys, ts) == MoreKeys(keys + [ts[1].value], ts[2..])
  {
    assert ts[1..][1..] == ts[2..];
    if |ts| > 2 {
      assert ts[1..][2..] == ts[3..] && ts[2..][1..] == ts[3..];
      var tail := ParseKeys(ts[3..]);
      if tail.Some? { assert keys + ([ts[1].value] + tail.value.0) == keys + [ts[1].value] + tail.value.0; }
    }
  }

  lemma CanonicalMore(keys: seq<string>, i: nat, more: seq<string>, value: string)
    requires i < |keys|
    ensures Canonical(keys[i..] + more, value) == "map[" + keys[i] + "]" + Canonical(keys[i + 1..] + more, value)
  {
    assert (keys[i..] + more)[0] == keys[i] && (keys[i..] + more)[1..] == keys[i + 1..] + more;
  }

  function Extended(ts: seq<Token>, r: (seq<Token>, seq<Token>)): (seq<Token>, seq<Token>)
  {
    (ts + r.0, r.1)
  }

  lemma Nothing(r: (seq<Token>, seq<Token>))
    ensures Extended([], r) == r
  {
    assert [] + r.0 == r.0;
  }

  lemma ReadOne(ts: seq<Token>, t: Token, r: (seq<Token>, seq<Token>))
    ensures Extended(ts + [t], r) == Extended(ts, Extended([t], r))
  {
    assert (ts + [t]) + r.0 == ts + ([t] + r.0);
  }

  /** The text of a guard: what a source text holds between the parentheses that open at token `start`. */
  ghost predicate GuardOf(cc: Chars, source: string, start: nat, inner: seq<Token>)
  {
    && Lex(cc, source).Some? && start < |Lex(cc, source).value| && Lex(cc, source).value[start] == Token(Symbol, "(")
    && inner == Inner(Lex(cc, source).value[start + 1..], 1).0
  }

  /** Retokenizing the text of a guard gives back its tokens exactly when the string literals in it survive. */
  lemma GuardRoundTrip(cc: Chars, source: string, start: nat, inner: seq<Token>)
    requires ValidChars(cc) && GuardOf(cc, source, start, inner)
    ensures Lex(cc, Spaced(inner)) == Some(inner + [Token(EndOfFile, "")])
      <==> forall i :: 0 <= i < |inner| && inner[i].kind == Str ==> Survives(inner[i].value)
  {
    var ts := Lex(cc, source).value;
    LexedAreLexemes(cc, source);
    hide *;
    forall i | 0 <= i < |inner|
      ensures IsLexeme(cc, inner[i])
    {
      GuardToken(cc, source, start, inner, i);
    }
    AllRewritable(cc, inner);
    RetokenizedIff(cc, inner);
  }

  lemma GuardToken(cc: Chars, source: string, start: nat, inner: seq<Token>, i: nat)
    requires GuardOf(cc, source, start, inner) && i < |inner|
    ensures IsLexeme(cc, inner[i])
  {
    var ts := Lex(cc, source).value[start + 1..];
    hide *;
    InnerTokens(ts, 1, i);
    LexedToken(cc, source, start + 1 + i);
  }

  lemma AllRewritable(cc: Chars, ts: seq<Token>)
    requires forall i :: 0 <= i < |ts| ==> IsLexeme(cc, ts[i])
    ensures Rewritable(cc, ts) <==> forall i :: 0 <= i < |ts| && ts[i].kind == Str ==> Survives(ts[i].value)
  {
    hide IsLexeme, Survives;
  }

  /** Literals without quotes and backslashes survive. */
  lemma {:induction false} PlainLiteralsSurvive(v: string)
    requires '"' !in v && '\\' !in v
    ensures Survives(v)
  {
    if v != "" { PlainLiteralsSurvive(v[1..]); }
  }

  /**
   * The literal of an escaped quote has a quote as its value; written without escapes it ends at once and leaves a
   * quote behind.
   */
  lemma EscapedQuoteIsLost()
    ensures ReadString("\\\"" + "\"") == Some(("\"", ""))
    ensures !Survives("\"") && ReadString("\"" + "\"") == Some(("", "\""))
  {
    var literal, written := "\\\"" + "\"", "\"" + "\"";
    assert literal[2..] == "\"" && "\""[1..] == "";
    assert written[1..] == "\"";
    assert "\"" + "" == "\"";
  }

  // ---- Type strings ----------------------------------------------------------------------------------------

  const KnownTypes: set<string> :=
    {"uint256", "uint128", "uint64", "uint32", "uint16", "uint8", "int256", "int128", "int64", "int32", "int16", "int8",
     "address", "bool", "bytes32", "bytes", "string", "amount"}

  /** A type: its map keys from the outside in, and the innermost value type. */
  datatype TypeForm = TypeForm(keys: seq<string>, value: string)

  /** The canonical text, with one map for every key. */
  function Canonical(keys: seq<string>, value: string): string
  {
    if keys == [] then value else "map[" + keys[0] + "]" + Canonical(keys[1..], value)
  }

  /** The comma-separated keys up to a closing bracket. */
  function ParseKeys(ts: seq<Token>): (r: Option<(seq<string>, seq<Token>)>)
    ensures r.Some? ==> r.value.0 != [] && |r.value.1| < |ts|
  {
    if ts == [] || ts[0].kind != Ident || |ts| == 1 then None
    else if ts[1] == Token(Symbol, "]") then Some(([ts[0].value], ts[2..]))
    else if ts[1] == Token(Symbol, ",") then
      var tail := ParseKeys(ts[2..]);
      if tail.None? then None else Some(([ts[0].value] + tail.value.0, tail.value.1))
    else None
  }

  /** `parseTypeString` on the remaining tokens. */
  function ParseType(ts: seq<Token>): (r: Result<(TypeForm, seq<Token>), ParseError>)
    ensures r.Ok? ==> |r.value.1| < |ts|
    decreases |ts|
  {
    if ts == [] || ts[0].kind != Ident then Err(Unexpected)
    else if ts[0].value != "map" && ts[0].value !in KnownTypes then Err(UnknownType)
    else if ts[0].value == "map" && |ts| > 1 && ts[1] == Token(Symbol, "[") then
      var keys := ParseKeys(ts[2..]);
      if keys.None? then Err(Unexpected)
      else
        match ParseType(keys.value.1)
        case Err(e) => Err(e)
        case Ok(inner) => Ok((TypeForm(keys.value.0 + inner.0.keys, inner.0.value), inner.1))
    else Ok((TypeForm([], ts[0].value), ts[1..]))
  }

  /** Names of lexed identifiers as keys, and a known type (or a bare map) as the innermost value. */
  ghost predicate GoodForm(cc: Chars, keys: seq<string>, value: string)
  {
    && (forall i :: 0 <= i < |keys| ==> IsLexeme(cc, Token(Ident, keys[i])))
    && IsLexeme(cc, Token(Ident, value)) && (value in KnownTypes || value == "map")
  }

  function TypeTokens(keys: seq<string>, value: string): seq<Token>
  {
    if keys == [] then [Token(Ident, value)]
    else
      [Token(Ident, "map"), Token(Symbol, "["), Token(Ident, keys[0]), Token(Symbol, "]")] + TypeTokens(keys[1..], value)
  }

  lemma LexPrefix(cc: Chars, t: Token, rest: string)
    requires ValidChars(cc) && IsLexeme(cc, t) && t.kind != Str
    requires t.value + rest != "" && LexOne(cc, t.value + rest) == Some((t, rest))
    ensures Lex(cc, t.value + rest) == Appended([t], Lex(cc, rest))
  {
    NoSpaceToSkip(cc, t, rest);
    LexUnfold(cc, t.value + rest);
    hide LexOne, SkipSpace, Lex;
  }

  /** A bracket is read by itself, whatever follows. */
  lemma BracketRead(cc: Chars, c: char, rest: string)
    requires ValidChars(cc) && (c == '[' || c == ']')
    ensures Lex(cc, [c] + rest) == Appended([Token(Symbol, [c])], Lex(cc, rest))
  {
    CutRun([c], rest);
    var s := [c] + rest;
    if |s| >= 2 { assert s[..2][0] == c; }
    assert LexOne(cc, s) == Some((Token(Symbol, [c]), rest));
    hide LexOne;
    LexPrefix(cc, Token(Symbol, [c]), rest);
  }

  lemma BracketIsNoName(cc: Chars)
    requires ValidChars(cc)
    ensures !IdentContinue(cc, '[') && !IdentContinue(cc, ']')
  {
    assert '[' in Punctuation && ']' in Punctuation;
  }

  lemma NameRead(cc: Chars, v: string, rest: string)
    requires ValidChars(cc) && IsLexeme(cc, Token(Ident, v)) && (rest == "" || rest[0] == '[' || rest[0] == ']')
    ensures Lex(cc, v + rest) == Appended([Token(Ident, v)], Lex(cc, rest))
  {
    BracketIsNoName(cc);
    NameReadBack(cc, v, rest);
    hide LexOne;
    LexPrefix(cc, Token(Ident, v), rest);
  }

  lemma MapIsName(cc: Chars)
    requires ValidChars(cc)
    ensures IsLexeme(cc, Token(Ident, "map"))
  {
    assert "map" !in Keywords;
  }

  lemma {:induction false} CanonicalLexes(cc: Chars, keys: seq<string>, value: string)
    requires ValidChars(cc) && GoodForm(cc, keys, value)
    ensures Lex(cc, Canonical(keys, value)) == Some(TypeTokens(keys, value) + [Token(EndOfFile, "")])
  {
    hide ValidChars, IsLexeme, Lex;
    if keys == [] {
      NameRead(cc, value, "");
      assert value + "" == value;
      RetokenizedSame(cc, []);
      assert [] + [Token(EndOfFile, "")] == [Token(EndOfFile, "")] && Spaced([]) == "";
      assert [Token(Ident, value)] + [Token(EndOfFile, "")] == TypeTokens(keys, value) + [Token(EndOfFile, "")];
    } else {
      var rest := Canonical(keys[1..], value);
      var afterKey := "]" + rest;
      var afterOpen := keys[0] + afterKey;
      var afterMap := "[" + afterOpen;
      MapIsName(cc);
      NameRead(cc, "map", afterMap);
      BracketRead(cc, '[', afterOpen);
      NameRead(cc, keys[0], afterKey);
      BracketRead(cc, ']', rest);
      assert Canonical(keys, value) == "map" + afterMap;
      CanonicalLexes(cc, keys[1..], value);
      FourTokens(keys, value);
    }
  }

  lemma FourTokens(keys: seq<string>, value: string)
    requires keys != []
    ensures var eof := [Token(EndOfFile, "")];
      Appended([Token(Ident, "map")], Appended([Token(Symbol, "[")], Appended([Token(Ident, keys[0])],
        Appended([Token(Symbol, "]")], Some(TypeTokens(keys[1..], value) + eof)))))
      == Some(TypeTokens(keys, value) + eof)
  {
    var eof, m, o, k, c := [Token(EndOfFile, "")], Token(Ident, "map"), Token(Symbol, "["), Token(Ident, keys[0]), Token(Symbol, "]");
    var rest := TypeTokens(keys[1..], value);
    assert [m] + ([o] + ([k] + ([c] + (rest + eof)))) == ([m, o, k, c] + rest) + eof;
  }

  /** The canonical tokens parse to the keys and the value they were written for. */
  lemma {:induction false} CanonicalParses(keys: seq<string>, value: string, rest: seq<Token>)
    requires (value in KnownTypes || value == "map") && (rest == [] || rest[0] != Token(Symbol, "["))
    ensures ParseType(TypeTokens(keys, value) + rest) == Ok((TypeForm(keys, value), rest))
  {
    var ts := TypeTokens(keys, value) + rest;
    if keys == [] {
      assert ts[1..] == rest;
    } else {
      var inner := TypeTokens(keys[1..], value) + rest;
      CanonicalParses(keys[1..], value, rest);
      assert ts == [Token(Ident, "map"), Token(Symbol, "["), Token(Ident, keys[0]), Token(Symbol, "]")] + inner;
      assert ts[2..][0] == Token(Ident, keys[0]) && ts[2..][1] == Token(Symbol, "]") && ts[2..][2..] == inner;
      assert ParseKeys(ts[2..]) == Some(([keys[0]], inner));
      assert [keys[0]] + keys[1..] == keys;
    }
  }

  lemma {:induction false} KeysAreNames(cc: Chars, ts: seq<Token>, i: nat)
    requires ParseKeys(ts).Some? && i < |ParseKeys(ts).value.0|
    requires forall k :: 0 <= k < |ts| ==> ts[k].kind == EndOfFile || IsLexeme(cc, ts[k])
    ensures IsLexeme(cc, Token(Ident, ParseKeys(ts).value.0[i]))
    decreases ts
  {
    hide IsLexeme;
    assert ts[0] == Token(Ident, ts[0].value);
    if i > 0 { KeysAreNames(cc, ts[2..], i - 1); }
  }

  lemma {:induction false} KeysLeaveSuffix(ts: seq<Token>) returns (n: nat)
    requires ParseKeys(ts).Some?
    ensures n <= |ts| && ParseKeys(ts).value.1 == ts[n..]
  {
    n := 2;
    if ts[1] != Token(Symbol, "]") {
      var m := KeysLeaveSuffix(ts[2..]);
      n := 2 + m;
      assert ts[2..][m..] == ts[n..];
    }
  }

  /** What is parsed from lexed tokens is a good form. */
  lemma {:induction false} ParsedIsGood(cc: Chars, ts: seq<Token>)
    requires ValidChars(cc) && ParseType(ts).Ok?
    requires forall k :: 0 <= k < |ts| ==> ts[k].kind == EndOfFile || IsLexeme(cc, ts[k])
    ensures GoodForm(cc, ParseType(ts).value.0.keys, ParseType(ts).value.0.value)
    decreases |ts|
  {
    hide IsLexeme;
    assert ts[0] == Token(Ident, ts[0].value);
    if ts[0].value == "map" && |ts| > 1 && ts[1] == Token(Symbol, "[") {
      var keys := ParseKeys(ts[2..]).value;
      var n := KeysLeaveSuffix(ts[2..]);
      assert keys.1 == ts[2 + n..];
      ParsedIsGood(cc, keys.1);
      forall i | 0 <= i < |keys.0|
        ensures IsLexeme(cc, Token(Ident, keys.0[i]))
      {
        KeysAreNames(cc, ts[2..], i);
      }
    }
  }

  /** Type text lexes and parses back to itself, with the same keys and value. */
  lemma TypeRoundTrip(cc: Chars, source: string, start: nat)
    requires ValidChars(cc) && Lex(cc, source).Some? && start <= |Lex(cc, source).value|
    requires ParseType(Lex(cc, source).value[start..]).Ok?
    ensures var form := ParseType(Lex(cc, source).value[start..]).value.0;
      var text := Canonical(form.keys, form.value);
      && Lex(cc, text).Some?
      && ParseType(Lex(cc, text).value) == Ok((form, [Token(EndOfFile, "")]))
      && MapKeyDepth(text) == |form.keys|
  {
    FormIsGood(cc, source, start);
    var form := ParseType(Lex(cc, source).value[start..]).value.0;
    var eof := [Token(EndOfFile, "")];
    assert eof[0] != Token(Symbol, "[");
    hide *;
    CanonicalLexes(cc, form.keys, form.value);
    GoodValue(cc, form.keys, form.value);
    CanonicalParses(form.keys, form.value, eof);
    DepthOfCanonical(cc, form.keys, form.value);
    assert form == TypeForm(form.keys, form.value);
  }

  lemma FormIsGood(cc: Chars, source: string, start: nat)
    requires ValidChars(cc) && Lex(cc, source).Some? && start <= |Lex(cc, source).value|
    requires ParseType(Lex(cc, source).value[start..]).Ok?
    ensures var form := ParseType(Lex(cc, source).value[start..]).value.0; GoodForm(cc, form.keys, form.value)
  {
    hide *;
    var ts := Lex(cc, source).value[start..];
    forall k | 0 <= k < |ts|
      ensures ts[k].kind == EndOfFile || IsLexeme(cc, ts[k])
    {
      LexedToken(cc, source, start + k);
    }
    ParsedIsGood(cc, ts);
  }

  lemma LexedToken(cc: Chars, source: string, k: nat)
    requires Lex(cc, source).Some? && k < |Lex(cc, source).value|
    ensures var t := Lex(cc, source).value[k]; t.kind == EndOfFile || IsLexeme(cc, t)
  {
    hide *;
    LexedAreLexemes(cc, source);
  }

  lemma GoodValue(cc: Chars, keys: seq<string>, value: string)
    requires GoodForm(cc, keys, value)
    ensures value in KnownTypes || value == "map"
  {
  }

  // ---- Map depth --------------------------------------------------------------------------------------------

  predicate HasPrefix(s: string, p: string)
  {
    |p| <= |s| && s[..|p|] == p
  }

  /** `strings.Index` of a character. */
  function IndexOf(s: string, c: char): Option<nat>
  {
    if s == "" then None
    else if s[0] == c then Some(0)
    else
      var i := IndexOf(s[1..], c);
      if i.None? then None else Some(i.value + 1)
  }

  lemma {:induction false} IndexBound(s: string, c: char)
    ensures IndexOf(s, c).Some? ==> IndexOf(s, c).value < |s|
  {
    if s != "" { IndexBound(s[1..], c); }
  }

  function MapKeyDepth(typ: string): nat
    decreases |typ|
  {
    if !HasPrefix(typ, "map[") || IndexOf(typ, ']').None? then 0
    else
      IndexBound(typ, ']');
      1 + MapKeyDepth(typ[IndexOf(typ, ']').value + 1..])
  }

  /** `mapKeyDepth` */
  method ComputeMapKeyDepth(typ: string) returns (depth: nat)
    ensures depth == MapKeyDepth(typ)
  {
    depth := 0;
    var remaining := typ;
    while HasPrefix(remaining, "map[")
      invariant depth + MapKeyDepth(remaining) == MapKeyDepth(typ)
      decreases |remaining|
    {
      var close := IndexOf(remaining, ']');
      if close.None? { break; }
      IndexBound(remaining, ']');
      depth := depth + 1;
      remaining := remaining[close.value + 1..];
    }
  }

  lemma {:induction false} IndexAfter(a: string, c: char, rest: string)
    requires c !in a
    ensures IndexOf(a + [c] + rest, c) == Some(|a|)
  {
    var s := a + [c] + rest;
    if a != "" {
      assert s[0] == a[0] && s[1..] == a[1..] + [c] + rest;
      IndexAfter(a[1..], c, rest);
    }
  }

  lemma KnownIsNoMap(value: string)
    requires value in KnownTypes || value == "map"
    ensures !HasPrefix(value, "map[")
  {
    if |value| >= 4 && value in KnownTypes { assert value[0] != 'm'; }
  }

  lemma NameHasNoBracket(cc: Chars, v: string)
    requires ValidChars(cc) && IsLexeme(cc, Token(Ident, v))
    ensures ']' !in v
  {
    BracketIsNoName(cc);
    forall i | 0 <= i < |v|
      ensures v[i] != ']'
    {
      assert Continues(cc)(v[i]);
    }
  }

  lemma {:induction false} DepthOfCanonical(cc: Chars, keys: seq<string>, value: string)
    requires ValidChars(cc) && GoodForm(cc, keys, value)
    ensures MapKeyDepth(Canonical(keys, value)) == |keys|
  {
    hide ValidChars, IsLexeme;
    if keys == [] {
      KnownIsNoMap(value);
    } else {
      var rest := Canonical(keys[1..], value);
      var head := "map[" + keys[0];
      var text := Canonical(keys, value);
      NameHasNoBracket(cc, keys[0]);
      assert text == head + "]" + rest;
      IndexAfter(head, ']', rest);
      assert text[..4] == "map[" && text[|head| + 1..] == rest;
      DepthOfCanonical(cc, keys[1..], value);
    }
  }

  /** `isScalarType`: exactly the types without keys. */
  lemma ScalarHasNoKeys(keys: seq<string>, value: string)
    requires value in KnownTypes || value == "map"
    ensures !HasPrefix(Canonical(keys, value), "map[") <==> keys == []
  {
    if keys == [] {
      KnownIsNoMap(value);
    } else {
      assert Canonical(keys, value)[..4] == "map[";
    }
  }
}
