/** Removal of comments from JSON text before it is parsed. */
module JsonComments {
  import opened ByteStrings

  const QUOTE: Byte := 34
  const STAR: Byte := 42
  const SLASH: Byte := 47
  const BACKSLASH: Byte := 92
  const LINE_FEED: Byte := 10
  const CARRIAGE_RETURN: Byte := 13

  /** A comment holds its opener; a line comment ends before its line break.  A literal holds its quotes. */
  datatype Token = Plain(byte: Byte) | Literal(text: Bytes) | Comment(text: Bytes)

  /** How far a string literal reaches behind its opening quote. */
  function LiteralLength(s: Bytes): (n: nat)
    ensures n <= |s|
  {
    if s == [] then 0
    else if s[0] == QUOTE then 1
    else if s[0] == BACKSLASH && |s| > 1 then 2 + LiteralLength(s[2..])
    else 1 + LiteralLength(s[1..])
  }

  function LineLength(s: Bytes): (n: nat)
    ensures n <= |s|
  {
    if s == [] || s[0] == LINE_FEED || s[0] == CARRIAGE_RETURN then 0 else 1 + LineLength(s[1..])
  }

  function BlockLength(s: Bytes): (n: nat)
    ensures n <= |s|
  {
    if s == [] then 0
    else if |s| > 1 && s[0] == STAR && s[1] == SLASH then 2
    else 1 + BlockLength(s[1..])
  }

  predicate OpensComment(s: Bytes) { |s| > 1 && s[0] == SLASH && (s[1] == SLASH || s[1] == STAR) }

  /** How many bytes the first token takes. */
  function TokenLength(s: Bytes): (n: nat)
    requires s != []
    ensures 1 <= n <= |s|
  {
    if s[0] == QUOTE then 1 + LiteralLength(s[1..])
    else if OpensComment(s) then 2 + if s[1] == SLASH then LineLength(s[2..]) else BlockLength(s[2..])
    else 1
  }

  function FirstToken(s: Bytes): Token
    requires s != []
  {
    if s[0] == QUOTE then Literal(s[..TokenLength(s)])
    else if OpensComment(s) then Comment(s[..TokenLength(s)])
    else Plain(s[0])
  }

  function Lex(s: Bytes): seq<Token> {
    if s == [] then [] else [FirstToken(s)] + Lex(s[TokenLength(s)..])
  }

  function TokenBytes(t: Token): Bytes { if t.Plain? then [t.byte] else t.text }

  function Render(ts: seq<Token>): Bytes { if ts == [] then [] else TokenBytes(ts[0]) + Render(ts[1..]) }

  function Kept(ts: seq<Token>): seq<Token> {
    if ts == [] then [] else (if ts[0].Comment? then [] else [ts[0]]) + Kept(ts[1..])
  }

  /** The text without its comments. */
  function Strip(s: Bytes): Bytes { Render(Kept(Lex(s))) }

  lemma StripFirst(s: Bytes)
    requires s != []
    ensures var n := TokenLength(s); Strip(s) == (if FirstToken(s).Comment? then [] else s[..n]) + Strip(s[n..])
  {
    hide TokenLength, FirstToken, TokenBytes;
    var n := TokenLength(s);
    var ts := Lex(s);
    assert ts[0] == FirstToken(s) && ts[1..] == Lex(s[n..]);
    var kept := Kept(ts);
    if !ts[0].Comment? {
      assert kept[1..] == Kept(ts[1..]);
      FirstBytes(s);
    } else {
      assert kept == Kept(ts[1..]);
    }
  }

  // ---------------------------------------------------------------------------------------------
  // The loop and its four flags

  datatype Mode = Text | InString | Escaped | LineComment | BlockComment

  function InLiteral(s: Bytes): Bytes { s[..LiteralLength(s)] + Strip(s[LiteralLength(s)..]) }

  /** What the loop still has to write from a position. */
  function Rest(mode: Mode, s: Bytes): Bytes {
    match mode
    case Text => Strip(s)
    case InString => InLiteral(s)
    case Escaped => if s == [] then [] else [s[0]] + InLiteral(s[1..])
    case LineComment => Strip(s[LineLength(s)..])
    case BlockComment => Strip(s[BlockLength(s)..])
  }

  function ModeOf(inString: bool, escaped: bool, lineComment: bool, blockComment: bool): Mode {
    if lineComment then LineComment
    else if blockComment then BlockComment
    else if inString then if escaped then Escaped else InString
    else Text
  }

  method StripJSONComments(data: Bytes) returns (out: Bytes)
    ensures out == Strip(data)
  {
    hide Strip, Rest, InLiteral, LiteralLength, LineLength, BlockLength, TokenLength, FirstToken, Lex, Kept, Render;
    out := [];
    var inString, escaped, lineComment, blockComment := false, false, false, false;
    var i := 0;
    assert data[0..] == data;
    TextLeft(data);
    while i < |data|
      invariant 0 <= i <= |data|
      invariant (escaped ==> inString) && !(lineComment && blockComment) && !(inString && (lineComment || blockComment))
      invariant out + Rest(ModeOf(inString, escaped, lineComment, blockComment), data[i..]) == Strip(data)
    {
      var ch := data[i];
      ghost var s := data[i..];
      ghost var before := ModeOf(inString, escaped, lineComment, blockComment);
      Slices(data, i);
      RestOn(before, s, out);
      ghost var written := out;
      if lineComment {
        if ch == LINE_FEED || ch == CARRIAGE_RETURN {
          lineComment := false;
          out := out + [ch];
        }
      } else if blockComment {
        if ch == STAR && i + 1 < |data| && data[i + 1] == SLASH {
          blockComment := false;
          i := i + 1;
        }
      } else if inString {
        out := out + [ch];
        if escaped {
          escaped := false;
        } else if ch == BACKSLASH {
          escaped := true;
        } else if ch == QUOTE {
          inString := false;
        }
      } else if ch == QUOTE {
        inString := true;
        out := out + [ch];
      } else if ch == SLASH && i + 1 < |data| && data[i + 1] == SLASH {
        lineComment := true;
        i := i + 1;
      } else if ch == SLASH && i + 1 < |data| && data[i + 1] == STAR {
        blockComment := true;
        i := i + 1;
      } else {
        out := out + [ch];
      }
      i := i + 1;
      assert out == written + Written(before, s);
      assert ModeOf(inString, escaped, lineComment, blockComment) == Next(before, s);
      assert data[i..] == s[Taken(before, s)..];
    }
    NothingLeft(ModeOf(inString, escaped, lineComment, blockComment));
    assert data[i..] == [];
  }

  lemma Slices(data: Bytes, i: nat)
    requires i < |data|
    ensures data[i..] != [] && data[i..][0] == data[i] && data[i..][1..] == data[i + 1..]
    ensures |data[i..]| == |data| - i
    ensures i + 1 < |data| ==> data[i..][1] == data[i + 1] && data[i..][2..] == data[i + 2..]
  {}

  /** One turn of the loop keeps what is written and what is left together. */
  lemma RestOn(mode: Mode, s: Bytes, out: Bytes)
    requires s != []
    ensures out + Rest(mode, s) == out + Written(mode, s) + Rest(Next(mode, s), s[Taken(mode, s)..])
  {
    hide Rest, Written, Next, Taken;
    RestStep(mode, s);
    Regroup(out, Written(mode, s), Rest(Next(mode, s), s[Taken(mode, s)..]));
  }

  lemma Regroup(a: Bytes, b: Bytes, c: Bytes)
    ensures a + (b + c) == a + b + c
  {}

  predicate ClosesBlock(s: Bytes) { |s| > 1 && s[0] == STAR && s[1] == SLASH }

  function Taken(mode: Mode, s: Bytes): (n: nat)
    requires s != []
    ensures 1 <= n <= |s|
  {
    if (mode == BlockComment && ClosesBlock(s)) || (mode == Text && OpensComment(s)) then 2 else 1
  }

  function Written(mode: Mode, s: Bytes): Bytes
    requires s != []
  {
    if (mode == LineComment && s[0] != LINE_FEED && s[0] != CARRIAGE_RETURN) || mode == BlockComment
       || (mode == Text && OpensComment(s))
    then [] else [s[0]]
  }

  function Next(mode: Mode, s: Bytes): Mode
    requires s != []
  {
    match mode
    case LineComment => if s[0] == LINE_FEED || s[0] == CARRIAGE_RETURN then Text else LineComment
    case BlockComment => if ClosesBlock(s) then Text else BlockComment
    case Escaped => InString
    case InString => if s[0] == BACKSLASH then Escaped else if s[0] == QUOTE then Text else InString
    case Text =>
      if s[0] == QUOTE then InString
      else if OpensComment(s) then if s[1] == SLASH then LineComment else BlockComment
      else Text
  }

  /** One turn of the loop writes the first part of what was left to write. */
  lemma RestStep(mode: Mode, s: Bytes)
    requires s != []
    ensures Rest(mode, s) == Written(mode, s) + Rest(Next(mode, s), s[Taken(mode, s)..])
  {
    hide Strip;
    match mode
    case Text => TextStep(s);
    case InString => StringStep(s);
    case Escaped =>
    case LineComment => LineStep(s);
    case BlockComment => BlockStep(s);
  }

  lemma TextStep(s: Bytes)
    requires s != []
    ensures Rest(Text, s) == Written(Text, s) + Rest(Next(Text, s), s[Taken(Text, s)..])
  {
    hide Strip, LiteralLength, LineLength, BlockLength;
    StripFirst(s);
    var n := TokenLength(s);
    if s[0] == QUOTE {
      assert s[..n] == [s[0]] + s[1..][..n - 1];
      DropTwice(s, 1, n);
    } else if OpensComment(s) {
      DropTwice(s, 2, n);
    } else {
      assert s[..1] == [s[0]];
    }
  }

  lemma StringStep(s: Bytes)
    requires s != []
    ensures InLiteral(s) == [s[0]] + Rest(Next(InString, s), s[1..])
  {
    hide Strip;
    var n := LiteralLength(s);
    if s[0] == QUOTE {
      assert s[..1] == [s[0]];
    } else if s[0] == BACKSLASH {
      EscapeStep(s);
    } else {
      LiteralOn(s, s[1..], n, [s[0]]);
    }
  }

  lemma EscapeStep(s: Bytes)
    requires s != [] && s[0] == BACKSLASH
    ensures InLiteral(s) == [s[0]] + Rest(Escaped, s[1..])
  {
    hide Strip;
    if |s| > 1 {
      LiteralOn(s, s[2..], LiteralLength(s), [s[0], s[1]]);
      assert s[1..][1..] == s[2..];
    } else {
      NothingLeft(Text);
      assert s[1..] == [] && s[..1] == s;
    }
  }

  lemma LiteralOn(s: Bytes, rest: Bytes, n: nat, head: Bytes)
    requires s == head + rest && n == LiteralLength(s) == |head| + LiteralLength(rest)
    ensures InLiteral(s) == head + InLiteral(rest)
  {
    hide Strip, LiteralLength;
    assert s[..n] == head + rest[..n - |head|] && s[n..] == rest[n - |head|..];
  }

  lemma LineStep(s: Bytes)
    requires s != []
    ensures Rest(LineComment, s) == Written(LineComment, s) + Rest(Next(LineComment, s), s[1..])
  {
    hide Strip;
    var n := LineLength(s);
    if n == 0 {
      StripFirst(s);
      assert s[..1] == [s[0]] && s[0..] == s;
    } else {
      DropTwice(s, 1, n);
    }
  }

  lemma BlockStep(s: Bytes)
    requires s != []
    ensures Rest(BlockComment, s) == Rest(Next(BlockComment, s), s[Taken(BlockComment, s)..])
  {
    hide Strip, BlockLength, OpensComment;
    BlockOn(s);
    if !ClosesBlock(s) { DropTwice(s, 1, BlockLength(s)); }
  }

  lemma BlockOn(s: Bytes)
    requires s != []
    ensures BlockLength(s) == if ClosesBlock(s) then 2 else 1 + BlockLength(s[1..])
  {}

  lemma DropTwice(s: Bytes, k: nat, n: nat)
    requires k <= n <= |s|
    ensures s[n..] == s[k..][n - k..]
  {}

  lemma TextLeft(s: Bytes)
    ensures Rest(Text, s) == Strip(s)
  {}

  lemma NothingLeft(mode: Mode)
    ensures Rest(mode, []) == []
  {}

  // ---------------------------------------------------------------------------------------------
  // What is kept

  lemma FirstBytes(s: Bytes)
    requires s != []
    ensures TokenBytes(FirstToken(s)) == s[..TokenLength(s)]
  {
    hide LiteralLength, LineLength, BlockLength;
  }

  lemma RenderFirst(t: Token, ts: seq<Token>)
    ensures Render([t] + ts) == TokenBytes(t) + Render(ts)
  {
    hide TokenBytes;
    assert ([t] + ts)[1..] == ts;
  }

  /** No byte belongs to two tokens or to none. */
  lemma {:induction false} TokensCover(s: Bytes)
    ensures Render(Lex(s)) == s
  {
    hide TokenLength, FirstToken, TokenBytes, Render;
    if s == [] {
      NoTokens();
    } else {
      var n := TokenLength(s);
      TokensCover(s[n..]);
      FirstBytes(s);
      RenderFirst(FirstToken(s), Lex(s[n..]));
      assert s[..n] + s[n..] == s;
    }
  }

  lemma NoTokens()
    ensures Render([]) == []
  {}

  lemma {:induction false} LiteralStable(s: Bytes, t: Bytes)
    requires LiteralLength(s) < |s| || t == []
    ensures LiteralLength(s[..LiteralLength(s)] + t) == LiteralLength(s)
  {
    var n := LiteralLength(s);
    var joined := s[..n] + t;
    if s == [] || s[0] == QUOTE {
    } else if s[0] == BACKSLASH && |s| > 1 {
      LiteralStable(s[2..], t);
      assert joined[2..] == s[2..][..n - 2] + t;
    } else {
      LiteralStable(s[1..], t);
      assert joined[1..] == s[1..][..n - 1] + t;
    }
  }

  lemma HeadKept(s: Bytes)
    requires s != [] && !OpensComment(s)
    ensures Strip(s) != [] && Strip(s)[0] == s[0]
  {
    StripFirst(s);
    hide Strip;
  }

  /** Joining what is kept creates no comment and moves no boundary: the stripped text has exactly the tokens of the
      text that are not comments. */
  lemma {:induction false} StrippedTokens(s: Bytes)
    ensures Lex(Strip(s)) == Kept(Lex(s))
  {
    if s != [] {
      var n := TokenLength(s);
      StrippedTokens(s[n..]);
      StripFirst(s);
      assert Lex(s)[0] == FirstToken(s) && Lex(s)[1..] == Lex(s[n..]);
      if !FirstToken(s).Comment? { FirstTokenStays(s); }
      KeptFirst(Lex(s));
    }
  }

  lemma KeptFirst(ts: seq<Token>)
    requires ts != []
    ensures Kept(ts) == if ts[0].Comment? then Kept(ts[1..]) else [ts[0]] + Kept(ts[1..])
  {}

  lemma LiteralStays(s: Bytes, t: Bytes)
    requires s != [] && s[0] == QUOTE && (TokenLength(s) < |s| || t == [])
    ensures var n := TokenLength(s); var r := s[..n] + t;
            TokenLength(r) == n && FirstToken(r) == FirstToken(s) && r[n..] == t
  {
    hide LiteralLength;
    var n := TokenLength(s);
    var r := s[..n] + t;
    LiteralStable(s[1..], t);
    assert s[..n][1..] == s[1..][..n - 1];
    assert r[1..] == s[1..][..n - 1] + t;
    assert r[..n] == s[..n] && r[n..] == t;
  }

  lemma FirstTokenStays(s: Bytes)
    requires s != [] && !FirstToken(s).Comment?
    ensures var n := TokenLength(s); var r := s[..n] + Strip(s[n..]);
            TokenLength(r) == n && FirstToken(r) == FirstToken(s) && r[n..] == Strip(s[n..])
  {
    var n := TokenLength(s);
    var t := Strip(s[n..]);
    var r := s[..n] + t;
    if s[0] == QUOTE {
      if n == |s| { assert s[n..] == []; }
      LiteralStays(s, t);
    } else if |s| > 1 && !OpensComment(s[1..]) {
      HeadKept(s[1..]);
    } else if |s| > 1 {
      assert s[1] == SLASH;
    } else {
      assert s[n..] == [];
    }
  }

  lemma StripIdempotent(s: Bytes)
    ensures Strip(Strip(s)) == Strip(s)
  {
    StrippedTokens(s);
    KeptTwice(Lex(s));
  }

  lemma {:induction false} KeptTwice(ts: seq<Token>)
    ensures Kept(Kept(ts)) == Kept(ts) && forall t :: t in Kept(ts) <==> t in ts && !t.Comment?
  {
    if ts != [] {
      KeptTwice(ts[1..]);
      KeptFirst(ts);
      if !ts[0].Comment? { assert Kept(ts)[1..] == Kept(ts[1..]); }
      assert forall t :: t in ts <==> t == ts[0] || t in ts[1..];
    }
  }

  predicate HasComment(s: Bytes) { exists i :: 0 <= i < |Lex(s)| && Lex(s)[i].Comment? }

  /** A text is its own stripped form exactly when it has no comment. */
  lemma UnchangedExact(s: Bytes)
    ensures Strip(s) == s <==> !HasComment(s)
  {
    TokensCover(s);
    if HasComment(s) {
      var i :| 0 <= i < |Lex(s)| && Lex(s)[i].Comment?;
      StrippedTokens(s);
      KeptTwice(Lex(s));
      assert Lex(s)[i] !in Kept(Lex(s)) && Lex(s)[i] in Lex(s);
    } else {
      KeepsAll(Lex(s));
    }
  }

  lemma {:induction false} KeepsAll(ts: seq<Token>)
    requires forall i :: 0 <= i < |ts| ==> !ts[i].Comment?
    ensures Kept(ts) == ts
  {
    if ts != [] { KeepsAll(ts[1..]); }
  }

  function Literals(ts: seq<Token>): seq<Bytes> {
    if ts == [] then [] else (if ts[0].Literal? then [ts[0].text] else []) + Literals(ts[1..])
  }

  /** Every string literal is copied byte for byte, comment openers inside it included, and none appears or is lost. */
  lemma LiteralsKept(s: Bytes)
    ensures Literals(Lex(Strip(s))) == Literals(Lex(s))
  {
    StrippedTokens(s);
    KeptLiterals(Lex(s));
  }

  lemma {:induction false} KeptLiterals(ts: seq<Token>)
    ensures Literals(Kept(ts)) == Literals(ts)
  {
    if ts != [] {
      KeptLiterals(ts[1..]);
      KeptFirst(ts);
      if !ts[0].Comment? { assert Kept(ts)[1..] == Kept(ts[1..]); }
    }
  }

  // ---------------------------------------------------------------------------------------------
  // Texts written out

  /** A text inside a string literal: a backslash in front of every quote and backslash. */
  function Escape(text: Bytes): Bytes {
    if text == [] then []
    else (if text[0] == 34 || text[0] == 92 then [92, text[0]] else [text[0]]) + Escape(text[1..])
  }

  function Quoted(text: Bytes): Bytes { [34] + Escape(text) + [34] }

  lemma {:induction false} LiteralOfEscape(text: Bytes, rest: Bytes)
    ensures LiteralLength(Escape(text) + ([34] + rest)) == |Escape(text)| + 1
  {
    var s := Escape(text) + ([34] + rest);
    if text == [] {
      assert s[0] == 34;
    } else {
      LiteralOfEscape(text[1..], rest);
      var head := if text[0] == 34 || text[0] == 92 then [92, text[0]] else [text[0]];
      assert s == head + (Escape(text[1..]) + ([34] + rest));
      assert s[|head|..] == Escape(text[1..]) + ([34] + rest);
    }
  }

  /** A quoted text is copied whole, whatever it holds and whatever follows. */
  lemma QuotedKept(text: Bytes, rest: Bytes)
    ensures Strip(Quoted(text) + rest) == Quoted(text) + Strip(rest)
  {
    hide Strip, LiteralLength, LineLength, BlockLength, Escape;
    var s := Quoted(text) + rest;
    LiteralOfEscape(text, rest);
    assert s[1..] == Escape(text) + ([34] + rest);
    StripFirst(s);
    var n := TokenLength(s);
    assert n == |Quoted(text)| && s[..n] == Quoted(text) && s[n..] == rest;
  }

  lemma {:induction false} LineEnds(line: Bytes, rest: Bytes)
    requires 10 !in line && 13 !in line && (rest == [] || rest[0] == 10 || rest[0] == 13)
    ensures LineLength(line + rest) == |line|
  {
    if line == [] {
      assert line + rest == rest;
    } else {
      LineEnds(line[1..], rest);
      assert (line + rest)[1..] == line[1..] + rest;
    }
  }

  /** A line comment is cut up to its line break, which stays, or up to the end. */
  lemma LineCommentCut(line: Bytes, rest: Bytes)
    requires 10 !in line && 13 !in line && (rest == [] || rest[0] == 10 || rest[0] == 13)
    ensures Strip([47, 47] + line + rest) == Strip(rest)
  {
    hide Strip, LiteralLength, LineLength, BlockLength;
    var s := [47, 47] + line + rest;
    LineEnds(line, rest);
    assert s[2..] == line + rest;
    StripFirst(s);
    assert s[2 + |line|..] == rest;
  }

  lemma {:induction false} BlockEnds(body: Bytes, rest: Bytes)
    requires forall i :: 0 <= i < |body| - 1 ==> !(body[i] == 42 && body[i + 1] == 47)
    ensures BlockLength(body + ([42, 47] + rest)) == |body| + 2
  {
    var s := body + ([42, 47] + rest);
    if body == [] {
      assert s[0] == 42 && s[1] == 47;
    } else {
      BlockEnds(body[1..], rest);
      assert s[1..] == body[1..] + ([42, 47] + rest);
      assert s[1] == if |body| > 1 then body[1] else 42;
    }
  }

  /** A block comment is cut whole; the first closer ends it. */
  lemma BlockCommentCut(body: Bytes, rest: Bytes)
    requires forall i :: 0 <= i < |body| - 1 ==> !(body[i] == 42 && body[i + 1] == 47)
    ensures Strip([47, 42] + body + [42, 47] + rest) == Strip(rest)
  {
    hide Strip, LiteralLength, LineLength, BlockLength;
    var s := [47, 42] + body + [42, 47] + rest;
    BlockEnds(body, rest);
    assert s[2..] == body + ([42, 47] + rest);
    StripFirst(s);
    assert s[2 + |body| + 2..] == rest;
  }

  /** Every other byte stays. */
  lemma PlainKept(byte: Byte, rest: Bytes)
    requires byte != 34 && (byte == 47 ==> rest == [] || (rest[0] != 47 && rest[0] != 42))
    ensures Strip([byte] + rest) == [byte] + Strip(rest) && Strip([]) == []
  {
    hide Strip, LiteralLength, LineLength, BlockLength;
    var s := [byte] + rest;
    StripFirst(s);
    assert s[1..] == rest && s[..1] == [byte];
    NothingLeft(Text);
  }
}
