/** Comments in a text to be minified: they may stand wherever a blank may, and go as blanks do. */
module JsonComments {
  import opened Json
  import opened JsonMinify
  import opened Wrappers
  import opened Sequences

  /** What may stand between the tokens of a text. */
  datatype Filler = Space(c: char) | Line(text: string) | Block(text: string)

  predicate Good(f: Filler)
  {
    match f
    case Space(c) => c in " \t\r\n"
    case Line(text) => '\n' !in text
    case Block(text) => Unended(text)
  }

  /** A block comment ends at the first "*" with a "/" behind it, and that may be the "*" it starts with. */
  predicate Unended(c: string)
  {
    forall i :: 0 <= i < |c| ==> !EndsAt(c, i)
  }

  predicate EndsAt(c: string, i: nat)
    requires i < |c|
  {
    c[i] == '/' && (i == 0 || c[i - 1] == '*')
  }

  function FillerText(f: Filler): string
  {
    match f
    case Space(c) => [c]
    case Line(text) => "//" + (text + "\n")
    case Block(text) => "/*" + (text + "*/")
  }

  lemma {:induction false} LineSkipped(c: string, b: string)
    requires '\n' !in c
    ensures SkipLine(c + ("\n" + b)) == "\n" + b && SkipLine(c) == ""
  {
    if c == "" {
      Empty("\n" + b);
    } else {
      Peel(c, "\n" + b);
      assert c[0] in c;
      LineSkipped(c[1..], b);
    }
  }

  lemma LineGone(c: string, b: string)
    requires '\n' !in c
    ensures Minify("//" + (c + ("\n" + b))) == Minify(b) && Minify("//" + c) == Some("")
  {
    LineSkipped("/" + c, b);
    var t, u := "//" + (c + ("\n" + b)), "//" + c;
    Assoc("/", c, "\n" + b);
    assert t[1..] == ("/" + c) + ("\n" + b) && u[1..] == "/" + c;
    assert ("\n" + b)[1..] == b;
  }

  /** From some place in a block comment on. */
  lemma {:induction false} BlockSkipped(c: string, b: string)
    requires forall i :: 0 < i < |c| ==> !(c[i] == '/' && c[i - 1] == '*')
    ensures SkipBlock(c + ("*/" + b)) == Some(b) && SkipBlock(c) == None
  {
    if c == "" {
      Empty("*/" + b);
      assert ("*/" + b)[2..] == b;
    } else {
      Peel(c, "*/" + b);
      BlockSkipped(c[1..], b);
      assert At(c + ("*/" + b), 1) == if |c| > 1 then c[1] else '*';
    }
  }

  lemma BlockGone(c: string, b: string)
    requires Unended(c)
    ensures Minify("/*" + (c + ("*/" + b))) == Minify(b) && Minify("/*" + c) == None
  {
    forall i | 0 < i < |"*" + c| ensures !(("*" + c)[i] == '/' && ("*" + c)[i - 1] == '*') {
      assert !EndsAt(c, i - 1);
      assert ("*" + c)[i] == c[i - 1] && (i > 1 ==> ("*" + c)[i - 1] == c[i - 2]);
    }
    BlockSkipped("*" + c, b);
    var t, u := "/*" + (c + ("*/" + b)), "/*" + c;
    Assoc("*", c, "*/" + b);
    assert t[1..] == ("*" + c) + ("*/" + b) && u[1..] == "*" + c;
  }

  /** A slash that starts no comment is kept. */
  lemma SlashKept(b: string)
    requires At(b, 0) != '/' && At(b, 0) != '*'
    ensures Minify("/" + b) == Prepend("/", Minify(b))
  {
    Peel("/", b);
    assert At("/" + b, 1) == At(b, 0);
  }

  /** A blank or a comment changes nothing. */
  lemma FillerGone(f: Filler, b: string)
    requires Good(f)
    ensures Minify(FillerText(f) + b) == Minify(b)
  {
    match f
    case Space(c) => MinifyBlanks([c], b);
    case Line(text) =>
      LineGone(text, b);
      Assoc(text, "\n", b);
      Assoc("//", text + "\n", b);
    case Block(text) =>
      BlockGone(text, b);
      Assoc(text, "*/", b);
      Assoc("/*", text + "*/", b);
  }

  function Fill(fs: seq<Filler>): string
  {
    if fs == [] then "" else FillerText(fs[0]) + Fill(fs[1..])
  }

  predicate AllGood(fs: seq<Filler>)
  {
    forall i :: 0 <= i < |fs| ==> Good(fs[i])
  }

  lemma {:induction false} FillGone(fs: seq<Filler>, b: string)
    requires AllGood(fs)
    ensures Minify(Fill(fs) + b) == Minify(b)
  {
    if fs == [] {
      Empty(b);
    } else {
      Assoc(FillerText(fs[0]), Fill(fs[1..]), b);
      FillerGone(fs[0], Fill(fs[1..]) + b);
      FillGone(fs[1..], b);
    }
  }

  /** Text that is kept: a single character outside a literal, or a whole literal. */
  ghost predicate IsToken(s: string)
  {
    (|s| == 1 && Inert(s)) || (exists v :: NulFree(v) && s == PrintString(v))
  }

  /** A token and what stands in front of it. */
  datatype Piece = Piece(front: seq<Filler>, token: string)

  ghost predicate AllPieces(ps: seq<Piece>)
  {
    forall i :: 0 <= i < |ps| ==> AllGood(ps[i].front) && IsToken(ps[i].token)
  }

  function Text(ps: seq<Piece>): string
  {
    if ps == [] then "" else Fill(ps[0].front) + (ps[0].token + Text(ps[1..]))
  }

  function Tokens(ps: seq<Piece>): string
  {
    if ps == [] then "" else ps[0].token + Tokens(ps[1..])
  }

  lemma TokenKept(s: string, b: string)
    requires IsToken(s)
    ensures Minify(s + b) == Prepend(s, Minify(b))
  {
    if |s| == 1 && Inert(s) {
      MinifyInert(s, b);
    } else {
      var v :| NulFree(v) && s == PrintString(v);
      MinifyString(v, b);
    }
  }

  lemma {:induction false} PiecesMinified(ps: seq<Piece>, b: string)
    requires AllPieces(ps)
    ensures Minify(Text(ps) + b) == Prepend(Tokens(ps), Minify(b))
  {
    if ps == [] {
      MinifyInert("", b);
    } else {
      var fill, token, rest := Fill(ps[0].front), ps[0].token, Text(ps[1..]);
      Assoc(fill, token + rest, b);
      Assoc(token, rest, b);
      FillGone(ps[0].front, token + (rest + b));
      TokenKept(token, rest + b);
      PiecesMinified(ps[1..], b);
      PrependTwice(token, Tokens(ps[1..]), Minify(b));
    }
  }

  /** Text behind the last token; a line comment at the very end needs no new line. */
  function Tail(fs: seq<Filler>, last: Option<string>): string
  {
    Fill(fs) + match last case None => "" case Some(c) => "//" + c
  }

  /** Whatever blanks and comments stand between the tokens of a text, minifying it leaves the tokens. */
  lemma CommentsGone(ps: seq<Piece>, fs: seq<Filler>, last: Option<string>)
    requires AllPieces(ps) && AllGood(fs) && (last.Some? ==> '\n' !in last.value)
    ensures Minify(Text(ps) + Tail(fs, last)) == Some(Tokens(ps))
  {
    var end := match last case None => "" case Some(c) => "//" + c;
    PiecesMinified(ps, Tail(fs, last));
    FillGone(fs, end);
    if last.Some? {
      LineGone(last.value, "");
    }
    Empty(Tokens(ps));
  }

  // ---------------------------------------------------------------------------------
  // The tokens of a printed value
  // ---------------------------------------------------------------------------------

  ghost predicate AllTokens(ss: seq<string>)
  {
    forall i :: 0 <= i < |ss| ==> IsToken(ss[i])
  }

  function Joined(ss: seq<string>): string
  {
    if ss == [] then "" else ss[0] + Joined(ss[1..])
  }

  lemma {:induction false} JoinedTwice(a: seq<string>, b: seq<string>)
    requires AllTokens(a) && AllTokens(b)
    ensures Joined(a + b) == Joined(a) + Joined(b) && AllTokens(a + b)
  {
    if a == [] {
      assert a + b == b;
      Empty(Joined(b));
    } else {
      assert (a + b)[1..] == a[1..] + b;
      JoinedTwice(a[1..], b);
      Assoc(a[0], Joined(a[1..]), Joined(b));
    }
  }

  /** Characters that are tokens by themselves. */
  lemma {:induction false} InertTokens(s: string) returns (ss: seq<string>)
    requires Inert(s)
    ensures Joined(ss) == s && AllTokens(ss)
  {
    if s == "" {
      ss := [];
    } else {
      ss := InertTokens(s[1..]);
      assert Inert([s[0]]) && [s[0]] + s[1..] == s;
      ss := [[s[0]]] + ss;
    }
  }

  lemma StringToken(v: string)
    requires NulFree(v)
    ensures AllTokens([PrintString(v)]) && Joined([PrintString(v)]) == PrintString(v)
  {
    assert IsToken(PrintString(v));
    Empty(PrintString(v));
  }

  lemma Bracketed(a: string, ss: seq<string>, b: string) returns (r: seq<string>)
    requires Inert(a) && AllTokens(ss) && Inert(b)
    ensures AllTokens(r) && Joined(r) == a + Joined(ss) + b
  {
    var front := InertTokens(a);
    var back := InertTokens(b);
    JoinedTwice(front, ss);
    JoinedTwice(front + ss, back);
    r := front + ss + back;
  }

  /** A value printed without blanks, token by token. */
  lemma {:induction false} ValueTokens(v: Item, depth: nat) returns (ss: seq<string>)
    requires Plain(v)
    ensures AllTokens(ss) && Joined(ss) == PrintValue(v, depth, false)
    decreases v, 0
  {
    match v
    case Null => ss := InertTokens("null");
    case False => ss := InertTokens("false");
    case True => ss := InertTokens("true");
    case Number(r) =>
      DecimalInert(if r.Floor < 0 then -r.Floor else r.Floor);
      ss := InertTokens(PrintInt(r.Floor));
    case String(s) =>
      StringToken(s);
      ss := [PrintString(s)];
    case Array(c) =>
      if c.End? {
        ss := InertTokens("[]");
      } else {
        ss := ItemsTokens(c, depth + 1);
        ss := Bracketed("[", ss, "]");
      }
    case Object(c) =>
      if c.End? {
        ss := InertTokens("{}");
      } else {
        ss := MembersTokens(c, depth + 1);
        ss := Bracketed("{", ss, "}");
        Unspaced(c, depth);
      }
  }

  lemma Unspaced(c: Chain, depth: nat)
    requires PlainMembers(c) && c.Link?
    ensures PrintValue(Object(c), depth, false) == "{" + PrintMembers(c, depth + 1, false) + "}"
  {
    var members := PrintMembers(c, depth + 1, false);
    assert "{" + "" + members + "" == "{" + members;
  }

  lemma {:induction false} ItemsTokens(c: Chain, depth: nat) returns (ss: seq<string>)
    requires PlainItems(c)
    ensures AllTokens(ss) && Joined(ss) == PrintItems(c, depth, false)
    decreases c
  {
    if c.End? {
      ss := [];
    } else {
      var value := ValueTokens(c.item, depth);
      var next := ItemsTokens(c.next, depth);
      value := Bracketed("", value, if c.next.End? then "" else ",");
      JoinedTwice(value, next);
      ItemPlain(c, depth);
      ss := value + next;
    }
  }

  lemma ItemPlain(c: Chain, depth: nat)
    requires PlainItems(c) && c.Link?
    ensures PrintItems(c, depth, false)
            == "" + PrintValue(c.item, depth, false) + (if c.next.End? then "" else ",") + PrintItems(c.next, depth, false)
  {
    Empty(PrintValue(c.item, depth, false));
  }

  lemma MemberPlain(c: Chain, depth: nat)
    requires PlainMembers(c) && c.Link?
    ensures PrintMembers(c, depth, false)
            == PrintString(c.name.value) + (":" + PrintValue(c.item, depth, false) + if c.next.End? then "" else ",")
               + PrintMembers(c.next, depth, false)
  {
    var name, value, comma := PrintString(c.name.value), PrintValue(c.item, depth, false), if c.next.End? then "" else ",";
    Empty(name);
    Empty(name + ":" + value + comma);
    Assoc(name, ":", value);
    Assoc(name, ":" + value, comma);
  }

  lemma {:induction false} MembersTokens(c: Chain, depth: nat) returns (ss: seq<string>)
    requires PlainMembers(c)
    ensures AllTokens(ss) && Joined(ss) == PrintMembers(c, depth, false)
    decreases c
  {
    if c.End? {
      ss := [];
    } else {
      var value := ValueTokens(c.item, depth);
      var next := MembersTokens(c.next, depth);
      value := Bracketed(":", value, if c.next.End? then "" else ",");
      StringToken(c.name.value);
      JoinedTwice([PrintString(c.name.value)], value);
      JoinedTwice([PrintString(c.name.value)] + value, next);
      MemberPlain(c, depth);
      ss := [PrintString(c.name.value)] + value + next;
    }
  }

  /** The tokens are those of a value. */
  lemma {:induction false} SameTokens(ps: seq<Piece>, ss: seq<string>)
    requires |ps| == |ss| && forall i :: 0 <= i < |ps| ==> ps[i].token == ss[i]
    ensures Tokens(ps) == Joined(ss)
  {
    if ps != [] {
      SameTokens(ps[1..], ss[1..]);
    }
  }

  /** A value printed without blanks consists of tokens; with any blanks and comments put in front of them and at the
      end, the minifier restores it. */
  lemma ValueCommented(v: Item) returns (ss: seq<string>)
    requires Plain(v)
    ensures AllTokens(ss) && Joined(ss) == PrintUnformatted(v)
    ensures forall ps: seq<Piece>, fs: seq<Filler> ::
              |ps| == |ss| && (forall i :: 0 <= i < |ps| ==> AllGood(ps[i].front) && ps[i].token == ss[i]) && AllGood(fs) ==>
              Minify(Text(ps) + Fill(fs)) == Some(PrintUnformatted(v))
  {
    ss := ValueTokens(v, 0);
    forall ps: seq<Piece>, fs: seq<Filler>
      | |ps| == |ss| && (forall i :: 0 <= i < |ps| ==> AllGood(ps[i].front) && ps[i].token == ss[i]) && AllGood(fs)
      ensures Minify(Text(ps) + Fill(fs)) == Some(PrintUnformatted(v))
    {
      SameTokens(ps, ss);
      CommentsGone(ps, fs, None);
      Empty(Fill(fs));
    }
  }
}
