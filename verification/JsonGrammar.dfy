/** The texts that the parser accepts, written down: which they are, and what values they stand for. */
module JsonGrammar {
  import opened Json
  import opened JsonPasses
  import opened JsonSafety
  import opened JsonMinified
  import JsonNumbers
  import opened Wrappers
  import opened Sequences

  /** A value as it is written, with the spaces in it. */
  datatype Written =
    | Word(word: string)
    | Numeric(numeral: JsonNumbers.Numeral)
    | Literal(body: string)
    | Listed(gap: string, entries: Entries)
    | Record(gap: string, entries: Entries)

  /** Entries set apart by commas, each with spaces around it and, in an object, a name. */
  datatype Entries = Nothing | Entry(name: Option<Label>, before: string, item: Written, after: string, next: Entries)

  datatype Label = Label(before: string, body: string, after: string)

  predicate Spaces(s: string)
  {
    forall i :: 0 <= i < |s| ==> 1 <= s[i] as int <= 32
  }

  predicate HexDigits(s: string)
  {
    forall i :: 0 <= i < |s| ==> IsHex(s[i])
  }

  /** The inside of a literal: characters, escapes of one character, and \u with four digits. */
  predicate IsBody(b: string)
    decreases |b|
  {
    if b == "" then true
    else if b[0] == '\"' then false
    else if b[0] != '\\' then IsBody(b[1..])
    else if |b| < 2 then false
    else if b[1] != 'u' then IsBody(b[2..])
    else |b| >= 6 && HexDigits(b[2..6]) && IsBody(b[6..])
  }

  predicate GoodLabel(l: Option<Label>, named: bool)
  {
    match l
    case None => !named
    case Some(x) => named && Spaces(x.before) && IsBody(x.body) && Spaces(x.after)
  }

  predicate Good(w: Written)
  {
    match w
    case Word(word) => word == "null" || word == "false" || word == "true"
    case Numeric(n) => JsonNumbers.Good(n)
    case Literal(body) => IsBody(body)
    case Listed(gap, es) => Spaces(gap) && (es.Entry? ==> gap == "") && GoodEntries(es, false)
    case Record(gap, es) => Spaces(gap) && (es.Entry? ==> gap == "") && GoodEntries(es, true)
  }

  predicate GoodEntries(es: Entries, named: bool)
  {
    es.Nothing? ||
    (GoodLabel(es.name, named) && Spaces(es.before) && Good(es.item) && Spaces(es.after) && GoodEntries(es.next, named))
  }

  function LiteralText(body: string): string
  {
    "\"" + (body + "\"")
  }

  function Text(w: Written): string
  {
    match w
    case Word(word) => word
    case Numeric(n) => JsonNumbers.Text(n)
    case Literal(body) => LiteralText(body)
    case Listed(gap, es) => "[" + (gap + (EntriesText(es) + "]"))
    case Record(gap, es) => "{" + (gap + (EntriesText(es) + "}"))
  }

  function LabelText(l: Option<Label>): string
  {
    match l
    case None => ""
    case Some(x) => x.before + (LiteralText(x.body) + (x.after + ":"))
  }

  function EntriesText(es: Entries): string
  {
    if es.Nothing? then ""
    else LabelText(es.name) + (es.before + (Text(es.item) + (es.after + (Comma(es.next) + EntriesText(es.next)))))
  }

  function Comma(next: Entries): string
  {
    if next.Nothing? then "" else ","
  }

  /** The string a literal stands for; JsonStrings says which that is. */
  function LiteralValue(body: string): string
    requires IsBody(body)
  {
    BodySafe(body, "\"");
    SecondPass(body + "\"").value.0
  }

  function ValueOf(w: Written): Item
    requires Good(w)
  {
    match w
    case Word(word) => if word == "null" then Null else if word == "false" then False else True
    case Numeric(n) => Number(JsonNumbers.Amount(n))
    case Literal(body) => String(LiteralValue(body))
    case Listed(_, es) => Array(ChainOf(es, false))
    case Record(_, es) => Object(ChainOf(es, true))
  }

  function ChainOf(es: Entries, named: bool): Chain
    requires GoodEntries(es, named)
  {
    if es.Nothing? then End
    else Link(if named then Some(LiteralValue(es.name.value.body)) else None, ValueOf(es.item), ChainOf(es.next, named))
  }

  // ---------------------------------------------------------------------------------
  // Literals
  // ---------------------------------------------------------------------------------

  lemma HexFour(b: string, rest: string)
    requires |b| >= 6 && HexDigits(b[2..6])
    ensures FourHex((b + rest)[2..])
  {
    var u := (b + rest)[2..];
    assert At(u, 0) == b[2..6][0] && At(u, 1) == b[2..6][1] && At(u, 2) == b[2..6][2] && At(u, 3) == b[2..6][3];
  }

  lemma HexBody(t: string)
    requires |t| >= 6 && t[0] == '\\' && t[1] == 'u' && FourHex(t[2..]) && WellEscaped(t[6..])
    ensures WellEscaped(t)
  {
    HexEscaped(t);
  }

  /** The passes cross the inside of a literal and stop behind it. */
  lemma {:induction false} BodyStops(b: string, rest: string)
    requires IsBody(b) && At(rest, 0) == '\"'
    ensures WellEscaped(b + rest) && Stop(b + rest) == Some(rest)
    decreases |b|
  {
    if b == "" {
      Empty(rest);
    } else {
      var t, n := b + rest, if b[0] != '\\' then 1 else if b[1] != 'u' then 2 else 6;
      assert t[n..] == b[n..] + rest && t[0] == b[0] && (n > 1 ==> t[1] == b[1]);
      BodyStops(b[n..], rest);
      if n == 6 {
        HexFour(b, rest);
        HexBody(t);
      }
    }
  }

  lemma BodySafe(b: string, rest: string)
    requires IsBody(b) && At(rest, 0) == '\"'
    ensures SecondPass(b + rest).Some? && WellEscaped(b + rest) && Stop(b + rest) == Some(rest)
  {
    BodyStops(b, rest);
    SecondStops(b + rest);
  }

  /** A literal is read, and reading stops behind it. */
  lemma LiteralReads(body: string, rest: string)
    requires IsBody(body)
    ensures ParseString(LiteralText(body) + rest) == Read(LiteralValue(body), rest)
    ensures (LiteralText(body) + rest)[0] == '\"'
  {
    var b := body + "\"";
    BodySafe(body, "\"");
    assert b[..|body| + 1] == b && b[|body|..] == "\"";
    Assoc("\"", b, rest);
    LiteralAlike("\"" + (b + rest), b + rest, b, |body|, rest);
  }

  /** The inside of a literal in a text without unfinished escapes. */
  lemma {:induction false} BodyFound(t: string) returns (b: string)
    requires WellEscaped(t) && Stop(t).Some?
    ensures IsBody(b) && t == b + Stop(t).value
    decreases |t|
  {
    b := "";
    if t != "" && t[0] != '\"' {
      var n := if t[0] != '\\' then 1 else if t[1] != 'u' then 2 else 6;
      if n == 6 {
        HexCut(t);
      }
      var u := BodyFound(t[n..]);
      b := t[..n] + u;
      BodyJoin(t, n, u);
      Rejoin(t, n, u, Stop(t).value);
    } else {
      Empty(t);
    }
  }

  lemma Rejoin(t: string, n: nat, u: string, rest: string)
    requires n <= |t| && t[n..] == u + rest
    ensures t == (t[..n] + u) + rest
  {
    Assoc(t[..n], u, rest);
    assert t == t[..n] + t[n..];
  }

  lemma HexCut(t: string)
    requires WellEscaped(t) && t != "" && t[0] == '\\' && t[1] == 'u'
    ensures |t| >= 6 && WellEscaped(t[6..]) && HexDigits(t[2..6])
  {
    OrdinaryCut(t[2..], 4);
    assert t[2..][4..] == t[6..];
    var u := t[2..];
    assert At(u, 0) == t[2..6][0] && At(u, 1) == t[2..6][1] && At(u, 2) == t[2..6][2] && At(u, 3) == t[2..6][3];
  }

  lemma BodyJoin(t: string, n: nat, u: string)
    requires t != "" && t[0] != '\"' && n <= |t| && IsBody(u)
    requires if t[0] != '\\' then n == 1 else if n == 2 then t[1] != 'u' else n == 6 && t[1] == 'u' && HexDigits(t[2..6])
    ensures IsBody(t[..n] + u)
  {
    var b := t[..n] + u;
    assert b[n..] == u && b[0] == t[0] && (n > 1 ==> b[1] == t[1]);
    if n == 6 {
      assert b[2..6] == t[2..6];
    }
  }

  /** A literal that is read is one, unless the text ends in it. */
  lemma LiteralFound(t: string) returns (body: string)
    requires Clean(t) && ParseString(t).Read? && !Open(t)
    ensures IsBody(body) && t == LiteralText(body) + ParseString(t).rest && ParseString(t).value == LiteralValue(body)
  {
    CleanCut(t, 1);
    CleanEscaped(t[1..]);
    LiteralRead(t);
    body := BodyFound(t[1..]);
    var stop, rest := Stop(t[1..]).value, ParseString(t).rest;
    SuffixOf(t[1..]);
    LiteralClosed(t, body, stop, rest);
    LiteralReads(body, rest);
  }

  lemma LiteralClosed(t: string, body: string, stop: string, rest: string)
    requires t != "" && t[0] == '\"' && t[1..] == body + stop && stop != "" && stop[0] == '\"' && rest == stop[1..]
    ensures t == LiteralText(body) + rest
  {
    assert stop == "\"" + rest && t == "\"" + t[1..];
    Assoc(body, "\"", rest);
    Assoc("\"", body + "\"", rest);
  }

  // ---------------------------------------------------------------------------------
  // Spaces
  // ---------------------------------------------------------------------------------

  lemma {:induction false} SkipRead(gap: string, u: string)
    requires Spaces(gap) && !IsSpace(At(u, 0))
    ensures Skip(gap + u) == u
  {
    if gap == "" {
      Empty(u);
    } else {
      Peel(gap, u);
      SkipRead(gap[1..], u);
    }
  }

  lemma {:induction false} SkipFound(t: string) returns (gap: string)
    ensures Spaces(gap) && t == gap + Skip(t)
    decreases |t|
  {
    if IsSpace(At(t, 0)) {
      var u := SkipFound(t[1..]);
      gap := [t[0]] + u;
      Assoc([t[0]], u, Skip(t));
      assert t == [t[0]] + t[1..];
    } else {
      gap := "";
      Empty(t);
    }
  }

  /** What can follow a value: neither part of a number nor of a word. */
  lemma GapEnds(gap: string, u: string)
    requires Spaces(gap) && Ends(u)
    ensures Ends(gap + u)
  {
    if gap == "" {
      Empty(u);
    }
  }

  // ---------------------------------------------------------------------------------
  // What is written is read
  // ---------------------------------------------------------------------------------

  lemma {:induction false} ValueReads(w: Written, rest: string)
    requires Good(w) && Ends(rest)
    ensures ParseValue(Text(w) + rest) == Read(ValueOf(w), rest)
    ensures var c := At(Text(w) + rest, 0); !IsSpace(c) && c != ']' && c != '}'
    decreases w, 0
  {
    match w
    case Word(word) => WordReads(word, rest);
    case Numeric(n) => NumericReads(n, rest);
    case Literal(body) =>
      LiteralReads(body, rest);
      NoWord(LiteralText(body) + rest);
    case Listed(gap, es) => ListReads(gap, es, rest);
    case Record(gap, es) => RecordReads(gap, es, rest);
  }

  lemma WordReads(word: string, rest: string)
    requires Good(Word(word))
    ensures ParseValue(word + rest) == Read(ValueOf(Word(word)), rest)
    ensures var c := At(word + rest, 0); !IsSpace(c) && c != ']' && c != '}'
  {
    assert (word + rest)[|word|..] == rest && word <= word + rest;
    assert (word + rest)[0] == word[0];
  }

  lemma NumericReads(n: JsonNumbers.Numeral, rest: string)
    requires JsonNumbers.Good(n) && Ends(rest)
    ensures ParseValue(JsonNumbers.Text(n) + rest) == Read(Number(JsonNumbers.Amount(n)), rest)
    ensures var c := At(JsonNumbers.Text(n) + rest, 0); !IsSpace(c) && c != ']' && c != '}'
  {
    JsonNumbers.NumeralRead(n, rest);
    NumberValue(JsonNumbers.Text(n) + rest);
  }

  lemma NumberValue(t: string)
    requires At(t, 0) == '-' || IsDigit(At(t, 0))
    ensures ParseValue(t) == Read(Number(ParseNumber(t).0), ParseNumber(t).1)
  {
    NoWord(t);
  }

  lemma Bracket(open: string, gap: string, inside: string, close: string, rest: string)
    requires |open| == 1
    ensures var t := open + (gap + (inside + close)) + rest;
            t[0] == open[0] && t[1..] == gap + (inside + (close + rest))
  {
    Assoc(open, gap + (inside + close), rest);
    Assoc(gap, inside + close, rest);
    Assoc(inside, close, rest);
    Peel(open, gap + (inside + (close + rest)));
  }

  lemma {:induction false} ListReads(gap: string, es: Entries, rest: string)
    requires Good(Listed(gap, es))
    ensures ParseValue(Text(Listed(gap, es)) + rest) == Read(ValueOf(Listed(gap, es)), rest)
    ensures At(Text(Listed(gap, es)) + rest, 0) == '['
    decreases es, 2
  {
    Bracket("[", gap, EntriesText(es), "]", rest);
    ArrayValue(Text(Listed(gap, es)) + rest);
    var u := EntriesText(es) + ("]" + rest);
    if es.Nothing? {
      Empty("]" + rest);
      SkipRead(gap, u);
      Peel("]", rest);
    } else {
      Empty(u);
      ItemsRead(es, rest);
      SkippedItems(u);
    }
  }

  lemma {:induction false} RecordReads(gap: string, es: Entries, rest: string)
    requires Good(Record(gap, es))
    ensures ParseValue(Text(Record(gap, es)) + rest) == Read(ValueOf(Record(gap, es)), rest)
    ensures At(Text(Record(gap, es)) + rest, 0) == '{'
    decreases es, 2
  {
    Bracket("{", gap, EntriesText(es), "}", rest);
    ObjectValue(Text(Record(gap, es)) + rest);
    var u := EntriesText(es) + ("}" + rest);
    if es.Nothing? {
      Empty("}" + rest);
      SkipRead(gap, u);
      Peel("}", rest);
    } else {
      Empty(u);
      MembersRead(es, rest);
      SkippedMembers(u);
    }
  }

  /** What follows an entry's value. */
  function Following(es: Entries, close: string, rest: string): string
    requires es.Entry?
  {
    Comma(es.next) + (EntriesText(es.next) + (close + rest))
  }

  lemma EntryParts(es: Entries, close: string, rest: string)
    requires es.Entry?
    ensures EntriesText(es) + (close + rest)
            == LabelText(es.name) + (es.before + (Text(es.item) + (es.after + Following(es, close, rest))))
  {
    var a, b, c, d, e, f, g := LabelText(es.name), es.before, Text(es.item), es.after, Comma(es.next), EntriesText(es.next), close + rest;
    Assoc(a, b + (c + (d + (e + f))), g);
    Assoc(b, c + (d + (e + f)), g);
    Assoc(c, d + (e + f), g);
    Assoc(d, e + f, g);
    Assoc(e, f, g);
  }

  lemma MarkEnds(u: string)
    requires u != "" && (u[0] == ',' || u[0] == ']' || u[0] == '}')
    ensures Ends(u) && !IsSpace(At(u, 0))
  {
  }

  lemma FollowingIs(es: Entries, close: string, rest: string)
    requires es.Entry? && |close| == 1 && (close == "]" || close == "}")
    ensures var u := Following(es, close, rest);
            && Ends(u) && !IsSpace(At(u, 0))
            && (if es.next.Nothing? then u == close + rest && u[0] == close[0] && u[1..] == rest
                else u[0] == ',' && u[1..] == EntriesText(es.next) + (close + rest))
  {
    var v := EntriesText(es.next) + (close + rest);
    if es.next.Nothing? {
      Empty(close + rest);
      Peel(close, rest);
      MarkEnds(close + rest);
    } else {
      Peel(",", v);
      MarkEnds("," + v);
    }
  }

  /** The value of an entry, with the spaces around it. */
  lemma {:induction false} EntryReads(es: Entries, named: bool, close: string, rest: string)
    requires es.Entry? && GoodEntries(es, named) && (close == "]" || close == "}")
    ensures var u := Following(es, close, rest);
            var t := es.before + (Text(es.item) + (es.after + u));
            && ParseValue(Skip(t)) == Read(ValueOf(es.item), es.after + u) && Skip(es.after + u) == u
            && At(Skip(t), 0) != ']'
    decreases es, 0
  {
    var u := Following(es, close, rest);
    FollowingIs(es, close, rest);
    GapEnds(es.after, u);
    ValueReads(es.item, es.after + u);
    SkipRead(es.before, Text(es.item) + (es.after + u));
    SkipRead(es.after, u);
  }

  lemma {:induction false} ItemsRead(es: Entries, rest: string)
    requires es.Entry? && GoodEntries(es, false)
    ensures ParseItems(EntriesText(es) + ("]" + rest)) == Read(ChainOf(es, false), rest)
    ensures At(Skip(EntriesText(es) + ("]" + rest)), 0) != ']'
    decreases es, 1
  {
    EntryParts(es, "]", rest);
    EntryReads(es, false, "]", rest);
    FollowingIs(es, "]", rest);
    Empty(es.before + (Text(es.item) + (es.after + Following(es, "]", rest))));
    if es.next.Entry? {
      ItemsRead(es.next, rest);
    }
  }

  lemma LabelReads(l: Label, t: string)
    requires GoodLabel(Some(l), true)
    ensures var x := LabelText(Some(l)) + t;
            && ParseString(Skip(x)) == Read(LiteralValue(l.body), l.after + (":" + t))
            && Skip(l.after + (":" + t)) == ":" + t && At(Skip(x), 0) == '\"'
  {
    Assoc(l.before, LiteralText(l.body) + (l.after + ":"), t);
    Assoc(LiteralText(l.body), l.after + ":", t);
    Assoc(l.after, ":", t);
    LiteralReads(l.body, l.after + (":" + t));
    SkipRead(l.before, LiteralText(l.body) + (l.after + (":" + t)));
    SkipRead(l.after, ":" + t);
  }

  lemma {:induction false} MembersRead(es: Entries, rest: string)
    requires es.Entry? && GoodEntries(es, true)
    ensures ParseMembers(EntriesText(es) + ("}" + rest)) == Read(ChainOf(es, true), rest)
    ensures At(Skip(EntriesText(es) + ("}" + rest)), 0) == '\"'
    decreases es, 1
  {
    var u := Following(es, "}", rest);
    var t := es.before + (Text(es.item) + (es.after + u));
    EntryParts(es, "}", rest);
    EntryReads(es, true, "}", rest);
    FollowingIs(es, "}", rest);
    LabelReads(es.name.value, t);
    if es.next.Entry? {
      MembersRead(es.next, rest);
    }
    Peel(":", t);
    SkippedMembers(LabelText(es.name) + t);
    var x := Skip(LabelText(es.name) + t);
    MembersParts(x, ParseString(x), ":" + t, ParseValue(Skip(t)), u);
  }

  // ---------------------------------------------------------------------------------
  // What is read is written
  // ---------------------------------------------------------------------------------

  lemma {:induction false} ValueFound(t: string) returns (w: Written)
    requires Clean(t) && ParseValue(t).Read? && !Open(t)
    ensures Good(w) && t == Text(w) + ParseValue(t).rest && ValueOf(w) == ParseValue(t).value
    decreases |t|, 1
  {
    if IsWord(t) {
      w := WordFound(t);
    } else if At(t, 0) == '\"' {
      var body := LiteralFound(t);
      w := Literal(body);
    } else if At(t, 0) == '-' || IsDigit(At(t, 0)) {
      var n := JsonNumbers.NumeralFound(t);
      NumberValue(t);
      w := Numeric(n);
    } else if At(t, 0) == '[' {
      w := ListFound(t);
    } else {
      w := RecordFound(t);
    }
  }

  lemma WordFound(t: string) returns (w: Written)
    requires IsWord(t) && ParseValue(t).Read?
    ensures Good(w) && t == Text(w) + ParseValue(t).rest && ValueOf(w) == ParseValue(t).value
  {
    var word := if "null" <= t then "null" else if "false" <= t then "false" else "true";
    assert t == word + t[|word|..];
    w := Word(word);
  }

  lemma ClosingFound(u: string, close: string)
    requires |close| == 1 && u != "" && u[0] == close[0]
    ensures u == "" + (close + u[1..])
  {
  }

  lemma Enclosed(t: string, open: string, gap: string, inside: string, close: string, rest: string)
    requires |open| == 1 && t != "" && t[0] == open[0] && t[1..] == gap + (inside + (close + rest))
    ensures t == open + (gap + (inside + close)) + rest
  {
    Bracket(open, gap, inside, close, rest);
    var x := open + (gap + (inside + close)) + rest;
    assert t == [t[0]] + t[1..] && x == [x[0]] + x[1..];
  }

  lemma {:induction false} ListFound(t: string) returns (w: Written)
    requires Clean(t) && At(t, 0) == '[' && ParseValue(t).Read?
    ensures Good(w) && t == Text(w) + ParseValue(t).rest && ValueOf(w) == ParseValue(t).value
    decreases |t|, 0
  {
    ArrayValue(t);
    CleanCut(t, 1);
    var gap, es, rest := "", Nothing, ParseValue(t).rest;
    var u := Skip(t[1..]);
    if At(u, 0) == ']' {
      gap := SkipFound(t[1..]);
      ClosingFound(u, "]");
    } else {
      SkippedItems(t[1..]);
      es := ItemsFound(t[1..]);
      Empty(t[1..]);
    }
    w := Listed(gap, es);
    Enclosed(t, "[", gap, EntriesText(es), "]", rest);
  }

  lemma {:induction false} RecordFound(t: string) returns (w: Written)
    requires Clean(t) && At(t, 0) == '{' && ParseValue(t).Read?
    ensures Good(w) && t == Text(w) + ParseValue(t).rest && ValueOf(w) == ParseValue(t).value
    decreases |t|, 0
  {
    ObjectValue(t);
    CleanCut(t, 1);
    var gap, es, rest := "", Nothing, ParseValue(t).rest;
    var u := Skip(t[1..]);
    if At(u, 0) == '}' {
      gap := SkipFound(t[1..]);
      ClosingFound(u, "}");
    } else {
      SkippedMembers(t[1..]);
      es := MembersFound(t[1..]);
      Empty(t[1..]);
    }
    w := Record(gap, es);
    Enclosed(t, "{", gap, EntriesText(es), "}", rest);
  }

  /** The value of an entry and the spaces around it. */
  lemma {:induction false} EntryFound(t: string) returns (before: string, w: Written, after: string)
    requires Clean(t) && ParseValue(Skip(t)).Read? && ParseValue(Skip(t)).rest != ""
    ensures Spaces(before) && Good(w) && Spaces(after) && ValueOf(w) == ParseValue(Skip(t)).value
    ensures t == before + (Text(w) + (after + Skip(ParseValue(Skip(t)).rest)))
    ensures Clean(Skip(ParseValue(Skip(t)).rest))
    decreases |t|, 2
  {
    before := SkipFound(t);
    CleanSkip(t);
    Closed(Skip(t));
    w := ValueFound(Skip(t));
    ValueSafe(Skip(t));
    after := SkipFound(ParseValue(Skip(t)).rest);
    CleanSkip(ParseValue(Skip(t)).rest);
  }

  lemma FollowingFound(es: Entries, u: string, close: string, rest: string)
    requires es.Entry? && u != "" && |close| == 1
    requires if es.next.Nothing? then u[0] == close[0] && u[1..] == rest
             else u[0] == ',' && u[1..] == EntriesText(es.next) + (close + rest)
    ensures u == Following(es, close, rest)
  {
    assert u == [u[0]] + u[1..];
    if es.next.Nothing? {
      Empty(close + rest);
    }
  }

  lemma {:induction false} ItemsFound(t: string) returns (es: Entries)
    requires Clean(t) && ParseItems(t).Read?
    ensures es.Entry? && GoodEntries(es, false) && ChainOf(es, false) == ParseItems(t).value
    ensures t == EntriesText(es) + ("]" + ParseItems(t).rest)
    decreases |t|, 3
  {
    var rest, u := ParseItems(t).rest, Skip(ParseValue(Skip(t)).rest);
    var before, w, after := EntryFound(t);
    var next := Nothing;
    if u[0] == ',' {
      CleanCut(u, 1);
      next := ItemsFound(u[1..]);
    }
    es := Entry(None, before, w, after, next);
    FollowingFound(es, u, "]", rest);
    EntryParts(es, "]", rest);
    Empty(t);
  }

  lemma LabelFound(t: string) returns (l: Label)
    requires Clean(t) && ParseString(Skip(t)).Read? && At(Skip(ParseString(Skip(t)).rest), 0) == ':'
    ensures GoodLabel(Some(l), true) && LiteralValue(l.body) == ParseString(Skip(t)).value
    ensures t == LabelText(Some(l)) + Skip(ParseString(Skip(t)).rest)[1..]
    ensures Clean(Skip(ParseString(Skip(t)).rest)[1..])
  {
    var before := SkipFound(t);
    CleanSkip(t);
    ClosedName(Skip(t));
    var body := LiteralFound(Skip(t));
    StringSafe(Skip(t));
    var rest := ParseString(Skip(t)).rest;
    var after := SkipFound(rest);
    CleanSkip(rest);
    var colon := Skip(rest);
    CleanCut(colon, 1);
    l := Label(before, body, after);
    LabelJoin(t, l, rest, colon);
  }

  lemma LabelJoin(t: string, l: Label, rest: string, colon: string)
    requires t == l.before + (LiteralText(l.body) + rest) && rest == l.after + colon && colon != "" && colon[0] == ':'
    ensures t == LabelText(Some(l)) + colon[1..]
  {
    assert colon == ":" + colon[1..];
    Assoc(l.after, ":", colon[1..]);
    Assoc(LiteralText(l.body), l.after + ":", colon[1..]);
    Assoc(l.before, LiteralText(l.body) + (l.after + ":"), colon[1..]);
  }

  lemma {:induction false} MembersFound(t: string) returns (es: Entries)
    requires Clean(t) && ParseMembers(t).Read?
    ensures es.Entry? && GoodEntries(es, true) && ChainOf(es, true) == ParseMembers(t).value
    ensures t == EntriesText(es) + ("}" + ParseMembers(t).rest)
    decreases |t|, 3
  {
    var rest := ParseMembers(t).rest;
    var l := LabelFound(t);
    var x := Skip(ParseString(Skip(t)).rest)[1..];
    var u := Skip(ParseValue(Skip(x)).rest);
    var before, w, after := EntryFound(x);
    var next := Nothing;
    if u[0] == ',' {
      CleanCut(u, 1);
      next := MembersFound(u[1..]);
    }
    es := Entry(Some(l), before, w, after, next);
    FollowingFound(es, u, "}", rest);
    EntryParts(es, "}", rest);
  }

  // ---------------------------------------------------------------------------------
  // Whole texts
  // ---------------------------------------------------------------------------------

  /** The text is the written value, with spaces around it. */
  ghost predicate IsText(t: string, w: Written)
  {
    Good(w) && exists before, after :: Spaces(before) && Spaces(after) && t == before + (Text(w) + after)
  }

  lemma TextReads(t: string, w: Written)
    requires IsText(t, w)
    ensures ParseWithOpts(t, true) == Read(ValueOf(w), "")
  {
    var before, after :| Spaces(before) && Spaces(after) && t == before + (Text(w) + after);
    Empty(after);
    GapEnds(after, "");
    ValueReads(w, after);
    SkipRead(before, Text(w) + after);
    SkipRead(after, "");
  }

  lemma TextFound(t: string) returns (w: Written)
    requires Clean(t) && ParseWithOpts(t, true).Read? && !Open(Skip(t))
    ensures IsText(t, w) && ValueOf(w) == ParseWithOpts(t, true).value
  {
    var before := SkipFound(t);
    CleanSkip(t);
    w := ValueFound(Skip(t));
    var rest := ParseValue(Skip(t)).rest;
    var after := SkipFound(rest);
    Empty(after);
    assert t == before + (Text(w) + after);
  }

  /** A text without unfinished escapes that is not an open literal is read exactly when it is a value as it can be
      written, with spaces around it, and what is read is that value. */
  lemma AcceptExact(t: string, v: Item)
    requires Clean(t) && !Open(Skip(t))
    ensures ParseWithOpts(t, true) == Read(v, "") <==> exists w :: IsText(t, w) && ValueOf(w) == v
  {
    if ParseWithOpts(t, true) == Read(v, "") {
      var w := TextFound(t);
    }
    if exists w :: IsText(t, w) && ValueOf(w) == v {
      var w :| IsText(t, w) && ValueOf(w) == v;
      TextReads(t, w);
    }
  }
}
