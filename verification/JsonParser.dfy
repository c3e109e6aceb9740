/** Parsing into memory: items are allocated, linked and filled in the order of the source, and everything is
    released again when the text is rejected. A pointer into the text is the text from there on. The methods demand
    a text that the source can read without leaving it or a string's buffer. */
module JsonParser {
  import J = Json
  import JsonPrinter
  import JsonStrings
  import JsonRoundTrip
  import JsonSafety
  import opened JsonHeap
  import opened JsonTree
  import opened JsonItems
  import opened JsonReaders
  import opened JsonDuplicate
  import opened JsonDocs
  import opened JsonFill
  import opened Wrappers
  import opened Shapes

  // ---------------------------------------------------------------------------------
  // Scanning
  // ---------------------------------------------------------------------------------

  method Skip(text: string) returns (r: string)
    ensures r == J.Skip(text) && (J.NulFree(text) ==> J.NulFree(r))
  {
    r := text;
    while J.IsSpace(J.At(r, 0))
      invariant J.NulFree(text) ==> J.NulFree(r)
      invariant J.Skip(r) == J.Skip(text)
      decreases |r|
    {
      r := r[1..];
    }
  }

  /** Reads digits onto n. */
  method Digits(num: string, start: nat) returns (n: nat, rest: string)
    ensures (n, rest) == J.ParseDigits(num, start) && (J.NulFree(num) ==> J.NulFree(rest))
  {
    n, rest := start, num;
    while J.IsDigit(J.At(rest, 0))
      invariant J.NulFree(num) ==> J.NulFree(rest)
      invariant J.ParseDigits(rest, n) == J.ParseDigits(num, start)
      decreases |rest|
    {
      n, rest := 10 * n + J.DigitValue(rest[0]), rest[1..];
    }
  }

  /** The digits before the point. */
  method Whole(text: string) returns (n: nat, rest: string)
    ensures var t := if J.At(text, 0) == '0' then text[1..] else text;
            (n, rest) == if '1' <= J.At(t, 0) <= '9' then J.ParseDigits(t, 0) else (0, t)
    ensures J.NulFree(text) ==> J.NulFree(rest)
  {
    n, rest := 0, text;
    if J.At(rest, 0) == '0' {
      rest := rest[1..];
    }
    if '1' <= J.At(rest, 0) <= '9' {
      n, rest := Digits(rest, 0);
    }
  }

  /** The digits after it, and how many there are, negated. */
  method Fraction(text: string, whole: nat) returns (n: nat, scale: int, rest: string)
    ensures var there := J.At(text, 0) == '.' && J.IsDigit(J.At(text, 1));
            && (n, rest) == (if there then J.ParseDigits(text[1..], whole) else (whole, text))
            && scale == if there then |rest| - |text| + 1 else 0
    ensures J.NulFree(text) ==> J.NulFree(rest)
  {
    n, scale, rest := whole, 0, text;
    if J.At(rest, 0) == '.' && J.IsDigit(J.At(rest, 1)) {
      n, rest := Digits(rest[1..], n);
      scale := |rest| - |text| + 1;
    }
  }

  /** Sign, digits, fraction and exponent. */
  method ParseNumber(text: string) returns (n: real, rest: string)
    ensures (n, rest) == J.ParseNumber(text) && (J.NulFree(text) ==> J.NulFree(rest))
  {
    var negative, num := false, text;
    if J.At(num, 0) == '-' {
      negative, num := true, num[1..];
    }
    var m, scale, subscale;
    m, num := Whole(num);
    m, scale, num := Fraction(num, m);
    subscale, rest := Exponent(num);
    n := J.Scaled(negative, m, scale + subscale);
  }

  method Exponent(text: string) returns (e: int, rest: string)
    ensures (e, rest) == J.ParseExponent(text) && (J.NulFree(text) ==> J.NulFree(rest))
  {
    e, rest := 0, text;
    if J.At(rest, 0) == 'e' || J.At(rest, 0) == 'E' {
      rest := rest[1..];
      var sign: int := 1;
      if J.At(rest, 0) == '+' {
        rest := rest[1..];
      } else if J.At(rest, 0) == '-' {
        sign, rest := -1, rest[1..];
      }
      e, rest := Digits(rest, 0);
      e := e * sign;
    }
  }

  // ---------------------------------------------------------------------------------
  // Lists read so far
  // ---------------------------------------------------------------------------------

  function Join(c: J.Chain, d: J.Chain): J.Chain
  {
    if c.End? then d else J.Link(c.name, c.item, Join(c.next, d))
  }

  lemma {:induction false} JoinEnd(c: J.Chain)
    ensures Join(c, J.End) == c
    decreases c
  {
    if c.Link? {
      JoinEnd(c.next);
    }
  }

  lemma {:induction false} JoinOne(c: J.Chain, name: Option<string>, v: J.Item, d: J.Chain)
    ensures Join(Join(c, J.Link(name, v, J.End)), d) == Join(c, J.Link(name, v, d))
    ensures DocsOf(Join(c, J.Link(name, v, J.End))) == DocsOf(c) + [DocOf(name, v)]
    decreases c
  {
    if c.Link? {
      JoinOne(c.next, name, v, d);
    } else {
      assert DocsOf(J.Link(name, v, J.End)) == [DocOf(name, v)] + DocsOf(J.End);
    }
  }

  /** What the parser of array entries makes of the text after an entry. */
  function AfterItem(u: string): J.Parsed<J.Chain>
  {
    if J.At(u, 0) == ',' then J.ParseItems(u[1..])
    else if J.At(u, 0) == ']' then J.Read(J.End, u[1..]) else J.Rejected
  }

  function AfterMember(u: string): J.Parsed<J.Chain>
  {
    if J.At(u, 0) == ',' then J.ParseMembers(u[1..])
    else if J.At(u, 0) == '}' then J.Read(J.End, u[1..]) else J.Rejected
  }

  function Onto(c: J.Chain, r: J.Parsed<J.Chain>): J.Parsed<J.Chain>
  {
    match r
    case Read(d, rest) => J.Read(Join(c, d), rest)
    case Rejected => J.Rejected
    case Unsafe => J.Unsafe
  }

  lemma ItemsStep(t: string)
    ensures J.ParseItems(t) ==
            match J.ParseValue(J.Skip(t))
            case Read(v, rest) => Onto(J.Link(None, v, J.End), AfterItem(J.Skip(rest)))
            case Rejected => J.Rejected
            case Unsafe => J.Unsafe
  {
    var r := J.ParseValue(J.Skip(t));
    if r.Read? {
      OntoLink(None, r.value, AfterItem(J.Skip(r.rest)));
    }
  }

  lemma OntoLink(name: Option<string>, v: J.Item, r: J.Parsed<J.Chain>)
    ensures Onto(J.Link(name, v, J.End), r) == J.Before(name, v, r)
  {
    if r.Read? {
      assert Join(J.End, r.value) == r.value;
    }
  }

  lemma OntoOne(c: J.Chain, name: Option<string>, v: J.Item, r: J.Parsed<J.Chain>)
    ensures Onto(c, Onto(J.Link(name, v, J.End), r)) == Onto(Join(c, J.Link(name, v, J.End)), r)
  {
    if r.Read? {
      JoinOne(c, name, v, r.value);
    }
  }

  // ---------------------------------------------------------------------------------
  // Filling items
  // ---------------------------------------------------------------------------------

  /** Sets the type, and for numbers the value, of a leaf. */
  method SetLeaf(mem: Memory, item: Ptr, tag: nat, number: real, ghost name: Ptr) returns (ghost d: Shape)
    requires mem.Valid() && Leaf(mem.blocks, item, name)
    modifies mem`blocks
    ensures mem.Valid() && d == LeafShape(item, name) && Filled(old(mem.blocks), mem.blocks, d)
    ensures View(mem.blocks, d) == Doc(tag, number, TextAt(old(mem.blocks), name), None, [])
  {
    d := LeafShape(item, name);
    FilledStart(mem.blocks, item, name);
    FilledTag(mem.blocks, mem.blocks, d, tag, number);
    mem.blocks := mem.blocks[item := mem.blocks[item].(tag := tag, number := number)];
  }

  /** Stores a string in a leaf. */
  method SetString(mem: Memory, item: Ptr, s: string, ghost name: Ptr) returns (ghost d: Shape)
    requires mem.Valid() && Leaf(mem.blocks, item, name)
    modifies mem
    ensures mem.Valid() && d.p == item && d.name == name && Filled(old(mem.blocks), mem.blocks, d)
    ensures View(mem.blocks, d) == Doc(4, 0.0, TextAt(old(mem.blocks), name), Some(s), [])
  {
    ghost var m := mem.blocks;
    FilledStart(m, item, name);
    var p := mem.Malloc(Text(s));
    FilledText(m, LeafShape(item, name), p, s, 4);
    mem.blocks := mem.blocks[item := mem.blocks[item].(valuestring := p, tag := 4)];
    d := LeafShape(item, name).(text := p);
  }

  /** Allocates the next child and links it behind the last one. */
  method AddBlank(mem: Memory, item: Ptr, last: Ptr, ghost m: Mem, ghost d: Shape) returns (child: Ptr, ghost e: Shape)
    requires mem.Valid() && Filled(m, mem.blocks, d) && item == d.p && last == At(d.kids, |d.kids| - 1)
    requires last != 0 ==> IsCell(mem.blocks, last)
    requires last == 0 ==> d.kids == []
    modifies mem
    ensures mem.Valid() && e == d.(kids := d.kids + [LeafShape(child, 0)]) && Filled(m, mem.blocks, e)
    ensures Leaf(mem.blocks, child, 0)
    ensures View(mem.blocks, e) == old(View(mem.blocks, d)).(kids := old(View(mem.blocks, d)).kids + [Doc(0, 0.0, None, None, [])])
  {
    ghost var n := mem.blocks;
    child := mem.Malloc(Cell(0, 0, 0, 0, false, 0, 0.0, 0));
    ghost var n1 := mem.blocks;
    if last == 0 {
      mem.blocks := SetChild(mem.blocks, item, child);
    } else {
      mem.blocks := SetNext(mem.blocks, last, child);
      mem.blocks := SetPrev(mem.blocks, child, last);
    }
    FilledAppend(m, n, mem.blocks, d, child);
    e := d.(kids := d.kids + [LeafShape(child, 0)]);
  }

  /** The last child of the item being filled is a leaf yet. */
  ghost predicate LastBlank(m: Mem, n: Mem, d: Shape, child: Ptr, name: Ptr)
  {
    Filled(m, n, d) && d.kids != [] && d.kids[|d.kids| - 1] == LeafShape(child, name) && Leaf(n, child, name)
  }

  /** The item with its last child replaced. */
  function WithLast(d: Shape, kid: Shape): (e: Shape)
    requires d.kids != []
    ensures e.p == d.p && e.name == d.name && |e.kids| == |d.kids| && e.kids[|d.kids| - 1] == kid
  {
    d.(kids := d.kids[|d.kids| - 1 := kid])
  }

  function DocWithLast(d: Doc, kid: Doc): Doc
    requires d.kids != []
  {
    d.(kids := d.kids[|d.kids| - 1 := kid])
  }

  /** parse_value on the last child. */
  method ReadItem(mem: Memory, child: Ptr, value: string, ghost name: Ptr, ghost m: Mem, ghost d: Shape)
    returns (end: Option<string>, ghost e: Shape)
    requires mem.Valid() && LastBlank(m, mem.blocks, d, child, name) && J.NulFree(value) && !J.ParseValue(value).Unsafe?
    modifies mem
    ensures mem.Valid() && Filled(m, mem.blocks, e) && |e.kids| == |d.kids|
    ensures e.p == d.p && e.name == d.name && e.kids[|e.kids| - 1].p == child
    ensures match J.ParseValue(value)
            case Read(v, rest) =>
              && end == Some(rest) && J.NulFree(rest)
              && View(mem.blocks, e) ==
                 DocWithLast(old(View(mem.blocks, d)), DocOf(TextAt(old(mem.blocks), name), v))
            case _ => end.None?
    decreases |value|, 4
  {
    ghost var n := mem.blocks;
    ghost var kid;
    KidIsNew(m, n, d, |d.kids| - 1);
    LeafTree(n, child, name);
    end, kid := ParseValue(mem, child, value, name);
    e := WithLast(d, kid);
    FilledKid(m, n, mem.blocks, d, |d.kids| - 1, kid);
  }

  /** parse_value: fills in the item, and yields the text behind what was read, or None. */
  method ParseValue(mem: Memory, item: Ptr, value: string, ghost name: Ptr) returns (end: Option<string>, ghost d: Shape)
    requires J.NulFree(value) && !J.ParseValue(value).Unsafe?
    requires mem.Valid() && Leaf(mem.blocks, item, name)
    modifies mem
    ensures mem.Valid() && d.p == item && d.name == name && Filled(old(mem.blocks), mem.blocks, d)
    ensures match J.ParseValue(value)
            case Read(v, rest) =>
              end == Some(rest) && J.NulFree(rest) && View(mem.blocks, d) == DocOf(TextAt(old(mem.blocks), name), v)
            case _ => end.None?
    decreases |value|, 3
  {
    if "null" <= value {
      d := SetLeaf(mem, item, 2, 0.0, name);
      end := Some(value[4..]);
    } else if "false" <= value {
      d := SetLeaf(mem, item, 0, 0.0, name);
      end := Some(value[5..]);
    } else if "true" <= value {
      d := SetLeaf(mem, item, 1, 0.0, name);
      end := Some(value[4..]);
    } else if J.At(value, 0) == '\"' {
      end, d := ParseString(mem, item, value, name);
    } else if J.At(value, 0) == '-' || J.IsDigit(J.At(value, 0)) {
      var number, rest := ParseNumber(value);
      d := SetLeaf(mem, item, 3, number, name);
      end := Some(rest);
    } else if J.At(value, 0) == '[' {
      end, d := ParseArray(mem, item, value, name);
    } else if J.At(value, 0) == '{' {
      end, d := ParseObject(mem, item, value, name);
    } else {
      FilledStart(mem.blocks, item, name);
      end, d := None, LeafShape(item, name);
    }
  }

  /** Both passes over a string literal; the string read is the C string in the buffer. */
  method ReadString(value: string) returns (end: Option<string>, s: string)
    requires J.NulFree(value) && !J.ParseString(value).Unsafe?
    ensures match J.ParseString(value)
            case Read(t, rest) => end == Some(rest) && J.NulFree(rest) && s == t
            case _ => end.None?
  {
    assert value[0..] == value;
    var out, p, ok := JsonStrings.ParseStringAt(value, 0);
    if ok {
      end, s := Some(value[p..]), JsonStrings.CString(out[..]);
    } else {
      end, s := None, "";
    }
  }

  method ParseString(mem: Memory, item: Ptr, value: string, ghost name: Ptr) returns (end: Option<string>, ghost d: Shape)
    requires J.NulFree(value) && !J.ParseString(value).Unsafe?
    requires mem.Valid() && Leaf(mem.blocks, item, name)
    modifies mem
    ensures mem.Valid() && d.p == item && d.name == name && Filled(old(mem.blocks), mem.blocks, d)
    ensures match J.ParseString(value)
            case Read(s, rest) =>
              && end == Some(rest) && J.NulFree(rest)
              && View(mem.blocks, d) == DocOf(TextAt(old(mem.blocks), name), J.String(s))
            case _ => end.None?
  {
    var s;
    end, s := ReadString(value);
    if end.None? {
      FilledStart(mem.blocks, item, name);
      d := LeafShape(item, name);
    } else {
      d := SetString(mem, item, s, name);
    }
  }

  /** What has been read of a list: the item with its children so far. */
  ghost predicate ReadSoFar(m: Mem, n: Mem, d: Shape, tag: nat, done: J.Chain)
  {
    Filled(m, n, d) && d.kids != [] && View(n, d) == Doc(tag, 0.0, TextAt(m, d.name), None, DocsOf(done))
  }

  method ParseArray(mem: Memory, item: Ptr, value: string, ghost name: Ptr) returns (end: Option<string>, ghost d: Shape)
    requires J.NulFree(value) && !J.ParseValue(value).Unsafe?
    requires mem.Valid() && Leaf(mem.blocks, item, name) && J.At(value, 0) == '['
    modifies mem
    ensures mem.Valid() && d.p == item && d.name == name && Filled(old(mem.blocks), mem.blocks, d)
    ensures match J.ParseValue(value)
            case Read(v, rest) =>
              end == Some(rest) && J.NulFree(rest) && View(mem.blocks, d) == DocOf(TextAt(old(mem.blocks), name), v)
            case _ => end.None?
    decreases |value|, 2
  {
    ghost var m := mem.blocks;
    d := SetLeaf(mem, item, 5, 0.0, name);
    var u := Skip(value[1..]);
    ArrayText(value);
    if J.At(u, 0) == ']' {
      return Some(u[1..]), d;
    }
    ghost var text, done := u, J.End;
    var last;
    end, last, d := NextItem(mem, item, 0, u, m, d, done);
    if end.None? {
      return;
    }
    ItemsStep(text);
    done := J.Link(None, J.ParseValue(J.Skip(u)).value, J.End);
    u := Skip(end.value);
    end, d := MoreItems(mem, item, last, u, m, d, done);
  }

  /** The entries of an array behind the first one. */
  method MoreItems(mem: Memory, item: Ptr, first: Ptr, text: string, ghost m: Mem, ghost c: Shape, ghost some: J.Chain)
    returns (end: Option<string>, ghost d: Shape)
    requires mem.Valid() && item == c.p && ReadSoFar(m, mem.blocks, c, 5, some)
    requires first == At(c.kids, |c.kids| - 1) && first != 0
    requires J.NulFree(text) && !AfterItem(text).Unsafe?
    modifies mem
    ensures mem.Valid() && d.p == item && d.name == c.name && Filled(m, mem.blocks, d)
    ensures match Onto(some, AfterItem(text))
            case Read(done, rest) =>
              end == Some(rest) && J.NulFree(rest) && View(mem.blocks, d) == Doc(5, 0.0, TextAt(m, d.name), None, DocsOf(done))
            case _ => end.None?
    decreases |text|, 6
  {
    var u, last := text, first;
    ghost var done := some;
    d := c;
    while J.At(u, 0) == ','
      invariant mem.Valid() && d.p == item && d.name == c.name && ReadSoFar(m, mem.blocks, d, 5, done)
      invariant last == At(d.kids, |d.kids| - 1) && last != 0 && |u| <= |text| && J.NulFree(u)
      invariant Onto(some, AfterItem(text)) == Onto(done, AfterItem(u)) && !AfterItem(u).Unsafe?
      decreases |u|
    {
      ItemsStep(u[1..]);
      ghost var v := J.ParseValue(J.Skip(u[1..]));
      end, last, d := NextItem(mem, item, last, u[1..], m, d, done);
      if end.None? {
        return;
      }
      OntoOne(done, None, v.value, AfterItem(J.Skip(v.rest)));
      done := Join(done, J.Link(None, v.value, J.End));
      u := Skip(end.value);
    }
    if J.At(u, 0) == ']' {
      JoinEnd(done);
      return Some(u[1..]), d;
    }
    end := None;
  }

  lemma ArrayText(value: string)
    requires J.At(value, 0) == '['
    ensures var u := J.Skip(value[1..]);
            J.ParseValue(value) ==
            if J.At(u, 0) == ']' then J.Read(J.Array(J.End), u[1..])
            else match J.ParseItems(u)
                 case Read(c, rest) => J.Read(J.Array(c), rest)
                 case Rejected => J.Rejected
                 case Unsafe => J.Unsafe
  {
  }

  /** One more array entry: a new item behind the last one, and its value. */
  method NextItem(mem: Memory, item: Ptr, last: Ptr, text: string, ghost m: Mem, ghost d: Shape, ghost done: J.Chain)
    returns (end: Option<string>, child: Ptr, ghost e: Shape)
    requires mem.Valid() && Filled(m, mem.blocks, d) && item == d.p && last == At(d.kids, |d.kids| - 1)
    requires (last == 0 <==> d.kids == []) && View(mem.blocks, d) == Doc(5, 0.0, TextAt(m, d.name), None, DocsOf(done))
    requires J.NulFree(text) && !J.ParseValue(J.Skip(text)).Unsafe?
    modifies mem
    ensures mem.Valid() && Filled(m, mem.blocks, e) && e.p == d.p && e.name == d.name
    ensures match J.ParseValue(J.Skip(text))
            case Read(v, rest) =>
              && end == Some(rest) && J.NulFree(rest) && child == At(e.kids, |e.kids| - 1) && child != 0
              && ReadSoFar(m, mem.blocks, e, 5, Join(done, J.Link(None, v, J.End)))
            case _ => end.None?
    decreases |text|, 5
  {
    LastCell(m, mem.blocks, d);
    child, e := AddBlank(mem, item, last, m, d);
    var start := Skip(text);
    ghost var before := View(mem.blocks, e);
    end, e := ReadItem(mem, child, start, 0, m, e);
    if end.Some? {
      ghost var v := J.ParseValue(start).value;
      JoinOne(done, None, v, J.End);
      LastDoc(before, DocsOf(done), Doc(0, 0.0, None, None, []), DocOf(None, v));
    }
  }

  lemma LastCell(m: Mem, n: Mem, d: Shape)
    requires Filled(m, n, d)
    ensures d.kids != [] ==> IsCell(n, d.kids[|d.kids| - 1].p)
  {
    assert Trees(n, d.kids);
    if d.kids != [] {
      assert Tree(n, d.kids[|d.kids| - 1]);
    }
  }

  lemma LastDoc(d: Doc, ds: seq<Doc>, blank: Doc, kid: Doc)
    requires d.kids == ds + [blank]
    ensures DocWithLast(d, kid).kids == ds + [kid]
  {
  }

  // ---------------------------------------------------------------------------------
  // Objects
  // ---------------------------------------------------------------------------------

  /** The colon and the value after the name of a member. */
  function ValueAfter(rest: string): J.Parsed<J.Item>
  {
    var colon := J.Skip(rest);
    if J.At(colon, 0) != ':' then J.Rejected else J.ParseValue(J.Skip(colon[1..]))
  }

  /** One member: its name, its value, and the text behind it. */
  function Member(t: string): J.Parsed<(string, J.Item)>
  {
    match J.ParseString(J.Skip(t))
    case Rejected => J.Rejected
    case Unsafe => J.Unsafe
    case Read(name, rest) =>
      match ValueAfter(rest)
      case Rejected => J.Rejected
      case Unsafe => J.Unsafe
      case Read(v, rest) => J.Read((name, v), rest)
  }

  lemma MemberStep(t: string)
    ensures J.ParseMembers(t) ==
            match Member(t)
            case Rejected => J.Rejected
            case Unsafe => J.Unsafe
            case Read((name, v), rest) => Onto(J.Link(Some(name), v, J.End), AfterMember(J.Skip(rest)))
    ensures Member(t).Read? ==> |Member(t).rest| < |t|
  {
    var r := Member(t);
    if r.Read? {
      OntoLink(Some(r.value.0), r.value.1, AfterMember(J.Skip(r.rest)));
    }
  }

  /** Stores a string in a leaf and moves it to the name. */
  method MoveToName(mem: Memory, child: Ptr, p: Ptr)
    requires mem.Valid() && IsCell(mem.blocks, child) && mem.blocks[child].valuestring == 0
    modifies mem`blocks
    ensures mem.Valid() && mem.blocks == old(mem.blocks)[child := old(mem.blocks)[child].(name := p, tag := 4)]
  {
    mem.blocks := mem.blocks[child := mem.blocks[child].(valuestring := p, tag := 4)];
    mem.blocks := mem.blocks[child := mem.blocks[child].(name := mem.blocks[child].valuestring)];
    mem.blocks := mem.blocks[child := mem.blocks[child].(valuestring := 0)];
  }

  /** Moves the string just read into the name of the last child. */
  method NameLast(mem: Memory, child: Ptr, s: string, ghost m: Mem, ghost d: Shape) returns (ghost e: Shape, ghost name: Ptr)
    requires mem.Valid() && LastBlank(m, mem.blocks, d, child, 0)
    modifies mem
    ensures mem.Valid() && e.p == d.p && e.name == d.name && |e.kids| == |d.kids|
    ensures LastBlank(m, mem.blocks, e, child, name) && TextAt(mem.blocks, name) == Some(s)
    ensures View(mem.blocks, e) == DocWithLast(old(View(mem.blocks, d)), Doc(4, 0.0, Some(s), None, []))
  {
    ghost var n := mem.blocks;
    KidIsNew(m, n, d, |d.kids| - 1);
    var p := mem.Malloc(Text(s));
    KidNamed(n, d, |d.kids| - 1, child, p, s, 4);
    MoveToName(mem, child, p);
    FilledKid(m, n, mem.blocks, d, |d.kids| - 1, LeafShape(child, p));
    e, name := WithLast(d, LeafShape(child, p)), p;
  }

  lemma LastTwice(d: Doc, kid: Doc, other: Doc)
    requires d.kids != []
    ensures DocWithLast(DocWithLast(d, kid), other) == DocWithLast(d, other)
  {
  }

  /** The colon and the value of the last child, which has its name. */
  method ReadValueAfter(mem: Memory, child: Ptr, rest: string, ghost name: Ptr, ghost m: Mem, ghost d: Shape)
    returns (end: Option<string>, ghost e: Shape)
    requires mem.Valid() && LastBlank(m, mem.blocks, d, child, name) && J.NulFree(rest) && !ValueAfter(rest).Unsafe?
    modifies mem
    ensures mem.Valid() && Filled(m, mem.blocks, e) && |e.kids| == |d.kids|
    ensures e.p == d.p && e.name == d.name && e.kids[|e.kids| - 1].p == child
    ensures match ValueAfter(rest)
            case Read(v, after) =>
              && end == Some(after) && J.NulFree(after)
              && View(mem.blocks, e) ==
                 DocWithLast(old(View(mem.blocks, d)), DocOf(TextAt(old(mem.blocks), name), v))
            case _ => end.None?
    decreases |rest|, 5
  {
    var colon := Skip(rest);
    if J.At(colon, 0) != ':' {
      return None, d;
    }
    var value := Skip(colon[1..]);
    end, e := ReadItem(mem, child, value, name, m, d);
  }

  /** The name, the colon and the value of the last child. */
  method ReadMember(mem: Memory, child: Ptr, text: string, ghost m: Mem, ghost d: Shape)
    returns (end: Option<string>, ghost e: Shape)
    requires mem.Valid() && LastBlank(m, mem.blocks, d, child, 0) && J.NulFree(text) && !Member(text).Unsafe?
    modifies mem
    ensures mem.Valid() && Filled(m, mem.blocks, e) && |e.kids| == |d.kids|
    ensures e.p == d.p && e.name == d.name && e.kids[|e.kids| - 1].p == child
    ensures match Member(text)
            case Read((name, v), rest) =>
              && end == Some(rest) && J.NulFree(rest)
              && View(mem.blocks, e) == DocWithLast(old(View(mem.blocks, d)), DocOf(Some(name), v))
            case _ => end.None?
    decreases |text|, 5
  {
    var start := Skip(text);
    var s;
    end, s := ReadString(start);
    if end.None? {
      return None, d;
    }
    end, e := ReadNamed(mem, child, s, end.value, m, d);
  }

  /** The value of a member whose name was read. */
  method ReadNamed(mem: Memory, child: Ptr, s: string, rest: string, ghost m: Mem, ghost d: Shape)
    returns (end: Option<string>, ghost e: Shape)
    requires mem.Valid() && LastBlank(m, mem.blocks, d, child, 0) && J.NulFree(rest) && !ValueAfter(rest).Unsafe?
    modifies mem
    ensures mem.Valid() && Filled(m, mem.blocks, e) && |e.kids| == |d.kids|
    ensures e.p == d.p && e.name == d.name && e.kids[|e.kids| - 1].p == child
    ensures match ValueAfter(rest)
            case Read(v, after) =>
              && end == Some(after) && J.NulFree(after)
              && View(mem.blocks, e) == DocWithLast(old(View(mem.blocks, d)), DocOf(Some(s), v))
            case _ => end.None?
    decreases |rest|, 6
  {
    ghost var name;
    e, name := NameLast(mem, child, s, m, d);
    end, e := ReadValueAfter(mem, child, rest, name, m, e);
    if end.Some? {
      LastTwice(old(View(mem.blocks, d)), Doc(4, 0.0, Some(s), None, []), DocOf(Some(s), ValueAfter(rest).value));
    }
  }

  /** One more member: a new item behind the last one, with its name and its value. */
  method NextMember(mem: Memory, item: Ptr, last: Ptr, text: string, ghost m: Mem, ghost d: Shape, ghost done: J.Chain)
    returns (end: Option<string>, child: Ptr, ghost e: Shape)
    requires mem.Valid() && Filled(m, mem.blocks, d) && item == d.p && last == At(d.kids, |d.kids| - 1)
    requires (last == 0 <==> d.kids == []) && View(mem.blocks, d) == Doc(6, 0.0, TextAt(m, d.name), None, DocsOf(done))
    requires J.NulFree(text) && !Member(text).Unsafe?
    modifies mem
    ensures mem.Valid() && Filled(m, mem.blocks, e) && e.p == d.p && e.name == d.name
    ensures match Member(text)
            case Read((name, v), rest) =>
              && end == Some(rest) && J.NulFree(rest) && child == At(e.kids, |e.kids| - 1) && child != 0
              && ReadSoFar(m, mem.blocks, e, 6, Join(done, J.Link(Some(name), v, J.End)))
            case _ => end.None?
    decreases |text|, 6
  {
    LastCell(m, mem.blocks, d);
    child, e := AddBlank(mem, item, last, m, d);
    ghost var before := View(mem.blocks, e);
    end, e := ReadMember(mem, child, text, m, e);
    if end.Some? {
      ghost var (name, v) := Member(text).value;
      JoinOne(done, Some(name), v, J.End);
      LastDoc(before, DocsOf(done), Doc(0, 0.0, None, None, []), DocOf(Some(name), v));
    }
  }

  lemma ObjectText(value: string)
    requires J.At(value, 0) == '{'
    ensures var u := J.Skip(value[1..]);
            J.ParseValue(value) ==
            if J.At(u, 0) == '}' then J.Read(J.Object(J.End), u[1..])
            else match J.ParseMembers(u)
                 case Read(c, rest) => J.Read(J.Object(c), rest)
                 case Rejected => J.Rejected
                 case Unsafe => J.Unsafe
  {
  }

  method ParseObject(mem: Memory, item: Ptr, value: string, ghost name: Ptr) returns (end: Option<string>, ghost d: Shape)
    requires J.NulFree(value) && !J.ParseValue(value).Unsafe?
    requires mem.Valid() && Leaf(mem.blocks, item, name) && J.At(value, 0) == '{'
    modifies mem
    ensures mem.Valid() && d.p == item && d.name == name && Filled(old(mem.blocks), mem.blocks, d)
    ensures match J.ParseValue(value)
            case Read(v, rest) =>
              end == Some(rest) && J.NulFree(rest) && View(mem.blocks, d) == DocOf(TextAt(old(mem.blocks), name), v)
            case _ => end.None?
    decreases |value|, 2
  {
    ghost var m := mem.blocks;
    d := SetLeaf(mem, item, 6, 0.0, name);
    var u := Skip(value[1..]);
    ObjectText(value);
    if J.At(u, 0) == '}' {
      return Some(u[1..]), d;
    }
    ghost var text, done := u, J.End;
    var last;
    MemberStep(text);
    end, last, d := NextMember(mem, item, 0, u, m, d, done);
    if end.None? {
      return;
    }
    ghost var r := Member(u);
    done := J.Link(Some(r.value.0), r.value.1, J.End);
    u := Skip(end.value);
    end, d := MoreMembers(mem, item, last, u, m, d, done);
  }

  /** The members of an object behind the first one. */
  method MoreMembers(mem: Memory, item: Ptr, first: Ptr, text: string, ghost m: Mem, ghost c: Shape, ghost some: J.Chain)
    returns (end: Option<string>, ghost d: Shape)
    requires mem.Valid() && item == c.p && ReadSoFar(m, mem.blocks, c, 6, some)
    requires first == At(c.kids, |c.kids| - 1) && first != 0
    requires J.NulFree(text) && !AfterMember(text).Unsafe?
    modifies mem
    ensures mem.Valid() && d.p == item && d.name == c.name && Filled(m, mem.blocks, d)
    ensures match Onto(some, AfterMember(text))
            case Read(done, rest) =>
              end == Some(rest) && J.NulFree(rest) && View(mem.blocks, d) == Doc(6, 0.0, TextAt(m, d.name), None, DocsOf(done))
            case _ => end.None?
    decreases |text|, 7
  {
    var u, last := text, first;
    ghost var done := some;
    d := c;
    while J.At(u, 0) == ','
      invariant mem.Valid() && d.p == item && d.name == c.name && ReadSoFar(m, mem.blocks, d, 6, done)
      invariant last == At(d.kids, |d.kids| - 1) && last != 0 && |u| <= |text| && J.NulFree(u)
      invariant Onto(some, AfterMember(text)) == Onto(done, AfterMember(u)) && !AfterMember(u).Unsafe?
      decreases |u|
    {
      MemberStep(u[1..]);
      ghost var r := Member(u[1..]);
      end, last, d := NextMember(mem, item, last, u[1..], m, d, done);
      if end.None? {
        return;
      }
      OntoOne(done, Some(r.value.0), r.value.1, AfterMember(J.Skip(r.rest)));
      done := Join(done, J.Link(Some(r.value.0), r.value.1, J.End));
      u := Skip(end.value);
    }
    if J.At(u, 0) == '}' {
      JoinEnd(done);
      return Some(u[1..]), d;
    }
    end := None;
  }

  // ---------------------------------------------------------------------------------
  // Whole texts
  // ---------------------------------------------------------------------------------

  /** A rejected item is released with all that was read into it. */
  method Reject(mem: Memory, c: Ptr, ghost m: Mem, ghost m0: Mem, ghost d: Shape)
    requires mem.Valid() && c == d.p && Filled(m, mem.blocks, d) && d.name == 0 && Alone(m, c)
    requires c !in m0 && m.Keys == m0.Keys + {c} && Grown(m0, m)
    modifies mem`blocks
    ensures mem.Valid() && mem.blocks == m0
  {
    ghost var n := mem.blocks;
    TreeAt(n, d);
    mem.DeleteOne(c, d);
    assert mem.blocks.Keys == m0.Keys;
    forall q | q in m0 ensures mem.blocks[q] == m0[q] {
      assert Keeps(m0, m, q) && Keeps(m, n, q);
    }
  }

  /** cJSON_ParseWithOpts: a new tree that stands for what the text says, or null, with all memory given back. */
  method ParseWithOpts(mem: Memory, value: string, terminated: bool) returns (c: Ptr, end: string, ghost d: Shape)
    requires mem.Valid() && J.NulFree(value) && !J.ParseWithOpts(value, terminated).Unsafe?
    modifies mem
    ensures mem.Valid()
    ensures match J.ParseWithOpts(value, terminated)
            case Read(v, rest) =>
              && c != 0 && c == d.p && end == rest
              && NewTree(old(mem.blocks), mem.blocks, d) && JsonPrinter.Means(mem.blocks, d, None, v)
            case _ => c == 0 && mem.blocks == old(mem.blocks)
  {
    ghost var m0 := mem.blocks;
    c := mem.Malloc(Cell(0, 0, 0, 0, false, 0, 0.0, 0));
    ghost var m := mem.blocks;
    var start := Skip(value);
    var stop;
    stop, d := ParseValue(mem, c, start, 0);
    if stop.None? {
      Reject(mem, c, m, m0, d);
      return 0, "", d;
    }
    end := stop.value;
    if terminated {
      end := Skip(end);
      if end != "" {
        Reject(mem, c, m, m0, d);
        return 0, "", d;
      }
    }
    NewlyFilled(m0, m, mem.blocks, d);
    OwnedReadable(mem.blocks, d);
  }

  lemma NewlyFilled(m0: Mem, m: Mem, n: Mem, d: Shape)
    requires Filled(m, n, d) && d.name == 0 && Alone(m, d.p) && d.p !in m0 && m == m0[d.p := m[d.p]]
    ensures NewTree(m0, n, d)
  {
    TreeAt(n, d);
    forall q | q in m0 ensures Keeps(m0, n, q) {
      assert Keeps(m, n, q);
    }
    NoNullIn(n, d);
    forall q | q in Footprint(d) ensures q !in m0 {
      assert q != d.p ==> q in Footprint(d) - {d.p, d.name};
    }
    assert Alone(n, d.p);
  }

  /** Printing an item in either format and parsing the text builds a separate tree with the same contents. */
  method PrintAndParse(mem: Memory, item: Ptr, fmt: bool, ghost t: Shape, ghost v: J.Item) returns (c: Ptr, ghost d: Shape)
    requires mem.Valid() && item == t.p && JsonPrinter.Means(mem.blocks, t, None, v) && J.Plain(v)
    modifies mem
    ensures mem.Valid() && c == d.p && c != 0
    ensures NewTree(old(mem.blocks), mem.blocks, d) && JsonPrinter.Means(mem.blocks, d, None, v)
  {
    var text := JsonPrinter.PrintText(mem, item, 0, fmt, t, None, v);
    JsonRoundTrip.RoundTrip(v);
    JsonSafety.PrintNulFree(v, 0, fmt);
    var end;
    c, end, d := ParseWithOpts(mem, text, true);
  }

  /** Printing an item in either format, parsing the text and printing what was built, in either format: the second
      text is what the first item would have been printed as, and that item is as it was. */
  method PrintParsePrint(mem: Memory, item: Ptr, fmt: bool, fmt2: bool, ghost t: Shape, ghost v: J.Item)
    returns (text: string, c: Ptr, ghost d: Shape)
    requires mem.Valid() && item == t.p && JsonPrinter.Means(mem.blocks, t, None, v) && J.Plain(v)
    modifies mem
    ensures mem.Valid() && c == d.p && NewTree(old(mem.blocks), mem.blocks, d)
    ensures JsonPrinter.Means(mem.blocks, t, None, v) && JsonPrinter.Means(mem.blocks, d, None, v)
    ensures text == J.PrintValue(v, 0, fmt2)
  {
    ghost var m := mem.blocks;
    c, d := PrintAndParse(mem, item, fmt, t, v);
    ReadableGrown(m, mem.blocks, t);
    text := JsonPrinter.PrintText(mem, c, 0, fmt2, d, None, v);
  }
}
