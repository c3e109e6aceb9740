/** Path queries: counting the matches, collecting them, and what they are. A pointer to a node is represented by
    the position of the node: the child indices that lead to it from the root. */
module XmlPath {
  import opened XmlTree
  import opened XmlParse
  import XmlReader
  import XmlSoup
  import XmlText
  import opened Wrappers
  import opened Sequences

  type Position = seq<nat>

  /** A prefix, or its absence, and a name. */
  datatype Step = Step(prefix: Option<string>, name: string)

  function StepOf(segment: string): Step
  {
    var i := Find(segment, ":");
    if i < 0 then Step(None, segment) else Step(Some(segment[..i]), segment[i + 1..])
  }

  /** The first step of a path, and the path from the next slash on if there is one. */
  datatype First =
    | NoStep
    | Last(step: Step)
    | More(step: Step, rear: string)

  function FirstOf(path: string): (r: First)
    ensures r.More? ==> |r.rear| < |path|
  {
    var i := Find(path, "/");
    if i < 0 then NoStep else FirstIn(path[i + 1..])
  }

  /** The step at the start of a text, up to the next slash. */
  function FirstIn(front: string): (r: First)
    ensures r != NoStep && (r.More? ==> |r.rear| <= |front|)
  {
    var j := Find(front, "/");
    if j < 0 then Last(StepOf(front)) else More(StepOf(front[..j]), front[j..])
  }

  function Steps(path: string): seq<Step>
    decreases |path|
  {
    match FirstOf(path)
    case NoStep => []
    case Last(step) => [step]
    case More(step, rear) => [step] + Steps(rear)
  }

  predicate Fits(t: Node, step: Step)
  {
    t.Element? && t.prefix == step.prefix && t.name == step.name
  }

  // ---------------------------------------------------------------------------------
  // Paths as they are written
  // ---------------------------------------------------------------------------------

  function StepText(s: Step): string
  {
    match s.prefix
    case Some(p) => p + (":" + s.name)
    case None => s.name
  }

  function PathText(steps: seq<Step>): string
  {
    if steps == [] then "" else "/" + (StepText(steps[0]) + PathText(steps[1..]))
  }

  predicate GoodStep(s: Step)
  {
    && '/' !in s.name && (s.prefix.None? ==> ':' !in s.name)
    && (s.prefix.Some? ==> '/' !in s.prefix.value && ':' !in s.prefix.value)
  }

  lemma StepRead(s: Step)
    requires GoodStep(s)
    ensures StepOf(StepText(s)) == s && '/' !in StepText(s)
  {
    match s.prefix
    case Some(p) =>
      XmlText.FindSkip(p, ":" + s.name, ":");
      assert ":" <= ":" + s.name;
      var t := StepText(s);
      assert t[..|p|] == p && t[|p| + 1..] == s.name;
    case None => XmlText.FindNot(s.name, ":");
  }

  /** The first step and the path behind it. */
  lemma FirstRead(step: string, rear: string)
    requires '/' !in step && (rear != "" ==> rear[0] == '/')
    ensures FirstIn(step + rear) == if rear == "" then Last(StepOf(step)) else More(StepOf(step), rear)
  {
    XmlText.FindSkip(step, rear, "/");
    assert (step + rear)[..|step|] == step && (step + rear)[|step|..] == rear;
    if rear == "" {
      assert step + rear == step;
    } else {
      assert rear[..1] == "/";
      PrefixIs(rear, "/");
    }
  }

  /** A path consists of the steps it was written for; what stands before its first slash does not count. */
  lemma {:induction false} PathWritten(front: string, steps: seq<Step>)
    requires '/' !in front && forall i :: 0 <= i < |steps| ==> GoodStep(steps[i])
    ensures Steps(front + PathText(steps)) == steps
    decreases |steps|
  {
    if steps == [] {
      NoSlash(front);
    } else {
      FirstWritten(front, steps[0], PathText(steps[1..]));
      assert [steps[0]] + steps[1..] == steps;
      if steps[1..] != [] {
        PathWritten("", steps[1..]);
        assert "" + PathText(steps[1..]) == PathText(steps[1..]);
      }
    }
  }

  lemma NoSlash(front: string)
    requires '/' !in front
    ensures Steps(front + "") == []
  {
    XmlText.FindNot(front, "/");
    assert front + "" == front;
  }

  lemma FirstWritten(front: string, s: Step, rear: string)
    requires '/' !in front && GoodStep(s) && (rear != "" ==> rear[0] == '/')
    ensures Steps(front + ("/" + (StepText(s) + rear))) == if rear == "" then [s] else [s] + Steps(rear)
  {
    StepRead(s);
    FirstRead(StepText(s), rear);
    FrontSkipped(front, StepText(s) + rear);
    StepsFirst(front + ("/" + (StepText(s) + rear)));
  }

  lemma StepsFirst(path: string)
    ensures Steps(path) == match FirstOf(path)
                           case NoStep => []
                           case Last(step) => [step]
                           case More(step, rear) => [step] + Steps(rear)
  {
  }

  lemma FrontSkipped(front: string, u: string)
    requires '/' !in front
    ensures FirstOf(front + ("/" + u)) == FirstIn(u)
  {
    XmlText.FindSkip(front, "/" + u, "/");
    assert "/" <= "/" + u;
    assert (front + ("/" + u))[|front| + 1..] == u;
  }

  // ---------------------------------------------------------------------------------
  // What a query means
  // ---------------------------------------------------------------------------------

  /** There is an element at position p below t. */
  predicate IsElement(t: Node, p: Position)
  {
    t.Element? && (p == [] || (p[0] < |t.kids| && IsElement(t.kids[p[0]], p[1..])))
  }

  /** The prefixes and names from t down to the element at position p. */
  function Chain(t: Node, p: Position): seq<Step>
    requires IsElement(t, p)
  {
    [Step(t.prefix, t.name)] + if p == [] then [] else Chain(t.kids[p[0]], p[1..])
  }

  predicate Matches(t: Node, path: string, p: Position)
  {
    IsElement(t, p) && Chain(t, p) == Steps(path)
  }

  /** Document order. */
  predicate Before(p: Position, q: Position)
  {
    q != [] && (p == [] || p[0] < q[0] || (p[0] == q[0] && Before(p[1..], q[1..])))
  }

  predicate InOrder(ps: seq<Position>)
  {
    forall i, j :: 0 <= i < j < |ps| ==> Before(ps[i], ps[j])
  }

  // ---------------------------------------------------------------------------------
  // What the source does
  // ---------------------------------------------------------------------------------

  /** The matches in tree t, which is at position pos. */
  function Found(t: Node, path: string, pos: Position): seq<Position>
    decreases t
  {
    match FirstOf(path)
    case NoStep => []
    case Last(step) => if Fits(t, step) then [pos] else []
    case More(step, rear) => if Fits(t, step) then FoundKids(t.kids, rear, pos, 0) else []
  }

  /** The matches in the children from number i on. */
  function FoundKids(ks: seq<Node>, path: string, pos: Position, i: nat): seq<Position>
    requires i <= |ks|
    decreases ks, |ks| - i
  {
    if i == |ks| then [] else Found(ks[i], path, pos + [i]) + FoundKids(ks, path, pos, i + 1)
  }

  lemma FirstFit(t: Node, path: string, p: Position)
    ensures match FirstOf(path)
            case NoStep => !Matches(t, path, p)
            case Last(step) => Matches(t, path, p) <==> p == [] && Fits(t, step)
            case More(step, rear) =>
              Matches(t, path, p) <==>
                Fits(t, step) && ((p == [] && Steps(rear) == []) || (p != [] && p[0] < |t.kids| && Matches(t.kids[p[0]], rear, p[1..])))
  {
    if IsElement(t, p) {
      var head, tail := Step(t.prefix, t.name), if p == [] then [] else Chain(t.kids[p[0]], p[1..]);
      assert Chain(t, p)[0] == head && Chain(t, p)[1..] == tail;
      match FirstOf(path)
      case More(step, rear) =>
        assert ([step] + Steps(rear))[0] == step && ([step] + Steps(rear))[1..] == Steps(rear);
      case _ =>
    }
  }

  /** A path goes on after a slash. */
  lemma RearHasSteps(path: string)
    requires FirstOf(path).More?
    ensures Steps(FirstOf(path).rear) != []
  {
    var front := path[Find(path, "/") + 1..];
    var rear := front[Find(front, "/")..];
    XmlSoup.NotBefore(front, "/");
    assert "/" <= rear by {
      assert rear[..1] == "/";
    }
  }

  lemma Deeper(pos: Position, p: Position)
    requires p != []
    ensures (pos + [p[0]]) + p[1..] == pos + p
  {
    assert p == [p[0]] + p[1..];
  }

  /** The matches are exactly the elements whose chain of prefixes and names is the path, in document order. */
  lemma {:induction false} FoundExact(t: Node, path: string, pos: Position, p: Position)
    ensures pos + p in Found(t, path, pos) <==> Matches(t, path, p)
    decreases t, 1
  {
    FirstFit(t, path, p);
    match FirstOf(path)
    case NoStep =>
    case Last(step) =>
      assert pos + p == pos <==> p == [] by {
        assert |pos + p| == |pos| + |p|;
      }
    case More(step, rear) =>
      RearHasSteps(path);
      if Fits(t, step) {
        FoundKidsExact(t.kids, rear, pos, 0, p);
      }
  }

  lemma {:induction false} FoundKidsExact(ks: seq<Node>, path: string, pos: Position, i: nat, p: Position)
    requires i <= |ks|
    ensures pos + p in FoundKids(ks, path, pos, i) <==> p != [] && i <= p[0] < |ks| && Matches(ks[p[0]], path, p[1..])
    decreases ks, 0, |ks| - i
  {
    if i < |ks| {
      FoundKidsExact(ks, path, pos, i + 1, p);
      if p != [] && p[0] == i {
        Deeper(pos, p);
        FoundExact(ks[i], path, pos + [i], p[1..]);
      } else {
        NotHere(ks[i], path, pos, i, p);
      }
    }
  }

  lemma NotHere(t: Node, path: string, pos: Position, i: nat, p: Position)
    requires p == [] || p[0] != i
    ensures pos + p !in Found(t, path, pos + [i])
    decreases t, 2
  {
    FoundAt(t, path, pos + [i], pos + p);
    NextIndex(pos, i, p);
  }

  lemma NextIndex(pos: Position, i: nat, p: Position)
    ensures pos + [i] <= pos + p ==> p != [] && p[0] == i
  {
    if pos + [i] <= pos + p {
      assert (pos + [i])[|pos|] == (pos + p)[|pos|];
    }
  }

  /** All matches in a tree are below its position. */
  lemma {:induction false} FoundAt(t: Node, path: string, pos: Position, q: Position)
    ensures q in Found(t, path, pos) ==> pos <= q
    decreases t, 1
  {
    match FirstOf(path)
    case More(step, rear) =>
      if Fits(t, step) {
        FoundKidsAt(t.kids, rear, pos, 0, q);
      }
    case _ =>
  }

  lemma {:induction false} FoundKidsAt(ks: seq<Node>, path: string, pos: Position, i: nat, q: Position)
    requires i <= |ks|
    ensures q in FoundKids(ks, path, pos, i) ==> |pos| < |q| && pos <= q && i <= q[|pos|]
    decreases ks, 0, |ks| - i
  {
    if i < |ks| {
      FoundKidsAt(ks, path, pos, i + 1, q);
      FoundAt(ks[i], path, pos + [i], q);
      if pos + [i] <= q {
        assert q[|pos|] == (pos + [i])[|pos|] == i;
        assert pos <= pos + [i];
      }
    }
  }

  lemma {:induction false} BeforeAt(p: Position, q: Position, n: nat)
    requires n < |p| && n < |q| && p[..n] == q[..n] && p[n] < q[n]
    ensures Before(p, q)
    decreases n
  {
    if n > 0 {
      assert p[0] == p[..n][0] == q[..n][0] == q[0];
      assert p[1..][..n - 1] == p[..n][1..] && q[1..][..n - 1] == q[..n][1..];
      BeforeAt(p[1..], q[1..], n - 1);
    }
  }

  lemma {:induction false} FoundInOrder(t: Node, path: string, pos: Position)
    ensures InOrder(Found(t, path, pos))
    decreases t, 1
  {
    match FirstOf(path)
    case More(step, rear) =>
      if Fits(t, step) {
        FoundKidsInOrder(t.kids, rear, pos, 0);
      }
    case _ =>
  }

  lemma {:induction false} FoundKidsInOrder(ks: seq<Node>, path: string, pos: Position, i: nat)
    requires i <= |ks|
    ensures InOrder(FoundKids(ks, path, pos, i))
    decreases ks, 0, |ks| - i
  {
    if i < |ks| {
      var first, rest := Found(ks[i], path, pos + [i]), FoundKids(ks, path, pos, i + 1);
      FoundInOrder(ks[i], path, pos + [i]);
      FoundKidsInOrder(ks, path, pos, i + 1);
      forall a, b | 0 <= a < |first| && 0 <= b < |rest| ensures Before(first[a], rest[b]) {
        var p, q := first[a], rest[b];
        FoundAt(ks[i], path, pos + [i], p);
        FoundKidsAt(ks, path, pos, i + 1, q);
        assert p[|pos|] == (pos + [i])[|pos|] == i;
        assert p[..|pos|] == (pos + [i])[..|pos|] == pos == q[..|pos|];
        BeforeAt(p, q, |pos|);
      }
      OrderJoin(first, rest);
    }
  }

  lemma OrderJoin(ps: seq<Position>, qs: seq<Position>)
    requires InOrder(ps) && InOrder(qs)
    requires forall a, b :: 0 <= a < |ps| && 0 <= b < |qs| ==> Before(ps[a], qs[b])
    ensures InOrder(ps + qs)
  {
  }

  /** A query yields, in document order and each once, exactly the elements whose chain of prefixes and names from
      the root is the path. */
  lemma QueryExact(root: Node, path: string)
    ensures forall p :: p in Found(root, path, []) <==> Matches(root, path, p)
    ensures InOrder(Found(root, path, []))
  {
    forall p: Position ensures p in Found(root, path, []) <==> Matches(root, path, p) {
      FoundExact(root, path, [], p);
      assert [] + p == p;
    }
    FoundInOrder(root, path, []);
  }

  // ---------------------------------------------------------------------------------
  // Both passes
  // ---------------------------------------------------------------------------------

  /** A colon counts for the first step only if it comes before the next slash. */
  lemma ColonInStep(front: string, j: int)
    requires 0 <= j <= |front|
    ensures var c := Find(front, ":");
            Find(front[..j], ":") == if 0 <= c < j then c else -1
  {
    var c := Find(front, ":");
    if 0 <= c < j {
      XmlSoup.FindInPrefix(front, ":", j);
    } else if Find(front[..j], ":") >= 0 {
      XmlSoup.NotBefore(front[..j], ":");
      var k := Find(front[..j], ":");
      assert front[k] == ':' && front[k..k + 1] == ":";
      FindFirst(front, ":", k);
    }
  }

  /** The step that ends at a position, given where the first colon is. */
  function StepWithin(front: string, end: nat, prefixChar: int): Step
    requires end <= |front|
  {
    if 0 <= prefixChar < end then Step(Some(front[..prefixChar]), front[prefixChar + 1..end])
    else Step(None, front[..end])
  }

  lemma StepBefore(front: string, end: nat)
    requires end <= |front|
    ensures StepWithin(front, end, Find(front, ":")) == StepOf(front[..end])
  {
    ColonInStep(front, end);
    var c := Find(front, ":");
    if 0 <= c < end {
      CutTwice(front, c, end);
    }
    StepAt(front[..end], Find(front[..end], ":"));
  }

  lemma CutTwice(s: string, c: nat, end: nat)
    requires c < end <= |s|
    ensures s[..end][..c] == s[..c] && s[..end][c + 1..] == s[c + 1..end]
  {
  }

  lemma StepAt(s: string, c: int)
    requires c == Find(s, ":") && c < |s|
    ensures StepOf(s) == if c < 0 then Step(None, s) else Step(Some(s[..c]), s[c + 1..])
  {
  }

  /** Takes the first step off a path. */
  method FirstStep(path: string) returns (r: First)
    requires '\0' !in path
    ensures r == FirstOf(path)
  {
    var i := XmlReader.StrChr(path, '/');
    if i < 0 {
      return NoStep;
    }
    var front := path[i + 1..];
    r := StepIn(front);
  }

  method StepIn(front: string) returns (r: First)
    requires '\0' !in front
    ensures r == FirstIn(front)
  {
    var prefixChar := XmlReader.StrChr(front, ':');
    var rear := XmlReader.StrChr(front, '/');
    if rear >= 0 {
      StepBefore(front, rear);
      r := More(StepWithin(front, rear, prefixChar), front[rear..]);
    } else {
      StepBefore(front, |front|);
      assert front[..|front|] == front;
      r := Last(StepWithin(front, |front|, prefixChar));
    }
  }

  lemma RearClean(path: string)
    requires '\0' !in path
    ensures FirstOf(path).More? ==> '\0' !in FirstOf(path).rear
  {
  }

  method PathCount(root: Node, path: string, count: nat, ghost pos: Position) returns (n: nat)
    requires '\0' !in path
    ensures n == count + |Found(root, path, pos)|
    decreases root
  {
    n := count;
    var first := FirstStep(path);
    RearClean(path);
    match first
    case NoStep =>
    case Last(step) =>
      if Fits(root, step) {
        n := n + 1;
      }
    case More(step, rear) =>
      if Fits(root, step) {
        var i := 0;
        while i < |root.kids|
          invariant i <= |root.kids|
          invariant n + |FoundKids(root.kids, rear, pos, i)| == count + |FoundKids(root.kids, rear, pos, 0)|
        {
          n := PathCount(root.kids[i], rear, n, pos + [i]);
          i := i + 1;
        }
      }
  }

  /** struct xml_node_set */
  class NodeSet {
    var count: nat
    const node: array<Position>

    constructor (size: nat)
      ensures count == 0 && node.Length == size && fresh(node)
    {
      count := 0;
      node := new Position[size];
    }

    method Add(pos: Position)
      requires count < node.Length
      modifies this, node
      ensures count == old(count) + 1 && node[..count] == old(node[..count]) + [pos]
    {
      node[count] := pos;
      count := count + 1;
    }
  }

  method FindInto(root: Node, path: string, nodes: NodeSet, pos: Position)
    requires '\0' !in path && nodes.count + |Found(root, path, pos)| <= nodes.node.Length
    modifies nodes, nodes.node
    ensures nodes.count == old(nodes.count) + |Found(root, path, pos)| <= nodes.node.Length
    ensures nodes.node[..nodes.count] == old(nodes.node[..nodes.count]) + Found(root, path, pos)
    decreases root, 1
  {
    var first := FirstStep(path);
    RearClean(path);
    match first
    case NoStep =>
      assert nodes.node[..nodes.count] + [] == nodes.node[..nodes.count];
    case Last(step) =>
      if Fits(root, step) {
        nodes.Add(pos);
      } else {
        assert nodes.node[..nodes.count] + [] == nodes.node[..nodes.count];
      }
    case More(step, rear) =>
      if Fits(root, step) {
        FindInKids(root, rear, nodes, pos);
      } else {
        assert nodes.node[..nodes.count] + [] == nodes.node[..nodes.count];
      }
  }

  method FindInKids(root: Node, path: string, nodes: NodeSet, pos: Position)
    requires root.Element? && '\0' !in path && nodes.count + |FoundKids(root.kids, path, pos, 0)| <= nodes.node.Length
    modifies nodes, nodes.node
    ensures nodes.count == old(nodes.count) + |FoundKids(root.kids, path, pos, 0)| <= nodes.node.Length
    ensures nodes.node[..nodes.count] == old(nodes.node[..nodes.count]) + FoundKids(root.kids, path, pos, 0)
    decreases root, 0
  {
    ghost var total := nodes.node[..nodes.count] + FoundKids(root.kids, path, pos, 0);
    var i := 0;
    while i < |root.kids|
      invariant i <= |root.kids| && nodes.count + |FoundKids(root.kids, path, pos, i)| == |total| <= nodes.node.Length
      invariant nodes.node[..nodes.count] + FoundKids(root.kids, path, pos, i) == total
    {
      Assoc(nodes.node[..nodes.count], Found(root.kids[i], path, pos + [i]), FoundKids(root.kids, path, pos, i + 1));
      FindInto(root.kids[i], path, nodes, pos + [i]);
      i := i + 1;
    }
  }

  /** Counts, allocates and collects: the set is filled exactly. */
  method FindPath(root: Node, path: string) returns (nodes: NodeSet)
    requires '\0' !in path
    ensures fresh(nodes) && fresh(nodes.node)
    ensures nodes.count == nodes.node.Length && nodes.node[..] == Found(root, path, [])
  {
    var count := PathCount(root, path, 0, []);
    nodes := new NodeSet(count);
    FindInto(root, path, nodes, []);
    assert nodes.node[..nodes.count] == nodes.node[..];
  }
}
