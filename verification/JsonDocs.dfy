/** JSON values as the contents of items in memory. */
module JsonDocs {
  import J = Json
  import opened JsonHeap
  import opened Wrappers
  import opened Shapes

  /** The item types of cJSON.h. */
  function Tag(v: J.Item): nat
  {
    match v
    case False => 0
    case True => 1
    case Null => 2
    case Number(_) => 3
    case String(_) => 4
    case Array(_) => 5
    case Object(_) => 6
  }

  /** What an item that stands for v holds. */
  function DocOf(name: Option<string>, v: J.Item): Doc
    decreases v
  {
    Doc(Tag(v), if v.Number? then v.valuedouble else 0.0, name, if v.String? then Some(v.valuestring) else None,
        if v.Array? || v.Object? then DocsOf(v.child) else [])
  }

  function DocsOf(c: J.Chain): (ds: seq<Doc>)
    ensures |ds| == Size(c)
    decreases c
  {
    if c.End? then [] else [DocOf(c.name, c.item)] + DocsOf(c.next)
  }

  function Size(c: J.Chain): nat
  {
    if c.End? then 0 else 1 + Size(c.next)
  }

  /** The items from number i on. */
  function Drop(c: J.Chain, i: nat): (r: J.Chain)
    requires i <= Size(c)
    ensures Size(r) == Size(c) - i
  {
    if i == 0 then c else Drop(c.next, i - 1)
  }

  lemma {:induction false} DropAt(c: J.Chain, i: nat)
    requires i < Size(c)
    ensures Drop(c, i).Link? && Drop(c, i + 1) == Drop(c, i).next
    ensures DocsOf(c)[i] == DocOf(Drop(c, i).name, Drop(c, i).item)
    decreases i
  {
    if i > 0 {
      DropAt(c.next, i - 1);
    }
  }

  lemma {:induction false} PlainAt(c: J.Chain, i: nat)
    requires i < Size(c)
    ensures Drop(c, i).Link?
    ensures J.PlainItems(c) ==> J.PlainItems(Drop(c, i)) && J.Plain(Drop(c, i).item)
    ensures J.PlainMembers(c) ==>
              J.PlainMembers(Drop(c, i)) && J.Plain(Drop(c, i).item) && Drop(c, i).name.Some? && J.NulFree(Drop(c, i).name.value)
    decreases i
  {
    if i > 0 {
      PlainAt(c.next, i - 1);
    }
  }
}
