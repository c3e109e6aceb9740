/** cJSON's operations that find or place the members of an object by name. */
module JsonNames {
  import opened JsonHeap
  import opened JsonTree
  import opened JsonItems
  import opened JsonReaders
  import opened Wrappers
  import opened Shapes

  function ToLower(c: char): char
  {
    if 'A' <= c <= 'Z' then (c as int + 32) as char else c
  }

  const CAPITALS: string := "ABCDEFGHIJKLMNOPQRSTUVWXYZ"
  const SMALLS: string := "abcdefghijklmnopqrstuvwxyz"

  /** Letter k as a capital and as a small letter. */
  predicate IsPair(c: char, d: char, k: nat)
    requires k < 26
  {
    c == CAPITALS[k] && d == SMALLS[k]
  }

  /** The same character, or the same letter in either case. */
  predicate SameLetter(c: char, d: char)
  {
    c == d || exists k :: 0 <= k < 26 && (IsPair(c, d, k) || IsPair(d, c, k))
  }

  /** Equal in any case of letters. */
  predicate SameName(s: string, t: string)
  {
    |s| == |t| && forall i :: 0 <= i < |s| ==> SameLetter(s[i], t[i])
  }

  lemma LetterAt(k: nat)
    requires k < 26
    ensures CAPITALS[k] as int == 'A' as int + k && SMALLS[k] as int == 'a' as int + k
  {
  }

  lemma PairLower(c: char, d: char, k: nat)
    requires k < 26 && IsPair(c, d, k)
    ensures ToLower(c) == ToLower(d)
  {
    LetterAt(k);
  }

  lemma PairFound(c: char, d: char)
    requires 'A' <= c <= 'Z' && ToLower(c) == ToLower(d) && c != d
    ensures SameLetter(c, d) && SameLetter(d, c)
  {
    var k := c as int - 'A' as int;
    LetterAt(k);
    assert IsPair(c, d, k);
  }

  lemma LowerExact(c: char, d: char)
    ensures ToLower(c) == ToLower(d) <==> SameLetter(c, d)
  {
    if ToLower(c) == ToLower(d) && c != d {
      if 'A' <= c <= 'Z' {
        PairFound(c, d);
      } else {
        PairFound(d, c);
      }
    }
    if SameLetter(c, d) && c != d {
      var k :| 0 <= k < 26 && (IsPair(c, d, k) || IsPair(d, c, k));
      if IsPair(c, d, k) {
        PairLower(c, d, k);
      } else {
        PairLower(d, c, k);
      }
    }
  }

  predicate Named(d: Doc, name: string)
  {
    d.name.Some? && SameName(d.name.value, name)
  }

  /** Where the first member with this name is, in any case of letters; |ds| if there is none. */
  ghost predicate FirstNamed(ds: seq<Doc>, name: string, i: nat)
  {
    i <= |ds| && (i < |ds| ==> Named(ds[i], name)) && NoneNamed(ds, name, i)
  }

  ghost predicate NoneNamed(ds: seq<Doc>, name: string, i: nat)
    requires i <= |ds|
  {
    forall j :: 0 <= j < i ==> !Named(ds[j], name)
  }

  /** Character by character up to a difference or the terminator, which is where |s| is reached. */
  method StrCaseCmp(s1: string, s2: string) returns (same: bool)
    requires '\0' !in s1 && '\0' !in s2
    ensures same <==> SameName(s1, s2)
  {
    var i := 0;
    while ToLower(CharAt(s1, i)) == ToLower(CharAt(s2, i))
      invariant i <= |s1| && i <= |s2| && forall j :: 0 <= j < i ==> SameLetter(s1[j], s2[j])
      decreases |s1| - i
    {
      LowerExact(CharAt(s1, i), CharAt(s2, i));
      if CharAt(s1, i) == '\0' {
        NulOnly(CharAt(s2, i));
        return true;
      }
      NulOnly(CharAt(s1, i));
      i := i + 1;
    }
    LowerExact(CharAt(s1, i), CharAt(s2, i));
    return false;
  }

  lemma NulOnly(c: char)
    ensures ToLower(c) == ToLower('\0') <==> c == '\0'
  {
  }

  function CharAt(s: string, i: nat): char
  {
    if i < |s| then s[i] else '\0'
  }

  ghost predicate TextsOk(m: Mem)
  {
    forall p :: p in m && m[p].Text? ==> '\0' !in m[p].chars
  }

  /** Compares an item's name, if it has one. */
  method HasName(mem: Memory, c: Ptr, name: string, ghost t: Shape) returns (same: bool)
    requires c == t.p && Tree(mem.blocks, t) && TextsOk(mem.blocks) && '\0' !in name
    ensures same <==> Named(View(mem.blocks, t), name)
  {
    var own := mem.blocks[c].name;
    same := false;
    if own != 0 {
      same := StrCaseCmp(mem.blocks[own].chars, name);
    }
  }

  /** The position and address of the first member with the name. */
  method Find(mem: Memory, object_: Ptr, name: string, ghost a: Shape) returns (c: Ptr, i: nat)
    requires object_ == a.p && Tree(mem.blocks, a) && !a.reference && TextsOk(mem.blocks) && '\0' !in name
    ensures c == At(a.kids, i) && (c == 0 <==> i == |a.kids|)
    ensures FirstNamed(View(mem.blocks, a).kids, name, i)
  {
    KidsChain(mem.blocks, a);
    c, i := mem.blocks[object_].child, 0;
    AtEnd(mem.blocks, a.kids, 0);
    while c != 0
      invariant i <= |a.kids| && c == At(a.kids, i) && (c == 0 <==> i == |a.kids|)
      invariant NoneNamed(View(mem.blocks, a).kids, name, i)
      decreases |a.kids| - i
    {
      assert Tree(mem.blocks, a.kids[i]) && NextAt(mem.blocks, a.kids, i);
      ViewsAt(mem.blocks, a.kids, i);
      var same := HasName(mem, c, name, a.kids[i]);
      if same {
        return;
      }
      c, i := mem.blocks[c].next, i + 1;
      AtEnd(mem.blocks, a.kids, i);
    }
  }

  /** Takes out the first member with the name, or, if there is none, changes nothing. */
  method DetachItemFromObject(mem: Memory, object_: Ptr, name: string, ghost a: Shape) returns (c: Ptr, ghost k: nat)
    requires mem.Valid() && object_ == a.p && Tree(mem.blocks, a) && Separate(a) && !a.reference
    requires TextsOk(mem.blocks) && '\0' !in name
    modifies mem`blocks
    ensures mem.Valid() && FirstNamed(old(View(mem.blocks, a)).kids, name, k)
    ensures if k == |a.kids| then c == 0 && mem.blocks == old(mem.blocks)
            else
              var b, t, was := a.(kids := Without(a.kids, k)), a.kids[k], old(View(mem.blocks, a));
              && c == t.p && Alone(mem.blocks, c)
              && Tree(mem.blocks, b) && Separate(b) && Tree(mem.blocks, t) && Separate(t)
              && Footprint(b) !! Footprint(t) && Footprint(b) + Footprint(t) == Footprint(a)
              && View(mem.blocks, b) == was.(kids := was.kids[..k] + was.kids[k + 1..])
              && View(mem.blocks, t) == was.kids[k]
              && mem.blocks.Keys == old(mem.blocks).Keys
              && forall q :: q in old(mem.blocks) && q !in Footprint(a) ==> Keeps(old(mem.blocks), mem.blocks, q)
  {
    ghost var m := mem.blocks;
    var i;
    c, i := Find(mem, object_, name, a);
    k := i;
    if c != 0 {
      c := mem.DetachItemFromArray(object_, i, a);
      LinksInside(m, a, mem.blocks, a.kids);
    }
  }

  /** A string to be used as a name. The source gives back an item's name before it copies the new one, so the new
      one must not be that very string. */
  ghost predicate NameFor(m: Mem, name: Ptr, t: Shape)
  {
    name != 0 && name in m && m[name].Text? && '\0' !in m[name].chars && name != t.name
  }

  /** Gives an item a copy of a string as its name, in place of the name it had. */
  method Rename(mem: Memory, item: Ptr, name: Ptr, ghost t: Shape) returns (ghost u: Shape)
    requires mem.Valid() && item == t.p && Tree(mem.blocks, t) && Separate(t) && NameFor(mem.blocks, name, t)
    modifies mem
    ensures mem.Valid() && u.p == t.p && u.reference == t.reference && Tree(mem.blocks, u) && Separate(u)
    ensures View(mem.blocks, u) == old(View(mem.blocks, t)).(name := Some(old(mem.blocks)[name].chars))
    ensures u.name != 0 && (u.name !in old(mem.blocks) || u.name == t.name) && Footprint(u) == Footprint(t) - {t.name} + {u.name}
    ensures mem.blocks.Keys == old(mem.blocks).Keys - ({t.name} - {0}) + {u.name}
    ensures forall q :: q in old(mem.blocks) && q != item && q != t.name ==> Keeps(old(mem.blocks), mem.blocks, q)
    ensures mem.blocks[item] == old(mem.blocks)[item].(name := u.name)
  {
    ghost var m := mem.blocks;
    TreeAt(m, t);
    if mem.blocks[item].name != 0 {
      assert t.name in Own(t);
      mem.Free(mem.blocks[item].name);
    }
    var p := mem.Malloc(Text(mem.blocks[name].chars));
    mem.blocks := mem.blocks[item := mem.blocks[item].(name := p)];
    u := t.(name := p);
    RenameTree(m, mem.blocks, t, p);
  }

  lemma {:induction false} NoNullOwned(t: Shape)
    ensures 0 !in Footprint(t)
    decreases t
  {
    NoNullsOwned(t.kids);
  }

  lemma {:induction false} NoNullsOwned(ks: seq<Shape>)
    ensures 0 !in Footprints(ks)
    decreases ks
  {
    if ks != [] {
      NoNullOwned(ks[0]);
      NoNullsOwned(ks[1..]);
    }
  }

  /** The children of an item own neither the item nor its strings. */
  lemma BelowKept(m: Mem, n: Mem, t: Shape)
    requires Tree(m, t) && Separate(t)
    requires forall q :: q in m && q != t.p && q != t.name ==> Keeps(m, n, q)
    ensures forall q :: q in Footprints(t.kids) ==> q in m && Keeps(m, n, q)
    ensures t.text != 0 ==> t.text in m && Keeps(m, n, t.text)
  {
    AllAllocated(m, t);
    NoNullsOwned(t.kids);
    assert t.p in Own(t) && (t.name != 0 ==> t.name in Own(t));
    if t.text != 0 {
      assert t.text in Own(t) && t.text in Footprint(t);
    }
    forall q | q in Footprints(t.kids) ensures q in m && Keeps(m, n, q) {
      assert q in Footprint(t) && q !in Own(t);
    }
  }

  lemma RenameTree(m: Mem, n: Mem, t: Shape, p: Ptr)
    requires Tree(m, t) && Separate(t) && p != 0 && (p !in m || p == t.name) && IsText(n, p) && IsCell(n, t.p)
    requires n[t.p] == m[t.p].(name := p)
    requires forall q :: q in m && q != t.p && q != t.name ==> Keeps(m, n, q)
    ensures var u := t.(name := p);
            && Tree(n, u) && Separate(u) && View(n, u) == View(m, t).(name := TextAt(n, p))
            && Footprint(u) == Footprint(t) - {t.name} + {p}
  {
    var u := t.(name := p);
    BelowKept(m, n, t);
    NoNullsOwned(t.kids);
    assert Trees(m, t.kids);
    ListSame(m, n, t.kids);
    LinkedSame(m, n, t.kids);
    TreeAt(m, t);
    assert Own(u) == Own(t) - {t.name} + {p};
    assert t.name !in Footprints(t.kids) by {
      assert t.name != 0 ==> t.name in Own(t);
    }
  }

  /** Names an item, as a member of an object, and appends it. Of the old blocks only the item's name is given back,
      and none outside the two trees is changed. The null item is ignored. */
  method AddItemToObject(mem: Memory, object_: Ptr, name: Ptr, item: Ptr, ghost a: Shape, ghost t: Shape)
    returns (ghost u: Shape)
    requires mem.Valid() && object_ == a.p && Tree(mem.blocks, a)
    requires item != 0 ==> item == t.p && Addable(mem.blocks, a, t) && Alone(mem.blocks, item) && NameFor(mem.blocks, name, t)
    modifies mem
    ensures mem.Valid() && (item == 0 ==> mem.blocks == old(mem.blocks))
    ensures item != 0 ==>
              var b, was := a.(kids := a.kids + [u]), old(View(mem.blocks, a));
              && u.p == t.p && Tree(mem.blocks, b) && Separate(b) && Footprint(b) == Footprint(a) + Footprint(u)
              && View(mem.blocks, b) == was.(kids := was.kids + [old(View(mem.blocks, t)).(name := Some(old(mem.blocks)[name].chars))])
              && mem.blocks.Keys == old(mem.blocks).Keys - ({t.name} - {0}) + {u.name}
              && forall q :: q in old(mem.blocks) && q !in Footprint(a) + Footprint(t) ==> Keeps(old(mem.blocks), mem.blocks, q)
  {
    u := t;
    if item == 0 {
      return;
    }
    ghost var m := mem.blocks;
    u := Rename(mem, item, name, t);
    ghost var n := mem.blocks;
    RenamedAddable(m, n, a, t, u);
    LinksBefore(n, a, u);
    TreeAt(n, u);
    mem.AddItemToArray(object_, item, a, u);
    KeptOutside(m, n, mem.blocks, a, t, u);
  }

  /** What naming an item and then relinking the two trees leave alone. */
  lemma KeptOutside(m: Mem, n: Mem, n1: Mem, a: Shape, t: Shape, u: Shape)
    requires Tree(m, t) && Footprint(u) == Footprint(t) - {t.name} + {u.name} && (u.name !in m || u.name == t.name)
    requires forall q :: q in m && q != t.p && q != t.name ==> Keeps(m, n, q)
    requires forall q :: q in n && q !in Footprint(a) + Footprint(u) ==> Keeps(n, n1, q)
    requires 0 !in m
    ensures forall q :: q in m && q !in Footprint(a) + Footprint(t) ==> Keeps(m, n1, q)
  {
    TreeAt(m, t);
    assert t.name != 0 ==> t.name in Own(t) && t.name in Footprint(t);
    forall q | q in m && q !in Footprint(a) + Footprint(t) ensures Keeps(m, n1, q) {
      assert Keeps(m, n, q) && Keeps(n, n1, q);
    }
  }

  /** Gives newitem the name and puts it in the place of the first member with that name, which is released with all
      it owns; if there is none, changes nothing. */
  method ReplaceItemInObject(mem: Memory, object_: Ptr, name: Ptr, newitem: Ptr, ghost a: Shape, ghost t: Shape)
    returns (ghost k: nat, ghost u: Shape)
    requires mem.Valid() && object_ == a.p && newitem == t.p && Addable(mem.blocks, a, t)
    requires TextsOk(mem.blocks) && NameFor(mem.blocks, name, t)
    modifies mem
    ensures mem.Valid() && FirstNamed(old(View(mem.blocks, a)).kids, old(mem.blocks)[name].chars, k)
    ensures if k == |a.kids| then mem.blocks == old(mem.blocks)
            else
              var b, was := a.(kids := a.kids[k := u]), old(View(mem.blocks, a));
              && u.p == newitem && Tree(mem.blocks, b) && Separate(b)
              && View(mem.blocks, b) == was.(kids := was.kids[k := old(View(mem.blocks, t)).(name := Some(old(mem.blocks)[name].chars))])
              && mem.blocks.Keys == old(mem.blocks).Keys - ({t.name} - {0}) + {u.name} - Footprint(a.kids[k])
              && forall q :: q in old(mem.blocks) && q !in Footprint(a) + Footprint(t) ==> Keeps(old(mem.blocks), mem.blocks, q)
  {
    ghost var m := mem.blocks;
    var c, i := Find(mem, object_, mem.blocks[name].chars, a);
    k, u := i, t;
    if c != 0 {
      u := Rename(mem, newitem, name, t);
      ghost var n := mem.blocks;
      RenamedAddable(m, n, a, t, u);
      mem.ReplaceItemInArray(object_, i, newitem, a, u);
      KeptOutside(m, n, mem.blocks, a, t, u);
    }
  }

  /** Renaming a tree that shares nothing with container a leaves a alone. */
  lemma RenamedAddable(m: Mem, n: Mem, a: Shape, t: Shape, u: Shape)
    requires Addable(m, a, t) && Tree(n, u) && Separate(u)
    requires Footprint(u) == Footprint(t) - {t.name} + {u.name} && (u.name !in m || u.name == t.name) && u.name != 0
    requires forall q :: q in m && q != t.p && q != t.name ==> Keeps(m, n, q)
    ensures Addable(n, a, u) && View(n, a) == View(m, a)
  {
    AllAllocated(m, a);
    NoNullOwned(a);
    TreeAt(m, t);
    assert t.name != 0 ==> t.name in Own(t) && t.name in Footprint(t);
    forall q | q in Footprint(a) ensures Keeps(m, n, q) {
      assert q != t.p && q != t.name;
    }
    TreeSame(m, n, a);
  }
}
