/** Fixed-size memory pools, and mail queues built from a pool and a bounded FIFO of block addresses.
    The pool and queue operations run inside critical sections and are taken as atomic steps. */
module MailQueue {
  import opened Arithmetic
  import opened Wrappers
  import opened Sequences

  datatype Status = OsOK | OsEventMail | OsEventTimeout | OsErrorParameter | OsErrorOS

  const NULL: int := 0

  // ---------------------------------------------------------------------------------
  // Choosing a slot
  // ---------------------------------------------------------------------------------

  /** The least free slot at or after i. */
  function FreeFrom(markers: seq<bool>, i: nat): (r: Option<nat>)
    requires i <= |markers|
    ensures r.Some? ==> i <= r.value < |markers| && !markers[r.value]
    ensures r.Some? ==> forall j :: i <= j < r.value ==> markers[j]
    ensures r.None? ==> forall j :: i <= j < |markers| ==> markers[j]
    decreases |markers| - i
  {
    if i == |markers| then None else if !markers[i] then Some(i) else FreeFrom(markers, i + 1)
  }

  /** The slot an allocation takes: the least free one from the current index on, else slot 0. Indices
      past the end all wrap to 0, so slots between 0 and the current index are never tried. */
  function Pick(markers: seq<bool>, current: nat): (r: Option<nat>)
    requires IndexOf(markers, current)
    ensures r.Some? ==> r.value < |markers| && !markers[r.value]
  {
    match FreeFrom(markers, current)
    case Some(i) => Some(i)
    case None => if markers != [] && !markers[0] then Some(0) else None
  }

  /** A current index: a slot, or 0 in a pool without slots. */
  predicate IndexOf(markers: seq<bool>, current: nat)
  {
    current < |markers| || (markers == [] && current == 0)
  }

  /** An allocation fails exactly when slot 0 and every slot from the current index on are taken. */
  lemma PickFailsExactly(markers: seq<bool>, current: nat)
    requires IndexOf(markers, current)
    ensures Pick(markers, current).None? <==>
              (markers == [] || markers[0]) && forall j :: current <= j < |markers| ==> markers[j]
  {
  }

  /** The slot picked is the least free one from the current index on; slot 0 only if there is none. */
  lemma PickExact(markers: seq<bool>, current: nat, index: nat)
    requires IndexOf(markers, current) && index < |markers|
    ensures Pick(markers, current) == Some(index) <==>
              && !markers[index]
              && ((current <= index && forall j :: current <= j < index ==> markers[j])
                  || (index == 0 && forall j :: current <= j < |markers| ==> markers[j]))
  {
  }

  // ---------------------------------------------------------------------------------
  // Slots and addresses
  // ---------------------------------------------------------------------------------

  /** item_sz rounded up to whole words. */
  function ItemSize(item_sz: nat): (r: nat)
    ensures item_sz <= r < item_sz + 4 && r % 4 == 0
  {
    4 * ((item_sz + 3) / 4)
  }

  function Address(pool: nat, item: nat, slot: nat): nat
  {
    pool + slot * item
  }

  /** The slot an address denotes, or None for an address the pool rejects. */
  function SlotOf(pool: nat, item: nat, size: nat, block: int): Option<nat>
    requires item > 0
  {
    if block == NULL || block < pool then None
    else if (block - pool) % item != 0 then None
    else if (block - pool) / item >= size then None
    else Some((block - pool) / item)
  }

  lemma MulDiv(slot: nat, item: nat)
    requires item > 0
    ensures slot * item % item == 0 && slot * item / item == slot
  {
    DivModUnique(slot * item, item, slot, 0);
  }

  /** Addresses and slots correspond one to one, and blocks of different slots do not overlap. */
  lemma AddressOfSlot(pool: nat, item: nat, size: nat, slot: nat, other: nat)
    requires pool > 0 && item > 0 && slot < size && other < size
    ensures SlotOf(pool, item, size, Address(pool, item, slot)) == Some(slot)
    ensures slot < other ==> Address(pool, item, slot) + item <= Address(pool, item, other)
    ensures Address(pool, item, 0) == pool && Address(pool, item, slot + 1) == Address(pool, item, slot) + item
  {
    MulDiv(slot, item);
    MulAdd(slot, 1, item);
    if slot < other {
      MulMonotone(slot + 1, other, item);
      MulAdd(slot, 1, item);
    }
  }

  // ---------------------------------------------------------------------------------
  // The mail protocol
  // ---------------------------------------------------------------------------------

  /** Slots of mails: held by a sender and not yet posted, queued, and delivered to a receiver that has not
      freed them; posted and fetched record the whole history. */
  datatype Mail = Mail(markers: seq<bool>, current: nat, queue: seq<nat>,
                       held: set<nat>, delivered: set<nat>, posted: seq<nat>, fetched: seq<nat>)

  datatype Event = Alloc | Put(slot: nat) | Get | Free(slot: nat)

  predicate Distinct(s: seq<nat>)
  {
    forall i, j :: 0 <= i < j < |s| ==> s[i] != s[j]
  }

  function Elems(s: seq<nat>): set<nat>
  {
    set x | x in s
  }

  function Marked(markers: seq<bool>): set<nat>
  {
    set i: nat | i < |markers| && markers[i]
  }

  /** Every taken slot is in exactly one place, and mails come out in the order they were posted. */
  predicate Inv(m: Mail)
  {
    && IndexOf(m.markers, m.current)
    && Distinct(m.queue)
    && m.held !! Elems(m.queue) && m.held !! m.delivered && Elems(m.queue) !! m.delivered
    && Marked(m.markers) == m.held + Elems(m.queue) + m.delivered
    && m.posted == m.fetched + m.queue
  }

  /** Correct use: only held mails are posted, only held or delivered ones are freed. */
  predicate Legal(m: Mail, e: Event)
  {
    match e
    case Alloc => true
    case Put(slot) => slot in m.held
    case Get => true
    case Free(slot) => slot in m.held || slot in m.delivered
  }

  function Step(m: Mail, e: Event): Mail
    requires Inv(m) && Legal(m, e)
  {
    match e
    case Alloc =>
      (match Pick(m.markers, m.current)
       case None => m
       case Some(i) => m.(markers := m.markers[i := true], current := i, held := m.held + {i}))
    case Put(slot) =>
      if |m.queue| < |m.markers|
      then m.(queue := m.queue + [slot], held := m.held - {slot}, posted := m.posted + [slot])
      else m
    case Get =>
      if m.queue == [] then m
      else m.(queue := m.queue[1..], delivered := m.delivered + {m.queue[0]}, fetched := m.fetched + [m.queue[0]])
    case Free(slot) =>
      assert slot in Marked(m.markers);
      m.(markers := m.markers[slot := false], held := m.held - {slot}, delivered := m.delivered - {slot})
  }

  lemma {:induction false} ElemsSize(s: seq<nat>)
    requires Distinct(s)
    ensures |Elems(s)| == |s|
  {
    if s != [] {
      ElemsSize(s[1..]);
      assert Elems(s) == {s[0]} + Elems(s[1..]);
    }
  }

  lemma {:induction false} MarkedBound(markers: seq<bool>)
    ensures |Marked(markers)| <= |markers|
  {
    if markers != [] {
      var front := markers[..|markers| - 1];
      MarkedBound(front);
      assert Marked(markers) <= Marked(front) + {|front|};
      Subset(Marked(markers), Marked(front) + {|front|});
    }
  }

  lemma {:induction false} Subset(a: set<nat>, b: set<nat>)
    requires a <= b
    ensures |a| <= |b|
  {
    if a != {} {
      var x :| x in a;
      Subset(a - {x}, b - {x});
    }
  }

  /** Conservation: mails queued, held and delivered are as many as the marked slots, and at most queue_sz.
      So the queue has room whenever some caller holds an unposted mail. */
  lemma Conservation(m: Mail)
    requires Inv(m)
    ensures |m.held| + |m.queue| + |m.delivered| == |Marked(m.markers)| <= |m.markers|
    ensures m.held != {} ==> |m.queue| < |m.markers|
  {
    ElemsSize(m.queue);
    MarkedBound(m.markers);
  }

  lemma AllocKeepsInv(m: Mail)
    requires Inv(m)
    ensures Inv(Step(m, Alloc))
    ensures match Pick(m.markers, m.current)
            case None => true
            case Some(i) => i !in m.held && i !in m.queue && i !in m.delivered
  {
    match Pick(m.markers, m.current)
    case None =>
    case Some(i) =>
      assert i !in Marked(m.markers);
      assert Marked(m.markers[i := true]) == Marked(m.markers) + {i};
  }

  lemma DistinctAppend(s: seq<nat>, x: nat)
    requires Distinct(s) && x !in Elems(s)
    ensures Distinct(s + [x]) && Elems(s + [x]) == Elems(s) + {x}
  {
    forall i | 0 <= i < |s| ensures s[i] != x {
      assert s[i] in Elems(s);
    }
  }

  lemma ElemsTail(s: seq<nat>)
    requires s != [] && Distinct(s)
    ensures Elems(s[1..]) == Elems(s) - {s[0]} && Distinct(s[1..])
  {
    assert s == [s[0]] + s[1..];
  }

  /** Posting a held mail always succeeds. */
  lemma PutKeepsInv(m: Mail, slot: nat)
    requires Inv(m) && slot in m.held
    ensures Inv(Step(m, Put(slot))) && Step(m, Put(slot)).queue == m.queue + [slot]
    ensures |m.queue| < |m.markers|
  {
    Conservation(m);
    assert slot !in Elems(m.queue);
    DistinctAppend(m.queue, slot);
    Moved(m.held, Elems(m.queue), m.delivered, slot);
    Assoc(m.fetched, m.queue, [slot]);
  }

  lemma Moved(a: set<nat>, b: set<nat>, c: set<nat>, x: nat)
    requires x in a && a !! b && a !! c && b !! c
    ensures (a - {x}) + (b + {x}) + c == a + b + c
    ensures a - {x} !! b + {x} && a - {x} !! c && b + {x} !! c
  {
  }

  lemma GetKeepsInv(m: Mail)
    requires Inv(m)
    ensures Inv(Step(m, Get))
  {
    if m.queue != [] {
      ElemsTail(m.queue);
      assert m.queue[0] in Elems(m.queue);
      assert m.queue == [m.queue[0]] + m.queue[1..];
    }
  }

  lemma FreeKeepsInv(m: Mail, slot: nat)
    requires Inv(m) && (slot in m.held || slot in m.delivered)
    ensures Inv(Step(m, Free(slot)))
  {
    assert slot in Marked(m.markers);
    assert Marked(m.markers[slot := false]) == Marked(m.markers) - {slot};
  }

  lemma StepKeepsInv(m: Mail, e: Event)
    requires Inv(m) && Legal(m, e)
    ensures Inv(Step(m, e))
  {
    match e
    case Alloc => AllocKeepsInv(m);
    case Put(slot) => PutKeepsInv(m, slot);
    case Get => GetKeepsInv(m);
    case Free(slot) => FreeKeepsInv(m, slot);
  }

  lemma StepKeepsSize(m: Mail, e: Event)
    requires Inv(m) && Legal(m, e)
    ensures |Step(m, e).markers| == |m.markers|
  {
  }

  predicate LegalRun(m: Mail, es: seq<Event>)
    requires Inv(m)
    decreases |es|
  {
    es == [] || (Legal(m, es[0]) && (StepKeepsInv(m, es[0]); LegalRun(Step(m, es[0]), es[1..])))
  }

  function Run(m: Mail, es: seq<Event>): Mail
    requires Inv(m) && LegalRun(m, es)
    decreases |es|
  {
    if es == [] then m
    else
      StepKeepsInv(m, es[0]);
      Run(Step(m, es[0]), es[1..])
  }

  function Created(size: nat): Mail
  {
    Mail(seq(size, _ => false), 0, [], {}, {}, [], [])
  }

  /** The mails that came out are the first ones that were posted, in the same order. */
  predicate InOrder(m: Mail)
  {
    m.fetched <= m.posted
  }

  /** Over every correct run of a fresh queue: mails come out in the order they were posted, no slot is live
      twice, counts are conserved, and a held mail can be posted at once. */
  lemma {:induction false} RunSafe(m: Mail, es: seq<Event>)
    requires Inv(m) && LegalRun(m, es)
    ensures Inv(Run(m, es)) && |Run(m, es).markers| == |m.markers|
    ensures InOrder(Run(m, es))
    ensures Run(m, es).held != {} ==> |Run(m, es).queue| < |m.markers|
    decreases |es|
  {
    if es == [] {
      Conservation(m);
    } else {
      StepKeepsInv(m, es[0]);
      StepKeepsSize(m, es[0]);
      RunSafe(Step(m, es[0]), es[1..]);
    }
  }

  lemma CreatedInv(size: nat)
    ensures Inv(Created(size))
  {
    assert Marked(Created(size).markers) == {};
  }

  // ---------------------------------------------------------------------------------
  // A free slot that is not found
  // ---------------------------------------------------------------------------------

  function FirstMarked(n: nat, k: nat): (ms: seq<bool>)
    ensures |ms| == n && forall i :: 0 <= i < n ==> ms[i] == (i < k)
  {
    seq(n, i => i < k)
  }

  lemma NextMarked(n: nat, k: nat)
    requires k < n
    ensures FirstMarked(n, k)[k := true] == FirstMarked(n, k + 1)
    ensures Marked(FirstMarked(n, k + 1)) == Marked(FirstMarked(n, k)) + {k}
    ensures FreeFrom(FirstMarked(n, k), if k == 0 then 0 else k - 1) == Some(k)
  {
    var ms := FirstMarked(n, k);
    assert !ms[k];
    var r := FreeFrom(ms, if k == 0 then 0 else k - 1);
    assert r.Some? && !ms[r.value];
  }

  /** A fresh queue of n slots after k allocations. */
  function Taken(n: nat, k: nat): Mail
  {
    Mail(FirstMarked(n, k), if k == 0 then 0 else k - 1, [], Marked(FirstMarked(n, k)), {}, [], [])
  }

  /** j allocations and the release of slot k. */
  function FillAndFree(j: nat, k: nat): seq<Event>
  {
    if j == 0 then [Free(k)] else [Alloc] + FillAndFree(j - 1, k)
  }

  lemma TakenInv(n: nat, k: nat)
    requires k <= n
    ensures Inv(Taken(n, k))
    ensures k < n ==> Step(Taken(n, k), Alloc) == Taken(n, k + 1)
  {
    if k < n {
      NextMarked(n, k);
    }
  }

  lemma {:induction false} FillRun(n: nat, taken: nat, k: nat)
    requires k < n && taken <= n
    ensures Inv(Taken(n, taken)) && LegalRun(Taken(n, taken), FillAndFree(n - taken, k))
    ensures var m := Run(Taken(n, taken), FillAndFree(n - taken, k));
            m.markers == FirstMarked(n, n)[k := false] && m.current == n - 1
    decreases n - taken
  {
    TakenInv(n, taken);
    if taken == n {
      FreeOne(n, k);
    } else {
      FillRun(n, taken + 1, k);
      RunStep(Taken(n, taken), Alloc, FillAndFree(n - (taken + 1), k));
      assert FillAndFree(n - taken, k) == [Alloc] + FillAndFree(n - (taken + 1), k);
    }
  }

  lemma FreeOne(n: nat, k: nat)
    requires k < n
    ensures Inv(Taken(n, n)) && LegalRun(Taken(n, n), [Free(k)])
    ensures var m := Run(Taken(n, n), [Free(k)]);
            m.markers == FirstMarked(n, n)[k := false] && m.current == n - 1
  {
    TakenInv(n, n);
    assert k in Taken(n, n).held;
    StepKeepsInv(Taken(n, n), Free(k));
    RunStep(Taken(n, n), Free(k), []);
  }

  lemma RunStep(m: Mail, e: Event, es: seq<Event>)
    requires Inv(m) && Legal(m, e) && Inv(Step(m, e)) && LegalRun(Step(m, e), es)
    ensures LegalRun(m, [e] + es) && Run(m, [e] + es) == Run(Step(m, e), es)
  {
    assert ([e] + es)[1..] == es;
  }

  /** Failure does not mean a full pool: when all slots of a fresh queue were allocated and any slot between the
      first and the last was given back, the next allocation fails. */
  lemma PickIncomplete(n: nat, k: nat)
    requires 0 < k < n - 1
    ensures Inv(Created(n)) && LegalRun(Created(n), FillAndFree(n, k))
    ensures var m := Run(Created(n), FillAndFree(n, k));
            |m.markers| == n && !m.markers[k] && IndexOf(m.markers, m.current) && Pick(m.markers, m.current).None?
  {
    assert FirstMarked(n, 0) == seq(n, _ => false) && Marked(FirstMarked(n, 0)) == {};
    FillRun(n, 0, k);
  }

  // ---------------------------------------------------------------------------------
  // Pools and queues in memory
  // ---------------------------------------------------------------------------------

  class OsPool {
    const pool: nat                 // address of the block area
    const markers: array<bool>
    const pool_sz: nat
    const item_sz: nat
    var currentIndex: nat

    ghost predicate Valid()
      reads this, markers
    {
      pool > 0 && item_sz > 0 && markers.Length == pool_sz && IndexOf(markers[..], currentIndex)
    }

    constructor (area: nat, size: nat, itemSize: nat)
      requires area > 0 && itemSize > 0
      ensures Valid() && fresh(markers) && currentIndex == 0
      ensures pool == area && pool_sz == size && item_sz == ItemSize(itemSize)
      ensures markers[..] == seq(size, _ => false)
    {
      pool, pool_sz, item_sz, currentIndex := area, size, 4 * ((itemSize + 3) / 4), 0;
      markers := new bool[size](_ => false);
    }

    method Alloc() returns (p: nat)
      requires Valid()
      modifies this, markers
      ensures Valid()
      ensures match Pick(old(markers[..]), old(currentIndex))
              case None => p == NULL && markers[..] == old(markers[..]) && currentIndex == old(currentIndex)
              case Some(i) => p == Address(pool, item_sz, i) && currentIndex == i
                              && markers[..] == old(markers[..])[i := true]
    {
      for i := 0 to pool_sz
        invariant markers[..] == old(markers[..]) && currentIndex == old(currentIndex)
        invariant forall j :: currentIndex <= j < currentIndex + i && j < pool_sz ==> markers[j]
        invariant currentIndex + i > pool_sz ==> markers[0]
      {
        var index := currentIndex + i;
        if index >= pool_sz {
          index := 0;
        }
        if !markers[index] {
          PickExact(markers[..], currentIndex, index);
          markers[index] := true;
          p := pool + index * item_sz;
          currentIndex := index;
          return p;
        }
      }
      p := NULL;
    }

    method Free(block: int) returns (status: Status)
      requires Valid()
      modifies markers
      ensures Valid()
      ensures match SlotOf(pool, item_sz, pool_sz, block)
              case None => status == OsErrorParameter && markers[..] == old(markers[..])
              case Some(i) => status == OsOK && markers[..] == old(markers[..])[i := false]
    {
      if block == NULL {
        return OsErrorParameter;
      }
      if block < pool {
        return OsErrorParameter;
      }
      var index := block - pool;
      if index % item_sz != 0 {
        return OsErrorParameter;
      }
      index := index / item_sz;
      if index >= pool_sz {
        return OsErrorParameter;
      }
      markers[index] := false;
      return OsOK;
    }
  }

  class OsMailQ {
    const pool: OsPool
    const queue_sz: nat
    var queue: seq<nat>            // the FreeRTOS queue of block addresses
    ghost var mail: Mail

    ghost predicate Valid()
      reads this, pool, pool.markers
    {
      && pool.Valid() && pool.pool_sz == queue_sz
      && Inv(mail) && mail.markers == pool.markers[..] && mail.current == pool.currentIndex
      && |queue| == |mail.queue|
      && forall i :: 0 <= i < |queue| ==> queue[i] == Address(pool.pool, pool.item_sz, mail.queue[i])
    }

    /** The slot of a block of this queue's pool. */
    ghost function Slot(block: int): Option<nat>
      requires pool.item_sz > 0
    {
      SlotOf(pool.pool, pool.item_sz, pool.pool_sz, block)
    }

    constructor (area: nat, size: nat, itemSize: nat)
      requires area > 0 && itemSize > 0
      ensures Valid() && fresh(pool) && fresh(pool.markers) && mail == Created(size)
      ensures queue_sz == size && pool.pool == area && pool.item_sz == ItemSize(itemSize)
    {
      pool := new OsPool(area, size, itemSize);
      queue_sz, queue := size, [];
      mail := Created(size);
      CreatedInv(size);
    }

    /** One attempt; with a timeout the source repeats it after a delay. */
    method Alloc() returns (p: nat)
      requires Valid()
      modifies this, pool, pool.markers
      ensures Valid() && mail == Step(old(mail), Event.Alloc)
      ensures match Pick(old(mail).markers, old(mail).current)
              case None => p == NULL
              case Some(i) => p == Address(pool.pool, pool.item_sz, i) && Slot(p) == Option.Some(i)
    {
      AllocKeepsInv(mail);
      ghost var picked := Pick(mail.markers, mail.current);
      if picked.Some? {
        AddressOfSlot(pool.pool, pool.item_sz, queue_sz, picked.value, picked.value);
      }
      p := pool.Alloc();
      mail := Step(mail, Event.Alloc);
    }

    /** Posting a held mail succeeds at once. */
    method Put(block: nat) returns (status: Status)
      requires Valid() && Slot(block).Some? && Slot(block).value in mail.held
      modifies this
      ensures Valid() && status == OsOK && mail == Step(old(mail), Event.Put(Slot(block).value))
    {
      ghost var slot := Slot(block).value;
      PutKeepsInv(mail, slot);
      SlotAddress(pool.pool, pool.item_sz, queue_sz, block);
      if |queue| >= queue_sz {
        return OsErrorOS;
      }
      queue := queue + [block];
      mail := Step(mail, Event.Put(slot));
      return OsOK;
    }

    /** Taken when a mail is there or the wait is over. */
    method Get(inHandlerMode: bool, ticks: nat) returns (status: Status, block: Option<nat>)
      requires Valid()
      modifies this
      ensures Valid() && mail == Step(old(mail), Event.Get)
      ensures status == if old(mail).queue != [] then OsEventMail
                        else if inHandlerMode || ticks == 0 then OsOK else OsEventTimeout
      ensures block.Some? <==> status == OsEventMail
      ensures block.Some? ==> Slot(block.value) == Option.Some(old(mail).queue[0])
    {
      GetKeepsInv(mail);
      if queue == [] {
        return if inHandlerMode || ticks == 0 then OsOK else OsEventTimeout, None;
      }
      assert mail.queue[0] in Elems(mail.queue);
      assert mail.queue[0] in Marked(mail.markers);
      AddressOfSlot(pool.pool, pool.item_sz, queue_sz, mail.queue[0], mail.queue[0]);
      block := Some(queue[0]);
      queue := queue[1..];
      mail := Step(mail, Event.Get);
      status := OsEventMail;
    }

    /** Any pointer is accepted; one that is no block of the pool, or whose block is free already, changes
        nothing. A block that is still queued is not the caller's to free. */
    method Free(block: int) returns (status: Status)
      requires Valid() && (Slot(block).Some? ==> Slot(block).value !in mail.queue)
      modifies this, pool.markers
      ensures Valid() && status == OsOK
      ensures mail == if Slot(block).Some? && Slot(block).value in Marked(old(mail).markers)
                      then Step(old(mail), Event.Free(Slot(block).value)) else old(mail)
    {
      ghost var slot := Slot(block);
      if slot.Some? && slot.value in Marked(mail.markers) {
        TakenBlock(mail, slot.value);
        FreeKeepsInv(mail, slot.value);
        mail := Step(mail, Event.Free(slot.value));
      }
      var ignored := pool.Free(block);
      return OsOK;
    }
  }

  /** A taken slot that is not queued is held or delivered. */
  lemma TakenBlock(m: Mail, slot: nat)
    requires Inv(m) && slot in Marked(m.markers) && slot !in m.queue
    ensures slot in m.held || slot in m.delivered
  {
    assert slot !in Elems(m.queue);
  }

  lemma SlotAddress(pool: nat, item: nat, size: nat, block: int)
    requires item > 0 && SlotOf(pool, item, size, block).Some?
    ensures block == Address(pool, item, SlotOf(pool, item, size, block).value)
  {
    assert block - pool == (block - pool) / item * item + (block - pool) % item;
  }
}
