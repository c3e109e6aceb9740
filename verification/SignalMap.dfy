/** The map from threads to event groups: a singly linked list with a head and a tail pointer, searched from
    the front. Each operation runs in a critical section and is taken as an atomic step. */
module SignalMap {

  /** Threads and event groups are handles; 0 is the null handle. */
  type Handle = nat

  datatype Entry = Entry(thread: Handle, signals: Handle)

  // ---------------------------------------------------------------------------------
  // What the list means
  // ---------------------------------------------------------------------------------

  /** The event group the first entry for the thread names. */
  function Lookup(es: seq<Entry>, thread: Handle): Handle
  {
    if es == [] then 0 else if es[0].thread == thread then es[0].signals else Lookup(es[1..], thread)
  }

  /** The entries without the first one for the thread. */
  function Remove(es: seq<Entry>, thread: Handle): seq<Entry>
  {
    if es == [] then [] else if es[0].thread == thread then es[1..] else [es[0]] + Remove(es[1..], thread)
  }

  predicate Has(es: seq<Entry>, thread: Handle)
  {
    exists i :: 0 <= i < |es| && es[i].thread == thread
  }

  /** A thread registered while it has no entry is found with its event group, and no other thread is affected. */
  lemma {:induction false} AddLookup(es: seq<Entry>, e: Entry, thread: Handle)
    requires !Has(es, e.thread)
    ensures Lookup(es + [e], thread) == if thread == e.thread then e.signals else Lookup(es, thread)
    decreases es
  {
    if es != [] {
      assert es[0].thread != e.thread;
      assert (es + [e])[1..] == es[1..] + [e];
      assert forall i :: 0 <= i < |es[1..]| ==> es[1..][i] == es[i + 1];
      AddLookup(es[1..], e, thread);
    }
  }

  /** Removing a thread leaves the others alone. */
  lemma {:induction false} RemoveLookup(es: seq<Entry>, gone: Handle, thread: Handle)
    requires thread != gone
    ensures Lookup(Remove(es, gone), thread) == Lookup(es, thread)
    decreases es
  {
    if es != [] && es[0].thread != gone {
      RemoveLookup(es[1..], gone, thread);
      assert Remove(es, gone)[1..] == Remove(es[1..], gone);
    }
  }

  /** Adding a thread that has no entry and then removing it restores the list. */
  lemma {:induction false} AddRemove(es: seq<Entry>, e: Entry)
    requires !Has(es, e.thread)
    ensures Remove(es + [e], e.thread) == es
    decreases es
  {
    if es == [] {
      assert ([] + [e])[1..] == [];
    } else {
      assert es[0].thread != e.thread;
      assert (es + [e])[1..] == es[1..] + [e];
      assert forall i :: 0 <= i < |es[1..]| ==> es[1..][i] == es[i + 1];
      AddRemove(es[1..], e);
    }
  }

  /** Where the first entry for a thread is. */
  lemma {:induction false} FirstAt(es: seq<Entry>, thread: Handle, i: nat)
    requires i <= |es| && (forall j :: 0 <= j < i ==> es[j].thread != thread) && (i < |es| ==> es[i].thread == thread)
    ensures Lookup(es, thread) == if i < |es| then es[i].signals else 0
    ensures Remove(es, thread) == if i < |es| then es[..i] + es[i + 1..] else es
    decreases i
  {
    if i > 0 {
      FirstAt(es[1..], thread, i - 1);
      if i < |es| {
        assert es[..i] + es[i + 1..] == [es[0]] + (es[1..][..i - 1] + es[1..][i..]);
      }
    }
  }

  // ---------------------------------------------------------------------------------
  // The list in memory
  // ---------------------------------------------------------------------------------

  class ThreadSignalRec {
    const thread_id: Handle
    const signals: Handle
    var pnext: ThreadSignalRec?

    constructor (thread: Handle, group: Handle)
      ensures thread_id == thread && signals == group && pnext == null
    {
      thread_id, signals, pnext := thread, group, null;
    }
  }

  function Entries(recs: seq<ThreadSignalRec>): (es: seq<Entry>)
    ensures |es| == |recs|
    ensures forall i :: 0 <= i < |recs| ==> es[i] == Entry(recs[i].thread_id, recs[i].signals)
  {
    seq(|recs|, i requires 0 <= i < |recs| => Entry(recs[i].thread_id, recs[i].signals))
  }

  lemma EntriesWithout(recs: seq<ThreadSignalRec>, i: nat)
    requires i < |recs|
    ensures Entries(recs[..i] + recs[i + 1..]) == Entries(recs)[..i] + Entries(recs)[i + 1..]
  {
  }

  function NextOf(recs: seq<ThreadSignalRec>, i: int): ThreadSignalRec?
  {
    if 0 <= i < |recs| then recs[i] else null
  }

  ghost predicate LinkedAt(recs: seq<ThreadSignalRec>, i: nat)
    requires i < |recs|
    reads recs[i]
  {
    recs[i].pnext == NextOf(recs, i + 1)
  }

  class ThreadSignalMap {
    var head: ThreadSignalRec?
    var tail: ThreadSignalRec?
    ghost var recs: seq<ThreadSignalRec>

    ghost predicate Valid()
      reads this, recs
    {
      && head == NextOf(recs, 0) && tail == NextOf(recs, |recs| - 1)
      && (forall i, j :: 0 <= i < j < |recs| ==> recs[i] != recs[j])
      && forall i :: 0 <= i < |recs| ==> LinkedAt(recs, i)
    }

    constructor ()
      ensures Valid() && recs == []
    {
      head, tail, recs := null, null, [];
    }

    method Add(thread: Handle, signals: Handle)
      requires Valid()
      modifies this, recs
      ensures Valid() && Entries(recs) == old(Entries(recs)) + [Entry(thread, signals)]
      ensures |recs| == old(|recs|) + 1 && recs[..old(|recs|)] == old(recs) && fresh(recs[old(|recs|)])
    {
      var rec := new ThreadSignalRec(thread, signals);
      if head == null {
        head := rec;
        tail := rec;
      } else {
        tail.pnext := rec;
        tail := rec;
      }
      ghost var before := recs;
      recs := recs + [rec];
      forall k | 0 <= k < |recs| ensures LinkedAt(recs, k) {
        assert k < |before| ==> old(LinkedAt(before, k));
      }
    }

    /** The event group of the first entry for the thread, null if there is none. */
    method Find(thread: Handle) returns (signals: Handle)
      requires Valid()
      ensures signals == Lookup(Entries(recs), thread)
    {
      var rec := head;
      ghost var i := 0;
      while rec != null
        invariant 0 <= i <= |recs| && rec == NextOf(recs, i)
        invariant forall j :: 0 <= j < i ==> recs[j].thread_id != thread
        decreases |recs| - i
      {
        if rec.thread_id == thread {
          FirstAt(Entries(recs), thread, i);
          return rec.signals;
        }
        assert LinkedAt(recs, i);
        rec, i := rec.pnext, i + 1;
      }
      FirstAt(Entries(recs), thread, i);
      return 0;
    }

    /** Takes out the first entry for the thread and returns its event group, or null if there is none. */
    method RemoveThread(thread: Handle) returns (signals: Handle)
      requires Valid()
      modifies this, recs
      ensures Valid() && signals == old(Lookup(Entries(recs), thread))
      ensures Entries(recs) == Remove(old(Entries(recs)), thread)
    {
      var rec, prev: ThreadSignalRec? := head, null;
      ghost var i := 0;
      while rec != null && rec.thread_id != thread
        invariant 0 <= i <= |recs| && rec == NextOf(recs, i) && prev == NextOf(recs, i - 1)
        invariant forall j :: 0 <= j < i ==> recs[j].thread_id != thread
        decreases |recs| - i
      {
        assert LinkedAt(recs, i);
        prev, rec, i := rec, rec.pnext, i + 1;
      }
      FirstAt(Entries(recs), thread, i);
      if rec == null {
        return 0;
      }
      signals := rec.signals;
      EntriesWithout(recs, i);
      Unlink(rec, prev, i);
    }

    method Unlink(rec: ThreadSignalRec, prev: ThreadSignalRec?, ghost i: nat)
      requires Valid() && i < |recs| && rec == recs[i] && prev == NextOf(recs, i - 1)
      modifies this, recs
      ensures Valid() && recs == old(recs)[..i] + old(recs)[i + 1..]
    {
      ghost var before := recs;
      assert LinkedAt(recs, i);
      if i > 0 {
        assert LinkedAt(recs, i - 1);
      }
      if rec == head {
        if rec.pnext != null {
          head := rec.pnext;
        } else {
          head, tail := null, null;
        }
      } else if rec == tail {
        prev.pnext := null;
        tail := prev;
      } else {
        prev.pnext := rec.pnext;
      }
      recs := recs[..i] + recs[i + 1..];
      forall k | 0 <= k < |recs| ensures LinkedAt(recs, k) {
        assert old(LinkedAt(before, if k < i then k else k + 1));
      }
    }
  }
}
