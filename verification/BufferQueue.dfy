/**
 * The queue of confirmable messages in flight (mcoap/mc_buffer_queue.c): a doubly linked list, tied to the
 * sequence of its entries.
 */
module BufferQueues {
  import opened Bytes
  import opened Timeouts
  import opened Engine
  import opened Environments

  class QueueEntry {
    var msgid: u16
    var xmitcounter: nat
    var dest: Addr
    var timeout: Timeout
    var resultfn: nat
    var msg: array?<byte>
    var prev: QueueEntry?
    var next: QueueEntry?
    ghost var uid: nat

    // queue_entry_init, with the timeout's random length and starting time already drawn.
    constructor (msgid: u16, dest: Addr, msg: array<byte>, resultfn: nat, prev: QueueEntry?, t0: real, born: real, ghost uid: nat)
      ensures this.msgid == msgid && this.xmitcounter == 0 && this.dest == dest && this.msg == msg && this.resultfn == resultfn
      ensures this.prev == prev && this.next == null && this.uid == uid
      ensures this.timeout == MarkStart(Init(-1.0, t0), born)
    {
      this.msgid, this.dest, this.msg, this.resultfn := msgid, dest, msg, resultfn;
      this.prev, this.next := prev, null;
      this.xmitcounter := 0;
      this.timeout := MarkStart(Init(-1.0, t0), born);
      this.uid := uid;
    }

    // queue_entry_deinit.
    method Deinit()
      modifies this
      ensures msg == null && prev == null && next == null
    {
      msgid, dest, msg, resultfn := 0, 0, null, 0;
      prev, next := null, null;
      xmitcounter := 0;
      timeout := Init(0.0, 0.0);
    }
  }

  // The first timeout of a message: from 2 to 3 seconds, as far between them as the number drawn is between 0 and 1.
  method MkTimeout(env: Environment) returns (t0: real)
    modifies env`drawn
    ensures env.drawn == old(env.drawn) + [t0 - 2.0] && 2.0 <= t0 <= 3.0
  {
    var delta := ACK_TIMEOUT * ACK_RANDOM_FACTOR - ACK_TIMEOUT;
    var randfraction := env.RandFraction();
    t0 := ACK_TIMEOUT + randfraction * delta;
    assert delta == 1.0 && t0 - 2.0 == randfraction;
  }

  class BufferQueue {
    var first: QueueEntry?
    var last: QueueEntry?
    ghost var entries: seq<QueueEntry>

    // The entry at a position, or null outside the list.
    ghost function EntryAt(i: int): QueueEntry?
      reads this
    {
      if 0 <= i < |entries| then entries[i] else null
    }

    // The entries as a set: what a caller has to be able to modify.
    ghost function Nodes(): set<QueueEntry>
      reads this
    {
      set x | x in entries
    }

    // first, last, prev and next all say what entries says.
    ghost predicate Valid()
      reads this, entries`prev, entries`next
    {
      && (forall i, j :: 0 <= i < j < |entries| ==> entries[i] != entries[j])
      && (entries == [] ==> first == null && last == null)
      && (entries != [] ==>
            && first == entries[0] && entries[0].prev == null
            && last == entries[|entries| - 1] && entries[|entries| - 1].next == null)
      && (forall i {:trigger entries[i].prev} :: 1 <= i < |entries| ==> entries[i].prev == entries[i - 1])
      && (forall i {:trigger entries[i].next} :: 0 <= i < |entries| - 1 ==> entries[i].next == entries[i + 1])
    }

    constructor ()
      ensures Valid() && entries == []
    {
      first, last, entries := null, null, [];
    }

    // mc_buffer_queue_add: the new entry goes to the end.
    method Add(msgid: u16, dest: Addr, msg: array<byte>, resultfn: nat, env: Environment, ghost uid: nat)
      returns (entry: QueueEntry, ghost t0: real, ghost born: real)
      requires Valid()
      modifies this, entries`next, env`now, env`drawn
      ensures Valid() && fresh(entry) && entries == old(entries) + [entry]
      ensures ACK_TIMEOUT <= t0 <= ACK_TIMEOUT * ACK_RANDOM_FACTOR && env.drawn == old(env.drawn) + [t0 - 2.0]
      ensures old(env.now) <= born == env.now
      ensures entry.msgid == msgid && entry.xmitcounter == 0 && entry.dest == dest && entry.msg == msg
      ensures entry.resultfn == resultfn && entry.uid == uid && entry.timeout == MarkStart(Init(-1.0, t0), born)
    {
      var total := MkTimeout(env);
      var start := env.GetTime();
      if first == null {
        entry := new QueueEntry(msgid, dest, msg, resultfn, null, total, start, uid);
        first := entry;
        last := first;
      } else {
        entry := new QueueEntry(msgid, dest, msg, resultfn, last, total, start, uid);
        last.next := entry;
        last := entry;
      }
      entries := entries + [entry];
      t0, born := total, start;
    }

    method Count() returns (count: nat)
      requires Valid()
      ensures count == |entries|
    {
      var current := first;
      count := 0;
      while current != null
        invariant 0 <= count <= |entries| && current == EntryAt(count)
        decreases |entries| - count
      {
        count := count + 1;
        current := current.next;
      }
    }

    // remove_entry: unlinks the entry at position i, wherever it is.
    method Unlink(current: QueueEntry, ghost i: nat)
      requires Valid() && i < |entries| && entries[i] == current
      modifies this, entries`prev, entries`next
      ensures Valid() && entries == old(entries[..i] + entries[i + 1..])
      ensures current.prev == null && current.next == null
    {
      if current.prev != null {
        current.prev.next := current.next;
      } else {
        first := current.next;
      }
      if current.next != null {
        current.next.prev := current.prev;
      } else {
        last := current.prev;
      }
      current.prev, current.next := null, null;
      ghost var es := entries;
      entries := es[..i] + es[i + 1..];
      hide EntryAt;
      StillLinked(es, i);
      hide Valid;
    }

    // The neighbours of position i linked to each other, the rest as it was: the list without it is well formed.
    lemma StillLinked(es: seq<QueueEntry>, i: nat)
      requires i < |es| && entries == es[..i] + es[i + 1..]
      requires forall j, k :: 0 <= j < k < |es| ==> es[j] != es[k]
      requires first == if i > 0 then es[0] else if |es| > 1 then es[1] else null
      requires last == if i < |es| - 1 then es[|es| - 1] else if |es| > 1 then es[|es| - 2] else null
      requires forall k :: 0 <= k < |es| && k != i ==> es[k].next == Beside(es, i, k + 1, k + 2)
      requires forall k :: 0 <= k < |es| && k != i ==> es[k].prev == Beside(es, i, k - 1, k - 2)
      ensures Valid()
    {
      hide Beside, EntryAt;
      forall k | 0 <= k < |entries| ensures entries[k].next == EntryAt(k + 1) && entries[k].prev == EntryAt(k - 1) {
        Moved(es, i, k);
      }
      Without(es, i);
      ValidIfLinked();
    }

    // Where the entry now at k and its neighbours were.
    lemma Moved(es: seq<QueueEntry>, i: nat, k: nat)
      requires i < |es| && entries == es[..i] + es[i + 1..] && k < |entries|
      ensures var m := if k < i then k else k + 1;
              entries[k] == es[m] && EntryAt(k + 1) == Beside(es, i, m + 1, m + 2) && EntryAt(k - 1) == Beside(es, i, m - 1, m - 2)
    {
    }

    lemma Without(es: seq<QueueEntry>, i: nat)
      requires i < |es| && entries == es[..i] + es[i + 1..]
      requires forall j, k :: 0 <= j < k < |es| ==> es[j] != es[k]
      ensures |entries| == |es| - 1 && forall j, k :: 0 <= j < k < |entries| ==> entries[j] != entries[k]
      ensures entries != [] ==> entries[0] == if i > 0 then es[0] else es[1]
      ensures entries != [] ==> entries[|entries| - 1] == if i < |es| - 1 then es[|es| - 1] else es[|es| - 2]
    {
    }

    lemma ValidIfLinked()
      requires forall j, k :: 0 <= j < k < |entries| ==> entries[j] != entries[k]
      requires entries == [] ==> first == null && last == null
      requires entries != [] ==> first == entries[0] && last == entries[|entries| - 1]
      requires forall k :: 0 <= k < |entries| ==> entries[k].next == EntryAt(k + 1) && entries[k].prev == EntryAt(k - 1)
      ensures Valid()
    {
    }

    // The entry at near, or at far if near is the position left out; null outside the list.
    ghost function Beside(es: seq<QueueEntry>, out: nat, near: int, far: int): QueueEntry? {
      var k := if near == out then far else near;
      if 0 <= k < |es| then es[k] else null
    }

    lemma NextEntry(current: QueueEntry, k: nat)
      requires Valid() && current == EntryAt(k)
      ensures k < |entries| && entries[k] == current && current.next == EntryAt(k + 1)
    {
    }

    // mc_buffer_queue_remove_entry: unlinks and frees the entry, and answers the one that followed it; nothing
    // for null.
    method RemoveEntry(entry: QueueEntry?, ghost i: nat) returns (next: QueueEntry?)
      requires Valid() && (entry != null ==> i < |entries| && entries[i] == entry)
      modifies this, entries`prev, entries`next, entry
      ensures Valid()
      ensures if entry == null then next == null && entries == old(entries)
              else entries == old(entries[..i] + entries[i + 1..]) && next == EntryAt(i)
    {
      if entry == null {
        return null;
      }
      next := entry.next;
      Unlink(entry, i);
      entry.Deinit();
    }

    // mc_buffer_queue_get: the first entry with the id, or null.
    method Get(msgid: u16) returns (entry: QueueEntry?, ghost k: nat)
      requires Valid()
      ensures k <= |entries| && entry == EntryAt(k)
      ensures entry != null ==> entry.msgid == msgid
      ensures forall j :: 0 <= j < k ==> entries[j].msgid != msgid
    {
      entry, k := first, 0;
      while entry != null
        invariant 0 <= k <= |entries| && entry == EntryAt(k)
        invariant forall j :: 0 <= j < k ==> entries[j].msgid != msgid
        decreases |entries| - k
      {
        if entry.msgid == msgid {
          return;
        }
        entry, k := entry.next, k + 1;
      }
    }

    // mc_buffer_queue_remove: the id, or UINT32_MAX when no entry has it.
    method Remove(msgid: u16) returns (r: u32, ghost k: nat)
      requires Valid()
      modifies this, entries
      ensures Valid() && k <= |old(entries)| && forall j :: 0 <= j < k ==> old(entries[j].msgid) != msgid
      ensures k < |old(entries)| ==> r == msgid && old(entries[k].msgid) == msgid && entries == old(entries[..k] + entries[k + 1..])
      ensures k == |old(entries)| ==> r == 0xffff_ffff && entries == old(entries)
    {
      var entry;
      entry, k := Get(msgid);
      if entry == null {
        return 0xffff_ffff, k;
      }
      var _ := RemoveEntry(entry, k);
      r := msgid;
    }

    // mc_buffer_queue_free.
    method Free()
      requires Valid()
      modifies this, Nodes()
      ensures Valid() && entries == [] && first == null && last == null
    {
      hide Valid;
      EndsAre();
      while first != null
        invariant Valid() && Nodes() <= old(Nodes()) && first == EntryAt(0) && (entries == [] ==> last == null)
        decreases |entries|
      {
        var _ := RemoveEntry(first, 0);
        EndsAre();
      }
    }

    lemma EndsAre()
      requires Valid()
      ensures first == EntryAt(0) && (entries == [] ==> last == null)
    {
    }

    // mc_buffer_queue_next_timeout, from the entry at a position: the first that reads as expired, each entry
    // being read at its own moment, or null.
    method NextTimeout(entry: QueueEntry?, env: Environment, ghost at: nat) returns (result: QueueEntry?, ghost readings: seq<real>)
      requires Valid() && at <= |entries| && entry == EntryAt(at)
      modifies env`now
      ensures forall j :: 0 <= j < |readings| ==> old(env.now) <= readings[j] <= env.now
      ensures var n := |readings| - if result == null then 0 else 1;
              && n >= 0 && at + n <= |entries| && result == EntryAt(at + n)
              && (forall j :: 0 <= j < n ==> Timeouts.Get(entries[at + j].timeout, readings[j]) != 0.0)
              && (result != null ==> Timeouts.Get(result.timeout, readings[n]) == 0.0)
    {
      hide Valid, Timeouts.Get;
      result, readings := entry, [];
      while result != null
        invariant Valid() && at + |readings| <= |entries| && result == EntryAt(at + |readings|) && old(env.now) <= env.now
        invariant forall j :: 0 <= j < |readings| ==> old(env.now) <= readings[j] <= env.now
        invariant forall j :: 0 <= j < |readings| ==> Timeouts.Get(entries[at + j].timeout, readings[j]) != 0.0
        decreases |entries| - |readings| - at
      {
        var now := env.GetTime();
        NextEntry(result, at + |readings|);
        readings := readings + [now];
        if Timeouts.Get(result.timeout, now) == 0.0 {
          return;
        }
        result := result.next;
      }
    }

    // mc_buffer_queue_timeout: unlinks the first entry whose timeout reads as expired, each entry being read
    // at its own moment; null if none does.
    method TakeTimeout(env: Environment) returns (result: QueueEntry?, ghost readings: seq<real>)
      requires Valid()
      modifies this, entries`prev, entries`next, env`now
      ensures Valid()
      ensures |readings| <= |old(entries)| && forall j :: 0 <= j < |readings| ==> old(env.now) <= readings[j] <= env.now
      ensures forall j :: 0 <= j < |readings| && (result == null || j < |readings| - 1) ==>
                Timeouts.Get(old(entries)[j].timeout, readings[j]) != 0.0
      ensures result == null ==> |readings| == |old(entries)| && entries == old(entries)
      ensures result != null ==>
                var k := |readings| - 1;
                && k >= 0 && result == old(entries)[k] && Timeouts.Get(result.timeout, readings[k]) == 0.0
                && entries == old(entries[..k] + entries[k + 1..])
    {
      EndsAre();
      hide Valid, Timeouts.Get;
      var current := first;
      result, readings := null, [];
      while current != null
        invariant |readings| <= |entries| && current == EntryAt(|readings|)
        invariant Valid() && entries == old(entries) && old(env.now) <= env.now
        invariant forall j :: 0 <= j < |readings| ==> old(env.now) <= readings[j] <= env.now
        invariant forall j :: 0 <= j < |readings| ==> Timeouts.Get(entries[j].timeout, readings[j]) != 0.0
        decreases |entries| - |readings|
      {
        var now := env.GetTime();
        NextEntry(current, |readings|);
        readings := readings + [now];
        if Timeouts.Get(current.timeout, now) == 0.0 {
          Unlink(current, |readings| - 1);
          return current, readings;
        }
        current := current.next;
      }
    }
  }
}
