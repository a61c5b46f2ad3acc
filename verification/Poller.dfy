/**
 The slot list of onion/poller.c: adding, removing by descriptor, the sweep for timeouts and
 the dispatch of a batch of events that holds pointers into the list.
 */
module Poller {
  import opened Wrappers

  const INT_MAX := 0x7FFF_FFFF

  /** What a callback does: its answer, the time when it returns, and the slots it registers. */
  datatype Reaction = Reaction(result: int, time: int, adds: seq<(int, int)>)

  /** onion_poller_slot; the ghost fields record its memory and its callbacks. */
  class Slot {
    const fd: int
    var timeout: int
    var timeoutLimit: int
    var next: Slot?
    ghost var freed: bool
    ghost var shutdowns: nat
    ghost var calls: nat
    ghost var result: int

    constructor (fd: int, timeout: int, limit: int)
      ensures this.fd == fd && this.timeout == timeout && timeoutLimit == limit
      ensures next == null && !freed && shutdowns == 0 && calls == 0
    {
      this.fd, this.timeout, timeoutLimit, next := fd, timeout, limit, null;
      freed, shutdowns, calls, result := false, 0, 0, 0;
    }

    /** `onion_poller_slot_free` */
    method Free()
      requires !freed
      modifies this`freed, this`shutdowns
      ensures freed && shutdowns == old(shutdowns) + 1
    {
      shutdowns := shutdowns + 1;
      freed := true;
    }
  }

  function After(s: seq<Slot>, i: nat): Slot? {
    if i + 1 < |s| then s[i + 1] else null
  }

  /** No descriptor is watched twice. */
  ghost predicate Distinct(s: seq<Slot>) {
    forall i, j :: 0 <= i < j < |s| ==> s[i].fd != s[j].fd
  }

  lemma DistinctWithout(s: seq<Slot>, k: nat)
    requires Distinct(s) && k < |s|
    ensures Distinct(Without(s, k)) && s[k] !in Without(s, k)
    ensures forall i :: 0 <= i < |s| && s[i].fd == s[k].fd ==> i == k
  {
    var t := Without(s, k);
    assert forall i :: 0 <= i < |t| ==> t[i] == s[if i < k then i else i + 1];
  }

  /** What is behind the first slot is a list of its own. */
  lemma BehindFirst(s: seq<Slot>)
    requires s != [] && Distinct(s) && forall i :: 0 <= i < |s| ==> s[i].next == After(s, i)
    ensures Distinct(s[1..]) && s[0] !in s[1..]
    ensures s[0].next == if s[1..] == [] then null else s[1..][0]
    ensures forall i :: 0 <= i < |s| - 1 ==> s[1..][i] in s && s[1..][i].next == After(s[1..], i)
  {
    DistinctWithout(s, 0);
    assert Without(s, 0) == s[1..];
    hide Distinct;
    assert forall i :: 0 <= i < |s| - 1 ==> s[1..][i] == s[i + 1] && After(s[1..], i) == After(s, i + 1);
  }

  lemma DistinctOne(el: Slot)
    ensures Distinct([el])
  {
  }

  lemma DistinctInsert(s: seq<Slot>, el: Slot)
    requires Distinct(s) && s != [] && forall i :: 0 <= i < |s| ==> s[i].fd != el.fd
    ensures Distinct([s[0], el] + s[1..])
  {
    var t := [s[0], el] + s[1..];
    assert forall i :: 2 <= i < |t| ==> t[i] == s[i - 1];
  }

  class Poller {
    var head: Slot?
    var stop: bool
    const script: nat -> Reaction
    var called: nat
    ghost var slots: seq<Slot>

    ghost predicate Valid()
      reads this, slots
    {
      && (if slots == [] then head == null else head == slots[0])
      && (forall i :: 0 <= i < |slots| ==> slots[i].next == After(slots, i))
      && Distinct(slots)
      && (forall i :: 0 <= i < |slots| ==> !slots[i].freed)
    }

    constructor (script: nat -> Reaction)
      ensures Valid() && slots == [] && !stop
    {
      this.script := script;
      head, stop, called, slots := null, false, 0, [];
    }

    /** `onion_poller_add`: the first slot stays first. */
    method Add(el: Slot)
      requires Valid() && el !in slots && !el.freed && el.next == null
      requires forall i :: 0 <= i < |slots| ==> slots[i].fd != el.fd
      modifies this`head, this`slots, el`next, (if slots == [] then {} else {slots[0]})`next
      ensures Valid() && slots == if old(slots) == [] then [el] else [old(slots)[0], el] + old(slots)[1..]
    {
      hide Distinct;
      if head == null {
        DistinctOne(el);
        head := el;
        slots := [el];
      } else {
        ghost var was := slots;
        DistinctInsert(was, el);
        el.next := head.next;
        head.next := el;
        slots := [slots[0], el] + slots[1..];
        assert forall i :: 1 < i < |slots| ==> slots[i] == was[i - 1];
        NotFirst(was);
      }
    }

    lemma NotFirst(s: seq<Slot>)
      requires Distinct(s) && s != []
      ensures forall i :: 0 < i < |s| ==> s[i] != s[0]
    {
    }

    /** The head is unlinked and freed. */
    method RemoveFirst(el: Slot)
      requires Valid() && slots != [] && el == slots[0]
      modifies this`head, this`slots, el`freed, el`shutdowns
      ensures Valid() && slots == old(slots[1..])
      ensures el.freed && el.shutdowns == old(el.shutdowns) + 1
    {
      hide Distinct, After;
      BehindFirst(slots);
      head := el.next;
      slots := slots[1..];
      el.Free();
    }

    /** The slot behind `el`, the k-th, is unlinked and freed; a list of one slot stops the polling. */
    method RemoveNext(el: Slot, t: Slot, ghost k: nat)
      requires Valid() && k + 1 < |slots| && el == slots[k] && t == slots[k + 1]
      modifies this`stop, this`slots, el`next, t`freed, t`shutdowns
      ensures Valid() && slots == Without(old(slots), k + 1)
      ensures t.freed && t.shutdowns == old(t.shutdowns) + 1
      ensures stop == (old(stop) || |slots| == 1)
    {
      ghost var was, u := slots, Without(slots, k + 1);
      DistinctWithout(was, k + 1);
      RelinkedAt(was, k, 0);
      hide Distinct, Without, After;
      NextIs(k + 1);
      el.next := t.next;
      forall i | 0 <= i < |u| ensures u[i].next == After(u, i) && !u[i].freed && u[i] != t {
        RelinkedAt(was, k, i);
      }
      slots := u;
      AfterFirst(slots);
      if head.next == null {
        stop := true;
      }
      t.Free();
    }

    lemma NextIs(k: nat)
      requires Valid() && k < |slots|
      ensures slots[k].next == After(slots, k)
    {
    }

    lemma AfterFirst(s: seq<Slot>)
      requires s != []
      ensures After(s, 0) == null <==> |s| == 1
    {
    }

    lemma RelinkedAt(s: seq<Slot>, k: nat, i: nat)
      requires k + 1 < |s| && i + 1 < |s| && Distinct(s)
      ensures var t := Without(s, k + 1);
        && |t| == |s| - 1 && t[i] != s[k + 1]
        && t[i] == s[if i <= k then i else i + 1]
        && After(t, i) == After(s, if i < k then i else i + 1)
        && (t[i] == s[k] <==> i == k)
    {
      var t := Without(s, k + 1);
      assert t[i] == s[if i <= k then i else i + 1];
      if i + 1 < |t| { assert t[i + 1] == s[if i + 1 <= k then i + 1 else i + 2]; }
    }

    /** `onion_poller_remove`, which looks at a first slot in any case. */
    method Remove(fd: int)
      requires Valid() && slots != []
      modifies this`head, this`slots, this`stop, slots`next, Target(slots, fd)`freed, Target(slots, fd)`shutdowns
      ensures Valid()
      ensures var i := IndexOf(old(slots), fd);
        if i == |old(slots)| then slots == old(slots) && stop == old(stop)
        else
          && slots == Without(old(slots), i)
          && old(slots)[i].freed && old(slots)[i].shutdowns == old(slots[IndexOf(slots, fd)].shutdowns) + 1
          && stop == (old(stop) || (i > 0 && |slots| == 1))
    {
      hide Distinct, After, Without, IndexOf;
      var el := head;
      if el != null && el.fd == fd {
        IndexIs(slots, fd, 0);
        ByDescriptor(slots, 0);
        RemoveFirst(el);
        return;
      }
      ghost var k := 0;
      while el.next != null
        invariant k < |slots| && el == slots[k]
        invariant forall i :: 0 <= i <= k ==> slots[i].fd != fd
        decreases |slots| - k
        modifies {}
      {
        AfterIs(slots, k);
        if el.next.fd == fd {
          break;
        }
        el := el.next;
        k := k + 1;
      }
      AfterIs(slots, k);
      if el.next != null {
        IndexIs(slots, fd, k + 1);
        RemoveNext(el, el.next, k);
      } else {
        IndexIs(slots, fd, |slots|);
      }
    }

    // -------------------------------------------------------------- timeouts

    /** The batch forgets a slot that is about to go. */
    method Ignore(events: array<Slot?>, nfds: nat, cur: Slot)
      requires nfds <= events.Length
      modifies events
      ensures forall i :: 0 <= i < events.Length ==>
        events[i] == if i < nfds && old(events[i]) == cur then null else old(events[i])
    {
      for i := 0 to nfds
        invariant forall j :: 0 <= j < events.Length ==>
          events[j] == if j < i && old(events[j]) == cur then null else old(events[j])
      {
        if cur == events[i] {
          events[i] := null;
        }
      }
    }

    /** The slots of `orig` up to the k-th have been looked at. */
    ghost predicate Swept(orig: seq<Slot>, k: nat, ctime: int, next: Slot?)
      reads this, slots, orig
    {
      && Valid() && k <= |orig| && Distinct(orig)
      && slots == Live(orig[..k], ctime) + orig[k..]
      && next == (if k < |orig| then orig[k] else null)
      && (|slots| == 1 && |orig| > 1 && slots[0] == orig[0] ==> stop)
    }

    /** What a turn of the sweep needs to know about the slot in hand. */
    lemma InHand(orig: seq<Slot>, k: nat, ctime: int)
      requires k < |orig| && Swept(orig, k, ctime, orig[k])
      ensures Valid() && Distinct(slots) && Distinct(orig)
      ensures slots == Live(orig[..k], ctime) + orig[k..]
      ensures var i := |Live(orig[..k], ctime)|;
        i < |slots| && slots[i] == orig[k] && !orig[k].freed && IndexOf(slots, orig[k].fd) == i
      ensures |slots| == 1 && |orig| > 1 && slots[0] == orig[0] ==> stop
      ensures orig[k].next == if k + 1 < |orig| then orig[k + 1] else null
    {
      hide Live;
      var i := |Live(orig[..k], ctime)|;
      assert slots[i] == orig[k];
      IndexIs(slots, orig[k].fd, i);
      AfterIs(slots, i);
      hide IndexOf, After, Distinct;
      if k + 1 < |orig| { assert slots[i + 1] == orig[k + 1]; }
    }

    lemma InSlots(orig: seq<Slot>, k: nat, ctime: int)
      requires k < |orig| && slots == Live(orig[..k], ctime) + orig[k..]
      ensures forall s :: s in slots ==> s in orig
    {
      LiveIs(orig[..k], ctime);
    }

    /** The slot stays. */
    lemma Stays(orig: seq<Slot>, k: nat, ctime: int)
      requires k < |orig| && Swept(orig, k, ctime, orig[k]) && orig[k].timeoutLimit > ctime
      ensures Swept(orig, k + 1, ctime, if k + 1 < |orig| then orig[k + 1] else null)
    {
      InHand(orig, k, ctime);
      LiveStep(orig, k, ctime);
      hide Valid, Live, Distinct;
      StaysIn(slots, Live(orig[..k], ctime), orig[k], orig[k + 1..]);
    }

    lemma StaysIn(s: seq<Slot>, live: seq<Slot>, x: Slot, rest: seq<Slot>)
      requires s == live + ([x] + rest)
      ensures s == (live + [x]) + rest
    {
    }

    /** The slot has been taken out of `before`. */
    lemma Goes(orig: seq<Slot>, k: nat, ctime: int, before: seq<Slot>)
      requires Valid() && k < |orig| && Distinct(orig) && Distinct(before) && orig[k].timeoutLimit <= ctime
      requires before == Live(orig[..k], ctime) + orig[k..] && slots == Without(before, |Live(orig[..k], ctime)|)
      requires |Live(orig[..k], ctime)| > 0 && |slots| == 1 ==> stop
      ensures Swept(orig, k + 1, ctime, if k + 1 < |orig| then orig[k + 1] else null)
    {
      LiveStep(orig, k, ctime);
      hide Valid;
      var live := Live(orig[..k], ctime);
      assert slots == live + orig[k + 1..] && live + [] == live;
      if live == [] && slots != [] {
        assert slots[0] == orig[k + 1];
        SameSlot(orig, 0, k + 1);
      }
    }

    lemma SameSlot(s: seq<Slot>, i: nat, j: nat)
      requires Distinct(s) && i < |s| && j < |s| && i != j
      ensures s[i] != s[j]
    {
    }

    /** The events of a slot that times out are forgotten. */
    method IgnoreTimedOut(events: array<Slot?>, nfds: nat, ctime: int, cur: Slot, ghost orig: seq<Slot>, ghost k: nat,
                          ghost batch: seq<Slot?>)
      requires k < |orig| && orig[k] == cur && Distinct(orig) && Ignored(events, nfds, batch, orig, k, ctime)
      modifies events
      ensures Ignored(events, nfds, batch, orig, k + 1, ctime)
    {
      OneMore(orig, k);
      hide Distinct;
      if cur.timeoutLimit <= ctime {
        Ignore(events, nfds, cur);
      }
    }

    /** The slot that timed out is removed by its descriptor. */
    method Evict(cur: Slot, ctime: int, ghost orig: seq<Slot>, ghost k: nat, ghost was: seq<Mark>)
      requires k < |orig| && orig[k] == cur && Valid() && Distinct(orig) && Accounted(orig, k, ctime, was)
      requires cur in slots && !cur.freed && cur.timeoutLimit <= ctime
      modifies this`head, this`slots, this`stop, (set s | s in slots)`next, cur`freed, cur`shutdowns
      ensures Valid() && slots == Without(old(slots), IndexOf(old(slots), cur.fd)) && (old(stop) ==> stop)
      ensures IndexOf(old(slots), cur.fd) > 0 && |slots| == 1 ==> stop
      ensures Accounted(orig, k + 1, ctime, was)
    {
      InList(slots, cur);
      OneMore(orig, k);
      assert Target(slots, cur.fd) == {cur};
      hide IndexOf, Distinct, Valid, Without, Target;
      Remove(cur.fd);
    }

    lemma InList(s: seq<Slot>, x: Slot)
      requires x in s && Distinct(s)
      ensures IndexOf(s, x.fd) < |s| && s[IndexOf(s, x.fd)] == x
    {
      var i :| 0 <= i < |s| && s[i] == x;
      IndexIs(s, x.fd, i);
    }

    /** One turn of the sweep, on the k-th slot. */
    method SweepOne(events: array<Slot?>, nfds: nat, ctime: int, cur: Slot, ghost orig: seq<Slot>, ghost k: nat,
                    ghost was: seq<Mark>, ghost batch: seq<Slot?>)
      requires k < |orig| && orig[k] == cur && Swept(orig, k, ctime, cur)
      requires Accounted(orig, k, ctime, was) && Ignored(events, nfds, batch, orig, k, ctime)
      modifies this`head, this`slots, this`stop, orig`next, cur`freed, cur`shutdowns, events
      ensures Swept(orig, k + 1, ctime, if k + 1 < |orig| then orig[k + 1] else null) && (old(stop) ==> stop)
      ensures Accounted(orig, k + 1, ctime, was) && Ignored(events, nfds, batch, orig, k + 1, ctime)
    {
      hide IndexOf, Live, Distinct, Valid, Swept, Ignored, Without, Accounted;
      InHand(orig, k, ctime);
      IgnoreTimedOut(events, nfds, ctime, cur, orig, k, batch);
      if cur.timeoutLimit <= ctime {
        InSlots(orig, k, ctime);
        ghost var before := slots;
        Evict(cur, ctime, orig, k, was);
        Goes(orig, k, ctime, before);
      } else {
        Stays(orig, k, ctime);
        NothingLost(orig, k, ctime, was);
      }
    }

    lemma NothingLost(orig: seq<Slot>, k: nat, ctime: int, was: seq<Mark>)
      requires k < |orig| && Accounted(orig, k, ctime, was) && orig[k].timeoutLimit > ctime
      ensures Accounted(orig, k + 1, ctime, was)
    {
    }

    /** The sweep of `onion_poller_poll`: `next` is read before the slot in hand may be freed. */
    method Sweep(events: array<Slot?>, nfds: nat, ctime: int)
      requires Valid() && nfds <= events.Length
      modifies this`head, this`slots, this`stop, slots`next, slots`freed, slots`shutdowns, events
      ensures Valid() && slots == Live(old(slots), ctime)
      ensures Accounted(old(slots), |old(slots)|, ctime, old(Marks(slots)))
      ensures Ignored(events, nfds, old(events[..]), old(slots), |old(slots)|, ctime)
      ensures old(stop) ==> stop
      ensures |slots| == 1 && |old(slots)| > 1 && slots[0] == old(slots)[0] ==> stop
    {
      hide Live, Swept, IndexOf;
      ghost var orig, k, was, batch := slots, 0, Marks(slots), events[..];
      var next := head;
      SweepStarts(ctime);
      hide Valid, Accounted, Ignored;
      while next != null
        invariant Swept(orig, k, ctime, next) && k <= |orig| && next == (if k < |orig| then orig[k] else null)
        invariant Accounted(orig, k, ctime, was) && Ignored(events, nfds, batch, orig, k, ctime)
        invariant old(stop) ==> stop
        decreases |orig| - k
      {
        var cur := next;
        InHand(orig, k, ctime);
        next := next.next;
        SweepOne(events, nfds, ctime, cur, orig, k, was, batch);
        k := k + 1;
      }
      SweepEnds(orig, ctime);
    }

    lemma SweepStarts(ctime: int)
      requires Valid()
      ensures Swept(slots, 0, ctime, head)
    {
      assert slots[..0] == [] && slots[0..] == slots && Live([], ctime) + slots == slots;
    }

    lemma OneMore(orig: seq<Slot>, k: nat)
      requires k < |orig| && Distinct(orig)
      ensures forall s: Slot? :: s in orig[..k + 1] <==> s in orig[..k] || s == orig[k]
      ensures forall j :: 0 <= j < |orig| && j != k ==> orig[j] != orig[k]
    {
      assert orig[..k + 1] == orig[..k] + [orig[k]];
    }

    lemma SweepEnds(orig: seq<Slot>, ctime: int)
      requires Swept(orig, |orig|, ctime, null)
      ensures Valid() && slots == Live(orig, ctime) && orig[..|orig|] == orig
      ensures |slots| == 1 && |orig| > 1 && slots[0] == orig[0] ==> stop
    {
      assert orig[..|orig|] == orig && orig[|orig|..] == [] && Live(orig, ctime) + [] == Live(orig, ctime);
    }

    // -------------------------------------------------------------- events

    /** No two open descriptors have the same number: a registered one cannot be opened again. */
    method InUse(fd: int) returns (b: bool)
      requires Valid()
      ensures b <==> exists i :: 0 <= i < |slots| && slots[i].fd == fd
    {
      hide Distinct, After;
      var el := head;
      ghost var k := 0;
      while el != null
        invariant k <= |slots| && el == (if k < |slots| then slots[k] else null)
        invariant forall i :: 0 <= i < k ==> slots[i].fd != fd
        decreases |slots| - k
      {
        if el.fd == fd {
          return true;
        }
        NextIs(k);
        AfterIs(slots, k);
        el := el.next;
        k := k + 1;
      }
      b := false;
    }

    /** The slots a callback registers, each with a descriptor of its own. */
    method Register(adds: seq<(int, int)>)
      requires Valid()
      modifies this`head, this`slots, slots`next
      ensures Valid()
      ensures forall s :: s in old(slots) ==> s in slots
      ensures forall s :: s in slots ==> s in old(slots) || fresh(s)
    {
      for i := 0 to |adds|
        invariant Valid()
        invariant forall s :: s in old(slots) ==> s in slots
        invariant forall s :: s in slots ==> s in old(slots) || fresh(s)
      {
        hide Distinct, After;
        var used := InUse(adds[i].0);
        if !used {
          var el := new Slot(adds[i].0, adds[i].1, INT_MAX);
          assert slots != [] ==> slots[0] in slots;
          Add(el);
        }
      }
    }

    /** The callback of a slot, which runs without a time limit. */
    method Call(el: Slot) returns (n: int)
      requires Valid() && el in slots
      modifies this`head, this`slots, this`called, slots`next, el`calls, el`result, el`timeoutLimit
      ensures Valid() && el.calls == old(el.calls) + 1 && el.result == n
      ensures forall s :: s in old(slots) ==> s in slots
      ensures forall s :: s in slots ==> s in old(slots) || fresh(s)
      ensures el.timeout <= 0 ==> el.timeoutLimit == INT_MAX
    {
      hide Distinct, After;
      el.timeoutLimit := INT_MAX;
      el.calls := el.calls + 1;
      var r := script(called);
      called := called + 1;
      Register(r.adds);
      n := r.result;
      el.result := n;
      if el.timeout > 0 {
        el.timeoutLimit := r.time + el.timeout;
      }
    }

    /** One event: the callback unless the other side hung up, and the slot's removal if it is done. */
    method DispatchOne(el: Slot, hup: bool) returns (ghost gone: bool)
      requires Valid() && el in slots && !el.freed
      modifies this`head, this`slots, this`stop, this`called, slots`next
      modifies el`calls, el`result, el`timeoutLimit, el`freed, el`shutdowns
      ensures Valid() && (old(stop) ==> stop)
      ensures gone <==> hup || el.result < 0
      ensures el.calls == old(el.calls) + if hup then 0 else 1
      ensures el.freed == gone && el.shutdowns == old(el.shutdowns) + (if gone then 1 else 0)
      ensures el in slots <==> !gone
      ensures forall s :: s in old(slots) && s != el ==> s in slots
      ensures forall s :: s in slots ==> s in old(slots) || fresh(s)
    {
      hide Distinct, After, Valid;
      var n := -1;
      if !hup {
        n := Call(el);
      }
      gone := n < 0;
      if n < 0 {
        Drop(el);
      }
    }

    /** A registered slot is removed by its descriptor. */
    method Drop(el: Slot)
      requires Valid() && el in slots && !el.freed
      modifies this`head, this`slots, this`stop, (set s | s in slots)`next, el`freed, el`shutdowns
      ensures Valid() && (old(stop) ==> stop) && el.freed && el.shutdowns == old(el.shutdowns) + 1 && el !in slots
      ensures forall s :: s in old(slots) && s != el ==> s in slots
      ensures forall s :: s in slots ==> s in old(slots)
    {
      DistinctNow();
      InList(slots, el);
      TargetIs(el);
      OneLess(slots, IndexOf(slots, el.fd));
      hide Distinct, Valid, Without, IndexOf, Target;
      Remove(el.fd);
    }

    lemma DistinctNow()
      requires Valid()
      ensures Distinct(slots)
    {
    }

    lemma TargetIs(el: Slot)
      requires IndexOf(slots, el.fd) < |slots| && slots[IndexOf(slots, el.fd)] == el
      ensures Target(slots, el.fd) == {el}
    {
    }

    lemma OneLess(s: seq<Slot>, i: nat)
      requires Distinct(s) && i < |s|
      ensures forall x :: x in s && x != s[i] ==> x in Without(s, i)
      ensures forall x :: x in Without(s, i) ==> x in s && x != s[i]
    {
      DistinctWithout(s, i);
      forall x | x in s && x != s[i] ensures x in Without(s, i) {
        var j :| 0 <= j < |s| && s[j] == x;
        assert Without(s, i)[if j < i then j else j - 1] == x;
      }
    }

    /** The events up to the i-th have been handled, and the slots of the others are still as they were. */
    ghost predicate Handled(batch: seq<Slot?>, hups: seq<bool>, i: nat, was: seq<Track>)
      reads this, batch
    {
      && i <= |batch| == |hups| == |was|
      && forall j :: 0 <= j < |batch| && batch[j] != null ==>
        var s := batch[j];
        if j < i then
          && s.calls == was[j].calls + (if hups[j] then 0 else 1)
          && s.freed == (hups[j] || s.result < 0)
          && s.shutdowns == was[j].shutdowns + (if s.freed then 1 else 0)
          && (s in slots <==> !s.freed)
        else !s.freed && s.calls == was[j].calls && s.shutdowns == was[j].shutdowns && s in slots
    }

    /** The slots without an event are where and as they were. */
    ghost predicate Untouched(others: seq<Slot>, was: seq<Track>)
      reads this, others
    {
      && |was| == |others|
      && forall j :: 0 <= j < |others| ==>
        var s := others[j];
        (!s.freed && s.calls == was[j].calls && s.shutdowns == was[j].shutdowns
         && s.timeoutLimit == was[j].limit && s in slots)
    }

    /** The dispatch of `onion_poller_poll`. */
    method Dispatch(events: array<Slot?>, nfds: nat, hups: seq<bool>, ghost others: seq<Slot>)
      requires Valid() && nfds <= events.Length && |hups| == nfds && OnceEach(events[..nfds])
      requires Registered(events[..nfds], slots) && Elsewhere(others, slots, events[..nfds])
      modifies this, set s | s in slots
      ensures Valid() && (old(stop) ==> stop)
      ensures Handled(events[..nfds], hups, nfds, old(BatchTracks(events[..nfds])))
      ensures Untouched(others, old(Tracks(others)))
      ensures forall s :: s in slots ==> s in old(slots) || fresh(s)
    {
      ghost var batch, was, wasOthers := events[..nfds], BatchTracks(events[..nfds]), Tracks(others);
      HandledAtFirst(batch, hups);
      UntouchedAtFirst(others);
      hide Valid, OnceEach, Handled, Untouched;
      for i := 0 to nfds
        invariant Valid() && batch == events[..nfds] && (old(stop) ==> stop)
        invariant Handled(batch, hups, i, was) && Untouched(others, wasOthers)
        invariant forall s :: s in slots ==> s in old(slots) || fresh(s)
      {
        var el := events[i];
        NotYet(batch, hups, i, was);
        if el != null {
          assert el == batch[i];
          ghost var live := slots;
          DispatchBatch(el, hups[i], batch, hups, i, was, others, wasOthers);
        } else {
          NoEvent(batch, hups, i, was);
        }
      }
    }

    lemma NotYet(batch: seq<Slot?>, hups: seq<bool>, i: nat, was: seq<Track>)
      requires Handled(batch, hups, i, was) && i < |batch|
      ensures batch[i] != null ==> batch[i] in slots && !batch[i].freed
    {
    }

    lemma NoEvent(batch: seq<Slot?>, hups: seq<bool>, i: nat, was: seq<Track>)
      requires Handled(batch, hups, i, was) && i < |batch| && batch[i] == null
      ensures Handled(batch, hups, i + 1, was)
    {
    }

    /** One event of the batch. */
    method DispatchBatch(el: Slot, hup: bool, ghost batch: seq<Slot?>, ghost hups: seq<bool>, ghost i: nat,
                         ghost was: seq<Track>, ghost others: seq<Slot>, ghost wasOthers: seq<Track>)
      requires Valid() && Handled(batch, hups, i, was) && Untouched(others, wasOthers) && OnceEach(batch)
      requires i < |batch| && batch[i] == el && hups[i] == hup && forall s :: s in others ==> s !in batch
      modifies this`head, this`slots, this`stop, this`called, (set s | s in slots)`next
      modifies el`calls, el`result, el`timeoutLimit, el`freed, el`shutdowns
      ensures Valid() && (old(stop) ==> stop)
      ensures Handled(batch, hups, i + 1, was) && Untouched(others, wasOthers)
      ensures forall s :: s in slots ==> s in old(slots) || fresh(s)
    {
      hide Valid, OnceEach;
      NotTwice(batch, i);
      assert el in batch;
      ghost var gone := DispatchOne(el, hup);
    }

    lemma NotTwice(batch: seq<Slot?>, i: nat)
      requires OnceEach(batch) && i < |batch| && batch[i] != null
      ensures forall j :: 0 <= j < |batch| && j != i ==> batch[j] != batch[i]
    {
    }

    lemma HandledAtFirst(batch: seq<Slot?>, hups: seq<bool>)
      requires Valid() && |hups| == |batch|
      requires forall j :: 0 <= j < |batch| && batch[j] != null ==> batch[j] in slots
      ensures Handled(batch, hups, 0, BatchTracks(batch))
    {
    }

    lemma UntouchedAtFirst(others: seq<Slot>)
      requires Valid() && forall s :: s in others ==> s in slots
      ensures Untouched(others, Tracks(others))
    {
    }

    /**
     What a round does to a slot: it is timed out and shut down; or it has no event and nothing
     happens to it; or its callback is called once, unless the other side hung up, and it is
     shut down if that was so or the callback said so.
     */
    ghost predicate Fate(s: Slot, was: Track, batch: seq<Slot?>, hups: seq<bool>, ctime: int)
      requires |hups| == |batch|
      reads this, s
    {
      if was.limit <= ctime then
        s.freed && s.shutdowns == was.shutdowns + 1 && s.calls == was.calls && s !in slots
      else if s !in batch then
        !s.freed && s.shutdowns == was.shutdowns && s.calls == was.calls && s.timeoutLimit == was.limit && s in slots
      else
        var hup := hups[EventOf(batch, s)];
        && s.calls == was.calls + (if hup then 0 else 1)
        && s.freed == (hup || s.result < 0)
        && s.shutdowns == was.shutdowns + (if s.freed then 1 else 0)
        && (s in slots <==> !s.freed)
    }

    /** The sweep, and what it leaves for the dispatch. */
    method SweepRound(events: array<Slot?>, nfds: nat, ctime: int, ghost orig: seq<Slot>, ghost was: seq<Track>,
                      ghost batch: seq<Slot?>)
      returns (ghost others: seq<Slot>)
      requires Valid() && nfds <= events.Length && orig == slots && Marked(orig, was, Marks(orig))
      requires batch == events[..nfds]
      requires OnceEach(batch) && Registered(batch, orig)
      modifies this`head, this`slots, this`stop, slots`next, slots`freed, slots`shutdowns, events
      ensures Valid() && (old(stop) ==> stop) && OnceEach(events[..nfds])
      ensures Registered(events[..nfds], slots) && Elsewhere(others, slots, events[..nfds]) && Within(slots, orig)
      ensures Begun(orig, was, ctime, batch, others, Tracks(others), events[..nfds], BatchTracks(events[..nfds]))
      ensures Shut(orig, was, ctime)
    {
      ghost var all, marks := events[..], Marks(slots);
      hide Valid, Live, Tracks, BatchTracks, Marks, Marked, Ignored, OnceEach, Accounted, Begun;
      hide Shut, Registered, Elsewhere, Within, Outside;
      Sweep(events, nfds, ctime);
      others := Outside(slots, events[..nfds]);
      ghost var rest := events[..nfds];
      Begins(events, nfds, orig, was, marks, ctime, others, rest, batch, all);
    }

    /** The timed-out slots are out of the list, shut down once, freed, and have not been called. */
    ghost predicate Shut(orig: seq<Slot>, was: seq<Track>, ctime: int)
      requires |was| == |orig|
      reads this, orig
    {
      forall q :: 0 <= q < |orig| && was[q].limit <= ctime ==>
        orig[q].freed && orig[q].shutdowns == was[q].shutdowns + 1 && orig[q].calls == was[q].calls && orig[q] !in slots
    }

    /**
     One turn of the loop of `onion_poller_poll`: what the wait reported, in any order, is
     handled after the timed-out slots have been removed.
     */
    method Round(events: array<Slot?>, nfds: nat, hups: seq<bool>, ctime: int)
      requires Valid() && nfds <= events.Length && |hups| == nfds && OnceEach(events[..nfds])
      requires Registered(events[..nfds], slots)
      modifies this, slots, events
      ensures Valid() && (old(stop) ==> stop)
      ensures forall q :: 0 <= q < |old(slots)| ==>
        Fate(old(slots)[q], old(Tracks(slots))[q], old(events[..nfds]), hups, ctime)
      ensures forall s :: s in slots ==> s in old(slots) || fresh(s)
    {
      hide Valid, OnceEach, Tracks, BatchTracks, Begun, Registered, Elsewhere;
      ghost var orig, was, batch := slots, Tracks(slots), events[..nfds];
      AtFirst(was, Marks(slots));
      hide Marks, Marked;
      ghost var others := SweepRound(events, nfds, ctime, orig, was, batch);
      ghost var live, rest, tracks, ranks := slots, events[..nfds], Tracks(others), BatchTracks(events[..nfds]);
      label After:
      Dispatch(events, nfds, hups, others);
      hide Handled, Untouched;
      forall q | 0 <= q < |orig| && was[q].limit <= ctime
        ensures orig[q].freed && orig[q].shutdowns == was[q].shutdowns + 1 && orig[q].calls == was[q].calls
        ensures orig[q] !in slots
      {
        assert orig[q] !in live && old@After(orig[q].freed);
      }
      forall q | 0 <= q < |orig| ensures Fate(orig[q], was[q], batch, hups, ctime) {
        if was[q].limit > ctime {
          FateIs(orig, was, ctime, others, tracks, rest, ranks, batch, hups, q);
        } else {
          assert orig[q].freed;
        }
      }
    }

    lemma AtFirst(was: seq<Track>, marks: seq<Mark>)
      requires Valid() && was == Tracks(slots) && marks == Marks(slots)
      ensures Marked(slots, was, marks)
    {
    }

    /** What the dispatch starts from is what the round started from, and the timed-out slots are done with. */
    lemma Begins(events: array<Slot?>, nfds: nat, orig: seq<Slot>, was: seq<Track>, marks: seq<Mark>, ctime: int,
                 others: seq<Slot>, rest: seq<Slot?>, batch: seq<Slot?>, all: seq<Slot?>)
      requires nfds <= events.Length == |all| && rest == events[..nfds] && batch == all[..nfds]
      requires Marked(orig, was, marks) && Accounted(orig, |orig|, ctime, marks)
      requires slots == Live(orig, ctime) && others == Outside(slots, rest)
      requires Ignored(events, nfds, all, orig, |orig|, ctime)
      requires OnceEach(batch) && Registered(batch, orig)
      ensures Begun(orig, was, ctime, batch, others, Tracks(others), rest, BatchTracks(rest))
      ensures Shut(orig, was, ctime) && OnceEach(rest)
      ensures Registered(rest, slots) && Elsewhere(others, slots, rest) && Within(slots, orig)
    {
      hide Marked, Accounted, OnceEach, Outside, Live, Begun, Shut, Tracks, BatchTracks;
      AfterSweep(events, nfds, all, orig, ctime);
      OutsideIs(slots, rest);
      SameRecords(orig, was, marks, ctime, batch, others, rest, all);
      DoneWith(orig, was, marks, ctime);
    }

    lemma DoneWith(orig: seq<Slot>, was: seq<Track>, marks: seq<Mark>, ctime: int)
      requires Marked(orig, was, marks) && Accounted(orig, |orig|, ctime, marks) && slots == Live(orig, ctime)
      ensures Shut(orig, was, ctime)
    {
      LiveIs(orig, ctime);
    }

    lemma SameRecords(orig: seq<Slot>, was: seq<Track>, marks: seq<Mark>, ctime: int, batch: seq<Slot?>,
                      others: seq<Slot>, rest: seq<Slot?>, all: seq<Slot?>)
      requires Marked(orig, was, marks) && Accounted(orig, |orig|, ctime, marks)
      requires |rest| == |batch| <= |all| && batch == all[..|batch|]
      requires forall j :: 0 <= j < |rest| && all[j] != null && all[j].timeoutLimit > ctime ==> rest[j] == all[j]
      requires forall s :: s in orig && s.timeoutLimit > ctime && s !in rest ==> s in others
      requires forall j :: 0 <= j < |rest| ==> rest[j] == null || rest[j] == all[j]
      ensures Begun(orig, was, ctime, batch, others, Tracks(others), rest, BatchTracks(rest))
    {
      forall q, j | 0 <= q < |orig| && 0 <= j < |batch| && was[q].limit > ctime && batch[j] == orig[q]
        ensures rest[j] == orig[q]
      {
        assert all[j] == orig[q];
      }
      forall q | 0 <= q < |orig| && was[q].limit > ctime && orig[q] !in batch
        ensures orig[q] in others
      {
        assert forall j :: 0 <= j < |rest| && rest[j] != null ==> rest[j] == batch[j];
      }
    }

    lemma FateIs(orig: seq<Slot>, was: seq<Track>, ctime: int, others: seq<Slot>, tracks: seq<Track>,
                 rest: seq<Slot?>, ranks: seq<Track>, batch: seq<Slot?>, hups: seq<bool>, q: nat)
      requires q < |orig| == |was| && was[q].limit > ctime && |batch| == |rest| == |hups|
      requires |tracks| == |others| && |ranks| == |rest| && Begun(orig, was, ctime, batch, others, tracks, rest, ranks)
      requires Handled(rest, hups, |rest|, ranks) && Untouched(others, tracks)
      ensures Fate(orig[q], was[q], batch, hups, ctime)
    {
      var s := orig[q];
      if s in batch {
        var j := EventOf(batch, s);
        assert rest[j] == s;
      } else {
        var j :| 0 <= j < |others| && others[j] == s;
      }
    }

    lemma AfterSweep(events: array<Slot?>, nfds: nat, batch: seq<Slot?>, orig: seq<Slot>, ctime: int)
      requires nfds <= events.Length == |batch| && OnceEach(batch[..nfds])
      requires Registered(batch[..nfds], orig)
      requires slots == Live(orig, ctime) && Ignored(events, nfds, batch, orig, |orig|, ctime)
      ensures OnceEach(events[..nfds])
      ensures forall j :: 0 <= j < nfds && events[j] != null ==> events[j] in slots
      ensures forall j :: 0 <= j < nfds && batch[j] != null && batch[j].timeoutLimit > ctime ==> events[j] == batch[j]
      ensures forall s :: s in slots ==> s in orig && s.timeoutLimit > ctime
      ensures forall s :: s in orig && s.timeoutLimit > ctime ==> s in slots
    {
      assert orig[..|orig|] == orig;
      LiveIs(orig, ctime);
    }
  }

  ghost predicate Marked(s: seq<Slot>, was: seq<Track>, marks: seq<Mark>)
    reads s`calls, s`timeoutLimit
  {
    && |was| == |marks| == |s|
    && forall q :: 0 <= q < |s| ==>
      marks[q] == Mark(false, was[q].shutdowns) && was[q].calls == s[q].calls && was[q].limit == s[q].timeoutLimit
  }

  /** The slots that are left have kept their events, and their records agree with those of the round. */
  ghost predicate Begun(orig: seq<Slot>, was: seq<Track>, ctime: int, batch: seq<Slot?>, others: seq<Slot>,
    tracks: seq<Track>,
                        rest: seq<Slot?>, ranks: seq<Track>)
    requires |was| == |orig| && |tracks| == |others| && |ranks| == |rest| == |batch|
  {
    && (forall q, j :: 0 <= q < |orig| && 0 <= j < |others| && was[q].limit > ctime && orig[q] == others[j] ==>
      tracks[j] == was[q])
    && (forall q, j :: 0 <= q < |orig| && 0 <= j < |rest| && was[q].limit > ctime && orig[q] == rest[j] ==>
      ranks[j] == was[q])
    && (forall q, j :: 0 <= q < |orig| && 0 <= j < |batch| && was[q].limit > ctime && batch[j] == orig[q] ==>
      rest[j] == orig[q])
    && (forall q :: 0 <= q < |orig| && was[q].limit > ctime && orig[q] !in batch ==> orig[q] in others)
  }

  /** The events point into the list. */
  ghost predicate Registered(batch: seq<Slot?>, s: seq<Slot>) {
    forall j :: 0 <= j < |batch| && batch[j] != null ==> batch[j] in s
  }

  ghost predicate Elsewhere(others: seq<Slot>, s: seq<Slot>, batch: seq<Slot?>) {
    forall x :: x in others ==> x in s && x !in batch
  }

  ghost predicate Within(s: seq<Slot>, t: seq<Slot>) {
    forall x :: x in s ==> x in t
  }

  /** Where a slot is in the batch. */
  function EventOf(batch: seq<Slot?>, s: Slot): (j: nat)
    requires s in batch
    ensures j < |batch| && batch[j] == s
  {
    if batch[0] == s then 0 else 1 + EventOf(batch[1..], s)
  }

  /** The slots that have no event. */
  ghost function Outside(s: seq<Slot>, batch: seq<Slot?>): seq<Slot> {
    if s == [] then [] else Outside(s[..|s| - 1], batch) + if s[|s| - 1] in batch then [] else [s[|s| - 1]]
  }

  lemma {:induction false} OutsideIs(s: seq<Slot>, batch: seq<Slot?>)
    ensures forall x :: x in Outside(s, batch) <==> x in s && x !in batch
  {
    if s == [] {
    } else {
      OutsideIs(s[..|s| - 1], batch);
    }
  }

  /** What was known of a slot when the batch was begun. */
  datatype Track = Track(calls: nat, shutdowns: nat, limit: int)

  ghost function Tracks(s: seq<Slot>): (m: seq<Track>)
    reads s
    ensures |m| == |s|
  {
    seq(|s|, i requires 0 <= i < |s| reads s => Track(s[i].calls, s[i].shutdowns, s[i].timeoutLimit))
  }

  ghost function BatchTracks(s: seq<Slot?>): (m: seq<Track>)
    reads s
    ensures |m| == |s|
  {
    seq(|s|, i requires 0 <= i < |s| reads s =>
      if s[i] == null then Track(0, 0, 0) else Track(s[i].calls, s[i].shutdowns, s[i].timeoutLimit))
  }

  /** A descriptor is reported once in a batch. */
  ghost predicate OnceEach(batch: seq<Slot?>) {
    forall i, j :: 0 <= i < j < |batch| && batch[i] != null ==> batch[i] != batch[j]
  }

  /** What was known of a slot's memory when the round began. */
  datatype Mark = Mark(freed: bool, shutdowns: nat)

  ghost function Marks(s: seq<Slot>): (m: seq<Mark>)
    reads s
    ensures |m| == |s|
  {
    seq(|s|, i requires 0 <= i < |s| reads s => Mark(s[i].freed, s[i].shutdowns))
  }

  /** Of the first `k` slots the timed-out ones have been shut down once and freed; all the others are as they were. */
  ghost predicate Accounted(s: seq<Slot>, k: nat, ctime: int, was: seq<Mark>)
    reads s`timeoutLimit, s`freed, s`shutdowns
  {
    && |was| == |s|
    && forall j :: 0 <= j < |s| ==>
      Mark(s[j].freed, s[j].shutdowns) ==
        if j < k && s[j].timeoutLimit <= ctime then Mark(true, was[j].shutdowns + 1) else was[j]
  }

  /** The batch has lost exactly its events of the timed-out ones among the first `k` slots. */
  ghost predicate Ignored(events: array<Slot?>, nfds: nat, batch: seq<Slot?>, s: seq<Slot>, k: nat, ctime: int)
    reads events, s`timeoutLimit
  {
    && k <= |s| && |batch| == events.Length && nfds <= events.Length
    && forall i :: 0 <= i < |batch| ==>
      events[i] == if i < nfds && batch[i] in s[..k] && batch[i].timeoutLimit <= ctime then null else batch[i]
  }

  /** The slots whose time has not come. */
  ghost function Live(s: seq<Slot>, ctime: int): seq<Slot>
    reads s`timeoutLimit
  {
    if s == [] then []
    else Live(s[..|s| - 1], ctime) + if s[|s| - 1].timeoutLimit > ctime then [s[|s| - 1]] else []
  }

  lemma {:induction false} LiveIs(s: seq<Slot>, ctime: int)
    ensures forall x :: x in Live(s, ctime) <==> x in s && x.timeoutLimit > ctime
  {
    if s == [] {
    } else {
      LiveIs(s[..|s| - 1], ctime);
    }
  }

  lemma LiveStep(orig: seq<Slot>, k: nat, ctime: int)
    requires k < |orig|
    ensures Live(orig[..k + 1], ctime) == Live(orig[..k], ctime) +
            if orig[k].timeoutLimit > ctime then [orig[k]] else []
    ensures orig[k..] == [orig[k]] + orig[k + 1..]
  {
    assert orig[..k + 1][..k] == orig[..k];
  }

  /** The place of the slot with this descriptor, or the end. */
  function IndexOf(s: seq<Slot>, fd: int): (i: nat)
    ensures i <= |s| && (i < |s| ==> s[i].fd == fd) && forall k :: 0 <= k < i ==> s[k].fd != fd
  {
    if s == [] || s[0].fd == fd then 0 else 1 + IndexOf(s[1..], fd)
  }

  /** The slot with this descriptor, if there is one. */
  ghost function Target(s: seq<Slot>, fd: int): set<Slot> {
    if IndexOf(s, fd) < |s| then {s[IndexOf(s, fd)]} else {}
  }

  lemma IndexIs(s: seq<Slot>, fd: int, i: nat)
    requires i <= |s| && (i < |s| ==> s[i].fd == fd) && forall k :: 0 <= k < i ==> s[k].fd != fd
    ensures IndexOf(s, fd) == i
  {
  }

  lemma AfterIs(s: seq<Slot>, k: nat)
    requires k < |s|
    ensures After(s, k) == null <==> k + 1 == |s|
    ensures k + 1 < |s| ==> After(s, k) == s[k + 1]
  {
  }

  lemma ByDescriptor(s: seq<Slot>, k: nat)
    requires Distinct(s) && k < |s|
    ensures forall x :: x in s && x.fd != s[k].fd ==> x != s[k]
    ensures k == 0 ==> Without(s, k) == s[1..]
  {
  }
}
