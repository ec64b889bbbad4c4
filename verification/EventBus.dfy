/** The bounded event bus and its polling clients (runtime_events/src/event_bus.cpp). */
module EventStream {
  import opened Words
  import opened Domain

  datatype Note = Note(tsUnixMs: U64, kind: Text, message: Text, readerId: U32, doorId: U32, seqNo: U64,
                       allow: bool, reason: Text)

  datatype Event = Event(id: nat, note: Note)

  /** Everything ever pushed, numbered from 1. */
  function Stream(pushed: seq<Note>): (s: seq<Event>)
    ensures |s| == |pushed|
    ensures forall i :: 0 <= i < |s| ==> s[i] == Event(i + 1, pushed[i])
  {
    seq(|pushed|, i requires 0 <= i < |pushed| => Event(i + 1, pushed[i]))
  }

  /** How many of `n` pushed events a buffer of `capacity` has dropped; their ids are 1 to this number. */
  function Evicted(n: nat, capacity: nat): nat {
    if n <= capacity then 0 else n - capacity
  }

  /** A limit of 0 still returns one event. */
  function PageSize(limit: nat): nat {
    if limit == 0 then 1 else limit
  }

  function Later(a: nat, b: nat): nat {
    if a < b then b else a
  }

  /** The reply to a poll: the first events still held whose ids are above the cursor. */
  function Page(pushed: seq<Note>, capacity: nat, afterId: nat, limit: nat): seq<Event> {
    var n := |pushed|;
    var lo := Later(afterId, Evicted(n, capacity));
    if lo >= n then []
    else Stream(pushed)[lo..if lo + PageSize(limit) < n then lo + PageSize(limit) else n]
  }

  /** A page that is not empty is a stretch of the stream, right after the cursor or the evicted events. */
  lemma PageMeaning(pushed: seq<Note>, capacity: nat, afterId: nat, limit: nat)
    ensures
      var page, lo := Page(pushed, capacity, afterId, limit), Later(afterId, Evicted(|pushed|, capacity));
      page != [] ==>
        && lo + |page| <= |pushed| && page == Stream(pushed)[lo..lo + |page|]
        && (forall k :: 0 <= k < |page| ==> page[k] == Event(lo + k + 1, pushed[lo + k]))
  {
  }

  /**
    How much a page holds: every event that is still in the buffer and above the
    cursor, or the first `limit` of them (one, for a limit of 0), in order.
   */
  lemma PageIsFull(pushed: seq<Note>, capacity: nat, afterId: nat, limit: nat)
    ensures
      var page := Page(pushed, capacity, afterId, limit);
      var dropped := if |pushed| > capacity then |pushed| - capacity else 0;
      var first := if afterId > dropped then afterId + 1 else dropped + 1;
      var held := |pushed| - first + 1;
      && |page| == (if held <= 0 then 0 else if limit == 0 then 1 else if held <= limit then held else limit)
      && forall k :: 0 <= k < |page| ==> page[k].id == first + k && page[k].note == pushed[first + k - 1]
  {
    hide Page, Later, Evicted;
    PageLength(pushed, capacity, afterId, limit);
    PageNotes(pushed, capacity, afterId, limit);
    PageStart(|pushed|, capacity, afterId);
  }

  lemma PageStart(n: nat, capacity: nat, afterId: nat)
    ensures var dropped := if n > capacity then n - capacity else 0;
            Later(afterId, Evicted(n, capacity)) == if afterId > dropped then afterId else dropped
  {
  }

  lemma PageNotes(pushed: seq<Note>, capacity: nat, afterId: nat, limit: nat)
    ensures
      var page, lo := Page(pushed, capacity, afterId, limit), Later(afterId, Evicted(|pushed|, capacity));
      && (page != [] ==> lo + |page| <= |pushed|)
      && forall k :: 0 <= k < |page| ==> page[k].id == lo + 1 + k && page[k].note == pushed[lo + k]
  {
    PageMeaning(pushed, capacity, afterId, limit);
    hide Page, Later, Evicted, Stream;
  }

  lemma PageLength(pushed: seq<Note>, capacity: nat, afterId: nat, limit: nat)
    ensures
      var held := |pushed| - Later(afterId, Evicted(|pushed|, capacity));
      |Page(pushed, capacity, afterId, limit)| ==
      if held <= 0 then 0 else if limit == 0 then 1 else if held <= limit then held else limit
  {
    hide Later, Evicted;
  }

  // ---- a client that polls with the last id it received ----

  datatype Op = Push(note: Note) | Poll(limit: nat)

  datatype Client = Client(pushed: seq<Note>, cursor: nat, received: seq<Event>)

  function Polled(c: Client, capacity: nat, limit: nat): Client {
    var page := Page(c.pushed, capacity, c.cursor, limit);
    if page == [] then c else Client(c.pushed, page[|page| - 1].id, c.received + page)
  }

  function ClientRun(capacity: nat, ops: seq<Op>): Client {
    if ops == [] then Client([], 0, [])
    else
      var last := |ops| - 1;
      var c := ClientRun(capacity, ops[..last]);
      match ops[last]
      case Push(note) => Client(c.pushed + [note], c.cursor, c.received)
      case Poll(limit) => Polled(c, capacity, limit)
  }

  ghost predicate Increasing(es: seq<Event>) {
    forall i, j :: 0 <= i < j < |es| ==> es[i].id < es[j].id
  }

  /** Received ids rise, each is an event as it was pushed, and the cursor is the last of them. */
  ghost predicate Sound(c: Client) {
    && c.cursor <= |c.pushed|
    && Increasing(c.received)
    && forall i :: 0 <= i < |c.received| ==> Genuine(c, c.received[i])
  }

  predicate Genuine(c: Client, e: Event)
    requires c.cursor <= |c.pushed|
  {
    1 <= e.id <= c.cursor && e == Stream(c.pushed)[e.id - 1]
  }

  lemma IncreasingAppend(es: seq<Event>, page: seq<Event>, cursor: nat)
    requires Increasing(es) && Increasing(page)
    requires forall i :: 0 <= i < |es| ==> es[i].id <= cursor
    requires forall i :: 0 <= i < |page| ==> page[i].id > cursor
    ensures Increasing(es + page)
  {
  }

  lemma SoundPoll(c: Client, capacity: nat, limit: nat)
    requires Sound(c)
    ensures Sound(Polled(c, capacity, limit))
  {
    hide Page, Evicted;
    var page := Page(c.pushed, capacity, c.cursor, limit);
    PageMeaning(c.pushed, capacity, c.cursor, limit);
    if page != [] {
      var c' := Polled(c, capacity, limit);
      IncreasingAppend(c.received, page, c.cursor);
      forall i | 0 <= i < |c'.received|
        ensures Genuine(c', c'.received[i])
      {
        assert i < |c.received| ==> Genuine(c, c.received[i]);
      }
    }
  }

  /** A client gets every event at most once, in order, and as it was pushed. */
  lemma {:induction false} ReceivedInOrder(capacity: nat, ops: seq<Op>)
    ensures Sound(ClientRun(capacity, ops))
  {
    hide Sound;
    if ops != [] {
      var last := |ops| - 1;
      ReceivedInOrder(capacity, ops[..last]);
      var c := ClientRun(capacity, ops[..last]);
      match ops[last]
      case Push(note) => SoundPush(c, note);
      case Poll(limit) => SoundPoll(c, capacity, limit);
    } else {
      SoundAtFirst();
    }
  }

  lemma SoundAtFirst()
    ensures Sound(Client([], 0, []))
  {
  }

  lemma SoundPush(c: Client, note: Note)
    requires Sound(c)
    ensures Sound(Client(c.pushed + [note], c.cursor, c.received))
  {
    var c' := Client(c.pushed + [note], c.cursor, c.received);
    forall i | 0 <= i < |c.received|
      ensures Genuine(c', c.received[i])
    {
      assert Genuine(c, c.received[i]);
    }
  }

  ghost predicate HasId(es: seq<Event>, id: nat) {
    exists e :: e in es && e.id == id
  }

  /** At some poll of the run, `id` was still ahead of the cursor but already evicted. */
  ghost predicate EvictedBeforePoll(capacity: nat, ops: seq<Op>, id: nat) {
    exists k :: 0 <= k < |ops| && MissedAt(capacity, ops, k, id)
  }

  predicate MissedAt(capacity: nat, ops: seq<Op>, k: nat, id: nat)
    requires k < |ops|
  {
    var c := ClientRun(capacity, ops[..k]);
    ops[k].Poll? && c.cursor < id <= Evicted(|c.pushed|, capacity)
  }

  /** An id the cursor has passed was received, or had been evicted when a poll skipped it. */
  lemma {:induction false} MissedOnlyIfEvicted(capacity: nat, ops: seq<Op>, id: nat)
    requires 1 <= id <= ClientRun(capacity, ops).cursor
    ensures HasId(ClientRun(capacity, ops).received, id) || EvictedBeforePoll(capacity, ops, id)
  {
    hide Page;
    var last := |ops| - 1;
    var c := ClientRun(capacity, ops[..last]);
    if id <= c.cursor {
      MissedOnlyIfEvicted(capacity, ops[..last], id);
      if k :| 0 <= k < last && MissedAt(capacity, ops[..last], k, id) {
        assert ops[..last][..k] == ops[..k];
        assert MissedAt(capacity, ops, k, id);
      }
      if e :| e in c.received && e.id == id {
        assert e in ClientRun(capacity, ops).received;
      }
    } else {
      PageIds(c.pushed, capacity, c.cursor, ops[last].limit, id);
      if id <= Evicted(|c.pushed|, capacity) {
        assert MissedAt(capacity, ops, last, id);
      }
    }
  }

  /** A page holds every id above the cursor and the evicted ones, up to its own last. */
  lemma PageIds(pushed: seq<Note>, capacity: nat, cursor: nat, limit: nat, id: nat)
    ensures
      var page := Page(pushed, capacity, cursor, limit);
      page != [] && Later(cursor, Evicted(|pushed|, capacity)) < id <= page[|page| - 1].id ==> HasId(page, id)
  {
    var page := Page(pushed, capacity, cursor, limit);
    var lo := Later(cursor, Evicted(|pushed|, capacity));
    PageMeaning(pushed, capacity, cursor, limit);
    hide Page, Evicted;
    if page != [] && lo < id <= page[|page| - 1].id {
      var k := id - lo - 1;
      assert page[|page| - 1] == Event(lo + |page|, pushed[lo + |page| - 1]);
      assert page[k] == Event(id, pushed[lo + k]) && page[k] in page;
    }
  }

  /** Every poll came before the buffer dropped anything new to the client. */
  predicate InTime(capacity: nat, ops: seq<Op>) {
    ops == [] ||
    var last := |ops| - 1;
    InTime(capacity, ops[..last]) &&
    var c := ClientRun(capacity, ops[..last]);
    ops[last].Poll? ==> Evicted(|c.pushed|, capacity) <= c.cursor
  }

  /** A client that polls in time has received exactly the stream up to its cursor. */
  lemma {:induction false} InTimeLosesNothing(capacity: nat, ops: seq<Op>)
    requires InTime(capacity, ops)
    ensures var c := ClientRun(capacity, ops);
            c.cursor <= |c.pushed| && c.received == Stream(c.pushed)[..c.cursor]
  {
    hide Polled;
    if ops != [] {
      var last := |ops| - 1;
      InTimeLosesNothing(capacity, ops[..last]);
      var c := ClientRun(capacity, ops[..last]);
      match ops[last]
      case Push(note) =>
        assert Stream(c.pushed + [note])[..c.cursor] == Stream(c.pushed)[..c.cursor];
      case Poll(limit) => InTimePoll(c, capacity, limit);
    }
  }

  lemma InTimePoll(c: Client, capacity: nat, limit: nat)
    requires c.cursor <= |c.pushed| && c.received == Stream(c.pushed)[..c.cursor]
    requires Evicted(|c.pushed|, capacity) <= c.cursor
    ensures var c' := Polled(c, capacity, limit);
            c'.pushed == c.pushed && c'.cursor <= |c.pushed| && c'.received == Stream(c.pushed)[..c'.cursor]
  {
    hide Page, Evicted;
    PageMeaning(c.pushed, capacity, c.cursor, limit);
    var page := Page(c.pushed, capacity, c.cursor, limit);
    var all, n := Stream(c.pushed), c.cursor + |page|;
    assert page != [] ==> all[..c.cursor] + all[c.cursor..n] == all[..n];
  }

  /**
    The web page takes the bus's last id as its next cursor. Its poll shows
    every event still held exactly when those fit one page.
   */
  lemma LastIdCursorShowsAllExactly(pushed: seq<Note>, capacity: nat, cursor: nat, limit: nat)
    ensures
      var lo := Later(cursor, Evicted(|pushed|, capacity));
      (forall id :: lo < id <= |pushed| ==> HasId(Page(pushed, capacity, cursor, limit), id)) <==>
      |pushed| <= lo + PageSize(limit)
  {
    var n, lo := |pushed|, Later(cursor, Evicted(|pushed|, capacity));
    var page := Page(pushed, capacity, cursor, limit);
    if n > lo + PageSize(limit) {
      assert forall e :: e in page ==> e.id <= lo + PageSize(limit);
      assert !HasId(page, n);
    } else {
      forall id | lo < id <= n
        ensures HasId(page, id)
      {
        PageIds(pushed, capacity, cursor, limit, id);
      }
    }
  }
}

module EventBusObject {
  import opened EventStream

  class EventBus {
    const max: nat
    var events: seq<Event>
    var lastId: nat
    ghost var pushed: seq<Note>

    /** The buffer holds the consecutive ids ending at `lastId`, as many as fit. */
    ghost predicate Valid()
      reads this
    {
      && 1 <= max && lastId == |pushed|
      && events == Stream(pushed)[Evicted(lastId, max)..]
    }

    constructor (max: nat)
      requires 1 <= max
      ensures Valid() && pushed == [] && this.max == max
    {
      this.max := max;
      events, lastId := [], 0;
      pushed := [];
    }

    method Push(note: Note) returns (id: nat)
      requires Valid()
      modifies this
      ensures Valid() && pushed == old(pushed) + [note] && id == |pushed|
    {
      lastId := lastId + 1;
      if |events| >= max {
        events := events[1..];
      }
      events := events + [Event(lastId, note)];
      pushed := pushed + [note];
      return lastId;
    }

    method GetAfter(afterId: nat, limit: nat) returns (out: seq<Event>)
      requires Valid()
      ensures out == Page(pushed, max, afterId, limit)
    {
      hide Stream;
      out := [];
      ghost var all, base := Stream(pushed), Evicted(lastId, max);
      ghost var lo := Later(afterId, base);
      for i := 0 to |events|
        invariant |out| < PageSize(limit)
        invariant out == if base + i <= lo then [] else all[lo..base + i]
      {
        var e := events[i];
        assert e == all[base + i] && e.id == base + i + 1;
        if e.id > afterId {
          out := out + [e];
          assert out == all[lo..base + i + 1];
          if |out| >= limit {
            assert base + i + 1 == lo + PageSize(limit);
            return;
          }
        }
      }
    }
  }
}
