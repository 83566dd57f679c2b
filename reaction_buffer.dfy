/**
 * The local reaction buffer: the ordered list of reactions shown on the
 * canvas, the time-window prune run by the 1000 ms tick, and the entries
 * appended by the emit tick and by a received peer event.
 */
module ReactionBuffer {
  import opened LiveTypes

  /** How long, in milliseconds, a reaction stays in the buffer. */
  const WindowMs: int := 4000

  /** One flying reaction: where it started, its emoji and its creation time in milliseconds. */
  datatype Reaction = Reaction(point: Point, value: string, timestamp: int)

  /** An entry survives a prune at `now` when it is strictly newer than `now - 4000`. */
  predicate Fresh(r: Reaction, now: int)
  {
    r.timestamp > now - WindowMs
  }

  /**
   * The prune: keeps the entries that are fresh at `now`, in their order and
   * unchanged, and drops every other entry.
   */
  function Prune(buf: seq<Reaction>, now: int): (kept: seq<Reaction>)
    ensures |kept| <= |buf|
    ensures forall i :: 0 <= i < |kept| ==> Fresh(kept[i], now)
  {
    if buf == [] then []
    else (if Fresh(buf[0], now) then [buf[0]] else []) + Prune(buf[1..], now)
  }

  /**
   * The prune keeps exactly the fresh entries: each fresh entry as many times
   * as it occurs in the buffer, and no other entry.
   */
  lemma {:induction false} PruneKeepsExactlyFresh(buf: seq<Reaction>, now: int)
    ensures forall e :: multiset(Prune(buf, now))[e] == if Fresh(e, now) then multiset(buf)[e] else 0
    ensures forall e :: e in Prune(buf, now) <==> e in buf && Fresh(e, now)
    decreases |buf|
  {
    if buf != [] {
      assert buf == [buf[0]] + buf[1..];
      PruneKeepsExactlyFresh(buf[1..], now);
    }
  }

  /** The entry a received event `{x, y, value}` adds, stamped with the time of receipt. */
  function FromEvent(e: BroadcastEvent, now: int): Reaction
  {
    Reaction(Point(e.x, e.y), e.value, now)
  }

  /** The event the emit tick broadcasts for the entry it appends locally. */
  function ToEvent(r: Reaction): BroadcastEvent
  {
    BroadcastEvent(r.point.x, r.point.y, r.value)
  }

  /**
   * A peer that receives a broadcast at the time it was emitted adds the
   * very entry the sender added locally; and an event survives the trip
   * into the buffer and back unchanged.
   */
  lemma EventRoundTrip(r: Reaction, e: BroadcastEvent, now: int)
    ensures FromEvent(ToEvent(r), r.timestamp) == r
    ensures ToEvent(FromEvent(e, now)) == e
  {
  }

  /** Pruning distributes over concatenation, so it preserves the order of what it keeps. */
  lemma {:induction false} PruneConcat(a: seq<Reaction>, b: seq<Reaction>, now: int)
    ensures Prune(a + b, now) == Prune(a, now) + Prune(b, now)
    decreases |a|
  {
    if a == [] {
      assert a + b == b;
    } else {
      assert (a + b)[0] == a[0];
      assert (a + b)[1..] == a[1..] + b;
      PruneConcat(a[1..], b, now);
    }
  }

  /** A buffer whose entries are all fresh is kept whole. */
  lemma {:induction false} PruneKeepsFresh(buf: seq<Reaction>, now: int)
    requires forall i :: 0 <= i < |buf| ==> Fresh(buf[i], now)
    ensures Prune(buf, now) == buf
    decreases |buf|
  {
    if buf != [] {
      PruneKeepsFresh(buf[1..], now);
    }
  }

  /** A prune at a later time subsumes an earlier one. */
  lemma {:induction false} PruneLater(buf: seq<Reaction>, earlier: int, later: int)
    requires earlier <= later
    ensures Prune(Prune(buf, earlier), later) == Prune(buf, later)
    decreases |buf|
  {
    if buf != [] {
      var head := if Fresh(buf[0], earlier) then [buf[0]] else [];
      PruneLater(buf[1..], earlier, later);
      PruneConcat(head, Prune(buf[1..], earlier), later);
      if Fresh(buf[0], earlier) {
        assert Prune(head, later) == (if Fresh(buf[0], later) then [buf[0]] else []) by {
          assert head[1..] == [];
        }
      }
    }
  }

  /** At a fixed time, pruning twice is pruning once. */
  lemma PruneIdempotent(buf: seq<Reaction>, now: int)
    ensures Prune(Prune(buf, now), now) == Prune(buf, now)
  {
    PruneLater(buf, now, now);
  }

  /**
   * An entry appended after the entries already present is pruned like them:
   * if it is fresh it stays, at the end, behind the surviving older entries.
   */
  lemma PruneAppend(buf: seq<Reaction>, e: Reaction, now: int)
    ensures Prune(buf + [e], now) == Prune(buf, now) + (if Fresh(e, now) then [e] else [])
  {
    PruneConcat(buf, [e], now);
    assert [e][1..] == [];
  }

  /**
   * An entry stamped at time `t` survives every prune before `t + 4000` and
   * no prune from `t + 4000` on.
   */
  lemma EntryLifetime(buf: seq<Reaction>, i: nat, now: int)
    requires i < |buf|
    ensures buf[i] in Prune(buf, now) <==> now < buf[i].timestamp + WindowMs
  {
    PruneKeepsExactlyFresh(buf, now);
  }
}
