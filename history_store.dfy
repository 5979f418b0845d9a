/**
 * The bounded, newest-first log of Transfer events and its address filter
 * (api/src/token/history.store.ts).
 *
 * The pure functions `Pushed`, `PushAll` and `Involving` specify what the
 * store does; the class `HistoryStore` holds the mutable `items` field and is
 * proved against them.
 */
module History {
  import opened Wrappers

  /** One observed transfer. `value` is the amount as a decimal string, never a native number. */
  datatype TransferEvent = TransferEvent(
    txHash: string,
    from: string,
    to: string,
    value: string,
    blockNumber: nat)

  /** Capacity used when no HISTORY_LIMIT is configured. */
  const DefaultLimit: nat := 200

  function Min(a: int, b: int): int { if a <= b then a else b }

  // ---------------------------------------------------------------------------
  // Case-insensitive address comparison
  // ---------------------------------------------------------------------------

  /** `toLowerCase` on one character, for the ASCII letters that hexadecimal addresses use. */
  function LowerChar(c: char): char {
    if 'A' <= c <= 'Z' then (c as int + 32) as char else c
  }

  /**
   * `toLowerCase` on a string: the same length, each upper-case ASCII letter
   * becomes its lower-case partner, and every other character is kept.
   */
  function Lower(s: string): (r: string)
    ensures |r| == |s|
    ensures forall i :: 0 <= i < |s| && 'A' <= s[i] <= 'Z' ==> r[i] as int == s[i] as int + 32
    ensures forall i :: 0 <= i < |r| ==> !('A' <= r[i] <= 'Z')
    ensures forall i :: 0 <= i < |s| && !('A' <= s[i] <= 'Z') ==> r[i] == s[i]
  {
    seq(|s|, i requires 0 <= i < |s| => LowerChar(s[i]))
  }

  /** Two addresses are the same when they agree after lower-casing. */
  predicate SameAddress(x: string, y: string) {
    Lower(x) == Lower(y)
  }

  /** The event has `address` as its sender or its recipient, ignoring case. */
  predicate Involves(ev: TransferEvent, address: string) {
    SameAddress(ev.from, address) || SameAddress(ev.to, address)
  }

  // ---------------------------------------------------------------------------
  // push: insert at the front, trim to the capacity
  // ---------------------------------------------------------------------------

  /**
   * The store after pushing `ev`: the event is at the front, the length is the
   * old length plus one capped at `limit`, and behind the new event come the
   * old entries in their old order with only the oldest ones dropped.
   */
  function Pushed(items: seq<TransferEvent>, ev: TransferEvent, limit: nat): (r: seq<TransferEvent>)
    requires 1 <= limit
    ensures |r| == Min(|items| + 1, limit)
    ensures r[0] == ev
    ensures r[1..] == items[..|r| - 1]
  {
    var front := [ev] + items;
    if |front| > limit then front[..limit] else front
  }

  /** The store after pushing every event of `evs`, first to last. */
  function PushAll(items: seq<TransferEvent>, evs: seq<TransferEvent>, limit: nat): seq<TransferEvent>
    requires 1 <= limit
    decreases |evs|
  {
    if evs == [] then items
    else Pushed(PushAll(items, evs[..|evs| - 1], limit), evs[|evs| - 1], limit)
  }

  /** `s` from last to first. */
  function Reversed<T>(s: seq<T>): (r: seq<T>)
    ensures |r| == |s|
    ensures forall k :: 0 <= k < |s| ==> r[k] == s[|s| - 1 - k]
  {
    if s == [] then [] else [s[|s| - 1]] + Reversed(s[..|s| - 1])
  }

  /** The first `n` entries of `s`, or all of `s` when it is shorter. */
  function Newest<T>(s: seq<T>, n: nat): (r: seq<T>)
    ensures |r| == Min(|s|, n)
    ensures forall k :: 0 <= k < |r| ==> r[k] == s[k]
  {
    s[..Min(|s|, n)]
  }

  /**
   * Bounded capacity: after any run of pushes the store holds exactly the
   * `limit` most recently pushed events (then the older entries, while room
   * is left), most recent first. The order is the order of insertion; block
   * numbers play no part.
   */
  lemma {:induction false} PushAllWindow(items: seq<TransferEvent>, evs: seq<TransferEvent>, limit: nat)
    requires 1 <= limit && |items| <= limit
    ensures PushAll(items, evs, limit) == Newest(Reversed(evs) + items, limit)
    decreases |evs|
  {
    if evs == [] {
      assert Reversed(evs) + items == items;
    } else {
      var n := |evs|;
      var init, e := evs[..n - 1], evs[n - 1];
      PushAllWindow(items, init, limit);
      var w := Newest(Reversed(init) + items, limit);
      assert PushAll(items, evs, limit) == Pushed(w, e, limit);
      assert Reversed(evs) == [e] + Reversed(init);
      var all := Reversed(evs) + items;
      assert all == [e] + (Reversed(init) + items);
      var r := Pushed(w, e, limit);
      assert |r| == Min(|all|, limit);
      forall k | 0 <= k < |r|
        ensures r[k] == all[k]
      {
        if k > 0 {
          assert r[k] == r[1..][k - 1] == w[k - 1];
        }
      }
    }
  }

  /** After pushing a non-empty batch, the last event of the batch is at index 0. */
  lemma LastPushedIsFirst(items: seq<TransferEvent>, evs: seq<TransferEvent>, limit: nat)
    requires 1 <= limit && |items| <= limit
    requires evs != []
    ensures PushAll(items, evs, limit)[0] == evs[|evs| - 1]
  {
    PushAllWindow(items, evs, limit);
  }

  /** The capacity is never exceeded: the length is the number of entries seen, capped at `limit`. */
  lemma PushAllLength(items: seq<TransferEvent>, evs: seq<TransferEvent>, limit: nat)
    requires 1 <= limit && |items| <= limit
    ensures |PushAll(items, evs, limit)| == Min(|items| + |evs|, limit) <= limit
  {
    PushAllWindow(items, evs, limit);
  }

  /** Number of entries that carry transaction hash `h`. */
  function CountTx(items: seq<TransferEvent>, h: string): nat {
    if items == [] then 0
    else (if items[0].txHash == h then 1 else 0) + CountTx(items[1..], h)
  }

  /**
   * No deduplication: pushing an event whose transaction hash is already
   * stored adds a second entry for that hash whenever nothing is evicted, and
   * at capacity the hash is still present at the front.
   */
  lemma PushKeepsDuplicates(items: seq<TransferEvent>, ev: TransferEvent, limit: nat)
    requires 1 <= limit
    ensures |items| < limit ==> CountTx(Pushed(items, ev, limit), ev.txHash) == CountTx(items, ev.txHash) + 1
    ensures CountTx(Pushed(items, ev, limit), ev.txHash) >= 1
  {
    var r := Pushed(items, ev, limit);
    assert r[0] == ev;
    if |items| < limit {
      assert r == [ev] + items;
      assert r[1..] == items;
    }
  }

  // ---------------------------------------------------------------------------
  // list: the case-insensitive address filter
  // ---------------------------------------------------------------------------

  /**
   * The entries of `items` that involve `address`, in store order: every
   * returned entry is stored and involves the address, every stored entry
   * that involves it is returned, and the result is empty exactly when no
   * entry involves it.
   */
  function Involving(items: seq<TransferEvent>, address: string): (r: seq<TransferEvent>)
    ensures |r| <= |items|
    ensures forall k :: 0 <= k < |r| ==> r[k] in items && Involves(r[k], address)
    ensures forall i :: 0 <= i < |items| && Involves(items[i], address) ==> items[i] in r
    ensures r == [] <==> forall i :: 0 <= i < |items| ==> !Involves(items[i], address)
  {
    if items == [] then []
    else
      var rest := Involving(items[1..], address);
      assert forall e :: e in items[1..] ==> e in items;
      assert forall i :: 1 <= i < |items| ==> items[i] == items[1..][i - 1];
      if Involves(items[0], address) then [items[0]] + rest else rest
  }

  /** For each stored entry, whether it involves `address`. */
  function InvolvesAt(items: seq<TransferEvent>, address: string): (marks: seq<bool>)
    ensures |marks| == |items|
    ensures forall i :: 0 <= i < |items| ==> (marks[i] <==> Involves(items[i], address))
  {
    seq(|items|, i requires 0 <= i < |items| => Involves(items[i], address))
  }

  /**
   * `r` is the subsequence of `s` at the strictly increasing positions `pos`,
   * and a position is among them exactly when it is marked.
   */
  ghost predicate SelectedAt<T>(s: seq<T>, r: seq<T>, pos: seq<nat>, marks: seq<bool>) {
    && |marks| == |s|
    && |pos| == |r|
    && (forall k :: 0 <= k < |pos| ==> pos[k] < |s| && r[k] == s[pos[k]])
    && (forall k, l :: 0 <= k < l < |pos| ==> pos[k] < pos[l])
    && (forall i :: 0 <= i < |s| ==> (i in pos <==> marks[i]))
  }

  /** Positions `rest` in `s[1..]`, each moved one place on, are positions in `s` past its front. */
  lemma ShiftPositions<T>(s: seq<T>, r: seq<T>, rest: seq<nat>, marks: seq<bool>)
    returns (shifted: seq<nat>)
    requires s != [] && |marks| == |s| && SelectedAt(s[1..], r, rest, marks[1..])
    ensures |shifted| == |r|
    ensures forall k :: 0 <= k < |shifted| ==> 1 <= shifted[k] < |s| && r[k] == s[shifted[k]]
    ensures forall k, l :: 0 <= k < l < |shifted| ==> shifted[k] < shifted[l]
    ensures forall i :: 1 <= i < |s| ==> (i in shifted <==> marks[i])
  {
    var tail := s[1..];
    shifted := seq(|rest|, k requires 0 <= k < |rest| => rest[k] + 1);
    forall k | 0 <= k < |shifted|
      ensures 1 <= shifted[k] < |s| && r[k] == s[shifted[k]]
    {
      assert s[rest[k] + 1] == tail[rest[k]];
    }
    forall i | 1 <= i < |s|
      ensures i in shifted <==> marks[i]
    {
      assert marks[i] == marks[1..][i - 1];
      if i in shifted {
        var k :| 0 <= k < |shifted| && shifted[k] == i;
        assert rest[k] == i - 1;
      }
      if marks[i] {
        assert i - 1 in rest;
        var k :| 0 <= k < |rest| && rest[k] == i - 1;
        assert shifted[k] == i;
      }
    }
  }

  /** A marked front entry is selected at position 0, ahead of the shifted rest. */
  lemma SelectFront<T>(s: seq<T>, r: seq<T>, shifted: seq<nat>, marks: seq<bool>)
    requires s != [] && |marks| == |s| && marks[0]
    requires |shifted| == |r|
    requires forall k :: 0 <= k < |shifted| ==> 1 <= shifted[k] < |s| && r[k] == s[shifted[k]]
    requires forall k, l :: 0 <= k < l < |shifted| ==> shifted[k] < shifted[l]
    requires forall i :: 1 <= i < |s| ==> (i in shifted <==> marks[i])
    ensures SelectedAt(s, [s[0]] + r, [0] + shifted, marks)
  {
    var pos, selected := [0] + shifted, [s[0]] + r;
    forall k | 0 <= k < |pos|
      ensures pos[k] < |s| && selected[k] == s[pos[k]]
    {
      if k > 0 {
        assert pos[k] == shifted[k - 1] && selected[k] == r[k - 1];
      }
    }
    forall k, l | 0 <= k < l < |pos|
      ensures pos[k] < pos[l]
    {
      assert pos[l] == shifted[l - 1];
      if k > 0 {
        assert pos[k] == shifted[k - 1];
      }
    }
    forall i | 0 <= i < |s|
      ensures i in pos <==> marks[i]
    {
      if i > 0 {
        assert i in pos <==> i in shifted;
      }
    }
  }

  /**
   * Filter exactness with order preserved: the filtered list is the
   * subsequence of `items` at strictly increasing positions, and a position
   * is among them exactly when its entry involves `address`.
   */
  lemma {:induction false} InvolvingPositions(items: seq<TransferEvent>, address: string) returns (pos: seq<nat>)
    ensures SelectedAt(items, Involving(items, address), pos, InvolvesAt(items, address))
  {
    if items == [] {
      pos := [];
    } else {
      var marks := InvolvesAt(items, address);
      var r := Involving(items[1..], address);
      var rest := InvolvingPositions(items[1..], address);
      assert marks[1..] == InvolvesAt(items[1..], address);
      var shifted := ShiftPositions(items, r, rest, marks);
      if marks[0] {
        SelectFront(items, r, shifted, marks);
        pos := [0] + shifted;
      } else {
        pos := shifted;
      }
    }
  }

  /** The query's own casing is irrelevant: two spellings of one address select the same entries. */
  lemma {:induction false} InvolvingIgnoresQueryCase(items: seq<TransferEvent>, a: string, b: string)
    requires SameAddress(a, b)
    ensures Involving(items, a) == Involving(items, b)
  {
    if items != [] {
      InvolvingIgnoresQueryCase(items[1..], a, b);
    }
  }

  // ---------------------------------------------------------------------------
  // The store itself
  // ---------------------------------------------------------------------------

  /** The history buffer: `items` is newest first and never longer than `limit`. */
  class HistoryStore {
    var items: seq<TransferEvent>
    const limit: nat

    ghost predicate Valid()
      reads this
    {
      1 <= limit && |items| <= limit
    }

    /** An empty store of capacity `limit` (HISTORY_LIMIT, or `DefaultLimit`). */
    constructor (limit: nat)
      requires 1 <= limit
      ensures Valid()
      ensures items == [] && this.limit == limit
    {
      items := [];
      this.limit := limit;
    }

    /** Puts `ev` in front of the stored events and trims the store to `limit`. */
    method Push(ev: TransferEvent)
      requires Valid()
      modifies this
      ensures Valid()
      ensures items == Pushed(old(items), ev, limit)
      ensures items[0] == ev && |items| == Min(|old(items)| + 1, limit)
      ensures items[1..] == old(items)[..|items| - 1]
    {
      var front := [ev] + items;
      if |front| > limit {
        front := front[..limit];
      }
      items := front;
    }

    /**
     * Without an address: every stored event, in store order. With one: the
     * stored events whose sender or recipient is that address, ignoring case,
     * in store order and with repeated entries kept (see `InvolvingPositions`).
     * Reading the store changes neither `items` nor `limit`.
     */
    function List(address: Option<string>): (r: seq<TransferEvent>)
      reads this
      ensures address.None? ==> r == items
      ensures address.Some? ==> r == Involving(items, address.value)
      ensures address.Some? ==>
        |r| <= |items| &&
        (forall e :: e in r ==> e in items && Involves(e, address.value)) &&
        (forall e :: e in items && Involves(e, address.value) ==> e in r)
    {
      match address
      case None => items
      case Some(a) => Involving(items, a)
    }
  }

  /**
   * With capacity 3, pushing E1, E2, E3, E4 in that order leaves [E4, E3, E2]:
   * the oldest push is evicted, whatever the block numbers say.
   */
  method EvictionScenario(e1: TransferEvent, e2: TransferEvent, e3: TransferEvent, e4: TransferEvent)
    returns (listed: seq<TransferEvent>)
    ensures listed == [e4, e3, e2]
  {
    var store := new HistoryStore(3);
    store.Push(e1);
    store.Push(e2);
    store.Push(e3);
    store.Push(e4);
    listed := store.List(None);
  }

  /**
   * Entries from "0xAA" to "0xBB" and from "0xCC" to "0xAA" are both listed
   * for the query "0xaa": either field may match, in any casing.
   */
  method CaseInsensitiveScenario(e1: TransferEvent, e2: TransferEvent)
    returns (listed: seq<TransferEvent>)
    requires e1.from == "0xAA" && e1.to == "0xBB"
    requires e2.from == "0xCC" && e2.to == "0xAA"
    ensures listed == [e2, e1]
  {
    var store := new HistoryStore(DefaultLimit);
    store.Push(e1);
    store.Push(e2);
    assert Lower("0xAA") == Lower("0xaa");
    listed := store.List(Some("0xaa"));
    assert store.items == [e2, e1];
    assert store.items[1..] == [e1];
  }
}
