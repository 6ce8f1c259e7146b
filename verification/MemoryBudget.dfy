/** One byte budget shared by every holder of pixels: reserve, shrink and drop. */
module MemoryAccounting {
  import opened Options

  const U64_MAX: nat := 0xFFFF_FFFF_FFFF_FFFF

  datatype Usage = Usage(current: nat, peak: nat)

  function Max(a: nat, b: nat): nat {
    if a < b then b else a
  }

  /** Saturating test against the cap, then a 64-bit addition. */
  function Reserved(cap: nat, u: Usage, bytes: nat): Option<Usage> {
    var required := if u.current + bytes > U64_MAX then U64_MAX else u.current + bytes;
    if required > cap then None
    else
      var now := (u.current + bytes) % (U64_MAX + 1);
      Some(Usage(now, Max(u.peak, now)))
  }

  /** A reservation is exact and stays under the cap unless the cap is the largest 64-bit
      number and the sum passes it: there the saturated test passes and the sum wraps. */
  lemma ReserveIsExact(cap: nat, u: Usage, bytes: nat)
    requires u.current <= cap <= U64_MAX
    ensures (match Reserved(cap, u, bytes)
             case Some(v) => v.current == u.current + bytes <= cap && v.peak == Max(u.peak, v.current)
             case None => u.current + bytes > cap)
       <==> !(cap == U64_MAX && u.current + bytes > U64_MAX)
  {
    assert (u.current + bytes) % (U64_MAX + 1) <= U64_MAX;
  }

  /** There a sum of at least 2 to the 64th wraps. */
  lemma ReserveWraps(u: Usage, bytes: nat)
    requires u.current < 0x1_0000_0000_0000_0000 <= u.current + bytes < 0x2_0000_0000_0000_0000
    ensures forall cap: nat :: cap < 0xFFFF_FFFF_FFFF_FFFF ==> Reserved(cap, u, bytes) == None
    ensures var wrapped := u.current + bytes - 0x1_0000_0000_0000_0000;
      Reserved(0xFFFF_FFFF_FFFF_FFFF, u, bytes) == Some(Usage(wrapped, Max(u.peak, wrapped)))
  {
  }

  /** Sum of the sizes of the live reservations. */
  ghost function Total(live: multiset<nat>): nat
    decreases |live|
  {
    if live == multiset{} then 0
    else var bytes :| bytes in live; bytes + Total(live - multiset{bytes})
  }

  lemma {:induction false} TotalRemove(live: multiset<nat>, bytes: nat)
    requires bytes in live
    ensures Total(live) == bytes + Total(live - multiset{bytes})
    decreases |live|
  {
    hide Total;
    var first := TotalStep(live);
    if first != bytes {
      TotalRemove(live - multiset{first}, bytes);
      TotalRemove(live - multiset{bytes}, first);
      assert live - multiset{first} - multiset{bytes} == live - multiset{bytes} - multiset{first};
    }
  }

  lemma TotalStep(live: multiset<nat>) returns (first: nat)
    requires live != multiset{}
    ensures first in live && Total(live) == first + Total(live - multiset{first})
  {
    first :| first in live && Total(live) == first + Total(live - multiset{first});
  }

  lemma TotalAdd(live: multiset<nat>, bytes: nat)
    ensures Total(live + multiset{bytes}) == Total(live) + bytes
  {
    TotalRemove(live + multiset{bytes}, bytes);
    assert live + multiset{bytes} - multiset{bytes} == live;
  }

  class MemoryBudget {
    const cap: nat
    var current: nat
    var peak: nat
    /** Sizes of the reservations that have been handed out and not dropped. */
    ghost var live: multiset<nat>

    ghost predicate Valid()
      reads this
    {
      current == Total(live) <= cap < U64_MAX && current <= peak <= cap
    }

    constructor (cap: nat)
      requires cap < U64_MAX
      ensures Valid() && this.cap == cap && live == multiset{} && peak == 0
    {
      this.cap := cap;
      current, peak := 0, 0;
      live := multiset{};
    }

    /** Never waits: a reservation over the cap is refused and changes nothing. */
    method Reserve(bytes: nat) returns (ok: bool)
      requires Valid()
      modifies this
      ensures Valid()
      ensures ok <==> old(current) + bytes <= cap
      ensures live == if ok then old(live) + multiset{bytes} else old(live)
      ensures current == if ok then old(current) + bytes else old(current)
      ensures peak == if ok then Max(old(peak), current) else old(peak)
    {
      ReserveIsExact(cap, Usage(current, peak), bytes);
      TotalAdd(live, bytes);
      var reserved := Reserved(cap, Usage(current, peak), bytes);
      ok := reserved.Some?;
      if ok {
        current, peak := reserved.value.current, reserved.value.peak;
        live := live + multiset{bytes};
      }
    }

    /** Gives back part of one reservation. */
    method Shrink(from: nat, to: nat)
      requires Valid() && from in live && to <= from
      modifies this
      ensures Valid()
      ensures live == old(live) - multiset{from} + multiset{to}
      ensures current == old(current) - (from - to) && peak == old(peak)
    {
      TotalRemove(live, from);
      TotalAdd(live - multiset{from}, to);
      current := current - (from - to);
      live := live - multiset{from} + multiset{to};
    }

    /** Ends one reservation. */
    method Drop(bytes: nat)
      requires Valid() && bytes in live
      modifies this
      ensures Valid()
      ensures live == old(live) - multiset{bytes}
      ensures current == old(current) - bytes && peak == old(peak)
    {
      TotalRemove(live, bytes);
      current := current - bytes;
      live := live - multiset{bytes};
    }

    method Available() returns (bytes: nat)
      requires Valid()
      ensures bytes == cap - Total(live)
    {
      bytes := cap - current;
    }
  }
}
