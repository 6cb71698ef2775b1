/**
 * The IP router: a table of routes, each a prefix of up to 32 bits with its length, an optional
 * next hop and an outgoing interface; a search for the route a destination address takes; and
 * the forwarding decision for one datagram (drop it, or send it with its TTL decremented).
 */
module Routing {
  import opened Common
  import opened NetworkInterfaces

  /** A route; the prefix is an unsigned 32-bit word and its length an unsigned 8-bit one. */
  datatype RouteEntry = RouteEntry(prefix: bv32, prefixLength: bv8, nextHop: Option<u32>, interfaceNum: nat)

  /** Whether `e` is the route for prefix `prefix` of length `prefixLength`. */
  predicate SameKey(e: RouteEntry, prefix: bv32, prefixLength: bv8) {
    e.prefix == prefix && e.prefixLength == prefixLength
  }

  /** The position of the route for (`prefix`, `prefixLength`) in `table`, or -1 when there is none. */
  function KeyIndex(table: seq<RouteEntry>, prefix: bv32, prefixLength: bv8): (k: int)
    ensures k == -1 <==> forall j | 0 <= j < |table| :: !SameKey(table[j], prefix, prefixLength)
    ensures k != -1 ==> 0 <= k < |table| && SameKey(table[k], prefix, prefixLength)
    ensures forall j | 0 <= j < k :: !SameKey(table[j], prefix, prefixLength)
  {
    if |table| == 0 then -1
    else if SameKey(table[0], prefix, prefixLength) then 0
    else
      var k := KeyIndex(table[1..], prefix, prefixLength);
      if k == -1 then -1 else k + 1
  }

  /** No two routes share a prefix and a length. */
  ghost predicate KeysUnique(table: seq<RouteEntry>) {
    forall i, j | 0 <= i < j < |table| :: !SameKey(table[i], table[j].prefix, table[j].prefixLength)
  }

  /** Every prefix length is at most 32, so that the mask of match is defined. */
  predicate LengthsInRange(table: seq<RouteEntry>) {
    forall i | 0 <= i < |table| :: table[i].prefixLength <= 32
  }

  /** The table after add_route(e): the route with e's key, if any, replaced in place; else e appended. */
  function Upsert(table: seq<RouteEntry>, e: RouteEntry): seq<RouteEntry> {
    var k := KeyIndex(table, e.prefix, e.prefixLength);
    if k == -1 then table + [e] else table[k := e]
  }

  /**
   * add_route is an upsert: afterwards the table holds `e` for its key, every route with another
   * key keeps its position and value, the table grows only when the key was new, and keys stay
   * unique.
   */
  lemma UpsertStoresRoute(table: seq<RouteEntry>, e: RouteEntry)
    requires KeysUnique(table)
    ensures var t := Upsert(table, e);
            && KeysUnique(t)
            && 0 <= KeyIndex(t, e.prefix, e.prefixLength) < |t| && t[KeyIndex(t, e.prefix, e.prefixLength)] == e
            && (forall i | 0 <= i < |table| && !SameKey(table[i], e.prefix, e.prefixLength) :: t[i] == table[i])
            && |t| == |table| + (if KeyIndex(table, e.prefix, e.prefixLength) == -1 then 1 else 0)
  {
    var t := Upsert(table, e);
    var k := KeyIndex(table, e.prefix, e.prefixLength);
    if k == -1 {
      assert t[|table|] == e;
    } else {
      assert t[k] == e;
    }
  }

  /** Adding routes whose lengths are at most 32 keeps every length at most 32. */
  lemma UpsertKeepsLengths(table: seq<RouteEntry>, e: RouteEntry)
    requires LengthsInRange(table) && e.prefixLength <= 32
    ensures LengthsInRange(Upsert(table, e))
  {
  }

  /** What add_route relies on: unique keys, and lengths in range, carry over to the upserted table. */
  lemma UpsertFacts(table: seq<RouteEntry>, e: RouteEntry)
    requires KeysUnique(table)
    ensures KeysUnique(Upsert(table, e))
    ensures LengthsInRange(table) && e.prefixLength <= 32 ==> LengthsInRange(Upsert(table, e))
  {
    UpsertStoresRoute(table, e);
    if LengthsInRange(table) && e.prefixLength <= 32 {
      UpsertKeepsLengths(table, e);
    }
  }

  // ---------------------------------------------------------------------------------------
  // matching

  /** The mask selecting the `len` high-order bits of an address, for 1 <= len <= 32. */
  function Mask(len: bv8): bv32
    requires 1 <= len <= 32
  {
    (0xFFFF_FFFF as bv32) << (32 - len)
  }

  /** Whether `p` and `a` agree under the mask of length `len`. */
  predicate MaskedEqual(p: bv32, a: bv32, len: bv8)
    requires 1 <= len <= 32
  {
    p & Mask(len) == a & Mask(len)
  }

  /** A route applies to an address when its length is 0 or its masked prefix equals the masked address. */
  predicate Matches(e: RouteEntry, address: bv32)
    requires e.prefixLength <= 32
  {
    e.prefixLength == 0 || MaskedEqual(e.prefix, address, e.prefixLength)
  }

  /** The mask has exactly the `len` high-order bits set. */
  lemma MaskHighBits(len: bv8, k: bv32)
    requires 1 <= len <= 32 && k < 32
    ensures (Mask(len) >> k) & 1 == 1 <==> k >= 32 - (len as bv32)
  {
  }

  /** A 32-bit prefix applies only to its own address. */
  lemma FullMaskIsEquality(p: bv32, a: bv32)
    ensures MaskedEqual(p, a, 32) ==> p == a
    ensures p == a ==> MaskedEqual(p, a, 32)
  {
  }

  /** Agreement on the `long` high-order bits implies agreement on fewer. */
  lemma MaskNested(p: bv32, a: bv32, short: bv8, long: bv8)
    requires 1 <= short <= long <= 32
    requires MaskedEqual(p, a, long)
    ensures MaskedEqual(p, a, short)
  {
  }

  /**
   * `r` is the earliest of the longest routes among table[from..n] that apply to `address`, or
   * -1 when none of them applies.
   */
  ghost predicate LongestFrom(table: seq<RouteEntry>, from: nat, n: nat, address: bv32, r: int)
    requires from <= n <= |table| && LengthsInRange(table)
  {
    && (r == -1 <==> forall j | from <= j < n :: !Matches(table[j], address))
    && (r != -1 ==>
          && from <= r < n && Matches(table[r], address)
          && (forall j | from <= j < n && Matches(table[j], address) :: table[j].prefixLength <= table[r].prefixLength)
          && (forall j | from <= j < r && Matches(table[j], address) :: table[j].prefixLength < table[r].prefixLength))
  }

  /** There is only one such route. */
  lemma LongestUnique(table: seq<RouteEntry>, from: nat, n: nat, address: bv32, r1: int, r2: int)
    requires from <= n <= |table| && LengthsInRange(table)
    requires LongestFrom(table, from, n, address, r1) && LongestFrom(table, from, n, address, r2)
    ensures r1 == r2
  {
  }

  /** One more route considered: the search keeps its choice or takes the new route when it is strictly longer. */
  lemma LongestExtend(table: seq<RouteEntry>, from: nat, i: nat, address: bv32, index: int)
    requires from <= i < |table| && LengthsInRange(table)
    requires LongestFrom(table, from, i, address, index)
    ensures !Matches(table[i], address) ==> LongestFrom(table, from, i + 1, address, index)
    ensures Matches(table[i], address) && (index == -1 || table[index].prefixLength < table[i].prefixLength) ==>
              LongestFrom(table, from, i + 1, address, i)
    ensures Matches(table[i], address) && index != -1 && table[i].prefixLength <= table[index].prefixLength ==>
              LongestFrom(table, from, i + 1, address, index)
  {
  }

  /** A /0 route, searched from itself on, is the choice: it applies to every address. */
  lemma LongestRestart(table: seq<RouteEntry>, i: nat, address: bv32)
    requires i < |table| && LengthsInRange(table) && table[i].prefixLength == 0
    ensures LongestFrom(table, i, i + 1, address, i)
    ensures LastDefault(table, i + 1) == i
  {
  }

  /** The position of the last /0 route among the first `n`, or -1 when there is none. */
  function LastDefault(table: seq<RouteEntry>, n: nat): (r: int)
    requires n <= |table|
    ensures -1 <= r < n
    ensures r >= 0 ==> table[r].prefixLength == 0
    ensures forall j | r < j < n :: table[j].prefixLength != 0
  {
    if n == 0 then -1
    else if table[n - 1].prefixLength == 0 then n - 1
    else LastDefault(table, n - 1)
  }

  /**
   * What match returns, as written: the longest (earliest among equals) applicable route, but
   * searched only from the last /0 route on, since a /0 route replaces any earlier choice.
   */
  ghost predicate MatchAsWritten(table: seq<RouteEntry>, n: nat, address: bv32, r: int)
    requires n <= |table| && LengthsInRange(table)
  {
    LongestFrom(table, Max(LastDefault(table, n), 0), n, address, r)
  }

  /**
   * The /0 override: with a /8 route for 10.0.0.0 ahead of a default route, match as written
   * sends 10.1.2.3 by the default route, while longest-prefix match picks the /8 route.
   */
  lemma DefaultRouteOverridesLongerMatch(gateway: u32)
    ensures var table := [RouteEntry(0x0A00_0000, 8, None, 1), RouteEntry(0, 0, Some(gateway), 0)];
            && (forall r :: MatchAsWritten(table, 2, 0x0A01_0203, r) ==> r == 1)
            && (forall r :: LongestFrom(table, 0, 2, 0x0A01_0203, r) ==> r == 0)
  {
    var table := [RouteEntry(0x0A00_0000, 8, None, 1), RouteEntry(0, 0, Some(gateway), 0)];
    assert Matches(table[0], 0x0A01_0203);
    assert LastDefault(table, 2) == 1;
  }

  /** Without any /0 route, match as written is longest-prefix match. */
  lemma MatchAsWrittenWithoutDefault(table: seq<RouteEntry>, address: bv32, r: int)
    requires LengthsInRange(table)
    requires forall j | 0 <= j < |table| :: table[j].prefixLength != 0
    ensures MatchAsWritten(table, |table|, address, r) <==> LongestFrom(table, 0, |table|, address, r)
  {
    assert LastDefault(table, |table|) == -1;
  }

  /** What the router does with one datagram. */
  datatype Decision = Drop | Forward(interfaceNum: nat, nextHop: u32, dgram: Datagram)

  class Router {
    var table: seq<RouteEntry>

    /** Routes are identified by their prefix and length. */
    ghost predicate Valid()
      reads this
    {
      KeysUnique(table)
    }

    constructor ()
      ensures Valid() && table == []
    {
      table := [];
    }

    /**
     * Router::add_route: the route with the same prefix and length gets the new next hop and
     * interface in place; a new key is appended.
     */
    method AddRoute(prefix: bv32, prefixLength: bv8, nextHop: Option<u32>, interfaceNum: nat)
      requires Valid()
      modifies this
      ensures Valid()
      ensures table == Upsert(old(table), RouteEntry(prefix, prefixLength, nextHop, interfaceNum))
      ensures LengthsInRange(old(table)) && prefixLength <= 32 ==> LengthsInRange(table)
    {
      var i := 0;
      while i < |table|
        invariant 0 <= i <= |table| && table == old(table)
        invariant forall j | 0 <= j < i :: !SameKey(table[j], prefix, prefixLength)
      {
        if table[i].prefix == prefix && table[i].prefixLength == prefixLength {
          UpsertFacts(table, RouteEntry(prefix, prefixLength, nextHop, interfaceNum));
          table := table[i := table[i].(nextHop := nextHop, interfaceNum := interfaceNum)];
          return;
        }
        i := i + 1;
      }
      UpsertFacts(table, RouteEntry(prefix, prefixLength, nextHop, interfaceNum));
      table := table + [RouteEntry(prefix, prefixLength, nextHop, interfaceNum)];
    }

    /**
     * Router::match, as written: a /0 route becomes the choice unconditionally, and any other
     * applicable route replaces the choice when there is none or it is strictly longer.
     */
    method Match(address: bv32) returns (index: int)
      requires LengthsInRange(table)
      ensures MatchAsWritten(table, |table|, address, index)
    {
      index := -1;
      ghost var from := 0;
      for i := 0 to |table|
        invariant from == Max(LastDefault(table, i), 0) <= i
        invariant LongestFrom(table, from, i, address, index)
      {
        if table[i].prefixLength == 0 {
          LongestRestart(table, i, address);
          index := i;
          from := i;
          continue;
        }
        LongestExtend(table, from, i, address, index);
        if MaskedEqual(table[i].prefix, address, table[i].prefixLength) {
          if index == -1 || table[index].prefixLength < table[i].prefixLength {
            index := i;
          }
        }
      }
    }

    /**
     * Longest-prefix match, correcting the /0 override: every applicable route competes, /0
     * routes included, and the earliest of the longest wins.
     */
    method BestMatch(address: bv32) returns (index: int)
      requires LengthsInRange(table)
      ensures LongestFrom(table, 0, |table|, address, index)
    {
      index := -1;
      for i := 0 to |table|
        invariant LongestFrom(table, 0, i, address, index)
      {
        LongestExtend(table, 0, i, address, index);
        if Matches(table[i], address) {
          if index == -1 || table[index].prefixLength < table[i].prefixLength {
            index := i;
          }
        }
      }
    }

    /**
     * The decision of Router::route for one received datagram: dropped when no route applies or
     * its TTL is 0 or 1; otherwise sent on the route's interface to the route's next hop (the
     * destination itself for a directly attached network) with the TTL one lower.
     */
    method Route(dgram: Datagram) returns (index: int, d: Decision)
      requires LengthsInRange(table)
      ensures LongestFrom(table, 0, |table|, dgram.header.dst as bv32, index)
      ensures d.Drop? <==> index == -1 || dgram.header.ttl <= 1
      ensures d.Forward? ==>
                && d.interfaceNum == table[index].interfaceNum
                && d.nextHop == table[index].nextHop.GetOr(dgram.header.dst)
                && d.dgram == dgram.(header := dgram.header.(ttl := dgram.header.ttl - 1))
    {
      index := BestMatch(dgram.header.dst as bv32);
      if index == -1 {
        return index, Drop;
      }
      var entry := table[index];
      if dgram.header.ttl == 1 || dgram.header.ttl == 0 {
        return index, Drop;
      }
      var forwarded := dgram.(header := dgram.header.(ttl := dgram.header.ttl - 1));
      if entry.nextHop.Some? {
        d := Forward(entry.interfaceNum, entry.nextHop.value, forwarded);
      } else {
        d := Forward(entry.interfaceNum, dgram.header.dst, forwarded);
      }
    }
  }
}
