/**
The routing table: a linked list of routes kept in descending order of base and
mask, searched front to back. The order makes the first match the longest.
*/
module Route {
  import opened Wrappers
  import opened Bits
  import opened LinkedList

  // A 32-bit address, compared as a number and masked bit by bit.
  type Ip = x: nat | x < 0x1_0000_0000

  datatype Route = Route(base: Ip, mask: Ip, gateway: Ip, netif: nat)

  // The order of the table: a stands before b.
  predicate Before(a: Route, b: Route) {
    a.base > b.base || (a.base == b.base && a.mask > b.mask)
  }

  predicate SameTarget(a: Route, b: Route) {
    a.base == b.base && a.mask == b.mask
  }

  predicate Matches(r: Route, ip: Ip) {
    And(ip, r.mask) == r.base
  }

  // No bit of the base lies outside the mask.
  predicate Canonical(r: Route) {
    And(r.base, r.mask) == r.base
  }

  predicate Covers(outer: Ip, inner: Ip) {
    And(inner, outer) == inner
  }

  // 32 bits: all ones, then n zeros.
  ghost predicate Prefix(mask: Ip, n: nat) {
    n <= 32 && mask == 0x1_0000_0000 - Pow2(n)
  }

  ghost predicate Contiguous(mask: Ip) {
    exists n: nat :: Prefix(mask, n)
  }

  ghost predicate Sorted(rs: seq<Route>) {
    && (forall i, j :: 0 <= i < j < |rs| ==> Before(rs[i], rs[j]))
    && (forall i :: 0 <= i < |rs| ==> Canonical(rs[i]))
  }

  predicate Known(rs: seq<Route>, r: Route) {
    exists i :: 0 <= i < |rs| && SameTarget(rs[i], r)
  }

  predicate Taken(rs: seq<Route>, base: Ip, mask: Ip) {
    exists i :: 0 <= i < |rs| && rs[i].base == base && rs[i].mask == mask
  }

  lemma KnownTaken(rs: seq<Route>, r: Route)
    ensures Known(rs, r) <==> Taken(rs, r.base, r.mask)
  {
    assert forall i :: 0 <= i < |rs| ==> (SameTarget(rs[i], r) <==> rs[i].base == r.base && rs[i].mask == r.mask);
  }

  // Where route_add's loop stops.
  function Place(rs: seq<Route>, r: Route): (k: nat)
    ensures k <= |rs| && (forall i :: 0 <= i < k ==> !Before(r, rs[i])) && (k < |rs| ==> Before(r, rs[k]))
  {
    if rs == [] || Before(r, rs[0]) then 0 else 1 + Place(rs[1..], r)
  }

  // Where route_find's loop stops.
  function First(rs: seq<Route>, ip: Ip): (k: nat)
    ensures k <= |rs| && (forall i :: 0 <= i < k ==> !Matches(rs[i], ip)) && (k < |rs| ==> Matches(rs[k], ip))
  {
    if rs == [] || Matches(rs[0], ip) then 0 else 1 + First(rs[1..], ip)
  }

  function Found(rs: seq<Route>, ip: Ip): Option<Route> {
    if First(rs, ip) < |rs| then Some(rs[First(rs, ip)]) else None
  }

  function Masked(r: Route): (c: Route)
    ensures Canonical(c)
  {
    MaskedTwice(r.base, r.mask);
    r.(base := And(r.base, r.mask))
  }

  function Add(rs: seq<Route>, r: Route): seq<Route> {
    var c := Masked(r);
    if Known(rs, c) then rs else Inserted(rs, Place(rs, c), c)
  }

  lemma AddIs(rs: seq<Route>, r: Route, c: Route)
    requires c == r.(base := And(r.base, r.mask))
    ensures c == Masked(r) && Add(rs, r) == if Known(rs, c) then rs else Inserted(rs, Place(rs, c), c)
  {
  }

  // ---- the order -----------------------------------------------------------------

  lemma BeforeTotal(a: Route, b: Route)
    ensures Before(a, b) || Before(b, a) || SameTarget(a, b)
  {
  }

  lemma BeforeTrans(a: Route, b: Route, c: Route)
    requires Before(a, b) && Before(b, c)
    ensures Before(a, c)
  {
  }

  lemma AddSorted(rs: seq<Route>, r: Route)
    requires Sorted(rs)
    ensures Sorted(Add(rs, r))
  {
    hide Before, Canonical, Masked, Place, Inserted;
    var c := Masked(r);
    if !Known(rs, c) {
      var k := Place(rs, c);
      var s := Inserted(rs, k, c);
      forall i, j | 0 <= i < j < |s|
        ensures Before(s[i], s[j])
      {
        if j == k {
          BeforeTotal(c, rs[i]);
        } else if i == k && j > k + 1 {
          BeforeTrans(c, rs[k], rs[j - 1]);
        }
      }
    }
  }

  // ---- the bits ------------------------------------------------------------------

  lemma ContiguousChain(m: Ip, n: Ip)
    requires Contiguous(m) && Contiguous(n)
    ensures Covers(m, n) || Covers(n, m)
  {
    hide And, Pow2;
    var i: nat, j: nat :| Prefix(m, i) && Prefix(n, j);
    Pow2Of32();
    if i <= j {
      PrefixCovered(32, j, i);
    } else {
      PrefixCovered(32, i, j);
    }
  }

  // ---- the first match --------------------------------------------------------------

  /** Whatever the masks, no route that matches has a mask with all the bits of the found one and more. */
  lemma FirstMaximal(rs: seq<Route>, ip: Ip, j: nat)
    requires Sorted(rs) && j < |rs| && Matches(rs[j], ip)
    ensures First(rs, ip) < |rs| && First(rs, ip) <= j
    ensures Covers(rs[j].mask, rs[First(rs, ip)].mask) ==> j == First(rs, ip)
  {
    hide First;
    var k := First(rs, ip);
    if k < j {
      NotCovered(rs[k], rs[j], ip);
    }
  }

  lemma NotCovered(a: Route, b: Route, ip: Ip)
    requires Before(a, b) && Matches(a, ip) && Matches(b, ip)
    ensures !Covers(b.mask, a.mask)
  {
    if Covers(b.mask, a.mask) {
      SubmaskLess(ip, a.mask, b.mask);
    }
  }

  ghost predicate Longest(rs: seq<Route>, ip: Ip, k: nat) {
    k < |rs| && Matches(rs[k], ip) && forall j :: 0 <= j < |rs| && Matches(rs[j], ip) ==> Covers(rs[k].mask, rs[j].mask)
  }

  /** route_find gives a route whose mask covers that of every match exactly when the table holds one, whatever the masks. */
  lemma FindsLongestIff(rs: seq<Route>, ip: Ip)
    requires Sorted(rs)
    ensures Longest(rs, ip, First(rs, ip)) <==> exists k: nat :: Longest(rs, ip, k)
    ensures forall k: nat :: Longest(rs, ip, k) ==> k == First(rs, ip)
  {
    forall k: nat | Longest(rs, ip, k)
      ensures k == First(rs, ip)
    {
      FirstMaximal(rs, ip, k);
    }
  }

  /** Longest prefix match: with contiguous masks the route found has the longest mask of those that match, and is
      the only one that long; nothing is found only when nothing matches. */
  lemma LongestPrefixMatch(rs: seq<Route>, ip: Ip)
    requires Sorted(rs) && forall i :: 0 <= i < |rs| ==> Contiguous(rs[i].mask)
    ensures Found(rs, ip).None? <==> forall i :: 0 <= i < |rs| ==> !Matches(rs[i], ip)
    ensures Found(rs, ip).Some? ==> Longest(rs, ip, First(rs, ip))
    ensures forall i :: 0 <= i < |rs| && Matches(rs[i], ip) && i != First(rs, ip) ==>
              rs[i].mask < rs[First(rs, ip)].mask
  {
    hide Contiguous, And, Sorted, First;
    var k := First(rs, ip);
    forall j | 0 <= j < |rs| && Matches(rs[j], ip)
      ensures k < |rs| && Covers(rs[k].mask, rs[j].mask) && (j != k ==> rs[j].mask < rs[k].mask)
    {
      FirstMaximal(rs, ip, j);
      ContiguousChain(rs[k].mask, rs[j].mask);
      if j != k {
        SubmaskLess(ip, rs[j].mask, rs[k].mask);
      }
    }
  }

  /** Without contiguous masks the first match can have fewer mask bits than another one. */
  lemma ScatteredMasks()
    ensures var rs := Add(Add([], Route(8, 8, 1, 0)), Route(7, 7, 2, 0));
            && Sorted(rs) && Found(rs, 15) == Some(Route(8, 8, 1, 0))
            && Matches(Route(7, 7, 2, 0), 15)
            && !(exists k: nat :: Longest(rs, 15, k))
  {
    var a, b := Route(8, 8, 1, 0), Route(7, 7, 2, 0);
    AddSorted([], a);
    assert Add([], a) == [a];
    AddSorted([a], b);
    assert Place([a], b) == 1;
    assert Add([a], b) == [a, b];
    var rs := [a, b];
    FindsLongestIff(rs, 15);
    assert First(rs, 15) == 0;
    assert Matches(rs[1], 15) && !Covers(rs[0].mask, rs[1].mask);
  }

  // ---- whole runs ------------------------------------------------------------------------

  function AddAll(rs: seq<Route>, adds: seq<Route>): seq<Route>
    decreases |adds|
  {
    if adds == [] then rs else AddAll(Add(rs, adds[0]), adds[1..])
  }

  // The first of the adds that asks for r's target is what r was made from.
  ghost predicate MadeFirst(adds: seq<Route>, r: Route, i: nat) {
    i < |adds| && Masked(adds[i]) == r && forall j :: 0 <= j < i ==> !SameTarget(Masked(adds[j]), r)
  }

  ghost predicate Made(adds: seq<Route>, r: Route) {
    exists i: nat :: MadeFirst(adds, r, i)
  }

  // The table holds one route per target asked for, as first asked for, and nothing else.
  ghost predicate Records(rs: seq<Route>, adds: seq<Route>) {
    && Sorted(rs)
    && (forall k :: 0 <= k < |rs| ==> Made(adds, rs[k]))
    && (forall i :: 0 <= i < |adds| ==> Known(rs, Masked(adds[i])))
  }

  lemma AddRecords(rs: seq<Route>, adds: seq<Route>, r: Route)
    requires Records(rs, adds)
    ensures Records(Add(rs, r), adds + [r])
  {
    hide Before, Canonical, Masked, Place, Inserted, Sorted;
    AddSorted(rs, r);
    var s, c, adds' := Add(rs, r), Masked(r), adds + [r];
    var at := Place(rs, c);
    forall k | 0 <= k < |s|
      ensures Made(adds', s[k])
    {
      if !Known(rs, c) && k == at {
        forall j | 0 <= j < |adds|
          ensures !SameTarget(Masked(adds[j]), c)
        {
          assert Known(rs, Masked(adds[j]));
        }
        assert MadeFirst(adds', s[k], |adds|);
      } else {
        assert s[k] in rs;
        var i: nat :| MadeFirst(adds, s[k], i);
        assert MadeFirst(adds', s[k], i);
      }
    }
    forall i | 0 <= i < |adds'|
      ensures Known(s, Masked(adds'[i]))
    {
      if i < |adds| {
        KeepsKnown(rs, r, Masked(adds[i]));
      } else if !Known(rs, c) {
        assert SameTarget(s[at], c);
      }
    }
  }

  lemma KeepsKnown(rs: seq<Route>, r: Route, x: Route)
    requires Known(rs, x)
    ensures Known(Add(rs, r), x)
  {
    var k :| 0 <= k < |rs| && SameTarget(rs[k], x);
    var c := Masked(r);
    if !Known(rs, c) {
      var s, at := Add(rs, r), Place(rs, c);
      assert s[if k < at then k else k + 1] == rs[k];
    }
  }

  lemma {:induction false} RunRecords(rs: seq<Route>, done: seq<Route>, adds: seq<Route>)
    requires Records(rs, done)
    ensures Records(AddAll(rs, adds), done + adds)
    decreases |adds|
  {
    hide Records, Add;
    if adds == [] {
      assert done + adds == done;
    } else {
      AddRecords(rs, done, adds[0]);
      RunRecords(Add(rs, adds[0]), done + [adds[0]], adds[1..]);
      assert done + [adds[0]] + adds[1..] == done + adds;
    }
  }

  /** After any run of route_add with contiguous masks, route_find finds nothing only if no route asked for matches;
      what it finds is the first request for its target, and every request that matches has a mask it covers. */
  lemma LookupAfterRun(adds: seq<Route>, ip: Ip)
    requires forall i :: 0 <= i < |adds| ==> Contiguous(adds[i].mask)
    ensures var f := Found(AddAll([], adds), ip);
            && (f.None? <==> forall i :: 0 <= i < |adds| ==> !Matches(Masked(adds[i]), ip))
            && (f.Some? ==> Matches(f.value, ip) && Made(adds, f.value))
            && (f.Some? ==> forall i :: 0 <= i < |adds| && Matches(Masked(adds[i]), ip) ==> Covers(f.value.mask, adds[i].mask))
  {
    hide Contiguous, Covers, Before, First, Canonical, AddAll;
    var rs := AddAll([], adds);
    assert Records([], []);
    RunRecords([], [], adds);
    assert [] + adds == adds;
    forall k | 0 <= k < |rs|
      ensures Contiguous(rs[k].mask) && (Matches(rs[k], ip) ==> exists i :: 0 <= i < |adds| && Matches(Masked(adds[i]), ip))
    {
      var i: nat :| MadeFirst(adds, rs[k], i);
    }
    LongestPrefixMatch(rs, ip);
    forall i | 0 <= i < |adds| && Matches(Masked(adds[i]), ip)
      ensures Found(rs, ip).Some? && Covers(Found(rs, ip).value.mask, adds[i].mask)
    {
      assert Known(rs, Masked(adds[i]));
      var k :| 0 <= k < |rs| && SameTarget(rs[k], Masked(adds[i]));
      assert Matches(rs[k], ip);
    }
  }

  // ---- what the requests call for --------------------------------------------------------

  // The address has the first 32 - n bits of the request, n being the zeros of its mask.
  ghost predicate Asks(q: Route, ip: Ip) {
    exists n: nat :: Prefix(q.mask, n) && ip / Pow2(n) == q.base / Pow2(n)
  }

  /** Masking and comparing is comparing prefixes. */
  lemma AsksIff(q: Route, ip: Ip)
    requires Contiguous(q.mask)
    ensures Asks(q, ip) <==> And(ip, q.mask) == And(q.base, q.mask)
  {
    hide And, Pow2;
    Pow2Of32();
    var n: nat :| Prefix(q.mask, n);
    forall k: nat | Prefix(q.mask, k) ensures ip / Pow2(k) == q.base / Pow2(k) <==> And(ip, q.mask) == And(q.base, q.mask) {
      AndPrefix(32, ip, k);
      AndPrefix(32, q.base, k);
      SamePrefix(ip, q.base, Pow2(k));
    }
  }

  lemma SamePrefix(a: nat, b: nat, p: nat)
    requires p > 0
    ensures a / p == b / p <==> a - a % p == b - b % p
  {
    assert a - a % p == p * (a / p) && b - b % p == p * (b / p);
    var d := a / p - b / p;
    assert p * (a / p) - p * (b / p) == p * d;
    TimesAtLeast(p, d);
  }

  // The first of the requests with the longest mask among those that ask for the address.
  ghost predicate Best(adds: seq<Route>, ip: Ip, i: nat) {
    && i < |adds| && Asks(adds[i], ip)
    && (forall j :: 0 <= j < |adds| && Asks(adds[j], ip) ==> adds[j].mask <= adds[i].mask)
    && (forall j :: 0 <= j < i && Asks(adds[j], ip) ==> adds[j].mask < adds[i].mask)
  }

  /** After any run of route_add with contiguous masks, route_find gives gateway and interface of the first request with the
      longest prefix of the address, and nothing exactly when no request has one. */
  lemma BestRoute(adds: seq<Route>, ip: Ip)
    requires forall i :: 0 <= i < |adds| ==> Contiguous(adds[i].mask)
    ensures var f := Found(AddAll([], adds), ip);
            && (f.None? <==> forall i :: 0 <= i < |adds| ==> !Asks(adds[i], ip))
            && (f.Some? ==> exists i: nat :: Best(adds, ip, i) && f.value.mask == adds[i].mask
                                             && f.value.gateway == adds[i].gateway && f.value.netif == adds[i].netif)
  {
    hide AddAll, First, Asks, Contiguous, And;
    LookupAfterRun(adds, ip);
    var f := Found(AddAll([], adds), ip);
    forall j | 0 <= j < |adds| ensures Asks(adds[j], ip) <==> Matches(Masked(adds[j]), ip) {
      AsksIff(adds[j], ip);
    }
    hide Found;
    if f.Some? {
      var i: nat :| MadeFirst(adds, f.value, i);
      forall j | 0 <= j < |adds| && Asks(adds[j], ip)
        ensures adds[j].mask <= adds[i].mask && (j < i ==> adds[j].mask < adds[i].mask)
      {
        assert Matches(Masked(adds[j]), ip) && Covers(f.value.mask, adds[j].mask);
        assert j < i ==> !SameTarget(Masked(adds[j]), f.value);
      }
      assert Best(adds, ip, i);
    }
  }

  // ---- the table -------------------------------------------------------------------------------

  class Table {
    const routes: List<Route>

    ghost predicate Valid()
      reads this, routes, routes.nodes
    {
      routes.Valid() && Sorted(routes.Items())
    }

    ghost function Routes(): (s: seq<Route>)
      reads this, routes, routes.nodes
    {
      routes.Items()
    }

    constructor ()
      ensures Valid() && Routes() == [] && fresh(routes)
    {
      routes := new List();
    }

    // route_exists: 0 when a route has this base and mask.
    method RouteExists(base: Ip, mask: Ip) returns (r: int)
      requires Valid()
      ensures r == (if Taken(Routes(), base, mask) then 0 else -1)
    {
      var node := routes.head;
      ghost var k := 0;
      while node != null
        invariant 0 <= k <= |routes.nodes| && node == (if k == |routes.nodes| then null else routes.nodes[k])
        invariant forall i :: 0 <= i < k ==> Routes()[i].base != base || Routes()[i].mask != mask
        decreases |routes.nodes| - k
      {
        assert node.data == Routes()[k];
        if node.data.base == base && node.data.mask == mask {
          return 0;
        }
        node := node.next;
        k := k + 1;
      }
      return -1;
    }

    // route_add's search for the node to insert in front of.
    method FindPlace(c: Route) returns (node: Node?<Route>, ghost k: nat)
      requires Valid()
      ensures k == Place(Routes(), c) && node == (if k == |routes.nodes| then null else routes.nodes[k])
    {
      hide Sorted, Place, Distinct;
      node := routes.head;
      k := 0;
      while node != null
        invariant 0 <= k <= |routes.nodes| && node == (if k == |routes.nodes| then null else routes.nodes[k])
        invariant forall i :: 0 <= i < k ==> !Before(c, Routes()[i])
        decreases |routes.nodes| - k
      {
        assert node.data == Routes()[k];
        if c.base > node.data.base || (c.base == node.data.base && c.mask > node.data.mask) {
          break;
        }
        node := node.next;
        k := k + 1;
      }
    }

    method RouteAdd(base: Ip, mask: Ip, gateway: Ip, netif: nat) returns (r: int)
      requires Valid()
      modifies routes, routes.nodes
      ensures Valid() && Routes() == Add(old(Routes()), Route(base, mask, gateway, netif))
      ensures r == (if Known(old(Routes()), Masked(Route(base, mask, gateway, netif))) then -1 else 0)
    {
      hide Sorted, Place, Inserted, Before, And, Taken, Known, Masked, Canonical, Add, Distinct, Linked, DataOf;
      ghost var rs, q := Routes(), Route(base, mask, gateway, netif);
      var base' := And(base, mask);
      var c := Route(base', mask, gateway, netif);
      AddIs(rs, q, c);
      AddSorted(rs, q);
      KnownTaken(rs, c);
      var exists' := RouteExists(base', mask);
      if exists' == 0 {
        return -1;
      }
      InsertRoute(c);
      return 0;
    }

    // The new node, in front of the one the search ended at.
    method InsertRoute(c: Route)
      requires Valid()
      modifies routes, routes.nodes
      ensures routes.Valid() && Routes() == Inserted(old(Routes()), Place(old(Routes()), c), c)
    {
      hide Sorted, Place, Inserted, Before, Distinct, Linked, DataOf;
      var node, k := FindPlace(c);
      var n := routes.InsertBefore(node, c, k);
    }

    method RouteFind(ip: Ip) returns (r: Option<Route>)
      requires Valid()
      ensures r == Found(Routes(), ip)
    {
      hide First, Sorted, Distinct;
      var node := routes.head;
      ghost var k := 0;
      while node != null
        invariant 0 <= k <= |routes.nodes| && node == (if k == |routes.nodes| then null else routes.nodes[k])
        invariant forall i :: 0 <= i < k ==> !Matches(Routes()[i], ip)
        decreases |routes.nodes| - k
      {
        assert node.data == Routes()[k];
        if And(ip, node.data.mask) == node.data.base {
          assert k == First(Routes(), ip);
          return Some(node.data);
        }
        node := node.next;
        k := k + 1;
      }
      return None;
    }
  }
}
