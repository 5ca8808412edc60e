/**
  The service registry (acid/rpc/rpc_service_registry.cpp:193-292): services by name in a multimap, and for
  each address the iterators of its services. An iterator is modelled by the number of the registration.
 */
module Registries {
  import opened Chunks
  import opened Options

  type Name = seq<Byte>

  /** A registration: which one it was, the service's name, and the address that provides it. */
  datatype Service = Service(number: nat, name: Name, address: Name)

  /** The multimap keeps equal names in the order of their insertion, so that the services can be listed in the
      order of registration. */
  datatype Registry = Registry(services: seq<Service>, iters: map<Name, seq<nat>>, registered: nat)

  const Empty: Registry := Registry([], map[], 0)

  datatype Op = Register(name: Name, address: Name) | Unregister(address: Name)

  /** handle_register_service */
  function Registered(r: Registry, name: Name, address: Name): Registry {
    var its := if address in r.iters then r.iters[address] else [];
    Registry(r.services + [Service(r.registered, name, address)],
             r.iters[address := its + [r.registered]],
             r.registered + 1)
  }

  /** m_services.erase(it), for each of the iterators. */
  function Erased(services: seq<Service>, its: seq<nat>): (s: seq<Service>)
    decreases |its|
  {
    if its == [] then services else Erased(Without(services, its[0]), its[1..])
  }

  function Without(services: seq<Service>, it: nat): (s: seq<Service>) {
    if services == [] then []
    else if services[0].number == it then services[1..]
    else [services[0]] + Without(services[1..], it)
  }

  /** handle_unregidter_service */
  function Unregistered(r: Registry, address: Name): Registry {
    if address !in r.iters then r
    else r.(services := Erased(r.services, r.iters[address]), iters := r.iters - {address})
  }

  function Applied(r: Registry, op: Op): Registry {
    match op
    case Register(n, a) => Registered(r, n, a)
    case Unregister(a) => Unregistered(r, a)
  }

  function After(ops: seq<Op>): Registry {
    if ops == [] then Empty else Applied(After(ops[..|ops| - 1]), ops[|ops| - 1])
  }

  // ---- the two indexes ----

  function NumbersOf(services: seq<Service>, address: Name): (ns: seq<nat>) {
    if services == [] then []
    else (if services[0].address == address then [services[0].number] else []) + NumbersOf(services[1..], address)
  }

  /** The services that other addresses provide. */
  function Others(services: seq<Service>, address: Name): (s: seq<Service>) {
    if services == [] then []
    else (if services[0].address == address then [] else [services[0]]) + Others(services[1..], address)
  }

  predicate Ascending(services: seq<Service>, below: nat) {
    && (forall i, j :: 0 <= i < j < |services| ==> services[i].number < services[j].number)
    && forall i :: 0 <= i < |services| ==> services[i].number < below
  }

  function ItersOf(r: Registry, address: Name): (its: seq<nat>) {
    if address in r.iters then r.iters[address] else []
  }

  /** The iterators of each address are those of its services, all of them and in order; an address without
      services has no entry. */
  ghost predicate Agree(r: Registry) {
    Ascending(r.services, r.registered) && forall a :: AgreeAt(r, a)
  }

  predicate AgreeAt(r: Registry, a: Name) {
    ItersOf(r, a) == NumbersOf(r.services, a) && (a in r.iters <==> ItersOf(r, a) != [])
  }

  lemma {:induction false} NumbersSnoc(services: seq<Service>, x: Service, a: Name)
    ensures NumbersOf(services + [x], a) == NumbersOf(services, a) + if x.address == a then [x.number] else []
  {
    if services == [] {
      assert [x][1..] == [];
    } else {
      NumbersSnoc(services[1..], x, a);
      assert (services + [x])[1..] == services[1..] + [x];
    }
  }

  lemma RegisterKeepsAgreement(r: Registry, name: Name, address: Name)
    requires Agree(r)
    ensures Agree(Registered(r, name, address))
  {
    var t := Registered(r, name, address);
    forall a ensures AgreeAt(t, a) {
      assert AgreeAt(r, a);
      NumbersSnoc(r.services, Service(r.registered, name, address), a);
    }
  }

  /** Every iterator kept for an address is that of a service in the multimap: none dangles. */
  lemma {:induction false} NumbersAreThere(services: seq<Service>, a: Name, it: nat)
    requires it in NumbersOf(services, a)
    ensures exists i :: 0 <= i < |services| && services[i].number == it && services[i].address == a
  {
    if services[0].address == a && services[0].number == it {
    } else {
      NumbersAreThere(services[1..], a, it);
      var i :| 0 <= i < |services| - 1 && services[1..][i].number == it && services[1..][i].address == a;
      assert services[i + 1].number == it && services[i + 1].address == a;
    }
  }

  lemma {:induction false} ErasedPast(x: Service, services: seq<Service>, its: seq<nat>)
    requires x.number !in its
    decreases |its|
    ensures Erased([x] + services, its) == [x] + Erased(services, its)
  {
    if its != [] {
      assert ([x] + services)[1..] == services;
      ErasedPast(x, Without(services, its[0]), its[1..]);
    }
  }

  lemma RestAscends(services: seq<Service>, a: Name, below: nat)
    requires Ascending(services, below) && services != []
    ensures Ascending(services[1..], below)
    ensures services[0].number !in NumbersOf(services[1..], a)
  {
    var it := services[0].number;
    if it in NumbersOf(services[1..], a) {
      NumbersAreThere(services[1..], a, it);
    }
  }

  /** Erasing all iterators of an address leaves the services of all others, in their order. */
  lemma {:induction false} ErasedLeavesOthers(services: seq<Service>, a: Name, below: nat)
    requires Ascending(services, below)
    ensures Erased(services, NumbersOf(services, a)) == Others(services, a)
  {
    if services != [] {
      RestAscends(services, a, below);
      ErasedLeavesOthers(services[1..], a, below);
      ErasedStep(services[0], services[1..], a);
      assert services == [services[0]] + services[1..];
    }
  }

  lemma ErasedStep(x: Service, rest: seq<Service>, a: Name)
    requires x.number !in NumbersOf(rest, a)
    requires Erased(rest, NumbersOf(rest, a)) == Others(rest, a)
    ensures Erased([x] + rest, NumbersOf([x] + rest, a)) == Others([x] + rest, a)
  {
    var its := NumbersOf(rest, a);
    assert ([x] + rest)[1..] == rest;
    if x.address == a {
      var all := [x.number] + its;
      assert NumbersOf([x] + rest, a) == all && all[1..] == its;
      assert Erased([x] + rest, all) == Erased(rest, its);
      assert [] + Others(rest, a) == Others(rest, a);
    } else {
      assert [] + its == its;
      ErasedPast(x, rest, its);
    }
  }

  lemma {:induction false} OthersNumbers(services: seq<Service>, a: Name, b: Name)
    ensures NumbersOf(Others(services, a), b) == if a == b then [] else NumbersOf(services, b)
  {
    if services != [] {
      var x, rest := services[0], services[1..];
      OthersNumbers(rest, a, b);
      assert ([x] + Others(rest, a))[1..] == Others(rest, a) && [] + Others(rest, a) == Others(rest, a);
      assert [] + NumbersOf(rest, b) == NumbersOf(rest, b);
    }
  }

  lemma {:induction false} OthersAmong(services: seq<Service>, a: Name)
    ensures forall s :: s in Others(services, a) ==> s in services
  {
    if services != [] {
      OthersAmong(services[1..], a);
    }
  }

  lemma {:induction false} OthersAscend(services: seq<Service>, a: Name, below: nat)
    requires Ascending(services, below)
    ensures Ascending(Others(services, a), below)
  {
    if services != [] {
      var x, rest, others := services[0], services[1..], Others(services[1..], a);
      RestAscends(services, a, below);
      OthersAscend(rest, a, below);
      OthersAmong(rest, a);
      forall j | 0 <= j < |others| ensures x.number < others[j].number {
        assert others[j] in rest;
      }
      Prepended(x, others, below);
      assert [] + others == others;
    }
  }

  lemma Prepended(x: Service, services: seq<Service>, below: nat)
    requires Ascending(services, below) && x.number < below
    requires forall j :: 0 <= j < |services| ==> x.number < services[j].number
    ensures Ascending([x] + services, below)
  {
  }

  /** Unregistering an address removes exactly its services, and leaves every other address as it is. */
  lemma UnregisterRemovesExactly(r: Registry, a: Name)
    requires Agree(r)
    ensures Unregistered(r, a).services == Others(r.services, a)
    ensures Agree(Unregistered(r, a))
  {
    var t := Unregistered(r, a);
    assert AgreeAt(r, a);
    ErasedLeavesOthers(r.services, a, r.registered);
    OthersAscend(r.services, a, r.registered);
    if a !in r.iters {
      OthersOfNone(r.services, a);
    }
    forall b ensures AgreeAt(t, b) {
      assert AgreeAt(r, b);
      OthersNumbers(r.services, a, b);
    }
  }

  lemma {:induction false} OthersOfNone(services: seq<Service>, a: Name)
    requires NumbersOf(services, a) == []
    ensures Others(services, a) == services
  {
    if services != [] {
      OthersOfNone(services[1..], a);
    }
  }

  lemma {:induction false} AlwaysAgree(ops: seq<Op>)
    ensures Agree(After(ops))
  {
    if ops != [] {
      var before, op := After(ops[..|ops| - 1]), ops[|ops| - 1];
      AlwaysAgree(ops[..|ops| - 1]);
      match op {
        case Register(n, a) => RegisterKeepsAgreement(before, n, a);
        case Unregister(a) => UnregisterRemovesExactly(before, a);
      }
    }
  }

  // ---- what is registered, by the history alone ----

  datatype Offer = Offer(name: Name, address: Name)

  predicate Withdrawn(ops: seq<Op>, i: nat)
    requires i < |ops| && ops[i].Register?
  {
    exists j :: i < j < |ops| && ops[j] == Unregister(ops[i].address)
  }

  /** The registrations from number `i` on that no later unregistration of their address undoes. */
  function Standing(ops: seq<Op>, i: nat): (offers: seq<Offer>)
    requires i <= |ops|
    decreases |ops| - i
  {
    if i == |ops| then []
    else
      (if ops[i].Register? && !Withdrawn(ops, i) then [Offer(ops[i].name, ops[i].address)] else [])
      + Standing(ops, i + 1)
  }

  function OtherOffers(offers: seq<Offer>, a: Name): (r: seq<Offer>) {
    if offers == [] then []
    else (if offers[0].address == a then [] else [offers[0]]) + OtherOffers(offers[1..], a)
  }

  function Offers(services: seq<Service>): (r: seq<Offer>) {
    if services == [] then [] else [Offer(services[0].name, services[0].address)] + Offers(services[1..])
  }

  lemma {:induction false} StandingAfterRegister(ops: seq<Op>, n: Name, a: Name, i: nat)
    requires i <= |ops|
    ensures Standing(ops + [Register(n, a)], i) == Standing(ops, i) + [Offer(n, a)]
    decreases |ops| - i
  {
    var more := ops + [Register(n, a)];
    if i < |ops| {
      StandingAfterRegister(ops, n, a, i + 1);
      if ops[i].Register? {
        if Withdrawn(more, i) {
          var j :| i < j < |more| && more[j] == Unregister(more[i].address);
          assert ops[j] == Unregister(ops[i].address);
        }
        if Withdrawn(ops, i) {
          var j :| i < j < |ops| && ops[j] == Unregister(ops[i].address);
          assert more[j] == Unregister(more[i].address);
        }
      }
    } else {
      assert !Withdrawn(more, i);
      assert Standing(more, i + 1) == [];
    }
  }

  lemma {:induction false} StandingAfterUnregister(ops: seq<Op>, a: Name, i: nat)
    requires i <= |ops|
    ensures Standing(ops + [Unregister(a)], i) == OtherOffers(Standing(ops, i), a)
    decreases |ops| - i
  {
    var more := ops + [Unregister(a)];
    if i < |ops| {
      StandingAfterUnregister(ops, a, i + 1);
      assert [] + Standing(ops, i + 1) == Standing(ops, i + 1);
      assert [] + Standing(more, i + 1) == Standing(more, i + 1);
      if ops[i].Register? {
        if ops[i].address == a {
          assert more[|ops|] == Unregister(more[i].address);
        } else if Withdrawn(more, i) {
          var j :| i < j < |more| && more[j] == Unregister(more[i].address);
          assert ops[j] == Unregister(ops[i].address);
        }
        if Withdrawn(ops, i) {
          var j :| i < j < |ops| && ops[j] == Unregister(ops[i].address);
          assert more[j] == Unregister(more[i].address);
        } else {
          var x := Offer(ops[i].name, ops[i].address);
          assert ([x] + Standing(ops, i + 1))[1..] == Standing(ops, i + 1);
        }
      }
    } else {
      assert Standing(more, i + 1) == [];
    }
  }

  lemma {:induction false} OffersSnoc(services: seq<Service>, x: Service)
    ensures Offers(services + [x]) == Offers(services) + [Offer(x.name, x.address)]
  {
    if services == [] {
      assert [x][1..] == [];
    } else {
      assert (services + [x])[1..] == services[1..] + [x];
      OffersSnoc(services[1..], x);
    }
  }

  lemma {:induction false} OffersOfOthers(services: seq<Service>, a: Name)
    ensures Offers(Others(services, a)) == OtherOffers(Offers(services), a)
  {
    if services != [] {
      var x, rest := services[0], services[1..];
      OffersOfOthers(rest, a);
      assert Offers(services)[1..] == Offers(rest);
      assert ([x] + Others(rest, a))[1..] == Others(rest, a) && [] + Others(rest, a) == Others(rest, a);
      assert [] + OtherOffers(Offers(rest), a) == OtherOffers(Offers(rest), a);
    }
  }

  /** After any history the multimap holds exactly the registrations that stand, in their order. */
  lemma {:induction false} ServicesAreWhatStands(ops: seq<Op>)
    ensures Offers(After(ops).services) == Standing(ops, 0)
  {
    if ops != [] {
      var n := |ops| - 1;
      var before := After(ops[..n]);
      ServicesAreWhatStands(ops[..n]);
      assert ops == ops[..n] + [ops[n]];
      match ops[n] {
        case Register(name, a) =>
          StandingAfterRegister(ops[..n], name, a, 0);
          OffersSnoc(before.services, Service(before.registered, name, a));
        case Unregister(a) =>
          StandingAfterUnregister(ops[..n], a, 0);
          AlwaysAgree(ops[..n]);
          UnregisterRemovesExactly(before, a);
          OffersOfOthers(before.services, a);
      }
    }
  }

  // ---- unregistering as written ----

  predicate HasNumber(services: seq<Service>, it: nat) {
    exists s :: s in services && s.number == it
  }

  /** Erasures through iterators; one through an iterator whose entry is gone is undefined behaviour. */
  function ErasedThrough(services: seq<Service>, its: seq<nat>): (r: Option<seq<Service>>)
    decreases |its|
  {
    if its == [] then Some(services)
    else if !HasNumber(services, its[0]) then None
    else ErasedThrough(Without(services, its[0]), its[1..])
  }

  /** An operation of another connection. */
  function Done(r: Registry, op: Op): (t: Option<Registry>) {
    match op
    case Register(n, a) => Some(Registered(r, n, a))
    case Unregister(a) =>
      if a !in r.iters then Some(r)
      else
        match ErasedThrough(r.services, r.iters[a])
        case None => None
        case Some(services) => Some(r.(services := services, iters := r.iters - {a}))
  }

  function DoneAll(r: Registry, ops: seq<Op>): (t: Option<Registry>)
    decreases |ops|
  {
    if ops == [] then Some(r)
    else
      match Done(r, ops[0])
      case None => None
      case Some(t) => DoneAll(t, ops[1..])
  }

  /**
    handle_unregidter_service publishes after each erasure while it holds the registry's lock, and publishing takes
    that lock again: the inner hold releases it, and the rest runs without it. `gaps` are the operations of
    other connections after each of the erasures; the iterators were copied before the first.
   */
  function Interrupted(r: Registry, a: Name, its: seq<nat>, gaps: seq<seq<Op>>): (t: Option<Registry>)
    requires |gaps| == |its|
    decreases |its|
  {
    if its == [] then (if a in r.iters then Some(r.(iters := r.iters - {a})) else None)
    else if !HasNumber(r.services, its[0]) then None
    else
      match DoneAll(r.(services := Without(r.services, its[0])), gaps[0])
      case None => None
      case Some(t) => Interrupted(t, a, its[1..], gaps[1..])
  }

  predicate Concerns(ops: seq<Op>, a: Name) {
    exists i :: 0 <= i < |ops| && ops[i].address == a
  }

  lemma ConcernsFirstOrLater(ops: seq<Op>, a: Name)
    requires ops != []
    ensures Concerns(ops, a) <==> ops[0].address == a || Concerns(ops[1..], a)
  {
    if Concerns(ops[1..], a) {
      var i :| 0 <= i < |ops| - 1 && ops[1..][i].address == a;
      assert ops[i + 1].address == a;
    }
    if Concerns(ops, a) {
      var i :| 0 <= i < |ops| && ops[i].address == a;
      assert i > 0 ==> i - 1 < |ops[1..]| && ops[1..][i - 1].address == a;
    }
  }

  /** Erasing the first of an address's services leaves the others, and the order. */
  lemma {:induction false} EraseFirst(services: seq<Service>, a: Name, below: nat)
    requires Ascending(services, below) && NumbersOf(services, a) != []
    ensures HasNumber(services, NumbersOf(services, a)[0])
    ensures var rest := Without(services, NumbersOf(services, a)[0]);
      && Ascending(rest, below) && NumbersOf(rest, a) == NumbersOf(services, a)[1..]
      && Others(rest, a) == Others(services, a)
      && (forall s :: s in rest ==> s in services)
      && !HasNumber(rest, NumbersOf(services, a)[0])
  {
    var x, tail := services[0], services[1..];
    RestAscends(services, a, below);
    assert services == [x] + tail;
    assert forall s :: s in tail ==> x.number < s.number;
    if x.address == a {
      EraseHead(x, tail, a);
    } else {
      assert [] + NumbersOf(tail, a) == NumbersOf(tail, a);
      EraseFirst(tail, a, below);
      EraseBehind(x, tail, Without(tail, NumbersOf(tail, a)[0]), a, NumbersOf(tail, a)[0], below);
    }
  }

  lemma EraseHead(x: Service, tail: seq<Service>, a: Name)
    requires x.address == a && forall s :: s in tail ==> x.number < s.number
    ensures NumbersOf([x] + tail, a) == [x.number] + NumbersOf(tail, a)
    ensures Without([x] + tail, x.number) == tail && Others([x] + tail, a) == Others(tail, a)
    ensures HasNumber([x] + tail, x.number) && !HasNumber(tail, x.number)
  {
    assert ([x] + tail)[1..] == tail && x in [x] + tail;
    assert [] + Others(tail, a) == Others(tail, a);
  }

  lemma EraseBehind(x: Service, tail: seq<Service>, rest: seq<Service>, a: Name, it: nat, below: nat)
    requires x.address != a && x.number != it && rest == Without(tail, it) && x.number < below
    requires Ascending(rest, below) && !HasNumber(rest, it) && HasNumber(tail, it)
    requires forall s :: s in rest ==> s in tail
    requires forall s :: s in tail ==> x.number < s.number
    ensures Without([x] + tail, it) == [x] + rest && Ascending([x] + rest, below)
    ensures NumbersOf([x] + rest, a) == NumbersOf(rest, a) && Others([x] + rest, a) == [x] + Others(rest, a)
    ensures !HasNumber([x] + rest, it) && HasNumber([x] + tail, it)
    ensures forall s :: s in [x] + rest ==> s in [x] + tail
  {
    assert ([x] + tail)[1..] == tail;
    FirstStays(x, rest, a, it, below);
    Prepended(x, rest, below);
    assert forall s :: s in tail ==> s in [x] + tail;
  }

  lemma FirstStays(x: Service, rest: seq<Service>, a: Name, it: nat, below: nat)
    requires x.address != a && x.number != it && !HasNumber(rest, it)
    ensures NumbersOf([x] + rest, a) == NumbersOf(rest, a) && Others([x] + rest, a) == [x] + Others(rest, a)
    ensures !HasNumber([x] + rest, it)
  {
    assert ([x] + rest)[1..] == rest && [] + NumbersOf(rest, a) == NumbersOf(rest, a);
    assert forall s :: s in [x] + rest ==> s == x || s in rest;
  }

  /** No erasure through the iterators of an address that are all of its services goes wrong. */
  lemma {:induction false} ErasedThroughAll(services: seq<Service>, a: Name, below: nat)
    requires Ascending(services, below)
    ensures ErasedThrough(services, NumbersOf(services, a)) == Some(Others(services, a))
    decreases |NumbersOf(services, a)|
  {
    if NumbersOf(services, a) == [] {
      OthersOfNone(services, a);
    } else {
      EraseFirst(services, a, below);
      ErasedThroughAll(Without(services, NumbersOf(services, a)[0]), a, below);
    }
  }

  /** While an address is being unregistered: of its iterators `its`, which are still in the index, `left` are
      still to be erased; `extra` are its services registered meanwhile. Everything else agrees. */
  ghost predicate InGap(r: Registry, a: Name, its: seq<nat>, left: seq<nat>, extra: seq<nat>) {
    && Ascending(r.services, r.registered) && (forall b :: b != a ==> AgreeAt(r, b))
    && its != [] && its[0] < r.registered && !HasNumber(r.services, its[0])
    && a in r.iters && r.iters[a] == its + extra && NumbersOf(r.services, a) == left + extra
  }

  lemma GapRegister(r: Registry, a: Name, its: seq<nat>, left: seq<nat>, extra: seq<nat>, n: Name, b: Name)
    requires InGap(r, a, its, left, extra)
    ensures InGap(Registered(r, n, b), a, its, left, if a == b then extra + [r.registered] else extra)
  {
    var t, x := Registered(r, n, b), Service(r.registered, n, b);
    forall c | c != a ensures AgreeAt(t, c) {
      assert AgreeAt(r, c);
      NumbersSnoc(r.services, x, c);
    }
    NumbersSnoc(r.services, x, a);
    assert (its + extra) + [r.registered] == its + (extra + [r.registered]);
    assert (left + extra) + [r.registered] == left + (extra + [r.registered]);
    assert forall s :: s in t.services ==> s == x || s in r.services;
  }

  /** Unregistering another address does no harm; unregistering the same one goes through an iterator whose entry
      is gone. */
  lemma GapUnregister(r: Registry, a: Name, its: seq<nat>, left: seq<nat>, extra: seq<nat>, b: Name)
    requires InGap(r, a, its, left, extra)
    ensures a == b ==> Done(r, Unregister(b)) == None
    ensures a != b ==> Done(r, Unregister(b)).Some? && InGap(Done(r, Unregister(b)).value, a, its, left, extra)
  {
    if a != b && b in r.iters {
      assert AgreeAt(r, b);
      ErasedThroughAll(r.services, b, r.registered);
      var t := Done(r, Unregister(b)).value;
      OthersAscend(r.services, b, r.registered);
      OthersAmong(r.services, b);
      OthersNumbers(r.services, b, a);
      forall c | c != a ensures AgreeAt(t, c) {
        assert AgreeAt(r, c);
        OthersNumbers(r.services, b, c);
      }
    }
  }

  lemma {:induction false} GapAll(r: Registry, a: Name, its: seq<nat>, left: seq<nat>, extra: seq<nat>, ops: seq<Op>)
    returns (more: seq<nat>)
    requires InGap(r, a, its, left, extra)
    ensures var t := DoneAll(r, ops);
      && (t == None ==> Concerns(ops, a))
      && (t.Some? ==> InGap(t.value, a, its, left, extra + more) && (more == [] <==> !Concerns(ops, a)))
    decreases |ops|
  {
    more := [];
    assert extra + [] == extra;
    if ops != [] {
      ConcernsFirstOrLater(ops, a);
      match ops[0] {
        case Register(n, b) => GapRegister(r, a, its, left, extra, n, b);
        case Unregister(b) => GapUnregister(r, a, its, left, extra, b);
      }
      if Done(r, ops[0]).Some? {
        var first := if ops[0].address == a then [r.registered] else [];
        assert extra + [] == extra;
        more := GapAll(Done(r, ops[0]).value, a, its, left, extra + first, ops[1..]);
        assert (extra + first) + more == extra + (first + more);
        more := first + more;
      }
    }
  }

  lemma GapErase(r: Registry, a: Name, its: seq<nat>, left: seq<nat>, extra: seq<nat>)
    requires InGap(r, a, its, left, extra) && left != []
    ensures HasNumber(r.services, left[0])
    ensures InGap(r.(services := Without(r.services, left[0])), a, its, left[1..], extra)
  {
    EraseFirst(r.services, a, r.registered);
    var t := r.(services := Without(r.services, left[0]));
    assert (left + extra)[0] == left[0] && (left + extra)[1..] == left[1..] + extra;
    forall b | b != a ensures AgreeAt(t, b) {
      assert AgreeAt(r, b);
      OthersNumbers(r.services, a, b);
      OthersNumbers(t.services, a, b);
    }
  }

  predicate AllElsewhere(gaps: seq<seq<Op>>, a: Name) {
    forall i :: 0 <= i < |gaps| ==> !Concerns(gaps[i], a)
  }

  lemma {:induction false} InterruptedFrom(r: Registry, a: Name, its: seq<nat>, left: seq<nat>, extra: seq<nat>,
                                           gaps: seq<seq<Op>>)
    requires InGap(r, a, its, left, extra) && |gaps| == |left|
    ensures var t := Interrupted(r, a, left, gaps);
      t.Some? && Agree(t.value) <==> extra == [] && AllElsewhere(gaps, a)
    decreases |left|
  {
    if left == [] {
      var t := r.(iters := r.iters - {a});
      forall b | b != a ensures AgreeAt(t, b) {
        assert AgreeAt(r, b);
      }
      assert AgreeAt(t, a) <==> extra == [];
    } else {
      GapErase(r, a, its, left, extra);
      var u := r.(services := Without(r.services, left[0]));
      var more := GapAll(u, a, its, left[1..], extra, gaps[0]);
      assert AllElsewhere(gaps, a) <==> !Concerns(gaps[0], a) && AllElsewhere(gaps[1..], a) by {
        assert forall i :: 0 <= i < |gaps| - 1 ==> gaps[1..][i] == gaps[i + 1];
        assert forall i :: 1 <= i < |gaps| ==> gaps[i] == gaps[1..][i - 1];
      }
      if DoneAll(u, gaps[0]).Some? {
        InterruptedFrom(DoneAll(u, gaps[0]).value, a, its, left[1..], extra + more, gaps[1..]);
      }
    }
  }

  /**
    Unregistering with the lock released in between does what it should, and goes wrong nowhere, exactly when no
    operation in any of the gaps is about the same address. A registration of it would stay in the multimap where
    no unregistration finds it; an unregistration of it, by another connection of that address, would erase twice.
   */
  lemma UnlockedUnregisterIff(r: Registry, a: Name, gaps: seq<seq<Op>>)
    requires Agree(r) && a in r.iters && |gaps| == |r.iters[a]|
    ensures var t := Interrupted(r, a, r.iters[a], gaps);
      t.Some? && Agree(t.value) <==> AllElsewhere(gaps, a)
  {
    assert AgreeAt(r, a);
    var its := r.iters[a];
    EraseFirst(r.services, a, r.registered);
    var u := r.(services := Without(r.services, its[0]));
    assert its + [] == its && its[1..] + [] == its[1..];
    NumbersAreThere(r.services, a, its[0]);
    forall b | b != a ensures AgreeAt(u, b) {
      assert AgreeAt(r, b);
      OthersNumbers(r.services, a, b);
      OthersNumbers(u.services, a, b);
    }
    assert InGap(u, a, its, its[1..], []);
    var more := GapAll(u, a, its, its[1..], [], gaps[0]);
    assert AllElsewhere(gaps, a) <==> !Concerns(gaps[0], a) && AllElsewhere(gaps[1..], a) by {
      assert forall i :: 0 <= i < |gaps| - 1 ==> gaps[1..][i] == gaps[i + 1];
      assert forall i :: 1 <= i < |gaps| ==> gaps[i] == gaps[1..][i - 1];
    }
    if DoneAll(u, gaps[0]).Some? {
      InterruptedFrom(DoneAll(u, gaps[0]).value, a, its, its[1..], [] + more, gaps[1..]);
    }
  }
}
