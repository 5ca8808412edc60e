/** acid/rpc/rpc_service_registry.cpp:193-292: the registry as an object. Each method is what runs under m_mutex. */
module RegistryObjects {
  import opened Registries
  import D = Discovery

  class RpcServiceRegistry {
    var m_services: seq<Service>
    var m_iters: map<Name, seq<nat>>
    var registered: nat

    function View(): Registry
      reads this
    {
      Registry(m_services, m_iters, registered)
    }

    constructor ()
      ensures View() == Empty && Agree(View())
    {
      m_services, m_iters, registered := [], map[], 0;
    }

    /** The insertion of handle_register_service. */
    method HandleRegisterService(name: Name, address: Name)
      requires Agree(View())
      modifies this
      ensures View() == Registered(old(View()), name, address) && Agree(View())
      ensures m_services == old(m_services) + [Service(old(registered), name, address)]
      ensures address in m_iters && m_iters[address] == ItersOf(old(View()), address) + [old(registered)]
      ensures m_iters - {address} == old(m_iters) - {address}
    {
      RegisterKeepsAgreement(View(), name, address);
      var it := registered;
      m_services := m_services + [Service(it, name, address)];
      registered := registered + 1;
      if address !in m_iters {
        m_iters := m_iters[address := []];
      }
      m_iters := m_iters[address := m_iters[address] + [it]];
    }

    /** m_services.erase(it): where the iterator points there is a service. */
    method Erase(it: nat)
      requires exists i :: 0 <= i < |m_services| && m_services[i].number == it
      modifies this`m_services
      ensures m_services == Without(old(m_services), it)
    {
      var i := 0;
      while m_services[i].number != it
        invariant 0 <= i < |m_services|
        decreases |m_services| - i
        invariant forall k :: 0 <= k < i ==> m_services[k].number != it
      {
        i := i + 1;
      }
      WithoutAt(m_services, it, i);
      m_services := m_services[..i] + m_services[i + 1..];
    }

    /** The first of the numbers left is there, and the others are those left once it is gone. */
    static lemma TakeFirst(services: seq<Service>, address: Name, next: nat, its: seq<nat>)
      requires Ascending(services, next) && NumbersOf(services, address) == its && its != []
      ensures exists i :: 0 <= i < |services| && services[i].number == its[0]
      ensures Ascending(Without(services, its[0]), next)
      ensures NumbersOf(Without(services, its[0]), address) == its[1..]
      ensures Erased(Without(services, its[0]), its[1..]) == Erased(services, its)
    {
      NumbersAreThere(services, address, its[0]);
      EraseFirst(services, address, next);
    }

    /** The removals of handle_unregidter_service, all under one hold of the lock. */
    method HandleUnregisterService(address: Name)
      requires Agree(View())
      modifies this
      ensures View() == Unregistered(old(View()), address) && Agree(View())
      ensures m_services == Others(old(m_services), address)
      ensures forall s :: s in m_services <==> s in old(m_services) && s.address != address
      ensures m_iters == old(m_iters) - {address}
    {
      UnregisterRemovesExactly(View(), address);
      OthersMembers(m_services, address);
      if address in m_iters {
        EraseAll(address);
        m_iters := m_iters - {address};
      }
    }

    /** The loop of the erasures through the address's iterators. */
    method EraseAll(address: Name)
      requires Agree(View()) && address in m_iters
      modifies this`m_services
      ensures m_services == Erased(old(m_services), m_iters[address])
    {
      var its := m_iters[address];
      assert AgreeAt(View(), address);
      ghost var services := m_services;
      var i := 0;
      while i < |its|
        invariant 0 <= i <= |its|
        invariant Ascending(m_services, registered) && NumbersOf(m_services, address) == its[i..]
        invariant Erased(m_services, its[i..]) == Erased(services, its)
      {
        TakeFirst(m_services, address, registered, its[i..]);
        Erase(its[i]);
        assert its[i..][1..] == its[i + 1..];
        i := i + 1;
      }
    }

    /** The loop over equal_range(name) in handle_discover_service: the addresses of the services of that name, of
        all of them and no others, in order. */
    method HandleDiscoverService(name: Name) returns (found: seq<Name>, ghost at: seq<nat>)
      ensures found == D.Found(Offers(m_services), name)
      ensures D.NamedAt(m_services, name, at) && |found| == |at|
      ensures forall k :: 0 <= k < |at| ==> found[k] == m_services[at[k]].address
    {
      found, at := [], [];
      var i := 0;
      while i < |m_services|
        invariant 0 <= i <= |m_services|
        invariant D.Rising(at, i) && |found| == |at|
        invariant forall k :: 0 <= k < i ==> (k in at <==> m_services[k].name == name)
        invariant forall k :: 0 <= k < |at| ==> found[k] == m_services[at[k]].address
        invariant D.Found(Offers(m_services), name) == found + D.Found(Offers(m_services[i..]), name)
      {
        assert m_services[i..][1..] == m_services[i + 1..];
        var s := m_services[i];
        ghost var rest := Offers(m_services[i + 1..]);
        assert Offers(m_services[i..])[1..] == rest;
        if s.name == name {
          assert found + ([s.address] + D.Found(rest, name)) == (found + [s.address]) + D.Found(rest, name);
          found, at := found + [s.address], at + [i];
        } else {
          assert [] + D.Found(rest, name) == D.Found(rest, name);
        }
        i := i + 1;
      }
    }
  }

  lemma {:induction false} OthersMembers(services: seq<Service>, a: Name)
    ensures forall s :: s in Others(services, a) <==> s in services && s.address != a
  {
    if services != [] {
      OthersMembers(services[1..], a);
    }
  }

  lemma {:induction false} WithoutAt(services: seq<Service>, it: nat, i: nat)
    requires i < |services| && services[i].number == it
    requires forall k :: 0 <= k < i ==> services[k].number != it
    ensures Without(services, it) == services[..i] + services[i + 1..]
  {
    if i > 0 {
      WithoutAt(services[1..], it, i - 1);
      assert services[..i] == [services[0]] + services[1..][..i - 1];
      assert services[1..][i..] == services[i + 1..];
    }
  }
}
