/**
 Exclusive ownership of namespaces: the stored tenants, and the admission gate that refuses a spec
 overlapping with any other stored tenant.
 */
module TenantExclusivity {
  import opened Wrappers
  import opened CanonicalLists
  import opened Tenant

  type Tenants = map<string, TenantSpec>

  /** `Put` is a create or an update, `Remove` a delete. */
  datatype Request = Put(name: string, spec: TenantSpec) | Remove(name: string)

  ghost predicate Admits(tenants: Tenants, name: string, spec: TenantSpec) {
    forall other | other in tenants && other != name :: spec.Overlap(tenants[other]) == []
  }

  /** A refused request changes nothing. */
  ghost function Step(tenants: Tenants, request: Request): Tenants {
    match request
    case Put(name, spec) => if Admits(tenants, name, spec) then tenants[name := spec] else tenants
    case Remove(name) => tenants - {name}
  }

  ghost function Run(tenants: Tenants, requests: seq<Request>): Tenants
    decreases |requests|
  {
    if requests == [] then tenants else Run(Step(tenants, requests[0]), requests[1..])
  }

  /** The tenants that own a namespace. */
  ghost function Owners(tenants: Tenants, namespace: string): set<string> {
    set name | name in tenants && tenants[name].OwnsNamespace(namespace)
  }

  ghost predicate Exclusive(tenants: Tenants) {
    forall namespace :: |Owners(tenants, namespace)| <= 1
  }

  lemma {:induction false} RunSnoc(tenants: Tenants, requests: seq<Request>, last: Request)
    ensures Run(tenants, requests + [last]) == Step(Run(tenants, requests), last)
    decreases |requests|
  {
    if requests == [] {
      assert (requests + [last])[1..] == [];
    } else {
      assert (requests + [last])[1..] == requests[1..] + [last];
      RunSnoc(Step(tenants, requests[0]), requests[1..], last);
    }
  }

  ghost predicate PairwiseDisjoint(tenants: Tenants) {
    forall a, b | a in tenants && b in tenants && a != b :: tenants[a].Overlap(tenants[b]) == []
  }

  lemma {:induction false} SubsetSize(s: set<string>, t: set<string>)
    requires s <= t
    ensures |s| <= |t|
  {
    assert t == s + (t - s);
  }

  /** Exclusive ownership, said of pairs of tenants. */
  lemma ExclusiveIffDisjoint(tenants: Tenants)
    ensures Exclusive(tenants) <==> PairwiseDisjoint(tenants)
  {
    if Exclusive(tenants) {
      forall a, b | a in tenants && b in tenants && a != b ensures tenants[a].Overlap(tenants[b]) == [] {
        OverlapEmptyIff(tenants[a], tenants[b]);
        if n :| tenants[a].OwnsNamespace(n) && tenants[b].OwnsNamespace(n) {
          SubsetSize({a, b}, Owners(tenants, n));
        }
      }
    }
    if PairwiseDisjoint(tenants) {
      forall n ensures |Owners(tenants, n)| <= 1 {
        var owners := Owners(tenants, n);
        if a :| a in owners {
          forall b | b in owners ensures b == a {
            if b != a {
              OverlapEmptyIff(tenants[a], tenants[b]);
            }
          }
          assert owners == {a};
        }
      }
    }
  }

  /** The gate is exact: it admits a spec if and only if storing it leaves ownership exclusive. */
  lemma GateIsExact(tenants: Tenants, name: string, spec: TenantSpec)
    requires Exclusive(tenants)
    ensures Admits(tenants, name, spec) <==> Exclusive(tenants[name := spec])
  {
    var next := tenants[name := spec];
    ExclusiveIffDisjoint(tenants);
    ExclusiveIffDisjoint(next);
    if Admits(tenants, name, spec) {
      forall a, b | a in next && b in next && a != b ensures next[a].Overlap(next[b]) == [] {
        OverlapInvariant(next[a], next[b], next[a], next[b]);
      }
    }
    if PairwiseDisjoint(next) {
      forall other | other in tenants && other != name ensures spec.Overlap(tenants[other]) == [] {
        assert next[name].Overlap(next[other]) == [];
      }
    }
  }

  /** A spec is admitted exactly when no other tenant owns any of its namespaces. */
  lemma AdmitsIffUnowned(tenants: Tenants, name: string, spec: TenantSpec)
    ensures Admits(tenants, name, spec)
            <==> forall n | spec.OwnsNamespace(n) :: Owners(tenants, n) <= {name}
  {
    forall other | other in tenants
      ensures spec.Overlap(tenants[other]) == []
              <==> !exists n :: spec.OwnsNamespace(n) && other in Owners(tenants, n)
    {
      OverlapEmptyIff(spec, tenants[other]);
      if n :| spec.OwnsNamespace(n) && tenants[other].OwnsNamespace(n) {
        assert other in Owners(tenants, n);
      }
    }
    if forall n | spec.OwnsNamespace(n) :: Owners(tenants, n) <= {name} {
      forall other | other in tenants && other != name ensures spec.Overlap(tenants[other]) == [] {
        assert forall n | spec.OwnsNamespace(n) :: other !in Owners(tenants, n);
      }
    }
    if Admits(tenants, name, spec) {
      forall n, other | spec.OwnsNamespace(n) && other in Owners(tenants, n) ensures other == name {
        assert other in tenants;
      }
    }
  }

  lemma StepKeepsExclusive(tenants: Tenants, request: Request)
    requires Exclusive(tenants)
    ensures Exclusive(Step(tenants, request))
  {
    match request
    case Put(name, spec) => GateIsExact(tenants, name, spec);
    case Remove(name) =>
      forall n ensures |Owners(tenants - {name}, n)| <= 1 {
        SubsetSize(Owners(tenants - {name}, n), Owners(tenants, n));
      }
  }

  /** Over any run no namespace is ever owned by two tenants. */
  lemma {:induction false} RunKeepsExclusive(tenants: Tenants, requests: seq<Request>)
    requires Exclusive(tenants)
    ensures Exclusive(Run(tenants, requests))
    decreases |requests|
  {
    if requests != [] {
      StepKeepsExclusive(tenants, requests[0]);
      RunKeepsExclusive(Step(tenants, requests[0]), requests[1..]);
    }
  }

  lemma RunFromEmptyExclusive(requests: seq<Request>)
    ensures Exclusive(Run(map[], requests))
  {
    assert forall n :: Owners(map[], n) == {};
    RunKeepsExclusive(map[], requests);
  }

  class TenantStore {
    var tenants: Tenants
    ghost var requests: seq<Request>

    ghost predicate Valid()
      reads this
    {
      tenants == Run(map[], requests)
    }

    constructor ()
      ensures Valid() && tenants == map[] && requests == []
    {
      tenants, requests := map[], [];
    }

    method PutTenant(name: string, spec: TenantSpec) returns (admitted: bool)
      requires Valid()
      modifies this
      ensures Valid() && Exclusive(tenants) && requests == old(requests) + [Put(name, spec)]
      ensures admitted <==> Exclusive(old(tenants)[name := spec])
      ensures tenants == if admitted then old(tenants)[name := spec] else old(tenants)
    {
      var others := tenants.Keys - {name};
      ghost var all := others;
      admitted := true;
      while others != {} && admitted
        invariant tenants == old(tenants) && requests == old(requests)
        invariant others <= all == tenants.Keys - {name}
        invariant admitted ==> forall o | o in all - others :: spec.Overlap(tenants[o]) == []
        invariant !admitted ==> !Admits(tenants, name, spec)
        decreases |others|, if admitted then 1 else 0
      {
        var o :| o in others;
        var overlap := spec.OverlappingNamespaces(tenants[o]);
        if overlap != [] {
          admitted := false;
        }
        others := others - {o};
      }
      assert admitted <==> Admits(tenants, name, spec);
      RunFromEmptyExclusive(requests);
      GateIsExact(tenants, name, spec);
      RunSnoc(map[], requests, Put(name, spec));
      requests := requests + [Put(name, spec)];
      if admitted {
        tenants := tenants[name := spec];
      }
    }

    method RemoveTenant(name: string)
      requires Valid()
      modifies this
      ensures Valid() && Exclusive(tenants) && requests == old(requests) + [Remove(name)]
      ensures tenants == old(tenants) - {name}
    {
      RunSnoc(map[], requests, Remove(name));
      requests := requests + [Remove(name)];
      tenants := tenants - {name};
      RunFromEmptyExclusive(requests);
    }
  }
}
