/** Per-tenant routes: the plugin ids that the three chains of a route name. */
module Route {
  import opened CanonicalLists

  datatype RouteSpec = RouteSpec(identityChain: seq<string>, policyChain: seq<string>, auditChain: seq<string>) {

    function ChainIds(): seq<string> {
      identityChain + policyChain + auditChain
    }

    /** Every distinct id, in ascending order. */
    ghost function DistinctIds(): seq<string> {
      Ascending(Elements(identityChain) + Elements(policyChain) + Elements(auditChain))
    }

    lemma UnionOfChains()
      ensures Elements(ChainIds()) == Elements(identityChain) + Elements(policyChain) + Elements(auditChain)
    {
    }

    /** Collects the three chains, sorts, and removes adjacent duplicates. */
    method AllChainPlugins() returns (out: seq<string>)
      ensures out == DistinctIds()
      ensures InDictionaryOrder(out)
      ensures |out| == |Elements(identityChain) + Elements(policyChain) + Elements(auditChain)|
      ensures forall id :: id in out <==> id in identityChain || id in policyChain || id in auditChain
    {
      out := SortAndDedup(ChainIds());
      UnionOfChains();
      AscendingMeaning(Elements(ChainIds()));
      assert forall id :: id in out <==> id in Elements(out);
    }
  }

  /** Permuting ids within a chain, or moving them between chains, changes nothing. */
  lemma PlacementIgnored(r: RouteSpec, s: RouteSpec)
    requires multiset(r.ChainIds()) == multiset(s.ChainIds())
    ensures r.DistinctIds() == s.DistinctIds()
  {
    SameElements(r.ChainIds(), s.ChainIds());
    r.UnionOfChains();
    s.UnionOfChains();
  }

  /** Two routes yield one list exactly when they name the same ids, however often and wherever. */
  lemma SameListIff(r: RouteSpec, s: RouteSpec)
    ensures r.DistinctIds() == s.DistinctIds() <==> Elements(r.ChainIds()) == Elements(s.ChainIds())
  {
    r.UnionOfChains();
    s.UnionOfChains();
    AscendingMeaning(Elements(r.ChainIds()));
    AscendingMeaning(Elements(s.ChainIds()));
  }
}
