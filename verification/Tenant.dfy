/** The tenant boundary: owned namespaces, their overlap with another tenant, and the plugin allowlist. */
module Tenant {
  import opened Wrappers
  import opened CanonicalLists

  datatype AllowedPlugin = AllowedPlugin(name: Option<string>, registryPrefix: Option<string>) {
    predicate Matches(resourceName: string, pluginId: string, image: Option<string>) {
      || (name.Some? && (name.value == "*" || name.value == resourceName || name.value == pluginId))
      || (registryPrefix.Some? && image.Some? && registryPrefix.value != "" && registryPrefix.value <= image.value)
    }
  }

  datatype TenantSpec = TenantSpec(namespaces: seq<string>, allowedPlugins: seq<AllowedPlugin>) {

    predicate OwnsNamespace(namespace: string) {
      exists i | 0 <= i < |namespaces| :: namespaces[i] == namespace
    }

    /** The namespaces that both tenants own, each once, in ascending order. */
    ghost function Overlap(other: TenantSpec): seq<string> {
      Ascending(Elements(namespaces) * Elements(other.namespaces))
    }

    method OverlappingNamespaces(other: TenantSpec) returns (out: seq<string>)
      ensures out == Overlap(other)
      ensures InDictionaryOrder(out)
      ensures forall n :: n in out <==> OwnsNamespace(n) && other.OwnsNamespace(n)
    {
      var both: seq<string> := [];
      var i := 0;
      while i < |namespaces|
        invariant 0 <= i <= |namespaces|
        invariant forall n :: n in both <==> n in namespaces[..i] && n in other.namespaces
      {
        var n := namespaces[i];
        var k := 0;
        while k < |other.namespaces| && other.namespaces[k] != n
          invariant 0 <= k <= |other.namespaces|
          invariant n !in other.namespaces[..k]
        {
          k := k + 1;
        }
        if k < |other.namespaces| {
          both := both + [n];
        }
        assert namespaces[..i + 1] == namespaces[..i] + [n];
        i := i + 1;
      }
      assert Elements(both) == Elements(namespaces) * Elements(other.namespaces);
      out := SortAndDedup(both);
      AscendingMeaning(Elements(both));
      assert forall n :: n in out <==> n in Elements(out);
    }

    predicate PluginAllowed(resourceName: string, pluginId: string, image: Option<string>) {
      exists i | 0 <= i < |allowedPlugins| :: allowedPlugins[i].Matches(resourceName, pluginId, image)
    }
  }

  // ---------- Overlap ----------

  /** The overlap lists exactly the shared namespaces, and no other ascending list does. */
  lemma OverlapCharacterised(a: TenantSpec, b: TenantSpec, out: seq<string>)
    ensures out == a.Overlap(b)
            <==> StrictlyAscending(out) && forall n :: n in out <==> a.OwnsNamespace(n) && b.OwnsNamespace(n)
  {
    var shared := Elements(a.namespaces) * Elements(b.namespaces);
    AscendingMeaning(shared);
    assert forall n :: n in out <==> n in Elements(out);
    assert forall n :: n in shared <==> a.OwnsNamespace(n) && b.OwnsNamespace(n);
    if StrictlyAscending(out) && forall n :: n in out <==> a.OwnsNamespace(n) && b.OwnsNamespace(n) {
      assert Elements(out) == shared;
      AscendingUnique(out, Ascending(shared));
    }
  }

  /** Neither the side nor the order nor the repetition of namespaces matters. */
  lemma OverlapInvariant(a: TenantSpec, b: TenantSpec, c: TenantSpec, d: TenantSpec)
    requires Elements(a.namespaces) == Elements(c.namespaces) && Elements(b.namespaces) == Elements(d.namespaces)
    ensures a.Overlap(b) == d.Overlap(c) == c.Overlap(d)
  {
    assert Elements(a.namespaces) * Elements(b.namespaces) == Elements(d.namespaces) * Elements(c.namespaces);
  }

  lemma OverlapEmptyIff(a: TenantSpec, b: TenantSpec)
    ensures a.Overlap(b) == [] <==> !exists n :: a.OwnsNamespace(n) && b.OwnsNamespace(n)
  {
    OverlapCharacterised(a, b, a.Overlap(b));
    if exists n :: a.OwnsNamespace(n) && b.OwnsNamespace(n) {
      var n :| a.OwnsNamespace(n) && b.OwnsNamespace(n);
      assert n in a.Overlap(b);
    } else if a.Overlap(b) != [] {
      assert a.Overlap(b)[0] in a.Overlap(b);
    }
  }

  // ---------- Allowlist ----------

  ghost function AllowedNames(t: TenantSpec): set<string> {
    set e | e in t.allowedPlugins && e.name.Some? :: e.name.value
  }

  ghost function AllowedPrefixes(t: TenantSpec): set<string> {
    set e | e in t.allowedPlugins && e.registryPrefix.Some? :: e.registryPrefix.value
  }

  ghost predicate AdmittedBySets(t: TenantSpec, resourceName: string, pluginId: string, image: Option<string>) {
    || "*" in AllowedNames(t) || resourceName in AllowedNames(t) || pluginId in AllowedNames(t)
    || (image.Some? && exists p :: p in AllowedPrefixes(t) && p != "" && p <= image.value)
  }

  lemma EntryAdmits(t: TenantSpec, e: AllowedPlugin, resourceName: string, pluginId: string, image: Option<string>)
    requires e in t.allowedPlugins && e.Matches(resourceName, pluginId, image)
    ensures t.PluginAllowed(resourceName, pluginId, image)
  {
  }

  /** The allowlist acts as a set of names and a set of prefixes; how entries combine them is immaterial. */
  lemma AdmitsIff(t: TenantSpec, resourceName: string, pluginId: string, image: Option<string>)
    ensures t.PluginAllowed(resourceName, pluginId, image) <==> AdmittedBySets(t, resourceName, pluginId, image)
  {
    if t.PluginAllowed(resourceName, pluginId, image) {
      var i :| 0 <= i < |t.allowedPlugins| && t.allowedPlugins[i].Matches(resourceName, pluginId, image);
      var e := t.allowedPlugins[i];
      assert e in t.allowedPlugins;
      assert e.name.Some? ==> e.name.value in AllowedNames(t);
      assert e.registryPrefix.Some? ==> e.registryPrefix.value in AllowedPrefixes(t);
    }
    if n :| n in AllowedNames(t) && n in {"*", resourceName, pluginId} {
      var e :| e in t.allowedPlugins && e.name == Some(n);
      EntryAdmits(t, e, resourceName, pluginId, image);
    } else if AdmittedBySets(t, resourceName, pluginId, image) {
      var p :| p in AllowedPrefixes(t) && p != "" && p <= image.value;
      var e :| e in t.allowedPlugins && e.registryPrefix == Some(p);
      EntryAdmits(t, e, resourceName, pluginId, image);
    }
  }

  /** Adding, repeating or reordering entries never takes a plugin away. */
  lemma AllowlistMonotone(t: TenantSpec, u: TenantSpec, resourceName: string, pluginId: string, image: Option<string>)
    requires forall e | e in t.allowedPlugins :: e in u.allowedPlugins
    requires t.PluginAllowed(resourceName, pluginId, image)
    ensures u.PluginAllowed(resourceName, pluginId, image)
  {
    var i :| 0 <= i < |t.allowedPlugins| && t.allowedPlugins[i].Matches(resourceName, pluginId, image);
    EntryAdmits(u, t.allowedPlugins[i], resourceName, pluginId, image);
  }

  /** Some plugin name occurs in no entry. */
  lemma {:induction false} LongerThanNames(es: seq<AllowedPlugin>) returns (name: string)
    ensures forall i | 0 <= i < |es| && es[i].name.Some? :: |es[i].name.value| < |name|
  {
    if es == [] {
      name := "";
    } else {
      var n := LongerThanNames(es[1..]);
      name := n + (if es[0].name.Some? then es[0].name.value else "") + "x";
      forall i | 0 <= i < |es| && es[i].name.Some? ensures |es[i].name.value| < |name| {
        assert i > 0 ==> es[i] == es[1..][i - 1];
      }
    }
  }

  /** An allowlist admits every plugin, whatever its name and image, exactly when it has a `*` entry. */
  lemma AdmitsAllIff(t: TenantSpec)
    ensures (forall resourceName, pluginId, image :: t.PluginAllowed(resourceName, pluginId, image))
            <==> exists i :: 0 <= i < |t.allowedPlugins| && t.allowedPlugins[i].name == Some("*")
  {
    var es := t.allowedPlugins;
    if forall resourceName, pluginId, image :: t.PluginAllowed(resourceName, pluginId, image) {
      var fresh' := LongerThanNames(es);
      assert t.PluginAllowed(fresh', fresh', None);
      var i :| 0 <= i < |es| && es[i].Matches(fresh', fresh', None);
      assert es[i].name.value == "*";
    }
    if i :| 0 <= i < |es| && es[i].name == Some("*") {
      forall resourceName, pluginId, image ensures t.PluginAllowed(resourceName, pluginId, image) {
        assert es[i].Matches(resourceName, pluginId, image);
      }
    }
  }
}
