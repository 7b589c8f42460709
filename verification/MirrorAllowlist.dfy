/** A tenant's registry-prefix allowlist and a plugin mirror, two literal prefix tests on one image. */
module MirrorAllowlist {
  import opened Wrappers
  import opened PluginMirror
  import opened Tenant

  /** An allowlist of a single registry prefix. */
  function PrefixOnly(prefix: string): TenantSpec {
    TenantSpec([], [AllowedPlugin(None, Some(prefix))])
  }

  lemma PrefixOnlyAdmits(prefix: string, resourceName: string, pluginId: string, image: Option<string>)
    ensures PrefixOnly(prefix).PluginAllowed(resourceName, pluginId, image)
            <==> image.Some? && prefix != "" && prefix <= image.value
  {
    var t := PrefixOnly(prefix);
    assert t.PluginAllowed(resourceName, pluginId, image)
           <==> t.allowedPlugins[0].Matches(resourceName, pluginId, image);
  }

  /** The allowlist of a mirror's upstream prefix admits exactly the images that the mirror rewrites. */
  lemma MirrorPrefixAdmitsWhatItRewrites(m: PluginMirrorSpec, resourceName: string, pluginId: string, image: string)
    ensures PrefixOnly(m.UpstreamPrefix()).PluginAllowed(resourceName, pluginId, Some(image))
            <==> m.Rewrite(image).Rewritten?
  {
    PrefixOnlyAdmits(m.UpstreamPrefix(), resourceName, pluginId, Some(image));
  }

  /** One non-empty prefix admits whatever another does exactly when it is a prefix of the other. */
  lemma AdmitsMoreIff(shorter: string, longer: string, resourceName: string, pluginId: string)
    requires shorter != "" && longer != ""
    ensures (forall image :: PrefixOnly(longer).PluginAllowed(resourceName, pluginId, image)
                             ==> PrefixOnly(shorter).PluginAllowed(resourceName, pluginId, image))
            <==> shorter <= longer
  {
    PrefixOnlyAdmits(longer, resourceName, pluginId, Some(longer));
    PrefixOnlyAdmits(shorter, resourceName, pluginId, Some(longer));
    if shorter <= longer {
      forall image | PrefixOnly(longer).PluginAllowed(resourceName, pluginId, image)
        ensures PrefixOnly(shorter).PluginAllowed(resourceName, pluginId, image)
      {
        PrefixOnlyAdmits(longer, resourceName, pluginId, image);
        PrefixOnlyAdmits(shorter, resourceName, pluginId, image);
      }
    }
  }
}
