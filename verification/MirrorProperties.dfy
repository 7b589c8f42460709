/** What a mirror rewrite keeps, when it applies, and what determines it. */
module MirrorProperties {
  import opened Wrappers
  import opened Text
  import opened PluginMirror
  import opened OciReferences
  import Addresses

  lemma RewriteShape(m: PluginMirrorSpec, image: string)
    ensures m.Rewrite(image).Rewritten? <==> m.UpstreamPrefix() <= image
    ensures m.UpstreamPrefix() <= image ==>
              m.Rewrite(image) == Rewritten(m.EndpointBase() + image[|m.UpstreamPrefix()|..])
  {
  }

  // ---------- The rule, spelled out ----------

  ghost predicate OnlySlashes(s: string) {
    forall i | 0 <= i < |s| :: s[i] == '/'
  }

  ghost predicate NoSlashAtEnds(s: string) {
    s != "" ==> s[0] != '/' && s[|s| - 1] != '/'
  }

  /** Every string is slashes, a core without slashes at its ends, and slashes. */
  lemma EveryStringHasCore(s: string) returns (left: string, core: string, right: string)
    ensures s == left + core + right
    ensures OnlySlashes(left) && NoSlashAtEnds(core) && OnlySlashes(right)
  {
    left := TrimStartMeaning(s, IsSlash);
    var t := TrimStart(s, IsSlash);
    right := TrimEndMeaning(t, IsSlash);
    core := TrimEnd(t, IsSlash);
    assert core != "" ==> core[0] == t[0];
    assert left + core + right == left + (core + right);
  }

  lemma KeptByTrim(s: string)
    requires s != "" && !IsSlash(s[0]) && !IsSlash(s[|s| - 1])
    ensures TrimEnd(s, IsSlash) == s && Trim(s, IsSlash) == s
  {
  }

  lemma CoreOf(left: string, core: string, right: string)
    requires OnlySlashes(left) && NoSlashAtEnds(core) && OnlySlashes(right)
    ensures Trim(left + core + right, IsSlash) == core
  {
    TrimPadded(left, core, right, IsSlash);
    if core != "" {
      KeptByTrim(core);
    }
  }

  lemma RegistryCore(core: string, right: string)
    requires (core != "" ==> core[|core| - 1] != '/') && OnlySlashes(right)
    ensures TrimEnd(core + right, IsSlash) == core
  {
    TrimEndPadded(core, right, IsSlash);
  }

  /** `/` and the path, or nothing if there is no path. */
  function Rooted(path: string): string {
    if path == "" then "" else "/" + path
  }

  /** A path prefix is absent, or its core stands between slashes. */
  ghost predicate IsPathPrefix(prefix: Option<string>, path: string) {
    || (prefix == None && path == "")
    || (prefix.Some? && NoSlashAtEnds(path)
        && exists left, right :: OnlySlashes(left) && OnlySlashes(right) && prefix.value == left + path + right)
  }

  lemma PathText(m: PluginMirrorSpec, path: string)
    requires IsPathPrefix(m.service.pathPrefix, path)
    ensures m.Path() == Rooted(path)
  {
    if m.service.pathPrefix.Some? {
      var left, right :| OnlySlashes(left) && OnlySlashes(right) && m.service.pathPrefix.value == left + path + right;
      CoreOf(left, path, right);
    }
  }

  /** The host, spelled out. */
  lemma HostText(s: MirrorService)
    ensures s.Host() == s.name + "." + s.namespace + ".svc.cluster.local:" + PrintInt(s.port)
  {
    Addresses.PrintText(Addresses.ServiceAddress(s.name, s.namespace, s.port));
  }

  /**
   The fields as written: the registry is `registry` before slashes, the namespace is `namespace` between
   slashes, the path prefix is absent or `path` between slashes.
   */
  ghost predicate Written(m: PluginMirrorSpec, registry: string, namespace: string, path: string) {
    && (registry != "" ==> registry[|registry| - 1] != '/') && NoSlashAtEnds(namespace)
    && IsPathPrefix(m.service.pathPrefix, path)
    && exists s1, s2, s3 :: OnlySlashes(s1) && OnlySlashes(s2) && OnlySlashes(s3)
                            && m.upstream == MirrorUpstream(registry + s1, s2 + namespace + s3)
  }

  /** Every mirror is written in some such way. */
  lemma EveryMirrorIsWritten(m: PluginMirrorSpec) returns (registry: string, namespace: string, path: string)
    ensures Written(m, registry, namespace, path)
  {
    registry := TrimEnd(m.upstream.registry, IsSlash);
    var s1 := TrimEndMeaning(m.upstream.registry, IsSlash);
    var s2, core, s3 := EveryStringHasCore(m.upstream.namespace);
    namespace := core;
    assert m.upstream == MirrorUpstream(registry + s1, s2 + namespace + s3);
    assert OnlySlashes(s1);
    match m.service.pathPrefix
    case None => path := "";
    case Some(p) =>
      var left, c, right := EveryStringHasCore(p);
      path := c;
  }

  /**
   The whole rule in terms of the fields as written. An image is rewritten exactly if it starts with
   registry, namespace and a slash, and what follows is kept behind host and path.
   */
  lemma RewriteText(m: PluginMirrorSpec, registry: string, namespace: string, path: string, image: string)
    requires Written(m, registry, namespace, path)
    ensures forall rest | image == registry + "/" + namespace + "/" + rest ::
              m.Rewrite(image) == Rewritten(m.service.name + "." + m.service.namespace + ".svc.cluster.local:"
                                            + PrintInt(m.service.port) + Rooted(path) + "/" + rest)
    ensures !(registry + "/" + namespace + "/" <= image) ==> m.Rewrite(image) == NotApplicable
  {
    var s1, s2, s3 :| OnlySlashes(s1) && OnlySlashes(s2) && OnlySlashes(s3)
                      && m.upstream == MirrorUpstream(registry + s1, s2 + namespace + s3);
    RegistryCore(registry, s1);
    CoreOf(s2, namespace, s3);
    PathText(m, path);
    HostText(m.service);
    RewriteShape(m, image);
    var prefix := registry + "/" + namespace + "/";
    assert m.UpstreamPrefix() == prefix;
    forall rest | image == prefix + rest ensures m.Rewrite(image) == Rewritten(m.EndpointBase() + rest) {
      assert image[|prefix|..] == rest;
    }
  }

  // ---------- Inverse ----------

  /** Replaces the endpoint base by the upstream prefix. */
  function Restore(m: PluginMirrorSpec, reference: string): Option<string> {
    match StripPrefix(reference, m.EndpointBase())
    case None => None
    case Some(rest) => Some(m.UpstreamPrefix() + rest)
  }

  /**
   Rewriting and restoring are inverse bijections between the images under the upstream prefix and
   the references under the endpoint base.
   */
  lemma RewriteIffRestore(m: PluginMirrorSpec, image: string, reference: string)
    ensures m.Rewrite(image) == Rewritten(reference) <==> Restore(m, reference) == Some(image)
  {
  }

  /** Two images never collide on one mirror. */
  lemma RewriteInjective(m: PluginMirrorSpec, a: string, b: string)
    requires m.Rewrite(a).Rewritten? && m.Rewrite(a) == m.Rewrite(b)
    ensures a == b
  {
    RewriteIffRestore(m, a, m.Rewrite(a).image);
    RewriteIffRestore(m, b, m.Rewrite(b).image);
  }

  // ---------- Tag and digest ----------

  lemma HeadsAreDirectories(m: PluginMirrorSpec)
    ensures IsDirectory(m.UpstreamPrefix()) && IsDirectory(m.EndpointBase())
  {
  }

  lemma PinUnderEither(head: string, rest: string)
    requires IsDirectory(head)
    ensures '@' !in head ==> PinOf(head + rest) == PinOf(rest) && PinOf(head) == (None, None)
    ensures '@' in head ==>
              && PinOf(head).1.Some?
              && PinOf(head + rest) == (PinOf(head).0, Some(PinOf(head).1.value + rest))
  {
    if '@' in head {
      PinUnderDigest(head, rest);
    } else {
      PinUnder(head, rest);
      PinOfDirectory(head);
    }
  }

  lemma ExchangeHeads(a: string, b: string, rest: string)
    requires IsDirectory(a) && IsDirectory(b)
    ensures PinOf(b + rest) == PinOf(a + rest) <==> PinOf(a) == PinOf(b)
  {
    PinUnderEither(a, rest);
    PinUnderEither(b, rest);
    DigestShorter(rest);
    if '@' in a && '@' in b && PinOf(b + rest) == PinOf(a + rest) {
      SuffixCancels(PinOf(a).1.value, PinOf(b).1.value, rest);
    }
  }

  /**
   A rewrite keeps tag and digest exactly when the two fixed heads that it exchanges carry the same
   pin themselves.
   */
  lemma PinPreservedIff(m: PluginMirrorSpec, image: string)
    requires m.Rewrite(image).Rewritten?
    ensures PinOf(m.Rewrite(image).image) == PinOf(image)
            <==> PinOf(m.UpstreamPrefix()) == PinOf(m.EndpointBase())
  {
    RewriteShape(m, image);
    HeadsAreDirectories(m);
    var prefix, base := m.UpstreamPrefix(), m.EndpointBase();
    var rest := image[|prefix|..];
    assert image == prefix + rest;
    ExchangeHeads(prefix, base, rest);
  }

  /** No part of the mirror configuration contains `c`. */
  ghost predicate ConfigurationHasNo(m: PluginMirrorSpec, c: char) {
    && c !in m.upstream.registry && c !in m.upstream.namespace
    && c !in m.service.name && c !in m.service.namespace
    && (m.service.pathPrefix.Some? ==> c !in m.service.pathPrefix.value)
  }

  lemma TrimMembersIff(s: string, c: char)
    requires !IsSlash(c)
    ensures c in Trim(s, IsSlash) <==> c in s
    ensures c in TrimEnd(s, IsSlash) <==> c in s
  {
    if c in s {
      TrimKeeps(s, IsSlash, c);
    } else {
      TrimMembers(s, IsSlash, c);
    }
  }

  lemma PathHasAtIff(m: PluginMirrorSpec)
    ensures '@' in m.Path() <==> m.service.pathPrefix.Some? && '@' in m.service.pathPrefix.value
  {
    if m.service.pathPrefix.Some? {
      TrimMembersIff(m.service.pathPrefix.value, '@');
    }
  }

  lemma ConcatMembers(p: string, q: string, r: string, s: string, c: char)
    ensures c in p + q + r + s <==> c in p || c in q || c in r || c in s
  {
    assert c in p + q <==> c in p || c in q;
    assert c in p + q + r <==> c in p + q || c in r;
  }

  lemma HeadsHaveNoAt(m: PluginMirrorSpec)
    ensures ConfigurationHasNo(m, '@') <==> '@' !in m.UpstreamPrefix() && '@' !in m.EndpointBase()
  {
    TrimMembersIff(m.upstream.registry, '@');
    TrimMembersIff(m.upstream.namespace, '@');
    PathHasAtIff(m);
    Addresses.PrintHasNo(Addresses.ServiceAddress(m.service.name, m.service.namespace, m.service.port), '@');
    ConcatMembers(m.Registry(), "/", m.Namespace(), "/", '@');
    ConcatMembers(m.service.Host(), m.Path(), "/", "", '@');
    assert m.EndpointBase() + "" == m.EndpointBase();
  }

  /** The promise of the mirror: tag and digest survive, although the mirror host carries a port. */
  lemma PinPreserved(m: PluginMirrorSpec, image: string)
    requires ConfigurationHasNo(m, '@')
    requires m.Rewrite(image).Rewritten?
    ensures PinOf(m.Rewrite(image).image) == PinOf(image)
  {
    HeadsHaveNoAt(m);
    HeadsAreDirectories(m);
    PinOfDirectory(m.UpstreamPrefix());
    PinOfDirectory(m.EndpointBase());
    PinPreservedIff(m, image);
  }

  /** With a `@` in one head and not in the other, every rewrite loses the pin. */
  lemma AtInOneHeadLosesPin(m: PluginMirrorSpec, image: string)
    requires '@' in m.UpstreamPrefix() <==> '@' !in m.EndpointBase()
    requires m.Rewrite(image).Rewritten?
    ensures PinOf(m.Rewrite(image).image) != PinOf(image)
  {
    HeadsAreDirectories(m);
    PinUnderEither(m.UpstreamPrefix(), "");
    PinUnderEither(m.EndpointBase(), "");
    PinPreservedIff(m, image);
  }

  /** A mirror, allowed by the code, that does not keep the promise on tag and digest. */
  lemma PinLostExample()
    ensures var m := PluginMirrorSpec(MirrorService("n", "s", 80, Some("a@b")), MirrorUpstream("g", "o"));
            && m.Rewrite("g/o/x").Rewritten?
            && PinOf(m.Rewrite("g/o/x").image) != PinOf("g/o/x")
  {
    var m := PluginMirrorSpec(MirrorService("n", "s", 80, Some("a@b")), MirrorUpstream("g", "o"));
    KeptByTrim("g");
    KeptByTrim("o");
    KeptByTrim("a@b");
    assert m.UpstreamPrefix() == "g/o/";
    assert m.Path() == "/a@b";
    var host := m.service.Host();
    assert (host + "/a@b" + "/")[|host| + 2] == '@';
    RewriteShape(m, "g/o/x");
    AtInOneHeadLosesPin(m, "g/o/x");
  }

  /** The directories that the path prefix stands for, without leading slash. */
  function MirrorDirectory(m: PluginMirrorSpec): string {
    match m.service.pathPrefix
    case None => ""
    case Some(p) => if Trim(p, IsSlash) == "" then "" else Trim(p, IsSlash) + "/"
  }

  lemma BaseDirectories(m: PluginMirrorSpec)
    ensures m.EndpointBase() == m.service.Host() + "/" + MirrorDirectory(m)
  {
  }

  /**
   Image and rewritten image are references with the same tag and digest, whose paths differ in that
   registry and namespace give way to host and path prefix before the same repository suffix.
   */
  ghost predicate Rehomes(m: PluginMirrorSpec, image: string, output: string, suffix: string) {
    && Parse(image).Some? && Parse(output).Some?
    && var i, o := Parse(image).value, Parse(output).value;
       && i.registry + "/" + i.repository == m.Registry() + "/" + m.Namespace() + "/" + suffix
       && o.registry + "/" + o.repository == m.service.Host() + "/" + MirrorDirectory(m) + suffix
       && i.tag == o.tag && i.digest == o.digest
  }

  lemma RehomesWithoutAt(m: PluginMirrorSpec, rest: string)
    requires ConfigurationHasNo(m, '@')
    ensures Rehomes(m, m.UpstreamPrefix() + rest, m.EndpointBase() + rest, CutTag(CutDigest(rest).0).0)
  {
    HeadsHaveNoAt(m);
    HeadsAreDirectories(m);
    BaseDirectories(m);
    ReferenceUnder(m.UpstreamPrefix(), rest);
    ReferenceUnder(m.EndpointBase(), rest);
  }

  lemma RehomesHasNoAt(m: PluginMirrorSpec, image: string, output: string, suffix: string)
    requires Rehomes(m, image, output, suffix)
    ensures ConfigurationHasNo(m, '@')
  {
    PathHasNoDigest(image);
    PathHasNoDigest(output);
    BaseDirectories(m);
    HeadsHaveNoAt(m);
    ConcatMembers(m.UpstreamPrefix(), suffix, "", "", '@');
    ConcatMembers(m.EndpointBase(), suffix, "", "", '@');
    assert m.UpstreamPrefix() + suffix + "" + "" == m.UpstreamPrefix() + suffix;
    assert m.EndpointBase() + suffix + "" + "" == m.EndpointBase() + suffix;
  }

  /** A matching image is re-homed exactly when no part of the mirror configuration holds a `@`. */
  lemma RewriteRehomesIff(m: PluginMirrorSpec, image: string)
    requires m.Rewrite(image).Rewritten?
    ensures (exists suffix :: Rehomes(m, image, m.Rewrite(image).image, suffix)) <==> ConfigurationHasNo(m, '@')
  {
    RewriteShape(m, image);
    var rest := image[|m.UpstreamPrefix()|..];
    assert image == m.UpstreamPrefix() + rest;
    if suffix :| Rehomes(m, image, m.Rewrite(image).image, suffix) {
      RehomesHasNoAt(m, image, m.Rewrite(image).image, suffix);
    }
    if ConfigurationHasNo(m, '@') {
      RehomesWithoutAt(m, rest);
    }
  }

  lemma ImageRegistry(m: PluginMirrorSpec, image: string, output: string, suffix: string)
    requires Rehomes(m, image, output, suffix)
    ensures Parse(image).value.registry == m.Registry() <==> '/' !in m.Registry()
  {
    var i := Parse(image).value;
    ConcatAssociative(m.Registry() + "/", m.Namespace(), "/");
    ConcatAssociative(m.Registry() + "/", m.Namespace() + "/", suffix);
    FirstSegmentIff(i.registry, i.repository, m.Registry(), m.Namespace() + "/" + suffix);
  }

  lemma OutputRegistry(m: PluginMirrorSpec, image: string, output: string, suffix: string)
    requires Rehomes(m, image, output, suffix)
    ensures Parse(output).value.registry == m.service.Host() <==> '/' !in m.service.Host()
  {
    var o := Parse(output).value;
    ConcatAssociative(m.service.Host() + "/", MirrorDirectory(m), suffix);
    FirstSegmentIff(o.registry, o.repository, m.service.Host(), MirrorDirectory(m) + suffix);
  }

  lemma HostHasSlashIff(s: MirrorService)
    ensures '/' in s.Host() <==> '/' in s.name || '/' in s.namespace
  {
    Addresses.PrintHasNo(Addresses.ServiceAddress(s.name, s.namespace, s.port), '/');
  }

  lemma ReadsBackIff(s: MirrorService, text: string)
    ensures Addresses.Parse(text) == Some(Addresses.ServiceAddress(s.name, s.namespace, s.port))
            <==> text == s.Host() && Addresses.IsLabel(s.namespace)
  {
    Addresses.ParseIffPrinted(text, Addresses.ServiceAddress(s.name, s.namespace, s.port));
  }

  /**
   The registries that a reader sees. That of the image is the configured one exactly when the latter
   has no inner slash, that of the output is the mirror host exactly when its names have none. It reads
   back as the mirror's Service exactly when, besides, the namespace is a label.
   */
  lemma RegistriesSeen(m: PluginMirrorSpec, image: string, output: string, suffix: string)
    requires Rehomes(m, image, output, suffix)
    ensures Parse(image).value.registry == m.Registry() <==> '/' !in m.Registry()
    ensures Parse(output).value.registry == m.service.Host()
            <==> '/' !in m.service.name && '/' !in m.service.namespace
    ensures Addresses.Parse(Parse(output).value.registry)
              == Some(Addresses.ServiceAddress(m.service.name, m.service.namespace, m.service.port))
            <==> '/' !in m.service.name && '/' !in m.service.namespace && Addresses.IsLabel(m.service.namespace)
  {
    ImageRegistry(m, image, output, suffix);
    OutputRegistry(m, image, output, suffix);
    HostHasSlashIff(m.service);
    ReadsBackIff(m.service, Parse(output).value.registry);
  }

  // ---------- Path segments ----------

  /** The segments an image must start with. */
  function Segments(m: PluginMirrorSpec): seq<string> {
    Split(m.Registry(), '/') + Split(m.Namespace(), '/')
  }

  /** The literal prefix test is a test on whole segments, with at least one more to follow. */
  lemma AppliesIffSegments(m: PluginMirrorSpec, image: string)
    ensures m.Rewrite(image).Rewritten? <==> Segments(m) < Split(image, '/')
  {
    RewriteShape(m, image);
    SplitConcat(m.Registry(), m.Namespace(), '/');
    DirectoryPrefixIff(m.Registry() + "/" + m.Namespace(), image, '/');
  }

  lemma OwnPrefixSegments(m: PluginMirrorSpec)
    ensures Split(m.UpstreamPrefix(), '/') == Segments(m) + [""]
  {
    SplitConcat(m.Registry(), m.Namespace(), '/');
    SplitConcat(m.Registry() + "/" + m.Namespace(), "", '/');
    assert m.UpstreamPrefix() + "" == m.UpstreamPrefix();
    assert Split("", '/') == [""];
  }

  lemma BothMatchLonger(a: PluginMirrorSpec, b: PluginMirrorSpec)
    requires Segments(a) <= Segments(b)
    ensures a.Rewrite(b.UpstreamPrefix()).Rewritten? && b.Rewrite(b.UpstreamPrefix()).Rewritten?
  {
    OwnPrefixSegments(b);
    AppliesIffSegments(a, b.UpstreamPrefix());
    AppliesIffSegments(b, b.UpstreamPrefix());
  }

  /** Some image is rewritten by two mirrors exactly when the segments of one continue those of the other. */
  lemma SharedImageIff(a: PluginMirrorSpec, b: PluginMirrorSpec)
    ensures (exists image :: a.Rewrite(image).Rewritten? && b.Rewrite(image).Rewritten?)
            <==> Segments(a) <= Segments(b) || Segments(b) <= Segments(a)
  {
    if image :| a.Rewrite(image).Rewritten? && b.Rewrite(image).Rewritten? {
      AppliesIffSegments(a, image);
      AppliesIffSegments(b, image);
    }
    if Segments(a) <= Segments(b) {
      BothMatchLonger(a, b);
    }
    if Segments(b) <= Segments(a) {
      BothMatchLonger(b, a);
    }
  }

  /**
   Siblings never match the same image: neither `mcpg-devil` beside `mcpg-dev`, nor
   `mcpg-dev/source-codex` beside `mcpg-dev/source-code`.
   */
  lemma SiblingsExclude(a: PluginMirrorSpec, b: PluginMirrorSpec, image: string)
    requires |Segments(a)| == |Segments(b)| && Segments(a) != Segments(b)
    ensures a.Rewrite(image) == NotApplicable || b.Rewrite(image) == NotApplicable
  {
    AppliesIffSegments(a, image);
    AppliesIffSegments(b, image);
  }

  lemma NestedPrefix(registry: string, namespace: string, extra: string)
    ensures registry + "/" + (namespace + "/" + extra) + "/" == (registry + "/" + namespace + "/") + (extra + "/")
  {
  }

  lemma PrefixRest(prefix: string, rest: string)
    ensures prefix <= prefix + rest && (prefix + rest)[|prefix|..] == rest
  {
  }

  /** A shorter namespace matches whatever a longer one does, and keeps the extra segments. */
  lemma ShorterNamespaceKeepsSegments(a: PluginMirrorSpec, b: PluginMirrorSpec, extra: string, image: string)
    requires a.Registry() == b.Registry() && b.Namespace() == a.Namespace() + "/" + extra
    requires b.Rewrite(image).Rewritten?
    ensures var rest := image[|b.UpstreamPrefix()|..];
            && b.Rewrite(image) == Rewritten(b.EndpointBase() + rest)
            && a.Rewrite(image) == Rewritten(a.EndpointBase() + extra + "/" + rest)
  {
    RewriteShape(a, image);
    RewriteShape(b, image);
    var rest := image[|b.UpstreamPrefix()|..];
    NestedPrefix(a.Registry(), a.Namespace(), extra);
    ConcatAssociative(a.UpstreamPrefix(), extra + "/", rest);
    PrefixRest(a.UpstreamPrefix(), extra + "/" + rest);
    ConcatAssociative(extra, "/", rest);
    ConcatAssociative(a.EndpointBase(), extra, "/");
    ConcatAssociative(a.EndpointBase(), extra + "/", rest);
    assert image == a.UpstreamPrefix() + (extra + "/" + rest);
  }

  lemma DocumentedImage()
    ensures "ghcr.io" + "/" + "mcpg-dev" + "/" + "source-code/plugins/audit:1.0.0"
         == "ghcr.io/mcpg-dev/source-code/plugins/audit:1.0.0"
  {
    assert "ghcr.io" + "/" + "mcpg-dev" + "/" == "ghcr.io/mcpg-dev/";
  }

  /**
   The namespace `mcpg-dev` does match an image under `mcpg-dev/source-code`. The field's own
   documentation calls it too short to match.
   */
  lemma ShortNamespaceDoesMatch(m: PluginMirrorSpec)
    requires m.upstream == MirrorUpstream("ghcr.io", "mcpg-dev")
    ensures m.Rewrite("ghcr.io/mcpg-dev/source-code/plugins/audit:1.0.0")
         == Rewritten(m.EndpointBase() + "source-code/plugins/audit:1.0.0")
  {
    var registry, namespace, rest := "ghcr.io", "mcpg-dev", "source-code/plugins/audit:1.0.0";
    KeptByTrim(registry);
    KeptByTrim(namespace);
    DocumentedImage();
    PrefixRest(m.UpstreamPrefix(), rest);
    RewriteShape(m, m.UpstreamPrefix() + rest);
  }

  /** A namespace of slashes only matches no image whose segments are all non-empty. */
  lemma EmptyNamespaceMatchesNothing(m: PluginMirrorSpec, image: string)
    requires All(m.upstream.namespace, IsSlash)
    requires "" !in Split(image, '/')
    ensures m.Rewrite(image) == NotApplicable
  {
    TrimEmptyIff(m.upstream.namespace, IsSlash);
    AppliesIffSegments(m, image);
    assert Split("", '/') == [""];
    assert "" in Segments(m);
    assert Segments(m) < Split(image, '/') ==> forall p | p in Segments(m) :: p in Split(image, '/');
  }

  // ---------- Slash normalisation ----------

  /** The mirror with slashes added where the specification normalises them. */
  function Padded(m: PluginMirrorSpec, registryEnd: string, nsLeft: string, nsRight: string,
                  pathLeft: string, pathRight: string): PluginMirrorSpec {
    var path := match m.service.pathPrefix case None => None case Some(p) => Some(pathLeft + p + pathRight);
    m.(upstream := MirrorUpstream(m.upstream.registry + registryEnd, nsLeft + m.upstream.namespace + nsRight),
       service := m.service.(pathPrefix := path))
  }

  /** Slashes at the normalised places, each on its own, change the result on no image. */
  lemma SlashesIgnored(m: PluginMirrorSpec, registryEnd: string, nsLeft: string, nsRight: string,
                       pathLeft: string, pathRight: string, image: string)
    requires All(registryEnd, IsSlash) && All(nsLeft, IsSlash) && All(nsRight, IsSlash)
    requires All(pathLeft, IsSlash) && All(pathRight, IsSlash)
    ensures Padded(m, registryEnd, nsLeft, nsRight, pathLeft, pathRight).Rewrite(image) == m.Rewrite(image)
  {
    TrimEndPadded(m.upstream.registry, registryEnd, IsSlash);
    TrimPadded(nsLeft, m.upstream.namespace, nsRight, IsSlash);
    if m.service.pathPrefix.Some? {
      TrimPadded(pathLeft, m.service.pathPrefix.value, pathRight, IsSlash);
    }
  }

  /** An absent path prefix and one without any other character than slashes behave identically. */
  lemma BlankPathPrefixIsAbsent(m: PluginMirrorSpec, image: string)
    requires m.service.pathPrefix.Some? && All(m.service.pathPrefix.value, IsSlash)
    ensures m.Rewrite(image) == m.(service := m.service.(pathPrefix := None)).Rewrite(image)
  {
    TrimEmptyIff(m.service.pathPrefix.value, IsSlash);
  }

  /** Two mirrors behave alike on every image exactly when their normalised heads are equal. */
  lemma SameRuleIff(a: PluginMirrorSpec, b: PluginMirrorSpec)
    ensures (forall image :: a.Rewrite(image) == b.Rewrite(image))
            <==> a.UpstreamPrefix() == b.UpstreamPrefix() && a.EndpointBase() == b.EndpointBase()
  {
    if forall image :: a.Rewrite(image) == b.Rewrite(image) {
      var p, q := a.UpstreamPrefix(), b.UpstreamPrefix();
      assert a.Rewrite(p) == b.Rewrite(p) && a.Rewrite(q) == b.Rewrite(q);
      RewriteShape(a, p);
      RewriteShape(b, p);
      RewriteShape(a, q);
      RewriteShape(b, q);
      assert p[|p|..] == "" && a.EndpointBase() + "" == a.EndpointBase() && b.EndpointBase() + "" == b.EndpointBase();
    }
    if a.UpstreamPrefix() == b.UpstreamPrefix() && a.EndpointBase() == b.EndpointBase() {
      forall image ensures a.Rewrite(image) == b.Rewrite(image) {
        RewriteShape(a, image);
        RewriteShape(b, image);
      }
    }
  }
}
