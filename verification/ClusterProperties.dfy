/** How the renderers of the `cluster:` block and the transport guard fit together. */
module ClusterProperties {
  import opened Wrappers
  import opened Text
  import opened Json
  import opened Cluster
  import Addresses

  // ---------- Reading a block back ----------

  function BackendOf(kind: string): Option<ClusterBackend> {
    if kind == "single_node" then Some(SingleNode)
    else if kind == "redis" then Some(Redis)
    else if kind == "nats" then Some(Nats)
    else None
  }

  /** A block as the point-at-existing spec it describes: backend from `kind`, config from the rest. */
  function ReadBack(block: Json): Option<ClusterSpec> {
    match block.Get("kind")
    case Some(Str(kind)) =>
      (match BackendOf(kind)
       case Some(backend) => Some(ClusterSpec(backend, block.fields - {"kind"}, None))
       case None => None)
    case _ => None
  }

  /** A block survives reading and rendering, except that `single_node` drops what is beside `kind`. */
  lemma RenderAfterReadIff(block: Json, cluster: string, namespace: string)
    requires ReadBack(block).Some?
    ensures ReadBack(block).value.BlockWith(cluster, namespace) == block
            <==> !ReadBack(block).value.backend.SingleNode? || block.fields.Keys == {"kind"}
  {
  }

  /** A spec survives rendering and reading exactly when the block can hold all of it. */
  lemma ReadAfterRenderIff(spec: ClusterSpec, cluster: string, namespace: string)
    ensures ReadBack(spec.BlockWith(cluster, namespace)) == Some(spec)
            <==> && spec.managed == None
                 && "kind" !in spec.config
                 && (spec.backend.SingleNode? ==> spec.config == map[])
  {
    if spec.managed == None {
      var block := spec.Block();
      if "kind" !in spec.config {
        assert block - {"kind"} == if spec.backend.SingleNode? then map[] else spec.config;
      } else {
        assert "kind" !in block - {"kind"};
      }
    }
  }

  /** No `kind` key of the config reaches the block with a kind other than the backend's. */
  ghost predicate KindIntact(spec: ClusterSpec) {
    || spec.managed.Some? || spec.backend.SingleNode?
    || "kind" !in spec.config || spec.config["kind"] == Str(spec.backend.ConfigKind())
  }

  lemma ManagedKind(tls: bool, cluster: string, namespace: string)
    ensures Obj(ManagedFields(tls, cluster, namespace)).Get("kind") == Some(Str("nats"))
  {
    assert "kind" !in TransportFields(tls);
    assert "kind" in CommonFields(tls, cluster, namespace);
  }

  /** The kind that a gateway reads is that of the effective backend, unless config overrides it. */
  lemma RenderedKindIff(spec: ClusterSpec, cluster: string, namespace: string)
    ensures spec.BlockWith(cluster, namespace).Get("kind") == Some(Str(spec.EffectiveBackend().ConfigKind()))
            <==> KindIntact(spec)
  {
    ManagedKind(spec.ManagedTlsEnabled(), cluster, namespace);
  }

  /** An unmanaged block, spelled out: the kind alone, or the kind under whatever the config holds. */
  lemma UnmanagedBlockContents(spec: ClusterSpec, cluster: string, namespace: string, key: string)
    requires spec.managed == None
    ensures spec.backend.SingleNode? ==>
              spec.BlockWith(cluster, namespace) == Obj(map["kind" := Str("single_node")])
    ensures !spec.backend.SingleNode? ==>
              spec.BlockWith(cluster, namespace).Get(key) ==
              if key in spec.config then Some(spec.config[key])
              else if key == "kind" then Some(Str(if spec.backend.Redis? then "redis" else "nats"))
              else None
  {
  }

  // ---------- The guard ----------

  /** The operator's guard, recomputed from a rendered block alone. */
  function BlockInsecureReason(block: Json): Option<string> {
    var plaintextRedis := match block.Get("url")
                          case Some(Str(u)) => "redis://" <= TrimStart(u, IsWhitespace)
                          case _ => false;
    var plaintextNats := match block.Get("tls")
                         case Some(t) => t.Get("require_tls") == Some(Bool(false))
                         case None => false;
    if block.Get("allow_insecure_transport") == Some(Bool(true)) then None
    else if block.Get("kind") == Some(Str("redis")) && plaintextRedis then Some(REDIS_REASON)
    else if block.Get("kind") == Some(Str("nats")) && plaintextNats then Some(NATS_REASON)
    else None
  }

  /** What admission lets through: a managed spec sets neither backend nor config. */
  ghost predicate ManagedAdmissible(spec: ClusterSpec) {
    spec.managed.Some? ==> spec.backend.SingleNode? && spec.config == map[]
  }

  lemma BlockFields(spec: ClusterSpec, key: string)
    requires !spec.backend.SingleNode?
    ensures Obj(spec.Block()).Get(key) ==
            if key in spec.config then Some(spec.config[key])
            else if key == "kind" then Some(Str(spec.backend.ConfigKind()))
            else None
  {
  }

  lemma ManagedBlockPasses(tls: bool, cluster: string, namespace: string)
    ensures BlockInsecureReason(Obj(ManagedFields(tls, cluster, namespace))) == None
  {
    var t := TransportFields(tls);
    var m := ManagedFields(tls, cluster, namespace);
    assert "tls" in t && m["tls"] == t["tls"];
    ManagedKind(tls, cluster, namespace);
    if !tls {
      assert "allow_insecure_transport" in t && m["allow_insecure_transport"] == Bool(true);
    }
  }

  /** With TLS the managed block demands it and does not opt out; without, it opts out. */
  lemma ManagedTransport(spec: ClusterSpec, cluster: string, namespace: string)
    requires spec.managed.Some?
    ensures var block := spec.BlockWith(cluster, namespace);
            && block.Get("tls").Some?
            && block.Get("tls").value.Get("require_tls") == Some(Bool(spec.ManagedTlsEnabled()))
            && (block.Get("tls").value.Get("ca_cert").Some? <==> spec.ManagedTlsEnabled())
            && block.Get("allow_insecure_transport") == if spec.ManagedTlsEnabled() then None else Some(Bool(true))
  {
    var tls := spec.ManagedTlsEnabled();
    var t := TransportFields(tls);
    var m := ManagedFields(tls, cluster, namespace);
    assert "tls" in t && m["tls"] == t["tls"];
    assert "allow_insecure_transport" in t <==> !tls;
    assert "allow_insecure_transport" !in CommonFields(tls, cluster, namespace);
  }

  /** The opt-out is what lets the plaintext block through: without it, only the TLS block passes. */
  lemma OptOutCarriesPlaintext(spec: ClusterSpec, cluster: string, namespace: string)
    requires spec.managed.Some?
    ensures var block := spec.BlockWith(cluster, namespace);
            BlockInsecureReason(Obj(block.fields - {"allow_insecure_transport"}))
            == if spec.ManagedTlsEnabled() then None else Some(NATS_REASON)
  {
    ManagedTransport(spec, cluster, namespace);
    ManagedKind(spec.ManagedTlsEnabled(), cluster, namespace);
    var bare := Obj(spec.BlockWith(cluster, namespace).fields - {"allow_insecure_transport"});
    assert bare.Get("tls") == spec.BlockWith(cluster, namespace).Get("tls");
    assert bare.Get("kind") == Some(Str("nats"));
  }

  ghost predicate OptsOut(config: map<string, Json>) {
    Lookup(config, "allow_insecure_transport") == Some(Bool(true))
  }

  /** The config describes a plaintext transport for a coordinator of the given kind. */
  ghost predicate ShowsPlaintext(kind: Json, config: map<string, Json>) {
    || (kind == Str("redis") && "url" in config && config["url"].Str?
        && "redis://" <= TrimStart(config["url"].s, IsWhitespace))
    || (kind == Str("nats") && "tls" in config && config["tls"].Get("require_tls") == Some(Bool(false)))
  }

  lemma ReasonsDiffer()
    ensures REDIS_REASON != NATS_REASON
  {
  }

  function ReasonFor(kind: Json): Option<string> {
    if kind == Str("redis") then
      Some("the redis `url` uses the plaintext `redis://` scheme (use `rediss://`)")
    else if kind == Str("nats") then
      Some("nats `tls.require_tls` is set to `false` (plaintext)")
    else None
  }

  /** The guard reports plaintext for the backend's kind that the config does not opt out of. */
  lemma GuardMeaning(spec: ClusterSpec)
    ensures var kind := Str(spec.backend.ConfigKind());
            spec.InsecureTransportReason() ==
            if ShowsPlaintext(kind, spec.config) && !OptsOut(spec.config) then ReasonFor(kind) else None
  {
  }

  /** The kind under which an unmanaged block is read. */
  function RenderedKind(spec: ClusterSpec): Json {
    if !spec.backend.SingleNode? && "kind" in spec.config then spec.config["kind"] else Str(spec.backend.ConfigKind())
  }

  /** The verdict on an unmanaged block is that for the kind rendered into it. */
  lemma UnmanagedBlockMeaning(spec: ClusterSpec)
    ensures var kind := RenderedKind(spec);
            BlockInsecureReason(Obj(spec.Block())) ==
            if ShowsPlaintext(kind, spec.config) && !OptsOut(spec.config) then ReasonFor(kind) else None
  {
    if !spec.backend.SingleNode? {
      BlockFields(spec, "kind");
      BlockFields(spec, "allow_insecure_transport");
      BlockFields(spec, "url");
      BlockFields(spec, "tls");
    }
  }

  /**
   Nothing about the spec can make guard and rendered block disagree. For a managed spec, whose backend
   and config are not rendered, they must show no plaintext. For any other, no `kind` key may change
   the kind, unless the config shows plaintext under neither kind.
   */
  ghost predicate GuardSettled(spec: ClusterSpec) {
    var own := Str(spec.backend.ConfigKind());
    || spec.backend.SingleNode?
    || OptsOut(spec.config)
    || (if spec.managed.Some? then !ShowsPlaintext(own, spec.config)
        else || "kind" !in spec.config
             || spec.config["kind"] == own
             || (!ShowsPlaintext(own, spec.config) && !ShowsPlaintext(spec.config["kind"], spec.config)))
  }

  /** Guard and rendered block agree on a spec if and only if it is settled. */
  lemma GuardAgreesIff(spec: ClusterSpec, cluster: string, namespace: string)
    ensures BlockInsecureReason(spec.BlockWith(cluster, namespace)) == spec.InsecureTransportReason()
            <==> GuardSettled(spec)
  {
    GuardMeaning(spec);
    ReasonsDiffer();
    if spec.managed.Some? {
      ManagedBlockPasses(spec.ManagedTlsEnabled(), cluster, namespace);
    } else {
      UnmanagedBlockMeaning(spec);
    }
  }

  /** Whatever admission lets through is settled, as long as no `kind` key changes the kind. */
  lemma GuardAgreesWithBlock(spec: ClusterSpec, cluster: string, namespace: string)
    requires KindIntact(spec) && ManagedAdmissible(spec)
    ensures BlockInsecureReason(spec.BlockWith(cluster, namespace)) == spec.InsecureTransportReason()
  {
    GuardAgreesIff(spec, cluster, namespace);
  }

  /** The guard is silent although the rendered block is plaintext and does not itself opt out. */
  ghost predicate Missed(spec: ClusterSpec, cluster: string, namespace: string) {
    spec.InsecureTransportReason() == None && BlockInsecureReason(spec.BlockWith(cluster, namespace)).Some?
  }

  /**
   A plaintext block is missed exactly when a `kind` key names the other kind, the config is plaintext
   under that kind and not under the backend's own, and it does not opt out.
   */
  lemma MissedIff(spec: ClusterSpec, cluster: string, namespace: string)
    ensures Missed(spec, cluster, namespace)
            <==> && spec.managed == None && !spec.backend.SingleNode? && "kind" in spec.config
                 && !OptsOut(spec.config)
                 && !ShowsPlaintext(Str(spec.backend.ConfigKind()), spec.config)
                 && ShowsPlaintext(spec.config["kind"], spec.config)
  {
    GuardMeaning(spec);
    if spec.managed.Some? {
      ManagedBlockPasses(spec.ManagedTlsEnabled(), cluster, namespace);
    } else {
      UnmanagedBlockMeaning(spec);
    }
  }

  /**
   The guard's documentation promises a reason whenever the rendered coordinator is plaintext and the
   opt-out is not present in the config of the spec. Here it gives none.
   */
  ghost predicate PromiseBroken(spec: ClusterSpec, cluster: string, namespace: string) {
    var block := spec.BlockWith(cluster, namespace);
    && block.Get("kind").Some? && ShowsPlaintext(block.Get("kind").value, block.fields)
    && !OptsOut(spec.config)
    && spec.InsecureTransportReason() == None
  }

  lemma ManagedShowsPlaintext(spec: ClusterSpec, cluster: string, namespace: string)
    requires spec.managed.Some?
    ensures ShowsPlaintext(Str("nats"), spec.BlockWith(cluster, namespace).fields) <==> !spec.ManagedTlsEnabled()
  {
    ManagedTransport(spec, cluster, namespace);
  }

  lemma UnmanagedShowsPlaintext(spec: ClusterSpec)
    ensures ShowsPlaintext(RenderedKind(spec), spec.Block())
            <==> !spec.backend.SingleNode? && ShowsPlaintext(RenderedKind(spec), spec.config)
  {
    if !spec.backend.SingleNode? {
      BlockFields(spec, "url");
      BlockFields(spec, "tls");
    }
  }

  /**
   The documented promise fails exactly when the config does not opt out, shows no plaintext for the
   backend's own kind, and something else makes the block plaintext: a managed coordinator without TLS,
   or a `kind` key under which the config is plaintext.
   */
  lemma PromiseBrokenIff(spec: ClusterSpec, cluster: string, namespace: string)
    ensures PromiseBroken(spec, cluster, namespace)
            <==> && !OptsOut(spec.config)
                 && (spec.backend.SingleNode? || !ShowsPlaintext(Str(spec.backend.ConfigKind()), spec.config))
                 && (if spec.managed.Some? then !spec.ManagedTlsEnabled()
                     else && !spec.backend.SingleNode? && "kind" in spec.config
                          && ShowsPlaintext(spec.config["kind"], spec.config))
  {
    GuardMeaning(spec);
    if spec.managed.Some? {
      ManagedKind(spec.ManagedTlsEnabled(), cluster, namespace);
      ManagedShowsPlaintext(spec, cluster, namespace);
    } else {
      UnmanagedShowsPlaintext(spec);
      if !spec.backend.SingleNode? {
        BlockFields(spec, "kind");
      }
      assert Obj(spec.Block()).Get("kind") == Some(RenderedKind(spec));
    }
  }

  /**
   Every admissible managed spec without TLS breaks the promise as it is written: the opt-out is in the
   rendered block, not in the config of the spec. The guard on the block is silent as well.
   */
  lemma AdmissibleManagedPlaintext(spec: ClusterSpec, cluster: string, namespace: string)
    requires spec.managed.Some? && ManagedAdmissible(spec)
    ensures PromiseBroken(spec, cluster, namespace) <==> !spec.ManagedTlsEnabled()
    ensures !Missed(spec, cluster, namespace)
  {
    PromiseBrokenIff(spec, cluster, namespace);
    MissedIff(spec, cluster, namespace);
  }

  /** A managed coordinator with every field at its default. */
  lemma DefaultManagedBreaksPromise(cluster: string, namespace: string)
    ensures var spec := ClusterSpec(SingleNode, map[], Some(ManagedCoordinator(None)));
            ManagedAdmissible(spec) && KindIntact(spec) && PromiseBroken(spec, cluster, namespace)
  {
    AdmissibleManagedPlaintext(ClusterSpec(SingleNode, map[], Some(ManagedCoordinator(None))), cluster, namespace);
  }

  /** This redis spec renders a plaintext nats block without any opt-out and gets no reason. */
  lemma PlaintextNatsBehindRedis(cluster: string, namespace: string)
    ensures var tls := Obj(map["require_tls" := Bool(false)]);
            var spec := ClusterSpec(Redis, map["kind" := Str("nats"), "tls" := tls], None);
            && PromiseBroken(spec, cluster, namespace)
            && Missed(spec, cluster, namespace)
            && BlockInsecureReason(spec.BlockWith(cluster, namespace)) == Some(NATS_REASON)
  {
    var tls := Obj(map["require_tls" := Bool(false)]);
    var spec := ClusterSpec(Redis, map["kind" := Str("nats"), "tls" := tls], None);
    PromiseBrokenIff(spec, cluster, namespace);
    MissedIff(spec, cluster, namespace);
    UnmanagedBlockMeaning(spec);
  }

  /** A config with the given `kind` key that is plaintext for the backend. */
  function PlaintextConfig(backend: ClusterBackend, kind: Json): map<string, Json> {
    if backend.Redis? then map["kind" := kind, "url" := Str("redis://")]
    else map["kind" := kind, "tls" := Obj(map["require_tls" := Bool(false)])]
  }

  lemma PlaintextConfigShows(backend: ClusterBackend, kind: Json, any: Json)
    requires !backend.SingleNode?
    ensures var config := PlaintextConfig(backend, kind);
            && !OptsOut(config) && config["kind"] == kind
            && (ShowsPlaintext(any, config) <==> any == Str(backend.ConfigKind()))
  {
    assert TrimStart("redis://", IsWhitespace) == "redis://";
  }

  ghost predicate Overrides(backend: ClusterBackend, kind: Json, spec: ClusterSpec) {
    spec.backend == backend && spec.managed == None && "kind" in spec.config && spec.config["kind"] == kind
  }

  function OtherBackend(backend: ClusterBackend): ClusterBackend {
    if backend.Redis? then Nats else Redis
  }

  /**
   What a `kind` key can do over all configs: a false alarm is possible exactly when it is not the
   backend's own kind, a missed plaintext block exactly when it is the other backend's.
   */
  lemma KindOverrideIff(backend: ClusterBackend, kind: Json)
    requires !backend.SingleNode?
    ensures (exists spec :: Overrides(backend, kind, spec)
                            && spec.InsecureTransportReason().Some? && BlockInsecureReason(Obj(spec.Block())) == None)
            <==> kind != Str(backend.ConfigKind())
    ensures (exists spec :: Overrides(backend, kind, spec) && Missed(spec, "", ""))
            <==> kind == Str(OtherBackend(backend).ConfigKind())
  {
    forall spec | Overrides(backend, kind, spec)
      ensures spec.InsecureTransportReason().Some? && BlockInsecureReason(Obj(spec.Block())) == None
              ==> kind != Str(backend.ConfigKind())
      ensures Missed(spec, "", "") ==> kind == Str(OtherBackend(backend).ConfigKind())
    {
      GuardMeaning(spec);
      UnmanagedBlockMeaning(spec);
      MissedIff(spec, "", "");
    }
    if kind != Str(backend.ConfigKind()) {
      var spec := ClusterSpec(backend, PlaintextConfig(backend, kind), None);
      PlaintextConfigShows(backend, kind, kind);
      PlaintextConfigShows(backend, kind, Str(backend.ConfigKind()));
      GuardMeaning(spec);
      UnmanagedBlockMeaning(spec);
      assert Overrides(backend, kind, spec);
    }
    if kind == Str(OtherBackend(backend).ConfigKind()) {
      var spec := ClusterSpec(backend, PlaintextConfig(OtherBackend(backend), kind), None);
      PlaintextConfigShows(OtherBackend(backend), kind, kind);
      PlaintextConfigShows(OtherBackend(backend), kind, Str(backend.ConfigKind()));
      MissedIff(spec, "", "");
      assert Overrides(backend, kind, spec);
    }
  }

  /** Whitespace in front of a redis URL changes no verdict, whatever it consists of. */
  lemma LeadingWhitespaceIgnored(config: map<string, Json>, pad: string, url: string)
    requires All(pad, IsWhitespace)
    ensures ClusterSpec(Redis, config["url" := Str(pad + url)], None).InsecureTransportReason()
         == ClusterSpec(Redis, config["url" := Str(url)], None).InsecureTransportReason()
  {
    TrimStartPadded(url, pad, IsWhitespace);
  }

  /** So it is for spaces and tabs. */
  lemma SpacesAndTabsAreWhitespace(pad: string)
    requires forall i | 0 <= i < |pad| :: pad[i] == ' ' || pad[i] == '\t'
    ensures All(pad, IsWhitespace)
  {
  }

  /** An issuer named by spaces and tabs is no issuer. */
  lemma BlankIssuerMeansNoTls(spec: ClusterSpec)
    requires spec.managed.Some? && spec.managed.value.tls.Some? && spec.managed.value.tls.value.issuerRef.Some?
    requires var name := spec.managed.value.tls.value.issuerRef.value.name;
             forall i | 0 <= i < |name| :: name[i] == ' ' || name[i] == '\t'
    ensures !spec.ManagedTlsEnabled()
  {
    var name := spec.managed.value.tls.value.issuerRef.value.name;
    SpacesAndTabsAreWhitespace(name);
    TrimEmptyIff(name, IsWhitespace);
  }

  /** TLS is on exactly when an issuer is named by something other than whitespace. */
  lemma ManagedTlsIff(spec: ClusterSpec)
    ensures spec.ManagedTlsEnabled() <==>
            && spec.managed.Some? && spec.managed.value.tls.Some? && spec.managed.value.tls.value.issuerRef.Some?
            && exists c :: c in spec.managed.value.tls.value.issuerRef.value.name && !IsWhitespace(c)
  {
    if spec.managed.Some? && spec.managed.value.tls.Some? && spec.managed.value.tls.value.issuerRef.Some? {
      var name := spec.managed.value.tls.value.issuerRef.value.name;
      TrimEmptyIff(name, IsWhitespace);
      if !All(name, IsWhitespace) {
        var i :| 0 <= i < |name| && !IsWhitespace(name[i]);
        assert name[i] in name;
      }
    }
  }

  // ---------- The managed block is a fixed point ----------

  /**
   Reading the managed block back as a point-at-existing spec gives a nats spec that renders to the
   identical block and passes the guard, with TLS or without.
   */
  lemma ManagedBlockIsFixedPoint(spec: ClusterSpec, cluster: string, namespace: string,
                                 anyCluster: string, anyNamespace: string)
    requires spec.managed.Some?
    ensures var block := spec.BlockWith(cluster, namespace);
            && ReadBack(block).Some?
            && var again := ReadBack(block).value;
            && again.backend == Nats && again.managed == None
            && again.BlockWith(anyCluster, anyNamespace) == block
            && again.InsecureTransportReason() == None
  {
    var tls := spec.ManagedTlsEnabled();
    var block := spec.BlockWith(cluster, namespace);
    ManagedKind(tls, cluster, namespace);
    assert block.Get("kind") == Some(Str("nats"));
    var again := ReadBack(block).value;
    RenderAfterReadIff(block, anyCluster, anyNamespace);
    ManagedBlockPasses(tls, cluster, namespace);
    GuardAgreesIff(again, anyCluster, anyNamespace);
  }

  /** The transport fields overwrite none of the shared ones. */
  lemma CommonFieldsKept(spec: ClusterSpec, cluster: string, namespace: string, key: string)
    requires spec.managed.Some? && key in CommonFields(spec.ManagedTlsEnabled(), cluster, namespace)
    ensures spec.BlockWith(cluster, namespace).Get(key)
         == Some(CommonFields(spec.ManagedTlsEnabled(), cluster, namespace)[key])
  {
    var tls := spec.ManagedTlsEnabled();
    assert TransportFields(tls).Keys <= {"tls", "allow_insecure_transport"};
    assert "tls" !in CommonFields(tls, cluster, namespace);
    assert "allow_insecure_transport" !in CommonFields(tls, cluster, namespace);
  }

  // ---------- The managed block names its coordinator ----------

  /** The URL of a managed coordinator, taken apart. */
  function ParseCoordinatorUrl(url: string): Option<(bool, string, string)> {
    var (tls, address) := match StripPrefix(url, "tls://")
                          case Some(a) => (true, Addresses.Parse(a))
                          case None =>
                            match StripPrefix(url, "nats://")
                            case Some(a) => (false, Addresses.Parse(a))
                            case None => (false, None);
    match address
    case None => None
    case Some(a) =>
      match StripSuffix(a.name, "-nats")
      case Some(cluster) => if a.port == MANAGED_NATS_CLIENT_PORT then Some((tls, cluster, a.namespace)) else None
      case None => None
  }

  function CoordinatorAddress(cluster: string, namespace: string): Addresses.ServiceAddress {
    Addresses.ServiceAddress(ManagedNatsServiceName(cluster), namespace, MANAGED_NATS_CLIENT_PORT)
  }

  lemma ParsePrintedCoordinatorUrl(tls: bool, cluster: string, namespace: string)
    requires Addresses.IsLabel(namespace)
    ensures ParseCoordinatorUrl(CoordinatorUrl(tls, cluster, namespace)) == Some((tls, cluster, namespace))
  {
    var a := CoordinatorAddress(cluster, namespace);
    var text := Addresses.Print(a);
    Addresses.ParsePrinted(a);
    StripPrefixAt(if tls then "tls://" else "nats://", text);
    assert "tls://"[0] == 't' && ("nats://" + text)[0] == 'n';
    assert StripSuffix(cluster + "-nats", "-nats") == Some(cluster);
  }

  /** The reader accepts exactly the printed URLs, and returns scheme, cluster and namespace. */
  lemma ParseCoordinatorUrlIff(url: string, tls: bool, cluster: string, namespace: string)
    ensures ParseCoordinatorUrl(url) == Some((tls, cluster, namespace))
            <==> url == CoordinatorUrl(tls, cluster, namespace) && Addresses.IsLabel(namespace)
  {
    if ParseCoordinatorUrl(url) == Some((tls, cluster, namespace)) {
      var text := StripPrefix(url, if tls then "tls://" else "nats://").value;
      Addresses.ParsedIsPrinted(text, CoordinatorAddress(cluster, namespace));
    }
    if url == CoordinatorUrl(tls, cluster, namespace) && Addresses.IsLabel(namespace) {
      ParsePrintedCoordinatorUrl(tls, cluster, namespace);
    }
  }

  lemma BlockServers(spec: ClusterSpec, cluster: string, namespace: string)
    requires spec.managed.Some?
    ensures spec.BlockWith(cluster, namespace).Get("servers")
         == Some(Arr([Str(CoordinatorUrl(spec.ManagedTlsEnabled(), cluster, namespace))]))
  {
    CommonFieldsKept(spec, cluster, namespace, "servers");
  }

  /** The part of the URL in which cluster name and operator namespace meet. */
  function Labels(cluster: string, namespace: string): string {
    cluster + "-nats." + namespace
  }

  lemma ClientPortText()
    ensures PrintInt(MANAGED_NATS_CLIENT_PORT) == "4222"
  {
  }

  /** The coordinator URL, spelled out. */
  lemma CoordinatorUrlText(tls: bool, cluster: string, namespace: string)
    ensures CoordinatorUrl(tls, cluster, namespace)
         == (if tls then "tls://" else "nats://") + (cluster + "-nats." + namespace + ".svc.cluster.local:4222")
  {
    ClientPortText();
    Addresses.PrintText(CoordinatorAddress(cluster, namespace));
    assert cluster + "-nats" + "." == cluster + "-nats.";
    assert ".svc.cluster.local:" + "4222" == ".svc.cluster.local:4222";
    ConcatAssociative(cluster + "-nats." + namespace, ".svc.cluster.local:", "4222");
  }

  lemma SchemesDiffer(a: string, b: string)
    ensures "tls://" + a != "nats://" + b
  {
    assert ("tls://" + a)[0] == 't' && ("nats://" + b)[0] == 'n';
  }

  /** Two coordinator URLs are equal exactly for one scheme and one text where the names meet. */
  lemma UrlsEqualIff(s: bool, t: bool, c: string, d: string, m: string, n: string)
    ensures CoordinatorUrl(s, c, m) == CoordinatorUrl(t, d, n) <==> s == t && Labels(c, m) == Labels(d, n)
  {
    CoordinatorUrlText(s, c, m);
    CoordinatorUrlText(t, d, n);
    var tail := ".svc.cluster.local:4222";
    SchemesDiffer(Labels(c, m) + tail, Labels(d, n) + tail);
    SchemesDiffer(Labels(d, n) + tail, Labels(c, m) + tail);
    if s == t && CoordinatorUrl(s, c, m) == CoordinatorUrl(t, d, n) {
      PrefixCancels(if s then "tls://" else "nats://", Labels(c, m) + tail, Labels(d, n) + tail);
      SuffixCancels(Labels(c, m), Labels(d, n), tail);
    }
  }

  /** What a managed block shares between TLS and plaintext, spelled out. */
  lemma ManagedBlockShared(spec: ClusterSpec, cluster: string, namespace: string)
    requires spec.managed.Some?
    ensures var block := spec.BlockWith(cluster, namespace);
            var url := (if spec.ManagedTlsEnabled() then "tls://" else "nats://")
                       + (cluster + "-nats." + namespace + ".svc.cluster.local:4222");
            && block.Get("kind") == Some(Str("nats"))
            && block.Get("servers") == Some(Arr([Str(url)]))
            && block.Get("state_encryption_key_env") == Some(Str("MCPG_CLUSTER_STATE_KEY"))
            && block.Get("auth")
               == Some(Obj(map["method" := Str("token"), "token" := Str("${env.MCPG_CLUSTER_NATS_TOKEN}")]))
            && block.Get("node") == Some(Obj(map["id" := Str("${env.POD_NAME}")]))
            && block.Get("jetstream") == Some(Obj(map["replicas" := Int(1), "storage" := Str("file")]))
  {
    CoordinatorUrlText(spec.ManagedTlsEnabled(), cluster, namespace);
    CommonFieldsKept(spec, cluster, namespace, "kind");
    CommonFieldsKept(spec, cluster, namespace, "servers");
    CommonFieldsKept(spec, cluster, namespace, "state_encryption_key_env");
    CommonFieldsKept(spec, cluster, namespace, "auth");
    CommonFieldsKept(spec, cluster, namespace, "node");
    CommonFieldsKept(spec, cluster, namespace, "jetstream");
  }

  /** What depends on TLS, spelled out, and the keys there are. */
  lemma ManagedBlockTransport(spec: ClusterSpec, cluster: string, namespace: string)
    requires spec.managed.Some?
    ensures var block := spec.BlockWith(cluster, namespace);
            var shared := {"kind", "servers", "state_encryption_key_env", "auth", "node", "jetstream", "tls"};
            if spec.ManagedTlsEnabled() then
              && block.fields.Keys == shared
              && block.Get("tls")
                 == Some(Obj(map["require_tls" := Bool(true), "ca_cert" := Str("${env.MCPG_CLUSTER_NATS_CA}")]))
            else
              && block.fields.Keys == shared + {"allow_insecure_transport"}
              && block.Get("tls") == Some(Obj(map["require_tls" := Bool(false)]))
              && block.Get("allow_insecure_transport") == Some(Bool(true))
  {
    var tls := spec.ManagedTlsEnabled();
    var t, m := TransportFields(tls), ManagedFields(tls, cluster, namespace);
    assert "tls" in t && m["tls"] == t["tls"];
    assert m.Keys == CommonFields(tls, cluster, namespace).Keys + t.Keys;
    if !tls {
      assert "allow_insecure_transport" in t && m["allow_insecure_transport"] == t["allow_insecure_transport"];
    }
  }

  /** The text `part` stands at position `k` of `text`. */
  ghost predicate OccursAt(text: string, part: string, k: int) {
    0 <= k <= k + |part| <= |text| && text[k..k + |part|] == part
  }

  /** `-nats.` stands somewhere else in the text than between cluster name and namespace. */
  ghost predicate Ambiguous(cluster: string, namespace: string) {
    exists k :: k != |cluster| && OccursAt(Labels(cluster, namespace), "-nats.", k)
  }

  /** Each place where `-nats.` stands is one way to read the text as cluster name and namespace. */
  lemma LabelsSplit(text: string, k: int)
    requires OccursAt(text, "-nats.", k)
    ensures Labels(text[..k], text[k + 6..]) == text
  {
    assert text == text[..k] + text[k..k + 6] + text[k + 6..];
  }

  lemma LabelsSameLength(c: string, d: string, m: string, n: string)
    ensures Labels(c, m) == Labels(d, n) && |c| == |d| ==> c == d && m == n
  {
    assert Labels(c, m)[..|c|] == c && Labels(d, n)[..|d|] == d;
    assert Labels(c, m)[|c| + 6..] == m && Labels(d, n)[|d| + 6..] == n;
  }

  /** A coordinator shares its URL with another one exactly when its own names are ambiguous. */
  lemma SharedUrlIff(tls: bool, c: string, m: string)
    ensures (exists d, n :: (d != c || n != m) && CoordinatorUrl(tls, d, n) == CoordinatorUrl(tls, c, m))
            <==> Ambiguous(c, m)
  {
    var text := Labels(c, m);
    if d, n :| (d != c || n != m) && CoordinatorUrl(tls, d, n) == CoordinatorUrl(tls, c, m) {
      UrlsEqualIff(tls, tls, d, c, n, m);
      LabelsSameLength(d, c, n, m);
      assert OccursAt(text, "-nats.", |d|);
    }
    if k :| k != |c| && OccursAt(text, "-nats.", k) {
      LabelsSplit(text, k);
      UrlsEqualIff(tls, tls, text[..k], c, text[k + 6..], m);
      assert |text[..k]| != |c|;
    }
  }

  /** The instance of cluster `a` in `b-nats.c` and cluster `a-nats.b` in `c`. */
  lemma DottedNamespaceCollides(tls: bool)
    ensures CoordinatorUrl(tls, "a", "b-nats.c") == CoordinatorUrl(tls, "a-nats.b", "c")
  {
    assert Labels("a", "b-nats.c") == Labels("a-nats.b", "c");
    UrlsEqualIff(tls, tls, "a", "a-nats.b", "b-nats.c", "c");
  }

  /** Managed blocks are equal exactly for the same TLS choice and the same text where the names meet. */
  lemma ManagedBlocksSameIff(s: ClusterSpec, t: ClusterSpec, c: string, d: string, m: string, n: string)
    requires s.managed.Some? && t.managed.Some?
    ensures s.BlockWith(c, m) == t.BlockWith(d, n)
            <==> s.ManagedTlsEnabled() == t.ManagedTlsEnabled() && Labels(c, m) == Labels(d, n)
  {
    BlockServers(s, c, m);
    BlockServers(t, d, n);
    var u, v := CoordinatorUrl(s.ManagedTlsEnabled(), c, m), CoordinatorUrl(t.ManagedTlsEnabled(), d, n);
    UrlsEqualIff(s.ManagedTlsEnabled(), t.ManagedTlsEnabled(), c, d, m, n);
    assert [Str(u)] == [Str(v)] ==> [Str(u)][0] == [Str(v)][0];
  }

  /** For operator namespaces that are labels, equal blocks mean the same TLS choice, cluster and namespace. */
  lemma ManagedBlocksEqualIff(s: ClusterSpec, t: ClusterSpec, c: string, d: string, m: string, n: string)
    requires s.managed.Some? && t.managed.Some?
    requires Addresses.IsLabel(m) && Addresses.IsLabel(n)
    ensures s.BlockWith(c, m) == t.BlockWith(d, n)
            <==> s.ManagedTlsEnabled() == t.ManagedTlsEnabled() && c == d && m == n
  {
    ManagedBlocksSameIff(s, t, c, d, m, n);
    ParsePrintedCoordinatorUrl(true, c, m);
    ParsePrintedCoordinatorUrl(true, d, n);
    UrlsEqualIff(true, true, c, d, m, n);
  }

  /** Cluster name and operator namespace matter to a managed spec's block, and to no other. */
  lemma NamingMattersIff(spec: ClusterSpec, c: string, d: string, m: string, n: string)
    ensures spec.BlockWith(c, m) == spec.BlockWith(d, n) <==> spec.managed == None || Labels(c, m) == Labels(d, n)
  {
    if spec.managed.Some? {
      ManagedBlocksSameIff(spec, spec, c, d, m, n);
    }
  }

  // ---------- Names ----------

  /** The objects of a managed coordinator. */
  datatype ManagedObject = ClientService | HeadlessService | StatefulSet | ConfigMap | TlsSecret | CoordinationSecret {
    function NameFor(cluster: string): string {
      match this
      case ClientService => ManagedNatsServiceName(cluster)
      case HeadlessService => ManagedNatsHeadlessServiceName(cluster)
      case StatefulSet => ManagedNatsStatefulsetName(cluster)
      case ConfigMap => ManagedNatsConfigName(cluster)
      case TlsSecret => ManagedNatsTlsSecretName(cluster)
      case CoordinationSecret => ManagedCoordinationSecretName(cluster)
    }

    function Suffix(): (s: string)
      ensures |s| >= 2
    {
      match this
      case ClientService => "-nats"
      case HeadlessService => "-nats-headless"
      case StatefulSet => "-nats"
      case ConfigMap => "-nats-config"
      case TlsSecret => "-nats-tls"
      case CoordinationSecret => "-coordination"
    }
  }

  function LastTwo(s: string): (char, char)
    requires |s| >= 2
  {
    (s[|s| - 2], s[|s| - 1])
  }

  /** The two objects that share a name by design. They are of different Kubernetes kinds. */
  ghost predicate ShareName(x: ManagedObject, y: ManagedObject) {
    x == y || {x, y} == {ClientService, StatefulSet}
  }

  /** The last two characters tell the suffixes apart. */
  lemma LastTwoDistinguish(x: ManagedObject, y: ManagedObject)
    requires LastTwo(x.Suffix()) == LastTwo(y.Suffix())
    ensures ShareName(x, y)
  {
  }

  /** Each object's name gives the cluster back when its literal suffix is stripped. */
  lemma NamesStripped(cluster: string)
    ensures StripSuffix(ManagedNatsServiceName(cluster), "-nats") == Some(cluster)
    ensures StripSuffix(ManagedNatsHeadlessServiceName(cluster), "-nats-headless") == Some(cluster)
    ensures StripSuffix(ManagedNatsStatefulsetName(cluster), "-nats") == Some(cluster)
    ensures StripSuffix(ManagedNatsConfigName(cluster), "-nats-config") == Some(cluster)
    ensures StripSuffix(ManagedNatsTlsSecretName(cluster), "-nats-tls") == Some(cluster)
    ensures StripSuffix(ManagedCoordinationSecretName(cluster), "-coordination") == Some(cluster)
  {
  }

  /**
   Across all clusters and all objects, two names are equal exactly for one object of one cluster, or
   for its client Service and StatefulSet.
   */
  lemma NamesEqualIff(x: ManagedObject, y: ManagedObject, c: string, d: string)
    ensures x.NameFor(c) == y.NameFor(d) <==> ShareName(x, y) && c == d
  {
    assert x.NameFor(c) == c + x.Suffix() && y.NameFor(d) == d + y.Suffix();
    if x.NameFor(c) == y.NameFor(d) {
      assert LastTwo(c + x.Suffix()) == LastTwo(x.Suffix());
      assert LastTwo(d + y.Suffix()) == LastTwo(y.Suffix());
      LastTwoDistinguish(x, y);
      SuffixCancels(c, d, x.Suffix());
    }
    if ShareName(x, y) && x != y {
      assert x in {ClientService, StatefulSet} && y in {ClientService, StatefulSet};
    }
  }
}
