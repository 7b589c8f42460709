/**
 The coordination-backend binding: the two renderers of the gateway's `cluster:` block and the
 admission guard against plaintext transports.
 */
module Cluster {
  import opened Wrappers
  import opened Text
  import opened Json
  import Addresses

  const MANAGED_STATE_KEY_ENV := "MCPG_CLUSTER_STATE_KEY"
  const MANAGED_NATS_TOKEN_ENV := "MCPG_CLUSTER_NATS_TOKEN"
  const MANAGED_NATS_CA_ENV := "MCPG_CLUSTER_NATS_CA"
  const MANAGED_NODE_ID_ENV := "POD_NAME"
  const MANAGED_NATS_CLIENT_PORT: i32 := 4222
  const REDIS_REASON := "the redis `url` uses the plaintext `redis://` scheme (use `rediss://`)"
  const NATS_REASON := "nats `tls.require_tls` is set to `false` (plaintext)"

  function ManagedNatsServiceName(cluster: string): string {
    cluster + "-nats"
  }

  function ManagedNatsHeadlessServiceName(cluster: string): string {
    cluster + "-nats-headless"
  }

  function ManagedNatsStatefulsetName(cluster: string): string {
    cluster + "-nats"
  }

  function ManagedNatsConfigName(cluster: string): string {
    cluster + "-nats-config"
  }

  function ManagedNatsTlsSecretName(cluster: string): string {
    cluster + "-nats-tls"
  }

  function ManagedCoordinationSecretName(cluster: string): string {
    cluster + "-coordination"
  }

  datatype ClusterBackend = SingleNode | Redis | Nats {
    function ConfigKind(): string {
      match this
      case SingleNode => "single_node"
      case Redis => "redis"
      case Nats => "nats"
    }
  }

  datatype ManagedIssuerRef = ManagedIssuerRef(name: string)

  datatype ManagedCoordinatorTls = ManagedCoordinatorTls(issuerRef: Option<ManagedIssuerRef>)

  datatype ManagedCoordinator = ManagedCoordinator(tls: Option<ManagedCoordinatorTls>)

  function EnvRef(variable: string): string {
    "${env." + variable + "}"
  }

  lemma TokenReference()
    ensures EnvRef(MANAGED_NATS_TOKEN_ENV) == "${env.MCPG_CLUSTER_NATS_TOKEN}"
  {
  }

  lemma NodeReference()
    ensures EnvRef(MANAGED_NODE_ID_ENV) == "${env.POD_NAME}"
  {
  }

  lemma CaReference()
    ensures EnvRef(MANAGED_NATS_CA_ENV) == "${env.MCPG_CLUSTER_NATS_CA}"
  {
  }

  function CoordinatorUrl(tls: bool, cluster: string, namespace: string): string {
    (if tls then "tls://" else "nats://")
    + Addresses.Print(Addresses.ServiceAddress(ManagedNatsServiceName(cluster), namespace, MANAGED_NATS_CLIENT_PORT))
  }

  /** The part of the managed block that TLS and plaintext share, up to the scheme of the URL. */
  function CommonFields(tls: bool, cluster: string, namespace: string): map<string, Json> {
    map[
      "kind" := Str("nats"),
      "servers" := Arr([Str(CoordinatorUrl(tls, cluster, namespace))]),
      "state_encryption_key_env" := Str(MANAGED_STATE_KEY_ENV),
      "auth" := Obj(map["method" := Str("token"), "token" := Str("${env.MCPG_CLUSTER_NATS_TOKEN}")]),
      "node" := Obj(map["id" := Str("${env.POD_NAME}")]),
      "jetstream" := Obj(map["replicas" := Int(1), "storage" := Str("file")])
    ]
  }

  function TransportFields(tls: bool): map<string, Json> {
    if tls then
      map["tls" := Obj(map["require_tls" := Bool(true), "ca_cert" := Str("${env.MCPG_CLUSTER_NATS_CA}")])]
    else
      map["allow_insecure_transport" := Bool(true), "tls" := Obj(map["require_tls" := Bool(false)])]
  }

  function ManagedFields(tls: bool, cluster: string, namespace: string): map<string, Json> {
    CommonFields(tls, cluster, namespace) + TransportFields(tls)
  }

  /** Inserts every entry of `config`, overwriting keys that are present. */
  method InsertAll(start: map<string, Json>, config: map<string, Json>) returns (m: map<string, Json>)
    ensures m == start + config
  {
    m := start;
    var rest := config.Keys;
    while rest != {}
      invariant rest <= config.Keys
      invariant m == start + (map k | k in config && k !in rest :: config[k])
      decreases |rest|
    {
      var k :| k in rest;
      m := m[k := config[k]];
      rest := rest - {k};
    }
    assert (map k | k in config && k !in rest :: config[k]) == config;
  }

  datatype ClusterSpec = ClusterSpec(
    backend: ClusterBackend,
    config: map<string, Json>,
    managed: Option<ManagedCoordinator>)
  {
    function EffectiveBackend(): ClusterBackend {
      if managed.Some? then Nats else backend
    }

    predicate ManagedTlsEnabled() {
      && managed.Some? && managed.value.tls.Some? && managed.value.tls.value.issuerRef.Some?
      && Trim(managed.value.tls.value.issuerRef.value.name, IsWhitespace) != ""
    }

    /** The block of the point-at-existing path: the config, under the kind of the backend. */
    function Block(): map<string, Json> {
      map["kind" := Str(backend.ConfigKind())] + (if backend.SingleNode? then map[] else config)
    }

    function ManagedBlock(cluster: string, namespace: string): map<string, Json> {
      ManagedFields(ManagedTlsEnabled(), cluster, namespace)
    }

    function BlockWith(cluster: string, namespace: string): Json {
      Obj(if managed.Some? then ManagedBlock(cluster, namespace) else Block())
    }

    method RenderClusterBlock() returns (block: Json)
      ensures block == Obj(Block())
      ensures backend.SingleNode? ==> block == Obj(map["kind" := Str("single_node")])
      ensures !backend.SingleNode? ==>
                && block.Obj? && block.fields.Keys == config.Keys + {"kind"}
                && forall k | k in config :: block.fields[k] == config[k]
    {
      var m: map<string, Json> := map[];
      m := m["kind" := Str(backend.ConfigKind())];
      if !backend.SingleNode? {
        m := InsertAll(m, config);
      }
      block := Obj(m);
    }

    method RenderManagedClusterBlock(cluster: string, namespace: string) returns (block: Json)
      ensures block == Obj(ManagedBlock(cluster, namespace))
    {
      TokenReference();
      NodeReference();
      CaReference();
      var tls := ManagedTlsEnabled();
      var m: map<string, Json> := map[];
      m := m["kind" := Str("nats")];
      m := m["servers" := Arr([Str(CoordinatorUrl(tls, cluster, namespace))])];
      m := m["state_encryption_key_env" := Str(MANAGED_STATE_KEY_ENV)];
      m := m["auth" := Obj(map["method" := Str("token"), "token" := Str(EnvRef(MANAGED_NATS_TOKEN_ENV))])];
      m := m["node" := Obj(map["id" := Str(EnvRef(MANAGED_NODE_ID_ENV))])];
      m := m["jetstream" := Obj(map["replicas" := Int(1), "storage" := Str("file")])];
      assert m == CommonFields(tls, cluster, namespace);
      if tls {
        m := m["tls" := Obj(map["require_tls" := Bool(true), "ca_cert" := Str(EnvRef(MANAGED_NATS_CA_ENV))])];
      } else {
        m := m["allow_insecure_transport" := Bool(true)];
        m := m["tls" := Obj(map["require_tls" := Bool(false)])];
      }
      block := Obj(m);
    }

    method RenderClusterBlockWith(cluster: string, namespace: string) returns (block: Json)
      ensures block == BlockWith(cluster, namespace)
    {
      if managed.Some? {
        block := RenderManagedClusterBlock(cluster, namespace);
      } else {
        block := RenderClusterBlock();
      }
    }

    /** Why admission refuses the spec, if the coordinator would be reached over plaintext. */
    function InsecureTransportReason(): Option<string> {
      if backend.SingleNode? then None
      else if Lookup(config, "allow_insecure_transport") == Some(Bool(true)) then None
      else
        match backend
        case SingleNode => None
        case Redis =>
          (match Lookup(config, "url")
           case Some(Str(u)) => if "redis://" <= TrimStart(u, IsWhitespace) then Some(REDIS_REASON) else None
           case _ => None)
        case Nats =>
          (match Lookup(config, "tls")
           case Some(t) => if t.Get("require_tls") == Some(Bool(false)) then Some(NATS_REASON) else None
           case None => None)
    }
  }
}
