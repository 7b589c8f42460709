/** The in-cluster OCI mirror: a rule that re-homes an upstream image reference onto a mirror Service. */
module PluginMirror {
  import opened Wrappers
  import opened Text
  import Addresses

  datatype MirrorService = MirrorService(namespace: string, name: string, port: u16, pathPrefix: Option<string>) {
    /** `<name>.<namespace>.svc.cluster.local:<port>` */
    function Host(): string {
      Addresses.Print(Addresses.ServiceAddress(name, namespace, port))
    }
  }

  datatype MirrorUpstream = MirrorUpstream(registry: string, namespace: string)

  datatype MirrorRewrite = Rewritten(image: string) | NotApplicable

  datatype PluginMirrorSpec = PluginMirrorSpec(service: MirrorService, upstream: MirrorUpstream) {
    function Registry(): string {
      TrimEnd(upstream.registry, IsSlash)
    }

    function Namespace(): string {
      Trim(upstream.namespace, IsSlash)
    }

    /** `<registry>/<namespace>/`; a namespace of slashes only leaves `<registry>//`. */
    function UpstreamPrefix(): string {
      Registry() + "/" + Namespace() + "/"
    }

    function Path(): string {
      match service.pathPrefix
      case Some(p) =>
        var p := Trim(p, IsSlash);
        if p == "" then "" else "/" + p
      case None => ""
    }

    /** What takes the place of the upstream prefix: host, path prefix and a slash. */
    function EndpointBase(): string {
      service.Host() + Path() + "/"
    }

    function Rewrite(image: string): MirrorRewrite {
      match StripPrefix(image, UpstreamPrefix())
      case None => NotApplicable
      case Some(repoAndRef) => Rewritten(EndpointBase() + repoAndRef)
    }
  }
}
