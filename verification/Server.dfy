/** The in-cluster MCP server workload and the endpoint URL that the gateway federates. */
module Server {
  import opened Wrappers
  import opened Text
  import Addresses

  const DEFAULT_PORT: i32 := 8080
  const DEFAULT_PATH := "/mcp"

  predicate IsPath(p: string) {
    p != "" && p[0] == '/'
  }

  function PrintUrl(address: Addresses.ServiceAddress, path: string): string {
    "http://" + (Addresses.Print(address) + path)
  }

  datatype ServerSpec = ServerSpec(port: Option<i32>, path: Option<string>) {
    function EffectivePort(): i32 {
      match port case Some(p) => p case None => DEFAULT_PORT
    }

    /** Always `/`-prefixed. */
    function EffectivePath(): (p: string)
      ensures IsPath(p)
    {
      var p := match path case Some(p) => p case None => DEFAULT_PATH;
      if IsPath(p) then p else "/" + p
    }

    function Endpoint(serviceName: string, namespace: string): string {
      PrintUrl(Addresses.ServiceAddress(serviceName, namespace, EffectivePort()), EffectivePath())
    }
  }

  /** Authority up to the first slash after the scheme, path from there on. */
  function ParseUrl(url: string): Option<(Addresses.ServiceAddress, string)> {
    match StripPrefix(url, "http://")
    case None => None
    case Some(rest) =>
      match CutFirst(rest, '/')
      case None => None
      case Some((authority, path)) =>
        match Addresses.Parse(authority)
        case None => None
        case Some(address) => Some((address, "/" + path))
  }

  /** The parts that a URL keeps apart: no slash before the path, no dot in the namespace. */
  ghost predicate IsSeparable(address: Addresses.ServiceAddress) {
    Addresses.IsLabel(address.namespace) && '/' !in address.name && '/' !in address.namespace
  }

  lemma CutBeforePath(authority: string, path: string)
    requires '/' !in authority && IsPath(path)
    ensures CutFirst(authority + path, '/') == Some((authority, path[1..])) && path == "/" + path[1..]
  {
    assert path == ['/'] + path[1..];
    assert authority + path == authority + ['/'] + path[1..];
    CutFirstAt(authority, '/', path[1..]);
  }

  lemma ParsePrintedUrl(address: Addresses.ServiceAddress, path: string)
    requires IsSeparable(address) && IsPath(path)
    ensures ParseUrl(PrintUrl(address, path)) == Some((address, path))
  {
    Addresses.PrintHasNo(address, '/');
    Addresses.ParsePrinted(address);
    CutBeforePath(Addresses.Print(address), path);
    StripPrefixAt("http://", Addresses.Print(address) + path);
  }

  lemma ParsedUrlIsPrinted(url: string, address: Addresses.ServiceAddress, path: string)
    ensures ParseUrl(url) == Some((address, path)) ==>
              url == PrintUrl(address, path) && IsSeparable(address) && IsPath(path)
  {
    if ParseUrl(url) == Some((address, path)) {
      var rest := StripPrefix(url, "http://").value;
      var (authority, p) := CutFirst(rest, '/').value;
      assert authority == Addresses.Print(address) && IsSeparable(address) by {
        Addresses.ParsedIsPrinted(authority, address);
        Addresses.PrintHasNo(address, '/');
      }
      ConcatAssociative(authority, "/", p);
    }
  }

  /** The reader accepts exactly the printed URLs, and returns the address and path printed. */
  lemma ParseUrlIff(url: string, address: Addresses.ServiceAddress, path: string)
    ensures ParseUrl(url) == Some((address, path))
            <==> url == PrintUrl(address, path) && IsSeparable(address) && IsPath(path)
  {
    ParsedUrlIsPrinted(url, address, path);
    if url == PrintUrl(address, path) && IsSeparable(address) && IsPath(path) {
      ParsePrintedUrl(address, path);
    }
  }

  /**
   An endpoint gives back Service, namespace, effective port and effective path exactly when neither
   name holds a slash and the namespace holds no dot.
   */
  lemma EndpointRoundTripIff(s: ServerSpec, serviceName: string, namespace: string)
    ensures ParseUrl(s.Endpoint(serviceName, namespace))
              == Some((Addresses.ServiceAddress(serviceName, namespace, s.EffectivePort()), s.EffectivePath()))
            <==> '.' !in namespace && '/' !in serviceName && '/' !in namespace
  {
    ParseUrlIff(s.Endpoint(serviceName, namespace),
                Addresses.ServiceAddress(serviceName, namespace, s.EffectivePort()), s.EffectivePath());
  }

  /** The port that a spec stands for, and its path without one leading slash. */
  function Meaning(s: ServerSpec): (int, string) {
    var path := match s.path case Some(p) => p case None => "mcp";
    (match s.port case Some(p) => p case None => 8080, if path != "" && path[0] == '/' then path[1..] else path)
  }

  lemma PrintsMeaning(s: ServerSpec)
    ensures s.EffectivePort() == Meaning(s).0 && s.EffectivePath() == "/" + Meaning(s).1
  {
    assert DEFAULT_PATH == "/" + "mcp";
  }

  lemma PortAndPathSeparate(p: int, q: int, a: string, b: string)
    requires PrintInt(p) + "/" + a == PrintInt(q) + "/" + b
    ensures p == q && a == b
  {
    PrintIntHasNo(p, '/');
    PrintIntHasNo(q, '/');
    CutFirstAt(PrintInt(p), '/', a);
    CutFirstAt(PrintInt(q), '/', b);
    IntRoundTrip(p);
    IntRoundTrip(q);
  }

  /** The endpoint, spelled out. */
  lemma EndpointText(s: ServerSpec, serviceName: string, namespace: string)
    ensures s.Endpoint(serviceName, namespace)
         == ("http://" + serviceName + "." + namespace + ".svc.cluster.local:")
            + (PrintInt(Meaning(s).0) + "/" + Meaning(s).1)
  {
    PrintsMeaning(s);
    Addresses.PrintText(Addresses.ServiceAddress(serviceName, namespace, s.EffectivePort()));
    var address := serviceName + "." + namespace + ".svc.cluster.local:";
    var port, path := PrintInt(Meaning(s).0), Meaning(s).1;
    ConcatAssociative(address, port, "/" + path);
    ConcatAssociative(port, "/", path);
    ConcatAssociative("http://", address, port + "/" + path);
    assert "http://" + address == "http://" + serviceName + "." + namespace + ".svc.cluster.local:";
  }

  /**
   For whatever Service and namespace, two specs have one endpoint exactly when they stand for one port
   and one path: an absent port is 8080, an absent path `/mcp`, and a leading slash may be left out.
   */
  lemma EndpointsEqualIff(s: ServerSpec, t: ServerSpec, serviceName: string, namespace: string)
    ensures s.Endpoint(serviceName, namespace) == t.Endpoint(serviceName, namespace) <==> Meaning(s) == Meaning(t)
  {
    EndpointText(s, serviceName, namespace);
    EndpointText(t, serviceName, namespace);
    if s.Endpoint(serviceName, namespace) == t.Endpoint(serviceName, namespace) {
      var head := "http://" + serviceName + "." + namespace + ".svc.cluster.local:";
      PrefixCancels(head, PrintInt(Meaning(s).0) + "/" + Meaning(s).1, PrintInt(Meaning(t).0) + "/" + Meaning(t).1);
      PortAndPathSeparate(Meaning(s).0, Meaning(t).0, Meaning(s).1, Meaning(t).1);
    }
  }
}
