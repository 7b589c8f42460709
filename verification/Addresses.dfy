/**
 In-cluster Service addresses, `<name>.<namespace>.svc.cluster.local:<port>`, the one format that
 the mirror host, the server endpoint and the managed coordinator URL share, and the reader that
 takes such an address apart again.
 */
module Addresses {
  import opened Wrappers
  import opened Text

  const CLUSTER_DOMAIN := ".svc.cluster.local"

  datatype ServiceAddress = ServiceAddress(name: string, namespace: string, port: int)

  function Print(a: ServiceAddress): string {
    a.name + "." + a.namespace + CLUSTER_DOMAIN + ":" + PrintInt(a.port)
  }

  /** A namespace is a DNS label, so it holds no dot. A Service name is not restricted here. */
  predicate IsLabel(s: string) {
    '.' !in s
  }

  /** Port after the last colon, cluster domain off the end, namespace after the last dot. */
  function Parse(text: string): Option<ServiceAddress> {
    match CutLast(text, ':')
    case None => None
    case Some((host, portText)) =>
      match (ParseInt(portText), StripSuffix(host, CLUSTER_DOMAIN))
      case (Some(port), Some(labels)) =>
        (match CutLast(labels, '.')
         case None => None
         case Some((name, namespace)) => Some(ServiceAddress(name, namespace, port)))
      case _ => None
  }

  lemma PrintShape(a: ServiceAddress)
    ensures Print(a) == (a.name + ['.'] + a.namespace + CLUSTER_DOMAIN) + [':'] + PrintInt(a.port)
  {
  }

  lemma PrintText(a: ServiceAddress)
    ensures Print(a) == a.name + "." + a.namespace + ".svc.cluster.local:" + PrintInt(a.port)
  {
    assert ".svc.cluster.local" + ":" == ".svc.cluster.local:";
    ConcatAssociative(a.name + "." + a.namespace, ".svc.cluster.local", ":");
  }

  lemma ParsePrinted(a: ServiceAddress)
    requires IsLabel(a.namespace)
    ensures Parse(Print(a)) == Some(a)
  {
    PrintShape(a);
    PrintIntHasNo(a.port, ':');
    var labels := a.name + ['.'] + a.namespace;
    CutLastAt(labels + CLUSTER_DOMAIN, ':', PrintInt(a.port));
    IntRoundTrip(a.port);
    assert StripSuffix(labels + CLUSTER_DOMAIN, CLUSTER_DOMAIN) == Some(labels);
    CutLastAt(a.name, '.', a.namespace);
  }

  lemma ParsedIsPrinted(text: string, a: ServiceAddress)
    ensures Parse(text) == Some(a) ==> text == Print(a) && IsLabel(a.namespace)
  {
  }

  /**
   Printing and parsing are inverse on exactly the addresses whose namespace is a label: the reader
   accepts nothing but printed addresses, and returns what was printed.
   */
  lemma ParseIffPrinted(text: string, a: ServiceAddress)
    ensures Parse(text) == Some(a) <==> text == Print(a) && IsLabel(a.namespace)
  {
    ParsedIsPrinted(text, a);
    if text == Print(a) && IsLabel(a.namespace) {
      ParsePrinted(a);
    }
  }

  /** The printed address contains a character, other than digits and minus, only if its parts do. */
  lemma PrintHasNo(a: ServiceAddress, c: char)
    requires !IsDigit(c) && c !in "-.:svcluterloa"
    ensures c in Print(a) <==> c in a.name || c in a.namespace
  {
  }
}
