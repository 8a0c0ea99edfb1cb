/**
 * `ZoneFile`: the entry point that picks the writer for a zone from the
 * suffix of its name and returns that writer's text.
 *
 * As written, the IPv6 branch cannot run: the IPv6 writer is constructed
 * with the zone although it takes no constructor arguments, which raises a
 * `TypeError` (and its `generate` would in turn lack its `zone` argument).
 * `GenerateAsWritten` keeps that behaviour; `Generate` is the dispatch with
 * the IPv6 writer given its zone, as the other two writers are.
 */
module ZoneFile {
  import opened Wrappers
  import opened Labels
  import opened ReversePointer
  import opened ZoneData
  import ForwardFile
  import ReverseFile

  const V4Suffix: string := ".in-addr.arpa"
  const V6Suffix: string := ".ip6.arpa"

  /** The three writers. */
  datatype Renderer = Forward | IPv4Reverse | IPv6Reverse

  /** The exception Python raises when a call does not match its callee's parameters. */
  datatype Error = TypeError(reason: string)

  /** What the writers read: the stored tables and `zone.get_ipaddresses()`, by address family. */
  datatype Inputs = Inputs(tables: Tables, v4: seq<AddressRow<IPv4>>, v6: seq<AddressRow<IPv6>>)

  /** No name ends with both reverse suffixes: nine characters from the end, one has `a`, the other `.`. */
  lemma SuffixesDisjoint(name: string)
    ensures !(EndsWith(name, V4Suffix) && EndsWith(name, V6Suffix))
  {
    if EndsWith(name, V4Suffix) {
      assert name[|name| - 9] == V4Suffix[4] == 'a';
      assert V6Suffix[0] == '.';
    }
  }

  /** `ZoneFile.__init__`: the writer for a zone name. */
  function Select(name: string): (r: Renderer)
    ensures r == IPv4Reverse <==> EndsWith(name, V4Suffix)
    ensures r == IPv6Reverse <==> EndsWith(name, V6Suffix)
    ensures r == Forward <==> !EndsWith(name, V4Suffix) && !EndsWith(name, V6Suffix)
  {
    SuffixesDisjoint(name);
    if EndsWith(name, V4Suffix) then IPv4Reverse
    else if EndsWith(name, V6Suffix) then IPv6Reverse
    else Forward
  }

  /**
   * `ZoneFile(zone).generate()` as written: the forward and IPv4 writers'
   * texts, and a `TypeError` for every zone under `ip6.arpa`.
   */
  function GenerateAsWritten(p: Printer, zone: Zone, inputs: Inputs): (r: Result<string, Error>)
    ensures r.Failure? <==> EndsWith(zone.name, V6Suffix)
    ensures EndsWith(zone.name, V4Suffix) ==> r == Success(ReverseFile.IPv4Text(p, zone, inputs.v4))
    ensures !EndsWith(zone.name, V4Suffix) && !EndsWith(zone.name, V6Suffix)
            ==> r == Success(ForwardFile.ForwardText(p, zone, inputs.tables))
  {
    match Select(zone.name)
    case Forward => Success(ForwardFile.ForwardText(p, zone, inputs.tables))
    case IPv4Reverse => Success(ReverseFile.IPv4Text(p, zone, inputs.v4))
    case IPv6Reverse => Failure(TypeError("IPv6ReverseFile() takes no arguments"))
  }

  /** The zone of the IPv6 zone-file request in the project's own tests fails as written. */
  lemma IPv6ZoneFailsAsWritten(p: Printer, zone: Zone, inputs: Inputs)
    requires zone.name == "8.b.d.0.1.0.0.2.ip6.arpa"
    ensures GenerateAsWritten(p, zone, inputs).Failure?
  {
    assert zone.name[|zone.name| - |V6Suffix|..] == V6Suffix;
  }

  /**
   * `ZoneFile(zone).generate()` with the IPv6 writer given its zone: the
   * text of the writer the zone name selects, and the same text as the
   * code as written wherever that succeeds.
   */
  method Generate(p: Printer, zone: Zone, inputs: Inputs) returns (data: string)
    ensures EndsWith(zone.name, V4Suffix) ==> data == ReverseFile.IPv4Text(p, zone, inputs.v4)
    ensures EndsWith(zone.name, V6Suffix) ==> data == ReverseFile.IPv6Text(p, zone, inputs.v6)
    ensures !EndsWith(zone.name, V4Suffix) && !EndsWith(zone.name, V6Suffix)
            ==> data == ForwardFile.ForwardText(p, zone, inputs.tables)
    ensures GenerateAsWritten(p, zone, inputs).Success? ==> GenerateAsWritten(p, zone, inputs).value == data
  {
    match Select(zone.name)
    case Forward =>
      data := ForwardFile.Generate(p, zone, inputs.tables);
    case IPv4Reverse =>
      data := ReverseFile.GenerateIPv4(p, zone, inputs.v4);
    case IPv6Reverse =>
      data := ReverseFile.GenerateIPv6(p, zone, inputs.v6);
  }
}
