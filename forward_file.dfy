/**
 * The forward zone-file writer (`ForwardFile`): the SOA text, then fixed
 * section headers, each followed by its records. The zone-apex host is
 * written once, under the glue header, and the zone's other hosts follow
 * in name order under the host-address header.
 */
module ForwardFile {
  import opened Wrappers
  import opened ZoneData

  const SubdomainsHeader: string := ";\n; Subdomains\n;\n"
  const GlueHeader: string := ";\n; Glue records\n;\n"
  const ApexMarker: string := ";\n"
  const HostsHeader: string := ";\n; Host addresses\n;\n"
  const NaptrHeader: string := ";\n; Name authority pointers\n;\n"
  const SrvHeader: string := ";\n; Services\n;\n"

  /**
   * What `host_data` writes for host `h` in the zone named `origin`: its
   * address records, its HINFO text only when it has a preset, its LOC text
   * only when it has a location, its CNAMEs and its TXTs, in that order.
   */
  function HostText(p: Printer, origin: string, h: Host): string {
    RecordsText(p, h.ipaddresses, origin)
    + (if h.hinfo.Some? then p.hinfo(h.hinfo.value) else "")
    + (if h.loc.Some? then p.loc(h, origin) else "")
    + RecordsText(p, h.cnames, origin)
    + RecordsText(p, h.txts, origin)
  }

  function HostsText(p: Printer, origin: string, hs: seq<Host>): string {
    if |hs| == 0 then "" else HostsText(p, origin, hs[..|hs| - 1]) + HostText(p, origin, hs[|hs| - 1])
  }

  /**
   * `Host.objects.filter(zone=zone.id).order_by('name').exclude(name=zone.name)`:
   * the zone's hosts other than the one named like the zone, in name order.
   */
  function ZoneHosts(hosts: seq<Host>, zone: Zone): (r: seq<Host>)
    ensures forall h :: multiset(r)[h]
              == if h.zone == Some(zone.id) && h.name != zone.name then multiset(hosts)[h] else 0
    ensures SortedByName(r)
  {
    var inZone := Filter(hosts, (h: Host) => h.zone == Some(zone.id));
    var sorted := SortByName(inZone);
    FilterCount(hosts, (h: Host) => h.zone == Some(zone.id));
    FilterCount(sorted, (h: Host) => h.name != zone.name);
    FilterSorted(sorted, (h: Host) => h.name != zone.name);
    Filter(sorted, (h: Host) => h.name != zone.name)
  }

  /** The glue section's body: `;` and the apex host's records, when a host is named like the zone. */
  function GlueText(p: Printer, zone: Zone, hosts: seq<Host>): (r: string)
    ensures r == "" <==> forall h :: h in hosts ==> h.name != zone.name
    ensures r != "" ==> exists h :: h in hosts && h.name == zone.name && r == ApexMarker + HostText(p, zone.name, h)
  {
    var root := HostsNamed(hosts, zone.name);
    assert forall h :: h in root <==> h in hosts && h.name == zone.name by {
      forall h ensures h in root <==> h in hosts && h.name == zone.name {
        assert h in root <==> multiset(root)[h] > 0;
        assert h in hosts <==> multiset(hosts)[h] > 0;
      }
    }
    if |root| > 0 then
      assert root[0] in root;
      ApexMarker + HostText(p, zone.name, root[0])
    else
      ""
  }

  /** The whole forward zone file: the SOA text, then each header followed by its section. */
  function ForwardText(p: Printer, zone: Zone, tables: Tables): string {
    p.soa(zone)
    + NameServersHeader + RecordsText(p, zone.nameservers, zone.name)
    + SubdomainsHeader
    + GlueHeader + GlueText(p, zone, tables.hosts)
    + HostsHeader + HostsText(p, zone.name, ZoneHosts(tables.hosts, zone))
    + NaptrHeader + RecordsText(p, ZoneRecords(tables.naptrs, zone.id), zone.name)
    + SrvHeader + RecordsText(p, ZoneRecords(tables.srvs, zone.id), zone.name)
  }

  /** `ForwardFile.host_data` */
  method HostData(p: Printer, origin: string, h: Host) returns (data: string)
    ensures data == HostText(p, origin, h)
  {
    data := "";
    data := AppendRecords(p, data, h.ipaddresses, origin);
    if h.hinfo.Some? {
      data := data + p.hinfo(h.hinfo.value);
    }
    if h.loc.Some? {
      data := data + p.loc(h, origin);
    }
    data := AppendRecords(p, data, h.cnames, origin);
    data := AppendRecords(p, data, h.txts, origin);
  }

  /** `for host in hosts: data += self.host_data(host)` */
  method AppendHosts(p: Printer, data: string, origin: string, hosts: seq<Host>) returns (r: string)
    ensures r == data + HostsText(p, origin, hosts)
  {
    r := data;
    for i := 0 to |hosts|
      invariant r == data + HostsText(p, origin, hosts[..i])
    {
      assert hosts[..i + 1][..i] == hosts[..i];
      var text := HostData(p, origin, hosts[i]);
      r := r + text;
    }
    assert hosts[..|hosts|] == hosts;
  }

  /** `ForwardFile.generate` */
  method Generate(p: Printer, zone: Zone, tables: Tables) returns (data: string)
    ensures data == ForwardText(p, zone, tables)
  {
    data := p.soa(zone);
    var root := HostsNamed(tables.hosts, zone.name);
    data := data + NameServersHeader;
    data := AppendRecords(p, data, zone.nameservers, zone.name);
    data := data + SubdomainsHeader;
    data := data + GlueHeader;
    ghost var beforeGlue := data;
    if |root| > 0 {
      data := data + ApexMarker;
      var apex := HostData(p, zone.name, root[0]);
      data := data + apex;
    }
    assert data == beforeGlue + GlueText(p, zone, tables.hosts);
    data := data + HostsHeader;
    var hosts := ZoneHosts(tables.hosts, zone);
    data := AppendHosts(p, data, zone.name, hosts);
    data := data + NaptrHeader;
    data := AppendRecords(p, data, ZoneRecords(tables.naptrs, zone.id), zone.name);
    data := data + SrvHeader;
    data := AppendRecords(p, data, ZoneRecords(tables.srvs, zone.id), zone.name);
  }

  /**
   * Where the hosts go: with unique host names, at most one host is written
   * under the glue header (the one named like the zone); the host-address
   * section holds exactly the zone's hosts not named like the zone, never
   * the apex, in strictly ascending name order.
   */
  lemma HostSections(hosts: seq<Host>, zone: Zone)
    requires UniqueNames(hosts)
    ensures |HostsNamed(hosts, zone.name)| <= 1
    ensures forall h :: h in HostsNamed(hosts, zone.name) <==> h in hosts && h.name == zone.name
    ensures forall h :: h in ZoneHosts(hosts, zone)
              <==> h in hosts && h.zone == Some(zone.id) && h.name != zone.name
    ensures AscendingByName(ZoneHosts(hosts, zone))
  {
    HostsNamedAtMostOne(hosts, zone.name);
    var r := ZoneHosts(hosts, zone);
    assert forall h :: h in r <==> h in hosts && h.zone == Some(zone.id) && h.name != zone.name by {
      forall h ensures h in r <==> h in hosts && h.zone == Some(zone.id) && h.name != zone.name {
        assert h in r <==> h in multiset(r);
        assert h in hosts <==> h in multiset(hosts);
      }
    }
    assert AscendingByName(r) by {
      assert multiset(r) <= multiset(hosts);
      UniqueNamesSub(r, hosts);
      UniqueSortedAscending(r);
    }
  }
}
