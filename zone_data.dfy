/**
 * The stored rows the zone-file writers read, the queries they run over
 * them, and the printing functions of the records, which live outside the
 * writers and are taken here as parameters.
 */
module ZoneData {
  import opened Wrappers

  /** A stored record row (address, CNAME, TXT, NAPTR, SRV, name server, HINFO preset), by primary key. */
  datatype Rr = Rr(id: nat)

  datatype Host = Host(
    name: string,
    zone: Option<nat>,       // primary key of the zone the host belongs to
    ipaddresses: seq<Rr>,
    hinfo: Option<Rr>,       // the HINFO preset, when one is set
    loc: Option<string>,     // the LOC text, when one is set
    cnames: seq<Rr>,
    txts: seq<Rr>)

  /** A NAPTR or SRV row with the primary key of its zone. */
  datatype ZoneRecord = ZoneRecord(zone: Option<nat>, rr: Rr)

  /** A zone with its name servers (`zone.nameservers.all()`). */
  datatype Zone = Zone(id: nat, name: string, nameservers: seq<Rr>)

  /** The tables the forward writer queries, each in storage order. */
  datatype Tables = Tables(hosts: seq<Host>, naptrs: seq<ZoneRecord>, srvs: seq<ZoneRecord>)

  /** A row of `zone.get_ipaddresses()`: an address and the name of the host that holds it. */
  datatype AddressRow<A> = AddressRow(ipaddress: A, hostName: string)

  /** The printing functions the writers call on the rows. */
  datatype Printer = Printer(
    soa: Zone -> string,             // zone.zf_string
    record: (Rr, string) -> string,  // record.zf_string(zone_name)
    hinfo: Rr -> string,             // hinfo.zf_string
    loc: (Host, string) -> string,   // host.loc_string(zone_name)
    idna: string -> string)          // idna_encode(name)

  // ------------------------------------------------------------ shared text

  const NameServersHeader: string := ";\n; Name servers\n;\n"

  /** The texts of the records `rrs` printed for the zone named `origin`, one after another. */
  function RecordsText(p: Printer, rrs: seq<Rr>, origin: string): string {
    if |rrs| == 0 then "" else RecordsText(p, rrs[..|rrs| - 1], origin) + p.record(rrs[|rrs| - 1], origin)
  }

  /** `for rr in rrs: data += rr.zf_string(origin)` */
  method AppendRecords(p: Printer, data: string, rrs: seq<Rr>, origin: string) returns (r: string)
    ensures r == data + RecordsText(p, rrs, origin)
  {
    r := data;
    for i := 0 to |rrs|
      invariant r == data + RecordsText(p, rrs[..i], origin)
    {
      assert rrs[..i + 1][..i] == rrs[..i];
      r := r + p.record(rrs[i], origin);
    }
    assert rrs[..|rrs|] == rrs;
  }

  // ------------------------------------------------------------ queries

  /** `filter(...)`: the rows that `keep` accepts, in their stored order. */
  function Filter<T(==, !new)>(s: seq<T>, keep: T -> bool): (r: seq<T>)
    ensures |r| <= |s|
    ensures forall x :: x in r <==> x in s && keep(x)
    ensures multiset(r) <= multiset(s)
  {
    if |s| == 0 then []
    else if keep(s[0]) then
      assert s == [s[0]] + s[1..];
      [s[0]] + Filter(s[1..], keep)
    else
      assert s == [s[0]] + s[1..];
      Filter(s[1..], keep)
  }

  /** Filtering keeps every accepted row as often as it is stored, and drops every other row. */
  lemma {:induction false} FilterCount<T(!new)>(s: seq<T>, keep: T -> bool)
    ensures forall x :: multiset(Filter(s, keep))[x] == if keep(x) then multiset(s)[x] else 0
    decreases |s|
  {
    if |s| > 0 {
      assert s == [s[0]] + s[1..];
      FilterCount(s[1..], keep);
    }
  }

  /** Filtering keeps the stored order: the rows kept from `a + b` are those kept from `a`, then those kept from `b`. */
  lemma {:induction false} FilterAppend<T(!new)>(a: seq<T>, b: seq<T>, keep: T -> bool)
    ensures Filter(a + b, keep) == Filter(a, keep) + Filter(b, keep)
    decreases |a|
  {
    if |a| == 0 {
      assert a + b == b;
    } else {
      assert (a + b)[0] == a[0] && (a + b)[1..] == a[1..] + b;
      FilterAppend(a[1..], b, keep);
    }
  }

  /** A filter that accepts none of the rows returns nothing. */
  lemma {:induction false} FilterNone<T(!new)>(s: seq<T>, keep: T -> bool)
    requires forall x :: x in s ==> !keep(x)
    ensures Filter(s, keep) == []
    decreases |s|
  {
    if |s| > 0 {
      assert s[0] in s;
      FilterNone(s[1..], keep);
    }
  }

  /** `Host.objects.filter(name=name)` */
  function HostsNamed(hosts: seq<Host>, name: string): (r: seq<Host>)
    ensures forall h :: multiset(r)[h] == if h.name == name then multiset(hosts)[h] else 0
  {
    FilterCount(hosts, (h: Host) => h.name == name);
    Filter(hosts, (h: Host) => h.name == name)
  }

  /** `Model.objects.filter(zone=id)` for the NAPTR and SRV tables. */
  function ZoneRecords(rows: seq<ZoneRecord>, id: nat): (r: seq<Rr>)
    ensures |r| <= |rows|
    ensures forall x :: x in r <==> ZoneRecord(Some(id), x) in rows
    ensures forall x :: multiset(r)[x] == multiset(rows)[ZoneRecord(Some(id), x)]
  {
    if |rows| == 0 then []
    else
      assert rows == [rows[0]] + rows[1..];
      if rows[0].zone == Some(id) then [rows[0].rr] + ZoneRecords(rows[1..], id)
      else ZoneRecords(rows[1..], id)
  }

  // ------------------------------------------------------------ name order

  /** Strict lexicographic order of names, character by character. */
  predicate NameBefore(a: string, b: string)
    decreases |a|
  {
    if |a| == 0 then |b| > 0
    else |b| > 0 && (a[0] < b[0] || (a[0] == b[0] && NameBefore(a[1..], b[1..])))
  }

  predicate NameAtMost(a: string, b: string) {
    a == b || NameBefore(a, b)
  }

  lemma {:induction false} NameBeforeIrreflexive(a: string)
    ensures !NameBefore(a, a)
    decreases |a|
  {
    if |a| > 0 {
      NameBeforeIrreflexive(a[1..]);
    }
  }

  lemma {:induction false} NameBeforeTransitive(a: string, b: string, c: string)
    requires NameBefore(a, b) && NameBefore(b, c)
    ensures NameBefore(a, c)
    decreases |a|
  {
    if |a| > 0 && a[0] == b[0] && b[0] == c[0] {
      NameBeforeTransitive(a[1..], b[1..], c[1..]);
    }
  }

  lemma {:induction false} NameBeforeTotal(a: string, b: string)
    ensures a == b || NameBefore(a, b) || NameBefore(b, a)
    decreases |a|
  {
    if |a| > 0 && |b| > 0 && a[0] == b[0] {
      NameBeforeTotal(a[1..], b[1..]);
      if a[1..] == b[1..] {
        assert a == [a[0]] + a[1..] && b == [b[0]] + b[1..];
      }
    }
  }

  /** Every host precedes every later host in name order (or shares its name). */
  predicate SortedByName(hs: seq<Host>) {
    forall i, j :: 0 <= i < j < |hs| ==> NameAtMost(hs[i].name, hs[j].name)
  }

  /** Every host strictly precedes every later host in name order. */
  predicate AscendingByName(hs: seq<Host>) {
    forall i, j :: 0 <= i < j < |hs| ==> NameBefore(hs[i].name, hs[j].name)
  }

  /** The unique constraint on host names. */
  predicate UniqueNames(hs: seq<Host>) {
    forall i, j :: 0 <= i < j < |hs| ==> hs[i].name != hs[j].name
  }

  function InsertByName(h: Host, hs: seq<Host>): (r: seq<Host>)
    requires SortedByName(hs)
    ensures SortedByName(r)
    ensures multiset(r) == multiset(hs) + multiset{h}
  {
    if |hs| == 0 then [h]
    else if NameAtMost(h.name, hs[0].name) then
      assert forall j :: 0 < j < |hs| ==> NameAtMost(hs[0].name, hs[j].name);
      forall j | 0 < j < |hs| ensures NameAtMost(h.name, hs[j].name) {
        if h.name != hs[0].name && hs[0].name != hs[j].name {
          NameBeforeTransitive(h.name, hs[0].name, hs[j].name);
        }
      }
      [h] + hs
    else
      NameBeforeTotal(h.name, hs[0].name);
      assert hs == [hs[0]] + hs[1..];
      var rest := InsertByName(h, hs[1..]);
      forall x | x in rest ensures NameAtMost(hs[0].name, x.name) {
        assert x in multiset(rest);
        if x != h {
          assert x in multiset(hs[1..]);
          var j :| 0 <= j < |hs[1..]| && hs[1..][j] == x;
          assert hs[j + 1] == x;
        }
      }
      [hs[0]] + rest
  }

  /** `order_by('name')`: the same hosts, in name order. */
  function SortByName(hs: seq<Host>): (r: seq<Host>)
    ensures SortedByName(r)
    ensures multiset(r) == multiset(hs)
  {
    if |hs| == 0 then []
    else
      assert hs == [hs[0]] + hs[1..];
      InsertByName(hs[0], SortByName(hs[1..]))
  }

  /** Among hosts with unique names, name order is strict. */
  lemma UniqueSortedAscending(hs: seq<Host>)
    requires SortedByName(hs)
    requires UniqueNames(hs)
    ensures AscendingByName(hs)
  {
  }

  /** Keeping only some rows keeps them in order. */
  lemma {:induction false} FilterSorted(hs: seq<Host>, keep: Host -> bool)
    requires SortedByName(hs)
    ensures SortedByName(Filter(hs, keep))
    decreases |hs|
  {
    if |hs| > 0 {
      FilterSorted(hs[1..], keep);
      var rest := Filter(hs[1..], keep);
      forall x | x in rest ensures NameAtMost(hs[0].name, x.name) {
        var j :| 0 <= j < |hs[1..]| && hs[1..][j] == x;
        assert hs[j + 1] == x;
      }
    }
  }

  /** A row that occurs at two positions occurs at least twice in the multiset. */
  lemma TwiceInMultiset<T>(r: seq<T>, i: int, j: int)
    requires 0 <= i < j < |r| && r[i] == r[j]
    ensures multiset(r)[r[i]] >= 2
  {
    assert r == r[..j] + r[j..];
    assert r[i] == r[..j][i];
    assert r[j] == r[j..][0];
  }

  /** A row that occurs at least twice in the multiset occurs at two positions. */
  lemma TwoPositions<T>(s: seq<T>, x: T)
    requires multiset(s)[x] >= 2
    ensures exists p, q :: 0 <= p < q < |s| && s[p] == x && s[q] == x
  {
    assert x in multiset(s);
    var p :| 0 <= p < |s| && s[p] == x;
    assert s == s[..p] + [x] + s[p + 1..];
    if x in s[..p] {
      var q :| 0 <= q < p && s[..p][q] == x;
      assert s[q] == x;
    } else {
      assert x in multiset(s[p + 1..]);
      var q :| 0 <= q < |s[p + 1..]| && s[p + 1..][q] == x;
      assert s[p + 1 + q] == x;
    }
  }

  /** Any selection of rows from a table with unique host names has unique host names. */
  lemma UniqueNamesSub(r: seq<Host>, s: seq<Host>)
    requires multiset(r) <= multiset(s)
    requires UniqueNames(s)
    ensures UniqueNames(r)
  {
    forall i, j | 0 <= i < j < |r| ensures r[i].name != r[j].name {
      if r[i] == r[j] {
        TwiceInMultiset(r, i, j);
        TwoPositions(s, r[i]);
      } else {
        assert r[i] in multiset(s) && r[j] in multiset(s);
        var p :| 0 <= p < |s| && s[p] == r[i];
        var q :| 0 <= q < |s| && s[q] == r[j];
        if p > q {
          assert s[q].name != s[p].name;
        }
      }
    }
  }

  /** With unique host names, a query by name returns at most one host. */
  lemma {:induction false} HostsNamedAtMostOne(hosts: seq<Host>, name: string)
    requires UniqueNames(hosts)
    ensures |HostsNamed(hosts, name)| <= 1
    decreases |hosts|
  {
    if |hosts| > 0 {
      HostsNamedAtMostOne(hosts[1..], name);
      if hosts[0].name == name {
        forall x | x in hosts[1..] ensures x.name != name {
          var j :| 0 <= j < |hosts[1..]| && hosts[1..][j] == x;
          assert hosts[j + 1] == x;
        }
        FilterNone(hosts[1..], (h: Host) => h.name == name);
      }
    }
  }
}
