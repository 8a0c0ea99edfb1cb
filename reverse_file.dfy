/**
 * The reverse zone-file writers (`IPv4ReverseFile`, `IPv6ReverseFile`): the
 * SOA text, the name servers, a delegations header, then one PTR line per
 * address of the zone, each owner written relative to the `$ORIGIN` in
 * force. A new `$ORIGIN` line is written before the first address and
 * whenever an address leaves the /24 (IPv4) or the /64 (IPv6) of the one
 * before it.
 *
 * The body is specified as a list of lines (`Lines`) computed from each
 * address's split reverse name; `Resolve` reads such lines back the way a
 * master file is read (section 5.1 of RFC 1035), which gives the meaning of
 * the whole body: every address's full reverse name points at its host.
 */
module ReverseFile {
  import opened Wrappers
  import opened Labels
  import opened ReversePointer
  import opened Runs
  import opened ZoneData

  const V4DelegationsHeader: string := ";\n; Delegations \n;\n"
  const V6DelegationsHeader: string := ";\n; Delegations\n;\n"

  /** The value `_prev_net` starts from; no reverse name ends with it. */
  const Sentinel: string := "z"

  /** One address as the writers split it: the origin its PTR is relative to, its owner there, and its PTR target. */
  datatype PtrItem = PtrItem(origin: string, owner: string, target: string)

  /** A line of a reverse zone's body. */
  datatype Line = Origin(domain: string) | Ptr(owner: string, target: string)

  /** `"$ORIGIN {}.\n"` and `"{}\tPTR\t{}.\n"` */
  function LineText(l: Line): string {
    match l
    case Origin(d) => "$ORIGIN " + d + ".\n"
    case Ptr(o, t) => o + "\tPTR\t" + t + ".\n"
  }

  function Render(ls: seq<Line>): string
    decreases |ls|
  {
    if |ls| == 0 then "" else LineText(ls[0]) + Render(ls[1..])
  }

  /** The lines for one item when the origin in force is `prev`. */
  function Step(prev: Option<string>, it: PtrItem): seq<Line> {
    (if prev == Some(it.origin) then [] else [Origin(it.origin)]) + [Ptr(it.owner, it.target)]
  }

  /**
   * The body lines for `items` when the last `$ORIGIN` written is `prev`:
   * before each item, an `$ORIGIN` line exactly when its origin differs from
   * the one in force; then the item's PTR line.
   */
  function Lines(prev: Option<string>, items: seq<PtrItem>): seq<Line>
    decreases |items|
  {
    if |items| == 0 then [] else Step(prev, items[0]) + Lines(Some(items[0].origin), items[1..])
  }

  /** The origin in force after the lines of `items`. */
  function LastOrigin(prev: Option<string>, items: seq<PtrItem>): Option<string> {
    if |items| == 0 then prev else Some(items[|items| - 1].origin)
  }

  function Origins(items: seq<PtrItem>): seq<string> {
    seq(|items|, k requires 0 <= k < |items| => items[k].origin)
  }

  /** The number of `$ORIGIN` lines. */
  function OriginCount(ls: seq<Line>): nat
    decreases |ls|
  {
    if |ls| == 0 then 0 else (if ls[0].Origin? then 1 else 0) + OriginCount(ls[1..])
  }

  /** The PTR lines, in order. */
  function PtrLines(ls: seq<Line>): seq<Line>
    decreases |ls|
  {
    if |ls| == 0 then [] else (if ls[0].Ptr? then [ls[0]] else []) + PtrLines(ls[1..])
  }

  /**
   * Reading lines as a master file is read (section 5.1 of RFC 1035):
   * `$ORIGIN` replaces the origin, and a PTR's relative owner is completed
   * with the origin in force. Each PTR gives its absolute owner and target.
   */
  function Resolve(ls: seq<Line>, origin: string): seq<(string, string)>
    decreases |ls|
  {
    if |ls| == 0 then []
    else match ls[0]
      case Origin(d) => Resolve(ls[1..], d)
      case Ptr(o, t) => [(o + "." + origin, t)] + Resolve(ls[1..], origin)
  }

  /** Each item's owner completed with its own origin, and its target. */
  function Absolute(items: seq<PtrItem>): seq<(string, string)> {
    seq(|items|, k requires 0 <= k < |items| => (items[k].owner + "." + items[k].origin, items[k].target))
  }

  // ------------------------------------------------------------ line lemmas

  lemma {:induction false} RenderAppend(a: seq<Line>, b: seq<Line>)
    ensures Render(a + b) == Render(a) + Render(b)
    decreases |a|
  {
    if |a| > 0 {
      assert (a + b)[0] == a[0] && (a + b)[1..] == a[1..] + b;
      RenderAppend(a[1..], b);
      assert Render(a + b) == LineText(a[0]) + (Render(a[1..]) + Render(b));
    } else {
      assert a + b == b;
    }
  }

  lemma {:induction false} OriginCountAppend(a: seq<Line>, b: seq<Line>)
    ensures OriginCount(a + b) == OriginCount(a) + OriginCount(b)
    decreases |a|
  {
    if |a| > 0 {
      assert (a + b)[0] == a[0] && (a + b)[1..] == a[1..] + b;
      OriginCountAppend(a[1..], b);
    } else {
      assert a + b == b;
    }
  }

  lemma {:induction false} PtrLinesAppend(a: seq<Line>, b: seq<Line>)
    ensures PtrLines(a + b) == PtrLines(a) + PtrLines(b)
    decreases |a|
  {
    if |a| > 0 {
      assert (a + b)[0] == a[0] && (a + b)[1..] == a[1..] + b;
      PtrLinesAppend(a[1..], b);
    } else {
      assert a + b == b;
    }
  }

  lemma {:induction false} ResolveAppend(a: seq<Line>, b: seq<Line>, origin: string)
    requires forall k :: 0 <= k < |a| ==> a[k].Ptr?
    ensures Resolve(a + b, origin) == Resolve(a, origin) + Resolve(b, origin)
    decreases |a|
  {
    if |a| > 0 {
      assert (a + b)[0] == a[0] && (a + b)[1..] == a[1..] + b;
      ResolveAppend(a[1..], b, origin);
      assert a[0].Ptr?;
    } else {
      assert a + b == b;
    }
  }

  /**
   * Regrouping appended text. The writers' proofs apply it by name: asserted
   * inline about their long strings, the same fact is far costlier to check.
   */
  lemma AppendAssoc(a: string, b: string, c: string)
    ensures a + b + c == a + (b + c)
  {
  }

  /** The text of one item's lines. */
  lemma RenderStep(prev: Option<string>, it: PtrItem)
    ensures Render(Step(prev, it))
            == (if prev == Some(it.origin) then "" else "$ORIGIN " + it.origin + ".\n")
               + (it.owner + "\tPTR\t" + it.target + ".\n")
  {
    var ptr := Ptr(it.owner, it.target);
    assert Render([ptr]) == LineText(ptr);
    if prev != Some(it.origin) {
      RenderAppend([Origin(it.origin)], [ptr]);
      assert Render([Origin(it.origin)]) == LineText(Origin(it.origin));
    }
  }

  /** Writing one more item appends exactly that item's step, taken from the origin in force. */
  lemma {:induction false} LinesSnoc(prev: Option<string>, items: seq<PtrItem>, it: PtrItem)
    ensures Lines(prev, items + [it]) == Lines(prev, items) + Step(LastOrigin(prev, items), it)
    decreases |items|
  {
    if |items| > 0 {
      assert (items + [it])[1..] == items[1..] + [it];
      LinesSnoc(Some(items[0].origin), items[1..], it);
      if |items| > 1 {
        assert items[1..][|items[1..]| - 1] == items[|items| - 1];
      }
    }
  }

  /** The text of the first `i + 1` items' lines: that of the first `i`, then item `i`'s step. */
  lemma LinesPrefix(items: seq<PtrItem>, i: nat)
    requires i < |items|
    ensures Render(Lines(None, items[..i + 1]))
            == Render(Lines(None, items[..i])) + Render(Step(LastOrigin(None, items[..i]), items[i]))
  {
    assert items[..i + 1] == items[..i] + [items[i]];
    LinesSnoc(None, items[..i], items[i]);
    RenderAppend(Lines(None, items[..i]), Step(LastOrigin(None, items[..i]), items[i]));
  }

  /** One `$ORIGIN` line per position where the origin changes (counting from `prev`). */
  lemma {:induction false} OriginCountIsChanges(prev: Option<string>, items: seq<PtrItem>)
    ensures OriginCount(Lines(prev, items)) == Changes(prev, Origins(items))
    decreases |items|
  {
    if |items| > 0 {
      var it := items[0];
      OriginCountAppend(Step(prev, it), Lines(Some(it.origin), items[1..]));
      OriginCountIsChanges(Some(it.origin), items[1..]);
      assert Origins(items)[0] == it.origin;
      assert Origins(items)[1..] == Origins(items[1..]);
      assert OriginCount([Ptr(it.owner, it.target)]) == 0;
      if prev != Some(it.origin) {
        assert Step(prev, it)[1..] == [Ptr(it.owner, it.target)];
      }
    }
  }

  /** Exactly one PTR line per item, in the items' order. */
  lemma {:induction false} PtrLinesOfItems(prev: Option<string>, items: seq<PtrItem>)
    ensures PtrLines(Lines(prev, items)) == seq(|items|, k requires 0 <= k < |items| => Ptr(items[k].owner, items[k].target))
    decreases |items|
  {
    if |items| > 0 {
      var it := items[0];
      PtrLinesAppend(Step(prev, it), Lines(Some(it.origin), items[1..]));
      PtrLinesOfItems(Some(it.origin), items[1..]);
      assert PtrLines([Ptr(it.owner, it.target)]) == [Ptr(it.owner, it.target)];
      if prev != Some(it.origin) {
        assert Step(prev, it)[1..] == [Ptr(it.owner, it.target)];
      }
    }
  }

  /**
   * Read back as a master file, the lines name every item by its owner
   * completed with its own origin, whatever origin was in force before, as
   * long as `prev` says which one it was.
   */
  lemma {:induction false} LinesResolve(prev: Option<string>, items: seq<PtrItem>, origin: string)
    requires prev.Some? ==> origin == prev.value
    ensures Resolve(Lines(prev, items), origin) == Absolute(items)
    decreases |items|
  {
    if |items| > 0 {
      var it := items[0];
      var rest := Lines(Some(it.origin), items[1..]);
      LinesResolve(Some(it.origin), items[1..], it.origin);
      ResolveAppend([Ptr(it.owner, it.target)], rest, it.origin);
      if prev == Some(it.origin) {
        assert Lines(prev, items) == [Ptr(it.owner, it.target)] + rest;
      } else {
        assert Lines(prev, items) == [Origin(it.origin)] + ([Ptr(it.owner, it.target)] + rest);
      }
      assert Absolute(items) == [(it.owner + "." + it.origin, it.target)] + Absolute(items[1..]);
    }
  }

  // ------------------------------------------------------------ shared header

  /** The SOA text, the name servers, and the delegations header. */
  function ReverseHeader(p: Printer, zone: Zone, delegations: string): string {
    p.soa(zone) + NameServersHeader + RecordsText(p, zone.nameservers, zone.name) + delegations
  }

  method WriteHeader(p: Printer, zone: Zone, delegations: string) returns (data: string)
    ensures data == ReverseHeader(p, zone, delegations)
  {
    data := p.soa(zone);
    data := data + NameServersHeader;
    data := AppendRecords(p, data, zone.nameservers, zone.name);
    data := data + delegations;
  }

  // ------------------------------------------------------------ IPv4

  function V4Item(p: Printer, row: AddressRow<IPv4>): PtrItem {
    PtrItem(V4Origin(row.ipaddress), V4Owner(row.ipaddress), p.idna(row.hostName))
  }

  function V4Items(p: Printer, rows: seq<AddressRow<IPv4>>): seq<PtrItem> {
    seq(|rows|, k requires 0 <= k < |rows| => V4Item(p, rows[k]))
  }

  /** The IPv4 reverse zone file. */
  function IPv4Text(p: Printer, zone: Zone, rows: seq<AddressRow<IPv4>>): string {
    ReverseHeader(p, zone, V4DelegationsHeader) + Render(Lines(None, V4Items(p, rows)))
  }

  /** The origin in force after address `last`, or none before the first. */
  function V4Prev(last: Option<IPv4>): Option<string> {
    if last.Some? then Some(V4Origin(last.value)) else None
  }

  /** What the IPv4 writer's `_prev_net` holds after address `last`, or before the first. */
  function V4PrevNet(last: Option<IPv4>): string {
    if last.Some? then "." + V4Origin(last.value) else Sentinel
  }

  /** How the IPv4 writer cuts a reverse name at its first dot. */
  lemma V4Split(ip: IPv4)
    ensures SliceFrom(ReversePointer4(ip), Find(ReversePointer4(ip), '.')) == "." + V4Origin(ip)
    ensures SliceFrom("." + V4Origin(ip), 1) == V4Origin(ip)
    ensures SliceTo(ReversePointer4(ip), Find(ReversePointer4(ip), '.')) == V4Owner(ip)
  {
    ReversePointer4Split(ip);
  }

  /** The IPv4 writer's suffix test is true exactly when the origin in force is the address's own. */
  lemma V4SameNet(ip: IPv4, last: Option<IPv4>)
    ensures EndsWith(ReversePointer4(ip), V4PrevNet(last)) <==> V4Prev(last) == Some(V4Origin(ip))
  {
    if last.Some? {
      SameSlash24(ip, last.value);
      V4OriginInjective(ip, last.value);
    } else {
      ReversePointer4Split(ip);
      var rev := ReversePointer4(ip);
      assert rev[|rev| - 1..] != Sentinel;
    }
  }

  /**
   * One turn of the IPv4 writer's loop: an `$ORIGIN` line when the reverse
   * name does not end with `_prev_net`, then the PTR of the low-order octet.
   */
  method AppendV4Ptr(p: Printer, data: string, prevNet: string, row: AddressRow<IPv4>, ghost last: Option<IPv4>)
    returns (r: string, net: string)
    requires prevNet == V4PrevNet(last)
    ensures r == data + Render(Step(V4Prev(last), V4Item(p, row)))
    ensures net == V4PrevNet(Some(row.ipaddress))
  {
    var rev := ReversePointer4(row.ipaddress);
    ghost var it := V4Item(p, row);
    ghost var prev := V4Prev(last);
    V4Split(row.ipaddress);
    assert EndsWith(rev, prevNet) <==> prev == Some(it.origin) by {
      V4SameNet(row.ipaddress, last);
    }
    ghost var originText := if prev == Some(it.origin) then "" else "$ORIGIN " + it.origin + ".\n";
    r, net := data, prevNet;
    if !EndsWith(rev, net) {
      net := SliceFrom(rev, Find(rev, '.'));
      r := r + ("$ORIGIN " + SliceFrom(net, 1) + ".\n");
    }
    assert r == data + originText;
    var ptrip := SliceTo(rev, Find(rev, '.'));
    var ptrText := ptrip + "\tPTR\t" + p.idna(row.hostName) + ".\n";
    r := r + ptrText;
    RenderStep(prev, it);
    AppendAssoc(data, originText, ptrText);
  }

  /** `IPv4ReverseFile.generate` */
  method GenerateIPv4(p: Printer, zone: Zone, rows: seq<AddressRow<IPv4>>) returns (data: string)
    ensures data == IPv4Text(p, zone, rows)
  {
    data := WriteHeader(p, zone, V4DelegationsHeader);
    ghost var header := data;
    ghost var items := V4Items(p, rows);
    var prevNet := Sentinel;
    for i := 0 to |rows|
      invariant data == header + Render(Lines(None, items[..i]))
      invariant prevNet == V4PrevNet(if i == 0 then None else Some(rows[i - 1].ipaddress))
    {
      ghost var last := if i == 0 then None else Some(rows[i - 1].ipaddress);
      assert LastOrigin(None, items[..i]) == V4Prev(last);
      LinesPrefix(items, i);
      AppendAssoc(header, Render(Lines(None, items[..i])), Render(Step(V4Prev(last), items[i])));
      data, prevNet := AppendV4Ptr(p, data, prevNet, rows[i], last);
    }
    assert items[..|rows|] == items;
  }

  /** The /24 of each address, in order. */
  function Slash24s(rows: seq<AddressRow<IPv4>>): seq<(Octet, Octet, Octet)> {
    seq(|rows|, k requires 0 <= k < |rows| => (rows[k].ipaddress.a, rows[k].ipaddress.b, rows[k].ipaddress.c))
  }

  /**
   * The IPv4 body has one `$ORIGIN` line per maximal run of consecutive
   * addresses in the same /24, and one PTR line per address, in order,
   * whose owner is the address's low-order octet.
   */
  lemma IPv4Lines(p: Printer, rows: seq<AddressRow<IPv4>>)
    ensures OriginCount(Lines(None, V4Items(p, rows))) == |Runs.Runs(Slash24s(rows))|
    ensures PtrLines(Lines(None, V4Items(p, rows)))
            == seq(|rows|, k requires 0 <= k < |rows| => Ptr(Decimal(rows[k].ipaddress.d), p.idna(rows[k].hostName)))
  {
    var items := V4Items(p, rows);
    assert OriginCount(Lines(None, items)) == |Runs.Runs(Slash24s(rows))| by {
      OriginCountIsChanges(None, items);
      RunCount(Origins(items));
      forall k | 0 < k < |rows|
        ensures Origins(items)[k - 1] == Origins(items)[k] <==> Slash24s(rows)[k - 1] == Slash24s(rows)[k]
      {
        V4OriginInjective(rows[k - 1].ipaddress, rows[k].ipaddress);
      }
      SameRunCount(Origins(items), Slash24s(rows));
    }
    PtrLinesOfItems(None, items);
  }

  /**
   * The lines written for the address at position `k` (after those of the
   * addresses before it) start with an `$ORIGIN` line exactly when it is the
   * first address or its /24 differs from the previous address's.
   */
  lemma IPv4OriginAt(p: Printer, rows: seq<AddressRow<IPv4>>, k: nat)
    requires k < |rows|
    ensures Lines(None, V4Items(p, rows)[..k + 1])
            == Lines(None, V4Items(p, rows)[..k]) + Step(LastOrigin(None, V4Items(p, rows)[..k]), V4Items(p, rows)[k])
    ensures Step(LastOrigin(None, V4Items(p, rows)[..k]), V4Items(p, rows)[k])[0].Origin?
            <==> k == 0 || Slash24s(rows)[k - 1] != Slash24s(rows)[k]
  {
    var items := V4Items(p, rows);
    assert items[..k + 1] == items[..k] + [items[k]];
    LinesSnoc(None, items[..k], items[k]);
    if k > 0 {
      V4OriginInjective(rows[k - 1].ipaddress, rows[k].ipaddress);
    }
  }

  /**
   * Read back as a master file, the IPv4 body maps every address's full
   * reverse name (`d.c.b.a.in-addr.arpa`) to its host's encoded name, in
   * order, whatever the origin was before the first line.
   */
  lemma IPv4Resolves(p: Printer, rows: seq<AddressRow<IPv4>>, origin: string)
    ensures Resolve(Lines(None, V4Items(p, rows)), origin)
            == seq(|rows|, k requires 0 <= k < |rows| => (ReversePointer4(rows[k].ipaddress), p.idna(rows[k].hostName)))
  {
    LinesResolve(None, V4Items(p, rows), origin);
    forall k | 0 <= k < |rows| {
      ReversePointer4Split(rows[k].ipaddress);
    }
  }

  // ------------------------------------------------------------ IPv6

  function V6Item(p: Printer, row: AddressRow<IPv6>): PtrItem {
    PtrItem(V6Origin(row.ipaddress), V6Owner(row.ipaddress), p.idna(row.hostName))
  }

  function V6Items(p: Printer, rows: seq<AddressRow<IPv6>>): seq<PtrItem> {
    seq(|rows|, k requires 0 <= k < |rows| => V6Item(p, rows[k]))
  }

  /** The IPv6 reverse zone file. */
  function IPv6Text(p: Printer, zone: Zone, rows: seq<AddressRow<IPv6>>): string {
    ReverseHeader(p, zone, V6DelegationsHeader) + Render(Lines(None, V6Items(p, rows)))
  }

  /** The origin in force after address `last`, or none before the first. */
  function V6Prev(last: Option<IPv6>): Option<string> {
    if last.Some? then Some(V6Origin(last.value)) else None
  }

  /** What the IPv6 writer's `_prev_net` holds after address `last`, or before the first. */
  function V6PrevNet(last: Option<IPv6>): string {
    if last.Some? then V6Origin(last.value) else Sentinel
  }

  /** How the IPv6 writer cuts a reverse name at indices 31 and 32. */
  lemma V6Split(ip: IPv6)
    ensures SliceFrom(ReversePointer6(ip), 32) == V6Origin(ip)
    ensures SliceTo(ReversePointer6(ip), 31) == V6Owner(ip)
  {
    ReversePointer6Split(ip);
  }

  /** The IPv6 writer's suffix test is true exactly when the origin in force is the address's own. */
  lemma V6SameNet(ip: IPv6, last: Option<IPv6>)
    ensures EndsWith(ReversePointer6(ip), V6PrevNet(last)) <==> V6Prev(last) == Some(V6Origin(ip))
  {
    if last.Some? {
      V6Split(last.value);
      SameSlash64(ip, last.value);
      V6OriginInjective(ip, last.value);
    } else {
      ReversePointer6Split(ip);
      var rev := ReversePointer6(ip);
      assert rev[|rev| - 1..] != Sentinel;
    }
  }

  /**
   * One turn of the IPv6 writer's loop: an `$ORIGIN` line when the reverse
   * name does not end with `_prev_net`, then the PTR of the 16 low-order nibbles.
   */
  method AppendV6Ptr(p: Printer, data: string, prevNet: string, row: AddressRow<IPv6>, ghost last: Option<IPv6>)
    returns (r: string, net: string)
    requires prevNet == V6PrevNet(last)
    ensures r == data + Render(Step(V6Prev(last), V6Item(p, row)))
    ensures net == V6PrevNet(Some(row.ipaddress))
  {
    var rev := ReversePointer6(row.ipaddress);
    ghost var it := V6Item(p, row);
    ghost var prev := V6Prev(last);
    V6Split(row.ipaddress);
    assert EndsWith(rev, prevNet) <==> prev == Some(it.origin) by {
      V6SameNet(row.ipaddress, last);
    }
    ghost var originText := if prev == Some(it.origin) then "" else "$ORIGIN " + it.origin + ".\n";
    r, net := data, prevNet;
    if !EndsWith(rev, net) {
      net := SliceFrom(rev, 32);
      r := r + ("$ORIGIN " + net + ".\n");
    }
    assert r == data + originText;
    var ptrText := SliceTo(rev, 31) + "\tPTR\t" + p.idna(row.hostName) + ".\n";
    r := r + ptrText;
    RenderStep(prev, it);
    AppendAssoc(data, originText, ptrText);
  }

  /** `IPv6ReverseFile.generate` */
  method GenerateIPv6(p: Printer, zone: Zone, rows: seq<AddressRow<IPv6>>) returns (data: string)
    ensures data == IPv6Text(p, zone, rows)
  {
    data := WriteHeader(p, zone, V6DelegationsHeader);
    ghost var header := data;
    ghost var items := V6Items(p, rows);
    var prevNet := Sentinel;
    for i := 0 to |rows|
      invariant data == header + Render(Lines(None, items[..i]))
      invariant prevNet == V6PrevNet(if i == 0 then None else Some(rows[i - 1].ipaddress))
    {
      ghost var last := if i == 0 then None else Some(rows[i - 1].ipaddress);
      assert LastOrigin(None, items[..i]) == V6Prev(last);
      LinesPrefix(items, i);
      AppendAssoc(header, Render(Lines(None, items[..i])), Render(Step(V6Prev(last), items[i])));
      data, prevNet := AppendV6Ptr(p, data, prevNet, rows[i], last);
    }
    assert items[..|rows|] == items;
  }

  /** The /64 prefix of each address, in order. */
  function Slash64s(rows: seq<AddressRow<IPv6>>): seq<seq<Nibble>> {
    seq(|rows|, k requires 0 <= k < |rows| => rows[k].ipaddress[..16])
  }

  /**
   * The IPv6 body has one `$ORIGIN` line per maximal run of consecutive
   * addresses in the same /64, and one PTR line per address, in order,
   * whose owner is the address's 16 low-order nibbles.
   */
  lemma IPv6Lines(p: Printer, rows: seq<AddressRow<IPv6>>)
    ensures OriginCount(Lines(None, V6Items(p, rows))) == |Runs.Runs(Slash64s(rows))|
    ensures PtrLines(Lines(None, V6Items(p, rows)))
            == seq(|rows|, k requires 0 <= k < |rows| => Ptr(V6Owner(rows[k].ipaddress), p.idna(rows[k].hostName)))
  {
    var items := V6Items(p, rows);
    assert OriginCount(Lines(None, items)) == |Runs.Runs(Slash64s(rows))| by {
      OriginCountIsChanges(None, items);
      RunCount(Origins(items));
      forall k | 0 < k < |rows|
        ensures Origins(items)[k - 1] == Origins(items)[k] <==> Slash64s(rows)[k - 1] == Slash64s(rows)[k]
      {
        V6OriginInjective(rows[k - 1].ipaddress, rows[k].ipaddress);
      }
      SameRunCount(Origins(items), Slash64s(rows));
    }
    PtrLinesOfItems(None, items);
  }

  /**
   * The lines written for the address at position `k` (after those of the
   * addresses before it) start with an `$ORIGIN` line exactly when it is the
   * first address or its /64 differs from the previous address's.
   */
  lemma IPv6OriginAt(p: Printer, rows: seq<AddressRow<IPv6>>, k: nat)
    requires k < |rows|
    ensures Lines(None, V6Items(p, rows)[..k + 1])
            == Lines(None, V6Items(p, rows)[..k]) + Step(LastOrigin(None, V6Items(p, rows)[..k]), V6Items(p, rows)[k])
    ensures Step(LastOrigin(None, V6Items(p, rows)[..k]), V6Items(p, rows)[k])[0].Origin?
            <==> k == 0 || Slash64s(rows)[k - 1] != Slash64s(rows)[k]
  {
    var items := V6Items(p, rows);
    assert items[..k + 1] == items[..k] + [items[k]];
    LinesSnoc(None, items[..k], items[k]);
    if k > 0 {
      V6OriginInjective(rows[k - 1].ipaddress, rows[k].ipaddress);
    }
  }

  /**
   * Read back as a master file, the IPv6 body maps every address's full
   * nibble-form reverse name under `ip6.arpa` to its host's encoded name,
   * in order, whatever the origin was before the first line.
   */
  lemma IPv6Resolves(p: Printer, rows: seq<AddressRow<IPv6>>, origin: string)
    ensures Resolve(Lines(None, V6Items(p, rows)), origin)
            == seq(|rows|, k requires 0 <= k < |rows| => (ReversePointer6(rows[k].ipaddress), p.idna(rows[k].hostName)))
  {
    LinesResolve(None, V6Items(p, rows), origin);
    forall k | 0 <= k < |rows| {
      ReversePointer6Split(rows[k].ipaddress);
    }
  }
}
