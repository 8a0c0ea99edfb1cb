# mreg zone-file writer, modelled in Dafny

mreg keeps DNS data (zones, hosts, addresses, name servers and other
records) in a database and serves every zone as DNS master-file text. This
project models the writer of that text, `mreg/api/v1/zonefile.py`:

- `ZoneFile` picks a writer from the zone name's suffix: `.in-addr.arpa`,
  `.ip6.arpa`, or anything else (forward).
- `ForwardFile` writes the zone's SOA text, then fixed section headers in a
  fixed order. The host named like the zone (the apex) goes once under the
  glue header. The zone's other hosts follow in name order, each with its
  address, HINFO, LOC, CNAME and TXT records in that order.
- `IPv4ReverseFile` and `IPv6ReverseFile` write one PTR line per address of
  the zone. The owner is relative to a `$ORIGIN`. They write a new
  `$ORIGIN` line whenever the /24 (IPv4) or the /64 (IPv6) changes from one
  address to the next.

Modules:

- `Labels`: Python's `str.endswith`, `str.find`, slices with negative
  bounds, and `'.'.join` over labels. It also proves that a suffix test on
  text starting at a dot is a test on whole labels.
- `ReversePointer`: reverse names as section 3.5 of RFC 1035 (IPv4) and
  section 2.5 of RFC 3596 (IPv6) define them. Each name is split into the
  owner part and the origin part that the writers cut it into.
- `Runs`: maximal runs of equal neighbours, and how many there are.
- `ZoneData`: the stored rows, the queries the writers run (`filter`,
  `order_by('name')`, `exclude`), and the record-printing functions. Those
  functions are given as the fields of a `Printer` value.
- `ForwardFile`, `ReverseFile` and `ZoneFile`: the writers.

Each writer is an imperative method that grows a `data` string the way the
source does. It is proved equal to a specification function:

- `ForwardText` for the forward writer;
- `IPv4Text` and `IPv6Text` for the reverse writers. These render a list of
  lines (`Lines`).

Lemmas then say what those texts contain. `Resolve` reads reverse lines back
the way a master file is read (section 5.1 of RFC 1035): `$ORIGIN` sets the
origin, and a relative owner is completed with it. Through `Resolve`, every
address's full reverse name maps to its host's name.

## Model

| member | source | states |
|---|---|---|
| Labels.EndsWithConcat | mreg/api/v1/zonefile.py:86 | `EndsWith`, the `str.endswith` used by the dispatch and both reverse writers, holds exactly when the text is some text followed by the suffix |
| Labels.SliceFrom | mreg/api/v1/zonefile.py:87 | `s[i:]`: a suffix of `s`, of length `|s| - i` for `0 <= i <= |s|`, the last `-i` characters (at most all) for negative `i`, empty past the end; used for `_prev_net` at :87-88 and :107 |
| Labels.SliceTo | mreg/api/v1/zonefile.py:89 | `s[:i]`: a prefix of `s`, of length `i` for `0 <= i <= |s|`, all but the last `-i` characters for negative `i`, all of `s` past the end; used for the PTR owner at :89 and :109 |
| Labels.SliceSplit | mreg/api/v1/zonefile.py:87-89 | `s[:i] + s[i:] == s` for every `i`: the owner and `_prev_net` cut the reverse name without losing a character |
| Labels.Find | mreg/api/v1/zonefile.py:87 | `str.find`: the index of the first occurrence, or -1 exactly when the character does not occur |
| Labels.LabelSuffix | mreg/api/v1/zonefile.py:86 | for dot-free labels, a name ends with `.` plus another name exactly when the second name's labels are a proper tail of the first's |
| Labels.JoinInjective | mreg/api/v1/zonefile.py:86 | different lists of dot-free labels join to different names |
| Labels.DotSuffix | mreg/api/v1/zonefile.py:86 | `p.u` ends with `q.v` (u, v dot-free) exactly when `u == v` and `p` ends with `q` |
| Labels.JoinAppend | mreg/api/v1/zonefile.py:84 | joining two non-empty label lists puts exactly one dot between their joins |
| Labels.FindAfterLabel | mreg/api/v1/zonefile.py:87 | the first dot of `u.t` with `u` dot-free is at index `|u|` |
| ReversePointer.Decimal | mreg/api/v1/zonefile.py:84 | the decimal text of an octet is non-empty, all digits, and has a leading `0` only for zero |
| ReversePointer.DecimalInjective | mreg/api/v1/zonefile.py:84 | different numbers have different decimal texts |
| ReversePointer.HexDigit | mreg/api/v1/zonefile.py:104 | a nibble's digit is lower-case hexadecimal, and a decimal digit exactly for values below 10 |
| ReversePointer.NibbleLabels | mreg/api/v1/zonefile.py:104 | one single-digit label per nibble, least significant nibble first |
| ReversePointer.ReversePointer4 | mreg/api/v1/zonefile.py:84 | `reverse_pointer` of an IPv4 address: the low octet, a dot, and the /24 origin `c.b.a.in-addr.arpa`, ending in `.in-addr.arpa`; the name the IPv4 rows below are about |
| ReversePointer.ReversePointer6 | mreg/api/v1/zonefile.py:104 | `reverse_pointer` of an IPv6 address: 72 characters, the 31-character low-nibble owner, a dot, the 40-character /64 origin, ending in `.ip6.arpa`; the name the IPv6 rows below are about |
| ReversePointer.ReversePointer4Split | mreg/api/v1/zonefile.py:84-89 | the IPv4 reverse name is the low octet, a dot, and `c.b.a.in-addr.arpa`; its first dot follows the owner; it ends in `a` |
| ReversePointer.SameSlash24 | mreg/api/v1/zonefile.py:86 | a reverse name ends with `.c.b.a.in-addr.arpa` of another address exactly when the top three octets match |
| ReversePointer.V4OriginInjective | mreg/api/v1/zonefile.py:87-88 | two addresses have the same IPv4 `$ORIGIN` text exactly when they share their /24 |
| ReversePointer.ReversePointer6Split | mreg/api/v1/zonefile.py:104-109 | the IPv6 reverse name is 72 characters: a 31-character owner, a dot at index 31, and a 40-character origin from index 32 |
| ReversePointer.V6OriginInjective | mreg/api/v1/zonefile.py:107-108 | two addresses have the same IPv6 `$ORIGIN` text exactly when they share their /64 |
| ReversePointer.SameSlash64 | mreg/api/v1/zonefile.py:106-107 | a reverse name ends with another's text from index 32 exactly when the two addresses share their /64 |
| ReversePointer.NibbleLabelsAppend | mreg/api/v1/zonefile.py:104 | the nibble labels of `hi + lo` are those of `lo` followed by those of `hi` |
| Runs.Runs | mreg/api/v1/zonefile.py:85-88 | the maximal runs: non-empty constant blocks that concatenate back to the input, with neighbouring blocks different |
| Runs.RunCount | mreg/api/v1/zonefile.py:85-88 | the number of maximal runs is the number of positions where the value changes, the first position included |
| Runs.SameRunCount | mreg/api/v1/zonefile.py:85-88 | sequences that change value at the same positions have equally many runs |
| ZoneData.AppendRecords | mreg/api/v1/zonefile.py:44-45 | appending every record's text in order to the accumulated data |
| ZoneData.Filter | mreg/api/v1/zonefile.py:53-54 | `filter`/`exclude`: exactly the accepted rows of the table, a sub-multiset of it, never longer than the table |
| ZoneData.FilterCount | mreg/api/v1/zonefile.py:53-54 | `filter`/`exclude` keep every accepted row as often as it is stored, and no row that is not accepted |
| ZoneData.FilterAppend | mreg/api/v1/zonefile.py:53-54 | filtering keeps the stored order: the rows kept from `a + b` are those kept from `a`, then those kept from `b` |
| ZoneData.HostsNamed | mreg/api/v1/zonefile.py:42 | `Host.objects.filter(name=zone.name)`: every stored host with that name, as often as it is stored, and no other; the apex query behind `GlueText` |
| ZoneData.FilterNone | mreg/api/v1/zonefile.py:42 | a filter that accepts no row returns nothing |
| ZoneData.ZoneRecords | mreg/api/v1/zonefile.py:59 | the NAPTR/SRV query returns each record stored with the zone's key exactly as often as it is stored that way, and no other |
| ZoneData.NameBeforeIrreflexive | mreg/api/v1/zonefile.py:53 | name order is irreflexive |
| ZoneData.NameBeforeTransitive | mreg/api/v1/zonefile.py:53 | name order is transitive |
| ZoneData.NameBeforeTotal | mreg/api/v1/zonefile.py:53 | any two different names are ordered |
| ZoneData.InsertByName | mreg/api/v1/zonefile.py:53 | inserting into a name-sorted list keeps it sorted and adds exactly that host |
| ZoneData.SortByName | mreg/api/v1/zonefile.py:53 | `order_by('name')`: sorted by name, the same hosts with the same multiplicities |
| ZoneData.FilterSorted | mreg/api/v1/zonefile.py:54 | `exclude` after `order_by` keeps name order |
| ZoneData.UniqueNamesSub | mreg/migrations/0001_initial.py:42 | any selection of rows from a table with unique host names has unique names |
| ZoneData.HostsNamedAtMostOne | mreg/api/v1/zonefile.py:42 | with unique host names, the query by name returns at most one host |
| ForwardFile.ZoneHosts | mreg/api/v1/zonefile.py:53-54 | `filter(zone=zone.id).order_by('name').exclude(name=zone.name)`: sorted by name, each host of the zone not named like the zone as often as it is stored, and no other host |
| ForwardFile.GlueText | mreg/api/v1/zonefile.py:48-50 | the glue section's body is empty exactly when no host is named like the zone, and otherwise `;` and the `host_data` of a host named like the zone |
| ForwardFile.HostData | mreg/api/v1/zonefile.py:23-35 | `host_data` is the host's address records, HINFO only when set, LOC only when set, CNAMEs and TXTs, in that order and nothing else |
| ForwardFile.AppendHosts | mreg/api/v1/zonefile.py:55-56 | each host's data appended in the list's order |
| ForwardFile.Generate | mreg/api/v1/zonefile.py:38-66 | the forward file: SOA text, then the headers Name servers, Subdomains, Glue records, Host addresses, Name authority pointers, Services, each followed by its own records |
| ForwardFile.HostSections | mreg/api/v1/zonefile.py:42-56 | at most one apex host, under the glue header; the host-address section holds exactly the zone's other hosts, never the apex, in strictly ascending name order |
| ReverseFile.RenderAppend | mreg/api/v1/zonefile.py:88-90 | the text of two line lists is the text of the first then of the second |
| ReverseFile.RenderStep | mreg/api/v1/zonefile.py:88-90 | one address's text: `$ORIGIN <origin>.` when the origin changes, then `<owner>\tPTR\t<target>.` |
| ReverseFile.LinesSnoc | mreg/api/v1/zonefile.py:83-90 | one more address adds exactly its own lines, decided by the origin in force after the earlier ones |
| ReverseFile.OriginCountIsChanges | mreg/api/v1/zonefile.py:85-88 | one `$ORIGIN` line per position where the origin changes |
| ReverseFile.PtrLinesOfItems | mreg/api/v1/zonefile.py:89-90 | exactly one PTR line per address, in iteration order |
| ReverseFile.LinesResolve | mreg/api/v1/zonefile.py:85-90 | read back as a master file, every PTR's owner completes to the address's owner under its own origin |
| ReverseFile.WriteHeader | mreg/api/v1/zonefile.py:76-81 | SOA text, name-server header and records, delegations header |
| ReverseFile.V4Split | mreg/api/v1/zonefile.py:87-89 | cutting the IPv4 reverse name at its first dot gives `.` plus the /24 origin, the origin without the dot, and the low octet |
| ReverseFile.V4SameNet | mreg/api/v1/zonefile.py:82-86 | the suffix test against `_prev_net` (`'z'` at first) succeeds exactly when the previous address is in the same /24 |
| ReverseFile.AppendV4Ptr | mreg/api/v1/zonefile.py:84-90 | one loop turn appends that address's lines and leaves `_prev_net` as `.` plus its /24 origin |
| ReverseFile.GenerateIPv4 | mreg/api/v1/zonefile.py:74-91 | the IPv4 reverse file is the header and the lines of the addresses in order |
| ReverseFile.IPv4Lines | mreg/api/v1/zonefile.py:82-90 | as many `$ORIGIN` lines as maximal runs of same-/24 addresses; one PTR per address, in order, owned by its low octet |
| ReverseFile.IPv4OriginAt | mreg/api/v1/zonefile.py:85-88 | an address's lines start with `$ORIGIN` exactly when it is the first or its /24 differs from the previous one |
| ReverseFile.IPv4Resolves | mreg/api/v1/zonefile.py:83-90 | read back, the body maps each address's full `d.c.b.a.in-addr.arpa` name to its host's encoded name, in order |
| ReverseFile.V6Split | mreg/api/v1/zonefile.py:107-109 | the reverse name from index 32 is the /64 origin, and up to index 31 the low-nibble owner |
| ReverseFile.V6SameNet | mreg/api/v1/zonefile.py:102-106 | the suffix test against `_prev_net` (`'z'` at first) succeeds exactly when the previous address is in the same /64 |
| ReverseFile.AppendV6Ptr | mreg/api/v1/zonefile.py:104-109 | one loop turn appends that address's lines and leaves `_prev_net` as its /64 origin |
| ReverseFile.GenerateIPv6 | mreg/api/v1/zonefile.py:95-110 | the IPv6 reverse file is the header and the lines of the addresses in order |
| ReverseFile.IPv6Lines | mreg/api/v1/zonefile.py:102-109 | as many `$ORIGIN` lines as maximal runs of same-/64 addresses; one PTR per address, in order, owned by its 16 low nibbles |
| ReverseFile.IPv6OriginAt | mreg/api/v1/zonefile.py:105-108 | an address's lines start with `$ORIGIN` exactly when it is the first or its /64 differs from the previous one |
| ReverseFile.IPv6Resolves | mreg/api/v1/zonefile.py:103-109 | read back, the body maps each address's full nibble name under `ip6.arpa` to its host's encoded name, in order |
| ZoneFile.SuffixesDisjoint | mreg/api/v1/zonefile.py:8-10 | no zone name ends with both `.in-addr.arpa` and `.ip6.arpa` |
| ZoneFile.Select | mreg/api/v1/zonefile.py:8-13 | IPv4 writer exactly for `.in-addr.arpa`, IPv6 exactly for `.ip6.arpa`, forward exactly for every other name |
| ZoneFile.GenerateAsWritten | mreg/api/v1/zonefile.py:6-16 | as written: forward and IPv4 texts for their zones, and a `TypeError` exactly for `.ip6.arpa` zones |
| ZoneFile.IPv6ZoneFailsAsWritten | mreg/api/v1/tests.py:1258-1261 | the zone `8.b.d.0.1.0.0.2.ip6.arpa` gets a `TypeError` as written |
| ZoneFile.Generate | mreg/api/v1/zonefile.py:15-16 | the selected writer's text for every suffix, equal to the as-written result wherever that succeeds |

## Left out

- Database queries are functions over tables given as sequences. These
  queries are `Host.objects.filter`, `order_by`, `exclude`,
  `Naptr/Srv.objects.filter`, `zone.nameservers.all()` and the host's
  related-record managers.
- `zone.get_ipaddresses()` is an input: a sequence of (address, host name)
  rows, typed per address family. `mreg/models.py` is not part of this
  model. Neither is the order in which that function returns the rows; every
  property holds for any order.
- Parsing the stored address text (`ipaddress.ip_address`) is left out. The
  model takes parsed addresses.
- `reverse_pointer` is re-specified from section 3.5 of RFC 1035 and
  section 2.5 of RFC 3596, not taken from Python's library.
- The record printers are opaque: `zf_string` of the zone and of each record
  kind, `HinfoPreset.zf_string`, `Host.loc_string` and `idna_encode`
  (`mreg/utils.py`). They are the fields of `ZoneData.Printer`, and their
  exceptions are not modelled.
- ZoneData.SortByName: orders names by character code, one character at a
  time. The database's collation for `order_by('name')` may differ.
- ForwardFile.HostSections: requires unique host names. The writer does not
  enforce this; the schema's unique constraint on `Host.name` does.
- The delegations sections only print their header. The source has a TODO
  there and writes no delegated records, so neither does the model.
- Only the text is modelled, not the HTTP view that serves it.

## Findings

| source | as written | input that shows it | evidently intended | confidence | as-written member | corrected member |
|---|---|---|---|---|---|---|
| mreg/api/v1/zonefile.py:11 | the IPv6 writer is constructed with the zone, but `IPv6ReverseFile` defines no constructor, so this raises `TypeError`. Line 16 would also call its `generate(self, zone)` without `zone` | a zone named `8.b.d.0.1.0.0.2.ip6.arpa`, the zone that mreg/api/v1/tests.py:1258-1261 expects to be served with status 200 | the IPv6 writer gets its zone like the other two writers, and returns `IPv6ReverseFile.generate`'s text | high (not executed) | ZoneFile.GenerateAsWritten, ZoneFile.IPv6ZoneFailsAsWritten | ZoneFile.Generate |
