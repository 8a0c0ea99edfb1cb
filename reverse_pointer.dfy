/**
 * Reverse-lookup domain names of IP addresses, as `ipaddress.reverse_pointer`
 * produces them: for IPv4 the four decimal octets in reverse order under
 * `in-addr.arpa` (section 3.5 of RFC 1035), for IPv6 the 32 hexadecimal
 * nibbles in reverse order under `ip6.arpa` (section 2.5 of RFC 3596), both
 * in lower case.
 *
 * Each name is split here the way the reverse zone-file writers split it: an
 * owner part (the low-order octet, or the 16 low-order nibbles) and an origin
 * part (the /24, or the /64 prefix, with the `arpa` suffix).
 */
module ReversePointer {
  import opened Labels

  type Octet = x: int | 0 <= x < 256
  type Nibble = x: int | 0 <= x < 16

  /** The IPv4 address a.b.c.d; `a` is the most significant octet. */
  datatype IPv4 = IPv4(a: Octet, b: Octet, c: Octet, d: Octet)

  /** An IPv6 address as its 32 nibbles, most significant first (the digits of its exploded form). */
  type IPv6 = s: seq<Nibble> | |s| == 32 witness seq(32, i => 0)

  function DigitChar(n: nat): char
    requires n < 10
  {
    (48 + n) as char
  }

  /** `str(n)`: the decimal digits of `n`. */
  function Decimal(n: nat): (s: string)
    ensures |s| >= 1
    ensures forall i :: 0 <= i < |s| ==> '0' <= s[i] <= '9'
    ensures |s| == 1 <==> n < 10
    ensures s[0] == '0' <==> n == 0
  {
    if n < 10 then [DigitChar(n)] else Decimal(n / 10) + [DigitChar(n % 10)]
  }

  /** Decimal text is canonical: different numbers never print alike. */
  lemma {:induction false} DecimalInjective(m: nat, n: nat)
    requires Decimal(m) == Decimal(n)
    ensures m == n
  {
    if m >= 10 {
      var s := Decimal(m);
      assert s[..|s| - 1] == Decimal(m / 10) && s[|s| - 1] == DigitChar(m % 10);
      assert s[..|s| - 1] == Decimal(n / 10) && s[|s| - 1] == DigitChar(n % 10);
      DecimalInjective(m / 10, n / 10);
    }
  }

  /** The lower-case hexadecimal digit of a nibble. */
  function HexDigit(n: Nibble): (c: char)
    ensures '0' <= c <= '9' || 'a' <= c <= 'f'
    ensures n < 10 <==> '0' <= c <= '9'
  {
    if n < 10 then DigitChar(n) else (87 + n) as char
  }

  lemma DecimalDotFree(n: nat)
    ensures DotFree(Decimal(n))
  {
  }

  // ---------------------------------------------------------------- IPv4

  /** The labels of the /24 part: `c`, `b`, `a`, `in-addr`, `arpa`. */
  function V4OriginLabels(ip: IPv4): seq<string> {
    [Decimal(ip.c), Decimal(ip.b), Decimal(ip.a), "in-addr", "arpa"]
  }

  /** `c.b.a.in-addr.arpa`: the reverse zone of the address's /24. */
  function V4Origin(ip: IPv4): string {
    JoinLabels(V4OriginLabels(ip))
  }

  /** `d`: the low-order octet, the owner of the address's PTR within its /24. */
  function V4Owner(ip: IPv4): string {
    Decimal(ip.d)
  }

  /** `d.c.b.a.in-addr.arpa`: the owner label, a dot, and the /24 origin, under `in-addr.arpa`. */
  function ReversePointer4(ip: IPv4): (r: string)
    ensures r == V4Owner(ip) + "." + V4Origin(ip)
    ensures EndsWith(r, ".in-addr.arpa")
  {
    JoinAppend([Decimal(ip.d)], V4OriginLabels(ip));
    V4EndsArpa(ip);
    JoinLabels([Decimal(ip.d)] + V4OriginLabels(ip))
  }

  lemma V4EndsArpa(ip: IPv4)
    ensures EndsWith(V4Owner(ip) + "." + V4Origin(ip), ".in-addr.arpa")
  {
    V4OriginArpa(ip);
    EndsWithLastPart(V4Owner(ip), JoinLabels([Decimal(ip.c), Decimal(ip.b), Decimal(ip.a)]), "in-addr.arpa");
  }

  /** The /24 origin is its three octet labels, then `.in-addr.arpa`. */
  lemma V4OriginArpa(ip: IPv4)
    ensures V4Origin(ip) == JoinLabels([Decimal(ip.c), Decimal(ip.b), Decimal(ip.a)]) + "." + "in-addr.arpa"
  {
    var arpa := ["in-addr", "arpa"];
    var nums := [Decimal(ip.c), Decimal(ip.b), Decimal(ip.a)];
    assert V4OriginLabels(ip) == nums + arpa;
    JoinAppend(nums, arpa);
    assert JoinLabels(arpa) == JoinLabels(["in-addr"]) + "." + "arpa";
  }

  lemma V4LabelsDotFree(ip: IPv4)
    ensures AllDotFree([Decimal(ip.d)] + V4OriginLabels(ip))
    ensures AllDotFree(V4OriginLabels(ip))
  {
    DecimalDotFree(ip.a);
    DecimalDotFree(ip.b);
    DecimalDotFree(ip.c);
    DecimalDotFree(ip.d);
    assert DotFree("in-addr") && DotFree("arpa");
  }

  /**
   * The IPv4 reverse name is its owner label, a dot, and the /24 origin; its
   * first dot is the one after the owner, and it ends in `a` (of `arpa`).
   */
  lemma ReversePointer4Split(ip: IPv4)
    ensures ReversePointer4(ip) == V4Owner(ip) + "." + V4Origin(ip)
    ensures Find(ReversePointer4(ip), '.') == |V4Owner(ip)|
    ensures ReversePointer4(ip)[|ReversePointer4(ip)| - 1] == 'a'
  {
    DecimalDotFree(ip.d);
    FindAfterLabel(V4Owner(ip), V4Origin(ip));
    var r := ReversePointer4(ip);
    assert r[|r| - 1] == ".in-addr.arpa"[12];
  }

  /**
   * The test the IPv4 writer uses to detect a new /24: a reverse name ends
   * with `.c.b.a.in-addr.arpa` exactly when the address's top three octets
   * are `a`, `b` and `c`.
   */
  lemma SameSlash24(x: IPv4, y: IPv4)
    ensures EndsWith(ReversePointer4(x), "." + V4Origin(y))
            <==> x.a == y.a && x.b == y.b && x.c == y.c
  {
    var ls := [Decimal(x.d)] + V4OriginLabels(x);
    V4LabelsDotFree(x);
    V4LabelsDotFree(y);
    LabelSuffix(ls, V4OriginLabels(y));
    assert ls[|ls| - 5..] == V4OriginLabels(x);
    if V4OriginLabels(x) == V4OriginLabels(y) {
      DecimalInjective(x.a, y.a);
      DecimalInjective(x.b, y.b);
      DecimalInjective(x.c, y.c);
    }
  }

  /** Two addresses share their `$ORIGIN` text exactly when they share their /24. */
  lemma V4OriginInjective(x: IPv4, y: IPv4)
    ensures V4Origin(x) == V4Origin(y) <==> x.a == y.a && x.b == y.b && x.c == y.c
  {
    if V4Origin(x) == V4Origin(y) {
      V4LabelsDotFree(x);
      V4LabelsDotFree(y);
      JoinInjective(V4OriginLabels(x), V4OriginLabels(y));
      DecimalInjective(x.a, y.a);
      DecimalInjective(x.b, y.b);
      DecimalInjective(x.c, y.c);
    }
  }

  // ---------------------------------------------------------------- IPv6

  /** One single-digit label per nibble, least significant nibble first. */
  function NibbleLabels(ns: seq<Nibble>): (ls: seq<string>)
    ensures |ls| == |ns|
    ensures forall i :: 0 <= i < |ls| ==> ls[i] == [HexDigit(ns[|ns| - 1 - i])]
  {
    if |ns| == 0 then [] else [[HexDigit(ns[|ns| - 1])]] + NibbleLabels(ns[..|ns| - 1])
  }

  /** The 16 low-order nibbles, dot-separated, least significant first: the PTR owner. */
  function V6Owner(ip: IPv6): string {
    JoinLabels(NibbleLabels(ip[16..]))
  }

  /** The /64 prefix nibbles, least significant first, then `ip6.arpa`: the `$ORIGIN`. */
  function V6Origin(ip: IPv6): string {
    JoinLabels(NibbleLabels(ip[..16]) + ["ip6", "arpa"])
  }

  /**
   * The nibble-form reverse name of an IPv6 address under `ip6.arpa`: 72
   * characters, the 31-character owner, a dot, and the 40-character origin.
   */
  function ReversePointer6(ip: IPv6): (r: string)
    ensures |V6Owner(ip)| == 31 && |V6Origin(ip)| == 40 && |r| == 72
    ensures r == V6Owner(ip) + "." + V6Origin(ip)
    ensures EndsWith(r, ".ip6.arpa")
  {
    var hi, lo := ip[..16], ip[16..];
    assert ip == hi + lo;
    NibbleLabelsAppend(hi, lo);
    var lows, highs, arpa := NibbleLabels(lo), NibbleLabels(hi), ["ip6", "arpa"];
    assert NibbleLabels(ip) + arpa == lows + (highs + arpa);
    JoinAppend(lows, highs + arpa);
    JoinSingleCharLength(lows);
    JoinSingleCharLength(highs);
    JoinAppend(highs, arpa);
    assert JoinLabels(arpa) == JoinLabels(["ip6"]) + "." + "arpa";
    EndsWithLastPart(JoinLabels(lows), JoinLabels(highs), "ip6.arpa");
    JoinLabels(NibbleLabels(ip) + arpa)
  }

  lemma NibbleLabelsDotFree(ns: seq<Nibble>)
    ensures AllDotFree(NibbleLabels(ns))
    ensures AllDotFree(NibbleLabels(ns) + ["ip6", "arpa"])
  {
    var ls := NibbleLabels(ns);
    forall i | 0 <= i < |ls| ensures DotFree(ls[i]) {
      assert ls[i] == [HexDigit(ns[|ns| - 1 - i])];
    }
    assert DotFree("ip6") && DotFree("arpa");
  }

  /** Listing the nibbles of `hi + lo` from the least significant end lists `lo` first. */
  lemma NibbleLabelsAppend(hi: seq<Nibble>, lo: seq<Nibble>)
    ensures NibbleLabels(hi + lo) == NibbleLabels(lo) + NibbleLabels(hi)
  {
    var l, r := NibbleLabels(hi + lo), NibbleLabels(lo) + NibbleLabels(hi);
    assert |l| == |r|;
    forall i | 0 <= i < |l| ensures l[i] == r[i] {
      if i < |lo| {
        assert (hi + lo)[|hi + lo| - 1 - i] == lo[|lo| - 1 - i];
      } else {
        assert (hi + lo)[|hi + lo| - 1 - i] == hi[|hi| - 1 - (i - |lo|)];
      }
    }
  }

  /**
   * The IPv6 reverse name is 72 characters: the 31-character owner, a dot at
   * index 31, and the origin from index 32 on, which is 40 characters long.
   */
  lemma ReversePointer6Split(ip: IPv6)
    ensures |V6Owner(ip)| == 31 && |V6Origin(ip)| == 40 && |ReversePointer6(ip)| == 72
    ensures ReversePointer6(ip) == V6Owner(ip) + "." + V6Origin(ip)
    ensures ReversePointer6(ip)[71] == 'a'
  {
    var r := ReversePointer6(ip);
    assert r[71] == ".ip6.arpa"[8];
  }

  /** Two IPv6 addresses share their `$ORIGIN` text exactly when they share their /64. */
  lemma V6OriginInjective(x: IPv6, y: IPv6)
    ensures V6Origin(x) == V6Origin(y) <==> x[..16] == y[..16]
  {
    if V6Origin(x) == V6Origin(y) {
      var lx, ly := NibbleLabels(x[..16]), NibbleLabels(y[..16]);
      NibbleLabelsDotFree(x[..16]);
      NibbleLabelsDotFree(y[..16]);
      JoinInjective(lx + ["ip6", "arpa"], ly + ["ip6", "arpa"]);
      assert lx == (lx + ["ip6", "arpa"])[..16];
      assert ly == (ly + ["ip6", "arpa"])[..16];
      forall i | 0 <= i < 16 ensures x[i] == y[i] {
        assert lx[15 - i] == ly[15 - i];
        assert HexDigit(x[i]) == HexDigit(y[i]);
      }
      assert x[..16] == y[..16];
    }
  }

  /**
   * The test the IPv6 writer uses to detect a new /64: a reverse name ends
   * with the text from index 32 of another address's reverse name exactly
   * when the two addresses share their /64.
   */
  lemma SameSlash64(x: IPv6, y: IPv6)
    ensures EndsWith(ReversePointer6(x), SliceFrom(ReversePointer6(y), 32)) <==> x[..16] == y[..16]
  {
    ReversePointer6Split(x);
    ReversePointer6Split(y);
    assert SliceFrom(ReversePointer6(y), 32) == V6Origin(y);
    assert ReversePointer6(x)[72 - 40..] == V6Origin(x);
    V6OriginInjective(x, y);
  }
}
