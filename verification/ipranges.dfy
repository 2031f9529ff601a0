/**
 * ip_in_range / ip_in_allowed: CIDR prefix matching (section 3.1 of
 * RFC 4632) on packed addresses. The address parser `inet_pton` is a
 * parameter that gives the address bytes (4 or 16 of them) or nothing.
 *
 * The mask is built the way the source builds it: a hex text of 'f's,
 * one partial digit and '0' padding, packed with pack("H*"), then applied
 * with PHP's string `&`, whose result is as long as the SHORTER operand.
 */
module IpRanges {
  import opened Base
  import opened Text

  type Bytes = seq<bv8>

  // ---------------------------------------------------------------
  // Bits of a byte string, most significant bit first
  // ---------------------------------------------------------------

  /** Bit j (0 = most significant) of a byte. */
  function Bit(x: bv8, j: nat): bv8
    requires j < 8
  {
    if j == 0 then (x >> 7) & 1
    else if j == 1 then (x >> 6) & 1
    else if j == 2 then (x >> 5) & 1
    else if j == 3 then (x >> 4) & 1
    else if j == 4 then (x >> 3) & 1
    else if j == 5 then (x >> 2) & 1
    else if j == 6 then (x >> 1) & 1
    else x & 1
  }

  /** Bit k of a byte string, counting from the first byte's top bit. */
  function BitAt(bs: Bytes, k: nat): bv8
    requires k < 8 * |bs|
  {
    Bit(bs[k / 8], k % 8)
  }

  /** The first m bits of two addresses agree. */
  predicate PrefixAgrees(a: Bytes, b: Bytes, m: nat)
    requires m <= 8 * |a| && m <= 8 * |b|
  {
    forall k :: 0 <= k < m ==> BitAt(a, k) == BitAt(b, k)
  }

  /** A byte whose top r bits are set. */
  function TopBits(r: nat): (x: bv8)
    requires r <= 8
  {
    if r == 0 then 0 else ((0xff as bv8) << (8 - r))
  }

  // ---------------------------------------------------------------
  // The mask as the source builds it
  // ---------------------------------------------------------------

  function Repeat(c: char, n: nat): (s: string)
    ensures |s| == n && forall i :: 0 <= i < n ==> s[i] == c
  {
    seq(n, i => c)
  }

  /** `str_pad($s, $n, $c)`: pads on the right, never cuts. */
  function PadRight(s: string, n: nat, c: char): (r: string)
    ensures |r| == if |s| >= n then |s| else n
    ensures forall i :: 0 <= i < |r| ==> r[i] == if i < |s| then s[i] else c
  {
    if |s| >= n then s else s + Repeat(c, n - |s|)
  }

  /** `dechex` of a value below 16. */
  function LowerHex(v: nat): char
    requires v < 16
  {
    "0123456789abcdef"[v]
  }

  function Pow2(n: nat): nat {
    if n == 0 then 1 else 2 * Pow2(n - 1)
  }

  /** `dechex((15 << (4 - $r)) & 15)` for the partial nibble r in 1..3. */
  function PartialDigit(r: nat): char
    requires 1 <= r <= 3
  {
    LowerHex((15 * Pow2(4 - r)) % 16)
  }

  /** The hex text: 'f' per whole nibble, the partial nibble, '0' up to two digits per address byte. */
  function MaskHex(m: nat, len: nat): string {
    var q := m / 4;
    var head := Repeat('f', q) + (if m % 4 != 0 then [PartialDigit(m % 4)] else []);
    PadRight(head, 2 * len, '0')
  }

  function HexNibble(c: char): bv8 {
    if '0' <= c <= '9' then (c as int - '0' as int) as bv8
    else if 'a' <= c <= 'f' then (c as int - 'a' as int + 10) as bv8
    else 0
  }

  /** `pack("H*", $h)`: two digits per byte, high nibble first; a lone last digit is a high nibble. */
  function Pack(h: string): (bs: Bytes)
    ensures |bs| == (|h| + 1) / 2
    decreases |h|
  {
    if |h| == 0 then []
    else if |h| == 1 then [HexNibble(h[0]) << 4]
    else [(HexNibble(h[0]) << 4) | HexNibble(h[1])] + Pack(h[2..])
  }

  /** PHP's `&` on strings. */
  function AndBytes(a: Bytes, b: Bytes): (r: Bytes)
    ensures |r| == if |a| <= |b| then |a| else |b|
    ensures forall i :: 0 <= i < |r| ==> r[i] == a[i] & b[i]
  {
    var n := if |a| <= |b| then |a| else |b|;
    seq(n, i requires 0 <= i < n => a[i] & b[i])
  }

  /**
   * ip_in_range as written. A rule without '/' has no mask part to
   * destructure; a negative mask makes str_repeat throw.
   */
  function InRangeAsWritten(ip: string, cidr: string, pton: string -> Option<Bytes>): (r: Result<bool>)
    ensures '/' !in cidr ==> r.Fault?
    ensures '/' in cidr && (pton(ip).None? || pton(Split(cidr, '/')[0]).None?) ==> r == Ok(false)
  {
    var parts := Split(cidr, '/');
    if |parts| < 2 then
      SplitNoDelim(cidr, '/');
      Fault("Undefined array key 1")
    else
      match (pton(ip), pton(parts[0]))
      case (Some(ipb), Some(sb)) =>
        var m := IntCast(parts[1]);
        if m < 0 then Fault("str_repeat(): Argument #2 ($times) must be greater than or equal to 0")
        else
          var mask := Pack(MaskHex(m, |ipb|));
          Ok(AndBytes(ipb, mask) == AndBytes(sb, mask))
      case _ => Ok(false)
  }

  /** ip_in_range with the address families kept apart: addresses of different lengths never match. */
  function InRange(ip: string, cidr: string, pton: string -> Option<Bytes>): (r: Result<bool>)
    ensures '/' !in cidr ==> r.Fault?
    ensures '/' in cidr && (pton(ip).None? || pton(Split(cidr, '/')[0]).None?) ==> r == Ok(false)
  {
    var parts := Split(cidr, '/');
    if |parts| >= 2 && pton(ip).Some? && pton(parts[0]).Some? && |pton(ip).value| != |pton(parts[0]).value| then
      Ok(false)
    else
      InRangeAsWritten(ip, cidr, pton)
  }

  // ---------------------------------------------------------------
  // The mask bytes
  // ---------------------------------------------------------------

  function Clamp(t: int, hi: nat): (r: nat)
    ensures r <= hi
  {
    if t <= 0 then 0 else if t >= hi then hi else t
  }

  /** A nibble whose top t bits are set, as a byte value below 16. */
  function Nibble(t: nat): bv8
    requires t <= 4
  {
    if t == 0 then 0 else if t == 1 then 8 else if t == 2 then 12 else if t == 3 then 14 else 15
  }

  lemma PartialDigitValue(r: nat)
    requires 1 <= r <= 3
    ensures HexNibble(PartialDigit(r)) == Nibble(r)
  {
    if r == 1 {
      assert Pow2(3) == 8;
      assert PartialDigit(r) == '8';
    } else if r == 2 {
      assert Pow2(2) == 4;
      assert PartialDigit(r) == 'c';
    } else {
      assert Pow2(1) == 2;
      assert PartialDigit(r) == 'e';
    }
  }

  /** Digit p of the hex text. */
  lemma {:induction false} MaskHexAt(m: nat, len: nat, p: nat)
    requires p < 2 * len
    ensures p < |MaskHex(m, len)|
    ensures HexNibble(MaskHex(m, len)[p]) == Nibble(Clamp(m - 4 * p, 4))
  {
    var q, r := m / 4, m % 4;
    assert m == 4 * q + r;
    var head := Repeat('f', q) + (if r != 0 then [PartialDigit(r)] else []);
    var h := MaskHex(m, len);
    assert h == PadRight(head, 2 * len, '0');
    assert h[p] == if p < |head| then head[p] else '0';
    if p < q {
      assert head[p] == 'f';
    } else if p == q && r != 0 {
      assert head[p] == PartialDigit(r);
      PartialDigitValue(r);
    } else {
      assert p >= |head|;
    }
  }

  /** Byte i of a packed text. */
  lemma {:induction false} PackAt(h: string, i: nat)
    requires 2 * i + 1 < |h|
    ensures Pack(h)[i] == (HexNibble(h[2 * i]) << 4) | HexNibble(h[2 * i + 1])
    decreases i
  {
    if i > 0 {
      PackAt(h[2..], i - 1);
    }
  }

  /** Two nibbles make a byte with the top bits set. */
  lemma NibblesMakeByte(t: int)
    ensures (Nibble(Clamp(t, 4)) << 4) | Nibble(Clamp(t - 4, 4)) == TopBits(Clamp(t, 8))
  {
  }

  /** Byte i of the packed mask has the top (m - 8i) bits set, clamped to 0..8. */
  lemma MaskByteAt(m: nat, len: nat, i: nat)
    requires i < len
    ensures i < |Pack(MaskHex(m, len))|
    ensures Pack(MaskHex(m, len))[i] == TopBits(Clamp(m - 8 * i, 8))
  {
    var h := MaskHex(m, len);
    MaskHexAt(m, len, 2 * i);
    MaskHexAt(m, len, 2 * i + 1);
    PackAt(h, i);
    assert m - 4 * (2 * i + 1) == (m - 8 * i) - 4;
    NibblesMakeByte(m - 8 * i);
  }

  /** The packed mask covers every address byte. */
  lemma MaskLength(m: nat, len: nat)
    ensures |Pack(MaskHex(m, len))| >= len
  {
  }

  // ---------------------------------------------------------------
  // Masking compares prefixes
  // ---------------------------------------------------------------

  lemma BitOfMasked(x: bv8, r: nat, j: nat)
    requires r <= 8 && j < 8
    ensures Bit(x & TopBits(r), j) == if j < r then Bit(x, j) else 0
  {
  }

  lemma BitsDetermine(x: bv8, y: bv8)
    requires forall j :: 0 <= j < 8 ==> Bit(x, j) == Bit(y, j)
    ensures x == y
  {
    assert Bit(x, 0) == Bit(y, 0) && Bit(x, 1) == Bit(y, 1) && Bit(x, 2) == Bit(y, 2) && Bit(x, 3) == Bit(y, 3);
    assert Bit(x, 4) == Bit(y, 4) && Bit(x, 5) == Bit(y, 5) && Bit(x, 6) == Bit(y, 6) && Bit(x, 7) == Bit(y, 7);
  }

  /** Two bytes agree under a top-r mask exactly when their top r bits agree. */
  lemma MaskedByte(x: bv8, y: bv8, r: nat)
    requires r <= 8
    ensures (x & TopBits(r)) == (y & TopBits(r)) <==> forall j :: 0 <= j < r ==> Bit(x, j) == Bit(y, j)
  {
    if (x & TopBits(r)) == (y & TopBits(r)) {
      forall j | 0 <= j < r ensures Bit(x, j) == Bit(y, j) {
        BitOfMasked(x, r, j);
        BitOfMasked(y, r, j);
      }
    }
    if forall j :: 0 <= j < r ==> Bit(x, j) == Bit(y, j) {
      var xm, ym := x & TopBits(r), y & TopBits(r);
      forall j | 0 <= j < 8 ensures Bit(xm, j) == Bit(ym, j) {
        BitOfMasked(x, r, j);
        BitOfMasked(y, r, j);
      }
      BitsDetermine(xm, ym);
    }
  }

  lemma SplitIndex(i: nat, j: nat)
    requires j < 8
    ensures (8 * i + j) / 8 == i && (8 * i + j) % 8 == j
  {
  }

  function Min(a: nat, b: nat): nat {
    if a <= b then a else b
  }

  /**
   * Under the source's mask, two addresses of the same length compare
   * equal exactly when their first m bits agree (all of them, for a mask
   * longer than the address).
   */
  lemma AddressMatch(a: Bytes, b: Bytes, mask: Bytes, m: nat)
    requires |a| == |b| && |mask| >= |a|
    requires forall i :: 0 <= i < |a| ==> mask[i] == TopBits(Clamp(m - 8 * i, 8))
    ensures AndBytes(a, mask) == AndBytes(b, mask) <==> PrefixAgrees(a, b, Min(m, 8 * |a|))
  {
    var n := Min(m, 8 * |a|);
    if AndBytes(a, mask) == AndBytes(b, mask) {
      forall k | 0 <= k < n ensures BitAt(a, k) == BitAt(b, k) {
        assert AndBytes(a, mask)[k / 8] == AndBytes(b, mask)[k / 8];
        MaskedBit(a, b, mask, m, k);
      }
    }
    if PrefixAgrees(a, b, n) {
      forall i | 0 <= i < |a| ensures (a[i] & mask[i]) == (b[i] & mask[i]) {
        PrefixByte(a, b, mask, m, i);
      }
      assert AndBytes(a, mask) == AndBytes(b, mask);
    }
  }

  /** Bit k below the mask length is read from its byte under the mask. */
  lemma MaskedBit(a: Bytes, b: Bytes, mask: Bytes, m: nat, k: nat)
    requires |a| == |b| && |mask| >= |a| && k < Min(m, 8 * |a|)
    requires mask[k / 8] == TopBits(Clamp(m - 8 * (k / 8), 8))
    requires (a[k / 8] & mask[k / 8]) == (b[k / 8] & mask[k / 8])
    ensures BitAt(a, k) == BitAt(b, k)
  {
    var i, j := k / 8, k % 8;
    assert k == 8 * i + j;
    MaskedByte(a[i], b[i], Clamp(m - 8 * i, 8));
  }

  /** Agreement on the first m bits makes byte i agree under its mask byte. */
  lemma PrefixByte(a: Bytes, b: Bytes, mask: Bytes, m: nat, i: nat)
    requires |a| == |b| && |mask| >= |a| && i < |a|
    requires mask[i] == TopBits(Clamp(m - 8 * i, 8))
    requires PrefixAgrees(a, b, Min(m, 8 * |a|))
    ensures (a[i] & mask[i]) == (b[i] & mask[i])
  {
    var r := Clamp(m - 8 * i, 8);
    forall j | 0 <= j < r ensures Bit(a[i], j) == Bit(b[i], j) {
      SplitIndex(i, j);
      assert BitAt(a, 8 * i + j) == BitAt(b, 8 * i + j);
    }
    MaskedByte(a[i], b[i], r);
  }

  /** For one address family, ip_in_range is the CIDR prefix test. */
  lemma InRangeMeans(ip: string, cidr: string, pton: string -> Option<Bytes>)
    requires '/' in cidr
    requires pton(ip).Some? && pton(Split(cidr, '/')[0]).Some?
    requires |pton(ip).value| == |pton(Split(cidr, '/')[0]).value|
    requires IntCast(Split(cidr, '/')[1]) >= 0
    ensures var ipb, m := pton(ip).value, IntCast(Split(cidr, '/')[1]);
      InRange(ip, cidr, pton) == Ok(PrefixAgrees(ipb, pton(Split(cidr, '/')[0]).value, Min(m, 8 * |ipb|)))
    ensures InRange(ip, cidr, pton) == InRangeAsWritten(ip, cidr, pton)
  {
    var ipb, sb, m := pton(ip).value, pton(Split(cidr, '/')[0]).value, IntCast(Split(cidr, '/')[1]);
    var mask := Pack(MaskHex(m, |ipb|));
    MaskLength(m, |ipb|);
    forall i | 0 <= i < |ipb| ensures mask[i] == TopBits(Clamp(m - 8 * i, 8)) {
      MaskByteAt(m, |ipb|, i);
    }
    AddressMatch(ipb, sb, mask, m);
  }

  /** The corrected test never lets an address of one family match a range of the other. */
  lemma FamiliesApart(ip: string, cidr: string, pton: string -> Option<Bytes>)
    requires '/' in cidr
    requires pton(ip).Some? && pton(Split(cidr, '/')[0]).Some?
    requires |pton(ip).value| != |pton(Split(cidr, '/')[0]).value|
    ensures InRange(ip, cidr, pton) == Ok(false)
  {
  }

  /**
   * An IPv4 address against an IPv6 range: the string `&` cuts the
   * subnet to the address's 4 bytes, so 1.2.3.4 falls inside
   * 102:304::/32 as written; the corrected test refuses it.
   */
  lemma MixedFamilyCounterexample(pton: string -> Option<Bytes>)
    requires pton("1.2.3.4") == Some([1, 2, 3, 4])
    requires pton("102:304::") == Some([1, 2, 3, 4, 0, 0, 0, 0, 0, 0, 0, 0, 0, 0, 0, 0])
    ensures InRangeAsWritten("1.2.3.4", "102:304::/32", pton) == Ok(true)
    ensures InRange("1.2.3.4", "102:304::/32", pton) == Ok(false)
  {
    ExampleRule();
    ExampleMask();
    MixedFamily("1.2.3.4", "102:304::/32", pton);
  }

  lemma MixedFamily(ip: string, cidr: string, pton: string -> Option<Bytes>)
    requires Split(cidr, '/') == ["102:304::", "32"] && IntCast("32") == 32
    requires Pack(MaskHex(32, 4)) == [0xff, 0xff, 0xff, 0xff]
    requires pton(ip) == Some([1, 2, 3, 4])
    requires pton("102:304::") == Some([1, 2, 3, 4, 0, 0, 0, 0, 0, 0, 0, 0, 0, 0, 0, 0])
    ensures InRangeAsWritten(ip, cidr, pton) == Ok(true)
    ensures InRange(ip, cidr, pton) == Ok(false)
  {
    ExampleAnd(pton(ip).value, pton("102:304::").value, Pack(MaskHex(32, 4)));
  }

  lemma ExampleRule()
    ensures Split("102:304::/32", '/') == ["102:304::", "32"]
    ensures IntCast("32") == 32
  {
    ExampleSplit("102:304::", "32", "102:304::/32");
    ExampleCast();
  }

  lemma ExampleSplit(a: string, b: string, s: string)
    requires a == "102:304::" && b == "32" && s == a + ['/'] + b
    ensures Split(s, '/') == [a, b]
  {
    SplitConcat(a, '/', b);
    SplitNoDelim(b, '/');
  }

  lemma ExampleCast()
    ensures IntCast("32") == 32
  {
    assert NatToString(32) == "32" by {
      assert NatToString(3) == "3";
    }
    IntCastOfNatText(32);
  }

  lemma ExampleMask()
    ensures Pack(MaskHex(32, 4)) == [0xff, 0xff, 0xff, 0xff]
  {
    var mask := Pack(MaskHex(32, 4));
    assert |MaskHex(32, 4)| == 8;
    forall i | 0 <= i < 4 ensures mask[i] == 0xff {
      MaskByteAt(32, 4, i);
    }
  }

  lemma ExampleAnd(ipb: Bytes, sb: Bytes, mask: Bytes)
    requires ipb == [1, 2, 3, 4] && sb == [1, 2, 3, 4, 0, 0, 0, 0, 0, 0, 0, 0, 0, 0, 0, 0]
    requires mask == [0xff, 0xff, 0xff, 0xff]
    ensures AndBytes(ipb, mask) == AndBytes(sb, mask) == ipb
  {
  }

  // ---------------------------------------------------------------
  // ip_in_allowed
  // ---------------------------------------------------------------

  /** The range test a rule goes through: the code's, or with `apart` the corrected one. */
  function RangeTest(ip: string, rule: string, pton: string -> Option<Bytes>, apart: bool): Result<bool> {
    if apart then InRange(ip, rule, pton) else InRangeAsWritten(ip, rule, pton)
  }

  /** A rule admits the address: a CIDR range that contains it, or the same address text. */
  predicate RuleHit(rule: string, ip: string, pton: string -> Option<Bytes>, apart: bool) {
    if '/' in rule then RangeTest(ip, rule, pton, apart) == Ok(true) else ip == rule
  }

  predicate RuleFaults(rule: string, ip: string, pton: string -> Option<Bytes>, apart: bool) {
    '/' in rule && RangeTest(ip, rule, pton, apart).Fault?
  }

  /** The rules in order; the first that admits the address ends the loop. */
  function AllowedWith(rules: seq<string>, ip: string, pton: string -> Option<Bytes>, apart: bool): (r: Result<bool>)
    decreases |rules|
  {
    if |rules| == 0 then Ok(false)
    else if '/' in rules[0] then
      match RangeTest(ip, rules[0], pton, apart)
      case Fault(e) => Fault(e)
      case Ok(hit) => if hit then Ok(true) else AllowedWith(rules[1..], ip, pton, apart)
    else if ip == rules[0] then Ok(true)
    else AllowedWith(rules[1..], ip, pton, apart)
  }

  /** ip_in_allowed as written, over the code's ip_in_range. */
  function Allowed(rules: seq<string>, ip: string, pton: string -> Option<Bytes>): Result<bool> {
    AllowedWith(rules, ip, pton, false)
  }

  /** ip_in_allowed over the corrected range test. */
  function AllowedApart(rules: seq<string>, ip: string, pton: string -> Option<Bytes>): Result<bool> {
    AllowedWith(rules, ip, pton, true)
  }

  /** ip_in_allowed is true only when some rule admits the address, under either range test. */
  lemma {:induction false} AllowedSound(rules: seq<string>, ip: string, pton: string -> Option<Bytes>, apart: bool)
    requires AllowedWith(rules, ip, pton, apart) == Ok(true)
    ensures exists i :: 0 <= i < |rules| && RuleHit(rules[i], ip, pton, apart)
    decreases |rules|
  {
    if RuleHit(rules[0], ip, pton, apart) {
      assert 0 <= 0 < |rules|;
    } else {
      var tail := rules[1..];
      assert AllowedWith(rules, ip, pton, apart) == AllowedWith(tail, ip, pton, apart);
      AllowedSound(tail, ip, pton, apart);
      var i :| 0 <= i < |tail| && RuleHit(tail[i], ip, pton, apart);
      assert rules[i + 1] == tail[i];
    }
  }

  /**
   * With no malformed range rule, ip_in_allowed is true exactly when some
   * rule admits the address, under either range test.
   */
  lemma {:induction false} AllowedMeans(rules: seq<string>, ip: string, pton: string -> Option<Bytes>, apart: bool)
    requires forall i :: 0 <= i < |rules| ==> !RuleFaults(rules[i], ip, pton, apart)
    ensures AllowedWith(rules, ip, pton, apart) == Ok(exists i :: 0 <= i < |rules| && RuleHit(rules[i], ip, pton, apart))
    decreases |rules|
  {
    if |rules| > 0 {
      var tail := rules[1..];
      assert !RuleFaults(rules[0], ip, pton, apart);
      if RuleHit(rules[0], ip, pton, apart) {
        assert 0 <= 0 < |rules|;
      } else {
        assert AllowedWith(rules, ip, pton, apart) == AllowedWith(tail, ip, pton, apart);
        assert forall i :: 0 <= i < |tail| ==> tail[i] == rules[i + 1];
        AllowedMeans(tail, ip, pton, apart);
        assert (exists i :: 0 <= i < |rules| && RuleHit(rules[i], ip, pton, apart)) ==>
          exists i :: 0 <= i < |tail| && RuleHit(tail[i], ip, pton, apart) by {
          if exists i :: 0 <= i < |rules| && RuleHit(rules[i], ip, pton, apart) {
            var i :| 0 <= i < |rules| && RuleHit(rules[i], ip, pton, apart);
            assert i > 0 && tail[i - 1] == rules[i];
          }
        }
      }
    }
  }

  /** The two tests part on the mixed-family rule: the code admits 1.2.3.4, the corrected test does not. */
  lemma AllowedMixedFamily(pton: string -> Option<Bytes>)
    requires pton("1.2.3.4") == Some([1, 2, 3, 4])
    requires pton("102:304::") == Some([1, 2, 3, 4, 0, 0, 0, 0, 0, 0, 0, 0, 0, 0, 0, 0])
    ensures Allowed(["102:304::/32"], "1.2.3.4", pton) == Ok(true)
    ensures AllowedApart(["102:304::/32"], "1.2.3.4", pton) == Ok(false)
  {
    MixedFamilyCounterexample(pton);
    assert '/' in "102:304::/32";
    assert AllowedWith(["102:304::/32"][1..], "1.2.3.4", pton, true) == Ok(false);
  }

  /** Under the corrected test no range of the other family admits the address. */
  lemma ApartRuleFamilies(rule: string, ip: string, pton: string -> Option<Bytes>)
    requires '/' in rule
    requires pton(ip).Some? && pton(Split(rule, '/')[0]).Some?
    requires |pton(ip).value| != |pton(Split(rule, '/')[0]).value|
    ensures !RuleHit(rule, ip, pton, true) && !RuleFaults(rule, ip, pton, true)
  {
    FamiliesApart(ip, rule, pton);
  }
}
