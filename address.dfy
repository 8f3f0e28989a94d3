/**
 * IPv4 addresses as the scripts handle them: dotted-quad strings read by
 * socket.inet_aton, the big-endian 32-bit value struct.unpack('!L', ...) makes
 * of them, the prefix-membership test subnet_check and the 32-character bit
 * string of ip_address_to_32bit.
 *
 * A 32-bit value is represented by its 32 bits, most significant first
 * (a `Word`); Python's `>>`, `^` and `&` on such values are written out bit by bit.
 */
module Address {
  import opened Wrappers
  import opened Text

  type Octet = x: int | 0 <= x < 256

  /** An IPv4 address: its four octets, most significant first. */
  datatype IPv4 = IPv4(a: Octet, b: Octet, c: Octet, d: Octet)

  /** One address of an interface, as get_ip_addresses reports it: (ip, prefix bits, broadcast). */
  datatype InterfaceAddress = InterfaceAddress(ip: IPv4, prefix: nat, broadcast: string)

  // ---------------------------------------------------------------------------
  // Dotted-quad text

  /**
   * One decimal field of a dotted quad: one to three digits, no leading zero, at most 255.
   * (inet_aton reads a leading zero as octal and accepts shorter forms; such text is
   * outside this model.)
   */
  function ParseOctet(s: string): Option<Octet> {
    if 1 <= |s| <= 3 && AllDigits(s) && (|s| == 1 || s[0] != '0') && ParseNat(s) < 256
    then Some(ParseNat(s))
    else None
  }

  /** Every field read as an octet, in order; None as soon as one is not. */
  function ParseOctets(fields: seq<string>): (r: Option<seq<Octet>>)
    ensures r.Some? ==> |r.value| == |fields|
  {
    if fields == [] then Some([])
    else
      match ParseOctet(fields[0])
      case None => None
      case Some(x) =>
        match ParseOctets(fields[1..])
        case None => None
        case Some(xs) => Some([x] + xs)
  }

  /** socket.inet_aton on the canonical form "a.b.c.d"; None where the model treats the text as malformed. */
  function ParseDottedQuad(s: string): Option<IPv4> {
    var fields := Split(s, '.');
    if |fields| != 4 then None
    else
      match ParseOctets(fields)
      case None => None
      case Some(os) => Some(IPv4(os[0], os[1], os[2], os[3]))
  }

  /** The canonical text of an address. */
  function DottedQuad(ip: IPv4): string {
    Join([NatToString(ip.a), NatToString(ip.b), NatToString(ip.c), NatToString(ip.d)], ".")
  }

  lemma ParseOctetOfString(x: Octet)
    ensures ParseOctet(NatToString(x)) == Some(x)
  {
    NatToStringLength(x);
    ParseNatToString(x);
  }

  lemma ParseOctetsCons(field: string, fields: seq<string>, x: Octet, xs: seq<Octet>)
    requires ParseOctet(field) == Some(x) && ParseOctets(fields) == Some(xs)
    ensures ParseOctets([field] + fields) == Some([x] + xs)
  {
    assert ([field] + fields)[1..] == fields;
  }

  /** Reading the canonical text of an address gives the address back. */
  lemma ParseDottedQuadRoundTrip(ip: IPv4)
    ensures ParseDottedQuad(DottedQuad(ip)) == Some(ip)
  {
    var parts := [NatToString(ip.a), NatToString(ip.b), NatToString(ip.c), NatToString(ip.d)];
    forall k | 0 <= k < |parts| ensures Lacks(parts[k], '.') {
      assert AllDigits(parts[k]) && !IsDigit('.');
    }
    SplitJoin(parts, '.');
    ParseOctetOfString(ip.a);
    ParseOctetOfString(ip.b);
    ParseOctetOfString(ip.c);
    ParseOctetOfString(ip.d);
    ParseOctetsCons(parts[3], [], ip.d, []);
    assert [parts[3]] == [parts[3]] + [] && [ip.d] == [ip.d] + [];
    ParseOctetsCons(parts[2], [parts[3]], ip.c, [ip.d]);
    assert [parts[2], parts[3]] == [parts[2]] + [parts[3]] && [ip.c, ip.d] == [ip.c] + [ip.d];
    ParseOctetsCons(parts[1], [parts[2], parts[3]], ip.b, [ip.c, ip.d]);
    assert [parts[1], parts[2], parts[3]] == [parts[1]] + [parts[2], parts[3]];
    assert [ip.b, ip.c, ip.d] == [ip.b] + [ip.c, ip.d];
    ParseOctetsCons(parts[0], [parts[1], parts[2], parts[3]], ip.a, [ip.b, ip.c, ip.d]);
    assert parts == [parts[0]] + [parts[1], parts[2], parts[3]];
  }

  // ---------------------------------------------------------------------------
  // 32-bit values

  function Pow2(k: nat): (p: nat)
    ensures p >= 1
  {
    if k == 0 then 1 else 2 * Pow2(k - 1)
  }

  /** The low k bits of n, most significant first: the reference reading of a k-bit value. */
  function Digits(n: nat, k: nat): (w: seq<bool>)
    ensures |w| == k
  {
    if k == 0 then [] else Digits(n / 2, k - 1) + [n % 2 == 1]
  }

  /** The value of a bit sequence read most significant bit first. */
  function FromDigits(w: seq<bool>): nat {
    if w == [] then 0 else 2 * FromDigits(w[..|w| - 1]) + (if w[|w| - 1] then 1 else 0)
  }

  /** Reading the k bits of a k-bit value gives the value back. */
  lemma {:induction false} FromDigitsDigits(n: nat, k: nat)
    requires n < Pow2(k)
    ensures FromDigits(Digits(n, k)) == n
  {
    if k > 0 {
      var w := Digits(n, k);
      assert w[..|w| - 1] == Digits(n / 2, k - 1);
      FromDigitsDigits(n / 2, k - 1);
    }
  }

  /** Two k-bit values with the same bits are the same value. */
  lemma {:induction false} DigitsInjective(x: nat, y: nat, k: nat)
    requires x < Pow2(k) && y < Pow2(k)
    requires Digits(x, k) == Digits(y, k)
    ensures x == y
  {
    if k > 0 {
      var wx, wy := Digits(x, k), Digits(y, k);
      assert wx[..k - 1] == Digits(x / 2, k - 1);
      assert wy[..k - 1] == Digits(y / 2, k - 1);
      assert wx[k - 1] == (x % 2 == 1) && wy[k - 1] == (y % 2 == 1);
      DigitsInjective(x / 2, y / 2, k - 1);
    }
  }

  lemma MulDouble(x: nat, p: nat)
    ensures x * (2 * p) == 2 * (x * p)
  {
  }

  /** The bits of x * 2^k + y are the bits of x followed by the k bits of y. */
  lemma {:induction false} DigitsConcat(x: nat, y: nat, j: nat, k: nat, v: nat, n: nat)
    requires y < Pow2(k) && v == x * Pow2(k) + y && n == j + k
    ensures Digits(v, n) == Digits(x, j) + Digits(y, k)
  {
    if k > 0 {
      var p := Pow2(k - 1);
      var m := x * p;
      assert x * Pow2(k) == 2 * m by {
        assert Pow2(k) == 2 * p;
        MulDouble(x, p);
      }
      var h, b := y / 2, y % 2;
      assert v == 2 * (m + h) + b;
      assert v / 2 == m + h && v % 2 == b;
      DigitsConcat(x, h, j, k - 1, m + h, n - 1);
      assert Digits(y, k) == Digits(h, k - 1) + [b == 1];
    }
  }

  /** struct.unpack('!L', inet_aton(ip))[0]: the address as a big-endian unsigned 32-bit value. */
  function ToU32(ip: IPv4): nat {
    ((ip.a * 256 + ip.b) * 256 + ip.c) * 256 + ip.d
  }

  lemma ToU32Fits(ip: IPv4)
    ensures ToU32(ip) < 4294967296
  {
    assert (ip.a * 256 + ip.b) * 256 + ip.c < 16777216;
  }

  lemma Pow2Values()
    ensures Pow2(8) == 256 && Pow2(16) == 65536 && Pow2(24) == 16777216
    ensures Pow2(32) == 4294967296
  {
    assert Pow2(8) == 256;
    assert Pow2(16) == 256 * 256 by { Pow2Add(8, 8); }
    assert Pow2(24) == 65536 * 256 by { Pow2Add(16, 8); }
    assert Pow2(32) == 16777216 * 256 by { Pow2Add(24, 8); }
  }

  lemma {:induction false} Pow2Add(i: nat, j: nat)
    ensures Pow2(i + j) == Pow2(i) * Pow2(j)
  {
    if j > 0 {
      Pow2Add(i, j - 1);
      assert Pow2(i + j) == 2 * Pow2(i + j - 1);
    }
  }

  /** The value of an address as a 32-bit word. */
  function Word(ip: IPv4): (w: seq<bool>)
    ensures |w| == 32
  {
    Digits(ToU32(ip), 32)
  }

  /** The word of an address is its four octets' bits side by side. */
  lemma WordIsOctets(ip: IPv4)
    ensures Word(ip) == Digits(ip.a, 8) + Digits(ip.b, 8) + Digits(ip.c, 8) + Digits(ip.d, 8)
  {
    var ab := ip.a * 256 + ip.b;
    var abc := ab * 256 + ip.c;
    DigitsConcatOctet(abc, ip.d, 24, ToU32(ip), 32);
    DigitsConcatOctet(ab, ip.c, 16, abc, 24);
    DigitsConcatOctet(ip.a, ip.b, 8, ab, 16);
  }

  /** DigitsConcat for a low part of one octet: v is x * 256 + y, n is j + 8. */
  lemma DigitsConcatOctet(x: nat, y: Octet, j: nat, v: nat, n: nat)
    requires v == x * 256 + y && n == j + 8
    ensures Digits(v, n) == Digits(x, j) + Digits(y, 8)
  {
    assert Pow2(8) == 256;
    DigitsConcat(x, y, j, 8, v, n);
  }

  /** The octets of an address sit at bits 0..8, 8..16, 16..24 and 24..32 of its word. */
  lemma WordSlices(ip: IPv4)
    ensures Word(ip)[..8] == Digits(ip.a, 8)
    ensures Word(ip)[8..16] == Digits(ip.b, 8)
    ensures Word(ip)[16..24] == Digits(ip.c, 8)
    ensures Word(ip)[24..] == Digits(ip.d, 8)
  {
    WordIsOctets(ip);
    var A, B, C, D := Digits(ip.a, 8), Digits(ip.b, 8), Digits(ip.c, 8), Digits(ip.d, 8);
    assert (A + B + C + D)[..8] == A;
    assert (A + B + C + D)[8..16] == B;
    assert (A + B + C + D)[16..24] == C;
    assert (A + B + C + D)[24..] == D;
  }

  /** Two octets with the same eight bits are the same octet. */
  lemma OctetBitsInjective(x: Octet, y: Octet)
    requires Digits(x, 8) == Digits(y, 8)
    ensures x == y
  {
    assert Pow2(8) == 256;
    DigitsInjective(x, y, 8);
  }

  /** Different addresses have different words. */
  lemma WordInjective(ip: IPv4, other: IPv4)
    requires Word(ip) == Word(other)
    ensures ip == other
  {
    WordSlices(ip);
    WordSlices(other);
    OctetBitsInjective(ip.a, other.a);
    OctetBitsInjective(ip.b, other.b);
    OctetBitsInjective(ip.c, other.c);
    OctetBitsInjective(ip.d, other.d);
  }

  /** Read most significant bit first, the word of an address is its 32-bit value. */
  lemma WordIsBigEndian(ip: IPv4)
    ensures FromDigits(Word(ip)) == ToU32(ip)
  {
    Pow2Values();
    FromDigitsDigits(ToU32(ip), 32);
  }

  /** The two leading bits of an octet: the first is set from 128 up, the second in 64..127 and 192..255. */
  lemma LeadingBits(x: Octet)
    ensures Digits(x, 8)[0] <==> x >= 128
    ensures Digits(x, 8)[1] <==> x % 128 >= 64
  {
    OctetSplit(x);
    TopBitOfSeven(x % 128);
  }

  /** The two leading bits of an address's word are those of its first octet. */
  lemma LeadingBitsOfWord(ip: IPv4)
    ensures Word(ip)[0] <==> ip.a >= 128
    ensures Word(ip)[1] <==> ip.a % 128 >= 64
  {
    WordSlices(ip);
    LeadingBits(ip.a);
    assert Word(ip)[0] == Word(ip)[..8][0] && Word(ip)[1] == Word(ip)[..8][1];
  }

  /** The bits of an octet: its top bit, then the seven bits of the rest. */
  lemma OctetSplit(x: Octet)
    ensures Digits(x, 8) == [x >= 128] + Digits(x % 128, 7)
  {
    var hi, lo := x / 128, x % 128;
    assert Pow2(7) == 128;
    assert x == hi * 128 + lo;
    DigitsConcat(hi, lo, 1, 7, x, 8);
    assert Digits(hi, 1) == [hi % 2 == 1];
    assert hi == 0 || hi == 1;
    assert (hi % 2 == 1) == (x >= 128);
  }

  lemma TopBitOfSeven(y: nat)
    requires y < 128
    ensures Digits(y, 7)[0] <==> y >= 64
  {
    var hi, lo := y / 64, y % 64;
    assert Pow2(6) == 64;
    assert y == hi * 64 + lo;
    DigitsConcat(hi, lo, 1, 6, y, 7);
    assert Digits(hi, 1) == [hi % 2 == 1];
    assert Digits(y, 7)[0] == (hi % 2 == 1);
    assert hi == 0 || hi == 1;
  }

  // ---------------------------------------------------------------------------
  // subnet_check

  function AllOnes(): (w: seq<bool>)
    ensures |w| == 32
  {
    seq(32, i => true)
  }

  /** `w >> n` on a 32-bit value: the bits move n places down and zeros enter at the top. */
  function ShiftRight(w: seq<bool>, n: nat): (r: seq<bool>)
    requires |w| == 32
    ensures |r| == 32
  {
    seq(32, i requires 0 <= i < 32 => i >= n && w[i - n])
  }

  function Xor(v: seq<bool>, w: seq<bool>): (r: seq<bool>)
    requires |v| == |w|
    ensures |r| == |v|
  {
    seq(|v|, i requires 0 <= i < |v| => v[i] != w[i])
  }

  function And(v: seq<bool>, w: seq<bool>): (r: seq<bool>)
    requires |v| == |w|
    ensures |r| == |v|
  {
    seq(|v|, i requires 0 <= i < |v| => v[i] && w[i])
  }

  function Min(x: nat, y: nat): nat {
    if x <= y then x else y
  }

  /** (0xFFFFFFFF >> n) ^ 0xFFFFFFFF: the top n bits set (all 32 once n reaches 32), the rest clear. */
  function Netmask(n: nat): (m: seq<bool>)
    ensures |m| == 32
    ensures forall i :: 0 <= i < 32 ==> (m[i] <==> i < n)
  {
    Xor(ShiftRight(AllOnes(), n), AllOnes())
  }

  /**
   * subnet_check(netmask_bits, ip_address, target): the two addresses agree under the
   * netmask of netmask_bits bits, that is, their leading netmask_bits bits are the same.
   */
  function SubnetCheck(bits: nat, ip: IPv4, target: IPv4): (r: bool)
    ensures r <==> Word(ip)[..Min(bits, 32)] == Word(target)[..Min(bits, 32)]
  {
    var m := Netmask(bits);
    var x, y := And(Word(ip), m), And(Word(target), m);
    var n := Min(bits, 32);
    assert x == y <==> Word(ip)[..n] == Word(target)[..n] by {
      if x == y {
        forall i | 0 <= i < n ensures Word(ip)[..n][i] == Word(target)[..n][i] {
          assert x[i] == y[i];
        }
      }
      if Word(ip)[..n] == Word(target)[..n] {
        forall i | 0 <= i < 32 ensures x[i] == y[i] {
          if i < n {
            assert Word(ip)[..n][i] == Word(target)[..n][i];
          }
        }
      }
    }
    x == y
  }

  /**
   * The boundary cases of the test: no netmask bits accept every target, 32 or more
   * accept exactly the address itself; the test is symmetric and reflexive.
   */
  lemma SubnetCheckBoundaries(bits: nat, ip: IPv4, target: IPv4)
    ensures SubnetCheck(0, ip, target)
    ensures bits >= 32 ==> (SubnetCheck(bits, ip, target) <==> ip == target)
    ensures SubnetCheck(bits, ip, target) == SubnetCheck(bits, target, ip)
    ensures SubnetCheck(bits, ip, ip)
  {
    if bits >= 32 && SubnetCheck(bits, ip, target) {
      assert Word(ip)[..32] == Word(ip) && Word(target)[..32] == Word(target);
      WordInjective(ip, target);
    }
  }

  /** Two sequences agree on their first n elements exactly when they agree on the first k and on those from k to n. */
  lemma PrefixPair<T>(w: seq<T>, v: seq<T>, k: nat, n: nat)
    requires k <= n <= |w| && n <= |v|
    ensures w[..n] == v[..n] <==> w[..k] == v[..k] && w[k..n] == v[k..n]
  {
    if w[..k] == v[..k] && w[k..n] == v[k..n] {
      assert w[..n] == w[..k] + w[k..n] && v[..n] == v[..k] + v[k..n];
    }
    if w[..n] == v[..n] {
      assert w[..k] == w[..n][..k] && v[..k] == v[..n][..k];
      assert w[k..n] == w[..n][k..] && v[k..n] == v[..n][k..];
    }
  }

  /** With a whole number of netmask octets, the test compares the leading octets. */
  lemma SubnetCheckOctets(ip: IPv4, target: IPv4)
    ensures SubnetCheck(8, ip, target) <==> ip.a == target.a
    ensures SubnetCheck(16, ip, target) <==> ip.a == target.a && ip.b == target.b
    ensures SubnetCheck(24, ip, target) <==> ip.a == target.a && ip.b == target.b && ip.c == target.c
  {
    WordSlices(ip);
    WordSlices(target);
    var w, v := Word(ip), Word(target);
    if w[..8] == v[..8] {
      OctetBitsInjective(ip.a, target.a);
    }
    if w[8..16] == v[8..16] {
      OctetBitsInjective(ip.b, target.b);
    }
    if w[16..24] == v[16..24] {
      OctetBitsInjective(ip.c, target.c);
    }
    PrefixPair(w, v, 8, 16);
    PrefixPair(w, v, 16, 24);
  }

  // ---------------------------------------------------------------------------
  // ip_address_to_32bit

  function BitChar(b: bool): char {
    if b then '1' else '0'
  }

  /** A word written as a string of '0' and '1' characters, most significant bit first. */
  function BitString(w: seq<bool>): (s: string)
    ensures |s| == |w|
  {
    seq(|w|, i requires 0 <= i < |w| => BitChar(w[i]))
  }

  /** bin(n) without its "0b" prefix: the binary numeral of n, without leading zeros ("0" for zero). */
  function Bin(n: nat): (s: string)
    ensures s != []
  {
    if n < 2 then [BitChar(n == 1)] else Bin(n / 2) + [BitChar(n % 2 == 1)]
  }

  function Zeros(k: nat): (s: string)
    ensures |s| == k
  {
    seq(k, i => '0')
  }

  lemma DigitsOfZero(k: nat)
    ensures BitString(Digits(0, k)) == Zeros(k)
  {
    if k > 0 {
      DigitsOfZero(k - 1);
      assert BitString(Digits(0, k)) == BitString(Digits(0, k - 1)) + ['0'];
    }
  }

  /** bin(n), padded on the left with zeros to k characters, is the k-bit string of n. */
  lemma {:induction false} BinPadded(n: nat, k: nat)
    requires 1 <= k && n < Pow2(k)
    ensures |Bin(n)| <= k
    ensures Zeros(k - |Bin(n)|) + Bin(n) == BitString(Digits(n, k))
  {
    var last := [BitChar(n % 2 == 1)];
    assert BitString(Digits(n, k)) == BitString(Digits(n / 2, k - 1)) + last;
    if n < 2 {
      DigitsOfZero(k - 1);
      assert Zeros(k) == Zeros(k - 1) + ['0'];
    } else {
      BinPadded(n / 2, k - 1);
      assert Zeros(k - |Bin(n)|) + Bin(n) == (Zeros(k - 1 - |Bin(n / 2)|) + Bin(n / 2)) + last;
    }
  }

  /** bin() of an address's 32-bit value needs at most 32 digits, and zero-padding it gives the address's word. */
  lemma BinOfAddress(ip: IPv4)
    ensures |Bin(ToU32(ip))| <= 32
    ensures Zeros(32 - |Bin(ToU32(ip))|) + Bin(ToU32(ip)) == BitString(Word(ip))
  {
    ToU32Fits(ip);
    Pow2Values();
    BinPadded(ToU32(ip), 32);
  }

  lemma PadOneMore(pad: nat, digits: string)
    ensures "0" + (Zeros(pad) + digits) == Zeros(pad + 1) + digits
  {
    assert Zeros(pad + 1) == "0" + Zeros(pad);
  }

  /**
   * ip_address_to_32bit: bin() of the address's 32-bit value, padded with leading
   * zeros to 32 characters. The result is the address's word, bit by bit.
   */
  method IpAddressTo32Bit(ip: IPv4) returns (binary: string)
    ensures binary == BitString(Word(ip))
  {
    var value := ToU32(ip);
    BinOfAddress(ip);
    binary := Bin(value);
    ghost var digits := binary;
    ghost var pad := 0;
    while |binary| < 32
      invariant pad + |digits| == |binary| <= 32
      invariant binary == Zeros(pad) + digits
    {
      PadOneMore(pad, digits);
      binary := "0" + binary;
      pad := pad + 1;
    }
  }
}
