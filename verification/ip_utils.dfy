/** The pure parts of remotedisplay's `utils/Utils.java`: the dotted-quad
    test `IsIpv4` and the bit dump `byteToBit`. */
module IpUtils {
  import opened JavaTypes
  import opened Wrappers
  import opened Decimal
  import opened BytesUtils

  const IP_MASK: nat := 4

  // ---- String.split on one literal character ----

  /** Every piece between separators, empty ones included. */
  function SplitAll(s: string, d: char): (r: seq<string>)
    ensures |r| >= 1
    ensures forall i :: 0 <= i < |r| ==> d !in r[i]
    decreases |s|
  {
    if |s| == 0 then [""]
    else
      var rest := SplitAll(s[1..], d);
      if s[0] == d then [""] + rest
      else [[s[0]] + rest[0]] + rest[1..]
  }

  /** The pieces glued back together with the separator. */
  function Join(parts: seq<string>, d: char): string
    requires |parts| >= 1
    decreases |parts|
  {
    if |parts| == 1 then parts[0] else parts[0] + [d] + Join(parts[1..], d)
  }

  /** Splitting loses nothing: joining the pieces gives the string back. */
  lemma {:induction false} SplitJoin(s: string, d: char)
    ensures Join(SplitAll(s, d), d) == s
    decreases |s|
  {
    if |s| > 0 {
      SplitJoin(s[1..], d);
      var rest := SplitAll(s[1..], d);
      if s[0] == d {
        assert s == [d] + s[1..];
      } else if |rest| == 1 {
        assert s == [s[0]] + s[1..];
      } else {
        assert Join(rest, d) == rest[0] + [d] + Join(rest[1..], d);
        var r := SplitAll(s, d);
        assert r[1..] == rest[1..];
        assert s == [s[0]] + s[1..];
      }
    }
  }

  /** A separator-free prefix joins the first piece. */
  lemma {:induction false} SplitPrefix(p: string, s: string, d: char)
    requires d !in p
    ensures SplitAll(p + s, d) == [p + SplitAll(s, d)[0]] + SplitAll(s, d)[1..]
    decreases |p|
  {
    var t := SplitAll(s, d);
    if |p| == 0 {
      assert p + s == s;
      assert p + t[0] == t[0];
      assert t == [t[0]] + t[1..];
    } else {
      SplitPrefix(p[1..], s, d);
      assert (p + s)[1..] == p[1..] + s;
      assert (p + s)[0] == p[0];
      var rest := SplitAll(p[1..] + s, d);
      assert rest[0] == p[1..] + t[0] && rest[1..] == t[1..];
      assert [p[0]] + (p[1..] + t[0]) == p + t[0];
    }
  }

  /** Separator-free pieces are recovered exactly by splitting their join. */
  lemma {:induction false} JoinSplit(parts: seq<string>, d: char)
    requires |parts| >= 1
    requires forall i :: 0 <= i < |parts| ==> d !in parts[i]
    ensures SplitAll(Join(parts, d), d) == parts
    decreases |parts|
  {
    if |parts| == 1 {
      SplitPrefix(parts[0], "", d);
      assert parts[0] + "" == parts[0];
    } else {
      JoinSplit(parts[1..], d);
      var tail := [d] + Join(parts[1..], d);
      assert SplitAll(tail, d) == [""] + parts[1..] by {
        assert tail[1..] == Join(parts[1..], d);
      }
      SplitPrefix(parts[0], tail, d);
      assert parts[0] + tail == Join(parts, d);
      assert parts[0] + "" == parts[0];
      assert parts == [parts[0]] + parts[1..];
    }
  }

  /** Java drops the trailing empty pieces. */
  function DropTrailingEmpty(parts: seq<string>): (r: seq<string>)
    ensures |r| <= |parts| && r == parts[..|r|]
    ensures |r| > 0 ==> r[|r| - 1] != ""
    ensures forall i :: |r| <= i < |parts| ==> parts[i] == ""
    decreases |parts|
  {
    if |parts| > 0 && parts[|parts| - 1] == "" then DropTrailingEmpty(parts[..|parts| - 1]) else parts
  }

  /** `s.split("\\.")`. */
  function SplitDots(s: string): seq<string>
  {
    DropTrailingEmpty(SplitAll(s, '.'))
  }

  // ---- IsIpv4 ----

  /** A piece `Integer.parseInt` reads as a number from 0 to 255. */
  predicate IsOctet(part: string)
  {
    var n := ParseInt(part);
    n.Some? && 0 <= n.value <= 255
  }

  /** `IsIpv4`: non-empty, four pieces after `split`, each an octet. */
  function IsIpv4(s: Option<string>): (r: bool)
    ensures r ==> s.Some? && |s.value| > 0
    ensures r <==> (s.Some? && |s.value| > 0 && |SplitDots(s.value)| == IP_MASK
                    && forall i :: 0 <= i < IP_MASK ==> IsOctet(SplitDots(s.value)[i]))
  {
    if s.None? || |s.value| == 0 then false
    else
      var parts := SplitDots(s.value);
      if |parts| != IP_MASK then false
      else AllOctets(parts)
  }

  /** The `for` loop over the pieces. */
  function AllOctets(parts: seq<string>): (r: bool)
    ensures r <==> forall i :: 0 <= i < |parts| ==> IsOctet(parts[i])
    decreases |parts|
  {
    if |parts| == 0 then true else IsOctet(parts[0]) && AllOctets(parts[1..])
  }

  /** A printed octet is a separator-free piece that parses back. */
  lemma OctetPiece(n: nat)
    requires n < 0x100
    ensures '.' !in NatToString(n) && NatToString(n) != "" && IsOctet(NatToString(n))
  {
    NatToStringDigits(n);
    ParseIntOfNatToString(n);
    var p := NatToString(n);
    assert forall k :: 0 <= k < |p| ==> p[k] != '.';
  }

  lemma JoinFour(w: string, x: string, y: string, z: string)
    ensures Join([w, x, y, z], '.') == w + "." + x + "." + y + "." + z
  {
    var parts := [w, x, y, z];
    assert parts[3..] == [z];
    assert parts[2..][1..] == parts[3..];
    assert parts[1..][1..] == parts[2..];
    assert Join(parts[2..], '.') == y + ['.'] + z;
    assert Join(parts[1..], '.') == x + ['.'] + (y + ['.'] + z);
    assert Join(parts, '.') == w + ['.'] + (x + ['.'] + (y + ['.'] + z));
  }

  /** Four separator-free octets joined by dots pass `IsIpv4`. */
  lemma PiecesIsIpv4(w: string, x: string, y: string, z: string)
    requires z != ""
    requires '.' !in w && '.' !in x && '.' !in y && '.' !in z
    requires IsOctet(w) && IsOctet(x) && IsOctet(y) && IsOctet(z)
    ensures IsIpv4(Some(w + "." + x + "." + y + "." + z))
  {
    var parts := [w, x, y, z];
    JoinFour(w, x, y, z);
    JoinSplit(parts, '.');
    var text := w + "." + x + "." + y + "." + z;
    assert SplitDots(text) == parts;
    assert |text| > 0;
  }

  /** Four printed octets joined by dots pass `IsIpv4`. */
  lemma QuadIsIpv4(a: nat, b: nat, c: nat, e: nat)
    requires a < 0x100 && b < 0x100 && c < 0x100 && e < 0x100
    ensures IsIpv4(Some(NatToString(a) + "." + NatToString(b) + "." + NatToString(c) + "." + NatToString(e)))
  {
    OctetPiece(a);
    OctetPiece(b);
    OctetPiece(c);
    OctetPiece(e);
    PiecesIsIpv4(NatToString(a), NatToString(b), NatToString(c), NatToString(e));
  }

  /** Every address `int2Ip` prints passes `IsIpv4`. */
  lemma Int2IpIsIpv4(ip: int32)
    ensures IsIpv4(Some(Int2Ip(ip)))
  {
    var u := U32(ip);
    QuadIsIpv4(u / 0x100_0000, u % 0x100_0000 / 0x1_0000, u % 0x1_0000 / 0x100, u % 0x100);
  }

  /** `split` drops a trailing empty piece, so a dotted quad with a
      trailing dot still passes. */
  lemma TrailingDotAccepted()
    ensures IsIpv4(Some("1.2.3.4."))
  {
    var parts := ["1", "2", "3", "4", ""];
    TrailingDotJoin();
    JoinSplit(parts, '.');
    assert DropTrailingEmpty(parts) == parts[..4];
    assert parts[..4] == ["1", "2", "3", "4"];
    SmallOctets();
    assert AllOctets(parts[..4]);
  }

  lemma TrailingDotJoin()
    ensures Join(["1", "2", "3", "4", ""], '.') == "1.2.3.4."
  {
    var parts := ["1", "2", "3", "4", ""];
    assert parts[4..] == [""];
    assert parts[3..][1..] == parts[4..];
    assert parts[2..][1..] == parts[3..];
    assert parts[1..][1..] == parts[2..];
  }

  lemma SmallOctets()
    ensures IsOctet("1") && IsOctet("2") && IsOctet("3") && IsOctet("4")
  {
    assert ParseInt("1") == Some(1);
    assert ParseInt("2") == Some(2);
    assert ParseInt("3") == Some(3);
    assert ParseInt("4") == Some(4);
  }

  // ---- byteToBit ----

  /** Bit `k` of a byte, as `(b >> k) & 0x1` reads it. */
  function Bit(b: uint8, k: nat): (r: nat)
    requires k < 8
    ensures r < 2
  {
    b / Pow2(k) % 2
  }

  function Pow2(k: nat): (p: nat)
    requires k < 8
    ensures p > 0
  {
    [1, 2, 4, 8, 16, 32, 64, 128][k]
  }

  function BitChar(bit: nat): char
    requires bit < 2
  {
    if bit == 1 then '1' else '0'
  }

  /** One byte as eight characters, the high bit first. */
  function ByteBits(b: uint8): (s: string)
    ensures |s| == 8
    ensures forall j :: 0 <= j < 8 ==> s[j] == BitChar(Bit(b, 7 - j))
  {
    [BitChar(Bit(b, 7)), BitChar(Bit(b, 6)), BitChar(Bit(b, 5)), BitChar(Bit(b, 4)),
     BitChar(Bit(b, 3)), BitChar(Bit(b, 2)), BitChar(Bit(b, 1)), BitChar(Bit(b, 0))]
  }

  /** `byteToBit`: the bytes' eight-character groups in order. */
  function ByteToBit(data: bytes): (s: string)
    ensures |s| == 8 * |data|
    decreases |data|
  {
    if |data| == 0 then "" else ByteBits(data[0]) + ByteToBit(data[1..])
  }

  /** The `i`-th group of the dump is the `i`-th byte's bits. */
  lemma {:induction false} ByteToBitGroup(data: bytes, i: nat)
    requires i < |data|
    ensures ByteToBit(data)[8 * i..8 * i + 8] == ByteBits(data[i])
    decreases i
  {
    var s := ByteToBit(data);
    if i > 0 {
      ByteToBitGroup(data[1..], i - 1);
      assert s[8 * i..8 * i + 8] == ByteToBit(data[1..])[8 * (i - 1)..8 * (i - 1) + 8];
    }
  }

  function Digit(c: char): nat
  {
    if c == '1' then 1 else 0
  }

  /** A string of '0' and '1' read as a binary number, high digit first. */
  function BinaryValue(s: string): nat
    decreases |s|
  {
    if |s| == 0 then 0 else 2 * BinaryValue(s[..|s| - 1]) + Digit(s[|s| - 1])
  }

  /** One more digit doubles the value read so far. */
  lemma BinaryStep(s: string, k: nat)
    requires 0 < k <= |s|
    ensures BinaryValue(s[..k]) == 2 * BinaryValue(s[..k - 1]) + Digit(s[k - 1])
  {
    assert s[..k][..k - 1] == s[..k - 1];
  }

  lemma Halve(b: nat, c: nat)
    requires c == 1 || c == 2 || c == 4 || c == 8 || c == 16 || c == 32 || c == 64
    ensures b / c == 2 * (b / (2 * c)) + b / c % 2
  {
  }

  /** Reading a group back as binary gives the byte: the dump loses
      nothing. */
  lemma ByteBitsReadBack(b: uint8)
    ensures BinaryValue(ByteBits(b)) == b
  {
    var s := ByteBits(b);
    BitsPrefix(b, s, 8);
    assert s[..8] == s;
  }

  /** The first `k` characters of a group read as the top `k` bits. */
  lemma {:induction false} BitsPrefix(b: uint8, s: string, k: nat)
    requires |s| == 8 && k <= 8
    requires forall j :: 0 <= j < 8 ==> s[j] == BitChar(Bit(b, 7 - j))
    ensures BinaryValue(s[..k]) == if k == 0 then 0 else b / Pow2(8 - k)
  {
    if k == 0 {
      assert s[..0] == "";
    } else {
      BitsPrefix(b, s, k - 1);
      BinaryStep(s, k);
      assert s[k - 1] == BitChar(Bit(b, 8 - k));
      if k > 1 {
        assert Pow2(8 - (k - 1)) == 2 * Pow2(8 - k);
        Halve(b, Pow2(8 - k));
      }
    }
  }
}
