/**
  Base64 as the nonce of a UsernameToken is decoded: padded to whole groups of four first, then by the strict rules of
  section 4 of RFC 4648 (padding where it is due and nowhere else, unused bits zero).
 */
module Base64 {
  import opened Wrappers

  type Byte = b: nat | b < 256

  /** Adds the padding that is missing, if any is. */
  function Padded(s: string): (p: string)
    ensures |p| % 4 == 0 && |s| <= |p| && p[..|s|] == s
    ensures |s| % 4 == 0 ==> p == s
  {
    if |s| % 4 == 0 then s else s + seq(4 - |s| % 4, _ => '=')
  }

  function Value(c: char): Option<Six>
  {
    if 'A' <= c <= 'Z' then Some((c - 'A') as nat)
    else if 'a' <= c <= 'z' then Some((c - 'a') as nat + 26)
    else if '0' <= c <= '9' then Some((c - '0') as nat + 52)
    else if c == '+' then Some(62)
    else if c == '/' then Some(63)
    else None
  }

  lemma ValueInjective(c: char, d: char)
    requires Value(c).Some? && Value(c) == Value(d)
    ensures c == d
  {
  }

  type Six = v: nat | v < 64

  function First(a: Six, b: Six): Byte { a * 4 + b / 16 }

  function Second(b: Six, c: Six): Byte { b % 16 * 16 + c / 4 }

  function Third(c: Six, d: Six): Byte { c % 4 * 64 + d }

  /** Four characters, three bytes. */
  function Group(s: string): (r: Option<seq<Byte>>)
    requires |s| == 4
    ensures r.Some? ==> |r.value| == 3
  {
    match (Value(s[0]), Value(s[1]), Value(s[2]), Value(s[3]))
    case (Some(a), Some(b), Some(c), Some(d)) => Some([First(a, b), Second(b, c), Third(c, d)])
    case _ => None
  }

  /** A last group with one padding character, two bytes; the bits left over are zero. */
  function GroupOfTwo(s: string): (r: Option<seq<Byte>>)
    requires |s| == 4
    ensures r.Some? ==> |r.value| == 2
  {
    match (Value(s[0]), Value(s[1]), Value(s[2]))
    case (Some(a), Some(b), Some(c)) => if c % 4 == 0 then Some([First(a, b), Second(b, c)]) else None
    case _ => None
  }

  /** A last group with two, one byte. */
  function GroupOfOne(s: string): (r: Option<seq<Byte>>)
    requires |s| == 4
    ensures r.Some? ==> |r.value| == 1
  {
    match (Value(s[0]), Value(s[1]))
    case (Some(a), Some(b)) => if b % 16 == 0 then Some([First(a, b)]) else None
    case _ => None
  }

  function LastGroup(s: string): (r: Option<seq<Byte>>)
    requires |s| == 4
    ensures r.Some? ==> |r.value| == if s[3] != '=' then 3 else if s[2] != '=' then 2 else 1
  {
    if s[3] != '=' then Group(s) else if s[2] != '=' then GroupOfTwo(s) else GroupOfOne(s)
  }

  function Decode(s: string): Option<seq<Byte>>
  {
    if s == "" then Some([])
    else if |s| < 4 then None
    else if |s| == 4 then LastGroup(s)
    else
      match (Group(s[..4]), Decode(s[4..]))
      case (Some(group), Some(rest)) => Some(group + rest)
      case _ => None
  }

  // ----- One text for each decoded value

  lemma FirstBack(a: Six, b: Six)
    ensures First(a, b) / 4 == a && First(a, b) % 4 == b / 16
  {
  }

  lemma SecondBack(b: Six, c: Six)
    ensures Second(b, c) / 16 == b % 16 && Second(b, c) % 16 == c / 4
  {
  }

  lemma ThirdBack(c: Six, d: Six)
    ensures Third(c, d) / 64 == c % 4 && Third(c, d) % 64 == d
  {
  }

  lemma SameFirst(a: Six, b: Six, a': Six, b': Six)
    requires First(a, b) == First(a', b')
    ensures a == a' && b / 16 == b' / 16
  {
    FirstBack(a, b);
    FirstBack(a', b');
  }

  lemma SameSecond(b: Six, c: Six, b': Six, c': Six)
    requires Second(b, c) == Second(b', c')
    ensures b % 16 == b' % 16 && c / 4 == c' / 4
  {
    SecondBack(b, c);
    SecondBack(b', c');
  }

  lemma SameThird(c: Six, d: Six, c': Six, d': Six)
    requires Third(c, d) == Third(c', d')
    ensures c % 4 == c' % 4 && d == d'
  {
    ThirdBack(c, d);
    ThirdBack(c', d');
  }

  lemma Same(v: Six, w: Six, n: nat)
    requires n >= 1 && v / n == w / n && v % n == w % n
    ensures v == w
  {
    assert v == v / n * n + v % n && w == w / n * n + w % n;
  }

  lemma GroupInjective(s: string, t: string)
    requires |s| == |t| == 4 && Group(s).Some? && Group(s) == Group(t)
    ensures s == t
  {
    hide Value, First, Second, Third;
    var g, h := Group(s).value, Group(t).value;
    assert g[0] == h[0] && g[1] == h[1] && g[2] == h[2];
    var a, b, c, d := Value(s[0]).value, Value(s[1]).value, Value(s[2]).value, Value(s[3]).value;
    var a', b', c', d' := Value(t[0]).value, Value(t[1]).value, Value(t[2]).value, Value(t[3]).value;
    SameFirst(a, b, a', b');
    SameSecond(b, c, b', c');
    SameThird(c, d, c', d');
    Same(b, b', 16);
    Same(c, c', 4);
    ValueInjective(s[0], t[0]);
    ValueInjective(s[1], t[1]);
    ValueInjective(s[2], t[2]);
    ValueInjective(s[3], t[3]);
  }

  lemma GroupOfTwoInjective(s: string, t: string)
    requires |s| == |t| == 4 && s[3] == t[3] && GroupOfTwo(s).Some? && GroupOfTwo(s) == GroupOfTwo(t)
    ensures s == t
  {
    hide Value, First, Second;
    var g, h := GroupOfTwo(s).value, GroupOfTwo(t).value;
    assert g[0] == h[0] && g[1] == h[1];
    var a, b, c := Value(s[0]).value, Value(s[1]).value, Value(s[2]).value;
    var a', b', c' := Value(t[0]).value, Value(t[1]).value, Value(t[2]).value;
    SameFirst(a, b, a', b');
    SameSecond(b, c, b', c');
    Same(b, b', 16);
    Same(c, c', 4);
    ValueInjective(s[0], t[0]);
    ValueInjective(s[1], t[1]);
    ValueInjective(s[2], t[2]);
  }

  lemma GroupOfOneInjective(s: string, t: string)
    requires |s| == |t| == 4 && s[2] == t[2] && s[3] == t[3] && GroupOfOne(s).Some? && GroupOfOne(s) == GroupOfOne(t)
    ensures s == t
  {
    hide Value, First;
    var g, h := GroupOfOne(s).value, GroupOfOne(t).value;
    assert g[0] == h[0];
    var a, b, a', b' := Value(s[0]).value, Value(s[1]).value, Value(t[0]).value, Value(t[1]).value;
    SameFirst(a, b, a', b');
    Same(b, b', 16);
    ValueInjective(s[0], t[0]);
    ValueInjective(s[1], t[1]);
  }

  lemma LastGroupInjective(s: string, t: string)
    requires |s| == |t| == 4 && LastGroup(s).Some? && LastGroup(s) == LastGroup(t)
    ensures s == t
  {
    hide Group, GroupOfTwo, GroupOfOne;
    if s[3] != '=' {
      GroupInjective(s, t);
    } else if s[2] != '=' {
      GroupOfTwoInjective(s, t);
    } else {
      GroupOfOneInjective(s, t);
    }
  }

  /** The padding characters that count at the end of a text. */
  function Padding(s: string): (n: nat)
    ensures n <= 2
  {
    if |s| < 4 || s[|s| - 1] != '=' then 0 else if s[|s| - 2] != '=' then 1 else 2
  }

  /** How many bytes a text stands for: three a group, less one for each padding character. */
  lemma {:induction false} DecodedLength(s: string)
    requires Decode(s).Some?
    ensures |s| % 4 == 0 && |Decode(s).value| == |s| / 4 * 3 - Padding(s)
  {
    hide Group, LastGroup;
    if |s| > 4 {
      DecodedLength(s[4..]);
      assert Padding(s) == Padding(s[4..]);
    }
  }

  lemma {:induction false} DecodeInjective(s: string, t: string)
    requires Decode(s).Some? && Decode(s) == Decode(t)
    ensures s == t
  {
    DecodedLength(s);
    DecodedLength(t);
    hide Group, LastGroup;
    if |s| == 4 {
      LastGroupInjective(s, t);
    } else if s != "" {
      var bytes := Decode(s).value;
      assert bytes[..3] == Group(s[..4]).value == Group(t[..4]).value;
      assert bytes[3..] == Decode(s[4..]).value == Decode(t[4..]).value;
      GroupInjective(s[..4], t[..4]);
      DecodeInjective(s[4..], t[4..]);
      assert s == s[..4] + s[4..] && t == t[..4] + t[4..];
    }
  }

  /** A nonce can be spelled in another way that decodes the same exactly when its length is no multiple of three. */
  lemma RespelledExactlyWhen(s: string)
    requires Decode(Padded(s)).Some?
    ensures (exists t :: t != s && Decode(Padded(t)) == Decode(Padded(s))) <==> |Decode(Padded(s)).value| % 3 != 0
  {
    hide Decode, Padded;
    PaddedExactlyWhen(s);
    if t :| t != s && Decode(Padded(t)) == Decode(Padded(s)) {
      DecodeInjective(Padded(t), Padded(s));
      PaddingShows(s);
      PaddingShows(t);
    }
    if |Decode(Padded(s)).value| % 3 != 0 {
      var t := OtherSpelling(s);
      assert Decode(Padded(t)) == Decode(Padded(s));
    }
  }

  lemma PaddedExactlyWhen(s: string)
    requires Decode(Padded(s)).Some?
    ensures |Decode(Padded(s)).value| % 3 != 0 <==> Padded(s) != "" && Padded(s)[|Padded(s)| - 1] == '='
  {
    hide Decode;
    DecodedLength(Padded(s));
    ThreesLess(|Padded(s)| / 4, Padding(Padded(s)));
  }

  lemma ThreesLess(n: nat, p: nat)
    requires p <= 2 && p <= n * 3
    ensures (n * 3 - p) % 3 != 0 <==> p != 0
  {
  }

  /** With padding there are two spellings: with all of it, and without the last character. */
  lemma OtherSpelling(s: string) returns (t: string)
    requires Padded(s) != "" && Padded(s)[|Padded(s)| - 1] == '='
    ensures t != s && Padded(t) == Padded(s)
  {
    var p := Padded(s);
    Stripped(p);
    t := if s == p then p[..|p| - 1] else p;
  }

  lemma PaddingShows(s: string)
    ensures |s| % 4 != 0 ==> Padded(s) != "" && Padded(s)[|Padded(s)| - 1] == '='
    ensures |s| % 4 == 0 ==> Padded(s) == s
  {
  }

  /** Without its last padding character a text is padded to what it was. */
  lemma Stripped(p: string)
    requires p != "" && |p| % 4 == 0 && p[|p| - 1] == '='
    ensures Padded(p[..|p| - 1]) == p
  {
    var u := p[..|p| - 1];
    assert Padded(u) == u + ['='];
  }

  /** With whole groups only, equal values have equal texts. */
  lemma WholeGroupsAgree(s: string, t: string)
    requires |s| % 4 == |t| % 4 == 0 && Decode(Padded(s)).Some? && Decode(Padded(s)) == Decode(Padded(t))
    ensures s == t
  {
    DecodeInjective(s, t);
  }

  // ----- Decoding undoes encoding

  /** The base 64 alphabet (RFC 4648, table 1). */
  const UPPER := "ABCDEFGHIJKLMNOPQRSTUVWXYZ"
  const LOWER := "abcdefghijklmnopqrstuvwxyz"
  const DECIMAL := "0123456789"

  function Digit(v: Six): char
  {
    if v < 26 then UPPER[v] else if v < 52 then LOWER[v - 26] else if v < 62 then DECIMAL[v - 52]
    else if v == 62 then '+' else '/'
  }

  /** Three bytes as one number. */
  function Number(x: Byte, y: Byte, z: Byte): (n: nat)
    ensures n < 0x100_0000
  {
    x * 0x1_0000 + y * 0x100 + z
  }

  /** The four digits of a 24-bit number, high bits first. */
  function Digits(n: nat): (s: string)
    requires n < 0x100_0000
    ensures |s| == 4
  {
    [Digit(n / 0x4_0000), Digit(n / 0x1000 % 64), Digit(n / 64 % 64), Digit(n % 64)]
  }

  /** Three bytes a group; a last group of one or two bytes is filled up with zero bits, and the text with padding. */
  function Encode(bytes: seq<Byte>): string
  {
    if bytes == [] then ""
    else if |bytes| == 1 then Digits(Number(bytes[0], 0, 0))[..2] + "=="
    else if |bytes| == 2 then Digits(Number(bytes[0], bytes[1], 0))[..3] + "="
    else Digits(Number(bytes[0], bytes[1], bytes[2])) + Encode(bytes[3..])
  }

  lemma UpperValue(i: nat)
    requires i < 26
    ensures Value(UPPER[i]) == Some(i)
  {
    assert UPPER[i] == 'A' + i as char;
  }

  lemma LowerValue(i: nat)
    requires i < 26
    ensures Value(LOWER[i]) == Some(i + 26)
  {
    assert LOWER[i] == 'a' + i as char;
  }

  lemma DecimalValue(i: nat)
    requires i < 10
    ensures Value(DECIMAL[i]) == Some(i + 52)
  {
    assert DECIMAL[i] == '0' + i as char;
  }

  lemma DigitValue(v: Six)
    ensures Value(Digit(v)) == Some(v) && Digit(v) != '='
  {
    if v < 26 {
      UpperValue(v);
    } else if v < 52 {
      LowerValue(v - 26);
    } else if v < 62 {
      DecimalValue(v - 52);
    }
    hide Value;
    PaddingHasNoValue();
  }

  lemma PaddingHasNoValue()
    ensures Value('=') == None
  {
  }

  /** The four slices of a number of three bytes. */
  lemma Slices(x: Byte, y: Byte, z: Byte)
    ensures var n := Number(x, y, z);
      && n < 0x100_0000 && n / 0x4_0000 == x / 4 && n / 0x1000 % 64 == x % 4 * 16 + y / 16
      && n / 64 % 64 == y % 16 * 4 + z / 64 && n % 64 == z % 64
  {
    var n := Number(x, y, z);
    assert n == x / 4 * 0x4_0000 + (x % 4 * 0x1_0000 + y * 0x100 + z);
    assert n / 0x1000 == x * 16 + y / 16 by { assert n == (x * 16 + y / 16) * 0x1000 + (y % 16 * 0x100 + z); }
    assert x * 16 + y / 16 == x / 4 * 64 + (x % 4 * 16 + y / 16);
    assert n / 64 == x * 1024 + y * 4 + z / 64 by { assert n == (x * 1024 + y * 4 + z / 64) * 64 + z % 64; }
    assert x * 1024 + y * 4 + z / 64 == (x * 16 + y / 16) * 64 + (y % 16 * 4 + z / 64);
  }

  lemma Bits(x: Byte, y: Byte, z: Byte)
    ensures var n := Number(x, y, z);
      && n < 0x100_0000 && n / 0x4_0000 < 64
      && First(n / 0x4_0000, n / 0x1000 % 64) == x
      && Second(n / 0x1000 % 64, n / 64 % 64) == y
      && Third(n / 64 % 64, n % 64) == z
      && (z == 0 ==> n / 64 % 64 % 4 == 0)
      && (y == z == 0 ==> n / 0x1000 % 64 % 16 == 0)
  {
    Slices(x, y, z);
    hide Number;
  }

  lemma DigitValues(n: nat)
    requires n < 0x100_0000
    ensures var s := Digits(n);
      && Value(s[0]) == Some(n / 0x4_0000) && Value(s[1]) == Some(n / 0x1000 % 64)
      && Value(s[2]) == Some(n / 64 % 64) && Value(s[3]) == Some(n % 64)
      && s[2] != '=' && s[3] != '='
  {
    hide Value, Digit;
    DigitValue(n / 0x4_0000);
    DigitValue(n / 0x1000 % 64);
    DigitValue(n / 64 % 64);
    DigitValue(n % 64);
  }

  lemma EncodedGroup(x: Byte, y: Byte, z: Byte)
    ensures Group(Digits(Number(x, y, z))) == Some([x, y, z]) == LastGroup(Digits(Number(x, y, z)))
  {
    hide Value, Digits, Number, First, Second, Third;
    Bits(x, y, z);
    DigitValues(Number(x, y, z));
  }

  lemma EncodedTwo(x: Byte, y: Byte)
    ensures LastGroup(Digits(Number(x, y, 0))[..3] + "=") == Some([x, y])
  {
    hide Value, Digits, Number, First, Second, Third;
    Bits(x, y, 0);
    DigitValues(Number(x, y, 0));
  }

  lemma EncodedOne(x: Byte)
    ensures LastGroup(Digits(Number(x, 0, 0))[..2] + "==") == Some([x])
  {
    hide Value, Digits, Number, First, Second, Third;
    Bits(x, 0, 0);
    DigitValues(Number(x, 0, 0));
  }

  /** Decoding gives back what was encoded. */
  lemma {:induction false} DecodeEncode(bytes: seq<Byte>)
    ensures Decode(Encode(bytes)) == Some(bytes)
  {
    hide Digits, Number, Group, LastGroup;
    if |bytes| == 1 {
      EncodedOne(bytes[0]);
      assert bytes == [bytes[0]];
    } else if |bytes| == 2 {
      EncodedTwo(bytes[0], bytes[1]);
      assert bytes == [bytes[0], bytes[1]];
    } else if |bytes| >= 3 {
      var group, rest := [bytes[0], bytes[1], bytes[2]], bytes[3..];
      EncodedGroup(bytes[0], bytes[1], bytes[2]);
      DecodeEncode(rest);
      EncodedLength(rest);
      var s, digits := Encode(bytes), Digits(Number(bytes[0], bytes[1], bytes[2]));
      assert bytes == group + rest && s == digits + Encode(rest);
      assert s[..4] == digits && s[4..] == Encode(rest);
      if rest == [] {
        assert s == digits && bytes == group;
      }
    }
  }

  lemma {:induction false} EncodedLength(bytes: seq<Byte>)
    ensures |Encode(bytes)| == (|bytes| + 2) / 3 * 4
  {
    hide Digits;
    if |bytes| >= 3 {
      EncodedLength(bytes[3..]);
    }
  }

  // ----- A text for every length

  /** A text that stands for `n` zero bytes. */
  function Zeros(n: nat): (s: string)
    ensures |s| % 4 == 0 && (s == "" || s[0] == 'A')
  {
    if n == 0 then "" else if n == 1 then "AA==" else if n == 2 then "AAA=" else "AAAA" + Zeros(n - 3)
  }

  lemma ZeroValue()
    ensures Value('A') == Some(0)
  {
  }

  lemma ZeroGroups()
    ensures Group("AAAA").Some? && GroupOfTwo("AAA=").Some? && GroupOfOne("AA==").Some?
  {
    ZeroValue();
    hide Value, First, Second, Third;
  }

  lemma {:induction false} ZerosDecode(n: nat)
    ensures Decode(Zeros(n)).Some? && |Decode(Zeros(n)).value| == n
  {
    ZeroGroups();
    hide Group, GroupOfTwo, GroupOfOne;
    if n >= 3 {
      ZerosDecode(n - 3);
      var s := Zeros(n);
      assert s[..4] == "AAAA" && s[4..] == Zeros(n - 3);
      if Zeros(n - 3) == "" {
        assert s == "AAAA" && Decode("") == Some([]);
      }
    }
  }
}
