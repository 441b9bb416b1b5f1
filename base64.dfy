/** Base64 as the two JavaScript environments provide it: the encoding of
    section 4 of RFC 4648 (standard alphabet, `=` padding), which `btoa` and
    Node's `Buffer.toString("base64")` both produce, and the decoder behind
    the browser's `atob`, the "forgiving-base64 decode" algorithm of the
    WHATWG Infra Standard, which the HTML standard's `atob` calls. */
module Base64 {
  import opened Bytes
  import opened Options

  /** The 64 characters of the alphabet of RFC 4648, section 4 (Table 1). */
  predicate IsBase64Char(c: char) {
    'A' <= c <= 'Z' || 'a' <= c <= 'z' || '0' <= c <= '9' || c == '+' || c == '/'
  }

  predicate IsBase64Text(s: string) {
    forall i | 0 <= i < |s| :: IsBase64Char(s[i])
  }

  function EncodeSextet(n: nat): (c: char)
    requires n < 64
    ensures IsBase64Char(c)
  {
    if n < 26 then ('A' as int + n) as char
    else if n < 52 then ('a' as int + n - 26) as char
    else if n < 62 then ('0' as int + n - 52) as char
    else if n == 62 then '+'
    else '/'
  }

  /** The value of an alphabet character; the inverse of EncodeSextet. */
  function DecodeSextet(c: char): (n: nat)
    requires IsBase64Char(c)
    ensures n < 64
  {
    if 'A' <= c <= 'Z' then c as int - 'A' as int
    else if 'a' <= c <= 'z' then c as int - 'a' as int + 26
    else if '0' <= c <= '9' then c as int - '0' as int + 52
    else if c == '+' then 62
    else 63
  }

  predicate AreSextets(v: seq<int>) {
    forall i | 0 <= i < |v| :: 0 <= v[i] < 64
  }

  /** One group of three bytes as four 6-bit values, most significant first. */
  function SplitGroup(b0: byte, b1: byte, b2: byte): (v: seq<int>)
    ensures |v| == 4 && AreSextets(v)
  {
    [b0 as int / 4, b0 as int % 4 * 16 + b1 as int / 16, b1 as int % 16 * 4 + b2 as int / 64, b2 as int % 64]
  }

  /** The 6-bit values of the encoding before padding: each group of three
      bytes gives four, a final single byte two and a final pair of bytes
      three, the missing bits being zero (RFC 4648, section 4, cases (1) to
      (3)). */
  function ToSextets(b: seq<byte>): (v: seq<int>)
    ensures |v| == (4 * |b| + 2) / 3 && AreSextets(v)
    decreases |b|
  {
    if |b| == 0 then []
    else if |b| < 3 then SplitGroup(b[0], if |b| == 2 then b[1] else 0, 0)[..|b| + 1]
    else SplitGroup(b[0], b[1], b[2]) + ToSextets(b[3..])
  }

  /** The encoding without its trailing `=` padding. */
  function EncodeUnpadded(b: seq<byte>): (s: string)
    ensures |s| == (4 * |b| + 2) / 3 && IsBase64Text(s)
  {
    var v := ToSextets(b);
    seq(|v|, i requires 0 <= i < |v| => EncodeSextet(v[i]))
  }

  function Padding(n: nat): string {
    if n % 3 == 1 then "==" else if n % 3 == 2 then "=" else ""
  }

  /** The base64 text of a byte sequence (RFC 4648, section 4). */
  function Encode(b: seq<byte>): (s: string) {
    EncodeUnpadded(b) + Padding(|b|)
  }

  lemma PaddedLength(n: nat)
    ensures (4 * n + 2) / 3 + |Padding(n)| == 4 * ((n + 2) / 3)
    ensures |Padding(n)| == (3 - n % 3) % 3
  {
    var q, r := n / 3, n % 3;
    assert n == 3 * q + r;
    if r == 0 {
      assert 4 * n + 2 == 3 * (4 * q) + 2;
    } else if r == 1 {
      assert 4 * n + 2 == 3 * (4 * q + 2);
    } else {
      assert 4 * n + 2 == 3 * (4 * q + 3) + 1;
    }
  }

  /** The encoding has length 4*ceil(n/3), uses only the alphabet and `=`,
      and `=` appears only as the one or two final characters, two when n
      leaves remainder 1 modulo 3, one when it leaves 2, none otherwise. */
  lemma EncodeShape(b: seq<byte>)
    ensures |Encode(b)| == 4 * ((|b| + 2) / 3)
    ensures forall i | 0 <= i < |Encode(b)| :: IsBase64Char(Encode(b)[i]) || Encode(b)[i] == '='
    ensures forall i | 0 <= i < |Encode(b)| :: Encode(b)[i] == '=' <==> i >= |EncodeUnpadded(b)|
    ensures |Encode(b)| - |EncodeUnpadded(b)| == (3 - |b| % 3) % 3
  {
    var u, p := EncodeUnpadded(b), Padding(|b|);
    PaddedLength(|b|);
    assert forall i | 0 <= i < |p| :: p[i] == '=';
    forall i | 0 <= i < |u + p|
      ensures IsBase64Char((u + p)[i]) || (u + p)[i] == '='
      ensures (u + p)[i] == '=' <==> i >= |u|
    {
      if i < |u| {
        assert (u + p)[i] == u[i];
      } else {
        assert (u + p)[i] == p[i - |u|];
      }
    }
  }

  /** Two, three or four 6-bit values as the bytes whose bits they carry in
      full; the left-over low bits of a short group are discarded. */
  function JoinGroup(v: seq<int>): (b: seq<byte>)
    requires 2 <= |v| <= 4 && AreSextets(v)
    ensures |b| == |v| - 1
  {
    var v2 := if |v| > 2 then v[2] else 0;
    var v3 := if |v| > 3 then v[3] else 0;
    var all := [(v[0] * 4 + v[1] / 16) as byte, (v[1] % 16 * 16 + v2 / 4) as byte, (v2 % 4 * 64 + v3) as byte];
    all[..|v| - 1]
  }

  /** Decoding of 6-bit values whose count is not 1 modulo 4, group by group. */
  function FromSextets(v: seq<int>): (b: seq<byte>)
    requires AreSextets(v) && |v| % 4 != 1
    ensures |b| == 3 * |v| / 4
    decreases |v|
  {
    if |v| == 0 then []
    else if |v| < 4 then JoinGroup(v)
    else JoinGroup(v[..4]) + FromSextets(v[4..])
  }

  /** The values of alphabet-only text. */
  function SextetValues(d: string): (v: seq<int>)
    requires IsBase64Text(d)
    ensures |v| == |d| && AreSextets(v)
  {
    seq(|d|, i requires 0 <= i < |d| => DecodeSextet(d[i]))
  }

  /** ASCII whitespace in the sense of the WHATWG Infra Standard: TAB, LF,
      FF, CR and SPACE. */
  predicate IsAsciiWhitespace(c: char) {
    c == '\t' || c == '\n' || c as int == 12 || c == '\r' || c == ' '
  }

  function RemoveAsciiWhitespace(s: string): (r: string)
    ensures forall i | 0 <= i < |r| :: !IsAsciiWhitespace(r[i])
  {
    if s == [] then []
    else if IsAsciiWhitespace(s[0]) then RemoveAsciiWhitespace(s[1..])
    else [s[0]] + RemoveAsciiWhitespace(s[1..])
  }

  /** When the length is a multiple of four, one or two final `=` are dropped. */
  function StripPadding(d: string): string {
    if |d| % 4 == 0 && |d| >= 2 && d[|d| - 1] == '=' && d[|d| - 2] == '=' then d[..|d| - 2]
    else if |d| % 4 == 0 && |d| >= 1 && d[|d| - 1] == '=' then d[..|d| - 1]
    else d
  }

  /** The forgiving-base64 decode of the WHATWG Infra Standard, the decoder
      behind `atob`. `None` is its failure, on which `atob` throws. */
  function ForgivingDecode(s: string): (r: Option<seq<byte>>)
    ensures r.Some? ==> |r.value| <= |s|
  {
    var d := StripPadding(RemoveAsciiWhitespace(s));
    RemovalShrinks(s);
    if |d| % 4 != 1 && IsBase64Text(d) then
      Some(FromSextets(SextetValues(d)))
    else
      None
  }

  lemma {:induction false} RemovalShrinks(s: string)
    ensures |RemoveAsciiWhitespace(s)| <= |s|
  {
    if s != [] {
      RemovalShrinks(s[1..]);
    }
  }

  /** `btoa`: throws (`None`) exactly on a character above U+00FF. Its
      text is 4*ceil(n/3) characters long and `atob` reads the original
      string back from it. */
  function Btoa(binary: string): (r: Option<string>)
    ensures r.Some? <==> forall i | 0 <= i < |binary| :: binary[i] as int < 256
    ensures r.Some? ==> |r.value| == 4 * ((|binary| + 2) / 3)
    ensures r.Some? ==> Atob(r.value) == Some(binary)
  {
    if forall i | 0 <= i < |binary| :: binary[i] as int < 256 then
      var b := seq(|binary|, i requires 0 <= i < |binary| => binary[i] as int as byte);
      assert Latin1(b) == binary;
      EncodeShape(b);
      DecodeEncode(b);
      Some(Encode(b))
    else
      None
  }

  /** `atob`: throws (`None`) exactly where the forgiving decode fails.
      Otherwise it yields a binary string, no longer than its input, every
      character below U+0100 and each the code of one decoded byte. */
  function Atob(text: string): (r: Option<string>)
    ensures r.Some? <==> ForgivingDecode(text).Some?
    ensures r.Some? ==> |r.value| == |ForgivingDecode(text).value| <= |text|
    ensures r.Some? ==> forall i | 0 <= i < |r.value| :: r.value[i] as int < 256
    ensures r.Some? ==> forall i | 0 <= i < |r.value| ::
      r.value[i] as int == ForgivingDecode(text).value[i] as int
  {
    match ForgivingDecode(text)
    case None => None
    case Some(b) => Some(Latin1(b))
  }

  lemma SextetRoundTrip(n: nat)
    requires n < 64
    ensures DecodeSextet(EncodeSextet(n)) == n
  {
  }

  /** The bit arithmetic of one group: splitting three bytes into four
      sextets and joining them again. */
  lemma RegroupBits(x0: int, x1: int, x2: int)
    requires 0 <= x0 < 256 && 0 <= x1 < 256 && 0 <= x2 < 256
    ensures (x0 / 4) * 4 + (x0 % 4 * 16 + x1 / 16) / 16 == x0
    ensures (x0 % 4 * 16 + x1 / 16) % 16 * 16 + (x1 % 16 * 4 + x2 / 64) / 4 == x1
    ensures (x1 % 16 * 4 + x2 / 64) % 4 * 64 + x2 % 64 == x2
  {
    var a0, r0 := x0 / 4, x0 % 4;
    var a1, r1 := x1 / 16, x1 % 16;
    var a2, r2 := x2 / 64, x2 % 64;
    assert x0 == 4 * a0 + r0 && x1 == 16 * a1 + r1 && x2 == 64 * a2 + r2;
    assert (r0 * 16 + a1) / 16 == r0 && (r0 * 16 + a1) % 16 == a1;
    assert (r1 * 4 + a2) / 4 == r1 && (r1 * 4 + a2) % 4 == a2;
  }

  /** Joining the values of one group undoes its splitting, also for the
      short final group. */
  lemma JoinSplitGroup(b: seq<byte>)
    requires 1 <= |b| <= 3
    ensures var v := SplitGroup(b[0], if |b| >= 2 then b[1] else 0, if |b| == 3 then b[2] else 0);
            JoinGroup(v[..|b| + 1]) == b
  {
    var x1 := if |b| >= 2 then b[1] else 0;
    var x2 := if |b| == 3 then b[2] else 0;
    RegroupBits(b[0] as int, x1 as int, x2 as int);
  }

  /** Decoding the values undoes their computation from the bytes. */
  lemma {:induction false} FromToSextets(b: seq<byte>)
    ensures |ToSextets(b)| % 4 != 1
    ensures FromSextets(ToSextets(b)) == b
    decreases |b|
  {
    PaddedLength(|b|);
    if |b| >= 3 {
      var v, g, t := ToSextets(b), SplitGroup(b[0], b[1], b[2]), ToSextets(b[3..]);
      assert v == g + t;
      JoinSplitGroup(b[..3]);
      FromToSextets(b[3..]);
      assert v[..4] == g && v[4..] == t;
      assert b == b[..3] + b[3..];
    } else if |b| > 0 {
      JoinSplitGroup(b);
    }
  }

  /** The characters of the unpadded encoding read back as its values. */
  lemma ValuesOfEncoding(b: seq<byte>)
    ensures SextetValues(EncodeUnpadded(b)) == ToSextets(b)
  {
    var v := ToSextets(b);
    forall i | 0 <= i < |v| ensures SextetValues(EncodeUnpadded(b))[i] == v[i] {
      SextetRoundTrip(v[i]);
    }
  }

  lemma {:induction false} NoWhitespaceUnchanged(s: string)
    requires forall i | 0 <= i < |s| :: !IsAsciiWhitespace(s[i])
    ensures RemoveAsciiWhitespace(s) == s
  {
    if s != [] {
      NoWhitespaceUnchanged(s[1..]);
      assert s == [s[0]] + s[1..];
    }
  }

  /** Stripping removes exactly a padding put after alphabet-only text,
      when the whole has a length divisible by four. */
  lemma StripPaddingAfterText(u: string, p: string)
    requires IsBase64Text(u) && |u + p| % 4 == 0
    requires p == "" || p == "=" || p == "=="
    requires p != "" ==> |u| > 0
    ensures StripPadding(u + p) == u
  {
    var e := u + p;
    if p == "==" {
      assert e[..|e| - 2] == u;
    } else if p == "=" {
      assert e[|e| - 2] == u[|u| - 1];
      assert e[..|e| - 1] == u;
    } else {
      assert e == u;
      assert |e| > 0 ==> IsBase64Char(e[|e| - 1]);
    }
  }

  /** Stripping the padding of an encoding leaves its unpadded part. */
  lemma StripEncoded(b: seq<byte>)
    ensures StripPadding(Encode(b)) == EncodeUnpadded(b)
  {
    EncodeShape(b);
    var q := (|b| + 2) / 3;
    assert 4 * q % 4 == 0;
    StripPaddingAfterText(EncodeUnpadded(b), Padding(|b|));
  }

  /** The round trip: the browser decoder recovers every byte sequence from
      its RFC 4648 encoding. */
  lemma DecodeEncode(b: seq<byte>)
    ensures ForgivingDecode(Encode(b)) == Some(b)
  {
    var u, e := EncodeUnpadded(b), Encode(b);
    EncodeShape(b);
    NoWhitespaceUnchanged(e);
    StripEncoded(b);
    assert StripPadding(RemoveAsciiWhitespace(e)) == u;
    FromToSextets(b);
    ValuesOfEncoding(b);
  }

  /** `atob(btoa(binary))` gives back every binary string. */
  lemma AtobBtoa(b: seq<byte>)
    ensures Btoa(Latin1(b)) == Some(Encode(b))
    ensures Atob(Encode(b)) == Some(Latin1(b))
  {
    var binary := Latin1(b);
    assert seq(|binary|, i requires 0 <= i < |binary| => binary[i] as int as byte) == b;
    DecodeEncode(b);
  }
}
