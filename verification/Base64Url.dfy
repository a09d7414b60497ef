/** base64url without padding (RFC 4648, section 5), as Go's RawURLEncoding prints and reads it. */
module Base64Url {
  import opened ByteOrder
  import opened Options

  function Digit(v: int): (c: char)
    requires 0 <= v < 64
    ensures c != '.' && c != '\r' && c != '\n'
  {
    if v < 26 then 'A' + v as char
    else if v < 52 then 'a' + (v - 26) as char
    else if v < 62 then '0' + (v - 52) as char
    else if v == 62 then '-' else '_'
  }

  predicate IsDigit(c: char) {
    'A' <= c <= 'Z' || 'a' <= c <= 'z' || '0' <= c <= '9' || c == '-' || c == '_'
  }

  function Value(c: char): (v: int)
    requires IsDigit(c)
    ensures 0 <= v < 64
  {
    if 'A' <= c <= 'Z' then (c - 'A') as int
    else if 'a' <= c <= 'z' then (c - 'a') as int + 26
    else if '0' <= c <= '9' then (c - '0') as int + 52
    else if c == '-' then 62 else 63
  }

  lemma DigitValue(v: int)
    requires 0 <= v < 64
    ensures IsDigit(Digit(v)) && Value(Digit(v)) == v
  {}

  type sextet = v: int | 0 <= v < 64

  /** Up to three bytes as six-bit groups. */
  function Split(s: Bytes): (v: seq<sextet>)
    requires 1 <= |s| <= 3
    ensures |v| == |s| + 1
  {
    if |s| == 1 then [s[0] / 4, s[0] % 4 * 16]
    else if |s| == 2 then [s[0] / 4, s[0] % 4 * 16 + s[1] / 16, s[1] % 16 * 4]
    else [s[0] / 4, s[0] % 4 * 16 + s[1] / 16, s[1] % 16 * 4 + s[2] / 64, s[2] % 64]
  }

  /** And back; bits left over in the last group are ignored. */
  function Joined(v: seq<sextet>): (s: Bytes)
    requires 2 <= |v| <= 4
    ensures |s| == |v| - 1
  {
    var a: int, b: int := v[0], v[1];
    if |v| == 2 then [a * 4 + b / 16] else
      var c: int := v[2];
      if |v| == 3 then [a * 4 + b / 16, b % 16 * 16 + c / 4]
      else
        var d: int := v[3];
        [a * 4 + b / 16, b % 16 * 16 + c / 4, c % 4 * 64 + d]
  }

  function Print(v: seq<sextet>): (t: string)
    ensures |t| == |v|
  {
    seq(|v|, i requires 0 <= i < |v| => Digit(v[i]))
  }

  function Group(s: Bytes): (t: string)
    requires 1 <= |s| <= 3
    ensures |t| == |s| + 1
  {
    Print(Split(s))
  }

  function Encode(s: Bytes): string {
    if |s| == 0 then "" else if |s| <= 3 then Group(s) else Group(s[..3]) + Encode(s[3..])
  }

  function Values(t: string): (v: seq<sextet>)
    requires AllDigits(t)
    ensures |v| == |t|
  {
    seq(|t|, i requires 0 <= i < |t| => Value(t[i]))
  }

  function Ungroup(t: string): (s: Bytes)
    requires 2 <= |t| <= 4 && AllDigits(t)
    ensures |s| == |t| - 1
  {
    Joined(Values(t))
  }

  predicate AllDigits(t: string) {
    forall c <- t :: IsDigit(c)
  }

  /** Line breaks are skipped wherever they stand. */
  function Stripped(t: string): string {
    if t == "" then "" else (if t[0] == '\r' || t[0] == '\n' then "" else [t[0]]) + Stripped(t[1..])
  }

  function DecodeDigits(t: string): Option<Bytes>
    requires AllDigits(t)
  {
    if |t| == 0 then Some([])
    else if |t| == 1 then None
    else if |t| <= 4 then Some(Ungroup(t))
    else match DecodeDigits(t[4..])
         case None => None
         case Some(rest) => Some(Ungroup(t[..4]) + rest)
  }

  function Decode(t: string): Option<Bytes> {
    var s := Stripped(t);
    if AllDigits(s) then DecodeDigits(s) else None
  }

  lemma JoinedSplit(s: Bytes)
    requires 1 <= |s| <= 3
    ensures Joined(Split(s)) == s
  {
    Fields(s[0] % 4, if |s| > 1 then s[1] / 16 else 0);
    if |s| > 1 {
      Fields(if |s| > 2 then s[2] / 64 else 0, s[1] % 16);
    }
  }

  /** A two-bit and a four-bit field side by side, either way round. */
  lemma Fields(two: int, four: int)
    requires 0 <= two < 4 && 0 <= four < 16
    ensures (two * 16 + four) / 16 == two && (two * 16 + four) % 16 == four
    ensures (four * 4 + two) / 4 == four && (four * 4 + two) % 4 == two
  {}

  lemma ValuesPrint(v: seq<sextet>)
    ensures AllDigits(Print(v)) && Values(Print(v)) == v
  {
    forall i | 0 <= i < |v|
      ensures IsDigit(Print(v)[i]) && Value(Print(v)[i]) == v[i]
    {
      DigitValue(v[i]);
    }
  }

  lemma UngroupGroup(s: Bytes)
    requires 1 <= |s| <= 3
    ensures AllDigits(Group(s)) && Ungroup(Group(s)) == s
  {
    hide Joined, Split, Print, Values;
    ValuesPrint(Split(s));
    JoinedSplit(s);
  }

  lemma {:induction false} EncodeDigits(s: Bytes)
    ensures AllDigits(Encode(s)) && '.' !in Encode(s)
    ensures DecodeDigits(Encode(s)) == Some(s)
  {
    hide Group, Ungroup;
    if |s| > 0 {
      var n := if |s| <= 3 then |s| else 3;
      UngroupGroup(s[..n]);
      assert s[..n] + s[n..] == s;
      if |s| > 3 {
        EncodeDigits(s[3..]);
        var group, rest := Group(s[..3]), Encode(s[3..]);
        assert (group + rest)[..4] == group && (group + rest)[4..] == rest;
        NotOne(s[3..]);
      } else {
        assert s[..n] == s;
      }
    }
  }

  lemma NotOne(s: Bytes)
    requires |s| > 0
    ensures |Encode(s)| >= 2
  {}

  lemma {:induction false} StrippedDigits(t: string)
    requires AllDigits(t)
    ensures Stripped(t) == t
  {
    if t != "" {
      assert IsDigit(t[0]) && AllDigits(t[1..]);
      StrippedDigits(t[1..]);
    }
  }

  /** Reading back what was printed gives every byte string, whatever its length. */
  lemma RoundTrip(s: Bytes)
    ensures Decode(Encode(s)) == Some(s)
  {
    EncodeDigits(s);
    StrippedDigits(Encode(s));
  }

  /** The alphabet, in the order of section 5 of RFC 4648: A to Z, a to z, 0 to 9, minus, underscore. */
  lemma DigitIs(v: int)
    requires 0 <= v < 64
    ensures Digit(v) as int == if v <= 25 then v + 65 else if v <= 51 then v + 71 else if v <= 61 then v - 4
                               else if v == 62 then 45 else 95
  {}

  /** The digits of a group, six bits each, most significant first, are its bytes, eight bits each, with zero bits
      behind them when the group is short. */
  lemma GroupIs(s: Bytes)
    requires 1 <= |s| <= 3
    ensures AllDigits(Group(s))
    ensures var t := Group(s); var x: int, y: int := Value(t[0]), Value(t[1]);
            if |s| == 1 then x * 0x40 + y == s[0] as int * 0x10
            else
              var z: int := Value(t[2]);
              if |s| == 2 then x * 0x1000 + y * 0x40 + z == (s[0] as int * 0x100 + s[1]) * 4
              else x * 0x4_0000 + y * 0x1000 + z * 0x40 + Value(t[3])
                   == s[0] as int * 0x1_0000 + s[1] as int * 0x100 + s[2]
  {
    hide Value, Digit;
    ValuesPrint(Split(s));
    var v := Split(s);
    assert forall i | 0 <= i < |v| :: Value(Group(s)[i]) == v[i] by {
      assert forall i | 0 <= i < |v| :: Value(Group(s)[i]) == Values(Print(v))[i];
    }
  }

  /** Three bytes to a group. */
  lemma EncodeIs(s: Bytes)
    ensures Encode([]) == ""
    ensures 1 <= |s| <= 3 ==> Encode(s) == Group(s)
    ensures |s| > 3 ==> Encode(s) == Group(s[..3]) + Encode(s[3..])
  {}
}
