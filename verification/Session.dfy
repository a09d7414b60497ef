/** Stateless login tokens: base64url(user) "." expiry "." base64url(mac). The MAC under the
    process's secret is any function of the signed text. */
module Session {
  import opened ByteOrder
  import opened Base64Url
  import opened Options
  import opened Splitting
  import Decimal

  const DOT: char := '.'

  function Body(user: Bytes, exp: int): string {
    Encode(user) + [DOT] + Decimal.FormatInt(exp)
  }

  /** Nanoseconds to Unix seconds. */
  function Unix(t: int): int {
    t / 1_000_000_000
  }

  datatype Sessions = Sessions(mac: string -> Bytes, ttl: int) {
    function Seal(body: string): string {
      body + [DOT] + Encode(mac(body))
    }

    function Sign(user: Bytes, exp: int): string {
      Seal(Body(user, exp))
    }

    function Issue(user: Bytes, now: int): string {
      Sign(user, Unix(now + ttl))
    }

    function Validate(token: string, now: int): Option<Bytes> {
      var parts := Parts(token, DOT);
      if |parts| != 3 then None else
        match Decimal.ParseInt(parts[1])
        case None => None
        case Some(exp) =>
          if Unix(now) > exp then None
          else if parts[2] != Encode(mac(parts[0] + [DOT] + parts[1])) then None
          else Decode(parts[0])
    }

    /** A signed token gives its user back exactly until it expires. */
    lemma ValidateSigned(user: Bytes, exp: int, now: int)
      requires Decimal.MIN <= exp <= Decimal.MAX
      ensures Validate(Sign(user, exp), now) == if Unix(now) <= exp then Some(user) else None
    {
      hide Encode, Decode, Decimal.FormatInt, Decimal.ParseInt;
      var body := Body(user, exp);
      SealedParts(user, exp, mac(body));
      Decimal.RoundTrip(exp);
      RoundTrip(user);
    }

    /** An issued token is good for its time to live, and for less than a second more. */
    lemma IssuedLives(user: Bytes, issued: int, now: int)
      requires Decimal.MIN <= Unix(issued + ttl) <= Decimal.MAX
      ensures now <= issued + ttl ==> Validate(Issue(user, issued), now) == Some(user)
      ensures now >= issued + ttl + 1_000_000_000 ==> Validate(Issue(user, issued), now) == None
    {
      hide Validate, Sign;
      ValidateSigned(user, Unix(issued + ttl), now);
    }

    /** A token is three parts with dots between: the user in base64url, the expiry in decimal, and the MAC of
        the first two with their dot, in base64url. */
    lemma TokenParts(user: Bytes, exp: int)
      ensures Parts(Sign(user, exp), DOT)
           == [Encode(user), Decimal.FormatInt(exp), Encode(mac(Encode(user) + "." + Decimal.FormatInt(exp)))]
    {
      hide Encode, Decimal.FormatInt, Parts;
      SealedParts(user, exp, mac(Body(user, exp)));
      assert [DOT] == ".";
    }

    /** What the token's third part vouches for. */
    ghost predicate Sealed(token: string, body: string) {
      token == Seal(body)
    }

    /** Any accepted token is the sealing of its own first two parts, character for character. */
    lemma AcceptedIsSealed(token: string, now: int)
      requires Validate(token, now).Some?
      ensures |Parts(token, DOT)| == 3 && Sealed(token, Parts(token, DOT)[0] + [DOT] + Parts(token, DOT)[1])
      ensures var p := Parts(token, DOT); var signed := p[0] + "." + p[1];
              token == signed + "." + p[2] && p[2] == Encode(mac(signed))
      ensures Decode(Parts(token, DOT)[0]) == Validate(token, now)
    {
      hide Encode, Decode, Decimal.ParseInt;
      Rejoined(token);
    }

    lemma SealedIsSigned(token: string, user: Bytes, exp: int)
      requires Sealed(token, Body(user, exp))
      ensures token == Sign(user, exp)
    {}

    /** If the only sealed texts are those issued, every accepted token is an issued token, and it
        names that token's user before that token's expiry. */
    lemma OnlyIssued(token: string, now: int, issued: iset<(Bytes, int)>) returns (user: Bytes, exp: int)
      requires forall t <- issued :: Decimal.MIN <= t.1 <= Decimal.MAX
      requires forall body :: Sealed(token, body) ==> exists t <- issued :: body == Body(t.0, t.1)
      requires Validate(token, now).Some?
      ensures (user, exp) in issued && token == Sign(user, exp)
      ensures Validate(token, now) == Some(user) && Unix(now) <= exp
    {
      hide *;
      AcceptedIsSealed(token, now);
      var body := Parts(token, DOT)[0] + [DOT] + Parts(token, DOT)[1];
      assert Sealed(token, body);
      var t :| t in issued && body == Body(t.0, t.1);
      user, exp := t.0, t.1;
      SealedIsSigned(token, user, exp);
      ValidateSigned(user, exp, now);
    }
  }

  lemma SealedParts(user: Bytes, exp: int, m: Bytes)
    ensures Parts(Body(user, exp) + [DOT] + Encode(m), DOT)
         == [Encode(user), Decimal.FormatInt(exp), Encode(m)]
  {
    hide Encode, Decimal.FormatInt, Parts;
    var e, f, g := Encode(user), Decimal.FormatInt(exp), Encode(m);
    EncodeDigits(user);
    EncodeDigits(m);
    Dotted(e, f, g);
    PartsAppend(e, f + ([DOT] + g), DOT);
    PartsAppend(f, g, DOT);
    PartsOfOne(e, DOT);
    PartsOfOne(f, DOT);
    PartsOfOne(g, DOT);
  }

  lemma Dotted(e: string, f: string, g: string)
    ensures e + [DOT] + f + [DOT] + g == e + ([DOT] + (f + ([DOT] + g)))
  {}

  lemma Rejoined(token: string)
    ensures |Parts(token, DOT)| == 3 ==>
              token == Parts(token, DOT)[0] + [DOT] + Parts(token, DOT)[1] + [DOT] + Parts(token, DOT)[2]
  {
    RejoinParts(token, DOT);
    var p := Parts(token, DOT);
    if |p| == 3 {
      assert Rejoin(p[1..], DOT) == p[1] + [DOT] + Rejoin(p[1..][1..], DOT);
      assert p[1..][1..] == [p[2]];
      assert p[0] + [DOT] + (p[1] + [DOT] + p[2]) == p[0] + [DOT] + p[1] + [DOT] + p[2];
    }
  }

  /** Printing is injective: the signed text determines user and expiry. */
  lemma BodyInjective(user: Bytes, exp: int, user': Bytes, exp': int)
    requires Body(user, exp) == Body(user', exp')
    requires Decimal.MIN <= exp <= Decimal.MAX && Decimal.MIN <= exp' <= Decimal.MAX
    ensures user == user' && exp == exp'
  {
    hide Encode, Decode, Decimal.FormatInt, Decimal.ParseInt;
    SealedParts(user, exp, []);
    SealedParts(user', exp', []);
    RoundTrip(user);
    RoundTrip(user');
    Decimal.RoundTrip(exp);
    Decimal.RoundTrip(exp');
    var p := [Encode(user), Decimal.FormatInt(exp), Encode([])];
    var q := [Encode(user'), Decimal.FormatInt(exp'), Encode([])];
    assert p == q && p[0] == q[0] && p[1] == q[1];
  }
}
