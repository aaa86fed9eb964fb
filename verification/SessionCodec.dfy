/** Signed session cookies (`sidecar/src/auth.rs`). The message authentication code under the configured
    secret is an arbitrary function of the payload; where a lemma needs it, two named payloads are
    assumed to be told apart by their codes. */
module SessionCodec {
  import opened Bytes

  type Text = seq<uint8>

  const DOT: uint8 := 0x2E
  const VERSION: Text := [0x74, 0x6E, 0x67, 0x31]
  const U64_MAX: nat := 0xFFFF_FFFF_FFFF_FFFF
  const SESSION_TTL_SECS: nat := 24 * 60 * 60
  const MAC_LENGTH: nat := 32
  const NONCE_LENGTH: nat := 16

  // ----- hexadecimal -----

  function HexDigit(n: nat): uint8
    requires n < 16
  {
    if n < 10 then (0x30 + n) as uint8 else (0x61 + n - 10) as uint8
  }

  function Hex(bytes: seq<uint8>): Text {
    if bytes == [] then []
    else [HexDigit(bytes[0] as nat / 16), HexDigit(bytes[0] as nat % 16)] + Hex(bytes[1..])
  }

  function Unhex(s: Text): seq<uint8>
    requires AllHex(s) && |s| % 2 == 0
  {
    if s == [] then [] else [(16 * HexValue(s[0]) + HexValue(s[1])) as uint8] + Unhex(s[2..])
  }

  lemma {:induction false} HexRoundTrip(bytes: seq<uint8>)
    ensures |Hex(bytes)| == 2 * |bytes| && AllHex(Hex(bytes)) && Unhex(Hex(bytes)) == bytes
  {
    if bytes == [] {
    } else {
      HexRoundTrip(bytes[1..]);
      var h := Hex(bytes);
      assert h[2..] == Hex(bytes[1..]);
      var n: nat := bytes[0] as nat;
      assert HexValue(HexDigit(n / 16)) == n / 16 && HexValue(HexDigit(n % 16)) == n % 16;
      assert bytes == [bytes[0]] + bytes[1..];
    }
  }

  // ----- dot-separated fields -----

  function Fields(s: Text): (r: seq<Text>)
    ensures r != []
  {
    if s == [] then [[]]
    else
      var rest := Fields(s[1..]);
      if s[0] == DOT then [[]] + rest else [[s[0]] + rest[0]] + rest[1..]
  }

  function Join(fields: seq<Text>): Text
    requires fields != []
  {
    if |fields| == 1 then fields[0] else fields[0] + [DOT] + Join(fields[1..])
  }

  predicate DotFree(fields: seq<Text>) {
    forall i :: 0 <= i < |fields| ==> DOT !in fields[i]
  }

  /** Splitting undoes joining of dot-free fields, and joining undoes splitting. */
  lemma {:induction false} SplitUndoesJoin(fields: seq<Text>)
    requires fields != [] && DotFree(fields)
    ensures Fields(Join(fields)) == fields
    decreases |fields|
  {
    if |fields| == 1 {
      OneField(fields[0]);
      assert fields == [fields[0]];
    } else {
      SplitUndoesJoin(fields[1..]);
      assert fields == [fields[0]] + fields[1..];
      FirstField(fields[0], Join(fields[1..]));
    }
  }

  lemma {:induction false} OneField(f: Text)
    requires DOT !in f
    ensures Fields(f) == [f]
  {
    if f == [] {
    } else {
      OneField(f[1..]);
      assert f == [f[0]] + f[1..];
    }
  }

  lemma {:induction false} FirstField(f: Text, rest: Text)
    requires DOT !in f
    ensures Fields(f + [DOT] + rest) == [f] + Fields(rest)
  {
    var s := f + [DOT] + rest;
    if f == [] {
      assert s[1..] == rest;
    } else {
      assert s[1..] == f[1..] + [DOT] + rest;
      FirstField(f[1..], rest);
      assert f == [f[0]] + f[1..];
    }
  }

  lemma {:induction false} JoinUndoesSplit(s: Text)
    ensures DotFree(Fields(s)) && Join(Fields(s)) == s
  {
    if s == [] {
    } else {
      JoinUndoesSplit(s[1..]);
      var rest := Fields(s[1..]);
      assert s == [s[0]] + s[1..];
      if s[0] == DOT {
        assert ([[]] + rest)[1..] == rest;
        assert [] + [DOT] + s[1..] == s;
      } else {
        JoinHead(s[0], rest);
      }
    }
  }

  lemma JoinHead(b: uint8, fields: seq<Text>)
    requires fields != []
    ensures Join([[b] + fields[0]] + fields[1..]) == [b] + Join(fields)
  {
    var longer := [[b] + fields[0]] + fields[1..];
    assert longer[1..] == fields[1..];
    if |fields| > 1 {
      assert ([b] + fields[0]) + [DOT] + Join(fields[1..]) == [b] + (fields[0] + [DOT] + Join(fields[1..]));
    }
  }

  // ----- the codec -----

  function Payload(token: Text, expires: nat, nonce: Text): Text {
    token + [DOT] + Decimal(expires) + [DOT] + nonce
  }

  function ExpiresAt(now: nat): nat {
    if now + SESSION_TTL_SECS <= U64_MAX then now + SESSION_TTL_SECS else U64_MAX
  }

  function SessionCookie(mac: Text -> seq<uint8>, token: Text, now: nat, nonce: seq<uint8>): Text {
    var expires := ExpiresAt(now);
    Join([VERSION, Decimal(expires), Hex(nonce), Hex(mac(Payload(token, expires, Hex(nonce))))])
  }

  /** Decimal text of a 64-bit number; one leading plus sign and leading zeros are accepted. */
  function ParseU64(s: Text): Option<nat> {
    var digits := if |s| > 1 && s[0] == PLUS then s[1..] else s;
    if digits == [] || !AllDigits(digits) || DecimalValue(digits) > U64_MAX then None else Some(DecimalValue(digits))
  }

  datatype Session = Session(expires: nat, nonce: Text, code: seq<uint8>)

  /** A well-formed, unexpired cookie. */
  function ParseCookie(value: Text, now: nat): Option<Session> {
    var f := Fields(value);
    if |f| != 4 || f[0] != VERSION || ParseU64(f[1]).None? || ParseU64(f[1]).value <= now then None
    else if |f[2]| != 2 * NONCE_LENGTH || |f[3]| != 2 * MAC_LENGTH || !AllHex(f[2]) || !AllHex(f[3]) then None
    else Some(Session(ParseU64(f[1]).value, f[2], Unhex(f[3])))
  }

  predicate Signs(mac: Text -> seq<uint8>, token: Text, s: Session) {
    mac(Payload(token, s.expires, s.nonce)) == s.code
  }

  /** The first token that signs the session. */
  function FirstSigner(mac: Text -> seq<uint8>, tokens: seq<Text>, s: Session): Option<Text> {
    if tokens == [] then None
    else if Signs(mac, tokens[0], s) then Some(tokens[0])
    else FirstSigner(mac, tokens[1..], s)
  }

  /** What verifying a cookie yields. */
  function Verified(mac: Text -> seq<uint8>, tokens: seq<Text>, value: Text, now: nat): Option<Text> {
    var session := ParseCookie(value, now);
    if session.None? then None else FirstSigner(mac, tokens, session.value)
  }

  method VerifySignedSession(mac: Text -> seq<uint8>, tokens: seq<Text>, value: Text, now: nat)
    returns (r: Option<Text>)
    ensures r == Verified(mac, tokens, value, now)
    ensures r.Some? ==>
              && ParseCookie(value, now).Some?
              && exists i ::
                   && 0 <= i < |tokens| && tokens[i] == r.value
                   && Signs(mac, tokens[i], ParseCookie(value, now).value)
                   && forall j :: 0 <= j < i ==> !Signs(mac, tokens[j], ParseCookie(value, now).value)
    ensures r.None? && ParseCookie(value, now).Some? ==>
              forall i :: 0 <= i < |tokens| ==> !Signs(mac, tokens[i], ParseCookie(value, now).value)
  {
    var session := ParseCookie(value, now);
    if session.None? {
      return None;
    }
    assert tokens[0..] == tokens;
    for i := 0 to |tokens|
      invariant forall j :: 0 <= j < i ==> !Signs(mac, tokens[j], session.value)
      invariant FirstSigner(mac, tokens[i..], session.value) == Verified(mac, tokens, value, now)
    {
      if mac(Payload(tokens[i], session.value.expires, session.value.nonce)) == session.value.code {
        return Some(tokens[i]);
      }
      assert tokens[i..][1..] == tokens[i + 1..];
    }
    r := None;
  }

  // ----- what the codec promises -----

  lemma HexDotFree(s: Text)
    requires AllHex(s)
    ensures DOT !in s
  {
  }

  lemma DecimalParses(n: nat)
    requires n <= U64_MAX
    ensures ParseU64(Decimal(n)) == Some(n)
  {
    DecimalRoundTrip(n);
    assert Decimal(n)[0] != PLUS;
  }

  /** A cookie parses to what was issued until the second it expires. */
  lemma IssuedParses(mac: Text -> seq<uint8>, token: Text, now: nat, nonce: seq<uint8>, at: nat)
    requires |nonce| == NONCE_LENGTH && |mac(Payload(token, ExpiresAt(now), Hex(nonce)))| == MAC_LENGTH
    ensures ParseCookie(SessionCookie(mac, token, now, nonce), at) ==
            if at < ExpiresAt(now)
            then Some(Session(ExpiresAt(now), Hex(nonce), mac(Payload(token, ExpiresAt(now), Hex(nonce)))))
            else None
  {
    var expires := ExpiresAt(now);
    var code := mac(Payload(token, expires, Hex(nonce)));
    HexRoundTrip(nonce);
    HexRoundTrip(code);
    DecimalParses(expires);
    JoinedParses(Decimal(expires), Hex(nonce), Hex(code), at);
  }

  lemma JoinedParses(number: Text, nonce: Text, code: Text, now: nat)
    requires ParseU64(number).Some? && AllHex(nonce) && AllHex(code)
    requires |nonce| == 2 * NONCE_LENGTH && |code| == 2 * MAC_LENGTH
    ensures ParseCookie(Join([VERSION, number, nonce, code]), now) ==
            if ParseU64(number).value > now then Some(Session(ParseU64(number).value, nonce, Unhex(code))) else None
  {
    NumberDotFree(number);
    HexDotFree(nonce);
    HexDotFree(code);
    SplitUndoesJoin([VERSION, number, nonce, code]);
  }

  /** Every accepted spelling: four fields, of which the number may carry a plus sign or zeros and the
      code may be in either case, and nothing else is free. */
  lemma ParseExact(value: Text, now: nat, s: Session)
    ensures ParseCookie(value, now) == Some(s) <==>
            && s.expires > now && |s.nonce| == 2 * NONCE_LENGTH && AllHex(s.nonce)
            && exists number, code :: Spelled(number, code, s) && value == Join([VERSION, number, s.nonce, code])
  {
    JoinUndoesSplit(value);
    if ParseCookie(value, now) == Some(s) {
      var f := Fields(value);
      assert f == [VERSION, f[1], s.nonce, f[3]];
      assert Spelled(f[1], f[3], s);
    }
    if AllHex(s.nonce) {
      forall number, code | Spelled(number, code, s) && value == Join([VERSION, number, s.nonce, code])
        ensures Fields(value) == [VERSION, number, s.nonce, code]
      {
        HexDotFree(s.nonce);
        HexDotFree(code);
        NumberDotFree(number);
        SplitUndoesJoin([VERSION, number, s.nonce, code]);
      }
    }
  }

  predicate Spelled(number: Text, code: Text, s: Session) {
    ParseU64(number) == Some(s.expires) && |code| == 2 * MAC_LENGTH && AllHex(code) && Unhex(code) == s.code
  }

  lemma NumberDotFree(number: Text)
    requires ParseU64(number).Some?
    ensures DOT !in number
  {
    if |number| > 1 && number[0] == PLUS {
      assert number == [PLUS] + number[1..];
    }
  }

  /** The payload determines token, expiry and nonce, even when tokens contain dots. */
  lemma PayloadInjective(token: Text, expires: nat, nonce: Text, token': Text, expires': nat, nonce': Text)
    requires |nonce| == |nonce'| && Payload(token, expires, nonce) == Payload(token', expires', nonce')
    ensures token == token' && expires == expires' && nonce == nonce'
  {
    var p, d, d' := Payload(token, expires, nonce), Decimal(expires), Decimal(expires');
    assert nonce == p[|p| - |nonce|..] && nonce' == p[|p| - |nonce|..];
    var head := p[..|p| - |nonce| - 1];
    assert head == token + [DOT] + d && head == token' + [DOT] + d';
    DecimalRoundTrip(expires);
    DecimalRoundTrip(expires');
    LastField(token, d, token', d');
    DecimalInjective(expires, expires');
  }

  lemma LastField(a: Text, d: Text, a': Text, d': Text)
    requires AllDigits(d) && AllDigits(d') && a + [DOT] + d == a' + [DOT] + d'
    ensures a == a' && d == d'
  {
    var s := a + [DOT] + d;
    DigitsAfter(a, d);
    DigitsAfter(a', d');
    assert a == s[..|a|] && a' == s[..|a'|] && d == s[|a| + 1..] && d' == s[|a'| + 1..];
  }

  lemma DigitsAfter(a: Text, d: Text)
    requires AllDigits(d)
    ensures var s := a + [DOT] + d; s[|a|] == DOT && forall i :: |a| < i < |s| ==> IsDigit(s[i])
  {
    var s := a + [DOT] + d;
    assert forall i :: |a| < i < |s| ==> s[i] == d[i - |a| - 1];
  }

  /** The codes of two tokens' payloads do not collide. */
  predicate Distinguishes(mac: Text -> seq<uint8>, token: Text, other: Text, expires: nat, nonce: Text) {
    var p, q := Payload(token, expires, nonce), Payload(other, expires, nonce);
    mac(p) == mac(q) ==> p == q
  }

  /** Verifying a fresh cookie before it expires finds exactly the token that was signed: it signs the
      parsed session, and no other token does unless the code collides. */
  lemma IssuedVerifies(mac: Text -> seq<uint8>, token: Text, now: nat, nonce: seq<uint8>, at: nat, other: Text)
    requires |nonce| == NONCE_LENGTH && |mac(Payload(token, ExpiresAt(now), Hex(nonce)))| == MAC_LENGTH
    requires at < ExpiresAt(now) && Distinguishes(mac, token, other, ExpiresAt(now), Hex(nonce))
    ensures var s := ParseCookie(SessionCookie(mac, token, now, nonce), at);
            s.Some? && (Signs(mac, other, s.value) <==> other == token)
  {
    IssuedParses(mac, token, now, nonce, at);
    var e, n := ExpiresAt(now), Hex(nonce);
    if mac(Payload(token, e, n)) == mac(Payload(other, e, n)) {
      PayloadInjective(token, e, n, other, e, n);
    }
  }

  lemma {:induction false} OnlySigner(mac: Text -> seq<uint8>, tokens: seq<Text>, s: Session, token: Text)
    requires forall t :: t in tokens ==> (Signs(mac, t, s) <==> t == token)
    ensures FirstSigner(mac, tokens, s) == if token in tokens then Some(token) else None
  {
    if tokens == [] {
    } else {
      OnlySigner(mac, tokens[1..], s, token);
      assert tokens == [tokens[0]] + tokens[1..];
    }
  }

  /** The round trip. Among configured tokens whose codes do not collide with the signed one, verifying an
      issued cookie returns exactly the signed token while it is configured and the cookie has not expired. */
  lemma IssueThenVerify(mac: Text -> seq<uint8>, tokens: seq<Text>, token: Text, now: nat, nonce: seq<uint8>, at: nat)
    requires |nonce| == NONCE_LENGTH && |mac(Payload(token, ExpiresAt(now), Hex(nonce)))| == MAC_LENGTH
    requires forall t :: t in tokens ==> Distinguishes(mac, token, t, ExpiresAt(now), Hex(nonce))
    ensures Verified(mac, tokens, SessionCookie(mac, token, now, nonce), at) ==
            if at < ExpiresAt(now) && token in tokens then Some(token) else None
  {
    IssuedParses(mac, token, now, nonce, at);
    if at < ExpiresAt(now) {
      var s := ParseCookie(SessionCookie(mac, token, now, nonce), at).value;
      forall t | t in tokens
        ensures Signs(mac, t, s) <==> t == token
      {
        IssuedVerifies(mac, token, now, nonce, at, t);
      }
      OnlySigner(mac, tokens, s, token);
    }
  }

  /** Whatever cookie verifies under an issued code carries the token, expiry and nonce it was issued
      for: none of them can be changed, however the cookie is spelled. */
  lemma NothingCanBeChanged(
    mac: Text -> seq<uint8>, token: Text, now: nat, nonce: seq<uint8>, value: Text, at: nat, claimed: Text)
    requires |nonce| == NONCE_LENGTH && ParseCookie(value, at).Some?
    requires var s, p := ParseCookie(value, at).value, Payload(token, ExpiresAt(now), Hex(nonce));
             && s.code == mac(p) && Signs(mac, claimed, s)
             && (mac(p) == mac(Payload(claimed, s.expires, s.nonce)) ==> p == Payload(claimed, s.expires, s.nonce))
    ensures var s := ParseCookie(value, at).value;
            claimed == token && s.expires == ExpiresAt(now) && s.nonce == Hex(nonce) && at < ExpiresAt(now)
  {
    var s := ParseCookie(value, at).value;
    HexRoundTrip(nonce);
    PayloadInjective(token, ExpiresAt(now), Hex(nonce), claimed, s.expires, s.nonce);
  }
}
