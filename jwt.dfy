/** Token issuing and checking. A token is `header.payload.signature` in the compact
    serialisation of section 7.1 of RFC 7515, signed with HMAC-SHA256 (section 3.2 of
    RFC 7518) and base64url-encoded without padding (section 5 of RFC 4648). HMAC, base64url
    and UTF-8 are library calls and stay uninterpreted here; `Codecs` names the facts about
    them that the proofs rely on. */
module Jwt {
  import opened Results
  import opened JavaStrings
  import opened FlatJson

  type byte = bv8

  // ---------------------------------------------------------------------------
  // escape
  // ---------------------------------------------------------------------------

  /** `s.replace(c, by)` for a one-character target: every occurrence, left to right. */
  function Replace(s: string, c: char, replacement: string): (r: string)
    ensures c !in s ==> r == s
    decreases |s|
  {
    if s == [] then [] else (if s[0] == c then replacement else [s[0]]) + Replace(s[1..], c, replacement)
  }

  lemma {:induction false} ReplaceConcat(a: string, b: string, c: char, replacement: string)
    ensures Replace(a + b, c, replacement) == Replace(a, c, replacement) + Replace(b, c, replacement)
    decreases |a|
  {
    if a != [] {
      assert (a + b)[0] == a[0] && (a + b)[1..] == a[1..] + b;
      ReplaceConcat(a[1..], b, c, replacement);
    } else {
      assert a + b == b;
    }
  }

  /** `escape(s)`: backslashes are doubled first, then every `"` gets a backslash. */
  function Escape(s: string): string {
    Replace(Replace(s, '\\', "\\\\"), '"', "\\\"")
  }

  /** What `escape` does to one character. */
  function EscapeChar(c: char): string {
    if c == '\\' then "\\\\" else if c == '"' then "\\\"" else [c]
  }

  function EscapeEach(s: string): (r: string)
    ensures |r| >= |s|
    decreases |s|
  {
    if s == [] then [] else EscapeChar(s[0]) + EscapeEach(s[1..])
  }

  /** The two passes of `escape` act on each character independently. */
  lemma {:induction false} EscapeByCharacter(s: string)
    ensures Escape(s) == EscapeEach(s)
    decreases |s|
  {
    if s != [] {
      var first := if s[0] == '\\' then "\\\\" else [s[0]];
      var rest := Replace(s[1..], '\\', "\\\\");
      ReplaceConcat(first, rest, '"', "\\\"");
      assert Replace(first, '"', "\\\"") == EscapeChar(s[0]);
      EscapeByCharacter(s[1..]);
    }
  }

  /** Reads back what `escape` wrote: a backslash takes the next character literally. */
  function Unescape(t: string): string
    decreases |t|
  {
    if t == [] then []
    else if t[0] == '\\' && |t| >= 2 then [t[1]] + Unescape(t[2..])
    else [t[0]] + Unescape(t[1..])
  }

  lemma {:induction false} UnescapeEscapeEach(s: string)
    ensures Unescape(EscapeEach(s)) == s
    decreases |s|
  {
    if s != [] {
      var t := EscapeEach(s);
      assert t == EscapeChar(s[0]) + EscapeEach(s[1..]);
      if s[0] == '\\' || s[0] == '"' {
        assert t[2..] == EscapeEach(s[1..]);
      } else {
        assert t[1..] == EscapeEach(s[1..]);
      }
      UnescapeEscapeEach(s[1..]);
    }
  }

  /** `escape` loses nothing: two subjects with the same escaped form are equal. */
  lemma EscapeInjective(a: string, b: string)
    requires Escape(a) == Escape(b)
    ensures a == b
  {
    EscapeByCharacter(a);
    EscapeByCharacter(b);
    UnescapeEscapeEach(a);
    UnescapeEscapeEach(b);
  }

  lemma {:induction false} EscapeEachFree(s: string, c: char)
    requires c != '\\' && c != '"' && c !in s
    ensures c !in EscapeEach(s)
    decreases |s|
  {
    if s != [] {
      EscapeEachFree(s[1..], c);
    }
  }

  /** `escape` adds only backslashes, so it introduces no other character. */
  lemma EscapeAddsNothingElse(s: string, c: char)
    requires c != '\\' && c != '"' && c !in s
    ensures c !in Escape(s)
  {
    EscapeByCharacter(s);
    EscapeEachFree(s, c);
  }

  lemma {:induction false} EscapeEachLonger(s: string)
    requires '\\' in s || '"' in s
    ensures |EscapeEach(s)| > |s|
    decreases |s|
  {
    if s[0] != '\\' && s[0] != '"' {
      EscapeEachLonger(s[1..]);
    }
  }

  /** `escape` is the identity exactly on strings without `\` and `"`. */
  lemma EscapeIdentityIff(s: string)
    ensures Escape(s) == s <==> '\\' !in s && '"' !in s
  {
    if '\\' in s || '"' in s {
      EscapeByCharacter(s);
      EscapeEachLonger(s);
    }
  }

  // ---------------------------------------------------------------------------
  // The token utility
  // ---------------------------------------------------------------------------

  const HEADER_JSON: string := "{\"alg\":\"HS256\",\"typ\":\"JWT\"}"

  /** The payload `{"sub":"<escaped subject>","iat":<iat>,"exp":<exp>}`. */
  function PayloadJson(escapedSubject: string, iat: int, exp: int): string {
    "{\"sub\":\"" + escapedSubject + "\",\"iat\":" + LongToString(iat) + ",\"exp\":" + LongToString(exp) + "}"
  }

  lemma PayloadShape(sub: string, a: string, b: string)
    ensures "{\"sub\":\"" + sub + "\",\"iat\":" + a + ",\"exp\":" + b + "}"
         == "{" + (("\"sub\":\"" + sub + "\"") + [','] + (("\"iat\":" + a) + [','] + ("\"exp\":" + b))) + "}"
  {
  }

  lemma JoinThree(p1: string, p2: string, p3: string, sep: char)
    ensures Join([p1, p2, p3], sep) == p1 + [sep] + (p2 + [sep] + p3)
  {
    assert [p1, p2, p3][1..] == [p2, p3];
    assert [p2, p3][1..] == [p3];
    assert Join([p2, p3], sep) == p2 + [sep] + p3;
  }

  /** The payload is the flat object with the three claims in this order. */
  lemma PayloadIsFlatObject(sub: string, iat: int, exp: int)
    ensures PayloadJson(sub, iat, exp) == Render([("sub", JText(sub)), ("iat", JLong(iat)), ("exp", JLong(exp))])
  {
    var entries := [("sub", JText(sub)), ("iat", JLong(iat)), ("exp", JLong(exp))];
    var a, b := LongToString(iat), LongToString(exp);
    var p1, p2, p3 := "\"sub\":\"" + sub + "\"", "\"iat\":" + a, "\"exp\":" + b;
    assert RenderEntries(entries) == [p1, p2, p3] by {
      assert RenderEntry(entries[0]) == p1;
      assert RenderEntry(entries[1]) == p2;
      assert RenderEntry(entries[2]) == p3;
    }
    JoinThree(p1, p2, p3, ',');
    PayloadShape(sub, a, b);
  }

  lemma ToMapThree(e0: (string, JsonValue), e1: (string, JsonValue), e2: (string, JsonValue))
    ensures ToMap(map[], [e0, e1, e2]) == map[e0.0 := e0.1][e1.0 := e1.1][e2.0 := e2.1]
  {
    var m0 := map[][e0.0 := e0.1];
    var m1 := m0[e1.0 := e1.1];
    assert [e0, e1, e2][1..] == [e1, e2];
    assert [e1, e2][1..] == [e2];
    assert [e2][1..] == [];
    calc {
      ToMap(map[], [e0, e1, e2]);
      ToMap(m0, [e1, e2]);
      ToMap(m1, [e2]);
      ToMap(m1[e2.0 := e2.1], []);
    }
  }

  /** The claims read back from the payload are the ones written, when the (escaped) subject
      holds no comma and both times are `long` values. */
  lemma PayloadFields(sub: string, iat: int, exp: int)
    requires ',' !in sub && IsLong(iat) && IsLong(exp)
    ensures ParseJson(PayloadJson(sub, iat, exp)) == Some(map["sub" := JText(sub), "iat" := JLong(iat), "exp" := JLong(exp)])
  {
    var e0, e1, e2 := ("sub", JText(sub)), ("iat", JLong(iat)), ("exp", JLong(exp));
    PayloadIsFlatObject(sub, iat, exp);
    assert Readable(e0) && Readable(e1) && Readable(e2);
    ParseRender([e0, e1, e2]);
    ToMapThree(e0, e1, e2);
  }

  class JwtUtil {
    /** Lifetime of the tokens this instance issues, in seconds (a Java `long`). */
    const ttlSeconds: int
    /** `sign(data)`: base64url of HMAC-SHA256 under this instance's secret over the UTF-8
        bytes of `data`. */
    const sign: string -> string
    /** `base64Url(s.getBytes(UTF_8))`. */
    const encode: string -> string
    /** `base64UrlDecode(s)`; `None` when the decoder rejects the input. */
    const decode: string -> Option<string>
    /** `s.getBytes(UTF_8)`. */
    const utf8: string -> seq<byte>

    constructor (ttlSeconds: int, sign: string -> string, encode: string -> string,
                 decode: string -> Option<string>, utf8: string -> seq<byte>)
      requires IsLong(ttlSeconds)
      ensures this.ttlSeconds == ttlSeconds && this.sign == sign && this.encode == encode
      ensures this.decode == decode && this.utf8 == utf8
    {
      this.ttlSeconds := ttlSeconds;
      this.sign := sign;
      this.encode := encode;
      this.decode := decode;
      this.utf8 := utf8;
    }

    /** What the library calls guarantee: base64url decoding undoes encoding, its alphabet
        has no `.`, and a signature is a non-empty base64url string. */
    ghost predicate Codecs() {
      && (forall s :: decode(encode(s)) == Some(s))
      && (forall s :: '.' !in encode(s))
      && (forall s :: sign(s) != [] && '.' !in sign(s))
    }

    /** `exp = now + ttlSeconds` in `long` arithmetic. */
    function Expiry(now: int): (exp: int)
      requires IsLong(now)
      ensures IsLong(exp)
      ensures IsLong(now + ttlSeconds) ==> exp == now + ttlSeconds
      ensures IsLong(ttlSeconds) && now + ttlSeconds > LONG_MAX ==> exp == now + ttlSeconds - 0x1_0000_0000_0000_0000
    {
      WrapLong(now + ttlSeconds)
    }

    /** `generateToken(subject)` at clock reading `now`. */
    function GenerateToken(subject: string, now: int): string
      requires IsLong(now)
    {
      var header := encode(HEADER_JSON);
      var payload := encode(PayloadJson(Escape(subject), now, Expiry(now)));
      header + "." + payload + "." + sign(header + "." + payload)
    }

    /** `isValid(token)` at clock reading `now`: three parts, a matching signature, and an
        `exp` claim that is a number later than `now`; any exception means `false`. */
    function IsValid(token: string, now: int): bool {
      var parts := Split(token, '.');
      if |parts| != 3 then false
      else if utf8(sign(parts[0] + "." + parts[1])) != utf8(parts[2]) then false
      else
        match decode(parts[1])
        case None => false
        case Some(json) =>
          match ParseJson(json)
          case None => false
          case Some(claims) => "exp" in claims && claims["exp"].JLong? && now < claims["exp"].n
    }

    /** `getSubject(token)`: the `sub` claim as text, `None` for a missing claim (Java's
        `null`), `Err` for the exception a malformed token raises. */
    function GetSubject(token: string): Result<Option<string>> {
      var parts := Split(token, '.');
      if |parts| < 2 then Err("ArrayIndexOutOfBoundsException")
      else
        match decode(parts[1])
        case None => Err("IllegalArgumentException")
        case Some(json) =>
          match ParseJson(json)
          case None => Err("IndexOutOfBoundsException")
          case Some(claims) =>
            if "sub" !in claims then Ok(None)
            else
              match claims["sub"]
              case JText(s) => Ok(Some(s))
              case JLong(n) => Ok(Some(LongToString(n)))
    }

    /** `constantTimeEquals(a, b)`: compares the UTF-8 bytes by OR-ing their XORs, so the
        time taken does not depend on where they differ. */
    method ConstantTimeEquals(a: string, b: string) returns (equal: bool)
      ensures equal <==> utf8(a) == utf8(b)
    {
      var x, y := utf8(a), utf8(b);
      if |x| != |y| {
        return false;
      }
      var r: byte := 0;
      for i := 0 to |x|
        invariant r == 0 <==> x[..i] == y[..i]
      {
        assert x[..i + 1] == x[..i] + [x[i]] && y[..i + 1] == y[..i] + [y[i]];
        r := r | (x[i] ^ y[i]);
      }
      assert x[..|x|] == x && y[..|y|] == y;
      return r == 0;
    }

    /** The generated token is exactly three parts: header, payload and the signature over
        `header.payload`. */
    lemma GeneratedTokenParts(subject: string, now: int)
      requires Codecs() && IsLong(now)
      ensures var header := encode(HEADER_JSON);
              var payload := encode(PayloadJson(Escape(subject), now, Expiry(now)));
              Split(GenerateToken(subject, now), '.') == [header, payload, sign(header + "." + payload)]
    {
      var header := encode(HEADER_JSON);
      var payload := encode(PayloadJson(Escape(subject), now, Expiry(now)));
      var signature := sign(header + "." + payload);
      var parts := [header, payload, signature];
      JoinThree(header, payload, signature, '.');
      assert header + ['.'] + (payload + ['.'] + signature) == header + "." + payload + "." + signature;
      SplitJoin(parts, '.');
    }

    /** A freshly generated token is valid exactly until its expiry. */
    lemma GeneratedTokenValidUntilExpiry(subject: string, now: int, later: int)
      requires Codecs() && IsLong(now) && ',' !in subject
      ensures IsValid(GenerateToken(subject, now), later) <==> later < Expiry(now)
    {
      GeneratedTokenParts(subject, now);
      EscapeAddsNothingElse(subject, ',');
      PayloadFields(Escape(subject), now, Expiry(now));
    }

    /** `getSubject` of a generated token is the escaped subject. */
    lemma GeneratedTokenSubject(subject: string, now: int)
      requires Codecs() && IsLong(now) && ',' !in subject
      ensures GetSubject(GenerateToken(subject, now)) == Ok(Some(Escape(subject)))
    {
      GeneratedTokenParts(subject, now);
      EscapeAddsNothingElse(subject, ',');
      PayloadFields(Escape(subject), now, Expiry(now));
    }

    /** So the subject comes back unchanged exactly when it has no `\` and no `"`
        (`getSubject` does not undo `escape`). */
    lemma SubjectRoundTripIff(subject: string, now: int)
      requires Codecs() && IsLong(now) && ',' !in subject
      ensures GetSubject(GenerateToken(subject, now)) == Ok(Some(subject)) <==> '\\' !in subject && '"' !in subject
    {
      GeneratedTokenSubject(subject, now);
      EscapeIdentityIff(subject);
    }

    /** A `long` overflow in `now + ttlSeconds` gives an expiry in the past: such a token is
        rejected from the moment it is issued. */
    lemma OverflowedExpiryRejects(subject: string, now: int, later: int)
      requires Codecs() && IsLong(now) && IsLong(ttlSeconds) && ',' !in subject
      requires now + ttlSeconds > LONG_MAX && later >= now
      ensures !IsValid(GenerateToken(subject, now), later)
    {
      GeneratedTokenValidUntilExpiry(subject, now, later);
    }

    /** A valid token carries the signature of its first two parts (given that UTF-8
        encoding is injective, as it is on Unicode scalar values). */
    lemma ValidTokenIsSigned(token: string, now: int)
      requires forall a, b :: utf8(a) == utf8(b) ==> a == b
      requires IsValid(token, now)
      ensures var parts := Split(token, '.'); |parts| == 3 && parts[2] == sign(parts[0] + "." + parts[1])
    {
    }

    /** One trailing `.` is ignored: `split` drops the empty last piece. */
    lemma TrailingDotIgnored(token: string, now: int)
      requires token != []
      ensures IsValid(token + ".", now) == IsValid(token, now)
    {
      SplitTrailingSeparator(token, '.');
    }
  }

  lemma SplitAllNoSeparator(s: string, sep: char)
    requires sep !in s
    ensures SplitAll(s + [sep], sep) == SplitAll(s, sep) + [[]]
  {
    assert SplitAll(s, sep) == [s];
    assert SplitAll([], sep) == [[]];
    assert s + [sep] == s + [sep] + [];
    SplitAllAfter(s, sep, []);
  }

  lemma {:induction false} SplitAllTrailingSeparator(s: string, sep: char)
    ensures SplitAll(s + [sep], sep) == SplitAll(s, sep) + [[]]
    decreases |s|
  {
    if sep !in s {
      SplitAllNoSeparator(s, sep);
    } else {
      var i := IndexOf(s, sep);
      var a, b := s[..i], s[i + 1..];
      assert s == a + [sep] + b;
      assert s + [sep] == a + [sep] + (b + [sep]);
      calc {
        SplitAll(s + [sep], sep);
        { SplitAllAfter(a, sep, b + [sep]); }
        [a] + SplitAll(b + [sep], sep);
        { SplitAllTrailingSeparator(b, sep); }
        [a] + (SplitAll(b, sep) + [[]]);
        ([a] + SplitAll(b, sep)) + [[]];
        { SplitAllAfter(a, sep, b); }
        SplitAll(s, sep) + [[]];
      }
    }
  }

  /** `split` gives the same pieces with or without one trailing separator. */
  lemma SplitTrailingSeparator(s: string, sep: char)
    requires s != []
    ensures Split(s + [sep], sep) == Split(s, sep)
  {
    SplitAllTrailingSeparator(s, sep);
    var all := SplitAll(s, sep);
    assert DropTrailingEmpty(all + [[]]) == DropTrailingEmpty(all);
    if sep !in s {
      assert IndexOf(s, sep) < 0;
      assert all == [s];
    }
  }
}
