/** The credential holder and the per-request authentication headers of the
    Twelve point-of-sale API client (src/lib.rs).

    The ambient inputs of `headermap` are parameters: the UTC date read from the
    clock, the 30 characters drawn from the random source, and the SHA-256 hex
    digest function. */
module Twelve {
  import opened Results
  import opened Ascii
  import opened DateFormat
  import opened Utf8

  /** Rust's `u64`, the type of the client id. */
  type U64 = n: nat | n < 0x1_0000_0000_0000_0000

  /** A caller's credentials: the private key (only ever hashed), the public key
      and the numeric client id (both sent verbatim). */
  datatype Client = Client(privateKey: string, publicKey: string, clientId: U64)

  /** `Client::new`: both keys are ASCII-lower-cased, the client id is kept. */
  function New(privateKey: string, publicKey: string, clientId: U64): (c: Client)
    ensures c.clientId == clientId
    ensures |c.privateKey| == |privateKey| && |c.publicKey| == |publicKey|
    ensures NoUpper(c.privateKey) && NoUpper(c.publicKey)
    ensures forall i :: 0 <= i < |privateKey| && !IsUpper(privateKey[i]) ==> c.privateKey[i] == privateKey[i]
    ensures forall i :: 0 <= i < |publicKey| && !IsUpper(publicKey[i]) ==> c.publicKey[i] == publicKey[i]
    ensures forall i :: 0 <= i < |privateKey| && IsUpper(privateKey[i]) ==> UpperChar(c.privateKey[i]) == privateKey[i]
    ensures forall i :: 0 <= i < |publicKey| && IsUpper(publicKey[i]) ==> UpperChar(c.publicKey[i]) == publicKey[i]
  {
    Client(ToLower(privateKey), ToLower(publicKey), clientId)
  }

  /** Keys without upper-case letters pass through `Client::new` unchanged. */
  lemma NewKeepsLowerCaseKeys(privateKey: string, publicKey: string, clientId: U64)
    requires NoUpper(privateKey) && NoUpper(publicKey)
    ensures New(privateKey, publicKey, clientId) == Client(privateKey, publicKey, clientId)
  {
    ToLowerFixesNoUpper(privateKey);
    ToLowerFixesNoUpper(publicKey);
  }

  /** Rebuilding a client from the fields of one built by `Client::new` gives the same client. */
  lemma NewIdempotent(privateKey: string, publicKey: string, clientId: U64)
    ensures var c := New(privateKey, publicKey, clientId);
            New(c.privateKey, c.publicKey, c.clientId) == c
  {
    var c := New(privateKey, publicKey, clientId);
    NewKeepsLowerCaseKeys(c.privateKey, c.publicKey, c.clientId);
  }

  // ---- Request token ----

  /** The number of characters taken from the random source. */
  const RandomLength := 30

  /** What `thread_rng().sample_iter(&Alphanumeric).take(30)` yields. */
  predicate IsRandomSuffix(rnd: string) {
    |rnd| == RandomLength && AllAlnum(rnd)
  }

  /** The request token: the date stamp directly followed by the random characters. */
  function RequestToken(date: Date, rnd: string): (t: string)
    requires ValidDate(date) && IsRandomSuffix(rnd)
    ensures |t| == |DateStamp(date)| + RandomLength
    ensures t[..|t| - RandomLength] == DateStamp(date)
    ensures t[|t| - RandomLength..] == rnd
  {
    DateStamp(date) + rnd
  }

  /** Splits a 38-character token into its date and its random suffix. */
  function ParseRequestToken(t: string): (r: Option<(Date, string)>)
    ensures r.Some? ==> |t| == 8 + RandomLength && IsRandomSuffix(r.value.1)
  {
    if |t| == 8 + RandomLength && AllAlnum(t[8..]) then
      match ParseDateStamp(t[..8])
      case Some(d) => Some((d, t[8..]))
      case None => None
    else None
  }

  /** For four-digit years the token is 38 alphanumeric characters from which the
      date and the random suffix can be read back. */
  lemma RequestTokenShape(date: Date, rnd: string)
    requires ValidDate(date) && IsRandomSuffix(rnd) && 0 <= date.year <= 9999
    ensures |RequestToken(date, rnd)| == 38
    ensures AllAlnum(RequestToken(date, rnd))
    ensures ParseRequestToken(RequestToken(date, rnd)) == Some((date, rnd))
  {
    var t := RequestToken(date, rnd);
    var stamp := DateStamp(date);
    forall i | 0 <= i < |t|
      ensures IsAlnum(t[i])
    {
      if i < 8 { assert t[i] == stamp[i]; } else { assert t[i] == rnd[i - 8]; }
    }
    DateStampRoundTrip(date);
  }

  /** On one day, different random draws give different tokens. */
  lemma RequestTokenInjective(date: Date, rnd1: string, rnd2: string)
    requires ValidDate(date) && IsRandomSuffix(rnd1) && IsRandomSuffix(rnd2)
    ensures RequestToken(date, rnd1) == RequestToken(date, rnd2) <==> rnd1 == rnd2
  {
    var t1, t2 := RequestToken(date, rnd1), RequestToken(date, rnd2);
    if t1 == t2 {
      assert rnd1 == t1[|t1| - RandomLength..];
    }
  }

  // ---- Request signature ----

  /** The string that is hashed: path, token and private key with no separator. */
  function SigningInput(path: string, token: string, privateKey: string): (m: string)
    ensures |m| == |path| + |token| + |privateKey|
    ensures m[..|path|] == path
    ensures m[|path|..|path| + |token|] == token
    ensures m[|path| + |token|..] == privateKey
  {
    path + token + privateKey
  }

  /** `sha256::digest(...).to_ascii_uppercase()`. */
  function Signature(path: string, token: string, privateKey: string, sha256: string -> string): (sig: string)
    ensures NoLower(sig)
    ensures |sig| == |sha256(SigningInput(path, token, privateKey))|
  {
    ToUpper(sha256(SigningInput(path, token, privateKey)))
  }

  /** SHA-256 rendered as hex: every message has a 64-character lower-case digest. */
  ghost predicate IsSha256(sha256: string -> string) {
    forall m :: IsLowerHexDigest(sha256(m))
  }

  /** A lower-case hex digest yields a 64-character upper-case hex signature, and
      lower-casing the signature recovers the digest of path ++ token ++ key. */
  lemma SignatureShape(path: string, token: string, privateKey: string, sha256: string -> string)
    requires IsLowerHexDigest(sha256(SigningInput(path, token, privateKey)))
    ensures |Signature(path, token, privateKey, sha256)| == 64
    ensures AllUpperHex(Signature(path, token, privateKey, sha256))
    ensures ToLower(Signature(path, token, privateKey, sha256)) == sha256(SigningInput(path, token, privateKey))
  {
    var digest := sha256(SigningInput(path, token, privateKey));
    ToUpperOfLowerHex(digest);
    assert NoUpper(digest) by {
      forall i | 0 <= i < |digest| ensures !IsUpper(digest[i]) {
        assert IsLowerHex(digest[i]);
      }
    }
    ToLowerUndoesToUpper(digest);
  }

  // ---- Header values ----

  /** The byte test of `HeaderValue::from_str`: a tab, or any byte from the space
      upwards except DEL. */
  predicate IsHeaderValueByte(b: Byte) {
    b == 9 || (32 <= b && b != 127)
  }

  predicate AllHeaderValueBytes(bs: seq<Byte>) {
    forall i :: 0 <= i < |bs| ==> IsHeaderValueByte(bs[i])
  }

  /** The same test stated per character: a tab, or anything from the space
      upwards except DEL. */
  predicate IsHeaderValueChar(c: char) {
    c == '\t' || (32 <= c as int && c as int != 127)
  }

  predicate IsHeaderValue(s: string) {
    forall i :: 0 <= i < |s| ==> IsHeaderValueChar(s[i])
  }

  /** A character passes the byte test exactly when every byte of its UTF-8
      encoding does: ASCII characters are their own byte, and the bytes of every
      other character are at least 0x80. */
  lemma HeaderValueCharBytes(c: char)
    ensures AllHeaderValueBytes(EncodeChar(c)) <==> IsHeaderValueChar(c)
  {
    var bs := EncodeChar(c);
    if |bs| > 1 {
      assert forall i :: 0 <= i < |bs| ==> 0x80 <= bs[i];
    }
  }

  lemma AllHeaderValueBytesAppend(a: seq<Byte>, b: seq<Byte>)
    ensures AllHeaderValueBytes(a + b) <==> AllHeaderValueBytes(a) && AllHeaderValueBytes(b)
  {
    var ab := a + b;
    if AllHeaderValueBytes(ab) {
      forall i | 0 <= i < |a| ensures IsHeaderValueByte(a[i]) {
        assert a[i] == ab[i];
      }
      forall i | 0 <= i < |b| ensures IsHeaderValueByte(b[i]) {
        assert b[i] == ab[|a| + i];
      }
    }
  }

  /** The byte test on the UTF-8 encoding of a string agrees with the character
      test on the string. */
  lemma {:induction false} HeaderValueBytes(s: string)
    ensures AllHeaderValueBytes(Encode(s)) <==> IsHeaderValue(s)
  {
    if s != [] {
      HeaderValueBytes(s[1..]);
      HeaderValueCharBytes(s[0]);
      AllHeaderValueBytesAppend(EncodeChar(s[0]), Encode(s[1..]));
      if IsHeaderValueChar(s[0]) && IsHeaderValue(s[1..]) {
        forall i | 0 <= i < |s| ensures IsHeaderValueChar(s[i]) {
          if i > 0 { assert s[i] == s[1..][i - 1]; }
        }
      }
    }
  }

  /** `value.parse::<HeaderValue>()`, which tests the UTF-8 bytes of the value,
      with the failure mapped to `InvalidData` as every match arm in `headermap`
      does. */
  function ParseHeaderValue(s: string): (r: Result<string>)
    ensures r.Ok? <==> IsHeaderValue(s)
    ensures r.Ok? ==> r.value == s
    ensures r.Err? ==> r.error.kind == InvalidData
  {
    HeaderValueBytes(s);
    if AllHeaderValueBytes(Encode(s)) then Ok(s) else Err(Error(InvalidData))
  }

  // ---- The header map ----

  const AcceptName := "accept"
  const PublicApiKeyName := "PublicAPIKey"
  const RequestTokenName := "RequestToken"
  const RequestSignatureName := "RequestSignature"
  const ClientIdName := "ClientId"
  const AcceptValue := "text/plain"

  /** The five header names, keyed as written in the source. */
  const HeaderNames: set<string> :=
    {AcceptName, PublicApiKeyName, RequestTokenName, RequestSignatureName, ClientIdName}

  /** `headermap(path, client)`: the five authentication headers, or
      `InvalidData` as soon as one of the parsed values is not a valid header
      value. A failure returns no map at all. */
  function HeaderMap(path: string, client: Client, date: Date, rnd: string, sha256: string -> string)
    : (r: Result<map<string, string>>)
    requires ValidDate(date) && IsRandomSuffix(rnd)
    ensures r.Ok? <==>
              && IsHeaderValue(client.publicKey)
              && IsHeaderValue(RequestToken(date, rnd))
              && IsHeaderValue(Signature(path, RequestToken(date, rnd), client.privateKey, sha256))
    ensures r.Err? ==> r.error.kind == InvalidData
    ensures r.Ok? ==> r.value.Keys == HeaderNames && |r.value| == 5
    ensures r.Ok? ==> r.value[AcceptName] == AcceptValue
    ensures r.Ok? ==> r.value[PublicApiKeyName] == client.publicKey
    ensures r.Ok? ==> r.value[RequestTokenName] == RequestToken(date, rnd)
    ensures r.Ok? ==> r.value[RequestSignatureName] ==
                      Signature(path, RequestToken(date, rnd), client.privateKey, sha256)
    ensures r.Ok? ==> r.value[ClientIdName] == NatToDecimal(client.clientId)
  {
    var token := RequestToken(date, rnd);
    var signature := Signature(path, token, client.privateKey, sha256);
    // The constant always parses (AcceptValueIsHeaderValue), so the first
    // early return of the source cannot be taken.
    var accept := AcceptValue;
    var publicKey :- ParseHeaderValue(client.publicKey);
    var requestToken :- ParseHeaderValue(token);
    var requestSignature :- ParseHeaderValue(signature);
    Ok(map[
      AcceptName := accept,
      PublicApiKeyName := publicKey,
      RequestTokenName := requestToken,
      RequestSignatureName := requestSignature,
      ClientIdName := NatToDecimal(client.clientId)
    ])
  }

  /** The `accept` value "text/plain" always parses as a header value. */
  lemma AcceptValueIsHeaderValue()
    ensures ParseHeaderValue(AcceptValue) == Ok(AcceptValue)
  {
    AcceptValueChars();
    var r := ParseHeaderValue(AcceptValue);
    assert r.Ok? && r.value == AcceptValue;
  }

  lemma AcceptValueChars()
    ensures IsHeaderValue(AcceptValue)
  {
  }

  /** Every token is a valid header value, whatever the year. */
  lemma RequestTokenIsHeaderValue(date: Date, rnd: string)
    requires ValidDate(date) && IsRandomSuffix(rnd)
    ensures IsHeaderValue(RequestToken(date, rnd))
  {
    var t := RequestToken(date, rnd);
    var stamp := DateStamp(date);
    forall i | 0 <= i < |t|
      ensures IsHeaderValueChar(t[i])
    {
      if i < |stamp| {
        assert t[i] == stamp[i] && IsStampChar(stamp[i]);
      } else {
        assert t[i] == rnd[i - |stamp|] && IsAlnum(rnd[i - |stamp|]);
      }
    }
  }

  /** With a real SHA-256, the only value that can make `headermap` fail is the
      public key: the constant, the token and the hex signature always parse. */
  lemma HeaderMapFailsOnlyOnPublicKey(path: string, client: Client, date: Date, rnd: string, sha256: string -> string)
    requires ValidDate(date) && IsRandomSuffix(rnd) && IsSha256(sha256)
    ensures HeaderMap(path, client, date, rnd, sha256).Ok? <==> IsHeaderValue(client.publicKey)
  {
    var token := RequestToken(date, rnd);
    RequestTokenIsHeaderValue(date, rnd);
    SignatureShape(path, token, client.privateKey, sha256);
    var sig := Signature(path, token, client.privateKey, sha256);
    forall i | 0 <= i < |sig|
      ensures IsHeaderValueChar(sig[i])
    {
      assert IsUpperHex(sig[i]);
    }
  }

  /** Lower-casing neither creates nor removes characters that are invalid in a
      header value, so `Client::new` does not change whether `headermap` can succeed. */
  lemma ToLowerKeepsHeaderValidity(s: string)
    ensures IsHeaderValue(ToLower(s)) <==> IsHeaderValue(s)
  {
    var r := ToLower(s);
    forall i | 0 <= i < |s|
      ensures IsHeaderValueChar(r[i]) <==> IsHeaderValueChar(s[i])
    {
      if IsUpper(s[i]) {
        assert IsLower(r[i]);
      }
    }
  }

  /** What goes on the wire for a four-digit year: a 38-character alphanumeric
      token and a 64-character upper-case hex signature over path ++ token ++ key. */
  lemma HeaderMapWireFormat(path: string, client: Client, date: Date, rnd: string, sha256: string -> string)
    requires ValidDate(date) && IsRandomSuffix(rnd) && IsSha256(sha256) && 0 <= date.year <= 9999
    requires IsHeaderValue(client.publicKey)
    ensures var r := HeaderMap(path, client, date, rnd, sha256);
            && r.Ok?
            && |r.value[RequestTokenName]| == 38
            && AllAlnum(r.value[RequestTokenName])
            && |r.value[RequestSignatureName]| == 64
            && AllUpperHex(r.value[RequestSignatureName])
            && ToLower(r.value[RequestSignatureName]) ==
               sha256(path + r.value[RequestTokenName] + client.privateKey)
  {
    HeaderMapFailsOnlyOnPublicKey(path, client, date, rnd, sha256);
    RequestTokenShape(date, rnd);
    var token := RequestToken(date, rnd);
    SignatureShape(path, token, client.privateKey, sha256);
  }

  // ---- Client::header ----

  /** The path `Client::header` signs. */
  const GroupPath := "/group"

  /** `Client::header`: the header map for the fixed path "/group". */
  function Header(client: Client, date: Date, rnd: string, sha256: string -> string)
    : (r: Result<map<string, string>>)
    requires ValidDate(date) && IsRandomSuffix(rnd)
    ensures r.Ok? <==> HeaderMap(GroupPath, client, date, rnd, sha256).Ok?
    ensures r.Err? ==> r.error.kind == InvalidData
    ensures r.Ok? ==> r.value.Keys == HeaderNames
    ensures r.Ok? ==> r.value[AcceptName] == AcceptValue
    ensures r.Ok? ==> r.value[PublicApiKeyName] == client.publicKey
    ensures r.Ok? ==> r.value[RequestTokenName] == RequestToken(date, rnd)
    ensures r.Ok? ==> r.value[RequestSignatureName] ==
                      ToUpper(sha256(GroupPath + RequestToken(date, rnd) + client.privateKey))
    ensures r.Ok? ==> r.value[ClientIdName] == NatToDecimal(client.clientId)
  {
    HeaderMap(GroupPath, client, date, rnd, sha256)
  }

  /** With a real SHA-256, `Client::header` fails exactly when the public key is
      not a valid header value. */
  lemma HeaderFailsOnlyOnPublicKey(client: Client, date: Date, rnd: string, sha256: string -> string)
    requires ValidDate(date) && IsRandomSuffix(rnd) && IsSha256(sha256)
    ensures Header(client, date, rnd, sha256).Ok? <==> IsHeaderValue(client.publicKey)
  {
    HeaderMapFailsOnlyOnPublicKey(GroupPath, client, date, rnd, sha256);
  }
}
