/** The request that `getproducts` (src/products/getproducts.rs) prepares: the
    query URL chosen from the two optional filters, and the authentication
    headers signed over the fixed endpoint path. */
module Products {
  import opened Results
  import opened Ascii
  import opened DateFormat
  import opened Twelve

  /** Rust's `i32`, the type of the sub-client filter. */
  type I32 = n: int | -0x8000_0000 <= n < 0x8000_0000

  const ProductsUrlBase := "https://clientapi.twelve.eu/api/v1/Products"
  /** The path `getproducts` signs, whatever the query. */
  const ProductsPath := "/api/v1/Products"
  const SubClientKey := "filterSubClientId"
  const DeletedLinesKey := "includeDeletedLines"

  /** Rust's `Display` for `bool`. */
  function BoolText(b: bool): (t: string)
    ensures ParseBool(t) == Some(b)
  {
    if b then "true" else "false"
  }

  /** The query URL `getproducts` requests: the sub-client filter comes before
      the deleted-lines flag when both are given. */
  function ProductsUrl(deletedLines: Option<bool>, subClientId: Option<I32>): (url: string)
    ensures |ProductsUrlBase| <= |url| && url[..|ProductsUrlBase|] == ProductsUrlBase
    ensures |ProductsUrlBase| < |url| <==> deletedLines.Some? || subClientId.Some?
    ensures deletedLines.None? && subClientId.None? ==> url == ProductsUrlBase
  {
    if deletedLines.Some? && subClientId.Some? then
      ProductsUrlBase + "?" + (Param(SubClientKey, IntToDecimal(subClientId.value))
                               + "&" + Param(DeletedLinesKey, BoolText(deletedLines.value)))
    else if deletedLines.Some? then
      ProductsUrlBase + "?" + Param(DeletedLinesKey, BoolText(deletedLines.value))
    else if subClientId.Some? then
      ProductsUrlBase + "?" + Param(SubClientKey, IntToDecimal(subClientId.value))
    else
      ProductsUrlBase
  }

  /** The four URLs spelled as the format strings of `getproducts` spell them. */
  lemma ProductsUrlSpelling(b: bool, n: I32)
    ensures ProductsUrl(Some(b), Some(n)) ==
            "https://clientapi.twelve.eu/api/v1/Products?filterSubClientId=" + IntToDecimal(n)
            + "&includeDeletedLines=" + BoolText(b)
    ensures ProductsUrl(Some(b), None) ==
            "https://clientapi.twelve.eu/api/v1/Products?includeDeletedLines=" + BoolText(b)
    ensures ProductsUrl(None, Some(n)) ==
            "https://clientapi.twelve.eu/api/v1/Products?filterSubClientId=" + IntToDecimal(n)
    ensures ProductsUrl(None, None) == "https://clientapi.twelve.eu/api/v1/Products"
  {
    SpellingBoth(BoolText(b), IntToDecimal(n));
    SpellingDeletedLines(BoolText(b));
    SpellingSubClient(IntToDecimal(n));
  }

  lemma SpellingSubClient(d: string)
    ensures ProductsUrlBase + "?" + Param(SubClientKey, d) ==
            "https://clientapi.twelve.eu/api/v1/Products?filterSubClientId=" + d
  {
    assert "https://clientapi.twelve.eu/api/v1/Products?filterSubClientId=" ==
           ProductsUrlBase + "?" + SubClientKey + "=";
    assert ProductsUrlBase + "?" + (SubClientKey + "=" + d) == ProductsUrlBase + "?" + SubClientKey + "=" + d;
  }

  lemma SpellingDeletedLines(t: string)
    ensures ProductsUrlBase + "?" + Param(DeletedLinesKey, t) ==
            "https://clientapi.twelve.eu/api/v1/Products?includeDeletedLines=" + t
  {
    assert "https://clientapi.twelve.eu/api/v1/Products?includeDeletedLines=" ==
           ProductsUrlBase + "?" + DeletedLinesKey + "=";
    assert ProductsUrlBase + "?" + (DeletedLinesKey + "=" + t) == ProductsUrlBase + "?" + DeletedLinesKey + "=" + t;
  }

  lemma SpellingBoth(t: string, d: string)
    ensures ProductsUrlBase + "?" + (Param(SubClientKey, d) + "&" + Param(DeletedLinesKey, t)) ==
            "https://clientapi.twelve.eu/api/v1/Products?filterSubClientId=" + d + "&includeDeletedLines=" + t
  {
    var sub := "https://clientapi.twelve.eu/api/v1/Products?filterSubClientId=";
    SpellingSubClient(d);
    assert "&includeDeletedLines=" == "&" + DeletedLinesKey + "=";
    var p1, p2 := Param(SubClientKey, d), Param(DeletedLinesKey, t);
    assert ProductsUrlBase + "?" + (p1 + "&" + p2) == ProductsUrlBase + "?" + p1 + ("&" + p2);
    assert "&" + p2 == "&includeDeletedLines=" + t;
    assert sub + d + "&includeDeletedLines=" + t == sub + d + ("&includeDeletedLines=" + t);
  }

  /** The URL has a query ('?') exactly when a filter is given, and a second
      parameter ('&') exactly when both are. */
  lemma ProductsUrlSeparators(deletedLines: Option<bool>, subClientId: Option<I32>)
    ensures '?' in ProductsUrl(deletedLines, subClientId) <==> deletedLines.Some? || subClientId.Some?
    ensures '&' in ProductsUrl(deletedLines, subClientId) <==> deletedLines.Some? && subClientId.Some?
  {
    var url := ProductsUrl(deletedLines, subClientId);
    UrlPiecesHaveNoSeparator();
    if subClientId.Some? {
      DecimalIsUrlText(subClientId.value);
    }
    if deletedLines.Some? || subClientId.Some? {
      assert url[|ProductsUrlBase|] == '?';
    }
    if deletedLines.Some? && subClientId.Some? {
      var p1 := Param(SubClientKey, IntToDecimal(subClientId.value));
      assert url[|ProductsUrlBase| + 1 + |p1|] == '&';
    }
  }

  /** One `key=value` pair of the query. */
  function Param(key: string, value: string): (p: string)
    ensures |p| == |key| + 1 + |value| && p[|key|] == '='
    ensures p[..|key|] == key && p[|key| + 1..] == value
  {
    key + "=" + value
  }

  /** Characters of the URL pieces other than the query separators. */
  predicate IsUrlChar(c: char) {
    IsAlnum(c) || c == ':' || c == '/' || c == '.' || c == '-'
  }

  predicate IsUrlText(s: string) {
    forall i :: 0 <= i < |s| ==> IsUrlChar(s[i])
  }

  lemma UrlTextHasNoSeparator(s: string)
    requires IsUrlText(s)
    ensures '?' !in s && '&' !in s && '=' !in s
  {
    if '?' in s || '&' in s || '=' in s {
      var i :| 0 <= i < |s| && s[i] in "?&=";
      assert IsUrlChar(s[i]);
    }
  }

  /** The base URL, the two keys and both boolean texts contain no separator. */
  lemma UrlPiecesHaveNoSeparator()
    ensures '?' !in ProductsUrlBase && '&' !in ProductsUrlBase && '=' !in ProductsUrlBase
    ensures '?' !in SubClientKey && '&' !in SubClientKey && '=' !in SubClientKey
    ensures '?' !in DeletedLinesKey && '&' !in DeletedLinesKey && '=' !in DeletedLinesKey
    ensures forall b: bool :: '?' !in BoolText(b) && '&' !in BoolText(b) && '=' !in BoolText(b)
  {
    assert IsUrlText(ProductsUrlBase);
    UrlTextHasNoSeparator(ProductsUrlBase);
    assert IsUrlText(SubClientKey);
    UrlTextHasNoSeparator(SubClientKey);
    assert IsUrlText(DeletedLinesKey);
    UrlTextHasNoSeparator(DeletedLinesKey);
    assert IsUrlText(BoolText(true));
    UrlTextHasNoSeparator(BoolText(true));
    assert IsUrlText(BoolText(false));
    UrlTextHasNoSeparator(BoolText(false));
  }

  /** A rendered integer holds only digits and '-', so no query separator. */
  lemma DecimalIsUrlText(n: int)
    ensures IsUrlText(IntToDecimal(n))
    ensures '?' !in IntToDecimal(n) && '&' !in IntToDecimal(n) && '=' !in IntToDecimal(n)
  {
    var r := IntToDecimal(n);
    forall i | 0 <= i < |r|
      ensures IsUrlChar(r[i])
    {
      if n < 0 && i > 0 {
        assert r[i] == r[1..][i - 1];
      }
    }
    UrlTextHasNoSeparator(r);
  }

  // ---- Reading a query URL back ----

  /** Splits a string at every occurrence of `sep`. */
  function Split(s: string, sep: char): (parts: seq<string>)
    ensures 1 <= |parts|
  {
    if s == [] then [[]]
    else
      var rest := Split(s[1..], sep);
      if s[0] == sep then [[]] + rest else [[s[0]] + rest[0]] + rest[1..]
  }

  /** A string without the separator is a single part. */
  lemma {:induction false} SplitWithoutSep(a: string, sep: char)
    requires sep !in a
    ensures Split(a, sep) == [a]
  {
    if a != [] {
      SplitWithoutSep(a[1..], sep);
      assert [a[0]] + a[1..] == a;
    }
  }

  /** The first separator ends the first part. */
  lemma {:induction false} SplitAtFirstSep(a: string, sep: char, b: string)
    requires sep !in a
    ensures Split(a + [sep] + b, sep) == [a] + Split(b, sep)
  {
    var s := a + [sep] + b;
    if a == [] {
      assert s[1..] == b;
    } else {
      assert s[1..] == a[1..] + [sep] + b;
      SplitAtFirstSep(a[1..], sep, b);
      assert [a[0]] + a[1..] == a;
    }
  }

  /** Glues parts back together with `sep` between neighbours. */
  function Join(parts: seq<string>, sep: char): string
    requires 1 <= |parts|
  {
    if |parts| == 1 then parts[0] else parts[0] + [sep] + Join(parts[1..], sep)
  }

  /** Splitting loses nothing: joining the parts gives the string back. */
  lemma {:induction false} SplitJoin(s: string, sep: char)
    ensures Join(Split(s, sep), sep) == s
  {
    if s != [] {
      var rest := Split(s[1..], sep);
      SplitJoin(s[1..], sep);
      var parts := Split(s, sep);
      if s[0] == sep {
        assert parts[1..] == rest;
        assert s == [sep] + s[1..];
      } else if |rest| == 1 {
        assert s == [s[0]] + s[1..];
      } else {
        assert parts[1..] == rest[1..];
        assert Join(rest, sep) == rest[0] + [sep] + Join(rest[1..], sep);
        assert s == [s[0]] + s[1..];
      }
    }
  }

  /** One `key=value` pair of a query. */
  function ParseParam(p: string): (r: Option<(string, string)>)
    ensures r.Some? ==> '=' !in r.value.0 && '=' !in r.value.1
  {
    var kv := Split(p, '=');
    if |kv| == 2 && '=' !in kv[0] && '=' !in kv[1] then Some((kv[0], kv[1])) else None
  }

  /** Every `key=value` pair of a query, in order; `None` if one is malformed. */
  function ParseParams(parts: seq<string>): (r: Option<seq<(string, string)>>)
    ensures r.Some? ==> |r.value| == |parts|
    ensures r.Some? ==> forall i :: 0 <= i < |parts| ==> ParseParam(parts[i]) == Some(r.value[i])
  {
    if parts == [] then Some([])
    else
      match ParseParam(parts[0])
      case None => None
      case Some(kv) =>
        match ParseParams(parts[1..])
        case None => None
        case Some(rest) => Some([kv] + rest)
  }

  /** The two filters of a products query. */
  datatype ProductsQuery = ProductsQuery(deletedLines: Option<bool>, subClientId: Option<I32>)

  /** Reads `true` or `false`. */
  function ParseBool(s: string): Option<bool> {
    if s == "true" then Some(true) else if s == "false" then Some(false) else None
  }

  function ParseI32(s: string): (r: Option<I32>)
    ensures r.Some? ==> ParseInt(s) == Some(r.value as int)
  {
    match ParseInt(s)
    case Some(n) => if -0x8000_0000 <= n < 0x8000_0000 then Some(n as I32) else None
    case None => None
  }

  /** The filters a list of query pairs sets, accepting exactly the four layouts
      `getproducts` writes. */
  function DecodeQuery(ps: seq<(string, string)>): Option<ProductsQuery> {
    if ps == [] then Some(ProductsQuery(None, None))
    else if |ps| == 1 && ps[0].0 == DeletedLinesKey then
      match ParseBool(ps[0].1)
      case Some(b) => Some(ProductsQuery(Some(b), None))
      case None => None
    else if |ps| == 1 && ps[0].0 == SubClientKey then
      match ParseI32(ps[0].1)
      case Some(n) => Some(ProductsQuery(None, Some(n)))
      case None => None
    else if |ps| == 2 && ps[0].0 == SubClientKey && ps[1].0 == DeletedLinesKey then
      match (ParseBool(ps[1].1), ParseI32(ps[0].1))
      case (Some(b), Some(n)) => Some(ProductsQuery(Some(b), Some(n)))
      case _ => None
    else None
  }

  /** Reads the filters back from a products URL. */
  function ParseProductsUrl(url: string): (r: Option<ProductsQuery>)
    ensures r.Some? ==> |ProductsUrlBase| <= |url| && url[..|ProductsUrlBase|] == ProductsUrlBase
  {
    if |url| < |ProductsUrlBase| || url[..|ProductsUrlBase|] != ProductsUrlBase then None
    else
      var rest := url[|ProductsUrlBase|..];
      if rest == [] then Some(ProductsQuery(None, None))
      else if rest[0] != '?' then None
      else
        match ParseParams(Split(rest[1..], '&'))
        case None => None
        case Some(ps) => DecodeQuery(ps)
  }

  /** A pair reads back only from its own `key=value` spelling. */
  lemma ParseParamInverse(p: string)
    requires ParseParam(p).Some?
    ensures p == Param(ParseParam(p).value.0, ParseParam(p).value.1)
  {
    SplitJoin(p, '=');
    var kv := Split(p, '=');
    assert kv[1..] == [kv[1]];
  }

  lemma ParamRoundTrip(key: string, value: string)
    requires '=' !in key && '=' !in value
    ensures ParseParam(Param(key, value)) == Some((key, value))
  {
    SplitAtFirstSep(key, '=', value);
    SplitWithoutSep(value, '=');
  }

  lemma SubClientParamRoundTrip(n: I32)
    ensures ParseParam(Param(SubClientKey, IntToDecimal(n))) == Some((SubClientKey, IntToDecimal(n)))
    ensures ParseI32(IntToDecimal(n)) == Some(n)
  {
    DecimalIsUrlText(n);
    ParamRoundTrip(SubClientKey, IntToDecimal(n));
    IntDecimalRoundTrip(n);
  }

  lemma DeletedLinesParamRoundTrip(b: bool)
    ensures ParseParam(Param(DeletedLinesKey, BoolText(b))) == Some((DeletedLinesKey, BoolText(b)))
  {
    ParamRoundTrip(DeletedLinesKey, BoolText(b));
  }

  /** Reading back a URL with a query reads the pairs of the query. */
  lemma ParseUrlWithQuery(q: string)
    ensures ParseProductsUrl(ProductsUrlBase + "?" + q) ==
            match ParseParams(Split(q, '&'))
            case None => None
            case Some(ps) => DecodeQuery(ps)
  {
    var url := ProductsUrlBase + "?" + q;
    assert url[..|ProductsUrlBase|] == ProductsUrlBase;
    var rest := url[|ProductsUrlBase|..];
    assert rest == "?" + q;
    assert rest[1..] == q;
  }

  lemma BothFiltersRoundTrip(b: bool, n: I32)
    ensures ParseProductsUrl(ProductsUrl(Some(b), Some(n))) == Some(ProductsQuery(Some(b), Some(n)))
  {
    var p1, p2 := Param(SubClientKey, IntToDecimal(n)), Param(DeletedLinesKey, BoolText(b));
    var q := p1 + "&" + p2;
    assert ProductsUrl(Some(b), Some(n)) == ProductsUrlBase + "?" + q;
    ParseUrlWithQuery(q);
    SplitBothFilters(p1, p2, n, b);
    SubClientParamRoundTrip(n);
    DeletedLinesParamRoundTrip(b);
    var kv1, kv2 := (SubClientKey, IntToDecimal(n)), (DeletedLinesKey, BoolText(b));
    assert [p2][1..] == [] && ParseParams([]) == Some([]);
    assert [kv2] + [] == [kv2];
    assert ParseParams([p2]) == Some([(DeletedLinesKey, BoolText(b))]);
    assert [p1, p2][1..] == [p2] && [kv1] + [kv2] == [kv1, kv2];
    assert ParseParams([p1, p2]) == Some([(SubClientKey, IntToDecimal(n)), (DeletedLinesKey, BoolText(b))]);
    DecodeBothFilters(b, n);
  }

  lemma SplitBothFilters(p1: string, p2: string, n: I32, b: bool)
    requires p1 == Param(SubClientKey, IntToDecimal(n))
    requires p2 == Param(DeletedLinesKey, BoolText(b))
    ensures Split(p1 + "&" + p2, '&') == [p1, p2]
  {
    DecimalIsUrlText(n);
    UrlPiecesHaveNoSeparator();
    assert '&' !in p1;
    assert '&' !in p2;
    SplitAtFirstSep(p1, '&', p2);
    SplitWithoutSep(p2, '&');
  }

  lemma DecodeBothFilters(b: bool, n: I32)
    ensures DecodeQuery([(SubClientKey, IntToDecimal(n)), (DeletedLinesKey, BoolText(b))])
            == Some(ProductsQuery(Some(b), Some(n)))
  {
    SubClientParamRoundTrip(n);
    assert ParseBool(BoolText(b)) == Some(b);
  }

  lemma DeletedLinesOnlyRoundTrip(b: bool)
    ensures ParseProductsUrl(ProductsUrl(Some(b), None)) == Some(ProductsQuery(Some(b), None))
  {
    var p := Param(DeletedLinesKey, BoolText(b));
    assert ProductsUrl(Some(b), None) == ProductsUrlBase + "?" + p;
    ParseUrlWithQuery(p);
    UrlPiecesHaveNoSeparator();
    SplitWithoutSep(p, '&');
    DeletedLinesParamRoundTrip(b);
  }

  lemma SubClientOnlyRoundTrip(n: I32)
    ensures ParseProductsUrl(ProductsUrl(None, Some(n))) == Some(ProductsQuery(None, Some(n)))
  {
    var p := Param(SubClientKey, IntToDecimal(n));
    assert ProductsUrl(None, Some(n)) == ProductsUrlBase + "?" + p;
    ParseUrlWithQuery(p);
    DecimalIsUrlText(n);
    UrlPiecesHaveNoSeparator();
    SplitWithoutSep(p, '&');
    SubClientParamRoundTrip(n);
  }

  /** The URL determines the filters: reading it back yields exactly the options
      it was built from, in the order `getproducts` writes them. */
  lemma ProductsUrlRoundTrip(deletedLines: Option<bool>, subClientId: Option<I32>)
    ensures ParseProductsUrl(ProductsUrl(deletedLines, subClientId)) == Some(ProductsQuery(deletedLines, subClientId))
  {
    match (deletedLines, subClientId)
    case (Some(b), Some(n)) => BothFiltersRoundTrip(b, n);
    case (Some(b), None) => DeletedLinesOnlyRoundTrip(b);
    case (None, Some(n)) => SubClientOnlyRoundTrip(n);
    case (None, None) =>
  }

  /** Different filter choices give different URLs. */
  lemma ProductsUrlInjective(d1: Option<bool>, s1: Option<I32>, d2: Option<bool>, s2: Option<I32>)
    ensures ProductsUrl(d1, s1) == ProductsUrl(d2, s2) <==> d1 == d2 && s1 == s2
  {
    if ProductsUrl(d1, s1) == ProductsUrl(d2, s2) {
      ProductsUrlRoundTrip(d1, s1);
      ProductsUrlRoundTrip(d2, s2);
    }
  }

  /** The parser accepts nothing but the URLs `getproducts` writes: a URL that
      reads back as some filters is the URL of those filters. */
  lemma {:induction false} ParseProductsUrlInverse(url: string)
    requires ParseProductsUrl(url).Some?
    ensures var q := ParseProductsUrl(url).value;
            url == ProductsUrl(q.deletedLines, q.subClientId)
  {
    var q := ParseProductsUrl(url).value;
    var rest := url[|ProductsUrlBase|..];
    assert url == ProductsUrlBase + rest;
    if rest != [] {
      var query := rest[1..];
      assert rest == "?" + query;
      QueryInverse(query, q);
    }
  }

  /** The query part of `ParseProductsUrlInverse`. */
  lemma QueryInverse(query: string, q: ProductsQuery)
    requires ParseParams(Split(query, '&')).Some?
    requires DecodeQuery(ParseParams(Split(query, '&')).value) == Some(q)
    ensures ProductsUrlBase + "?" + query == ProductsUrl(q.deletedLines, q.subClientId)
  {
    var parts := Split(query, '&');
    var ps := ParseParams(parts).value;
    SplitJoin(query, '&');
    ParseParamInverse(parts[0]);
    if |ps| == 1 {
      assert query == Param(ps[0].0, ps[0].1);
      DecodeOneParam(ps[0], q);
    } else {
      assert |ps| == 2;
      assert parts[1..] == [parts[1]];
      assert query == parts[0] + "&" + parts[1];
      ParseParamInverse(parts[1]);
      assert ps == [ps[0], ps[1]];
      DecodeTwoParams(ps[0], ps[1], q);
    }
  }

  lemma DecodeOneParam(kv: (string, string), q: ProductsQuery)
    requires DecodeQuery([kv]) == Some(q)
    ensures ProductsUrl(q.deletedLines, q.subClientId) == ProductsUrlBase + "?" + Param(kv.0, kv.1)
  {
    if kv.0 == SubClientKey {
      IntDecimalIff(kv.1, q.subClientId.value);
    }
  }

  lemma DecodeTwoParams(kv1: (string, string), kv2: (string, string), q: ProductsQuery)
    requires DecodeQuery([kv1, kv2]) == Some(q)
    ensures q.deletedLines.Some? && q.subClientId.Some?
    ensures kv1 == (SubClientKey, IntToDecimal(q.subClientId.value))
    ensures kv2 == (DeletedLinesKey, BoolText(q.deletedLines.value))
  {
    IntDecimalIff(kv1.1, q.subClientId.value);
  }

  /** A URL reads back as a choice of filters if and only if it is the URL of
      that choice. */
  lemma ProductsUrlIff(url: string, q: ProductsQuery)
    ensures ParseProductsUrl(url) == Some(q) <==> url == ProductsUrl(q.deletedLines, q.subClientId)
  {
    if ParseProductsUrl(url) == Some(q) {
      ParseProductsUrlInverse(url);
    }
    if url == ProductsUrl(q.deletedLines, q.subClientId) {
      ProductsUrlRoundTrip(q.deletedLines, q.subClientId);
    }
  }

  // ---- The prepared request ----

  /** The URL and headers `getproducts` hands to the HTTP client. */
  datatype Request = Request(url: string, headers: map<string, string>)

  /** The request `getproducts` sends, or the header failure on which its
      `unwrap()` aborts. */
  function GetProductsRequest(client: Client, deletedLines: Option<bool>, subClientId: Option<I32>,
                              date: Date, rnd: string, sha256: string -> string): (r: Result<Request>)
    requires ValidDate(date) && IsRandomSuffix(rnd)
    ensures r.Ok? <==> HeaderMap(ProductsPath, client, date, rnd, sha256).Ok?
    ensures r.Err? ==> r.error.kind == InvalidData
    ensures r.Ok? ==> r.value.url == ProductsUrl(deletedLines, subClientId)
    // A convenience: follows from the clause above and ProductsUrlRoundTrip.
    ensures r.Ok? ==> ParseProductsUrl(r.value.url) == Some(ProductsQuery(deletedLines, subClientId))
    ensures r.Ok? ==> r.value.headers == HeaderMap(ProductsPath, client, date, rnd, sha256).value
    ensures r.Ok? ==> r.value.headers.Keys == HeaderNames
    ensures r.Ok? ==> r.value.headers[PublicApiKeyName] == client.publicKey
    ensures r.Ok? ==> r.value.headers[RequestTokenName] == RequestToken(date, rnd)
    ensures r.Ok? ==> r.value.headers[RequestSignatureName] ==
                      ToUpper(sha256(ProductsPath + RequestToken(date, rnd) + client.privateKey))
    ensures r.Ok? ==> r.value.headers[ClientIdName] == NatToDecimal(client.clientId)
  {
    ProductsUrlRoundTrip(deletedLines, subClientId);
    var headers :- HeaderMap(ProductsPath, client, date, rnd, sha256);
    Ok(Request(ProductsUrl(deletedLines, subClientId), headers))
  }

  /** The query never reaches the signature: whichever filters are chosen, the
      same clock, randomness and client give the same outcome and the same headers. */
  lemma HeadersIndependentOfQuery(client: Client, d1: Option<bool>, s1: Option<I32>,
                                  d2: Option<bool>, s2: Option<I32>,
                                  date: Date, rnd: string, sha256: string -> string)
    requires ValidDate(date) && IsRandomSuffix(rnd)
    ensures var r1 := GetProductsRequest(client, d1, s1, date, rnd, sha256);
            var r2 := GetProductsRequest(client, d2, s2, date, rnd, sha256);
            && (r1.Ok? <==> r2.Ok?)
            && (r1.Ok? ==> r1.value.headers == r2.value.headers)
  {
  }

  /** With a real SHA-256, preparing the request fails exactly when the public
      key is not a valid header value. */
  lemma GetProductsRequestFailsOnlyOnPublicKey(client: Client, deletedLines: Option<bool>, subClientId: Option<I32>,
                                               date: Date, rnd: string, sha256: string -> string)
    requires ValidDate(date) && IsRandomSuffix(rnd) && IsSha256(sha256)
    ensures GetProductsRequest(client, deletedLines, subClientId, date, rnd, sha256).Ok? <==> IsHeaderValue(client.publicKey)
  {
    HeaderMapFailsOnlyOnPublicKey(ProductsPath, client, date, rnd, sha256);
  }
}
