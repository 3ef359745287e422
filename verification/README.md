# Twelve API request authentication, modelled in Dafny

This project models the request-authentication core of a Rust client for the
Twelve point-of-sale REST API. It has two parts.

- **Credentials and headers** (`src/lib.rs`). `Client::new` stores the private key,
  the public key and the client id, and lower-cases both keys. `headermap` builds
  five headers:
  - `accept` is `text/plain`;
  - `PublicAPIKey` is the public key;
  - `RequestToken` is a `%Y%d%m` date stamp followed by 30 random alphanumerics;
  - `RequestSignature` is the upper-cased SHA-256 hex digest of
    path ++ token ++ private key;
  - `ClientId` is the client id in decimal.

  `headermap` returns `InvalidData` as soon as one of the parsed values is not a
  valid header value. `Client::header` signs the fixed path `/group`.
- **The products request** (`src/products/getproducts.rs`). The query URL is picked
  by a four-way case split over the optional `includeDeletedLines` and
  `filterSubClientId` filters. The headers are always signed over the fixed path
  `/api/v1/Products`.

The ambient inputs become parameters, so every operation is a pure function:
- the UTC date (`DateFormat.Date`);
- the 30 characters from the random source (`rnd`, required to be 30 alphanumerics);
- the SHA-256 hex digest (`sha256: string -> string`). The lemmas that need it assume
  it returns 64 lower-case hex characters (`Twelve.IsSha256`).

Header-value validity follows the byte rule of the `http` crate's
`HeaderValue::from_str`. A tab is valid, and so is every byte from space upwards
except DEL. `Twelve.ParseHeaderValue` applies that rule to the UTF-8 encoding of
the value (`Utf8.Encode`, RFC 3629 section 3). `Twelve.HeaderValueBytes` proves it
equivalent to a per-character rule, because every byte of a non-ASCII character
is at least 0x80. The `http` crate is not part of this model.

Modules:
- `Results`: `Option`, `Result` and the `InvalidData` error.
- `Ascii`: character classes, ASCII case mapping, and decimal rendering with parsers.
- `Utf8`: the UTF-8 bytes of a string, with decoding of a single character.
- `DateFormat`: chrono's `%Y`, `%d` and `%m` rendering.
- `Twelve`: `src/lib.rs`.
- `Products`: `src/products/getproducts.rs`.

The partner of each operation is either an inverse or an independent reference
definition. The date stamp, the token and the URL each have a parser with a
round-trip lemma. The signature has lower-casing, which recovers the digest.
`Client::new` has its idempotence.

Where the code and its comments or callers disagree, the model follows the code:
- `Client::new` lower-cases both keys. The signature is then computed over the
  lower-cased private key, not the key as issued.
- The date stamp is year, **day**, month (`%Y%d%m`). The source comment says
  `yyyymmdd`. `DateFormat.DateStampIsYmdIffDayIsMonth` shows the two agree only
  when the day number equals the month number.
- `getproducts` takes a `TwelveClient`, which `src/lib.rs` does not define. It is
  modelled as the `Client` of `src/lib.rs`.

## Model

| member | source | states |
|---|---|---|
| Ascii.ToLower | src/lib.rs:28-29 | `to_ascii_lowercase` keeps the length, leaves no upper-case letter, keeps every non-upper-case character, and maps each upper-case letter to its lower-case partner |
| Ascii.ToUpper | src/lib.rs:101 | `to_ascii_uppercase` keeps the length, leaves no lower-case letter, keeps every other character, and maps each lower-case letter to its upper-case partner |
| Ascii.ToLowerFixesNoUpper | src/lib.rs:55-56 | a string without upper-case letters is unchanged by lower-casing (the keys of the unit test at these lines are stored verbatim) |
| Ascii.ToLowerIdempotent | src/lib.rs:28-29 | lower-casing twice is lower-casing once |
| Ascii.ToLowerUndoesToUpper | src/lib.rs:101 | lower-casing inverts upper-casing on strings without upper-case letters |
| Ascii.ToUpperOfLowerHex | src/lib.rs:101 | upper-casing a lower-case hex digest gives upper-case hex (`0-9A-F`) of the same length |
| Ascii.NatToDecimal | src/lib.rs:148-151 | the `u64` client id renders as a non-empty run of digits with no leading zero: a rendering that starts with '0' is "0", the rendering of 0 |
| Ascii.NatToDecimalLength | src/lib.rs:90 | a number of at least 10^k has more than k digits, so a year past 9999 prints with at least five digits |
| Ascii.NatDecimalRoundTrip | src/lib.rs:148-151 | reading the rendered client id back gives the id |
| Ascii.DecimalNatRoundTrip | src/lib.rs:148-151 | every canonical numeral is the rendering of its value, so the rendering is a bijection onto canonical numerals |
| Ascii.IntToDecimal | src/products/getproducts.rs:97-101 | an `i32` renders as digits, with a leading '-' exactly when it is negative, no zero after the '-', and a leading '0' only in "0" itself |
| Ascii.IntDecimalRoundTrip | src/products/getproducts.rs:97-101 | parsing the rendered sub-client id gives the id back, for every integer |
| Ascii.IntDecimalIff | src/products/getproducts.rs:97-101 | a string parses as `n` if and only if it is the rendering of `n`, so no other spelling (leading zeros, "-0") is accepted |
| DateFormat.Pad2 | src/lib.rs:90 | `%d` and `%m` give two zero-padded digits whose value is the day or month |
| DateFormat.Pad4 | src/lib.rs:90 | years 0-9999 give four zero-padded digits whose value is the year |
| DateFormat.YearText | src/lib.rs:90 | `%Y` gives at least four characters, all digits or a sign; four digits worth the year for 0-9999; for a later year '+' and then the year's digits without a leading zero; for years -9999 to -1 '-' and four zero-padded digits worth the magnitude; for earlier years '-' and the magnitude's digits without a leading zero (chrono's `{:+05}`) |
| DateFormat.DateStamp | src/lib.rs:89-90 | the `%Y%d%m` stamp has at least eight digit-or-sign characters, and exactly eight digits for a four-digit year |
| DateFormat.DateStampRoundTrip | src/lib.rs:89-90 | for four-digit years the stamp is year, then day, then month: reading characters 4-5 as the day and 6-7 as the month recovers the date |
| DateFormat.DateStampIsYmdIffDayIsMonth | src/lib.rs:89-90 | the stamp equals the `yyyymmdd` stamp of the comment if and only if day = month |
| Twelve.New | src/lib.rs:26-31 | `Client::new` keeps the client id and the key lengths, leaves no upper-case letter in either key, keeps non-upper-case characters, and maps upper-case letters to their lower-case partners |
| Twelve.NewKeepsLowerCaseKeys | src/lib.rs:55-56 | keys without upper-case letters are stored exactly as given |
| Twelve.NewIdempotent | src/lib.rs:26-31 | rebuilding a client from a built client's fields gives the same client |
| Twelve.RequestToken | src/lib.rs:98-99 | the token is the date stamp followed by the 30 random characters, with no separator |
| Twelve.RequestTokenShape | src/lib.rs:89-99 | for four-digit years the token is 38 alphanumeric characters, and the date and random suffix can be read back from it |
| Twelve.RequestTokenInjective | src/lib.rs:92-99 | on one day, two tokens are equal if and only if the random draws are equal |
| Twelve.SigningInput | src/lib.rs:100-101 | the hashed string is path, then token, then private key, adjacent and in that order |
| Twelve.Signature | src/lib.rs:101 | the signature has no lower-case letter and is as long as the digest |
| Twelve.SignatureShape | src/lib.rs:100-101 | for a lower-case hex digest the signature is 64 upper-case hex characters, and lower-casing it recovers the digest of path ++ token ++ private key |
| Utf8.EncodeChar | src/lib.rs:120-126 | a character encodes as one byte (equal to the code point) below 0x80, two below 0x800, three below 0x10000 and four above; a multi-byte encoding has a lead byte >= 0xC0 and continuation bytes in 0x80-0xBF |
| Utf8.Encode | src/lib.rs:120-146 | the bytes `from_str` walks: at least one and at most four per character, and exactly one per character if and only if the string is ASCII |
| Utf8.EncodeAppend | src/lib.rs:120-146 | the bytes of a concatenation are the concatenation of the bytes |
| Utf8.EncodeCharRoundTrip | src/lib.rs:120-126 | decoding the bytes of a character gives back its code point |
| Twelve.HeaderValueCharBytes | src/lib.rs:120-126 | a character passes the byte test on all its UTF-8 bytes if and only if it is a tab or at least a space and not DEL |
| Twelve.HeaderValueBytes | src/lib.rs:120-126 | the byte test on a string's UTF-8 encoding agrees with the per-character test on the string |
| Twelve.ParseHeaderValue | src/lib.rs:120-126 | the byte test runs on the UTF-8 bytes, and parsing succeeds, unchanged, if and only if every character is a tab or at least a space and not DEL; otherwise the error is `InvalidData` |
| Twelve.HeaderMap | src/lib.rs:86-153 | `Ok` if and only if the public key, token and signature are all header-valid; `Err` is `InvalidData` with no map; `Ok` holds exactly the five names, with the constant, the verbatim public key, the token, the signature and the decimal client id |
| Twelve.AcceptValueIsHeaderValue | src/lib.rs:108-117 | the `text/plain` constant always parses, so the first early return cannot be taken |
| Twelve.RequestTokenIsHeaderValue | src/lib.rs:128-137 | the token parses as a header value for every date and random draw |
| Twelve.HeaderMapFailsOnlyOnPublicKey | src/lib.rs:118-151 | with a real SHA-256, `headermap` fails if and only if the public key has a character that is not header-valid |
| Twelve.ToLowerKeepsHeaderValidity | src/lib.rs:118-127 | lower-casing a key does not change whether it is a valid header value |
| Twelve.HeaderMapWireFormat | src/lib.rs:98-147 | for a four-digit year and a valid public key, the result is `Ok` with a 38-character alphanumeric token and a 64-character upper-case hex signature whose lower-case form is the digest of path ++ token ++ private key |
| Twelve.Header | src/lib.rs:33 | `Client::header` succeeds exactly when `headermap` for `/group` does, failing with `InvalidData`; on success it holds exactly the five names: the constant, the verbatim public key, the token, the signature over `/group` ++ token ++ private key, and the decimal client id |
| Twelve.HeaderFailsOnlyOnPublicKey | src/lib.rs:33 | with a real SHA-256, `Client::header` fails if and only if the public key is not header-valid |
| Products.BoolText | src/products/getproducts.rs:91-95 | `Display` for `bool` writes the text that reads back as the same flag, `true` or `false` |
| Products.ProductsUrl | src/products/getproducts.rs:90-104 | the URL starts with the products base URL, is longer than it exactly when a filter is given, and is exactly the base when none is |
| Products.ProductsUrlSpelling | src/products/getproducts.rs:90-104 | the four cases spell out as the source's four format strings |
| Products.ProductsUrlSeparators | src/products/getproducts.rs:90-104 | the URL contains '?' if and only if a filter is given, and '&' if and only if both are |
| Products.BothFiltersRoundTrip | src/products/getproducts.rs:90-91 | with both filters the URL reads back as `filterSubClientId` first and then `includeDeletedLines`, with both values |
| Products.DeletedLinesOnlyRoundTrip | src/products/getproducts.rs:92-96 | with only the deleted-lines flag the URL reads back as that flag (`true`/`false`) alone |
| Products.SubClientOnlyRoundTrip | src/products/getproducts.rs:97-101 | with only the sub-client id the URL reads back as that signed decimal id alone |
| Products.ProductsUrlRoundTrip | src/products/getproducts.rs:90-104 | reading back any products URL yields exactly the filters it was built from |
| Products.ProductsUrlInjective | src/products/getproducts.rs:90-104 | two filter choices give the same URL if and only if they are the same choice |
| Products.ParseProductsUrlInverse | src/products/getproducts.rs:90-104 | a URL that reads back as some filters is exactly the URL `getproducts` builds for those filters |
| Products.ProductsUrlIff | src/products/getproducts.rs:90-104 | a URL reads back as a filter choice if and only if it is the URL of that choice |
| Products.GetProductsRequest | src/products/getproducts.rs:90-113 | succeeds exactly when `headermap` for `/api/v1/Products` does, failing with `InvalidData`; on success the request carries the URL of the chosen filters and that header map: the public key, the token, the signature over `/api/v1/Products` ++ token ++ private key, and the decimal client id |
| Products.HeadersIndependentOfQuery | src/products/getproducts.rs:106 | the filters never reach the signature: any two filter choices give the same outcome and the same headers |
| Products.GetProductsRequestFailsOnlyOnPublicKey | src/products/getproducts.rs:106-108 | with a real SHA-256, preparing the request fails (the `unwrap` aborts) if and only if the public key is not header-valid |

## Left out

- SHA-256 itself: it is a parameter. Its FIPS 180-4 compression function is not modelled, and the lemmas that need a digest shape assume 64 lower-case hex characters.
- `Utc::now()` and `thread_rng()`: they are parameters. The claim that the token is "unique every time" is probabilistic. The model states only the deterministic part: `Twelve.RequestTokenInjective`.
- chrono's supported year range (-262144 to 262143) is not enforced. Years outside 0-9999 follow chrono's `%Y` sign rule.
- Twelve.RequestTokenShape: the 38-character, all-alphanumeric shape is stated only for years 0-9999. chrono writes other years with a sign and more digits.
- Twelve.HeaderMapWireFormat: stated only for years 0-9999, for the same reason.
- Day-of-month validity: a date only needs month 1-12 and day 1-31. Per-month day counts play no part in the rendering.
- Header names are keyed as written (`PublicAPIKey`, ...). `reqwest`'s `HeaderMap` lower-cases names and compares them case-insensitively; that normalisation is not modelled.
- The `accept` parse in `headermap` is not run in the model. `Twelve.AcceptValueIsHeaderValue` shows it always succeeds.
- `println!` logging of parse errors, and `async`, which never suspends in `headermap`.
- In `getproducts`, the `unwrap()` panic on a header failure is modelled as an `Err` result.
- HTTP sending, the `expect` on send, the status check with its `panic!`, and JSON decoding into `GetProductCall`/`LstProduct`/`AutomaticSupplement` are left out. They are network I/O, process aborts and foreign serde calls on mostly floating-point fields.
- The `add` function, its test and the empty `accountgroeps` are left out: they contain no logic.
