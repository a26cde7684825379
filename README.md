# vue-near core, modelled in Dafny

vue-near is a Vue plugin that connects an application to the NEAR blockchain.
This project models the plugin's two self-contained pieces of logic in
`src/index.js`:

- `getConfig(env, options)` picks the connection settings of a NEAR network
  from an environment tag. It copies the caller's options and gives
  `appTitle` and `contractName` defaults when they are falsy. The selected
  network's fields are spread last, so they win. An unknown tag throws.
- `unicodeStringToTypedArray(s)` turns a message into the bytes that get
  signed. It calls `encodeURIComponent`, replaces every `%XY` escape by the
  code unit 0xXY, and copies the code units one by one into a new
  `Uint8Array`. The model proves two things about it:
  - The result is exactly the UTF-8 encoding (RFC 3629) of the string's
    scalar values.
  - It throws exactly when the string holds a lone surrogate.

The model also covers the `|`-joined string that `signedPayloadToString`
builds before base-encoding it. It shows when that string can be split back
into its three parts.

Modules:

- `Wrappers`: the `Option` and `Result` datatypes.
- `NearConfig`: `getConfig`.
  - JavaScript values are a small `Value` datatype.
  - A plain object is a `map<string, Value>`.
  - The omitted `options` argument is `None`, which stands for the default `{}`.
  - `process.env.HOME` is a parameter.
- `Utf16`: JavaScript strings as sequences of UTF-16 code units, and their
  reference reading as scalar values.
- `Utf8`: the UTF-8 encoder of RFC 3629 section 3, and a strict decoder that
  is its inverse.
- `UriEncoding`: `encodeURIComponent`, following the Encode operation of
  ECMA-262 section 19.2.6 (URI handling functions) and the CodePointAt
  operation of its string semantics (section 11.1.4).
- `TypedArray`: the `/%([0-9A-F]{2})/g` replace, ToUint8, and the
  array-filling method `UnicodeStringToTypedArray`.
- `SignedPayload`: the `message|signature|publicKey` string, with
  `String.prototype.split` and `Array.prototype.join` on one separator.

## Model

| member | source | states |
|---|---|---|
| NearConfig.GetConfig | src/index.js:6-69 | A configuration is returned exactly for the nine tags of the switch. Any other tag gives an error whose message names the tag. `appTitle` is the caller's when truthy and 'NEAR' otherwise. `contractName` is the caller's when truthy and 'test.near' otherwise. |
| NearConfig.NetworkOf | src/index.js:13-67 | The switch's case labels, grouped as they fall through. It recognises a tag exactly when the tag is one of the nine known tags. |
| NearConfig.MergePrecedence | src/index.js:7-11 | The merged record's keys are the caller's keys, plus `appTitle` and `contractName`, plus the network's keys. A network field always wins. Every other field of the caller's is carried over unchanged. |
| NearConfig.WithDefaults | src/index.js:7-11 | The base record has the caller's keys plus `appTitle` and `contractName`. Both of these are truthy. Every other field of the caller's is copied unchanged. |
| NearConfig.NetworkFields | src/index.js:16-65 | Every network case sets `networkId` and `nodeUrl`. No case sets `appTitle` or `contractName`. Every field a case sets is a non-empty string. |
| NearConfig.Truthy | src/index.js:9-10 | A value is truthy exactly when it is not one of undefined, null, false, 0 and the empty string. |
| NearConfig.Or | src/index.js:9-10 | The logical-or expression is one of its two operands. It is truthy exactly when either operand is. It is `a` whenever `a` is truthy. |
| NearConfig.Provided | src/index.js:6 | A passed options object is used as it is. When options is omitted, every property reads as undefined, as on `{}`. |
| NearConfig.ValidatorKeyPath | src/index.js:48 | The path is HOME, or "undefined" when HOME is unset, immediately followed by `/.near/validator_key.json`, with nothing in between. |
| NearConfig.UnconfiguredMessage | src/index.js:67 | The thrown message contains the rejected tag. |
| NearConfig.SameNetworkSameConfig | src/index.js:13-65 | Two tags that select the same network give identical configurations for all options and HOME values. The configuration depends on the tag only through its network. |
| NearConfig.MainnetAliases | src/index.js:14-15 | 'production' and 'mainnet' give identical configurations. |
| NearConfig.TestnetAliases | src/index.js:24-25 | 'development' and 'testnet' give identical configurations. |
| NearConfig.SharedTestAliases | src/index.js:51-52 | 'test' and 'ci' give identical configurations. |
| NearConfig.EndpointOf | src/index.js:16-65 | A known tag's networkId and nodeUrl are its network's, whatever options the caller passed. |
| NearConfig.MainnetEndpoint | src/index.js:18-19 | mainnet: networkId 'mainnet', nodeUrl https://rpc.mainnet.near.org. |
| NearConfig.TestnetEndpoint | src/index.js:28-29 | testnet: networkId 'default', nodeUrl https://rpc.testnet.near.org. |
| NearConfig.BetanetEndpoint | src/index.js:37-38 | betanet: networkId 'betanet', nodeUrl https://rpc.betanet.near.org. |
| NearConfig.LocalEndpoint | src/index.js:46-47 | local: networkId 'local', nodeUrl http://localhost:3030. |
| NearConfig.SharedTestEndpoint | src/index.js:55-56 | test: networkId 'shared-test', nodeUrl https://rpc.ci-testnet.near.org. |
| NearConfig.CiBetanetEndpoint | src/index.js:62-63 | ci-betanet: networkId 'shared-test-staging', nodeUrl https://rpc.ci-betanet.near.org. |
| NearConfig.LocalKeyPath | src/index.js:48 | The local network's keyPath is `<HOME>/.near/validator_key.json`, with "undefined" in place of an unset HOME. |
| TypedArray.UnicodeStringToTypedArray | src/index.js:73-83 | It fails (throws) exactly when the string holds a lone surrogate. Otherwise it returns a fresh array holding exactly the UTF-8 octets of the string's scalar values. |
| TypedArray.EncodeThenUnescape | src/index.js:74-77 | encodeURIComponent fails exactly when UTF-16 decoding fails. When it succeeds, the hex-pair replace turns its output into the UTF-8 octets of the string. |
| TypedArray.UnescapedOctets | src/index.js:74-77 | The same fact, with the failure case stated as a lone surrogate in the string. |
| TypedArray.UnescapePercentEncode | src/index.js:75-77 | The replace undoes the `%XY` escapes of any octet sequence, whatever follows them. |
| TypedArray.UnescapeEscape | src/index.js:75-77 | One `%XY` escape is one match and becomes its octet. |
| TypedArray.UnescapeUnreserved | src/index.js:75 | A code unit that encodeURIComponent leaves as it is cannot start a match, so the replace keeps it. |
| TypedArray.UnescapeHexPairs | src/index.js:75-77 | The replace never lengthens the string. |
| TypedArray.IsUpperHex | src/index.js:75 | The class `[0-9A-F]`. Its characters are all ones encodeURIComponent leaves as they are, so none of them is '%'. |
| TypedArray.HexValue | src/index.js:75-76 | One uppercase hex digit of the capture `p1`, read as a number, gives a value below 16 whose uppercase hex digit is that character. Two of them make 0xXY, as `'0x' + p1` does. |
| TypedArray.HexValueOfHexDigit | src/index.js:76 | Reading an uppercase hex digit back as a number gives the digit's value. |
| TypedArray.ToUint8 | src/index.js:80 | Storing a number below 256 into a Uint8Array element keeps it unchanged. |
| TypedArray.Utf8BytesAppend | src/index.js:73-82 | The octets of a concatenation of two well-formed strings are the octets of each, in order. |
| TypedArray.SplitPairHalvesFail | src/index.js:73-82 | U+1F600 as a surrogate pair gives F0 9F 98 80. Either half on its own is refused. |
| TypedArray.Utf8BytesAscii | src/index.js:73-82 | An ASCII string gives its own code units. |
| TypedArray.DecodeAscii | src/index.js:73-82 | An ASCII string decodes to its own code units as scalar values. |
| TypedArray.Utf8BytesLength | src/index.js:78 | The array holds between one and three octets per code unit of the string. |
| UriEncoding.EncodeURIComponent | src/index.js:74 | On success the output consists only of unreserved characters and '%'. It is at least as long as the input. |
| UriEncoding.CodePointAt | src/index.js:74 | The code point at a position takes one or two units that lie inside the string. It is a scalar value unless it is an unpaired surrogate. At position 0, it is unpaired exactly when the string starts with a lone surrogate. |
| UriEncoding.Escape | src/index.js:74 | An octet's escape is three characters: '%', then the uppercase hex digits of its high and low four bits. Each of them is a character encodeURIComponent can produce. |
| UriEncoding.IsUriUnreserved | src/index.js:74 | The characters encodeURIComponent leaves as they are. They are ASCII, and '%' is not among them. |
| UriEncoding.PercentEncode | src/index.js:74 | The escapes of n octets are 3n encoded characters. |
| UriEncoding.HexDigit | src/index.js:74 | The digit is in 0-9 or A-F. |
| Utf16.DecodeFailsIffUnpaired | src/index.js:74 | Decoding a JavaScript string fails exactly when it holds a surrogate that is not half of a pair. |
| Utf16.SuffixUnpaired | src/index.js:74 | After a leading code point, the string holds a lone surrogate exactly when the rest does. |
| Utf16.UnpairedInSuffix | src/index.js:74 | Unpaired positions of a suffix are the unpaired positions of the whole string, shifted. |
| Utf16.DecodeAppend | src/index.js:74 | Two well-formed strings concatenate to a well-formed string whose scalar values are theirs, in order. |
| Utf16.Decode | src/index.js:74 | The decoded values are scalar values. There are no more of them than code units. |
| Utf16.SurrogatePair | src/index.js:74 | A surrogate pair stands for a supplementary code point, U+10000 to U+10FFFF. |
| Utf8.EncodeScalar | src/index.js:74-77 | A code point's octets have the RFC 3629 length. The lead octet announces that length. Continuation octets follow it. |
| Utf8.Encode | src/index.js:74-77 | The encoding has one to four octets per scalar value. |
| Utf8.DecodeScalar | src/index.js:74-77 | A decoded value is a scalar value whose encoded length is the input's length. |
| Utf8.Decode | src/index.js:74-77 | The decoded values are scalar values. There are no more of them than octets. |
| Utf8.DecodeScalarOfEncodeScalar | src/index.js:74-77 | Decoding a scalar value's octets gives it back. |
| Utf8.EncodeScalarOfDecodeScalar | src/index.js:74-77 | Any octets the strict decoder accepts are the encoding of what it returns. |
| Utf8.EncodeAppend | src/index.js:74-77 | Encoding distributes over concatenation. |
| Utf8.EncodeAscii | src/index.js:74-77 | ASCII code points encode to themselves. |
| Utf8.EncodeCons | src/index.js:74-77 | The encoding of a sequence is its first value's octets followed by the rest's. |
| Utf8.DecodeStep | src/index.js:74-77 | Well-formed octets split into a first encoded value and a well-formed rest. |
| Utf8.DecodeOfEncode | src/index.js:74-77 | Decoding the encoding of scalar values gives them back. |
| Utf8.EncodeOfDecode | src/index.js:74-77 | Octets the decoder accepts are the encoding of what it returns. |
| SignedPayload.PayloadString | src/index.js:173 | The payload string is the message, a bar, the signature, a bar, and the public key. Its length is theirs plus two, and each part sits at its own offset. |
| SignedPayload.Split | src/index.js:173 | Splitting gives at least one field, and no field contains the separator. |
| SignedPayload.JoinSplit | src/index.js:173 | Joining a split with the same separator gives the string back. |
| SignedPayload.SplitWithoutSeparator | src/index.js:173 | A string without the separator splits into itself alone. |
| SignedPayload.SplitAtSeparator | src/index.js:173 | A string that holds the separator splits into at least two fields. |
| SignedPayload.SplitAround | src/index.js:173 | Splitting around one separator splits each side on its own. |
| SignedPayload.SplitPayload | src/index.js:173 | Splitting the payload string on the bar character gives message, signature and public key exactly when none of them holds the bar character. |
| SignedPayload.ParsePayloadString | src/index.js:173 | Reading from the right recovers all three parts, whatever the message holds, when signature and key hold no bar character. |
| SignedPayload.PayloadStringOfParse | src/index.js:173 | Every string the right-to-left reader accepts is the payload string of the parts it returns. |
| SignedPayload.JoinLastTwo | src/index.js:173 | A join of three or more fields is the join of all but the last two, then the last two. |

## Left out

- The `VueNear` class (src/index.js:85-177) is not modelled. It loads the
  near-api-js SDK from `window`, opens a wallet connection, and reads and
  writes `localStorage`. It also loads accounts and contracts, and signs
  with Ed25519 key pairs. All of these are calls into code outside the
  repository, or browser I/O.
- The plugin's `install` and `$nearInit` (src/index.js:180-196) are left
  out. They only call those class methods through Vue.
- `base_encode` (src/index.js:174) is not part of this model. The model
  stops at the `|`-joined string, with `signature.toString()` and
  `publicKey.toString()` taken as given strings.
- TypedArray.UnicodeStringToTypedArray takes `s` as a string. The
  model does not cover the ToString step that `encodeURIComponent`
  (src/index.js:74) applies first: `undefined` becomes "undefined", a
  number becomes its decimal text, an object goes through its `toString`,
  and a Symbol throws a TypeError. `getSignedPayload` passes the caller's
  `message` through unchanged, so such values can reach it.
  SignedPayload.PayloadString likewise takes `message` as a string.
  The coercion that `${payload.message}` applies at line 173 is not
  modelled either.
- `process.env.HOME` is a parameter of `GetConfig`. `None` stands for an
  unset variable, which the template literal prints as "undefined".
- NearConfig.Truthy covers `Number` as integers only. NaN, -0 and
  fractional numbers are not modelled. BigInt, symbol and function values
  are not modelled either.
- NearConfig.GetConfig takes `options` as `None` (omitted, so the default
  `{}` applies) or as a plain object. The model does not cover these cases:
  - An explicit `null`, which would throw on `options.appTitle`.
  - A primitive.
  - Inherited, non-enumerable and symbol-keyed properties. The spread
    copies only own enumerable properties, and the model has no others.
- NearConfig.GetConfig takes `env` as a string. The switch compares with
  `===`, so a non-string `env` always reaches the default branch. That
  case is not modelled separately.
- The key order of the returned JavaScript object is not modelled. A map
  has no order.
- UriEncoding.EncodeURIComponent walks the string recursively, one code
  point at a time. ECMA-262 writes it as a loop that appends to a result
  string. The outputs are the same; the model does not have the loop's
  intermediate states.
- The `forEach` over `binstr` in src/index.js:79-81 is the `for` loop of
  `TypedArray.UnicodeStringToTypedArray`. The callback's closure is not
  modelled as a separate function.
