# Multi-chain crypto payment QR service: a Dafny model

The service turns a sentence such as
`send 0.05 ETH on ethereum to 0x… with label 'Consulting'` into a payment
URI (and a QR image of it), through a small HTTP job API. This project
models its core:

- **`parseInput`**. Four regular expressions pick the chain, the amount
  and its token symbol, the address and an optional quoted label out of
  the free text. The chain name is lower-cased and the symbol upper-cased.
  A missing chain, amount or address is the format error. A symbol that
  the chain's registry entry lacks is the unsupported-token error. No
  regex engine is available, so each pattern is a scanner that follows
  the backtracking order of the JavaScript engine:
  - `Scan.Run` is a greedy class repetition.
  - `Scan.Greedy` is a bounded repetition `{lo,hi}`.
  - `Scan.First` tries alternatives in source order.
  - `Scan.Leftmost` tries start positions from the left.

  Each scanner is paired with a declarative "shape" predicate and proved
  equal to the leftmost match of that shape. Under the `i` flag without
  `u`, no non-ASCII character folds onto an ASCII letter, so these
  all-ASCII patterns match exactly the ASCII case pairs
  (`Chars.SameIgnoringCase`); `ſ` and the Kelvin sign never match `s` or
  `k`.
- **`validateAddress`**. There is one syntactic check per chain. The EVM
  check (`web3.utils.isAddress`, which includes the EIP-55 checksum) is
  the uninterpreted parameter `Service.isEvmAddress`. Any other chain is
  an error, not a rejection.
- **`generateQRCode`**. The address gate comes first, then the registry
  lookup, then the amount slot:
  - Bitcoin puts the captured text in the slot.
  - Native ADA uses `parseInt`.
  - Every other chain scales the amount to the token's smallest unit.

  There is one URI template per chain family and kind of token. An
  `&label=` parameter carrying `encodeURIComponent` of the label is added
  when the label is non-empty. `encodeURIComponent` is modelled in full,
  including the UTF-8 encoding of non-ASCII characters, and a decoder is
  proved to invert it. Last, the QR encoder renders the URI. Its verdict
  is the parameter `Service.qrError`: it may reject a URI, for example
  one too long for level H, and the job then fails with its message.
- **`processJob` of the service**. Every error is prefixed with
  `Processing failed: `.
- **The job table of the server**. It is a `map` from job id to job, with
  pure transitions:
  - submission (`/start_job`);
  - completion (`processJob` of the server);
  - the timed deletion of completed jobs.

  The three query routes are `/status/:jobId`, `/result/:jobId` and
  `/availability`. Runs of steps are proved to keep failed jobs forever
  and to delete only completed jobs.

The model keeps these behaviours of the patterns as they are:

- Text starting with `1` or `3` followed by a long Base58 run (a Solana
  address can look like this) is captured as only its first 35
  characters. The second alternative is tried before the Solana one
  (`Matchers.LeadingOneOrThreeCapped`).
- An amount written `.5` gives `NaN` in the slot for native ADA
  (`Payment.NativeAdaSlot`).
- The parser does not check the address against the chain. That happens
  in the URI builder.

Modules, one per file: `Wrappers` (Option, Result), `Chars` (character
classes, ASCII case), `Scan`, `Registry` (the chains/tokens registry and
the parser's vocabularies), `Decimal` (amount literals, `parseInt`, the
scaling), `Matchers` (the four patterns), `Address`, `UriEncoding`,
`Parser`, `Payment`, `Jobs`.

## Model

| member | source | states |
|---|---|---|
| Decimal.DecimalLiteralIff | src/service.js:30 | the amount the token pattern captures (`\d*\.?\d+`) is exactly a non-empty run of digits with at most one point that ends in a digit |
| Decimal.ParseIntTruncates | src/service.js:70-71 | `parseInt(amount, 10)` gives `NaN` exactly when the amount starts with its point; otherwise it prints the integer part without leading zeros: its value `v` satisfies `v * 10^f <= mantissa < (v+1) * 10^f` |
| Decimal.ScaleAmountExact | src/service.js:63 | the scaled amount is a decimal literal that denotes the amount times `10^decimals` exactly, and is an integer when the fraction has at most `decimals` digits |
| Decimal.ScaleAmountCanonical | src/service.js:63 | the scaled amount prints like a number: no leading zero before other integer digits, and no trailing zero in a fraction |
| Matchers.ChainAtIff | src/service.js:29 | the chain scanner at a position succeeds with name `k` at `j` if and only if `on`, one or more white-space characters and chain name `k` stand there, ignoring ASCII case |
| Matchers.FindChainLeftmost | src/service.js:29 | the chain match is the leftmost such occurrence, and there is none exactly when no position has that shape |
| Matchers.TokenAtIff | src/service.js:30 | the token scanner succeeds with end `e`, symbol `k` at `j` if and only if a decimal literal ends at `e`, only white space lies between it and `j`, and symbol `k` stands at `j` ignoring case |
| Matchers.FindTokenLeftmost | src/service.js:30 | the amount match is the leftmost token shape, and there is none exactly when no position has that shape |
| Matchers.AddressAltIff | src/service.js:31 | alternative `alt` of the address pattern matches `n` characters at a position if and only if its literal prefix and `n` characters of its class within its bounds stand there, cut only at the bound or where the class ends |
| Matchers.AddressAt | src/service.js:31 | at a position, the address pattern takes the first alternative in source order that matches there, and fails only when none does |
| Matchers.FindAddressLeftmost | src/service.js:31 | the address match is at the leftmost position where some alternative matches, and there uses the first matching alternative |
| Matchers.LeftmostAddressUnique | src/service.js:31 | at most one position, alternative and length fit the description of the reported match: leftmost position, then first alternative |
| Matchers.LeadingOneOrThreeCapped | src/service.js:31 | text starting with `1` or `3` and at least 34 Base58 characters is captured as exactly its first 35 characters |
| Matchers.LabelAtIff | src/service.js:32 | the label scanner succeeds with length `n` if and only if a quote, `n >= 1` non-quotes and a quote stand there |
| Matchers.FindLabelLeftmost | src/service.js:32 | the label match is the leftmost quoted run, and there is none exactly when no position has that shape |
| Address.ValidateAddress | src/service.js:12-26 | a verdict exists exactly for the five chains; any other chain gives `Unsupported chain: <chain>`; Ethereum and Polygon defer to the EVM check |
| Address.BitcoinGrammar | src/service.js:17-18 | Bitcoin accepts exactly `1` or `3` and then 25 to 39 characters of its class, or `bc1` and then 25 to 39 of them |
| Address.CardanoGrammar | src/service.js:19-20 | Cardano accepts exactly `addr1` followed by 98 ASCII letters or digits |
| Address.SolanaGrammar | src/service.js:21-22 | Solana accepts exactly 32 to 44 Base58 characters |
| Address.OneShortRejected | src/service.js:19-22 | a Cardano candidate of 102 characters and a Solana candidate of 31 are rejected, whatever their characters |
| Address.TruncatedRejected | src/service.js:19-22 | removing the last character of an accepted Cardano address, or of an accepted 32-character Solana address, makes it rejected |
| Parser.ChainText | src/service.js:38 | the lower-cased chain capture is the chain name the pattern matched |
| Parser.SymbolText | src/service.js:40 | the upper-cased symbol capture is the symbol the pattern matched |
| Parser.Label | src/service.js:51 | the label is `''` or a non-empty text without quotes |
| Parser.Recognise | src/service.js:29-40 | fields exist exactly when the chain, amount and address patterns all match; the chain and token then come from the fixed vocabularies, the amount is a decimal literal, and a missing label is `''` |
| Parser.Parse | src/service.js:34-44 | the format error comes exactly when a required pattern finds nothing; success returns the recognised fields, whose token the chain registers; otherwise the error is `<TOKEN> is not supported on <chain>` |
| Parser.MessagesDiffer | src/service.js:35-43 | the unsupported-token message can never be mistaken for the format error |
| Parser.FormatErrorIff | src/service.js:29-36 | the format error comes exactly when no chain shape, no token shape or no address shape occurs anywhere in the input; the label plays no part |
| Parser.ParsedChainLeftmost | src/service.js:38 | the parsed chain is the name of the leftmost chain shape |
| Parser.ParsedTokenLeftmost | src/service.js:39-40 | the parsed amount and token are the literal and symbol of the leftmost token shape |
| Parser.RecognisedFields | src/service.js:38-50 | the recognised chain, amount, token and address are the captures of the reported chain, amount and address matches, so with `Matchers.FindAddressLeftmost` the address is the text of the leftmost address match |
| Parser.LabelLeftmost | src/service.js:51 | the label is the content of the leftmost quoted run, or `''` when there is none |
| UriEncoding.EncodeUriComponent | src/service.js:90 | the encoded label holds only unreserved characters and `%`, every `%` is followed by two upper-case hex digits, and an all-unreserved label is unchanged |
| UriEncoding.EncodeJoin | src/service.js:90 | encoding works character by character: the encoding of a concatenation is the concatenation of the encodings, so an unreserved character passes through wherever it stands |
| UriEncoding.PercentDecodeEncode | src/service.js:90 | percent-decoding the encoding of a text gives its UTF-8 bytes |
| UriEncoding.Utf8DecodeEncode | src/service.js:90 | UTF-8 decoding inverts UTF-8 encoding |
| UriEncoding.EncodeRoundTrip | src/service.js:90 | decoding the encoded label gives the label back, for every text |
| Payment.GenerateUri | src/service.js:55-97 | a payment is produced exactly when the address passes its chain's check, the registry lists the token and the QR encoder accepts the URI; the errors are `Invalid <chain> address`, `Unsupported chain: <chain>`, the dereference of a missing registry entry, or the encoder's message; on success the parameters and the token entry are returned and the URI starts with `<chain>:` |
| Payment.BaseUriPrefix | src/service.js:65-87 | every template starts with `<chain>:`; for Bitcoin, Cardano, Solana and native coins the address and `?` follow directly |
| Payment.UriTemplates | src/service.js:63-91 | each of the seven templates written out: Bitcoin `bitcoin:<address>?amount=<captured text>`; native ADA `cardano:<address>?amount=<parseInt>`; a Cardano token with the scaled amount and `&policy_id=`; native SOL `solana:<address>?amount=`; an SPL token `solana:<address>?spl-token=<mint>&amount=`; a native EVM coin `<chain>:<address>?value=`; an EVM token `<chain>:<contract>/transfer?address=<address>&uint256=`; each followed by the label parameter |
| Payment.LabelSuffixRoundTrip | src/service.js:89-91 | the URI ends with `&label=` and the encoded label exactly when the label is non-empty; the encoded label holds no `&` and decodes back to the label |
| Payment.NativeAdaSlot | src/service.js:69-71 | the native ADA slot is `NaN` exactly when the amount starts with its point, and is otherwise the integer part of the amount, printed without leading zeros |
| Payment.ScaledSlot | src/service.js:63 | outside Bitcoin and native ADA the slot denotes the amount times `10^decimals` exactly |
| Payment.ValidAddressHasNoQuery | src/service.js:17-22 | an address accepted for Bitcoin, Cardano or Solana holds no `?` |
| Payment.AddressRecoverable | src/service.js:66-77 | for Bitcoin, Cardano and Solana, the text between `<chain>:` and the first `?` of the URI is the address |
| Payment.ProcessInput | src/service.js:109-116 | every error carries the prefix `Processing failed: `; a parse error is passed on with it; a parsed input succeeds exactly when its address passes the check and the QR encoder accepts its URI, and then yields exactly `generateQRCode`'s uri, parameters and token; any `generateQRCode` error is passed on in full as `Processing failed: <message>` |
| Jobs.StartJob | src/server.js:51-71 | a missing or empty input answers 400 and leaves the table as it was; any other input adds exactly one entry, processing, under the new id, and answers with the id |
| Jobs.Finish | src/server.js:104-123 | completion keeps the ids and every other entry; the job becomes completed exactly when the service succeeds, and otherwise failed with a `Processing failed: ` message |
| Jobs.Expire | src/server.js:113-115 | the timer removes exactly the completed job and changes nothing else |
| Jobs.StatusPoll | src/server.js:73-84 | an unknown id answers 404 `Job not found`; a known one answers 200 with its status and carries an error exactly when the job failed |
| Jobs.ResultPoll | src/server.js:86-102 | the answer is 404, 202, 500 or 200 exactly when the id is unknown, processing, failed or completed; 500 carries the error and 200 the result |
| Jobs.Availability | src/server.js:42-49 | the server is available exactly when fewer jobs than the ceiling are in the table, and it reports both numbers |
| Jobs.PollsAgree | src/server.js:73-102 | the result route's 202, 500 and 200 match the status route's `processing`, `failed` and `completed`, with the same error |
| Jobs.FinishedPolls | src/server.js:104-122 | once a job is finished, the result route hands out the service's result, or answers 500 with its error, which the status route reports too |
| Jobs.SubmitIgnoresCapacity | src/server.js:42-71 | a submission past the ceiling is still accepted and the table grows |
| Jobs.StepKeepsFailed | src/server.js:116-122 | no step changes or removes a failed entry |
| Jobs.FailedPersists | src/server.js:116-122 | over any run of steps, a failed entry stays, unchanged |
| Jobs.StepChanges | src/server.js:51-123 | a step removes only completed entries and adds only processing ones |
| Jobs.OnlyCompletedRemoved | src/server.js:104-123 | an entry that disappears during a run, and was not completed at its start, was completed by one of its steps |

## Left out

- QR rendering (`QRCode.toDataURL`, src/service.js:93-97). The image is not modelled, and the result has no `qrCode` field. Whether the encoder accepts a URI, and its message when it does not, is the parameter `Service.qrError`.
- The EIP-55 checksum and the rest of `web3.utils.isAddress`. They are the uninterpreted parameter `Service.isEvmAddress`.
- Payment.ScaledSlot: the JavaScript code multiplies a float by `10^decimals` and prints it. The model computes the exact decimal product instead. Float rounding and the exponent notation of very large or very small numbers are not modelled.
- Decimal.ScaleAmountExact: the same exact-product caveat as `Payment.ScaledSlot`.
- Decimal.ParseIntTruncates: prints the exact integer part. `parseInt` of a number beyond 2^53 loses precision, and that is not modelled.
- Payment.GenerateUri: requires the amount to be a decimal literal, as the parser captures it. `parseFloat` of arbitrary text is float behaviour and is not modelled.
- Lone UTF-16 surrogates. Strings are sequences of Unicode scalar values, so the `URIError` that `encodeURIComponent` raises on a lone surrogate cannot arise. Non-ASCII characters are encoded in full, via UTF-8.
- The contents of `chains.json`. The registry is a parameter. The parser's registry lookup assumes an entry for each of the five chain names (`Registry.HasAllChains`). Without it, the source would dereference `undefined`.
- Express plumbing: middleware, static files, `/`, `/config`, `/input_schema`, and start-up with port retry and SIGTERM handling (src/server.js:14-40 and 125-153).
- Timers, clocks and ids. `crypto.randomUUID` becomes a fresh-id precondition. `startTime` and `completionTime` are dropped. The `setTimeout` deletion is an explicit step, `Jobs.Expire`.
- Jobs.Finish: reads the input from the processing entry. The source passes the input to `processJob` directly, and it is the same text.
- config.js, the unused `this.jobs` map and the `web3` instance of the service (src/service.js:7-8).
- Jobs.Availability: the ceiling is a natural-number parameter. The default of 10 and the coercion of the `MAX_CONCURRENT_JOBS` environment string in `<` are not modelled.
- Jobs.StartJob: the input is a string or missing. Other JSON values of `req.body.input` are not modelled.
- Concurrency between the asynchronous completion and the HTTP routes. Each route and each completion is one atomic transition of the table.
