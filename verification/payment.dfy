/** The URI-building part of `generateQRCode(params)` and the error prefix
    of `processJob(input)`.  The QR image is not modelled: a payment is the
    URI and the parameters with the token's registry entry. */
module Payment {
  import opened Wrappers
  import opened Chars
  import opened Scan
  import opened Registry
  import opened Decimal
  import opened Address
  import opened UriEncoding
  import opened Parser

  /** The service: its registry, `web3.utils.isAddress`, and the outcome
      of `QRCode.toDataURL` on a URI: `None` when it renders the URI,
      `Some(message)` when it rejects it (a URI too long for a QR code at
      error-correction level H). */
  datatype Service = Service(chains: Chains, isEvmAddress: string -> bool, qrError: string -> Option<string>)

  /** The service's result without its `qrCode` image: the URI, and the
      parameters spread together with `tokenInfo`. */
  datatype PaymentRequest = PaymentRequest(uri: string, params: Intent, tokenInfo: TokenDef)

  /** A registry field interpolated into a template literal: a missing
      field prints as `undefined`. */
  function Field(o: Option<string>): string {
    if o.Some? then o.value else "undefined"
  }

  /** What the amount slot of the URI holds: the captured text for
      Bitcoin, `parseInt` of it for native ADA, and otherwise the amount in
      the token's smallest unit. */
  function AmountSlot(chain: string, amount: string, t: TokenDef): string
    requires IsDecimalLiteral(amount)
  {
    if chain == "bitcoin" then amount
    else if chain == "cardano" && t.isNative then ParseIntText(amount)
    else ScaleAmount(amount, t.decimals)
  }

  /** The URI before the label, one template per chain family and kind of
      token, around the amount slot `slot`.  All but the EVM token
      transfer are `<chain>:<address>?` and a query. */
  function BaseUri(chain: string, address: string, slot: string, t: TokenDef): string {
    if chain == "bitcoin" || chain == "cardano" || chain == "solana" || t.isNative then
      chain + ":" + address + "?" + Query(chain, slot, t)
    else
      chain + ":" + Field(t.contractAddress) + "/transfer?address=" + address + "&uint256=" + slot
  }

  /** The query of the templates that put the address after the scheme. */
  function Query(chain: string, slot: string, t: TokenDef): string {
    if chain == "bitcoin" then "amount=" + slot
    else if chain == "cardano" then
      if t.isNative then "amount=" + slot else "amount=" + slot + "&policy_id=" + Field(t.policyId)
    else if chain == "solana" then
      if t.isNative then "amount=" + slot else "spl-token=" + Field(t.address) + "&amount=" + slot
    else "value=" + slot
  }

  /** Every template starts with the chain name and `:`; for Bitcoin,
      Cardano, Solana and native EVM coins the address and a `?` follow. */
  lemma BaseUriPrefix(chain: string, address: string, slot: string, t: TokenDef)
    ensures chain + ":" <= BaseUri(chain, address, slot, t)
    ensures chain == "bitcoin" || chain == "cardano" || chain == "solana" || t.isNative ==>
      chain + ":" + address + "?" <= BaseUri(chain, address, slot, t)
  {
    if chain == "bitcoin" || chain == "cardano" || chain == "solana" || t.isNative {
      AddressFirstPrefix(chain, address, Query(chain, slot, t));
    } else {
      PrefixOfJoin(chain + ":", Field(t.contractAddress) + "/transfer?address=" + address + "&uint256=" + slot);
      assert BaseUri(chain, address, slot, t)
        == (chain + ":") + (Field(t.contractAddress) + "/transfer?address=" + address + "&uint256=" + slot);
    }
  }

  lemma AddressFirstPrefix(chain: string, address: string, q: string)
    ensures chain + ":" <= chain + ":" + address + "?" + q
    ensures chain + ":" + address + "?" <= chain + ":" + address + "?" + q
  {
    PrefixOfJoin(chain + ":" + address + "?", q);
    PrefixOfJoin(chain + ":", address + "?" + q);
    assert chain + ":" + address + "?" + q == (chain + ":") + (address + "?" + q);
  }

  lemma PrefixOfJoin(a: string, b: string)
    ensures a <= a + b
  {
    assert (a + b)[..|a|] == a;
  }

  /** The `&label=` parameter, present when the label is non-empty. */
  function LabelSuffix(labelText: string): string {
    if labelText == "" then "" else "&label=" + EncodeUriComponent(labelText)
  }

  /** The URI for the parameters `p` and the token entry `t`. */
  function PaymentUri(p: Intent, t: TokenDef): string
    requires IsDecimalLiteral(p.amount)
  {
    BaseUri(p.chain, p.address, AmountSlot(p.chain, p.amount, t), t) + LabelSuffix(p.labelText)
  }

  const InvalidAddressPrefix: string := "Invalid "

  /** The errors Node raises when the registry lookup after the address
      gate dereferences `undefined`: a chain without an entry, or a token
      its chain does not list. */
  const UndefinedChainConfig: string := "Cannot read properties of undefined (reading 'tokens')"
  const UndefinedTokenConfig: string := "Cannot read properties of undefined (reading 'decimals')"

  /** `generateQRCode(params)` up to the QR image.  The address gate comes
      first: a rejected address, or a chain without a validator, fails
      before the registry is read or any URI is built.  A URI the QR
      encoder rejects fails with the encoder's message. */
  function GenerateUri(svc: Service, p: Intent): (r: Result<PaymentRequest>)
    requires IsDecimalLiteral(p.amount)
    ensures r.Ok? <==> && ValidateAddress(svc.isEvmAddress, p.address, p.chain) == Ok(true)
                       && IsRegistered(svc.chains, p.chain, p.token)
                       && svc.qrError(PaymentUri(p, svc.chains[p.chain].tokens[p.token])).None?
    ensures p.chain !in ChainNames ==> r == Err("Unsupported chain: " + p.chain)
    ensures ValidateAddress(svc.isEvmAddress, p.address, p.chain) == Ok(false)
      ==> r == Err("Invalid " + p.chain + " address")
    ensures ValidateAddress(svc.isEvmAddress, p.address, p.chain) == Ok(true) && !IsRegistered(svc.chains, p.chain, p.token)
      ==> r == Err(if p.chain in svc.chains then UndefinedTokenConfig else UndefinedChainConfig)
    ensures ValidateAddress(svc.isEvmAddress, p.address, p.chain) == Ok(true) && IsRegistered(svc.chains, p.chain, p.token)
      ==> var q := svc.qrError(PaymentUri(p, svc.chains[p.chain].tokens[p.token]));
          q.Some? ==> r == Err(q.value)
    ensures r.Ok? ==> && r.value.params == p
                      && r.value.tokenInfo == svc.chains[p.chain].tokens[p.token]
                      && p.chain + ":" <= r.value.uri
  {
    match ValidateAddress(svc.isEvmAddress, p.address, p.chain)
    case Err(m) => Err(m)
    case Ok(false) => Err(InvalidAddressPrefix + p.chain + " address")
    case Ok(true) =>
      if p.chain !in svc.chains then Err(UndefinedChainConfig)
      else if p.token !in svc.chains[p.chain].tokens then Err(UndefinedTokenConfig)
      else
        var t := svc.chains[p.chain].tokens[p.token];
        var uri := PaymentUri(p, t);
        match svc.qrError(uri)
        case Some(m) => Err(m)
        case None =>
          BaseUriPrefix(p.chain, p.address, AmountSlot(p.chain, p.amount, t), t);
          PrefixOfJoin(BaseUri(p.chain, p.address, AmountSlot(p.chain, p.amount, t), t), LabelSuffix(p.labelText));
          Ok(PaymentRequest(uri, p, t))
  }

  /** The URI ends with `&label=` and the encoded label exactly when the
      label is non-empty; the encoded text holds no `&`, so it is the last
      parameter, and decoding it gives the label back. */
  lemma LabelSuffixRoundTrip(svc: Service, p: Intent)
    requires IsDecimalLiteral(p.amount)
    requires GenerateUri(svc, p).Ok?
    ensures var u := GenerateUri(svc, p).value.uri;
      var t := svc.chains[p.chain].tokens[p.token];
      var base := BaseUri(p.chain, p.address, AmountSlot(p.chain, p.amount, t), t);
      && (p.labelText == "" ==> u == base)
      && (p.labelText != "" ==>
            var e := EncodeUriComponent(p.labelText);
            && u == base + "&label=" + e
            && (forall k :: 0 <= k < |e| ==> e[k] != '&')
            && DecodeUriComponent(e) == Some(p.labelText))
  {
    var t := svc.chains[p.chain].tokens[p.token];
    GeneratedUri(svc, p);
    LabelSuffixShape(BaseUri(p.chain, p.address, AmountSlot(p.chain, p.amount, t), t), p.labelText);
  }

  lemma LabelSuffixShape(base: string, labelText: string)
    ensures labelText == "" ==> base + LabelSuffix(labelText) == base
    ensures labelText != "" ==>
      var e := EncodeUriComponent(labelText);
      && base + LabelSuffix(labelText) == base + "&label=" + e
      && (forall k :: 0 <= k < |e| ==> e[k] != '&')
      && DecodeUriComponent(e) == Some(labelText)
  {
    if labelText == "" {
      assert base + [] == base;
    } else {
      var e := EncodeUriComponent(labelText);
      assert base + LabelSuffix(labelText) == base + "&label=" + e by {
        assert base + ("&label=" + e) == base + "&label=" + e;
      }
      assert forall k :: 0 <= k < |e| ==> e[k] != '&' by {
        assert forall k :: 0 <= k < |e| ==> IsUnreserved(e[k]) || e[k] == '%';
      }
      assert DecodeUriComponent(e) == Some(labelText) by {
        EncodeRoundTrip(labelText);
      }
    }
  }

  /** The amount slot of native ADA is the integer part of the amount,
      without leading zeros, or `NaN` when the amount starts with its
      point. */
  lemma NativeAdaSlot(amount: string, t: TokenDef)
    requires IsDecimalLiteral(amount) && t.isNative
    ensures var r := AmountSlot("cardano", amount, t);
      && (amount[0] == '.' <==> r == "NaN")
      && (amount[0] != '.' ==>
            var k := Pow10(|FracPart(amount)|);
            && |r| >= 1 && AllDigits(r) && (|r| > 1 ==> r[0] != '0')
            && DigitsValue(r) * k <= Mantissa(amount) < (DigitsValue(r) + 1) * k)
  {
    assert AmountSlot("cardano", amount, t) == ParseIntText(amount);
    ParseIntTruncates(amount);
  }

  /** Outside Bitcoin and native ADA the amount slot holds the amount
      times `10^decimals`, exactly. */
  lemma ScaledSlot(chain: string, amount: string, t: TokenDef)
    requires IsDecimalLiteral(amount)
    requires chain != "bitcoin" && !(chain == "cardano" && t.isNative)
    ensures ScaledBy(AmountSlot(chain, amount, t), amount, t.decimals)
  {
    SlotIsScaled(chain, amount, t);
    ScaleAmountExact(amount, t.decimals);
  }

  lemma SlotIsScaled(chain: string, amount: string, t: TokenDef)
    requires IsDecimalLiteral(amount)
    requires chain != "bitcoin" && !(chain == "cardano" && t.isNative)
    ensures AmountSlot(chain, amount, t) == ScaleAmount(amount, t.decimals)
  {
  }

  /** A validated Bitcoin, Cardano or Solana address holds no `?`. */
  lemma ValidAddressHasNoQuery(isEvm: string -> bool, a: string, chain: string)
    requires chain == "bitcoin" || chain == "cardano" || chain == "solana"
    requires ValidateAddress(isEvm, a, chain) == Ok(true)
    ensures forall k :: 0 <= k < |a| ==> a[k] != '?'
  {
    BitcoinGrammar(isEvm, a);
    CardanoGrammar(isEvm, a);
    SolanaGrammar(isEvm, a);
    if chain == "bitcoin" {
      if "bc1" <= a {
        assert a[0] == 'b' && a[1] == 'c' && a[2] == '1';
      } else {
        assert a[0] == '1' || a[0] == '3';
      }
    } else if chain == "cardano" {
      assert a[..5] == "addr1";
      assert a[0] == 'a' && a[1] == 'd' && a[2] == 'd' && a[3] == 'r' && a[4] == '1';
    }
  }

  /** The text before the first occurrence of `c`. */
  function Before(s: string, c: char): (r: string)
    ensures r <= s
    ensures forall k :: 0 <= k < |r| ==> r[k] != c
    ensures |r| == |s| || s[|r|] == c
  {
    if s == [] || s[0] == c then [] else [s[0]] + Before(s[1..], c)
  }

  /** A text that starts with `a` and then `c`, where `a` holds no `c`,
      has `a` before its first `c`. */
  lemma {:induction false} BeforePrefix(a: string, c: char, s: string)
    requires a + [c] <= s
    requires forall k :: 0 <= k < |a| ==> a[k] != c
    ensures Before(s, c) == a
    decreases |a|
  {
    if a != [] {
      assert a[1..] + [c] <= s[1..] by {
        assert forall k :: 0 <= k < |a| ==> s[1..][k] == s[k + 1];
        assert (a + [c])[1..] == a[1..] + [c];
      }
      BeforePrefix(a[1..], c, s[1..]);
      assert [s[0]] + a[1..] == a;
    } else {
      assert s[0] == (a + [c])[0] == c;
    }
  }

  /** The generated URI is the template followed by the label suffix. */
  lemma GeneratedUri(svc: Service, p: Intent)
    requires IsDecimalLiteral(p.amount)
    requires GenerateUri(svc, p).Ok?
    ensures var t := svc.chains[p.chain].tokens[p.token];
      GenerateUri(svc, p).value.uri
      == BaseUri(p.chain, p.address, AmountSlot(p.chain, p.amount, t), t) + LabelSuffix(p.labelText)
  {
  }

  /** The seven URI templates, written out: which amount goes in the
      slot, and the query around it, for each chain and kind of token. */
  lemma UriTemplates(svc: Service, p: Intent)
    requires IsDecimalLiteral(p.amount)
    requires GenerateUri(svc, p).Ok?
    ensures p.chain in ChainNames
    ensures var u := GenerateUri(svc, p).value.uri;
      var t := svc.chains[p.chain].tokens[p.token];
      var a, l := p.address, LabelSuffix(p.labelText);
      var n := ScaleAmount(p.amount, t.decimals);
      && (p.chain == "bitcoin" ==> u == "bitcoin:" + a + "?amount=" + p.amount + l)
      && (p.chain == "cardano" && t.isNative ==> u == "cardano:" + a + "?amount=" + ParseIntText(p.amount) + l)
      && (p.chain == "cardano" && !t.isNative ==>
            u == "cardano:" + a + "?amount=" + n + "&policy_id=" + Field(t.policyId) + l)
      && (p.chain == "solana" && t.isNative ==> u == "solana:" + a + "?amount=" + n + l)
      && (p.chain == "solana" && !t.isNative ==>
            u == "solana:" + a + "?spl-token=" + Field(t.address) + "&amount=" + n + l)
      && ((p.chain == "ethereum" || p.chain == "polygon") && t.isNative ==>
            u == p.chain + ":" + a + "?value=" + n + l)
      && ((p.chain == "ethereum" || p.chain == "polygon") && !t.isNative ==>
            u == p.chain + ":" + Field(t.contractAddress) + "/transfer?address=" + a + "&uint256=" + n + l)
  {
    var t := svc.chains[p.chain].tokens[p.token];
    GeneratedUri(svc, p);
    TemplateText(p.chain, p.address, AmountSlot(p.chain, p.amount, t), t, LabelSuffix(p.labelText));
  }

  /** `BaseUri` followed by `l`, flattened into one concatenation per
      template. */
  lemma TemplateText(chain: string, a: string, slot: string, t: TokenDef, l: string)
    ensures var u := BaseUri(chain, a, slot, t) + l;
      && (chain == "bitcoin" ==> u == "bitcoin:" + a + "?amount=" + slot + l)
      && (chain == "cardano" && t.isNative ==> u == "cardano:" + a + "?amount=" + slot + l)
      && (chain == "cardano" && !t.isNative ==> u == "cardano:" + a + "?amount=" + slot + "&policy_id=" + Field(t.policyId) + l)
      && (chain == "solana" && t.isNative ==> u == "solana:" + a + "?amount=" + slot + l)
      && (chain == "solana" && !t.isNative ==> u == "solana:" + a + "?spl-token=" + Field(t.address) + "&amount=" + slot + l)
      && (chain != "bitcoin" && chain != "cardano" && chain != "solana" && t.isNative ==> u == chain + ":" + a + "?value=" + slot + l)
      && (chain != "bitcoin" && chain != "cardano" && chain != "solana" && !t.isNative ==> u == chain + ":" + Field(t.contractAddress) + "/transfer?address=" + a + "&uint256=" + slot + l)
  {
    if chain == "bitcoin" {
      BitcoinTemplate(chain, a, slot, t, l);
    }
    if chain == "cardano" && t.isNative {
      AdaTemplate(chain, a, slot, t, l);
    }
    if chain == "cardano" && !t.isNative {
      CardanoTokenTemplate(chain, a, slot, t, l);
    }
    if chain == "solana" && t.isNative {
      SolTemplate(chain, a, slot, t, l);
    }
    if chain == "solana" && !t.isNative {
      SplTokenTemplate(chain, a, slot, t, l);
    }
    if chain != "bitcoin" && chain != "cardano" && chain != "solana" && t.isNative {
      EvmCoinTemplate(chain, a, slot, t, l);
    }
    if chain != "bitcoin" && chain != "cardano" && chain != "solana" && !t.isNative {
      EvmTokenTemplate(chain, a, slot, t, l);
    }
  }

  lemma BitcoinTemplate(chain: string, a: string, slot: string, t: TokenDef, l: string)
    requires chain == "bitcoin"
    ensures var u := BaseUri(chain, a, slot, t) + l;
      u == "bitcoin:" + a + "?amount=" + slot + l
  {
  }

  lemma AdaTemplate(chain: string, a: string, slot: string, t: TokenDef, l: string)
    requires chain == "cardano" && t.isNative
    ensures var u := BaseUri(chain, a, slot, t) + l;
      u == "cardano:" + a + "?amount=" + slot + l
  {
  }

  lemma CardanoTokenTemplate(chain: string, a: string, slot: string, t: TokenDef, l: string)
    requires chain == "cardano" && !t.isNative
    ensures var u := BaseUri(chain, a, slot, t) + l;
      u == "cardano:" + a + "?amount=" + slot + "&policy_id=" + Field(t.policyId) + l
  {
  }

  lemma SolTemplate(chain: string, a: string, slot: string, t: TokenDef, l: string)
    requires chain == "solana" && t.isNative
    ensures var u := BaseUri(chain, a, slot, t) + l;
      u == "solana:" + a + "?amount=" + slot + l
  {
  }

  lemma SplTokenTemplate(chain: string, a: string, slot: string, t: TokenDef, l: string)
    requires chain == "solana" && !t.isNative
    ensures var u := BaseUri(chain, a, slot, t) + l;
      u == "solana:" + a + "?spl-token=" + Field(t.address) + "&amount=" + slot + l
  {
  }

  lemma EvmCoinTemplate(chain: string, a: string, slot: string, t: TokenDef, l: string)
    requires chain != "bitcoin" && chain != "cardano" && chain != "solana" && t.isNative
    ensures var u := BaseUri(chain, a, slot, t) + l;
      u == chain + ":" + a + "?value=" + slot + l
  {
  }

  lemma EvmTokenTemplate(chain: string, a: string, slot: string, t: TokenDef, l: string)
    requires chain != "bitcoin" && chain != "cardano" && chain != "solana" && !t.isNative
    ensures var u := BaseUri(chain, a, slot, t) + l;
      u == chain + ":" + Field(t.contractAddress) + "/transfer?address=" + a + "&uint256=" + slot + l
  {
  }

  /** For Bitcoin, Cardano and Solana the address is recovered from the
      URI as the text between the scheme's `:` and the first `?`. */
  lemma AddressRecoverable(svc: Service, p: Intent)
    requires IsDecimalLiteral(p.amount)
    requires p.chain == "bitcoin" || p.chain == "cardano" || p.chain == "solana"
    requires GenerateUri(svc, p).Ok?
    ensures var u := GenerateUri(svc, p).value.uri;
      Before(u[|p.chain| + 1..], '?') == p.address
  {
    ValidAddressHasNoQuery(svc.isEvmAddress, p.address, p.chain);
    GeneratedUri(svc, p);
    NativeBaseUri(p.chain, p.address, p.amount, svc.chains[p.chain].tokens[p.token], p.labelText);
  }

  /** The address-first layout of the Bitcoin, Cardano and Solana URIs. */
  lemma NativeBaseUri(chain: string, address: string, amount: string, t: TokenDef, labelText: string)
    requires IsDecimalLiteral(amount)
    requires chain == "bitcoin" || chain == "cardano" || chain == "solana"
    requires forall k :: 0 <= k < |address| ==> address[k] != '?'
    ensures Before((BaseUri(chain, address, AmountSlot(chain, amount, t), t) + LabelSuffix(labelText))[|chain| + 1..], '?')
      == address
  {
    BaseUriPrefix(chain, address, AmountSlot(chain, amount, t), t);
    RecoverAfterScheme(chain, address, BaseUri(chain, address, AmountSlot(chain, amount, t), t), LabelSuffix(labelText));
  }

  /** In a text that starts with `chain:address?`, where the address holds
      no `?`, the address sits between the `:` and the first `?`. */
  lemma RecoverAfterScheme(chain: string, address: string, base: string, suffix: string)
    requires chain + ":" + address + "?" <= base
    requires forall k :: 0 <= k < |address| ==> address[k] != '?'
    ensures Before((base + suffix)[|chain| + 1..], '?') == address
  {
    var u := base + suffix;
    var head := chain + ":" + address + "?";
    assert address + ['?'] <= u[|chain| + 1..] by {
      forall k | 0 <= k <= |address|
        ensures u[|chain| + 1..][k] == (address + ['?'])[k]
      {
        assert u[|chain| + 1 + k] == head[|chain| + 1 + k];
      }
    }
    BeforePrefix(address, '?', u[|chain| + 1..]);
  }

  const ProcessingFailed: string := "Processing failed: "

  /** `service.processJob(input)`: parse, then build and render; any error
      message is prefixed with `Processing failed: `. */
  function ProcessInput(svc: Service, input: string): (r: Result<PaymentRequest>)
    requires HasAllChains(svc.chains)
    ensures r.Err? ==> ProcessingFailed <= r.message
    ensures Parse(svc.chains, input).Err? ==> r == Err(ProcessingFailed + Parse(svc.chains, input).message)
    ensures Parse(svc.chains, input).Ok? ==>
      var p := Parse(svc.chains, input).value;
      && (r.Ok? <==> && ValidateAddress(svc.isEvmAddress, p.address, p.chain) == Ok(true)
                     && svc.qrError(PaymentUri(p, svc.chains[p.chain].tokens[p.token])).None?)
      && (r.Ok? ==> r.value.params == p)
      && (GenerateUri(svc, p).Ok? ==> r == GenerateUri(svc, p))
      && (GenerateUri(svc, p).Err? ==> r == Err(ProcessingFailed + GenerateUri(svc, p).message))
  {
    match Parse(svc.chains, input)
    case Err(m) => Err(ProcessingFailed + m)
    case Ok(p) =>
      match GenerateUri(svc, p)
      case Err(m) => Err(ProcessingFailed + m)
      case Ok(pay) => Ok(pay)
  }
}
