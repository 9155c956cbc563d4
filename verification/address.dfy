/** `validateAddress(address, chain)`: a syntactic check per chain.  The
    EVM check (`web3.utils.isAddress`, which includes the EIP-55 checksum)
    is a parameter `isEvm`; the other three are anchored patterns. */
module Address {
  import opened Wrappers
  import opened Chars
  import opened Scan
  import opened Registry

  /** `^(1|3|bc1)[a-zA-HJ-NP-Z0-9]{25,39}$`.  The three prefixes start with
      different characters, so at most one alternative applies. */
  predicate IsBitcoinAddress(a: string) {
    || AnchoredMatch(a, "1", IsBitcoinBody, 25, 39)
    || AnchoredMatch(a, "3", IsBitcoinBody, 25, 39)
    || AnchoredMatch(a, "bc1", IsBitcoinBody, 25, 39)
  }

  /** `^addr1[a-zA-Z0-9]{98}$` */
  predicate IsCardanoAddress(a: string) {
    AnchoredMatch(a, "addr1", IsAlnum, 98, 98)
  }

  /** `^[1-9A-HJ-NP-Za-km-z]{32,44}$` */
  predicate IsSolanaAddress(a: string) {
    AnchoredMatch(a, "", IsBase58, 32, 44)
  }

  /** The verdict for the five chains; any other chain is an error, not a
      rejection. */
  function ValidateAddress(isEvm: string -> bool, address: string, chain: string): (r: Result<bool>)
    ensures r.Ok? <==> chain in ChainNames
    ensures r.Err? ==> r.message == "Unsupported chain: " + chain
    ensures chain == "ethereum" || chain == "polygon" ==> r == Ok(isEvm(address))
  {
    match chain
    case "ethereum" => Ok(isEvm(address))
    case "polygon" => Ok(isEvm(address))
    case "bitcoin" => Ok(IsBitcoinAddress(address))
    case "cardano" => Ok(IsCardanoAddress(address))
    case "solana" => Ok(IsSolanaAddress(address))
    case _ => Err("Unsupported chain: " + chain)
  }

  /** Cardano accepts exactly `addr1` and 98 ASCII letters or digits. */
  lemma CardanoGrammar(isEvm: string -> bool, a: string)
    ensures ValidateAddress(isEvm, a, "cardano") == Ok(true)
        <==> |a| == 103 && a[..5] == "addr1" && forall k :: 5 <= k < |a| ==> IsAlnum(a[k])
  {
    AnchoredMatchIff(a, "addr1", IsAlnum, 98, 98);
  }

  /** Solana accepts exactly 32 to 44 Base58 characters. */
  lemma SolanaGrammar(isEvm: string -> bool, a: string)
    ensures ValidateAddress(isEvm, a, "solana") == Ok(true)
        <==> 32 <= |a| <= 44 && forall k :: 0 <= k < |a| ==> IsBase58(a[k])
  {
    AnchoredMatchIff(a, "", IsBase58, 32, 44);
  }

  /** Bitcoin accepts `1`, `3` or `bc1` followed by 25 to 39 characters of
      its class; nothing else, and no checksum is verified. */
  lemma BitcoinGrammar(isEvm: string -> bool, a: string)
    ensures ValidateAddress(isEvm, a, "bitcoin") == Ok(true)
        <==> || (("1" <= a || "3" <= a) && 26 <= |a| <= 40
                 && forall k :: 1 <= k < |a| ==> IsBitcoinBody(a[k]))
             || ("bc1" <= a && 28 <= |a| <= 42
                 && forall k :: 3 <= k < |a| ==> IsBitcoinBody(a[k]))
  {
    AnchoredMatchIff(a, "1", IsBitcoinBody, 25, 39);
    AnchoredMatchIff(a, "3", IsBitcoinBody, 25, 39);
    AnchoredMatchIff(a, "bc1", IsBitcoinBody, 25, 39);
  }

  /** A Cardano or Solana address one character short of the shortest
      accepted length is rejected, whatever its characters. */
  lemma OneShortRejected(isEvm: string -> bool, a: string)
    ensures |a| == 102 ==> ValidateAddress(isEvm, a, "cardano") == Ok(false)
    ensures |a| == 31 ==> ValidateAddress(isEvm, a, "solana") == Ok(false)
  {
    CardanoGrammar(isEvm, a);
    SolanaGrammar(isEvm, a);
  }

  /** Dropping the last character of a valid Cardano address, or of a
      shortest valid Solana address, makes it invalid. */
  lemma TruncatedRejected(isEvm: string -> bool, a: string)
    ensures ValidateAddress(isEvm, a, "cardano") == Ok(true)
        ==> ValidateAddress(isEvm, a[..|a| - 1], "cardano") == Ok(false)
    ensures ValidateAddress(isEvm, a, "solana") == Ok(true) && |a| == 32
        ==> ValidateAddress(isEvm, a[..|a| - 1], "solana") == Ok(false)
  {
    CardanoGrammar(isEvm, a);
    SolanaGrammar(isEvm, a);
    if |a| > 0 {
      OneShortRejected(isEvm, a[..|a| - 1]);
    }
  }
}
