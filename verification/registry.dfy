/** The chain/token registry the service loads at start-up (`chains.json`,
    whose contents are not part of this model), and the fixed vocabularies
    the parser recognises. */
module Registry {
  import opened Wrappers
  import opened Chars

  /** One token of a chain.  Exactly one of the three references is used,
      depending on the chain family: a Cardano policy id, a Solana mint
      address, or an EVM contract address; a field missing from the JSON
      is `None`. */
  datatype TokenDef = TokenDef(
    decimals: nat,
    isNative: bool,
    policyId: Option<string>,
    address: Option<string>,
    contractAddress: Option<string>)

  datatype ChainDef = ChainDef(tokens: map<string, TokenDef>)

  /** `chains[name].tokens[symbol]` */
  type Chains = map<string, ChainDef>

  /** The chain keywords of the parser, in the order of its alternation;
      the same five names have an address validator. */
  const ChainNames: seq<string> := ["ethereum", "polygon", "solana", "bitcoin", "cardano"]

  /** The token symbols of the parser, in the order of its alternation. */
  const Symbols: seq<string> := ["ETH", "MATIC", "SOL", "BTC", "ADA", "USDT", "USDC", "USDM"]

  /** Every chain the parser can name has an entry; without it the token
      lookup would dereference `undefined`. */
  predicate HasAllChains(chains: Chains) {
    forall k :: 0 <= k < |ChainNames| ==> ChainNames[k] in chains
  }

  predicate IsRegistered(chains: Chains, chain: string, token: string) {
    chain in chains && token in chains[chain].tokens
  }

  lemma ChainNamesAreLowerWords()
    ensures forall k :: 0 <= k < |ChainNames| ==> |ChainNames[k]| >= 1 && AllLowerLetters(ChainNames[k])
  {
  }

  lemma SymbolsAreUpperWords()
    ensures forall k :: 0 <= k < |Symbols| ==> |Symbols[k]| >= 1 && AllUpperLetters(Symbols[k])
  {
  }
}
