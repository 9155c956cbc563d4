/** `parseInput(input)`: the four leftmost matches, the case folding of the
    captured chain and symbol, and the registry check of the token. */
module Parser {
  import opened Wrappers
  import opened Chars
  import opened Scan
  import opened Registry
  import opened Decimal
  import opened Matchers

  /** The parameters the parser hands to the URI builder. */
  datatype Intent = Intent(chain: string, token: string, amount: string, address: string, labelText: string)

  const FormatError: string := "Invalid input format. " + "Please specify chain, amount, token, and address."

  function UnsupportedToken(token: string, chain: string): string {
    token + " is not supported on " + chain
  }

  /** A captured word, lower-cased, is the chain name it matched. */
  lemma ChainCapture(s: string, w: Word)
    requires w.k < |ChainNames| && CaseInsensitiveAt(s, w.at, ChainNames[w.k])
    ensures Lower(s[w.at..w.at + |ChainNames[w.k]|]) == ChainNames[w.k]
  {
    var name := ChainNames[w.k];
    var t := s[w.at..w.at + |name|];
    ChainNamesAreLowerWords();
    assert forall k :: 0 <= k < |name| ==> SameIgnoringCase(t[k], name[k]) by {
      forall k | 0 <= k < |name|
        ensures SameIgnoringCase(t[k], name[k])
      {
        assert t[k] == s[w.at + k];
      }
    }
    LowerOfCaseInsensitiveMatch(t, name);
  }

  /** A captured word, upper-cased, is the symbol it matched. */
  lemma SymbolCapture(s: string, w: Word)
    requires w.k < |Symbols| && CaseInsensitiveAt(s, w.at, Symbols[w.k])
    ensures Upper(s[w.at..w.at + |Symbols[w.k]|]) == Symbols[w.k]
  {
    var sym := Symbols[w.k];
    var t := s[w.at..w.at + |sym|];
    SymbolsAreUpperWords();
    assert forall k :: 0 <= k < |sym| ==> SameIgnoringCase(t[k], sym[k]) by {
      forall k | 0 <= k < |sym|
        ensures SameIgnoringCase(t[k], sym[k])
      {
        assert t[k] == s[w.at + k];
      }
    }
    UpperOfCaseInsensitiveMatch(t, sym);
  }

  /** `chainMatch[1].toLowerCase()` */
  function ChainText(s: string, w: Word): (c: string)
    requires w.k < |ChainNames| && CaseInsensitiveAt(s, w.at, ChainNames[w.k])
    ensures c == ChainNames[w.k]
  {
    ChainCapture(s, w);
    Lower(s[w.at..w.at + |ChainNames[w.k]|])
  }

  /** `tokenMatch[2].toUpperCase()` */
  function SymbolText(s: string, w: Word): (t: string)
    requires w.k < |Symbols| && CaseInsensitiveAt(s, w.at, Symbols[w.k])
    ensures t == Symbols[w.k]
  {
    SymbolCapture(s, w);
    Upper(s[w.at..w.at + |Symbols[w.k]|])
  }

  /** `tokenMatch[1]`: digits with at most one point, ending in a digit. */
  function AmountText(s: string, i: nat, h: TokenHit): (a: string)
    requires TokenAt(s, i) == Some(h)
    ensures IsDecimalLiteral(a) && IsDigitsWithPoint(a)
  {
    TokenAtIff(s, i, h.end, h.sym.at, h.sym.k);
    DecimalLiteralIff(s[i..h.end]);
    s[i..h.end]
  }

  /** `labelMatch ? labelMatch[1] : ''` */
  function Label(s: string): (l: string)
    ensures l == "" || (|l| >= 1 && forall k :: 0 <= k < |l| ==> !IsQuote(l[k]))
  {
    match FindLabel(s)
    case None => ""
    case Some((i, n)) =>
      LabelAtIff(s, i, n);
      s[i + 1..i + 1 + n]
  }

  /** The fields the patterns capture, before the registry is consulted;
      `None` when the chain, amount or address pattern finds nothing. */
  function Recognise(s: string): (r: Option<Intent>)
    ensures r.Some? <==> FindChain(s).Some? && FindToken(s).Some? && FindAddress(s).Some?
    ensures r.Some? ==> r.value.chain in ChainNames && r.value.token in Symbols
    ensures r.Some? ==> IsDecimalLiteral(r.value.amount) && IsDigitsWithPoint(r.value.amount)
    ensures r.Some? ==> r.value.labelText == Label(s)
  {
    var c, t, a := FindChain(s), FindToken(s), FindAddress(s);
    if c.None? || t.None? || a.None? then None
    else
      var (_, cw) := c.value;
      var (ti, th) := t.value;
      var (ai, (_, n)) := a.value;
      Some(Intent(ChainText(s, cw), SymbolText(s, th.sym), AmountText(s, ti, th), s[ai..ai + n], Label(s)))
  }

  /** The recognised chain, amount, token and address are the captures
      of the three finders' matches. */
  lemma RecognisedFields(s: string)
    requires Recognise(s).Some?
    ensures var c, t, a := FindChain(s).value, FindToken(s).value, FindAddress(s).value;
      var it := Recognise(s).value;
      && it.chain == ChainNames[c.1.k]
      && it.amount == s[t.0..t.1.end] && it.token == Symbols[t.1.sym.k]
      && it.address == s[a.0..a.0 + a.1.1]
  {
  }

  /** No unsupported-token message reads like the format error. */
  lemma MessagesDiffer(token: string, chain: string)
    requires token in Symbols
    ensures UnsupportedToken(token, chain) != FormatError
  {
    var k :| 0 <= k < |Symbols| && Symbols[k] == token;
    assert FormatError[0] == 'I';
    assert UnsupportedToken(token, chain)[0] == Symbols[k][0] != 'I';
  }

  /** `parseInput`: the format error when a pattern finds nothing, the
      unsupported-token error when the registry lacks the token, and the
      recognised fields otherwise.  The address is not checked against the
      chain here. */
  function Parse(chains: Chains, s: string): (r: Result<Intent>)
    requires HasAllChains(chains)
    ensures r == Err(FormatError) <==> Recognise(s).None?
    ensures r.Ok? ==> Recognise(s) == Some(r.value) && IsRegistered(chains, r.value.chain, r.value.token)
    ensures r.Err? && Recognise(s).Some? ==>
      var it := Recognise(s).value;
      !IsRegistered(chains, it.chain, it.token) && r.message == UnsupportedToken(it.token, it.chain)
  {
    match Recognise(s)
    case None => Err(FormatError)
    case Some(it) =>
      if it.token in chains[it.chain].tokens then Ok(it)
      else
        MessagesDiffer(it.token, it.chain);
        Err(UnsupportedToken(it.token, it.chain))
  }

  /** The format error depends on the chain, amount and address patterns
      only: an input without a quoted label is never rejected for it. */
  lemma FormatErrorIff(chains: Chains, s: string)
    requires HasAllChains(chains)
    ensures Parse(chains, s) == Err(FormatError)
        <==> || (forall i: nat, j: nat, k: nat :: !ChainShape(s, i, j, k))
             || (forall i: nat, e: nat, j: nat, k: nat :: !TokenShape(s, i, e, j, k))
             || (forall i: nat, alt: nat, n: nat :: !AltShape(s, i, alt, n))
  {
    FindChainLeftmost(s);
    FindTokenLeftmost(s);
    FindAddressLeftmost(s);
  }

  /** The parsed chain is the name found by the leftmost match of the
      chain pattern, in lower case. */
  lemma ParsedChainLeftmost(chains: Chains, s: string)
    requires HasAllChains(chains) && Parse(chains, s).Ok?
    ensures exists i: nat, j: nat, k: nat ::
      && ChainShape(s, i, j, k) && Parse(chains, s).value.chain == ChainNames[k]
      && forall i': nat, j': nat, k': nat :: i' < i ==> !ChainShape(s, i', j', k')
  {
    RecognisedFields(s);
    FindChainLeftmost(s);
    var (i, w) := FindChain(s).value;
    assert ChainShape(s, i, w.at, w.k) && Parse(chains, s).value.chain == ChainNames[w.k];
  }

  /** The parsed amount and token are the number text and the symbol, in
      upper case, of the leftmost match of the amount pattern. */
  lemma ParsedTokenLeftmost(chains: Chains, s: string)
    requires HasAllChains(chains) && Parse(chains, s).Ok?
    ensures exists i: nat, e: nat, j: nat, k: nat ::
      && TokenShape(s, i, e, j, k)
      && Parse(chains, s).value.amount == s[i..e] && Parse(chains, s).value.token == Symbols[k]
      && forall i': nat, e': nat, j': nat, k': nat :: i' < i ==> !TokenShape(s, i', e', j', k')
  {
    RecognisedFields(s);
    FindTokenLeftmost(s);
    var (i, h) := FindToken(s).value;
    assert TokenShape(s, i, h.end, h.sym.at, h.sym.k);
    assert Parse(chains, s).value.amount == s[i..h.end];
  }

  /** The label is the content of the leftmost quoted run, or `''` when
      there is none. */
  lemma LabelLeftmost(s: string)
    ensures (Label(s) == "" && forall i: nat, n: nat :: !LabelShape(s, i, n))
      || exists i: nat, n: nat ::
           && LabelShape(s, i, n) && Label(s) == s[i + 1..i + 1 + n]
           && forall i': nat, n': nat :: i' < i ==> !LabelShape(s, i', n')
  {
    FindLabelLeftmost(s);
    if FindLabel(s).Some? {
      var (i, n) := FindLabel(s).value;
      assert LabelShape(s, i, n) && Label(s) == s[i + 1..i + 1 + n];
    }
  }
}
