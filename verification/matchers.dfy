/** The four regular expressions of the input parser, each as a matcher at
    one start position (`...At`) reproducing the backtracking order of the
    pattern, searched leftmost-first with `Leftmost` (`Find...`).  Every
    matcher has a declarative counterpart (`...Shape`) saying which texts
    the pattern describes, and a lemma that the two agree. */
module Matchers {
  import opened Wrappers
  import opened Chars
  import opened Scan
  import opened Registry
  import opened Decimal

  /** Alternative `k` of a word list, found at position `at`. */
  datatype Word = Word(at: nat, k: nat)

  lemma ChainNamesExclusive()
    ensures Exclusive(ChainNames)
  {
    forall j, k | 0 <= j < |ChainNames| && 0 <= k < |ChainNames| && j != k
      ensures Differ(ChainNames[j], ChainNames[k])
    {
      assert UpperChar(ChainNames[j][0]) != UpperChar(ChainNames[k][0]);
    }
  }

  lemma SymbolsExclusive()
    ensures Exclusive(Symbols)
  {
    forall j, k | 0 <= j < |Symbols| && 0 <= k < |Symbols| && j != k
      ensures Differ(Symbols[j], Symbols[k])
    {
      if UpperChar(Symbols[j][0]) != UpperChar(Symbols[k][0]) {
        assert Differ(Symbols[j], Symbols[k]);
      } else {
        assert UpperChar(Symbols[j][3]) != UpperChar(Symbols[k][3]);
      }
    }
  }

  /** Under the `i` flag at most one symbol matches at a place. */
  lemma SymbolAtUnique(s: string, j: nat, k: nat)
    requires k < |Symbols| && CaseInsensitiveAt(s, j, Symbols[k])
    ensures FirstWordAt(s, j, Symbols) == Some(k)
  {
    SymbolsExclusive();
    FirstWordAtUnique(s, j, Symbols, k);
  }

  /** Under the `i` flag at most one chain name matches at a place. */
  lemma ChainNameAtUnique(s: string, j: nat, k: nat)
    requires k < |ChainNames| && CaseInsensitiveAt(s, j, ChainNames[k])
    ensures FirstWordAt(s, j, ChainNames) == Some(k)
  {
    ChainNamesExclusive();
    FirstWordAtUnique(s, j, ChainNames, k);
  }

  /** A word of one of the two lists found at `j` starts with a letter. */
  lemma WordStartsWithLetter(s: string, j: nat, w: string)
    requires |w| >= 1 && (AllLowerLetters(w) || AllUpperLetters(w))
    requires CaseInsensitiveAt(s, j, w)
    ensures j < |s| && IsLetter(s[j])
  {
    assert SameIgnoringCase(s[j + 0], w[0]);
    LetterIgnoringCase(s[j], w[0]);
  }

  // ---------------------------------------------------------------------
  // Chain: /on\s+(ethereum|polygon|solana|bitcoin|cardano)/i

  /** The chain pattern at `i`.  `\s+` takes the maximal run of white
      space: backing off would leave a space where a chain name must
      start. */
  function ChainAt(s: string, i: nat): (r: Option<Word>)
    ensures r.Some? ==> r.value.k < |ChainNames| && CaseInsensitiveAt(s, r.value.at, ChainNames[r.value.k])
  {
    if !CaseInsensitiveAt(s, i, "on") then None
    else
      var w := Run(s, i + 2, IsSpace);
      if w == 0 then None
      else
        match FirstWordAt(s, i + 2 + w, ChainNames)
        case None => None
        case Some(k) => Some(Word(i + 2 + w, k))
  }

  /** `on`, one or more white-space characters up to `j`, and chain name
      `k` at `j`, all ignoring case. */
  predicate ChainShape(s: string, i: nat, j: nat, k: nat) {
    && CaseInsensitiveAt(s, i, "on") && i + 2 < j <= |s|
    && (forall p :: i + 2 <= p < j ==> IsSpace(s[p]))
    && k < |ChainNames| && CaseInsensitiveAt(s, j, ChainNames[k])
  }

  lemma ChainAtIff(s: string, i: nat, j: nat, k: nat)
    ensures ChainAt(s, i) == Some(Word(j, k)) <==> ChainShape(s, i, j, k)
  {
    if ChainShape(s, i, j, k) {
      ChainNamesAreLowerWords();
      WordStartsWithLetter(s, j, ChainNames[k]);
      RunUnique(s, i + 2, IsSpace, j - i - 2);
      ChainNameAtUnique(s, j, k);
    }
  }

  function FindChain(s: string): Option<(nat, Word)> {
    Leftmost(s, ChainAt)
  }

  /** `input.match` of the chain pattern is the leftmost `ChainShape`. */
  lemma FindChainLeftmost(s: string)
    ensures FindChain(s).None? <==> forall i: nat, j: nat, k: nat :: !ChainShape(s, i, j, k)
    ensures FindChain(s).Some? ==>
      var (i, w) := FindChain(s).value;
      && ChainShape(s, i, w.at, w.k)
      && forall i': nat, j: nat, k: nat :: i' < i ==> !ChainShape(s, i', j, k)
  {
    forall i: nat, j: nat, k: nat | ChainShape(s, i, j, k)
      ensures ChainAt(s, i) == Some(Word(j, k)) && i <= |s|
    {
      ChainAtIff(s, i, j, k);
    }
    if FindChain(s).Some? {
      var (i, w) := FindChain(s).value;
      ChainAtIff(s, i, w.at, w.k);
    }
  }

  // ---------------------------------------------------------------------
  // Amount and token: /(\d*\.?\d+)\s*(ETH|MATIC|SOL|BTC|ADA|USDT|USDC|USDM)/i

  /** Where `\d*\.?\d+` ends when the pattern continues with a token symbol.
      The digits are taken greedily; a `.` is taken when a digit follows
      it.  Every backtracking alternative ends before a digit or a `.`,
      where no symbol can start, so only this end can lead to a match. */
  function NumberEnd(s: string, i: nat): (e: Option<nat>)
    requires i <= |s|
    ensures e.Some? ==> i < e.value <= |s|
  {
    var a := Run(s, i, IsDigit);
    if i + a + 1 < |s| && s[i + a] == '.' && IsDigit(s[i + a + 1]) then
      Some(i + a + 1 + Run(s, i + a + 1, IsDigit))
    else if a >= 1 then Some(i + a)
    else None
  }

  /** A match of the amount pattern: the amount is `s[at..end]` and the
      symbol is `sym`. */
  datatype TokenHit = TokenHit(end: nat, sym: Word)

  function TokenAt(s: string, i: nat): (r: Option<TokenHit>)
    ensures r.Some? ==> i < r.value.end <= r.value.sym.at <= |s|
    ensures r.Some? ==> r.value.sym.k < |Symbols| && CaseInsensitiveAt(s, r.value.sym.at, Symbols[r.value.sym.k])
  {
    if i > |s| then None
    else
      match NumberEnd(s, i)
      case None => None
      case Some(e) =>
        var j := e + Run(s, e, IsSpace);
        match FirstWordAt(s, j, Symbols)
        case None => None
        case Some(k) => Some(TokenHit(e, Word(j, k)))
  }

  /** A decimal literal `s[i..e]`, white space up to `j`, and symbol `k` at
      `j` ignoring case. */
  predicate TokenShape(s: string, i: nat, e: nat, j: nat, k: nat) {
    && i < e <= j <= |s| && IsDecimalLiteral(s[i..e])
    && (forall p :: e <= p < j ==> IsSpace(s[p]))
    && k < |Symbols| && CaseInsensitiveAt(s, j, Symbols[k])
  }

  /** The number found by `NumberEnd` is a decimal literal. */
  lemma NumberEndLiteral(s: string, i: nat)
    requires i <= |s| && NumberEnd(s, i).Some?
    ensures IsDecimalLiteral(s[i..NumberEnd(s, i).value])
  {
    var a := Run(s, i, IsDigit);
    if i + a + 1 < |s| && s[i + a] == '.' && IsDigit(s[i + a + 1]) {
      NumberLiteralPointed(s, i, a, NumberEnd(s, i).value);
    } else {
      NumberLiteralWhole(s, i, NumberEnd(s, i).value);
    }
  }

  lemma NumberLiteralWhole(s: string, i: nat, e: nat)
    requires i < e <= |s| && Run(s, i, IsDigit) == e - i
    ensures IsDecimalLiteral(s[i..e])
  {
    SliceRun(s, i, e, i, e - i);
  }

  lemma NumberLiteralPointed(s: string, i: nat, a: nat, e: nat)
    requires i + a + 1 < e <= |s| && s[i + a] == '.'
    requires Run(s, i, IsDigit) == a && Run(s, i + a + 1, IsDigit) == e - i - a - 1
    ensures IsDecimalLiteral(s[i..e])
  {
    SliceRun(s, i, e, i, a);
    SliceRun(s, i, e, i + a + 1, e - i - a - 1);
    assert s[i..e][a] == '.';
  }

  /** A run of digits of `s` that ends at or before the end of the slice
      `s[i..e]`, where it stops, is also a run of the slice. */
  lemma SliceRun(s: string, i: nat, e: nat, j: nat, n: nat)
    requires i <= j && j + n <= e <= |s|
    requires Run(s, j, IsDigit) == n
    requires j + n == e || !IsDigit(s[j + n])
    ensures Run(s[i..e], j - i, IsDigit) == n
  {
    var t := s[i..e];
    forall k | j - i <= k < j - i + n
      ensures IsDigit(t[k])
    {
      assert t[k] == s[i + k];
    }
    if j + n < e {
      assert t[j - i + n] == s[j + n];
    }
    RunUnique(t, j - i, IsDigit, n);
  }

  /** A decimal literal followed by a character that is neither a digit
      nor a `.` is where `NumberEnd` stops. */
  lemma NumberEndOfLiteral(s: string, i: nat, e: nat)
    requires i < e < |s| && IsDecimalLiteral(s[i..e])
    requires !IsDigit(s[e]) && s[e] != '.'
    ensures NumberEnd(s, i) == Some(e)
  {
    var t := s[i..e];
    var a := Run(t, 0, IsDigit);
    if a < |t| {
      assert s[i + a] == t[a];
      NumberEndPointed(s, i, e, a);
    } else {
      RunOfSlice(s, i, e, i, IsDigit);
    }
  }

  lemma NumberEndPointed(s: string, i: nat, e: nat, a: nat)
    requires i + a + 1 < e < |s| && s[i + a] == '.' && !IsDigit(s[e])
    requires Run(s[i..e], 0, IsDigit) == a
    requires a + 1 + Run(s[i..e], a + 1, IsDigit) == e - i
    ensures NumberEnd(s, i) == Some(e)
  {
    RunOfSlice(s, i, e, i, IsDigit);
    RunOfSlice(s, i, e, i + a + 1, IsDigit);
    assert IsDigit(s[i + a + 1]) by {
      assert s[i + a + 1] == s[i..e][a + 1];
    }
  }

  lemma TokenAtIff(s: string, i: nat, e: nat, j: nat, k: nat)
    ensures TokenAt(s, i) == Some(TokenHit(e, Word(j, k))) <==> TokenShape(s, i, e, j, k)
  {
    if TokenAt(s, i) == Some(TokenHit(e, Word(j, k))) {
      NumberEndLiteral(s, i);
    }
    if TokenShape(s, i, e, j, k) {
      TokenAtComplete(s, i, e, j, k);
    }
  }

  lemma TokenAtComplete(s: string, i: nat, e: nat, j: nat, k: nat)
    requires TokenShape(s, i, e, j, k)
    ensures TokenAt(s, i) == Some(TokenHit(e, Word(j, k)))
  {
    SymbolsAreUpperWords();
    WordStartsWithLetter(s, j, Symbols[k]);
    assert e < |s| && !IsDigit(s[e]) && s[e] != '.' by {
      assert IsSpace(s[e]) || IsLetter(s[e]);
    }
    NumberEndOfLiteral(s, i, e);
    RunUnique(s, e, IsSpace, j - e);
    SymbolAtUnique(s, j, k);
    TokenAtSteps(s, i, e, j, k);
  }

  /** `TokenAt` from its three steps: the number, the white space and the
      symbol. */
  lemma TokenAtSteps(s: string, i: nat, e: nat, j: nat, k: nat)
    requires i < e <= j <= |s| && NumberEnd(s, i) == Some(e)
    requires Run(s, e, IsSpace) == j - e && FirstWordAt(s, j, Symbols) == Some(k)
    ensures TokenAt(s, i) == Some(TokenHit(e, Word(j, k)))
  {
    assert e + Run(s, e, IsSpace) == j;
  }

  function FindToken(s: string): Option<(nat, TokenHit)> {
    Leftmost(s, TokenAt)
  }

  /** `input.match` of the amount pattern is the leftmost `TokenShape`. */
  lemma FindTokenLeftmost(s: string)
    ensures FindToken(s).None? <==> forall i: nat, e: nat, j: nat, k: nat :: !TokenShape(s, i, e, j, k)
    ensures FindToken(s).Some? ==>
      var (i, h) := FindToken(s).value;
      && TokenShape(s, i, h.end, h.sym.at, h.sym.k)
      && forall i': nat, e: nat, j: nat, k: nat :: i' < i ==> !TokenShape(s, i', e, j, k)
  {
    forall i: nat, e: nat, j: nat, k: nat | TokenShape(s, i, e, j, k)
      ensures TokenAt(s, i) == Some(TokenHit(e, Word(j, k))) && i <= |s|
    {
      TokenAtIff(s, i, e, j, k);
    }
    if FindToken(s).Some? {
      var (i, h) := FindToken(s).value;
      TokenAtIff(s, i, h.end, h.sym.at, h.sym.k);
    }
  }

  // ---------------------------------------------------------------------
  // Address: /(addr1[a-zA-Z0-9]{98}|[13][a-km-zA-HJ-NP-Z1-9]{25,34}|
  //           bc1[ac-hj-np-z02-9]{39}|0x[a-fA-F0-9]{40}|[1-9A-HJ-NP-Za-km-z]{32,44})/

  /** The number of the alternatives. */
  const AddressAlternatives: nat := 5

  /** `s[i..]` starts with the literal `lit`. */
  predicate LiteralAt(s: string, i: nat, lit: string) {
    i + |lit| <= |s| && s[i..i + |lit|] == lit
  }

  function Shift(m: Option<nat>, k: nat): Option<nat> {
    if m.Some? then Some(k + m.value) else None
  }

  /** The length alternative `alt` of the address pattern matches at `i`.
      Nothing follows the group, so every repetition takes as many
      characters as it may. */
  function AddressAlt(s: string, i: nat, alt: nat): (r: Option<nat>)
    ensures r.Some? ==> i + r.value <= |s|
  {
    if alt == 0 && LiteralAt(s, i, "addr1") then
      Shift(Greedy(s, i + 5, IsAlnum, 98, 98), 5)
    else if alt == 1 && i < |s| && (s[i] == '1' || s[i] == '3') then
      Shift(Greedy(s, i + 1, IsBase58, 25, 34), 1)
    else if alt == 2 && LiteralAt(s, i, "bc1") then
      Shift(Greedy(s, i + 3, IsBech32, 39, 39), 3)
    else if alt == 3 && LiteralAt(s, i, "0x") then
      Shift(Greedy(s, i + 2, IsHex, 40, 40), 2)
    else if alt == 4 && i <= |s| then
      Greedy(s, i, IsBase58, 32, 44)
    else None
  }

  /** `s[i..i+n]` is what alternative `alt` describes. */
  predicate AltShape(s: string, i: nat, alt: nat, n: nat) {
    || (alt == 0 && LiteralAt(s, i, "addr1") && n >= 5
        && GreedyShape(s, i + 5, IsAlnum, 98, 98, n - 5))
    || (alt == 1 && i < |s| && (s[i] == '1' || s[i] == '3') && n >= 1
        && GreedyShape(s, i + 1, IsBase58, 25, 34, n - 1))
    || (alt == 2 && LiteralAt(s, i, "bc1") && n >= 3
        && GreedyShape(s, i + 3, IsBech32, 39, 39, n - 3))
    || (alt == 3 && LiteralAt(s, i, "0x") && n >= 2
        && GreedyShape(s, i + 2, IsHex, 40, 40, n - 2))
    || (alt == 4 && i <= |s| && GreedyShape(s, i, IsBase58, 32, 44, n))
  }

  lemma AddressAltIff(s: string, i: nat, alt: nat, n: nat)
    ensures AddressAlt(s, i, alt) == Some(n) <==> AltShape(s, i, alt, n)
  {
    if alt == 0 && LiteralAt(s, i, "addr1") {
      if n >= 5 {
        GreedyIff(s, i + 5, IsAlnum, 98, 98, n - 5);
      }
    } else if alt == 1 && i < |s| && (s[i] == '1' || s[i] == '3') {
      if n >= 1 {
        GreedyIff(s, i + 1, IsBase58, 25, 34, n - 1);
      }
    } else if alt == 2 && LiteralAt(s, i, "bc1") {
      if n >= 3 {
        GreedyIff(s, i + 3, IsBech32, 39, 39, n - 3);
      }
    } else if alt == 3 && LiteralAt(s, i, "0x") {
      if n >= 2 {
        GreedyIff(s, i + 2, IsHex, 40, 40, n - 2);
      }
    } else if alt == 4 && i <= |s| {
      GreedyIff(s, i, IsBase58, 32, 44, n);
    }
  }

  /** The address pattern at `i`: the first alternative that matches, in
      source order, with the length it matches. */
  function AddressAt(s: string, i: nat): (r: Option<(nat, nat)>)
    ensures r.Some? ==> AltShape(s, i, r.value.0, r.value.1)
    ensures r.Some? ==> forall alt: nat, n: nat :: alt < r.value.0 ==> !AltShape(s, i, alt, n)
    ensures r.None? ==> forall alt: nat, n: nat :: !AltShape(s, i, alt, n)
  {
    var f := (alt: nat) => AddressAlt(s, i, alt);
    assert forall alt: nat :: f(alt) == AddressAlt(s, i, alt);
    var r := First(f, 0, AddressAlternatives);
    forall alt: nat, n: nat | AltShape(s, i, alt, n)
      ensures AddressAlt(s, i, alt) == Some(n)
    {
      AddressAltIff(s, i, alt, n);
    }
    if r.Some? then
      AddressAltIff(s, i, r.value.0, r.value.1);
      r
    else r
  }

  function FindAddress(s: string): Option<(nat, (nat, nat))> {
    Leftmost(s, AddressAt)
  }

  /** Alternative `alt` matches `n` characters at `i`, no earlier
      alternative matches at `i`, and no alternative matches anywhere
      before `i`: the match `input.match` reports. */
  ghost predicate LeftmostAddress(s: string, i: nat, alt: nat, n: nat) {
    && i + n <= |s| && AltShape(s, i, alt, n)
    && (forall alt': nat, n': nat :: alt' < alt ==> !AltShape(s, i, alt', n'))
    && forall i': nat, alt': nat, n': nat :: i' < i ==> !AltShape(s, i', alt', n')
  }

  /** `input.match` of the address pattern: the leftmost position where
      some alternative matches, and there the first alternative in source
      order. */
  lemma FindAddressLeftmost(s: string)
    ensures FindAddress(s).None? <==> forall i: nat, alt: nat, n: nat :: !AltShape(s, i, alt, n)
    ensures FindAddress(s).Some? ==>
      var m := FindAddress(s).value;
      LeftmostAddress(s, m.0, m.1.0, m.1.1)
  {
    forall i: nat, alt: nat, n: nat | AltShape(s, i, alt, n)
      ensures AddressAt(s, i).Some? && i <= |s|
    {
    }
  }

  /** There is only one such match. */
  lemma LeftmostAddressUnique(s: string, i: nat, alt: nat, n: nat, i': nat, alt': nat, n': nat)
    requires LeftmostAddress(s, i, alt, n) && LeftmostAddress(s, i', alt', n')
    ensures i == i' && alt == alt' && n == n'
  {
    assert i == i';
    assert alt == alt';
    AddressAltIff(s, i, alt, n);
    AddressAltIff(s, i, alt, n');
  }

  /** Text that starts with `1` or `3` followed by at least 34 Base58
      characters is captured as its first 35 characters, however long the
      Base58 run goes on: the second alternative is tried before the
      Solana one and stops at its upper bound. */
  lemma LeadingOneOrThreeCapped(s: string)
    requires |s| >= 35 && (s[0] == '1' || s[0] == '3')
    requires forall q :: 1 <= q < 35 ==> IsBase58(s[q])
    ensures FindAddress(s) == Some((0, (1, 35)))
  {
    assert AltShape(s, 0, 1, 35);
    FindAddressLeftmost(s);
    var (i, (alt, n)) := FindAddress(s).value;
    assert i == 0;
    assert alt != 0;
    AddressAltIff(s, 0, 1, n);
    AddressAltIff(s, 0, 1, 35);
  }

  // ---------------------------------------------------------------------
  // Label: /['"]([^'"]+)['"]/

  /** The label pattern at `i`: a quote, the maximal run of non-quotes
      (backing off would put a non-quote where the closing quote must be),
      and a quote of either kind.  Returns the length of the content. */
  function LabelAt(s: string, i: nat): (r: Option<nat>)
    ensures r.Some? ==> i + r.value + 2 <= |s|
  {
    if i < |s| && IsQuote(s[i]) then
      var n := Run(s, i + 1, IsNotQuote);
      if n >= 1 && i + 1 + n < |s| then Some(n) else None
    else None
  }

  /** A quote at `i`, `n >= 1` non-quotes, and a quote after them. */
  predicate LabelShape(s: string, i: nat, n: nat) {
    && n >= 1 && i + n + 2 <= |s|
    && IsQuote(s[i]) && IsQuote(s[i + n + 1])
    && forall p :: i + 1 <= p < i + n + 1 ==> !IsQuote(s[p])
  }

  lemma LabelAtIff(s: string, i: nat, n: nat)
    ensures LabelAt(s, i) == Some(n) <==> LabelShape(s, i, n)
  {
    if LabelShape(s, i, n) {
      RunUnique(s, i + 1, IsNotQuote, n);
    }
  }

  function FindLabel(s: string): Option<(nat, nat)> {
    Leftmost(s, LabelAt)
  }

  /** `input.match` of the label pattern is the leftmost `LabelShape`. */
  lemma FindLabelLeftmost(s: string)
    ensures FindLabel(s).None? <==> forall i: nat, n: nat :: !LabelShape(s, i, n)
    ensures FindLabel(s).Some? ==>
      var (i, n) := FindLabel(s).value;
      && LabelShape(s, i, n)
      && forall i': nat, n': nat :: i' < i ==> !LabelShape(s, i', n')
  {
    forall i: nat, n: nat | LabelShape(s, i, n)
      ensures LabelAt(s, i) == Some(n) && i <= |s|
    {
      LabelAtIff(s, i, n);
    }
    if FindLabel(s).Some? {
      var (i, n) := FindLabel(s).value;
      LabelAtIff(s, i, n);
    }
  }
}
