/** The exchange link the "Buy" button opens (`getUniswapBuyUrl`): the swap
    page's address, a `?`, and a query string of three parameters in a fixed
    order, serialized by `URLSearchParams`. Opening the link is a host side
    effect and is not part of this model. */
module UniswapLink {
  import opened FormUrlencoded

  const BaseUrl: string := "https://app.uniswap.org/swap"

  /** The query parameters, in insertion order: the chain, the currency paid, the token bought. */
  function BuyParams(tokenAddress: string): (params: seq<(string, string)>)
    ensures |params| == 3
    ensures params[0] == ("chain", "base") && params[1] == ("inputCurrency", "ETH")
    ensures params[2] == ("outputCurrency", tokenAddress)
  {
    [("chain", "base"), ("inputCurrency", "ETH"), ("outputCurrency", tokenAddress)]
  }

  /** The buy link for a token address. */
  function UniswapBuyUrl(tokenAddress: string): (url: string)
    ensures |url| > |BaseUrl| && url[..|BaseUrl| + 1] == BaseUrl + "?"
  {
    var query := Serialize(BuyParams(tokenAddress));
    SplitAt(BaseUrl + "?", query);
    BaseUrl + "?" + query
  }

  /** The part of the link after the `?`. */
  function QueryOf(url: string): string
    requires |url| > |BaseUrl|
  {
    url[|BaseUrl| + 1..]
  }

  /** A concatenation splits back into its two parts. */
  lemma SplitAt(a: string, b: string)
    ensures (a + b)[..|a|] == a && (a + b)[|a|..] == b
  {
  }

  /** Whatever the address, the link's query parses into exactly three
      parameters, in the order chain, inputCurrency, outputCurrency, with the
      values base, ETH and the UTF-8 bytes of the address. */
  lemma BuyUrlQuery(tokenAddress: string)
    ensures var q := ParseQuery(QueryOf(UniswapBuyUrl(tokenAddress)));
      && |q| == 3
      && q[0] == (Utf8Encode("chain"), Utf8Encode("base"))
      && q[1] == (Utf8Encode("inputCurrency"), Utf8Encode("ETH"))
      && q[2] == (Utf8Encode("outputCurrency"), Utf8Encode(tokenAddress))
  {
    var params := BuyParams(tokenAddress);
    var query := Serialize(params);
    SplitAt(BaseUrl + "?", query);
    SerializeRoundTrip(params);
    Utf8PairsOfThree(params);
  }

  /** The UTF-8 bytes of any three parameters, pair by pair. */
  lemma Utf8PairsOfThree(pairs: seq<(string, string)>)
    requires |pairs| == 3
    ensures Utf8Pairs(pairs) == [
      (Utf8Encode(pairs[0].0), Utf8Encode(pairs[0].1)),
      (Utf8Encode(pairs[1].0), Utf8Encode(pairs[1].1)),
      (Utf8Encode(pairs[2].0), Utf8Encode(pairs[2].1))]
  {
  }

  /** `0x` followed by hexadecimal digits. */
  predicate IsHexAddress(s: string)
  {
    |s| >= 2 && s[0] == '0' && s[1] == 'x' && forall i :: 2 <= i < |s| ==> IsHexChar(s[i])
  }

  /** Each fixed name and value is serialized verbatim. */
  lemma ChainVerbatim()
    ensures FormEncode("chain") == "chain"
  {
    var text := "chain";
    assert IsPlainText(text) by {
      forall i | 0 <= i < |text| ensures IsUnreservedChar(text[i]) {}
    }
    PlainTextVerbatim(text);
  }

  lemma BaseVerbatim()
    ensures FormEncode("base") == "base"
  {
    var text := "base";
    assert IsPlainText(text) by {
      forall i | 0 <= i < |text| ensures IsUnreservedChar(text[i]) {}
    }
    PlainTextVerbatim(text);
  }

  lemma InputCurrencyVerbatim()
    ensures FormEncode("inputCurrency") == "inputCurrency"
  {
    var text := "inputCurrency";
    assert IsPlainText(text) by {
      forall i | 0 <= i < |text| ensures IsUnreservedChar(text[i]) {}
    }
    PlainTextVerbatim(text);
  }

  lemma EthVerbatim()
    ensures FormEncode("ETH") == "ETH"
  {
    var text := "ETH";
    assert IsPlainText(text) by {
      forall i | 0 <= i < |text| ensures IsUnreservedChar(text[i]) {}
    }
    PlainTextVerbatim(text);
  }

  lemma OutputCurrencyVerbatim()
    ensures FormEncode("outputCurrency") == "outputCurrency"
  {
    var text := "outputCurrency";
    assert IsPlainText(text) by {
      forall i | 0 <= i < |text| ensures IsUnreservedChar(text[i]) {}
    }
    PlainTextVerbatim(text);
  }

  lemma FixedLiterals()
    ensures "chain" + "=" + "base" == "chain=base"
    ensures "inputCurrency" + "=" + "ETH" == "inputCurrency=ETH"
    ensures "outputCurrency" + "=" == "outputCurrency="
  {
  }

  /** The chain parameter serializes to its own text. */
  lemma ChainPairText()
    ensures PairText(("chain", "base")) == "chain=base"
  {
    FixedLiterals();
    ChainVerbatim();
    BaseVerbatim();
  }

  /** The input-currency parameter serializes to its own text. */
  lemma InputCurrencyPairText()
    ensures PairText(("inputCurrency", "ETH")) == "inputCurrency=ETH"
  {
    FixedLiterals();
    InputCurrencyVerbatim();
    EthVerbatim();
  }

  lemma OutputPairText(tokenAddress: string)
    requires IsPlainText(tokenAddress)
    ensures PairText(("outputCurrency", tokenAddress)) == "outputCurrency=" + tokenAddress
  {
    FixedLiterals();
    OutputCurrencyVerbatim();
    PlainTextVerbatim(tokenAddress);
  }

  /** The query of a verbatim-serialized address: the three fixed pieces joined by `&`. */
  lemma PlainAddressQuery(tokenAddress: string)
    requires IsPlainText(tokenAddress)
    ensures Serialize(BuyParams(tokenAddress))
      == "chain=base" + "&" + ("inputCurrency=ETH" + "&" + ("outputCurrency=" + tokenAddress))
  {
    PlainAddressPieces(tokenAddress);
    JoinThree("chain=base", "inputCurrency=ETH", "outputCurrency=" + tokenAddress, '&');
  }

  lemma PlainAddressPieces(tokenAddress: string)
    requires IsPlainText(tokenAddress)
    ensures PairTexts(BuyParams(tokenAddress)) == ["chain=base", "inputCurrency=ETH", "outputCurrency=" + tokenAddress]
  {
    PairTextsOfThree(("chain", "base"), ("inputCurrency", "ETH"), ("outputCurrency", tokenAddress));
    ChainPairText();
    InputCurrencyPairText();
    OutputPairText(tokenAddress);
  }

  lemma PairTextsOfThree(p0: (string, string), p1: (string, string), p2: (string, string))
    ensures PairTexts([p0, p1, p2]) == [PairText(p0), PairText(p1), PairText(p2)]
  {
  }

  lemma JoinThree(a: string, b: string, c: string, sep: char)
    ensures Join([a, b, c], sep) == a + [sep] + (b + [sep] + c)
  {
    assert [b, c][1..] == [c];
    assert Join([b, c], sep) == b + [sep] + c;
    assert [a, b, c][1..] == [b, c];
  }

  /** For a hex address the link is the fixed text with the address copied verbatim at the end. */
  lemma HexAddressVerbatim(tokenAddress: string)
    requires IsHexAddress(tokenAddress)
    ensures UniswapBuyUrl(tokenAddress)
      == BaseUrl + "?" + "chain=base" + "&" + "inputCurrency=ETH" + "&" + "outputCurrency=" + tokenAddress
  {
    assert IsPlainText(tokenAddress);
    PlainAddressQuery(tokenAddress);
    Reassociate(BaseUrl + "?", "chain=base", "inputCurrency=ETH", "outputCurrency=", tokenAddress, "&");
  }

  lemma Reassociate(u: string, a: string, b: string, c: string, t: string, sep: string)
    ensures u + (a + sep + (b + sep + (c + t))) == u + a + sep + b + sep + c + t
  {
  }
}
