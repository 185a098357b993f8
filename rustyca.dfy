/** The text extraction of src/main.rs: pick the text of the elements a
    selector matches on the account page, then cut the three reported values
    (money balance, internet balance, expiration date) out of it.

    Where the source calls `expect` on a missing value the process panics;
    the model returns `Panic` with the message `expect` would print. */
module Rustyca {
  import opened Utf8
  import opened StrOps

  /** What one metric produces: its display string, or the panic of `expect`. */
  datatype Outcome = Value(value: string) | Panic(message: string)

  type Selector = string

  /** A matched element, given by its descendant text nodes in document order
      (what `ElementRef::text` yields). */
  datatype Element = Element(textNodes: seq<string>)

  /** A parsed page, given by the elements, in document order, that each
      selector matches in it. */
  datatype Html = Html(select: Selector -> seq<Element>)

  const ExpirationSelector: Selector := "p.bdl-balance > span"
  const MoneySelector: Selector := "span.myaccount-lowbalance"
  const InternetSelector: Selector := "div.bdl-mins"

  /** The token ("until") that precedes the expiration date on the page. */
  const Hasta: string := "hasta"

  const ExpirationMessage: string := "Can't get the expiration date correctly"
  const MoneyMessage: string := "Can't get the money balance correctly"
  const InternetMessage: string := "Can't get the internet balance correctly"

  // ---------------------------------------------------------------------
  // get_element_from
  // ---------------------------------------------------------------------

  /** The text nodes of all elements, element after element (`flat_map`). */
  function TextNodes(elements: seq<Element>): (nodes: seq<string>)
    ensures |elements| == 1 ==> nodes == elements[0].textNodes
    ensures nodes == [] <==> forall k :: 0 <= k < |elements| ==> elements[k].textNodes == []
  {
    if elements == [] then [] else elements[0].textNodes + TextNodes(elements[1..])
  }

  /** The text of the elements a selector matches: all their text nodes,
      collected into one string. No match gives the empty string. */
  function GetElementFrom(html: Html, selector: Selector): (text: string)
    ensures html.select(selector) == [] ==> text == []
  {
    Concat(TextNodes(html.select(selector)))
  }

  /** Reference reading: the text of each element on its own, the elements'
      texts then written one after another. */
  function ElementsText(elements: seq<Element>): string
  {
    if elements == [] then [] else Concat(elements[0].textNodes) + ElementsText(elements[1..])
  }

  lemma {:induction false} TextNodesConcat(elements: seq<Element>)
    ensures Concat(TextNodes(elements)) == ElementsText(elements)
  {
    if elements != [] {
      TextNodesConcat(elements[1..]);
      ConcatAppend(elements[0].textNodes, TextNodes(elements[1..]));
    }
  }

  /** `get_element_from` yields the matched elements' texts in document order. */
  lemma GetElementFromInOrder(html: Html, selector: Selector)
    ensures GetElementFrom(html, selector) == ElementsText(html.select(selector))
  {
    TextNodesConcat(html.select(selector));
  }

  /** Elements matched earlier contribute their text earlier. */
  lemma {:induction false} ElementsTextAppend(a: seq<Element>, b: seq<Element>)
    ensures ElementsText(a + b) == ElementsText(a) + ElementsText(b)
  {
    if a == [] {
      assert a + b == b;
    } else {
      assert (a + b)[1..] == a[1..] + b;
      ElementsTextAppend(a[1..], b);
    }
  }

  // ---------------------------------------------------------------------
  // get_expiration_date
  // ---------------------------------------------------------------------

  /** A suffix of a text without the pattern is without the pattern too. */
  lemma SuffixPatternFree(s: string, t: string, pat: string)
    requires |t| <= |s| && t == s[|s| - |t|..]
    requires !Contains(s, pat)
    ensures !Contains(t, pat)
  {
    forall j: nat | OccursAt(t, pat, j)
      ensures false
    {
      assert t == s[|s| - |t|..|s|];
      OccursInSlice(s, pat, |s| - |t|, |s|, j);
    }
  }

  /** `split("hasta").nth(1)` then `trim_start`, on the extracted text. */
  function ExpirationDate(text: string): (r: Outcome)
    ensures r.Panic? <==> !Contains(text, Hasta)
    ensures r.Panic? ==> r.message == ExpirationMessage
    ensures r.Value? ==> r.value == [] || !IsWhitespace(r.value[0])
    ensures r.Value? ==> !Contains(r.value, Hasta)
  {
    SplitOnePiece(text, Hasta);
    var parts := Split(text, Hasta);
    if |parts| < 2 then
      Panic(ExpirationMessage)
    else
      SplitPiecesPatternFree(text, Hasta);
      var date := TrimStart(parts[1]);
      SuffixPatternFree(parts[1], date, Hasta);
      Value(date)
  }

  /** With a next "hasta" at `k`, the expiration date is the text strictly
      between the first "hasta" and that one, with leading whitespace removed. */
  lemma ExpirationDateToNext(text: string, i: nat, k: nat)
    requires FirstAt(text, Hasta, i)
    requires i + |Hasta| <= k && OccursAt(text, Hasta, k) && NoneIn(text, Hasta, i + |Hasta|, k)
    ensures ExpirationDate(text) == Value(TrimStart(text[i + |Hasta|..k]))
  {
    SecondPieceToNext(text, Hasta, i, k);
  }

  /** With a single "hasta", the expiration date is the text after it with
      leading whitespace removed. */
  lemma ExpirationDateToEnd(text: string, i: nat)
    requires FirstAt(text, Hasta, i)
    requires NoneIn(text, Hasta, i + |Hasta|, |text|)
    ensures ExpirationDate(text) == Value(TrimStart(text[i + |Hasta|..]))
  {
    SecondPieceToEnd(text, Hasta, i);
  }

  function GetExpirationDate(html: Html): (r: Outcome)
    ensures html.select(ExpirationSelector) == [] ==> r == Panic(ExpirationMessage)
  {
    ExpirationDate(GetElementFrom(html, ExpirationSelector))
  }

  // ---------------------------------------------------------------------
  // get_money_balance
  // ---------------------------------------------------------------------

  /** `lines().next()` on the extracted text. */
  function MoneyBalance(text: string): (r: Outcome)
    ensures r.Panic? <==> text == []
    ensures r.Panic? ==> r.message == MoneyMessage
    ensures r.Value? ==> '\n' !in r.value
    ensures r.Value? ==> r.value <= text
  {
    var lines := Lines(text);
    if lines == [] then
      Panic(MoneyMessage)
    else
      LinesHaveNoNewline(text);
      Value(lines[0])
  }

  /** A text without any line feed is its own first line. */
  lemma MoneyBalanceWhole(text: string)
    requires text != [] && '\n' !in text
    ensures MoneyBalance(text) == Value(text)
  {
  }

  /** With a line feed at `e` and none before it, the money balance is the
      text before `e`, less one '\r' that immediately precedes it. */
  lemma MoneyBalanceBreak(text: string, e: nat)
    requires e < |text| && text[e] == '\n' && '\n' !in text[..e]
    ensures MoneyBalance(text)
         == Value(if 0 < e && text[e - 1] == '\r' then text[..e - 1] else text[..e])
  {
  }

  function GetMoneyBalance(html: Html): (r: Outcome)
    ensures html.select(MoneySelector) == [] ==> r == Panic(MoneyMessage)
  {
    MoneyBalance(GetElementFrom(html, MoneySelector))
  }

  // ---------------------------------------------------------------------
  // get_internet_balance
  // ---------------------------------------------------------------------

  /** `get(2..)` on the extracted text: it fails exactly when the text has
      fewer than two UTF-8 bytes or byte 2 is a continuation byte; otherwise
      the result is the text whose bytes are the input's without the first two. */
  function InternetBalance(text: string): (r: Outcome)
    ensures var bytes := Encode(text);
            r.Value? <==> 2 <= |bytes| && (|bytes| == 2 || !IsContinuation(bytes[2]))
    ensures r.Panic? ==> r.message == InternetMessage
    ensures r.Value? ==> Encode(r.value) == Encode(text)[2..]
    ensures r.Value? ==> |Encode(r.value)| == |Encode(text)| - 2
    ensures r.Value? ==> |r.value| <= |text| && r.value == text[|text| - |r.value|..]
  {
    SliceFromBytes(text, 2);
    match SliceFrom(text, 2)
    case None => Panic(InternetMessage)
    case Some(rest) => Value(rest)
  }

  /** On text whose first two characters are ASCII (such as the two line
      feeds on the page), the internet balance is the text after them. */
  lemma InternetBalanceAscii(text: string)
    requires |text| >= 2 && text[0] as int < 0x80 && text[1] as int < 0x80
    ensures InternetBalance(text) == Value(text[2..])
  {
    var lead := text[..2];
    assert forall i :: 0 <= i < |lead| ==> lead[i] as int < 0x80 by {
      assert lead[0] == text[0] && lead[1] == text[1];
    }
    EncodeAsciiLength(lead);
    SliceAtCharPosition(text, 2);
  }

  function GetInternetBalance(html: Html): (r: Outcome)
    ensures html.select(InternetSelector) == [] ==> r == Panic(InternetMessage)
  {
    InternetBalance(GetElementFrom(html, InternetSelector))
  }
}
