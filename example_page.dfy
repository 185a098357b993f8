/** The account-page fragments quoted in src/main.rs, and the three values
    the extraction yields on them. */
module ExamplePage {
  import opened StrOps
  import opened Rustyca

  /** A pattern whose first character occurs nowhere else in it starts its
      leftmost occurrence right after a prefix lacking that character. */
  lemma FirstAfterPrefix(a: string, pat: string, b: string)
    requires pat != [] && pat[0] !in a && pat[0] !in pat[1..]
    ensures FirstAt(a + pat + b, pat, |a|)
  {
  }

  /** No occurrence of a pattern starts inside a suffix lacking its first
      character. */
  lemma AbsentLeadAfter(a: string, pat: string, b: string)
    requires pat != [] && pat[0] !in b
    ensures NoneIn(a + pat + b, pat, |a| + |pat|, |a + pat + b|)
  {
    var s := a + pat + b;
    forall j: nat | |a| + |pat| <= j < |s|
      ensures !OccursAt(s, pat, j)
    {
      assert s[j] == b[j - |a| - |pat|];
    }
  }

  const SaldoSpan: string := "InternacionalSaldo al 28-04-2021"
  const ValidoSpan: string := "| InternacionalV\U{E1}lido hasta 07-05-2021"

  /** The page of the comments in src/main.rs: the two spans of the balance
      paragraph (the space between them is a text node of the paragraph, not
      of a span), the low-balance span and the minutes/data block. */
  function Page(): Html
  {
    Html(selector =>
      if selector == ExpirationSelector then [Element([SaldoSpan]), Element([ValidoSpan])]
      else if selector == MoneySelector then [Element(["\U{20AC}0.03\n"])]
      else if selector == InternetSelector then [Element(["\n\n5.66GB"])]
      else [])
  }

  const BeforeHasta: string := SaldoSpan + "| InternacionalV\U{E1}lido "
  const AfterHasta: string := " 07-05-2021"

  /** The two span texts joined, split around their one "hasta". */
  lemma ExpirationText()
    ensures GetElementFrom(Page(), ExpirationSelector) == BeforeHasta + Hasta + AfterHasta
  {
    var elements := Page().select(ExpirationSelector);
    assert elements == [Element([SaldoSpan]), Element([ValidoSpan])];
    assert TextNodes(elements) == [SaldoSpan, ValidoSpan] by {
      assert TextNodes(elements[1..]) == [ValidoSpan];
    }
    assert Concat([SaldoSpan, ValidoSpan]) == SaldoSpan + ValidoSpan by {
      assert [SaldoSpan, ValidoSpan][1..] == [ValidoSpan];
      assert Concat([ValidoSpan]) == ValidoSpan + [];
    }
    assert ValidoSpan == "| InternacionalV\U{E1}lido " + Hasta + AfterHasta;
  }

  lemma NoHBefore()
    ensures 'h' !in BeforeHasta
  {
  }

  /** One whitespace character before a word is all that `trim_start` drops. */
  lemma TrimOneSpace(c: char, word: string)
    requires IsWhitespace(c) && word != [] && !IsWhitespace(word[0])
    ensures TrimStart([c] + word) == word
  {
    assert ([c] + word)[1..] == word;
  }

  lemma TrimAfter()
    ensures TrimStart(AfterHasta) == "07-05-2021"
  {
    var date := "07-05-2021";
    assert AfterHasta == [' '] + date;
    TrimOneSpace(' ', date);
  }

  /** Around a single "hasta", with no 'h' on either side, the expiration
      date is the trimmed text after it. */
  lemma LoneHasta(before: string, after: string)
    requires 'h' !in before && 'h' !in after
    ensures ExpirationDate(before + Hasta + after) == Value(TrimStart(after))
  {
    var text := before + Hasta + after;
    FirstAfterPrefix(before, Hasta, after);
    AbsentLeadAfter(before, Hasta, after);
    ExpirationDateToEnd(text, |before|);
    assert text[|before| + |Hasta|..] == after;
  }

  lemma ExampleExpirationDate()
    ensures GetExpirationDate(Page()) == Value("07-05-2021")
  {
    ExpirationText();
    NoHBefore();
    LoneHasta(BeforeHasta, AfterHasta);
    TrimAfter();
  }

  lemma ExampleMoneyBalance()
    ensures GetMoneyBalance(Page()) == Value("\U{20AC}0.03")
  {
    assert |MoneySelector| != |ExpirationSelector|;
    var elements := Page().select(MoneySelector);
    assert elements == [Element(["\U{20AC}0.03\n"])];
    assert TextNodes(elements) == ["\U{20AC}0.03\n"];
    var text := GetElementFrom(Page(), MoneySelector);
    assert text == "\U{20AC}0.03\n";
    MoneyBalanceBreak(text, 5);
  }

  lemma ExampleInternetBalance()
    ensures GetInternetBalance(Page()) == Value("5.66GB")
  {
    assert |InternetSelector| != |ExpirationSelector| && |InternetSelector| != |MoneySelector|;
    var elements := Page().select(InternetSelector);
    assert elements == [Element(["\n\n5.66GB"])];
    assert TextNodes(elements) == ["\n\n5.66GB"];
    var text := GetElementFrom(Page(), InternetSelector);
    assert text == "\n\n5.66GB";
    InternetBalanceAscii(text);
  }
}
