/**
 The canonical detail-page link of a variant (getBaseLinkByVariant) and the
 product URL built from it (getUrlByVariant). The link is a fixed `sprintf`
 format; `ParseBaseLink` reads it back, and `ParseBaseLinkRoundTrip` shows
 that the article id and the order number are recoverable from the link.
 */
module DetailLink {
  import opened Catalog

  /** The fixed text between the base file and the article id. */
  const DetailQuery: string := "?sViewport=detail&sArticle="

  /** The fixed text between the article id and the order number. */
  const NumberQuery: string := "&number="

  predicate IsDigit(c: char) {
    '0' <= c <= '9'
  }

  predicate AllDigits(s: string) {
    forall i :: 0 <= i < |s| ==> IsDigit(s[i])
  }

  function DigitChar(d: nat): (c: char)
    requires d < 10
    ensures IsDigit(c)
  {
    "0123456789"[d]
  }

  function DigitValue(c: char): (d: nat)
    requires IsDigit(c)
    ensures d < 10
    ensures DigitChar(d) == c
  {
    (c as int - '0' as int) as nat
  }

  /** Decimal text of a natural number, most significant digit first, no leading zeros. */
  function NatToString(n: nat): (s: string)
    ensures |s| > 0 && AllDigits(s)
    ensures |s| > 1 ==> s[0] != '0'
    decreases n
  {
    if n < 10 then [DigitChar(n)] else NatToString(n / 10) + [DigitChar(n % 10)]
  }

  /** `%s` of an integer in PHP: its decimal text, with a leading `-` when negative. */
  function IntToString(n: int): (s: string)
    ensures '&' !in s
  {
    if n < 0 then "-" + NatToString(-n) else NatToString(n)
  }

  /** The value of a non-empty run of decimal digits. */
  function DigitsValue(s: string): nat
    requires |s| > 0 && AllDigits(s)
    decreases |s|
  {
    if |s| == 1 then DigitValue(s[0])
    else DigitsValue(s[..|s| - 1]) * 10 + DigitValue(s[|s| - 1])
  }

  /** Reads an optionally signed decimal integer; None for any other text. */
  function ParseInt(s: string): (r: Option<int>)
    ensures r.Some? ==> |s| > 0
  {
    if |s| > 1 && s[0] == '-' && AllDigits(s[1..]) then
      var magnitude: int := DigitsValue(s[1..]);
      Some(-magnitude)
    else if |s| > 0 && AllDigits(s) then Some(DigitsValue(s))
    else None
  }

  lemma {:induction false} NatToStringValue(n: nat)
    ensures DigitsValue(NatToString(n)) == n
    decreases n
  {
    if n >= 10 {
      var s := NatToString(n);
      assert s[..|s| - 1] == NatToString(n / 10);
      NatToStringValue(n / 10);
    }
  }

  /** Parsing the decimal text of an integer gives the integer back. */
  lemma ParseIntToString(n: int)
    ensures ParseInt(IntToString(n)) == Some(n)
  {
    if n < 0 {
      var digits := NatToString(-n);
      var s := "-" + digits;
      assert s[1..] == digits;
      NatToStringValue(-n);
      assert |s| > 1 && s[0] == '-' && AllDigits(s[1..]);
      assert IntToString(n) == s;
    } else {
      var s := NatToString(n);
      NatToStringValue(n);
      assert IsDigit(s[0]);
      assert s[0] != '-';
      assert IntToString(n) == s;
    }
  }

  /** getBaseLinkByVariant: `<baseFile>?sViewport=detail&sArticle=<article id>&number=<order number>`. */
  function BaseLink(baseFile: string, articleId: int, number: string): (link: string)
    ensures |link| == |baseFile| + |DetailQuery| + |IntToString(articleId)| + |NumberQuery| + |number|
    ensures link[..|baseFile|] == baseFile
    ensures link[|link| - |number|..] == number
  {
    baseFile + DetailQuery + IntToString(articleId) + NumberQuery + number
  }

  /** The index of the first occurrence of `c` in `s`, if any. */
  function IndexOf(s: string, c: char): (r: Option<nat>)
    ensures r.Some? ==> r.value < |s| && s[r.value] == c && c !in s[..r.value]
    ensures r.None? ==> c !in s
  {
    if |s| == 0 then None
    else if s[0] == c then Some(0)
    else
      match IndexOf(s[1..], c)
      case None => None
      case Some(i) => assert s[..i + 1] == [s[0]] + s[1..][..i]; Some(i + 1)
  }

  /**
   Reads a detail link back into (article id, order number) for a known base
   file: the id runs from the fixed query up to the first `&`, and the
   order number is everything after `&number=`.
   */
  function ParseBaseLink(baseFile: string, link: string): (r: Option<(int, string)>)
    ensures r.Some? ==> |baseFile| <= |link| && link[..|baseFile|] == baseFile
  {
    var head := baseFile + DetailQuery;
    if |link| < |head| || link[..|head|] != head then None
    else
      var rest := link[|head|..];
      match IndexOf(rest, '&')
      case None => None
      case Some(i) =>
        var tail := rest[i..];
        if |tail| < |NumberQuery| || tail[..|NumberQuery|] != NumberQuery then None
        else
          match ParseInt(rest[..i])
          case None => None
          case Some(id) =>
            assert link[..|baseFile|] == head[..|baseFile|];
            Some((id, tail[|NumberQuery|..]))
  }

  lemma IndexOfAfter(a: string, b: string, c: char)
    requires c !in a && |b| > 0 && b[0] == c
    ensures IndexOf(a + b, c) == Some(|a|)
  {
    var r := IndexOf(a + b, c);
    assert (a + b)[|a|] == c;
    assert (a + b)[..|a| + 1] == a + [c];
    assert forall k :: 0 <= k < |a| ==> (a + b)[k] == a[k];
  }

  /** The article id and the order number can be read back from the detail link, whatever the order number contains. */
  lemma ParseBaseLinkRoundTrip(baseFile: string, articleId: int, number: string)
    ensures ParseBaseLink(baseFile, BaseLink(baseFile, articleId, number)) == Some((articleId, number))
  {
    var head := baseFile + DetailQuery;
    var link := BaseLink(baseFile, articleId, number);
    var id := IntToString(articleId);
    assert link == head + (id + (NumberQuery + number));
    assert link[..|head|] == head;
    var rest := link[|head|..];
    assert rest == id + (NumberQuery + number);
    IndexOfAfter(id, NumberQuery + number, '&');
    assert rest[..|id|] == id;
    assert rest[|id|..] == NumberQuery + number;
    ParseIntToString(articleId);
  }

  /** getUrlByVariant: the detail link and the article name handed to the SEO rewriting service. */
  function UrlByVariant(services: Services, config: Config, variant: Variant): (url: string)
  {
    services.rewriteLink(BaseLink(config.baseFile, variant.article.id, variant.number), variant.article.name)
  }
}
