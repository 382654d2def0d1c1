/**
 * Site extraction (`extract_sites`, cloudflare-in-alexa-top500.go:28-44). The
 * HTML parser and the XPath query `//div/p/a` are not modelled: a page is
 * either malformed or the ordered sequence of the matched links' texts.
 * `strings.ToLower` is modelled on ASCII letters only.
 */
module Sites {

  const SitePrefix: string := "www."

  /** The result of `xmlpath.ParseHTML` followed by the link query. */
  datatype Document = Malformed | Html(links: seq<string>)

  function LowerChar(c: char): char
  {
    if 'A' <= c <= 'Z' then (c as int + ('a' as int - 'A' as int)) as char else c
  }

  function Lower(s: string): string
  {
    if s == [] then [] else [LowerChar(s[0])] + Lower(s[1..])
  }

  predicate IsLower(s: string)
  {
    forall i :: 0 <= i < |s| ==> !('A' <= s[i] <= 'Z')
  }

  /** Starts with "www." and holds no upper-case ASCII letter. */
  predicate IsSite(s: string)
  {
    |SitePrefix| <= |s| && s[..|SitePrefix|] == SitePrefix && IsLower(s)
  }

  /** One site as the source builds it from a link text: `ToLower("www." + text)`. */
  function Normalize(text: string): string
  {
    Lower(SitePrefix + text)
  }

  /** What `extract_sites` returns: nothing for a malformed page, else one site per link. */
  function SitesOf(doc: Document): seq<string>
  {
    match doc
    case Malformed => []
    case Html(links) => seq(|links|, i requires 0 <= i < |links| => Normalize(links[i]))
  }

  lemma {:induction false} LowerAt(s: string)
    ensures |Lower(s)| == |s|
    ensures forall i :: 0 <= i < |s| ==> Lower(s)[i] == LowerChar(s[i])
  {
    if s != [] {
      LowerAt(s[1..]);
    }
  }

  lemma {:induction false} LowerAppend(a: string, b: string)
    ensures Lower(a + b) == Lower(a) + Lower(b)
  {
    LowerAt(a);
    LowerAt(b);
    LowerAt(a + b);
  }

  /** Lower-casing leaves no upper-case ASCII letter and is idempotent. */
  lemma {:induction false} LowerIdempotent(s: string)
    ensures IsLower(Lower(s))
    ensures Lower(Lower(s)) == Lower(s)
  {
    LowerAt(s);
    LowerAt(Lower(s));
  }

  /**
   * Every site starts with "www.", is lower case, and carries the link text
   * lower-cased after the prefix.
   */
  lemma NormalizeShape(text: string)
    ensures |Normalize(text)| == |SitePrefix| + |text|
    ensures Normalize(text)[..|SitePrefix|] == SitePrefix
    ensures IsLower(Normalize(text))
    ensures Normalize(text)[|SitePrefix|..] == Lower(text)
  {
    LowerAppend(SitePrefix, text);
    LowerAt(SitePrefix);
    LowerIdempotent(SitePrefix + text);
  }

  /** Normalising is stable: lower-casing a site again changes nothing. */
  lemma NormalizeStable(text: string)
    ensures Lower(Normalize(text)) == Normalize(text)
  {
    LowerIdempotent(SitePrefix + text);
  }

  /** Two link texts give the same site exactly when they agree up to ASCII case. */
  lemma NormalizeSameSite(a: string, b: string)
    ensures Normalize(a) == Normalize(b) <==> Lower(a) == Lower(b)
  {
    NormalizeShape(a);
    NormalizeShape(b);
    LowerAppend(SitePrefix, a);
    LowerAppend(SitePrefix, b);
  }

  /** Every extracted site starts with "www." and is lower case. */
  lemma SitesOfShape(doc: Document)
    ensures doc.Malformed? ==> SitesOf(doc) == []
    ensures doc.Html? ==> |SitesOf(doc)| == |doc.links|
    ensures forall i :: 0 <= i < |SitesOf(doc)| ==> IsSite(SitesOf(doc)[i])
  {
    forall i | 0 <= i < |SitesOf(doc)|
      ensures IsSite(SitesOf(doc)[i])
    {
      NormalizeShape(doc.links[i]);
    }
  }

  /**
   * `extract_sites`: on a parse error, the empty list and the error; otherwise
   * the links' sites, appended one by one in document order.
   */
  method ExtractSites(doc: Document) returns (sites: seq<string>, malformed: bool)
    ensures malformed <==> doc.Malformed?
    ensures malformed ==> sites == []
    ensures !malformed ==> |sites| == |doc.links|
    ensures !malformed ==> forall i :: 0 <= i < |sites| ==> sites[i] == Lower(SitePrefix + doc.links[i])
    ensures sites == SitesOf(doc)
  {
    if doc.Malformed? {
      return [], true;
    }
    malformed := false;
    sites := [];
    var k := 0;
    while k < |doc.links|
      invariant k <= |doc.links|
      invariant |sites| == k
      invariant forall i :: 0 <= i < k ==> sites[i] == Normalize(doc.links[i])
    {
      var site := Lower(SitePrefix + doc.links[k]);
      sites := sites + [site];
      k := k + 1;
    }
  }
}
