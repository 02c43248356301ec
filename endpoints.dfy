/**
 * The query URLs the harvester sends: one SRU searchRetrieve request per
 * library catalogue (German National Library, the Bavarian union catalogue
 * B3Kat, swisscovery) and one node request to the RVK web service of the
 * Regensburg university library. Each builder comes with a parser that takes
 * the URL apart again; the round-trip lemmas show that a URL determines the
 * request it was built from.
 */
module Endpoints {
  import opened Wrappers
  import opened Text

  // Each prefix is written as host + path so that the verifier can read off
  // the characters that tell the hosts apart.
  const DnbHost := "https://services.dnb.de"
  const DnbPrefix := DnbHost + "/sru/dnb?version=1.1&operation=searchRetrieve&query=marcxml.isbn="
  const DnbSuffix := "&recordSchema=MARC21-xml&maximumRecords=1"
  const B3katHost := "http://bvbr.bib-bvb.de:5661"
  const B3katPrefix := B3katHost + "/bvb01sru?version=1.1&recordSchema=marcxml&operation=searchRetrieve&query=marcxml.isbn="
  const B3katSuffix := "&maximumRecords=1"
  const SlspHost := "https://swisscovery.slsp.ch"
  const SlspPrefix := SlspHost + "/view/sru/41SLSP_NETWORK?version=1.2&operation=searchRetrieve&recordSchema=marcxml&query=alma.isbn="
  const SlspSuffix := "&maximumRecords=1"

  /** The keys of the endpoint table, in the order the harvester queries them. */
  const Dnb := "DNB"
  const B3kat := "B3KAT"
  const Slsp := "SLSP"
  const CatalogKeys: seq<string> := [Dnb, B3kat, Slsp]

  const RvkApi := "https://rvk.uni-regensburg.de/api_neu/json/node/"
  const RvkSuffix := "?json"

  datatype Endpoint = Endpoint(prefix: string, suffix: string)

  /** The endpoint table; `None` stands for the KeyError of an unknown key. */
  function EndpointOf(key: string): (e: Option<Endpoint>)
    ensures e.Some? <==> key in CatalogKeys
  {
    if key == Dnb then Some(Endpoint(DnbPrefix, DnbSuffix))
    else if key == B3kat then Some(Endpoint(B3katPrefix, B3katSuffix))
    else if key == Slsp then Some(Endpoint(SlspPrefix, SlspSuffix))
    else None
  }

  /** The catalogue query for an ISBN, given as its `str()` form: the
      endpoint's prefix, the ISBN text unchanged, the endpoint's suffix.
      `CatalogUrlRoundTrip` shows that the ISBN text can be read back. */
  function CatalogUrl(key: string, isbn: string): (url: string)
    requires key in CatalogKeys
    ensures |url| == |EndpointOf(key).value.prefix| + |isbn| + |EndpointOf(key).value.suffix|
  {
    var e := EndpointOf(key).value;
    e.prefix + isbn + e.suffix
  }

  /** `url` with `prefix` in front and `suffix` at the end, or nothing. */
  function Between(url: string, prefix: string, suffix: string): Option<string> {
    if |prefix| + |suffix| <= |url| && url[..|prefix|] == prefix && url[|url| - |suffix|..] == suffix
    then Some(url[|prefix|..|url| - |suffix|])
    else None
  }

  /** Recovers the endpoint key and the ISBN text from a catalogue URL. */
  function ParseCatalogUrl(url: string): Option<(string, string)> {
    match Between(url, DnbPrefix, DnbSuffix)
    case Some(isbn) => Some((Dnb, isbn))
    case None =>
      match Between(url, B3katPrefix, B3katSuffix)
      case Some(isbn) => Some((B3kat, isbn))
      case None =>
        match Between(url, SlspPrefix, SlspSuffix)
        case Some(isbn) => Some((Slsp, isbn))
        case None => None
  }

  lemma BetweenBuilt(prefix: string, middle: string, suffix: string)
    ensures Between(prefix + middle + suffix, prefix, suffix) == Some(middle)
  {
    var url := prefix + middle + suffix;
    assert url[..|prefix|] == prefix;
    assert url[|url| - |suffix|..] == suffix;
    assert url[|prefix|..|url| - |suffix|] == middle;
  }

  /** A URL that differs from `prefix` at some position does not start with it. */
  lemma BetweenMismatch(url: string, prefix: string, suffix: string, i: nat)
    requires i < |url| && i < |prefix| && url[i] != prefix[i]
    ensures Between(url, prefix, suffix) == None
  {
    if |prefix| <= |url| {
      assert url[..|prefix|][i] != prefix[i];
    }
  }

  /** A catalogue URL names its catalogue and carries the ISBN text intact. */
  lemma {:induction false} CatalogUrlRoundTrip(key: string, isbn: string)
    requires key in CatalogKeys
    ensures ParseCatalogUrl(CatalogUrl(key, isbn)) == Some((key, isbn))
  {
    var e := EndpointOf(key).value;
    var url := CatalogUrl(key, isbn);
    BetweenBuilt(e.prefix, isbn, e.suffix);
    // the B3Kat URL keeps the scheme "http:", the swisscovery host differs from the DNB host
    if key == B3kat {
      assert url[4] == B3katHost[4] == ':' && DnbPrefix[4] == 's';
      BetweenMismatch(url, DnbPrefix, DnbSuffix, 4);
    } else if key == Slsp {
      assert url[9] == SlspHost[9] == 'w' && DnbPrefix[9] == 'e';
      BetweenMismatch(url, DnbPrefix, DnbSuffix, 9);
      assert url[4] == SlspHost[4] == 's' && B3katPrefix[4] == ':';
      BetweenMismatch(url, B3katPrefix, B3katSuffix, 4);
    }
  }

  /** Different catalogues or different ISBN texts never share a URL. */
  lemma CatalogUrlInjective(k1: string, i1: string, k2: string, i2: string)
    requires k1 in CatalogKeys && k2 in CatalogKeys
    requires CatalogUrl(k1, i1) == CatalogUrl(k2, i2)
    ensures k1 == k2 && i1 == i2
  {
    CatalogUrlRoundTrip(k1, i1);
    CatalogUrlRoundTrip(k2, i2);
  }

  /** The RVK node request for a notation: every space becomes `+`, no other
      character changes. */
  function RvkQuery(notation: string): (url: string)
    ensures |url| == |RvkApi| + |notation| + |RvkSuffix|
  {
    RvkApi + Replace(notation, ' ', '+') + RvkSuffix
  }

  /** The request starts with the service's node path and ends with `?json`. */
  lemma RvkQueryShape(notation: string)
    ensures RvkQuery(notation)[..|RvkApi|] == RvkApi
    ensures RvkQuery(notation)[|RvkQuery(notation)| - |RvkSuffix|..] == RvkSuffix
  {
    var url := RvkQuery(notation);
    assert url[..|RvkApi|] == RvkApi;
    assert url[|url| - |RvkSuffix|..] == RvkSuffix;
  }

  /** Between the fixed prefix and suffix the request holds the notation with
      every space turned into `+` and every other character kept. */
  lemma RvkQueryPath(notation: string)
    ensures forall i :: 0 <= i < |notation| ==>
      RvkQuery(notation)[|RvkApi| + i] == (if notation[i] == ' ' then '+' else notation[i])
  {
  }

  /** Recovers the notation from an RVK node request. */
  function ParseRvkQuery(url: string): Option<string> {
    match Between(url, RvkApi, RvkSuffix)
    case Some(path) => Some(Replace(path, '+', ' '))
    case None => None
  }

  /** An RVK notation never contains `+`, and for such notations the request
      gives the notation back. */
  lemma {:induction false} RvkQueryRoundTrip(notation: string)
    requires '+' !in notation
    ensures ParseRvkQuery(RvkQuery(notation)) == Some(notation)
  {
    BetweenBuilt(RvkApi, Replace(notation, ' ', '+'), RvkSuffix);
    ReplaceRoundTrip(notation, ' ', '+');
  }

  /** Spelling a space as `+` does not change the node request: a notation
      and the same notation with its spaces written as `+` hit the same node,
      which is why the round trip needs `+`-free notations. */
  lemma RvkQueryPlusForSpace(notation: string)
    ensures RvkQuery(Replace(notation, ' ', '+')) == RvkQuery(notation)
  {
    var once := Replace(notation, ' ', '+');
    var twice := Replace(once, ' ', '+');
    forall i | 0 <= i < |notation| ensures twice[i] == once[i] {
      assert once[i] != ' ';
    }
    assert twice == once;
  }

  /** Two different notations, "SU 680" and "SU+680", share one node request. */
  lemma RvkQuerySpaceMeetsPlus()
    ensures RvkQuery("SU 680") == RvkQuery("SU+680")
  {
  }
}
