/**
 * The ad endpoints (server/src/controllers/adController.js): resolve a listing URL
 * to a stored ad, list ads by popularity, and read one ad while counting the view.
 */
module AdController {
  import opened Wrappers
  import opened Js
  import opened Sorting
  import opened Models
  import opened AvitoParser

  /** The JSON answer of an ad endpoint. `ServerError` is a 500 whose text comes from
      the database driver. */
  datatype Reply =
    | Resolved(created: bool, ad: Ad)
    | Found(ad: Ad)
    | Failure(status: int, error: string)
    | ServerError

  const UrlRequiredMessage := "URL is required"
  const InvalidIdMessage := "Invalid ad id"
  const NotFoundMessage := "Ad not found"

  /** The body check and normalisation that open `resolveOrCreate`: the normalised
      URL, or the message of the 400 answer. */
  function RequestedUrl(parse: Parser, url: Value): (r: Result<string, string>)
    ensures !url.Str? || url.s == "" ==> r == Err(UrlRequiredMessage)
    ensures r.Err? ==> r.error in {UrlRequiredMessage, NotAStringMessage, InvalidFormatMessage, NotAvitoMessage}
    ensures r.Ok? <==> && url.Str? && Trim(url.s) != "" && parse(Candidate(Trim(url.s))).Some?
                       && Contains(ToLower(parse(Candidate(Trim(url.s))).value.hostname), "avito")
    ensures r.Ok? ==> r.value == Serialize(parse(Candidate(Trim(url.s))).value)
  {
    if !Truthy(url) || !url.Str? then Err(UrlRequiredMessage)
    else NormalizeUrl(parse, Str(Trim(url.s)))
  }

  /** A URL made only of white space passes the first check and fails in
      `normalizeUrl`, with that function's message rather than "URL is required". */
  lemma BlankUrlMessage(parse: Parser, s: string)
    requires s != "" && forall k :: 0 <= k < |s| ==> IsSpace(s[k])
    ensures RequestedUrl(parse, Str(s)) == Err(NotAStringMessage)
  {
  }

  /** White space around the submitted URL does not matter. */
  lemma RequestedUrlIgnoresPadding(parse: Parser, s: string)
    requires Trim(s) != ""
    ensures RequestedUrl(parse, Str(s)) == RequestedUrl(parse, Str(Trim(s)))
  {
  }

  /** What a stored ad keeps of a parsed image: the URL, or "" for none. */
  function ImageField(image: Option<string>): string {
    if image.Some? then image.value else ""
  }

  /** `resolveOrCreate`. `interloper` is an ad that a concurrent resolution creates
      between this request's lookup and its own create; None when there is no race. */
  method ResolveOrCreate(ads: AdCollection, url: Value, parse: Parser, resolve: Resolver, fetch: Fetcher,
                         newId: ObjectId, now: int, interloper: Option<Ad>)
    returns (reply: Reply)
    requires ads.Valid()
    modifies ads
    ensures ads.Valid()
    ensures RequestedUrl(parse, url).Err? ==>
              reply == Failure(400, RequestedUrl(parse, url).error) && ads.docs == old(ads.docs)
    ensures RequestedUrl(parse, url).Ok? ==>
              var n := RequestedUrl(parse, url).value;
              var parsed := ParseResult(parse, resolve, fetch, Str(n));
              var mid := if interloper.Some? then AfterAdCreate(old(ads.docs), interloper.value) else old(ads.docs);
              && (FindAdByUrl(old(ads.docs), n).Some? ==>
                    reply == Resolved(false, FindAdByUrl(old(ads.docs), n).value) && ads.docs == old(ads.docs))
              && (FindAdByUrl(old(ads.docs), n).None? && parsed.Err? ==>
                    reply == Failure(422, parsed.error) && ads.docs == old(ads.docs))
              && (FindAdByUrl(old(ads.docs), n).None? && parsed.Ok? ==>
                    var ad := Ad(newId, n, parsed.value.title, ImageField(parsed.value.image), 0, now);
                    && ads.docs == AfterAdCreate(mid, ad)
                    && (AdInsertable(mid, ad) ==> reply == Resolved(true, ad))
                    && (!AdInsertable(mid, ad) && FindAdByUrl(mid, n).Some? ==>
                          reply == Resolved(false, FindAdByUrl(mid, n).value))
                    && (!AdInsertable(mid, ad) && FindAdByUrl(mid, n).None? ==> reply == ServerError))
    ensures reply.Resolved? ==> reply.ad in ads.docs && reply.ad.url == RequestedUrl(parse, url).value
    ensures forall a :: a in old(ads.docs) ==> a in ads.docs
  {
    var requested := RequestedUrl(parse, url);
    if requested.Err? {
      return Failure(400, requested.error);
    }
    var n := requested.value;
    var existing := FindAdByUrl(ads.docs, n);
    if existing.Some? {
      return Resolved(false, existing.value);
    }
    var parsed := ParseAvito(parse, resolve, fetch, Str(n));
    if parsed.Err? {
      return Failure(422, parsed.error);
    }
    if interloper.Some? {
      var raced := ads.Create(interloper.value);
    }
    var ad := Ad(newId, n, parsed.value.title, ImageField(parsed.value.image), 0, now);
    var ok := ads.Create(ad);
    if ok {
      return Resolved(true, ad);
    }
    // duplicate key: read back the ad that won the race
    var doc := FindAdByUrl(ads.docs, n);
    if doc.Some? {
      return Resolved(false, doc.value);
    }
    reply := ServerError;
  }

  /** The listing order: more views first, then newer first. */
  predicate AdPrecedes(a: Ad, b: Ad) {
    a.views > b.views || (a.views == b.views && a.createdAt >= b.createdAt)
  }

  lemma AdOrderIsTotalPreorder()
    ensures TotalPreorder(AdPrecedes)
  {
  }

  /** `listTop`: the page of ads at `offset`, at most `limit` long, of all ads in listing
      order, with the number of ads and the limit and offset actually used. */
  method ListTop(ads: AdCollection, limitQuery: Value, offsetQuery: Value)
    returns (page: seq<Ad>, total: nat, limit: int, offset: int)
    ensures total == |ads.docs|
    ensures 1 <= limit <= 100 && 0 <= offset
    ensures var l := ParseInt(ToText(limitQuery));
            && (l.None? ==> limit == 20)
            && (l.Some? && 1 <= l.value <= 100 ==> limit == l.value)
            && (l.Some? && l.value < 1 ==> limit == 1)
            && (l.Some? && l.value > 100 ==> limit == 100)
    ensures var o := ParseInt(ToText(offsetQuery));
            && (o.None? ==> offset == 0)
            && (o.Some? && o.value < 0 ==> offset == 0)
            && (o.Some? && o.value >= 0 ==> offset == o.value)
    ensures exists order :: SortedBy(order, AdPrecedes) && multiset(order) == multiset(ads.docs)
                            && page == Window(order, offset, limit)
  {
    var l := ParseInt(ToText(limitQuery));
    var o := ParseInt(ToText(offsetQuery));
    limit := if l.Some? then l.value else 20;
    offset := if o.Some? then o.value else 0;
    if limit < 1 {
      limit := 1;
    }
    if limit > 100 {
      limit := 100;
    }
    if offset < 0 {
      offset := 0;
    }
    total := |ads.docs|;
    var order := SortBy(ads.docs, AdPrecedes);
    AdOrderIsTotalPreorder();
    SortBySorted(ads.docs, AdPrecedes);
    page := Window(order, offset, limit);
  }

  /** `getById`: count one view of the ad and return it. */
  method GetById(ads: AdCollection, id: string, castId: string -> Option<ObjectId>) returns (reply: Reply)
    requires ads.Valid()
    modifies ads
    ensures ads.Valid()
    ensures id == "" || castId(id).None? ==>
              reply == Failure(400, InvalidIdMessage) && ads.docs == old(ads.docs)
    ensures id != "" && castId(id).Some? && AdIndex(old(ads.docs), castId(id).value).None? ==>
              reply == Failure(404, NotFoundMessage) && ads.docs == old(ads.docs)
    ensures id != "" && castId(id).Some? && AdIndex(old(ads.docs), castId(id).value).Some? ==>
              var k := AdIndex(old(ads.docs), castId(id).value).value;
              ads.docs == BumpViews(old(ads.docs), k) && reply == Found(ads.docs[k])
  {
    if id == "" || castId(id).None? {
      return Failure(400, InvalidIdMessage);
    }
    var ad := ads.FindByIdAndIncrementViews(castId(id).value);
    if ad.None? {
      return Failure(404, NotFoundMessage);
    }
    reply := Found(ad.value);
  }
}
