/**
 * Listing-URL validation and title/image extraction (server/src/utils/avitoParser.js).
 *
 * URL parsing, URL resolution and HTTP fetching are done by libraries this model
 * does not contain; they are parameters:
 *   parse   -- `new URL(s)`: the parsed URL record, or None where the constructor throws;
 *   resolve -- `new URL(s, base).toString()`: the serialised URL a reference resolves
 *              to against a base, or None where the constructor throws;
 *   fetch   -- the outcome of the HTTP GET that `fetchHtml` issues.
 * The HTML page is given already parsed, as the lists of tags the extraction reads.
 */
module AvitoParser {
  import opened Wrappers
  import opened Js

  /** A parsed URL. Each part is kept in its serialised form: `userinfo` ends in
      "@" when present, `port` starts with ":", `query` with "?", `fragment` with "#". */
  datatype Url = Url(scheme: string, userinfo: string, hostname: string, port: string,
                     path: string, query: string, fragment: string)

  /** `url.toString()` for a URL with a host. */
  function Serialize(u: Url): string {
    u.scheme + "://" + u.userinfo + u.hostname + u.port + u.path + u.query + u.fragment
  }

  type Parser = string -> Option<Url>

  /** A URL serialisation: never empty, since it starts with a scheme and ":". It
      need not contain "://" (`about:blank`, `mailto:a@b.c`). */
  type Href = s: string | s != [] witness ":"

  type Resolver = (string, string) -> Option<Href>

  /** The facts about the WHATWG URL parser that normalisation relies on:
      re-parsing a serialised http or https URL gives back the same URL (these
      schemes always have a host, so `Serialize` is their serialisation); an input
      that begins with "https://" or "http://" (in any case) yields that scheme; an
      input that begins with "//" has no scheme and, with no base, fails to parse. */
  ghost predicate UrlParserLaws(parse: Parser) {
    && (forall s :: parse(s).Some? && parse(s).value.scheme in {"http", "https"} ==>
                      parse(Serialize(parse(s).value)) == parse(s))
    && (forall s :: StartsWithIgnoreCase(s, "https://") && parse(s).Some? ==> parse(s).value.scheme == "https")
    && (forall s :: StartsWithIgnoreCase(s, "http://") && parse(s).Some? ==> parse(s).value.scheme == "http")
    && (forall s :: StartsWith(s, "//") ==> parse(s).None?)
  }

  const NotAStringMessage := "URL must be a non-empty string"
  const InvalidFormatMessage := "Invalid URL format"
  const NotAvitoMessage := "URL must point to an Avito listing page"

  /** The test `/^(https?:)?\/\//i`. */
  predicate HasSchemeOrSlashes(s: string) {
    StartsWithIgnoreCase(s, "http://") || StartsWithIgnoreCase(s, "https://") || StartsWith(s, "//")
  }

  /** The string handed to the URL parser: the input, or the input behind "https://". */
  function Candidate(s: string): string {
    if HasSchemeOrSlashes(s) then s else "https://" + s
  }

  /** `normalizeUrl`: the serialised URL of an Avito page, or the message it throws. */
  function NormalizeUrl(parse: Parser, input: Value): (r: Result<string, string>)
    ensures !input.Str? || input.s == "" ==> r == Err(NotAStringMessage)
    ensures r.Ok? <==> input.Str? && input.s != "" && parse(Candidate(input.s)).Some?
                       && Contains(ToLower(parse(Candidate(input.s)).value.hostname), "avito")
    ensures r.Ok? ==> r.value == Serialize(parse(Candidate(input.s)).value)
    ensures input.Str? && input.s != "" && parse(Candidate(input.s)).None? ==> r == Err(InvalidFormatMessage)
    ensures input.Str? && input.s != "" && parse(Candidate(input.s)).Some? ==>
              (!Contains(ToLower(parse(Candidate(input.s)).value.hostname), "avito") ==> r == Err(NotAvitoMessage))
    ensures r.Err? ==> r.error in {NotAStringMessage, InvalidFormatMessage, NotAvitoMessage}
  {
    if !input.Str? || input.s == "" then Err(NotAStringMessage)
    else
      match parse(Candidate(input.s))
      case None => Err(InvalidFormatMessage)
      case Some(u) =>
        if Contains(ToLower(u.hostname), "avito") then Ok(Serialize(u)) else Err(NotAvitoMessage)
  }

  /** The prefix rule: "https://" is added exactly when the input does not
      already start with "http://", "https://" (in any case) or "//". */
  lemma CandidatePrefix(s: string)
    ensures HasSchemeOrSlashes(s) ==> Candidate(s) == s
    ensures !HasSchemeOrSlashes(s) ==> Candidate(s) == "https://" + s && HasSchemeOrSlashes(Candidate(s))
  {
    if !HasSchemeOrSlashes(s) {
      var c := "https://" + s;
      assert c[..8] == "https://";
      assert ToLower(c[..8]) == "https://";
    }
  }

  /** The host test accepts "avito" anywhere in the host name, in any case:
      "m.avito.ru", "AVITO.ru", even "notavito.example". */
  lemma HostMarkerAnywhere(parse: Parser, s: string, i: nat)
    requires s != "" && parse(Candidate(s)).Some?
    requires OccursAt(ToLower(parse(Candidate(s)).value.hostname), "avito", i)
    ensures NormalizeUrl(parse, Str(s)) == Ok(Serialize(parse(Candidate(s)).value))
  {
  }

  lemma SerializedPrefix(u: Url)
    requires u.scheme == "http" || u.scheme == "https"
    ensures StartsWith(Serialize(u), u.scheme + "://")
    ensures StartsWithIgnoreCase(Serialize(u), u.scheme + "://")
    ensures HasSchemeOrSlashes(Serialize(u))
  {
    var s := Serialize(u);
    var p := u.scheme + "://";
    assert s == p + (u.userinfo + u.hostname + u.port + u.path + u.query + u.fragment);
    assert s[..|p|] == p;
    assert ToLower(p) == p;
  }

  /** Every accepted URL is an http or https URL. */
  lemma NormalizedIsHttp(parse: Parser, input: Value)
    requires UrlParserLaws(parse)
    requires NormalizeUrl(parse, input).Ok?
    ensures var u := parse(Candidate(input.s)).value;
            (u.scheme == "http" || u.scheme == "https")
            && StartsWith(NormalizeUrl(parse, input).value, u.scheme + "://")
  {
    var s := input.s;
    var c := Candidate(s);
    CandidatePrefix(s);
    var u := parse(c).value;
    if StartsWith(c, "//") {
      assert false;
    } else if StartsWithIgnoreCase(c, "https://") {
      assert u.scheme == "https";
    } else {
      assert StartsWithIgnoreCase(c, "http://");
      assert u.scheme == "http";
    }
    SerializedPrefix(u);
  }

  /** Normalising a normalised URL succeeds and returns it unchanged, which is what
      lets `parseAvito` normalise the already normalised URL a second time. */
  lemma NormalizeIdempotent(parse: Parser, input: Value)
    requires UrlParserLaws(parse)
    requires NormalizeUrl(parse, input).Ok?
    ensures NormalizeUrl(parse, Str(NormalizeUrl(parse, input).value)) == NormalizeUrl(parse, input)
  {
    var u := parse(Candidate(input.s)).value;
    var n := Serialize(u);
    NormalizedIsHttp(parse, input);
    SerializedPrefix(u);
    assert Candidate(n) == n;
    assert parse(n) == Some(u);
  }

  /** A protocol-relative input ("//www.avito.ru/...") passes the prefix test
      unchanged and is then always rejected, since it cannot be parsed without a base. */
  lemma ProtocolRelativeRejected(parse: Parser, s: string)
    requires UrlParserLaws(parse)
    requires StartsWith(s, "//")
    ensures NormalizeUrl(parse, Str(s)) == Err(InvalidFormatMessage)
  {
    assert HasSchemeOrSlashes(s);
  }

  /** `resolveImageUrl`: the absolute URL of an image reference, or None (null). */
  function ResolveImageUrl(resolve: Resolver, base: string, src: Value): (r: Option<string>)
    ensures !src.Str? || NoImageReference(Trim(src.s)) ==> r == None
    ensures r.Some? <==> src.Str? && !NoImageReference(Trim(src.s)) && resolve(Trim(src.s), base).Some?
    ensures r.Some? ==> r.value == resolve(Trim(src.s), base).value && r.value != ""
  {
    if !src.Str? || src.s == "" then None
    else
      var s := Trim(src.s);
      if NoImageReference(s) then None
      else
        match resolve(s, base)
        case None => None
        case Some(h) => Some(h)
  }

  /** A trimmed image reference the extraction refuses outright: empty, or an
      inline `data:` or `blob:` URI. */
  predicate NoImageReference(s: string) {
    s == "" || StartsWith(s, "data:") || StartsWith(s, "blob:")
  }

  // ---------------------------------------------------------------------------
  // The page

  /** The attributes of one element, by name. */
  type Attrs = map<string, string>

  /** A parsed page, as far as the extraction reads it: the `<meta>` elements, the
      text of each `<title>` element and the `<img>` elements, each in document order. */
  datatype Document = Document(metas: seq<Attrs>, titles: seq<string>, imgs: seq<Attrs>)

  /** `$(selector).attr(name)`: the attribute of the FIRST element the selection holds. */
  function FirstAttr(elems: seq<Attrs>, name: string): Option<string> {
    if elems == [] || name !in elems[0] then None else Some(elems[0][name])
  }

  /** The meta element has attribute `key` equal to `value`. */
  predicate MetaMatches(m: Attrs, key: string, value: string) {
    key in m && m[key] == value
  }

  /** `$("meta[key='value']")`: the meta elements whose attribute `key` is `value`,
      each as often as the document has it. */
  function SelectMeta(metas: seq<Attrs>, key: string, value: string): (r: seq<Attrs>)
    ensures |r| <= |metas|
    ensures forall m :: m in r <==> m in metas && MetaMatches(m, key, value)
  {
    if metas == [] then []
    else (if MetaMatches(metas[0], key, value) then [metas[0]] else []) + SelectMeta(metas[1..], key, value)
  }

  /** Each matching element occurs in the selection as often as in the document. */
  lemma {:induction false} SelectMetaCount(metas: seq<Attrs>, key: string, value: string)
    ensures forall m :: multiset(SelectMeta(metas, key, value))[m]
                        == if MetaMatches(m, key, value) then multiset(metas)[m] else 0
  {
    if metas != [] {
      SelectMetaCount(metas[1..], key, value);
      assert metas == [metas[0]] + metas[1..];
    }
  }

  /** The selection keeps document order where `attr` reads it: its first element is
      the first matching meta element of the document, and it is empty only when
      none matches. */
  lemma {:induction false} SelectMetaFirst(metas: seq<Attrs>, key: string, value: string) returns (k: nat)
    requires exists j :: 0 <= j < |metas| && MetaMatches(metas[j], key, value)
    ensures k < |metas| && MetaMatches(metas[k], key, value)
    ensures SelectMeta(metas, key, value) != [] && SelectMeta(metas, key, value)[0] == metas[k]
    ensures forall j :: 0 <= j < k ==> !MetaMatches(metas[j], key, value)
  {
    if MetaMatches(metas[0], key, value) {
      k := 0;
    } else {
      var j :| 0 <= j < |metas| && MetaMatches(metas[j], key, value);
      assert MetaMatches(metas[1..][j - 1], key, value);
      var k' := SelectMetaFirst(metas[1..], key, value);
      k := k' + 1;
      forall j | 0 <= j < k ensures !MetaMatches(metas[j], key, value) {
        if j > 0 { assert metas[j] == metas[1..][j - 1]; }
      }
    }
  }

  lemma SelectMetaEmpty(metas: seq<Attrs>, key: string, value: string)
    requires forall k :: 0 <= k < |metas| ==> !MetaMatches(metas[k], key, value)
    ensures SelectMeta(metas, key, value) == []
  {
  }

  /** The `content` of the first meta element whose `key` attribute is `value`. */
  function MetaContent(metas: seq<Attrs>, key: string, value: string): Option<string> {
    FirstAttr(SelectMeta(metas, key, value), "content")
  }

  /** JavaScript `a || b` over `string | undefined`: `a` unless it is missing or empty. */
  function Or(a: Option<string>, b: Option<string>): Option<string> {
    if a.Some? && a.value != "" then a else b
  }

  /** `$("title").first().text()`: the first title's text, "" when there is none. */
  function TitleText(doc: Document): string {
    if doc.titles == [] then "" else doc.titles[0]
  }

  /** The og:title meta content, by `property` first and by `name` second. */
  function OgTitle(doc: Document): Option<string> {
    Or(MetaContent(doc.metas, "property", "og:title"), MetaContent(doc.metas, "name", "og:title"))
  }

  /** The og:image meta content, by `property` first and by `name` second. */
  function OgImage(doc: Document): Option<string> {
    Or(MetaContent(doc.metas, "property", "og:image"), MetaContent(doc.metas, "name", "og:image"))
  }

  const NoTitleMessage := "Unable to parse title from the page"
  const ParseFailurePrefix := "Failed to parse page: "

  /** The title: the first non-empty of og:title (property), og:title (name) and the
      first `<title>` text, then trimmed; an empty result is an error. */
  function ChooseTitle(doc: Document): (r: Result<string, string>)
    ensures r.Ok? ==> r.value != "" && Trimmed(r.value)
    ensures r.Err? ==> r.error == NoTitleMessage
  {
    var raw := if OgTitle(doc).Some? && OgTitle(doc).value != "" then OgTitle(doc).value else TitleText(doc);
    var title := Trim(raw);
    if title == "" then Err(NoTitleMessage) else Ok(title)
  }

  /** Where the title comes from, step by step. */
  lemma TitlePriority(doc: Document)
    ensures var p := MetaContent(doc.metas, "property", "og:title");
            var n := MetaContent(doc.metas, "name", "og:title");
            var source :=
              if p.Some? && p.value != "" then p.value
              else if n.Some? && n.value != "" then n.value
              else TitleText(doc);
            && (Trim(source) == "" ==> ChooseTitle(doc) == Err(NoTitleMessage))
            && (Trim(source) != "" ==> ChooseTitle(doc) == Ok(Trim(source)))
  {
  }

  /** An og:title made only of white space is still chosen; it trims to nothing
      and the page fails, even when a usable `<title>` follows. */
  lemma BlankOgTitleIsFinal(doc: Document)
    requires OgTitle(doc).Some? && OgTitle(doc).value != ""
    requires forall k :: 0 <= k < |OgTitle(doc).value| ==> IsSpace(OgTitle(doc).value[k])
    ensures ChooseTitle(doc) == Err(NoTitleMessage)
  {
  }

  /** The candidate of one `<img>`: the first non-empty of `src`, `data-src`, `data-original`. */
  function ImgCandidate(img: Attrs): Value {
    if "src" in img && img["src"] != "" then Str(img["src"])
    else if "data-src" in img && img["data-src"] != "" then Str(img["data-src"])
    else if "data-original" in img && img["data-original"] != "" then Str(img["data-original"])
    else Undefined
  }

  /** The image an `<img>` contributes, if its candidate resolves. */
  function ImgImage(resolve: Resolver, base: string, img: Attrs): Option<string> {
    ResolveImageUrl(resolve, base, ImgCandidate(img))
  }

  /** The image of the first `<img>`, in document order, whose candidate resolves. */
  function FirstResolvedImg(resolve: Resolver, base: string, imgs: seq<Attrs>): (r: Option<string>)
    ensures r.Some? <==> exists img :: img in imgs && ImgImage(resolve, base, img).Some?
    ensures r.Some? ==> r.value != ""
  {
    if imgs == [] then None
    else if ImgImage(resolve, base, imgs[0]).Some? then ImgImage(resolve, base, imgs[0])
    else FirstResolvedImg(resolve, base, imgs[1..])
  }

  /** The fallback image is that of some `<img>`, and every `<img>` before that one
      contributes nothing. */
  lemma {:induction false} FirstResolvedImgAt(resolve: Resolver, base: string, imgs: seq<Attrs>) returns (i: nat)
    requires FirstResolvedImg(resolve, base, imgs).Some?
    ensures i < |imgs| && ImgImage(resolve, base, imgs[i]) == FirstResolvedImg(resolve, base, imgs)
    ensures forall j :: 0 <= j < i ==> ImgImage(resolve, base, imgs[j]).None?
  {
    if ImgImage(resolve, base, imgs[0]).Some? {
      i := 0;
    } else {
      var k := FirstResolvedImgAt(resolve, base, imgs[1..]);
      i := k + 1;
      forall j | 0 <= j < i ensures ImgImage(resolve, base, imgs[j]).None? {
        if j > 0 { assert imgs[j] == imgs[1..][j - 1]; }
      }
    }
  }

  /** When there is no fallback image, no `<img>` contributes one. */
  lemma {:induction false} FirstResolvedImgNone(resolve: Resolver, base: string, imgs: seq<Attrs>)
    requires FirstResolvedImg(resolve, base, imgs).None?
    ensures forall img :: img in imgs ==> ImgImage(resolve, base, img).None?
  {
    if imgs != [] {
      FirstResolvedImgNone(resolve, base, imgs[1..]);
      assert imgs == [imgs[0]] + imgs[1..];
    }
  }

  /** A non-empty `src` that does not resolve hides `data-src` and `data-original`
      of the same `<img>`: that element contributes nothing. */
  lemma UnresolvableSrcShadows(resolve: Resolver, base: string, img: Attrs)
    requires "src" in img && img["src"] != ""
    requires ResolveImageUrl(resolve, base, Str(img["src"])).None?
    ensures ImgImage(resolve, base, img).None?
  {
  }

  /** `$("img").each(...)`: walks the images in order and keeps the first resolved one. */
  method FindFallbackImage(resolve: Resolver, base: string, imgs: seq<Attrs>) returns (found: Option<string>)
    ensures found == FirstResolvedImg(resolve, base, imgs)
  {
    found := None;
    var i := 0;
    while i < |imgs|
      invariant 0 <= i <= |imgs|
      invariant found.Some? ==> found == FirstResolvedImg(resolve, base, imgs)
      invariant found.None? ==> FirstResolvedImg(resolve, base, imgs[i..]) == FirstResolvedImg(resolve, base, imgs)
    {
      if found.None? {
        var resolved := ResolveImageUrl(resolve, base, ImgCandidate(imgs[i]));
        assert imgs[i..][1..] == imgs[i + 1..];
        if resolved.Some? {
          found := resolved;
        }
      }
      i := i + 1;
    }
    assert imgs[i..] == [];
  }

  /** The image: when an og:image meta has content, its resolution is final, even
      when it does not resolve; otherwise the first `<img>` that resolves. */
  function ChooseImage(resolve: Resolver, base: string, doc: Document): (r: Option<string>)
    ensures r.Some? ==> r.value != ""
    ensures OgImage(doc).None? || OgImage(doc).value == "" ==>
              (r.Some? <==> exists img :: img in doc.imgs && ImgImage(resolve, base, img).Some?)
  {
    var og := OgImage(doc);
    if og.Some? && og.value != "" then ResolveImageUrl(resolve, base, Str(og.value))
    else FirstResolvedImg(resolve, base, doc.imgs)
  }

  /** og:image content, when present, decides the image: no `<img>` is consulted. */
  lemma OgImageIsFinal(resolve: Resolver, base: string, doc: Document, imgs: seq<Attrs>)
    requires OgImage(doc).Some? && OgImage(doc).value != ""
    ensures ChooseImage(resolve, base, doc) == ChooseImage(resolve, base, doc.(imgs := imgs))
    ensures ChooseImage(resolve, base, doc) == ResolveImageUrl(resolve, base, Str(OgImage(doc).value))
  {
  }

  /** What `parseAvito` returns. */
  datatype Listing = Listing(title: string, image: Option<string>, url: string)

  /** The extraction part of `parseAvito`, for the normalised `url` and its page. */
  function Extract(resolve: Resolver, url: string, doc: Document): (r: Result<Listing, string>)
    ensures r.Ok? ==> r.value.url == url && r.value.title != "" && Trimmed(r.value.title)
    ensures r.Ok? ==> ChooseTitle(doc).Ok? && r.value.title == ChooseTitle(doc).value && r.value.image == ChooseImage(resolve, url, doc)
    ensures r.Ok? && r.value.image.Some? ==> r.value.image.value != ""
    ensures r.Err? ==> r.error == ParseFailurePrefix + NoTitleMessage
    ensures r.Ok? <==> ChooseTitle(doc).Ok?
  {
    match ChooseTitle(doc)
    case Err(m) => Err(ParseFailurePrefix + m)
    case Ok(title) =>
      Ok(Listing(title, ChooseImage(resolve, url, doc), url))
  }

  /** The extraction as the source runs it, with the image loop. */
  method ExtractListing(resolve: Resolver, url: string, doc: Document) returns (r: Result<Listing, string>)
    ensures r == Extract(resolve, url, doc)
  {
    var title := ChooseTitle(doc);
    if title.Err? {
      return Err(ParseFailurePrefix + title.error);
    }
    var og := OgImage(doc);
    var image: Option<string>;
    if og.Some? && og.value != "" {
      image := ResolveImageUrl(resolve, url, Str(og.value));
    } else {
      image := FindFallbackImage(resolve, url, doc.imgs);
    }
    r := Ok(Listing(title.value, image, url));
  }

  // ---------------------------------------------------------------------------
  // Fetching and the whole of parseAvito

  /** The outcome of the HTTP GET: a page (status 2xx or 3xx, body text), a body that is
      not text, or a failure (network error, timeout, other status) with its message. */
  datatype FetchOutcome = Page(doc: Document) | NonTextBody | RequestFailed(message: string)

  type Fetcher = string -> FetchOutcome

  const FetchFailurePrefix := "Failed to fetch page: "

  /** `fetchHtml`: the page, or the error it throws. */
  function FetchHtml(fetch: Fetcher, url: string): (r: Result<Document, string>)
    ensures r.Err? ==> StartsWith(r.error, FetchFailurePrefix)
    ensures r.Ok? <==> fetch(url).Page?
    ensures r.Ok? ==> r.value == fetch(url).doc
    ensures fetch(url).NonTextBody? ==> r == Err(FetchFailurePrefix + "Received non-HTML response")
    ensures fetch(url).RequestFailed? && fetch(url).message == "" ==> r == Err(FetchFailurePrefix + "Network error")
    ensures fetch(url).RequestFailed? && fetch(url).message != "" ==> r == Err(FetchFailurePrefix + fetch(url).message)
  {
    match fetch(url)
    case Page(doc) => Ok(doc)
    case NonTextBody => Err(FetchFailurePrefix + "Received non-HTML response")
    case RequestFailed(m) => Err(FetchFailurePrefix + (if m == "" then "Network error" else m))
  }

  /** `parseAvito`, as a value: normalise, fetch, extract. */
  function ParseResult(parse: Parser, resolve: Resolver, fetch: Fetcher, input: Value): Result<Listing, string> {
    match NormalizeUrl(parse, input)
    case Err(m) => Err(m)
    case Ok(url) =>
      match FetchHtml(fetch, url)
      case Err(m) => Err(m)
      case Ok(doc) => Extract(resolve, url, doc)
  }

  /** Errors keep their origin: a normalisation message, a message that starts with
      "Failed to fetch page: ", or the one title failure "Failed to parse page: ...". */
  lemma ParseResultOutcomes(parse: Parser, resolve: Resolver, fetch: Fetcher, input: Value)
    ensures var r := ParseResult(parse, resolve, fetch, input);
            && (r.Ok? ==> NormalizeUrl(parse, input) == Ok(r.value.url) && r.value.title != "" && Trimmed(r.value.title))
            && (r.Err? ==> r.error in {NotAStringMessage, InvalidFormatMessage, NotAvitoMessage}
                           || StartsWith(r.error, FetchFailurePrefix)
                           || r.error == ParseFailurePrefix + NoTitleMessage)
  {
  }

  /** Handing `parseAvito` a URL that `normalizeUrl` produced parses that very URL. */
  lemma ParseNormalized(parse: Parser, resolve: Resolver, fetch: Fetcher, input: Value)
    requires UrlParserLaws(parse)
    requires NormalizeUrl(parse, input).Ok?
    ensures var url := NormalizeUrl(parse, input).value;
            ParseResult(parse, resolve, fetch, Str(url))
            == match FetchHtml(fetch, url) case Err(m) => Err(m) case Ok(doc) => Extract(resolve, url, doc)
  {
    NormalizeIdempotent(parse, input);
  }

  /** `parseAvito`. */
  method ParseAvito(parse: Parser, resolve: Resolver, fetch: Fetcher, input: Value) returns (r: Result<Listing, string>)
    ensures r == ParseResult(parse, resolve, fetch, input)
  {
    var url := NormalizeUrl(parse, input);
    if url.Err? {
      return Err(url.error);
    }
    var html := FetchHtml(fetch, url.value);
    if html.Err? {
      return Err(html.error);
    }
    r := ExtractListing(resolve, url.value, html.value);
  }
}
