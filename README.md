# Avito listing comments: a Dafny model of the server core

The server lets a signed-in user paste the URL of an Avito listing, turns it into a
stored "ad" (title and image scraped from the listing page), counts views of each ad,
lists the most viewed ads, and keeps a thread of comments under each ad. This project
models, in Dafny, the decision logic of that server and proves what it promises:

- **Listing URLs and page extraction** (`AvitoParser`, from `server/src/utils/avitoParser.js`):
  URL normalisation with its three error messages, image-reference resolution, the
  priority chain that picks a title and an image from a parsed page, and `parseAvito`
  as a whole. URL parsing, URL resolution and the HTTP fetch are function parameters.
  The page is given as lists of `<meta>`, `<title>` and `<img>` elements.
- **The three collections** (`Models`, from `server/src/models/*.js`): ads, comments
  and users. Each is a class holding its documents in insertion order. `Valid()`
  states the unique indexes: `_id` everywhere, `url` for ads and `email` for users.
  The creates and the view increment are methods on these classes.
- **Ad endpoints** (`AdController`): `resolveOrCreate`, a find-or-create with a
  duplicate-key re-read that can meet a concurrent create. `listTop`, which clamps
  limit and offset and pages the ads by views, then date. `getById`, which counts one
  view.
- **Comment endpoints** (`CommentController`): the ordered checks of `addComment`
  and its insert. `listComments` as a filter, sort and window.
- **Registration and login** (`AuthController`): the email-format test, proved equal
  to the language of its regular expression. The canonical email. The ordered checks
  of `register` and its insert. `login`, whose failures do not tell unknown addresses
  from wrong passwords.
- **Bearer authentication** (`AuthMiddleware`): `verifyAuth`, proved to admit exactly
  the headers `"Bearer "` + a non-empty token without spaces whose verified payload
  has a truthy `userId`.

Supporting modules:

- `Js` gives the JavaScript semantics the code depends on: truthiness, `String(v)`,
  `trim` with the ECMAScript white-space set, case mapping, `split` on one character,
  `parseInt(s, 10)` and UTF-16 length.
- `Sorting` gives the database's `sort().skip().limit()` as an insertion sort by a
  total preorder plus a window.
- `Wrappers` gives `Option` and `Result`.

Handlers that answer with JSON return a `Reply` datatype that carries the status
and the error message the code sends.

Facts about the code worth knowing before reading the model:

- A failed fetch or parse is answered with 422 and creates nothing. No placeholder ad
  is ever stored.
- There is no retry, no cache of parsed pages and no fallback store: one request
  makes at most one fetch.
- Normalisation keeps the query and the fragment of the URL.

The host test accepts any host name that contains `avito` anywhere, for example
`notavito.example` (`AvitoParser.HostMarkerAnywhere`).

## Model

| member | source | states |
|---|---|---|
| Js.Trim | server/src/utils/avitoParser.js:41 | `trim` yields a string without white space at either end that is an infix of the input with only white space outside it. The result is empty iff the input is all white space, and an already trimmed string is unchanged |
| Js.Contains | server/src/utils/avitoParser.js:27 | `includes(sub)` is true iff `sub` occurs at some index |
| Js.SplitOnce | server/src/middleware/authMiddleware.js:14 | a string with the separator exactly once splits into the part before it and the part after it |
| Js.SplitTwice | server/src/middleware/authMiddleware.js:14-15 | a string with the separator at two places splits into more than two parts |
| Js.Split | server/src/middleware/authMiddleware.js:14 | `split(sep)` gives one more part than the separator has occurrences, and no part contains the separator |
| Js.JoinSplit | server/src/middleware/authMiddleware.js:14 | joining the parts with the separator gives the input back |
| Js.ParseInt | server/src/controllers/adController.js:68-71 | `parseInt(s, 10)` is NaN iff, after leading white space and an optional sign, no digit follows. Without a minus sign the number is non-negative |
| Js.AbsentIsNaN | server/src/controllers/commentController.js:62-65 | `parseInt` of an absent query parameter, `String(undefined)`, is NaN |
| Js.ParseIntOfDecimal | server/src/controllers/adController.js:69-70 | `parseInt` of a decimal numeral, followed by anything that does not start with a digit, is that number |
| Js.Utf16Length | server/src/controllers/authController.js:31 | `length` counts UTF-16 code units, at least one per character |
| Sorting.SortBySorted | server/src/controllers/adController.js:80-81 | the sort yields an ordering by the given total preorder, and that ordering is a permutation of the input |
| Sorting.SortedPermutationsEqual | server/src/controllers/commentController.js:71 | when no two distinct elements tie, two sorted permutations of the same documents are identical |
| Sorting.Window | server/src/controllers/adController.js:82-83 | `skip(offset).limit(limit)` keeps exactly the elements at `offset`, `offset + 1`, … up to `limit` of them, and none when `offset` is past the end |
| Sorting.WindowsTile | server/src/controllers/commentController.js:72-73 | consecutive pages meet with no gap and no overlap |
| AvitoParser.NormalizeUrl | server/src/utils/avitoParser.js:12-31 | an empty or non-string input fails with "URL must be a non-empty string", a candidate that does not parse fails with "Invalid URL format", and a parsed host whose lowercase lacks "avito" fails with "URL must point to an Avito listing page". Otherwise the result is the serialised URL, query and fragment included |
| AvitoParser.CandidatePrefix | server/src/utils/avitoParser.js:19 | "https://" is prepended exactly when the input does not start with "http://" or "https://" (any case) or with "//" |
| AvitoParser.HostMarkerAnywhere | server/src/utils/avitoParser.js:25-29 | an input whose lowercased host contains "avito" at any position is accepted |
| AvitoParser.NormalizedIsHttp | server/src/utils/avitoParser.js:19-30 | every accepted URL has scheme http or https and its serialisation starts with that scheme and "://" |
| AvitoParser.NormalizeIdempotent | server/src/utils/avitoParser.js:85 | normalising a normalised URL succeeds and returns the same string |
| AvitoParser.ProtocolRelativeRejected | server/src/utils/avitoParser.js:19-22 | an input starting with "//" keeps its prefix and always fails with "Invalid URL format" |
| AvitoParser.ResolveImageUrl | server/src/utils/avitoParser.js:39-48 | a non-string, empty, white-space, `data:` or `blob:` source gives null. The result is a URL iff the trimmed source resolves against the base, and it is then the resolver's serialisation of that URL, unchanged (`about:blank` included) |
| AvitoParser.SelectMeta | server/src/utils/avitoParser.js:93-94 | the selection holds exactly the meta elements whose attribute has the given value, and is never longer than the document's list |
| AvitoParser.SelectMetaCount | server/src/utils/avitoParser.js:93-94 | each matching element occurs in the selection as often as in the document, and no other element occurs |
| AvitoParser.SelectMetaFirst | server/src/utils/avitoParser.js:93-94 | when some element matches, the selection's first element is the first matching one in document order, the one `attr("content")` reads |
| AvitoParser.SelectMetaEmpty | server/src/utils/avitoParser.js:93-94 | when no element matches, the selection is empty |
| AvitoParser.ChooseTitle | server/src/utils/avitoParser.js:92-100 | a chosen title is non-empty and trimmed, and the only error is "Unable to parse title from the page" |
| AvitoParser.TitlePriority | server/src/utils/avitoParser.js:92-100 | the title is the trimmed first non-empty value of og:title by `property`, og:title by `name` and the first `<title>` text. A blank result is the error |
| AvitoParser.BlankOgTitleIsFinal | server/src/utils/avitoParser.js:92-100 | a white-space og:title is chosen and fails, even when a usable `<title>` exists |
| AvitoParser.FirstResolvedImg | server/src/utils/avitoParser.js:108-117 | an image is found iff some `<img>` yields one, and a found image is non-empty |
| AvitoParser.ChooseImage | server/src/utils/avitoParser.js:103-120 | a chosen image is non-empty. Without a non-empty og:image content there is an image iff some `<img>` yields one |
| AvitoParser.FirstResolvedImgAt | server/src/utils/avitoParser.js:109-117 | the fallback image is that of some `<img>`, and no earlier `<img>` yields one |
| AvitoParser.FirstResolvedImgNone | server/src/utils/avitoParser.js:109-117 | no fallback image means no `<img>` yields one |
| AvitoParser.UnresolvableSrcShadows | server/src/utils/avitoParser.js:112-114 | a non-empty `src` that does not resolve hides that element's `data-src` and `data-original` |
| AvitoParser.FindFallbackImage | server/src/utils/avitoParser.js:108-117 | the loop over the `<img>` elements finds the first resolved image in document order |
| AvitoParser.OgImageIsFinal | server/src/utils/avitoParser.js:103-120 | og:image content, when present, alone decides the image, even when it does not resolve. The `<img>` elements are ignored |
| AvitoParser.Extract | server/src/utils/avitoParser.js:88-126 | on success the listing keeps the URL, its title is the one `ChooseTitle` picks and its image the one `ChooseImage` picks. The only failure is "Failed to parse page: " + the title message, and it happens iff no title is found |
| AvitoParser.ExtractListing | server/src/utils/avitoParser.js:88-126 | the extraction with its image loop computes `Extract` |
| AvitoParser.FetchHtml | server/src/utils/avitoParser.js:55-76 | the page is returned iff the request yields a text body, and it is that body. A non-text body fails with "Failed to fetch page: Received non-HTML response", and a failed request with "Failed to fetch page: " + its message, or + "Network error" when the message is empty |
| AvitoParser.ParseResultOutcomes | server/src/utils/avitoParser.js:84-127 | a result carries the normalised URL and a trimmed non-empty title. Every error is a normalisation message, a fetch error or the title failure |
| AvitoParser.ParseNormalized | server/src/utils/avitoParser.js:84-86 | parsing a normalised URL fetches and extracts that same URL |
| AvitoParser.ParseAvito | server/src/utils/avitoParser.js:84-127 | normalise, fetch and extract compute `ParseResult` |
| Models.FindAdByUrl | server/src/controllers/adController.js:27 | the ad found has the URL, and none is found only when no ad has it |
| Models.AdIndex | server/src/controllers/adController.js:103 | the position found holds the id, and none is found only when no ad has it |
| Models.BumpViews | server/src/controllers/adController.js:103 | `$inc` raises the views of the one ad by exactly one and changes no other field and no other ad |
| Models.BumpViewsTimesCounts | server/src/controllers/adController.js:103 | `m` successive increments raise the count by exactly `m`, so none is lost |
| Models.AdCollection.Create | server/src/models/Ad.js:5-33 | the insert succeeds iff neither `_id` nor `url` is taken, and appends the ad. The unique indexes are kept |
| Models.AdCollection.FindByIdAndIncrementViews | server/src/controllers/adController.js:103 | an unknown id changes nothing. Otherwise that ad gets one more view and the updated ad is returned |
| Models.CommentCollection.Create | server/src/controllers/commentController.js:32-37 | the insert succeeds iff the `_id` is free, and appends the comment |
| Models.FindUserByEmail | server/src/controllers/authController.js:35 | the user found has the email, and none is found only when no user has it |
| Models.FindUserById | server/src/controllers/commentController.js:39-41 | the user found has the id, and none is found only when no user has it |
| Models.UserCollection.Create | server/src/models/User.js:5-39 | the insert succeeds iff neither `_id` nor `email` is taken, and appends the user. One user per email is kept |
| AdController.RequestedUrl | server/src/controllers/adController.js:14-24 | a missing, empty or non-string URL gives "URL is required", and every error is that or one of the three normalisation messages. The result is Ok iff the trimmed URL is non-empty and its candidate parses with an Avito host, and it is then that URL serialised |
| AdController.BlankUrlMessage | server/src/controllers/adController.js:15-24 | a URL made only of white space passes the first check and fails with "URL must be a non-empty string" |
| AdController.RequestedUrlIgnoresPadding | server/src/controllers/adController.js:21 | white space around the submitted URL does not change the outcome |
| AdController.ResolveOrCreate | server/src/controllers/adController.js:12-57 | a missing or invalid URL gives 400 and an existing ad is returned with `created: false`. A parse failure gives 422, and none of these three cases touches the store. Otherwise the ad {normalised url, parsed title, image or "", views 0} is created with `created: true`. On a duplicate key the stored ad with that URL is returned with `created: false`, or a 500 if there is none. The store keeps every old ad and at most one ad per URL |
| AdController.AdOrderIsTotalPreorder | server/src/controllers/adController.js:81 | views descending, then date descending, is a total preorder |
| AdController.ListTop | server/src/controllers/adController.js:67-86 | a NaN limit becomes 20, and the limit is then clamped to [1, 100]. A NaN or negative offset becomes 0. The page is the window at that offset of a views-then-date ordering of all ads, and `total` counts all ads |
| AdController.GetById | server/src/controllers/adController.js:96-112 | an empty or invalid id gives 400 and an unknown id gives 404, both with no change. Otherwise exactly that ad's views go up by one and the updated ad is returned |
| CommentController.Populate | server/src/controllers/commentController.js:39-41 | the populated comment keeps its fields. Its author is shown, with id and email only, iff that user exists |
| CommentController.SubmittedText | server/src/controllers/commentController.js:22 | the text is trimmed, and it is empty iff the body field is not a string or is all white space. A string field yields an infix of it with only white space outside |
| CommentController.CheckComment | server/src/controllers/commentController.js:13-30 | the checks come in this order: invalid ad id 400, missing ad 404, empty trimmed text 400, no user 401, and an uncastable user id 500. A draft names the existing ad, the user and the non-empty trimmed text |
| CommentController.AddComment | server/src/controllers/commentController.js:9-47 | every failed check answers without inserting. Otherwise the comment {ad, user, trimmed text, now} is inserted and returned populated. Comments keep referring to stored ads |
| CommentController.SortParam | server/src/controllers/commentController.js:59 | an absent or falsy `sort` gives "DESC". Otherwise the echo is `String(sort)` with every character upper-cased, so it contains no lower-case letter |
| CommentController.AscendingIgnoresCase | server/src/controllers/commentController.js:59-60 | the order is ascending iff `sort` is present and reads "asc" in any case. Every other value, and an absent one, is descending |
| CommentController.SafeLimit | server/src/controllers/commentController.js:65 | a NaN limit gives 20, one below 1 gives 1, one above 100 gives 100, and one in [1, 100] is kept |
| CommentController.SafeOffset | server/src/controllers/commentController.js:66 | a non-negative offset is kept, and a NaN or negative one becomes 0 |
| CommentController.CommentOrderIsTotalPreorder | server/src/controllers/commentController.js:71 | date then `_id`, both ascending or both descending, is a total preorder |
| CommentController.OfAd | server/src/controllers/commentController.js:69-70 | the selection holds exactly the comments of the ad and is never longer than the collection |
| CommentController.OfAdCount | server/src/controllers/commentController.js:69-70 | every comment of the ad occurs in the selection as often as in the collection, and no other comment occurs |
| CommentController.ListComments | server/src/controllers/commentController.js:51-91 | an invalid ad id gives 400. Otherwise the page is the window of an ordering of that ad's comments in the chosen direction, populated. The pagination echoes the ad's comment count, the sanitised limit and offset, and the uppercased sort |
| CommentController.CommentPageDetermined | server/src/controllers/commentController.js:71-73 | with unique `_id`s every ordering by date and `_id` gives the same page |
| CommentController.NoTies | server/src/controllers/commentController.js:71 | with unique `_id`s, two comments of one ad that each precede the other are the same comment |
| CommentController.PageBelongsToAd | server/src/controllers/commentController.js:69-73 | every listed comment belongs to the ad, and a page holds at most `limit` comments |
| AuthController.SummaryHidesHash | server/src/controllers/authController.js:53-57 | two users get the same answer summary iff they agree on id, email and creation date, so the password hash and the verification flag never reach an answer |
| AuthController.IsValidEmail | server/src/controllers/authController.js:9-13 | `isValidEmail` holds iff the input is a string in the language of `/^[^\s@]+@[^\s@]+\.[^\s@]+$/` |
| AuthController.EmailFormat | server/src/controllers/authController.js:11-12 | the test on a string accepts exactly the strings with one `@` that has something before it, and a `.` after it that is neither the first nor the last character of the domain. No other character may be `@` or white space |
| AuthController.ValidEmailHasShape | server/src/controllers/authController.js:11-12 | every string the test accepts has the regular expression's shape |
| AuthController.ShapedEmailIsValid | server/src/controllers/authController.js:11-12 | every string of the regular expression's shape is accepted |
| AuthController.CanonicalEmail | server/src/controllers/authController.js:35 | the canonical email has no white space at either end |
| AuthController.ValidEmailStoredLowercase | server/src/controllers/authController.js:35-43 | for a well-formed email the canonical form is just its lowercase |
| AuthController.CanonicalIgnoresCase | server/src/controllers/authController.js:76 | upper-casing an address does not change its canonical form |
| AuthController.CheckRegistration | server/src/controllers/authController.js:23-38 | the checks come in this order: missing field 400, bad format 400, password not a string or shorter than 6 UTF-16 units 400, and a taken email 409. On success the email is the lowercase input and no user has it |
| AuthController.Register | server/src/controllers/authController.js:19-66 | every failed check answers without inserting. Otherwise the user {lowercase email, hash, not verified, now} is created and answered with 201, the token and the summary. A duplicate key, caused by a concurrent registration, answers 409. One user per email is kept |
| AuthController.Login | server/src/controllers/authController.js:68-100 | missing fields give 400. An unknown address, or a known one with a string password its hash rejects, gives 401 "Invalid email or password". A known address with a non-string password makes `compare` throw and gives 500. Success is 200 with the token and summary of a stored user with that canonical email whose hash matches the password |
| AuthController.LoginFailureUniform | server/src/controllers/authController.js:77-84 | an unknown address and a known address with a wrong password get the identical answer |
| AuthController.LoginAfterRegister | server/src/controllers/authController.js:76-96 | right after a registration's create, logging in with the same password succeeds for the new user, with the address as typed and with every spelling whose lower case is the same (e.g. "Foo@Bar.COM" for "foo@bar.com") |
| AuthMiddleware.VerifyAuth | server/src/middleware/authMiddleware.js:7-34 | every rejection is a 401 |
| AuthMiddleware.SplitBearer | server/src/middleware/authMiddleware.js:14-19 | splitting gives exactly "Bearer" and one more part iff the header is "Bearer " followed by no further space. That part is what follows "Bearer " |
| AuthMiddleware.VerifyAuthDecision | server/src/middleware/authMiddleware.js:9-33 | a missing or non-string header gives "Authorization header missing", and any other malformed header gives "Invalid Authorization header format". "Bearer " alone gives "Token not provided". After that, a verification error gives its message or "Unauthorized", a payload without a truthy `userId` gives "Invalid token payload", and anything else admits `String(userId)` |
| AuthMiddleware.AdmitExactly | server/src/middleware/authMiddleware.js:14-30 | a request is admitted iff the header is "Bearer " + a non-empty token without spaces that verifies with a truthy `userId`, and the admitted id is that claim as a string |
| AuthMiddleware.StrictFormat | server/src/middleware/authMiddleware.js:14-17 | "Bearer" followed by two spaces, or the scheme in lower case, is a malformed header |

## Left out

- HTTP fetching (`fetchHtml`, server/src/utils/avitoParser.js:55-76): axios is not modelled. Its outcome is a parameter: a parsed page, a non-text body, or a failure with a message.
- HTML parsing (cheerio): the page is given as its `<meta>` attribute maps, `<title>` texts and `<img>` attribute maps. A `<title>` text is taken as given.
- WHATWG URL parsing, resolution and serialisation are not modelled. `new URL(s)` is a parameter returning the URL's parts, and its `toString()` is their concatenation with "://", which is exact for the http and https URLs that normalisation accepts. `new URL(s, base).toString()` for image references is a parameter returning the serialisation itself, which is never empty and need not contain "://".
- AvitoParser.NormalizeIdempotent, AvitoParser.NormalizedIsHttp, AvitoParser.ProtocolRelativeRejected and AvitoParser.ParseNormalized hold under the parser facts stated by `UrlParserLaws`. These are assumptions about `new URL`, not proved facts. The re-parsing law covers only serialised `http` and `https` URLs, which always have a host. The law on `//` inputs holds because `new URL` without a base rejects a string with no scheme.
- AvitoParser.SelectMeta states which elements the selection holds, AvitoParser.SelectMetaCount how often, and AvitoParser.SelectMetaFirst its first element. The order of the later elements is not stated, because `attr` reads only the first element of a selection.
- bcrypt (`hash`, `compare`) and JSON Web Tokens (`sign`, `verify`) are parameters. `verify` returns the `userId` claim or the thrown message. A falsy payload is modelled as a payload without `userId`, since both give the same answer.
- AuthController.LoginAfterRegister assumes that `compare` accepts a password against its own hash.
- ObjectId validity (`mongoose.isValidObjectId`, `Types.ObjectId.isValid`) and the cast of an id string are one parameter, `castId`. It is None for a string the check rejects.
- Timestamps (`Date.now`, `new Date()`) and the `_id` a create assigns are parameters.
- Concurrency: a concurrent create is an optional `interloper` document, inserted between this request's lookup and its own create. `Promise.all` in the list endpoints is modelled sequentially.
- Models.AdCollection.Create: the schema's `trim` setters are not modelled, since the values the controllers store are already trimmed.
- Models.UserCollection.Create: the schema's `trim` and `lowercase` setters are not modelled, since `register` stores the canonical email.
- The 500 answers are one `ServerError` value, without their message text. Only these 500s are modelled: a create that meets a duplicate key with no stored document to re-read in `resolveOrCreate`, a user id that does not cast in `addComment`, a comment insert whose `_id` is taken, and a non-string password for a known address in `login`. A failing `findOne`, `find`, `countDocuments` or `create` for any other reason is not modelled: the database always answers.
- AuthController.CanonicalIgnoresCase holds only for the ASCII case mapping of the model. JavaScript maps "ß" to "SS", "ı" to "I" and "ſ" to "S" on upper-casing, so lower-casing the result does not always give back the lower-case input.
- AuthController.LoginAfterRegister: "the same lower case" is the model's ASCII lower case. JavaScript's `toLowerCase` also maps some non-ASCII characters to ASCII letters (the Kelvin sign to "k"), so a few more spellings log in than the lemma names.
- CommentController.AscendingIgnoresCase holds only for the ASCII case mapping. In JavaScript "aſc".toUpperCase() is "ASC", so that spelling also sorts ascending.
- Js.ToLower and Js.ToUpper map only ASCII letters. JavaScript's full Unicode case mapping is not modelled, including mappings that change the length.
- Js.ParseInt: numerals beyond the range of a double do not become `Infinity`, and large values keep full precision. So `listTop`'s `Number.isFinite` and `listComments`' `Number.isNaN` are modelled alike.
- Ad ordering: ties on views and date are left unspecified, as in the database. The page is stated for some ordering by views and date.
- Process start-up (server/src/server.js), routing (server/src/routes/main.js, which mounts only the authentication routes) and mail (server/src/utils/mailer.js) are plumbing and are not modelled.
- The `react/` client is not part of this model.
