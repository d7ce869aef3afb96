/**
 * The comment endpoints (server/src/controllers/commentController.js): adding a
 * comment to an ad after a fixed chain of checks, and listing an ad's comments
 * page by page in either date order.
 */
module CommentController {
  import opened Wrappers
  import opened Js
  import opened Sorting
  import opened Models

  /** The author of a comment as `populate({ path: "user", select: "email _id" })`
      shows it: never the password hash. */
  datatype Author = Author(id: ObjectId, email: string)

  /** A comment as the endpoints return it, with its `user` populated (None for a
      user that no longer exists). */
  datatype CommentView = CommentView(id: ObjectId, ad: ObjectId, user: Option<Author>, text: string, createdAt: int)

  datatype Pagination = Pagination(total: nat, limit: int, offset: int, sort: string)

  /** The JSON answer of a comment endpoint. `ServerError` is a 500 whose text comes
      from the database driver. */
  datatype Reply =
    | Created(comment: CommentView)
    | Page(data: seq<CommentView>, pagination: Pagination)
    | Failure(status: int, error: string)
    | ServerError

  const InvalidIdMessage := "Invalid ad id"
  const NotFoundMessage := "Ad not found"
  const TextRequiredMessage := "Text is required"
  const UnauthorizedMessage := "Unauthorized"

  /** `populate` of the `user` field. */
  function Populate(users: seq<User>, c: Comment): (v: CommentView)
    ensures v.id == c.id && v.ad == c.ad && v.text == c.text && v.createdAt == c.createdAt
    ensures v.user.Some? <==> exists u :: u in users && u.id == c.user
    ensures v.user.Some? ==> v.user.value.id == c.user && Author(c.user, v.user.value.email) in AuthorsOf(users)
  {
    var u := FindUserById(users, c.user);
    CommentView(c.id, c.ad, if u.Some? then Some(Author(u.value.id, u.value.email)) else None, c.text, c.createdAt)
  }

  /** What a populated comment may show of the users. */
  ghost function AuthorsOf(users: seq<User>): set<Author> {
    set u | u in users :: Author(u.id, u.email)
  }

  function PopulateAll(users: seq<User>, cs: seq<Comment>): (vs: seq<CommentView>)
    ensures |vs| == |cs|
    ensures forall k :: 0 <= k < |cs| ==> vs[k] == Populate(users, cs[k])
  {
    seq(|cs|, k requires 0 <= k < |cs| => Populate(users, cs[k]))
  }

  // ---------------------------------------------------------------------------
  // addComment

  /** `req.body?.text` trimmed, or "" when it is not a string. */
  function SubmittedText(text: Value): (t: string)
    ensures Trimmed(t)
    ensures t == "" <==> !text.Str? || forall k :: 0 <= k < |text.s| ==> IsSpace(text.s[k])
    ensures text.Str? ==> exists i, j :: StripsTo(text.s, t, i, j)
  {
    if text.Str? then Trim(text.s) else ""
  }

  /** `req.user && req.user.userId` is truthy. */
  predicate SignedIn(userId: Option<string>) {
    userId.Some? && userId.value != ""
  }

  /** The fields of the comment that the checks of `addComment` admit. */
  datatype Draft = Draft(ad: ObjectId, user: ObjectId, text: string)

  /** The checks of `addComment`, in the order the handler makes them: the ad id,
      the ad itself, the text, the signed-in user, and last the user id's cast,
      whose failure surfaces as a 500 from `Comment.create`. */
  function CheckComment(ads: seq<Ad>, adId: string, text: Value, userId: Option<string>,
                        castId: string -> Option<ObjectId>): (r: Result<Draft, Reply>)
    ensures r == Err(Failure(400, InvalidIdMessage)) <==> castId(adId).None?
    ensures r == Err(Failure(404, NotFoundMessage)) <==>
              castId(adId).Some? && AdIndex(ads, castId(adId).value).None?
    ensures r == Err(Failure(400, TextRequiredMessage)) <==>
              castId(adId).Some? && AdIndex(ads, castId(adId).value).Some? && SubmittedText(text) == ""
    ensures r == Err(Failure(401, UnauthorizedMessage)) <==>
              castId(adId).Some? && AdIndex(ads, castId(adId).value).Some? && SubmittedText(text) != ""
              && !SignedIn(userId)
    ensures r == Err(ServerError) <==>
              castId(adId).Some? && AdIndex(ads, castId(adId).value).Some? && SubmittedText(text) != ""
              && SignedIn(userId) && castId(userId.value).None?
    ensures r.Ok? ==> && Some(r.value.ad) == castId(adId)
                      && AdIndex(ads, r.value.ad).Some?
                      && r.value.text == SubmittedText(text) && r.value.text != ""
                      && SignedIn(userId) && Some(r.value.user) == castId(userId.value)
  {
    if castId(adId).None? then Err(Failure(400, InvalidIdMessage))
    else if AdIndex(ads, castId(adId).value).None? then Err(Failure(404, NotFoundMessage))
    else if SubmittedText(text) == "" then Err(Failure(400, TextRequiredMessage))
    else if !SignedIn(userId) then Err(Failure(401, UnauthorizedMessage))
    else if castId(userId.value).None? then Err(ServerError)
    else Ok(Draft(castId(adId).value, castId(userId.value).value, SubmittedText(text)))
  }

  /** Every comment belongs to a stored ad. */
  ghost predicate CommentsReferToAds(comments: seq<Comment>, ads: seq<Ad>) {
    forall c :: c in comments ==> exists a :: a in ads && a.id == c.ad
  }

  /** `addComment`: the checks, then `Comment.create` and the populated re-read. */
  method AddComment(comments: CommentCollection, ads: seq<Ad>, users: seq<User>, adId: string, text: Value,
                    userId: Option<string>, castId: string -> Option<ObjectId>, newId: ObjectId, now: int)
    returns (reply: Reply)
    requires comments.Valid()
    modifies comments
    ensures comments.Valid()
    ensures var check := CheckComment(ads, adId, text, userId, castId);
            && (check.Err? ==> reply == check.error && comments.docs == old(comments.docs))
            && (check.Ok? ==>
                  var c := Comment(newId, check.value.ad, check.value.user, check.value.text, now);
                  && comments.docs == AfterCommentCreate(old(comments.docs), c)
                  && reply == if CommentInsertable(old(comments.docs), c) then Created(Populate(users, c)) else ServerError)
    ensures CommentsReferToAds(old(comments.docs), ads) ==> CommentsReferToAds(comments.docs, ads)
  {
    var check := CheckComment(ads, adId, text, userId, castId);
    if check.Err? {
      return check.error;
    }
    var c := Comment(newId, check.value.ad, check.value.user, check.value.text, now);
    var ok := comments.Create(c);
    if !ok {
      return ServerError;
    }
    var k := AdIndex(ads, c.ad).value;
    assert ads[k] in ads && ads[k].id == c.ad;
    reply := Created(Populate(users, c));
  }

  // ---------------------------------------------------------------------------
  // listComments

  /** `String(sort || "DESC").toUpperCase()`, which the answer echoes. */
  function SortParam(sort: Value): (p: string)
    ensures !Truthy(sort) ==> p == "DESC"
    ensures Truthy(sort) ==> |p| == |ToText(sort)| && forall k :: 0 <= k < |p| ==> p[k] == UpperChar(ToText(sort)[k])
    ensures forall k :: 0 <= k < |p| ==> !('a' <= p[k] <= 'z')
  {
    ToUpper(if Truthy(sort) then ToText(sort) else "DESC")
  }

  /** Dates ascend exactly when the echoed parameter is "ASC". */
  predicate Ascending(sort: Value) {
    SortParam(sort) == "ASC"
  }

  /** Any capitalisation of "asc" asks for ascending dates; nothing else does,
      and an absent parameter means descending. */
  lemma AscendingIgnoresCase(sort: Value)
    ensures Ascending(sort) <==> Truthy(sort) && ToLower(ToText(sort)) == "asc"
  {
    if Ascending(sort) {
      var t := ToText(sort);
      assert |t| == 3;
      assert ToLower(t) == "asc" by {
        assert ToUpper(t)[0] == 'A' && ToUpper(t)[1] == 'S' && ToUpper(t)[2] == 'C';
      }
    }
    if Truthy(sort) && ToLower(ToText(sort)) == "asc" {
      var t := ToText(sort);
      assert LowerChar(t[0]) == 'a' && LowerChar(t[1]) == 's' && LowerChar(t[2]) == 'c';
      assert ToUpper(t) == "ASC";
    }
  }

  /** `Number.isNaN(l) ? 20 : Math.min(Math.max(l, 1), 100)` */
  function SafeLimit(l: Option<int>): (limit: int)
    ensures 1 <= limit <= 100
    ensures l.None? ==> limit == 20
    ensures l.Some? && l.value < 1 ==> limit == 1
    ensures l.Some? && l.value > 100 ==> limit == 100
    ensures l.Some? && 1 <= l.value <= 100 ==> limit == l.value
  {
    if l.None? then 20
    else if l.value < 1 then 1
    else if l.value > 100 then 100
    else l.value
  }

  /** `Number.isNaN(o) || o < 0 ? 0 : o` */
  function SafeOffset(o: Option<int>): (offset: nat)
    ensures o.Some? && o.value >= 0 ==> offset == o.value
    ensures o.None? || o.value <= 0 ==> offset == 0
  {
    if o.None? || o.value < 0 then 0 else o.value
  }

  /** `sort({ createdAt: dir, _id: dir })`: by date and then by `_id`, both ascending
      or both descending. */
  function CommentPrecedes(ascending: bool): (le: (Comment, Comment) -> bool) {
    (a: Comment, b: Comment) =>
      if ascending then a.createdAt < b.createdAt || (a.createdAt == b.createdAt && a.id <= b.id)
      else a.createdAt > b.createdAt || (a.createdAt == b.createdAt && a.id >= b.id)
  }

  lemma CommentOrderIsTotalPreorder(ascending: bool)
    ensures TotalPreorder(CommentPrecedes(ascending))
  {
  }

  /** `Comment.find({ ad })`: the comments of one ad, in collection order. */
  function OfAd(comments: seq<Comment>, ad: ObjectId): (r: seq<Comment>)
    ensures |r| <= |comments|
    ensures forall c :: c in r <==> c in comments && c.ad == ad
  {
    if comments == [] then []
    else (if comments[0].ad == ad then [comments[0]] else []) + OfAd(comments[1..], ad)
  }

  /** The filter drops no duplicate: every comment of the ad occurs in the selection
      as often as in the collection. */
  lemma {:induction false} OfAdCount(comments: seq<Comment>, ad: ObjectId)
    ensures forall c :: multiset(OfAd(comments, ad))[c] == if c.ad == ad then multiset(comments)[c] else 0
  {
    if comments != [] {
      OfAdCount(comments[1..], ad);
      assert comments == [comments[0]] + comments[1..];
    }
  }

  /** `listComments`. The comment page is one window of the ad's comments in the
      chosen order; `total` counts them all and the pagination echoes the limit,
      offset and sort actually used. */
  function ListComments(comments: seq<Comment>, users: seq<User>, adId: string,
                        limit: Value, offset: Value, sort: Value,
                        castId: string -> Option<ObjectId>): (r: Reply)
    ensures castId(adId).None? <==> r == Failure(400, InvalidIdMessage)
    ensures castId(adId).Some? ==>
              var mine := OfAd(comments, castId(adId).value);
              && r.Page?
              && r.pagination == Pagination(|mine|, SafeLimit(ParseInt(ToText(limit))),
                                            SafeOffset(ParseInt(ToText(offset))), SortParam(sort))
              && exists order :: && SortedBy(order, CommentPrecedes(Ascending(sort)))
                                 && multiset(order) == multiset(mine)
                                 && r.data == PopulateAll(users, Window(order, r.pagination.offset, r.pagination.limit))
  {
    if castId(adId).None? then Failure(400, InvalidIdMessage)
    else
      var mine := OfAd(comments, castId(adId).value);
      var safeLimit := SafeLimit(ParseInt(ToText(limit)));
      var safeOffset := SafeOffset(ParseInt(ToText(offset)));
      var order := SortBy(mine, CommentPrecedes(Ascending(sort)));
      CommentOrderIsTotalPreorder(Ascending(sort));
      SortBySorted(mine, CommentPrecedes(Ascending(sort)));
      Page(PopulateAll(users, Window(order, safeOffset, safeLimit)), Pagination(|mine|, safeLimit, safeOffset, SortParam(sort)))
  }

  /** Comments never tie: `_id` is unique, so the page is determined. Every ordering
      of the ad's comments by date and `_id` yields the same page. */
  lemma CommentPageDetermined(comments: seq<Comment>, users: seq<User>, adId: string,
                              limit: Value, offset: Value, sort: Value,
                              castId: string -> Option<ObjectId>, order: seq<Comment>)
    requires UniqueCommentIds(comments) && castId(adId).Some?
    requires SortedBy(order, CommentPrecedes(Ascending(sort)))
    requires multiset(order) == multiset(OfAd(comments, castId(adId).value))
    ensures var r := ListComments(comments, users, adId, limit, offset, sort, castId);
            r.Page? && r.data == PopulateAll(users, Window(order, r.pagination.offset, r.pagination.limit))
  {
    var r := ListComments(comments, users, adId, limit, offset, sort, castId);
    var mine := OfAd(comments, castId(adId).value);
    var le := CommentPrecedes(Ascending(sort));
    var other :| && SortedBy(other, le) && multiset(other) == multiset(mine)
                 && r.data == PopulateAll(users, Window(other, r.pagination.offset, r.pagination.limit));
    NoTies(comments, castId(adId).value, Ascending(sort), order);
    SortedPermutationsEqual(order, other, le);
  }

  /** An element of an ordering of the ad's comments is a stored comment of the ad. */
  lemma OrderedOfAd(comments: seq<Comment>, ad: ObjectId, order: seq<Comment>, x: Comment)
    requires multiset(order) == multiset(OfAd(comments, ad)) && x in order
    ensures x in comments && x.ad == ad
  {
    assert x in multiset(OfAd(comments, ad));
  }

  /** Two comments of one ad that each precede the other are the same comment. */
  lemma NoTies(comments: seq<Comment>, ad: ObjectId, ascending: bool, order: seq<Comment>)
    requires UniqueCommentIds(comments)
    requires multiset(order) == multiset(OfAd(comments, ad))
    ensures forall x, y ::
              (x in order && y in order && CommentPrecedes(ascending)(x, y) && CommentPrecedes(ascending)(y, x))
              ==> x == y
  {
    forall x, y | x in order && y in order && CommentPrecedes(ascending)(x, y) && CommentPrecedes(ascending)(y, x)
      ensures x == y
    {
      OrderedOfAd(comments, ad, order, x);
      OrderedOfAd(comments, ad, order, y);
      SameIdSameComment(comments, x, y);
    }
  }

  lemma SameIdSameComment(comments: seq<Comment>, x: Comment, y: Comment)
    requires UniqueCommentIds(comments) && x in comments && y in comments && x.id == y.id
    ensures x == y
  {
    var i :| 0 <= i < |comments| && comments[i] == x;
    var j :| 0 <= j < |comments| && comments[j] == y;
    assert !(i < j) && !(j < i);
  }

  /** Every listed comment belongs to the requested ad, and a page holds at most
      `limit` comments. */
  lemma PageBelongsToAd(comments: seq<Comment>, users: seq<User>, adId: string,
                        limit: Value, offset: Value, sort: Value, castId: string -> Option<ObjectId>)
    requires castId(adId).Some?
    ensures var r := ListComments(comments, users, adId, limit, offset, sort, castId);
            && |r.data| <= r.pagination.limit
            && forall v :: v in r.data ==> v.ad == castId(adId).value
  {
    var r := ListComments(comments, users, adId, limit, offset, sort, castId);
    var mine := OfAd(comments, castId(adId).value);
    var order :| && SortedBy(order, CommentPrecedes(Ascending(sort)))
                 && multiset(order) == multiset(mine)
                 && r.data == PopulateAll(users, Window(order, r.pagination.offset, r.pagination.limit));
    forall x: Comment | x in order ensures x.ad == castId(adId).value {
      OrderedOfAd(comments, castId(adId).value, order, x);
    }
    PageOfOrder(users, order, r.pagination.offset, r.pagination.limit, castId(adId).value);
  }

  /** A page cut from comments of one ad shows only comments of that ad. */
  lemma PageOfOrder(users: seq<User>, order: seq<Comment>, offset: nat, limit: nat, ad: ObjectId)
    requires forall x :: x in order ==> x.ad == ad
    ensures forall v :: v in PopulateAll(users, Window(order, offset, limit)) ==> v.ad == ad
  {
    var w := Window(order, offset, limit);
    forall v: CommentView | v in PopulateAll(users, w) ensures v.ad == ad {
      var k :| 0 <= k < |w| && PopulateAll(users, w)[k] == v;
      assert w[k] == order[offset + k];
    }
  }
}
