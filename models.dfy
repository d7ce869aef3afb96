/**
 * The three MongoDB collections the controllers read and write
 * (server/src/models/Ad.js, Comment.js, User.js), each as an object holding its
 * documents in insertion order, with the unique indexes the schemas declare.
 */
module Models {
  import opened Wrappers

  /** A document's `_id`. */
  type ObjectId = nat

  /** server/src/models/Ad.js; `url` is unique. */
  datatype Ad = Ad(id: ObjectId, url: string, title: string, image: string, views: int, createdAt: int)

  /** server/src/models/Comment.js; `ad` and `user` refer to an Ad and a User. */
  datatype Comment = Comment(id: ObjectId, ad: ObjectId, user: ObjectId, text: string, createdAt: int)

  /** server/src/models/User.js; `email` is unique. */
  datatype User = User(id: ObjectId, email: string, passwordHash: string, emailVerified: bool, createdAt: int)

  // ---------------------------------------------------------------------------
  // Ads

  ghost predicate UniqueAdIds(ads: seq<Ad>) {
    forall i, j :: 0 <= i < j < |ads| ==> ads[i].id != ads[j].id
  }

  ghost predicate UniqueUrls(ads: seq<Ad>) {
    forall i, j :: 0 <= i < j < |ads| ==> ads[i].url != ads[j].url
  }

  /** `Ad.findOne({ url })` */
  function FindAdByUrl(ads: seq<Ad>, url: string): (r: Option<Ad>)
    ensures r.Some? ==> r.value in ads && r.value.url == url
    ensures r.None? ==> forall a :: a in ads ==> a.url != url
  {
    if ads == [] then None
    else if ads[0].url == url then Some(ads[0])
    else FindAdByUrl(ads[1..], url)
  }

  /** An ad can be inserted when neither its `_id` nor its `url` is taken. */
  predicate AdInsertable(ads: seq<Ad>, ad: Ad) {
    forall a :: a in ads ==> a.id != ad.id && a.url != ad.url
  }

  /** The ads after `Ad.create(ad)`, which the unique indexes refuse for a taken `_id` or `url`. */
  function AfterAdCreate(ads: seq<Ad>, ad: Ad): seq<Ad> {
    if AdInsertable(ads, ad) then ads + [ad] else ads
  }

  /** The position of the ad with `_id` equal to `id`. */
  function AdIndex(ads: seq<Ad>, id: ObjectId): (r: Option<nat>)
    ensures r.Some? ==> r.value < |ads| && ads[r.value].id == id
    ensures r.None? ==> forall a :: a in ads ==> a.id != id
  {
    if ads == [] then None
    else if ads[0].id == id then Some(0)
    else match AdIndex(ads[1..], id)
      case None => None
      case Some(k) => Some(k + 1)
  }

  /** The ads after `$inc: { views: 1 }` on the ad at position `k`: one field of one
      record changes, by exactly one. */
  function BumpViews(ads: seq<Ad>, k: nat): (after: seq<Ad>)
    requires k < |ads|
    ensures |after| == |ads|
    ensures after[k].views == ads[k].views + 1
    ensures after[k] == Ad(ads[k].id, ads[k].url, ads[k].title, ads[k].image, after[k].views, ads[k].createdAt)
    ensures forall j :: 0 <= j < |ads| && j != k ==> after[j] == ads[j]
  {
    ads[k := ads[k].(views := ads[k].views + 1)]
  }

  /** `m` increments of ad `k`, one after the other. */
  function BumpViewsTimes(ads: seq<Ad>, k: nat, m: nat): (r: seq<Ad>)
    requires k < |ads|
    ensures |r| == |ads|
  {
    if m == 0 then ads else BumpViews(BumpViewsTimes(ads, k, m - 1), k)
  }

  /** No increment is lost: after `m` increments the count is exactly `m` higher. */
  lemma {:induction false} BumpViewsTimesCounts(ads: seq<Ad>, k: nat, m: nat)
    requires k < |ads|
    ensures BumpViewsTimes(ads, k, m)[k] == ads[k].(views := ads[k].views + m)
    ensures forall j :: 0 <= j < |ads| && j != k ==> BumpViewsTimes(ads, k, m)[j] == ads[j]
  {
    if m > 0 {
      BumpViewsTimesCounts(ads, k, m - 1);
    }
  }

  /** The `ads` collection. */
  class AdCollection {
    var docs: seq<Ad>

    /** The unique indexes on `_id` and on `url`. */
    ghost predicate Valid()
      reads this
    {
      UniqueAdIds(docs) && UniqueUrls(docs)
    }

    constructor ()
      ensures Valid() && docs == []
    {
      docs := [];
    }

    /** `Ad.create(doc)`: inserts the document, or fails with a duplicate-key error
        (code 11000) when its `_id` or its `url` is already taken. */
    method Create(ad: Ad) returns (ok: bool)
      requires Valid()
      modifies this
      ensures Valid()
      ensures ok == AdInsertable(old(docs), ad)
      ensures docs == AfterAdCreate(old(docs), ad)
    {
      ok := true;
      var i := 0;
      while i < |docs|
        invariant 0 <= i <= |docs|
        invariant ok <==> forall j :: 0 <= j < i ==> docs[j].id != ad.id && docs[j].url != ad.url
      {
        if docs[i].id == ad.id || docs[i].url == ad.url {
          ok := false;
        }
        i := i + 1;
      }
      if ok {
        docs := docs + [ad];
      }
    }

    /** `Ad.findByIdAndUpdate(id, { $inc: { views: 1 } }, { new: true })`. */
    method FindByIdAndIncrementViews(id: ObjectId) returns (r: Option<Ad>)
      requires Valid()
      modifies this
      ensures Valid()
      ensures r.None? <==> AdIndex(old(docs), id).None?
      ensures r.None? ==> docs == old(docs)
      ensures r.Some? ==> var k := AdIndex(old(docs), id).value;
                          docs == BumpViews(old(docs), k) && r == Some(docs[k])
    {
      var k := AdIndex(docs, id);
      if k.None? {
        return None;
      }
      docs := BumpViews(docs, k.value);
      r := Some(docs[k.value]);
    }
  }

  // ---------------------------------------------------------------------------
  // Comments

  ghost predicate UniqueCommentIds(comments: seq<Comment>) {
    forall i, j :: 0 <= i < j < |comments| ==> comments[i].id != comments[j].id
  }

  /** A comment can be inserted when its `_id` is not taken. */
  predicate CommentInsertable(comments: seq<Comment>, c: Comment) {
    forall d :: d in comments ==> d.id != c.id
  }

  /** The comments after `Comment.create(c)`. */
  function AfterCommentCreate(comments: seq<Comment>, c: Comment): seq<Comment> {
    if CommentInsertable(comments, c) then comments + [c] else comments
  }

  /** The `comments` collection. */
  class CommentCollection {
    var docs: seq<Comment>

    /** The unique index on `_id`. */
    ghost predicate Valid()
      reads this
    {
      UniqueCommentIds(docs)
    }

    constructor ()
      ensures Valid() && docs == []
    {
      docs := [];
    }

    /** `Comment.create(doc)`: fails with a duplicate-key error when the `_id` is taken. */
    method Create(c: Comment) returns (ok: bool)
      requires Valid()
      modifies this
      ensures Valid()
      ensures ok == CommentInsertable(old(docs), c)
      ensures docs == AfterCommentCreate(old(docs), c)
    {
      ok := true;
      var i := 0;
      while i < |docs|
        invariant 0 <= i <= |docs|
        invariant ok <==> forall j :: 0 <= j < i ==> docs[j].id != c.id
      {
        if docs[i].id == c.id {
          ok := false;
        }
        i := i + 1;
      }
      if ok {
        docs := docs + [c];
      }
    }
  }

  // ---------------------------------------------------------------------------
  // Users

  ghost predicate UniqueUserIds(users: seq<User>) {
    forall i, j :: 0 <= i < j < |users| ==> users[i].id != users[j].id
  }

  ghost predicate UniqueEmails(users: seq<User>) {
    forall i, j :: 0 <= i < j < |users| ==> users[i].email != users[j].email
  }

  /** `User.findOne({ email })` */
  function FindUserByEmail(users: seq<User>, email: string): (r: Option<User>)
    ensures r.Some? ==> r.value in users && r.value.email == email
    ensures r.None? ==> forall u :: u in users ==> u.email != email
  {
    if users == [] then None
    else if users[0].email == email then Some(users[0])
    else FindUserByEmail(users[1..], email)
  }

  /** `User.findById(id)` */
  function FindUserById(users: seq<User>, id: ObjectId): (r: Option<User>)
    ensures r.Some? ==> r.value in users && r.value.id == id
    ensures r.None? ==> forall u :: u in users ==> u.id != id
  {
    if users == [] then None
    else if users[0].id == id then Some(users[0])
    else FindUserById(users[1..], id)
  }

  /** A user can be inserted when neither the `_id` nor the `email` is taken. */
  predicate UserInsertable(users: seq<User>, u: User) {
    forall v :: v in users ==> v.id != u.id && v.email != u.email
  }

  /** The users after `User.create(u)`. */
  function AfterUserCreate(users: seq<User>, u: User): seq<User> {
    if UserInsertable(users, u) then users + [u] else users
  }

  /** The `users` collection. */
  class UserCollection {
    var docs: seq<User>

    /** The unique indexes on `_id` and on `email`. */
    ghost predicate Valid()
      reads this
    {
      UniqueUserIds(docs) && UniqueEmails(docs)
    }

    constructor ()
      ensures Valid() && docs == []
    {
      docs := [];
    }

    /** `User.create(doc)`: fails with a duplicate-key error when the `_id` or the
        `email` is already taken. */
    method Create(u: User) returns (ok: bool)
      requires Valid()
      modifies this
      ensures Valid()
      ensures ok == UserInsertable(old(docs), u)
      ensures docs == AfterUserCreate(old(docs), u)
    {
      ok := true;
      var i := 0;
      while i < |docs|
        invariant 0 <= i <= |docs|
        invariant ok <==> forall j :: 0 <= j < i ==> docs[j].id != u.id && docs[j].email != u.email
      {
        if docs[i].id == u.id || docs[i].email == u.email {
          ok := false;
        }
        i := i + 1;
      }
      if ok {
        docs := docs + [u];
      }
    }
  }
}
