/** The views of the posts app that write: following and unfollowing an author,
    liking and un-liking a post, creating and editing a post, and commenting.
    The store is an object whose tables these views update in place; the
    requester is passed explicitly (None for an anonymous request). */
module Handlers {
  import opened Wrappers
  import opened Seqs
  import opened Models
  import Feeds

  /** The HTTP answer of a mutating view. */
  datatype Reply =
    | RedirectLogin                   // `login_required` turned an anonymous request away
    | PageNotFound                    // `get_object_or_404` found no row
    | ShowForm                        // the form page, rendered (again)
    | RedirectMain
    | RedirectProfile(user: UserId)
    | RedirectPostDetail(post: PostId)
    | RedirectReferer                 // back to the page the request came from

  // ---------------------------------------------------------------------------
  // The four toggles, as what they do to their table

  /** `profile_follow`: add the row (user, author) unless it exists or the user
      is the author. */
  function AfterFollow(fs: seq<Follow>, user: UserId, author: UserId): (r: seq<Follow>)
    ensures user == author ==> r == fs
    ensures Follow(user, author) in r <==> user != author || Follow(user, author) in fs
    ensures forall f :: f != Follow(user, author) ==> multiset(r)[f] == multiset(fs)[f]
    ensures NoDup(fs) ==> NoDup(r)
  {
    if user == author then fs else AddIfAbsent(fs, Follow(user, author))
  }

  /** `profile_unfollow`: delete the row (user, author), if any. */
  function AfterUnfollow(fs: seq<Follow>, user: UserId, author: UserId): (r: seq<Follow>)
    ensures Follow(user, author) !in r
    ensures forall f :: f != Follow(user, author) ==> multiset(r)[f] == multiset(fs)[f]
    ensures NoDup(fs) ==> NoDup(r)
  {
    RemoveAll(fs, Follow(user, author))
  }

  /** `post_like`: add the row (user, post) unless it exists. There is no
      self-like guard: authors may like their own posts. */
  function AfterLike(ls: seq<Like>, user: UserId, post: PostId): (r: seq<Like>)
    ensures Like(user, post) in r
    ensures forall l :: l != Like(user, post) ==> multiset(r)[l] == multiset(ls)[l]
    ensures NoDup(ls) ==> NoDup(r)
  {
    AddIfAbsent(ls, Like(user, post))
  }

  /** `post_dislike`: delete the row (user, post), if any. */
  function AfterDislike(ls: seq<Like>, user: UserId, post: PostId): (r: seq<Like>)
    ensures Like(user, post) !in r
    ensures forall l :: l != Like(user, post) ==> multiset(r)[l] == multiset(ls)[l]
    ensures NoDup(ls) ==> NoDup(r)
  {
    RemoveAll(ls, Like(user, post))
  }

  /** Following twice is following once. */
  lemma FollowIdempotent(fs: seq<Follow>, user: UserId, author: UserId)
    ensures AfterFollow(AfterFollow(fs, user, author), user, author) == AfterFollow(fs, user, author)
  {
  }

  /** Two follow requests raise the author's follower count and the user's
      following count by one at most: by one when the user did not follow yet,
      by nothing when they did or when they are the author. */
  lemma FollowTwiceCountsOnce(fs: seq<Follow>, user: UserId, author: UserId)
    ensures var twice := AfterFollow(AfterFollow(fs, user, author), user, author);
            var added := if user != author && Follow(user, author) !in fs then 1 else 0;
            && Feeds.FollowersCount(twice, author) == Feeds.FollowersCount(fs, author) + added
            && Feeds.FollowingCount(twice, user) == Feeds.FollowingCount(fs, user) + added
  {
    var x := Follow(user, author);
    if user != author && x !in fs {
      assert AfterFollow(AfterFollow(fs, user, author), user, author) == fs + [x];
      FilterAppend(fs, [x], (f: Follow) => f.author == author);
      FilterAppend(fs, [x], (f: Follow) => f.user == user);
    }
  }

  /** Unfollowing takes exactly one follower, the user, away from the author. */
  lemma UnfollowRemovesOne(fs: seq<Follow>, user: UserId, author: UserId)
    requires NoDup(fs) && Follow(user, author) in fs
    ensures |AfterUnfollow(fs, user, author)| == |fs| - 1
    ensures Feeds.Followers(AfterUnfollow(fs, user, author), author) == Feeds.Followers(fs, author) - {user}
    ensures Feeds.FollowersCount(AfterUnfollow(fs, user, author), author) == Feeds.FollowersCount(fs, author) - 1
  {
    var r := AfterUnfollow(fs, user, author);
    NoDupCount(fs, Follow(user, author));
    var before, after := Feeds.Followers(fs, author), Feeds.Followers(r, author);
    assert after == before - {user} by {
      forall u | u in before - {user} ensures u in after {
        var f :| f in fs && f.author == author && f.user == u;
        assert f in r;
      }
    }
    assert user in before;
  }

  /** Unfollowing right after a first follow restores the table exactly. */
  lemma UnfollowUndoesFollow(fs: seq<Follow>, user: UserId, author: UserId)
    requires Follow(user, author) !in fs
    ensures AfterUnfollow(AfterFollow(fs, user, author), user, author) == fs
  {
    if user != author {
      RemoveAllAppend(fs, Follow(user, author));
    }
  }

  /** Following adds the author's posts to the user's follow feed and changes
      nobody else's: in particular it puts nothing into the author's feed. */
  lemma FollowTouchesOnlyOwnFeed(ps: seq<Post>, fs: seq<Follow>, user: UserId, author: UserId, other: UserId)
    requires other != user
    ensures Feeds.FollowJoin(ps, AfterFollow(fs, user, author), other) == Feeds.FollowJoin(ps, fs, other)
    ensures forall p :: p in Feeds.FollowJoin(ps, AfterFollow(fs, user, author), user) <==>
              p in ps && (Follow(user, p.author) in fs || (p.author == author && user != author))
  {
    if user != author && Follow(user, author) !in fs {
      Feeds.OtherFollowersIgnored(ps, fs, other, Follow(user, author));
    }
  }

  /** Like, dislike, like leaves exactly one like row for the pair, and in a
      table without duplicates the same rows as a single like. */
  lemma LikeDislikeLike(ls: seq<Like>, user: UserId, post: PostId)
    ensures var r := AfterLike(AfterDislike(AfterLike(ls, user, post), user, post), user, post);
            && r == RemoveAll(ls, Like(user, post)) + [Like(user, post)]
            && multiset(r)[Like(user, post)] == 1
            && (NoDup(ls) ==> multiset(r) == multiset(AfterLike(ls, user, post)))
  {
    var x := Like(user, post);
    if x !in ls {
      RemoveAllAppend(ls, x);
    }
    var r := RemoveAll(ls, x) + [x];
    if NoDup(ls) {
      NoDupCount(ls, x);
      assert multiset(r) == multiset(AfterLike(ls, user, post)) by {
        forall y ensures multiset(r)[y] == multiset(AfterLike(ls, user, post))[y] {
          if y != x {
            assert multiset(r)[y] == multiset(RemoveAll(ls, x))[y];
          }
        }
      }
    }
  }

  /** Un-liking right after a first like restores the table exactly, and the
      post reports `already_like` after a like and not after an un-like. */
  lemma DislikeUndoesLike(ls: seq<Like>, user: UserId, post: PostId)
    requires Like(user, post) !in ls
    ensures AfterDislike(AfterLike(ls, user, post), user, post) == ls
    ensures AlreadyLike(AfterLike(ls, user, post), post, Some(user))
    ensures !AlreadyLike(AfterDislike(ls, user, post), post, Some(user))
  {
    RemoveAllAppend(ls, Like(user, post));
  }

  // ---------------------------------------------------------------------------
  // Forms

  /** The image input of the post form (a clearable file input): leave the
      current image, clear it, or upload a new file. */
  datatype ImageInput = KeepImage | ClearImage | Upload(path: ImagePath)

  /** A submitted `PostForm` (fields text, country, image). `bound` is false when
      the request carried no POST data, so the form is unbound and invalid;
      `accepted` stands for every check the form makes that the model does not
      (the image really being an image, and so on). */
  datatype PostForm = PostForm(
    bound: bool,
    text: string,
    country: Option<CountryId>,
    image: ImageInput,
    accepted: bool)

  /** A submitted `CommentForm` (field text). */
  datatype CommentForm = CommentForm(bound: bool, text: string, accepted: bool)

  /** `PostForm.is_valid()`: bound, text not blank, a country chosen (the field is
      `blank=False`) that exists, and whatever else the form checks. */
  predicate PostFormValid(f: PostForm, countries: seq<Country>): (ok: bool)
    ensures !f.bound || f.text == [] || f.country.None? ==> !ok
    ensures ok ==> exists c :: c in countries && Some(c.id) == f.country
  {
    f.bound && f.accepted && f.text != [] && f.country.Some? && f.country.value in CountryIds(countries)
  }

  /** `CommentForm.is_valid()`: bound, text not blank, and whatever else the form
      checks. */
  predicate CommentFormValid(f: CommentForm): (ok: bool)
    ensures !f.bound || f.text == [] ==> !ok
  {
    f.bound && f.accepted && f.text != []
  }

  /** The image a saved form leaves on the post. */
  function NewImage(current: Option<ImagePath>, input: ImageInput): (r: Option<ImagePath>)
    ensures input.KeepImage? ==> r == current
    ensures input.ClearImage? ==> r.None?
    ensures input.Upload? ==> r == Some(input.path)
  {
    match input
    case KeepImage => current
    case ClearImage => None
    case Upload(path) => Some(path)
  }

  /** `form.save()` on an existing post: the three form fields change; the id,
      author and publication date never do. */
  function Edited(p: Post, f: PostForm): (r: Post)
    ensures r.id == p.id && r.author == p.author && r.pubDate == p.pubDate
    ensures r.text == f.text && r.country == f.country && r.image == NewImage(p.image, f.image)
  {
    p.(text := f.text, country := f.country, image := NewImage(p.image, f.image))
  }

  // ---------------------------------------------------------------------------
  // The constraints survive every write

  lemma FollowsValid(db: Db, fs: seq<Follow>)
    requires Valid(db) && NoDup(fs)
    requires forall f :: f in fs ==> f.user in db.users && f.author in db.users
    ensures Valid(db.(follows := fs))
  {
  }

  lemma LikesValid(db: Db, ls: seq<Like>)
    requires Valid(db) && NoDup(ls)
    requires forall l :: l in ls ==> l.user in db.users && l.post in PostIds(db.posts)
    ensures Valid(db.(likes := ls))
  {
  }

  /** A post with a fresh id, an existing author and an existing (or no) country
      can be stored. */
  lemma AppendPostValid(db: Db, p: Post)
    requires Valid(db) && p.id !in PostIds(db.posts)
    requires p.author in db.users && (p.country.Some? ==> p.country.value in CountryIds(db.countries))
    ensures Valid(db.(posts := db.posts + [p]))
  {
    var r := db.(posts := db.posts + [p]);
    assert p !in db.posts;
    assert PostIds(r.posts) == PostIds(db.posts) + {p.id};
    assert NoDup(r.posts) by {
      forall i, j | 0 <= i < j < |r.posts| ensures r.posts[i] != r.posts[j] {
        if j < |db.posts| {
          assert r.posts[i] == db.posts[i] && r.posts[j] == db.posts[j];
        } else {
          assert r.posts[i] in db.posts;
        }
      }
    }
  }

  /** Replacing a post by one with the same id and author and an existing
      country keeps every constraint. */
  lemma ReplacePostValid(db: Db, i: nat, p: Post)
    requires Valid(db) && i < |db.posts|
    requires p.id == db.posts[i].id && p.author == db.posts[i].author
    requires p.country.Some? ==> p.country.value in CountryIds(db.countries)
    ensures Valid(db.(posts := db.posts[i := p]))
  {
    var r := db.(posts := db.posts[i := p]);
    assert PostIds(r.posts) == PostIds(db.posts) by {
      forall id | id in PostIds(db.posts) ensures id in PostIds(r.posts) {
        var k :| 0 <= k < |db.posts| && db.posts[k].id == id;
        assert r.posts[k].id == id;
      }
      forall id | id in PostIds(r.posts) ensures id in PostIds(db.posts) {
        var k :| 0 <= k < |r.posts| && r.posts[k].id == id;
        assert db.posts[k].id == id;
      }
    }
    assert forall k :: 0 <= k < |db.posts| && k != i ==> db.posts[k].id != p.id by {
      forall k | 0 <= k < |db.posts| && k != i ensures db.posts[k].id != p.id {
        assert db.posts[k] in db.posts && db.posts[i] in db.posts;
        assert db.posts[k] != db.posts[i];
      }
    }
    assert NoDup(r.posts) by {
      forall a, b | 0 <= a < b < |r.posts| ensures r.posts[a] != r.posts[b] {
        if a != i && b != i {
          assert r.posts[a] == db.posts[a] && r.posts[b] == db.posts[b];
        }
      }
    }
    forall a, b | a in r.posts && b in r.posts && a.id == b.id ensures a == b {
      var ka :| 0 <= ka < |r.posts| && r.posts[ka] == a;
      var kb :| 0 <= kb < |r.posts| && r.posts[kb] == b;
      if ka != i && kb != i {
        assert db.posts[ka] in db.posts && db.posts[kb] in db.posts;
      }
    }
    forall q | q in r.posts
      ensures q.author in r.users && (q.country.Some? ==> q.country.value in CountryIds(r.countries))
    {
      var k :| 0 <= k < |r.posts| && r.posts[k] == q;
      if k != i {
        assert db.posts[k] in db.posts;
      }
    }
  }

  /** A comment with a fresh id on an existing post by an existing user can be
      stored. */
  lemma AppendCommentValid(db: Db, c: Comment)
    requires Valid(db) && forall d :: d in db.comments ==> d.id != c.id
    requires c.post in PostIds(db.posts) && c.author in db.users
    ensures Valid(db.(comments := db.comments + [c]))
  {
    var r := db.(comments := db.comments + [c]);
    assert c !in db.comments;
    assert NoDup(r.comments) by {
      forall i, j | 0 <= i < j < |r.comments| ensures r.comments[i] != r.comments[j] {
        if j < |db.comments| {
          assert r.comments[i] == db.comments[i] && r.comments[j] == db.comments[j];
        } else {
          assert r.comments[i] in db.comments;
        }
      }
    }
  }

  // ---------------------------------------------------------------------------
  // The store

  class Store {
    var users: set<UserId>
    var countries: seq<Country>
    var posts: seq<Post>
    var comments: seq<Comment>
    var follows: seq<Follow>
    var likes: seq<Like>
    /** The logical clock `auto_now_add` reads; it moves on with every row stamped. */
    var clock: Timestamp
    /** The next primary keys the database hands out. */
    var nextPostId: PostId
    var nextCommentId: CommentId

    function Tables(): Db
      reads this
    {
      Db(users, countries, posts, comments, follows, likes)
    }

    /** The store's constraints, plus: every key handed out is below the next
        one, and every timestamp is in the past. */
    ghost predicate Valid()
      reads this
    {
      && Models.Valid(Tables())
      && (forall p :: p in posts ==> p.id < nextPostId && p.pubDate < clock)
      && (forall c :: c in comments ==> c.id < nextCommentId && c.created < clock)
    }

    /** A store holding the given users and countries and nothing else. */
    constructor (users0: set<UserId>, countries0: seq<Country>)
      requires NoDup(countries0)
      requires forall a, b :: a in countries0 && b in countries0 && (a.id == b.id || a.slug == b.slug) ==> a == b
      requires forall c :: c in countries0 ==> |c.title| <= TitleMaxLength
      ensures Valid()
      ensures Tables() == Db(users0, countries0, [], [], [], [])
    {
      users, countries := users0, countries0;
      posts, comments, follows, likes := [], [], [], [];
      clock, nextPostId, nextCommentId := 0, 0, 0;
    }

    /** `profile_follow(request, author)`. */
    method ProfileFollow(requester: Option<UserId>, author: UserId) returns (reply: Reply)
      requires Valid() && (requester.Some? ==> requester.value in users)
      modifies this`follows
      ensures Valid()
      ensures requester.None? ==> reply == RedirectLogin && follows == old(follows)
      ensures requester.Some? && author !in users ==> reply == PageNotFound && follows == old(follows)
      ensures requester.Some? && author in users ==>
                reply == RedirectProfile(author) && follows == AfterFollow(old(follows), requester.value, author)
    {
      if requester.None? {
        return RedirectLogin;
      }
      if author !in users {
        return PageNotFound;
      }
      var user := requester.value;
      var alreadyFollow := Follow(user, author) in follows;
      if user != author && !alreadyFollow {
        follows := follows + [Follow(user, author)];
      }
      FollowsValid(old(Tables()), follows);
      reply := RedirectProfile(author);
    }

    /** `profile_unfollow(request, author)`. */
    method ProfileUnfollow(requester: Option<UserId>, author: UserId) returns (reply: Reply)
      requires Valid() && (requester.Some? ==> requester.value in users)
      modifies this`follows
      ensures Valid()
      ensures requester.None? ==> reply == RedirectLogin && follows == old(follows)
      ensures requester.Some? && author !in users ==> reply == PageNotFound && follows == old(follows)
      ensures requester.Some? && author in users ==>
                reply == RedirectProfile(author) && follows == AfterUnfollow(old(follows), requester.value, author)
    {
      if requester.None? {
        return RedirectLogin;
      }
      if author !in users {
        return PageNotFound;
      }
      follows := RemoveAll(follows, Follow(requester.value, author));
      FollowsValid(old(Tables()), follows);
      reply := RedirectProfile(author);
    }

    /** `post_like(request, post)`. */
    method PostLike(requester: Option<UserId>, post: PostId) returns (reply: Reply)
      requires Valid() && (requester.Some? ==> requester.value in users)
      modifies this`likes
      ensures Valid()
      ensures requester.None? ==> reply == RedirectLogin && likes == old(likes)
      ensures requester.Some? && post !in PostIds(posts) ==> reply == PageNotFound && likes == old(likes)
      ensures requester.Some? && post in PostIds(posts) ==>
                reply == RedirectReferer && likes == AfterLike(old(likes), requester.value, post)
    {
      if requester.None? {
        return RedirectLogin;
      }
      if FindPost(posts, post).None? {
        return PageNotFound;
      }
      var alreadyLike := Like(requester.value, post) in likes;
      if !alreadyLike {
        likes := likes + [Like(requester.value, post)];
      }
      LikesValid(old(Tables()), likes);
      reply := RedirectReferer;
    }

    /** `post_dislike(request, post)`. */
    method PostDislike(requester: Option<UserId>, post: PostId) returns (reply: Reply)
      requires Valid() && (requester.Some? ==> requester.value in users)
      modifies this`likes
      ensures Valid()
      ensures requester.None? ==> reply == RedirectLogin && likes == old(likes)
      ensures requester.Some? && post !in PostIds(posts) ==> reply == PageNotFound && likes == old(likes)
      ensures requester.Some? && post in PostIds(posts) ==>
                reply == RedirectReferer && likes == AfterDislike(old(likes), requester.value, post)
    {
      if requester.None? {
        return RedirectLogin;
      }
      if FindPost(posts, post).None? {
        return PageNotFound;
      }
      likes := RemoveAll(likes, Like(requester.value, post));
      LikesValid(old(Tables()), likes);
      reply := RedirectReferer;
    }

    /** `post_create(request)`: a valid form stores a new post by the requester,
        stamped now, and redirects to the requester's profile; otherwise the form
        is shown again and nothing is stored. */
    method PostCreate(requester: Option<UserId>, form: PostForm) returns (reply: Reply)
      requires Valid() && (requester.Some? ==> requester.value in users)
      modifies this`posts, this`nextPostId, this`clock
      ensures Valid()
      ensures requester.None? ==> reply == RedirectLogin && posts == old(posts)
      ensures requester.Some? && !PostFormValid(form, countries) ==> reply == ShowForm && posts == old(posts)
      ensures requester.Some? && PostFormValid(form, countries) ==>
                && reply == RedirectProfile(requester.value)
                && posts == old(posts) + [Post(old(nextPostId), form.text, old(clock), requester.value,
                                               form.country, NewImage(None, form.image))]
      ensures forall p :: p in old(posts) ==> p.pubDate < clock
      ensures if requester.Some? && PostFormValid(form, countries)
              then nextPostId == old(nextPostId) + 1 && clock == old(clock) + 1
              else nextPostId == old(nextPostId) && clock == old(clock)
    {
      if requester.None? {
        return RedirectLogin;
      }
      if !PostFormValid(form, countries) {
        return ShowForm;
      }
      var p := Post(nextPostId, form.text, clock, requester.value, form.country, NewImage(None, form.image));
      AppendPostValid(Tables(), p);
      posts := posts + [p];
      nextPostId := nextPostId + 1;
      clock := clock + 1;
      reply := RedirectProfile(requester.value);
    }

    /** `post_edit(request, post)`: only the author may edit; a valid form
        rewrites the three form fields and redirects to the post, an invalid one
        is shown again. */
    method PostEdit(requester: Option<UserId>, post: PostId, form: PostForm) returns (reply: Reply)
      requires Valid() && (requester.Some? ==> requester.value in users)
      modifies this`posts
      ensures Valid()
      ensures PostIds(posts) == PostIds(old(posts)) && |posts| == |old(posts)|
      ensures requester.None? ==> reply == RedirectLogin && posts == old(posts)
      ensures requester.Some? && post !in PostIds(posts) ==> reply == PageNotFound && posts == old(posts)
      ensures requester.Some? && post in PostIds(posts) ==>
                var i := PostIndex(old(posts), post).value;
                if old(posts)[i].author != requester.value then
                  reply == RedirectMain && posts == old(posts)
                else if !PostFormValid(form, countries) then
                  reply == ShowForm && posts == old(posts)
                else
                  reply == RedirectPostDetail(post) && posts == old(posts)[i := Edited(old(posts)[i], form)]
    {
      if requester.None? {
        return RedirectLogin;
      }
      var found := PostIndex(posts, post);
      if found.None? {
        return PageNotFound;
      }
      var i := found.value;
      if posts[i].author != requester.value {
        return RedirectMain;
      }
      if !PostFormValid(form, countries) {
        return ShowForm;
      }
      var edited := Edited(posts[i], form);
      ReplacePostValid(Tables(), i, edited);
      posts := posts[i := edited];
      assert PostIds(posts) == PostIds(old(posts)) by {
        forall id | id in PostIds(old(posts)) ensures id in PostIds(posts) {
          var k :| 0 <= k < |old(posts)| && old(posts)[k].id == id;
          assert posts[k].id == id;
        }
      }
      reply := RedirectPostDetail(post);
    }

    /** `add_comment(request, post)`: a valid form stores a comment by the
        requester on the post, stamped now; valid or not, the answer is the
        post's page. */
    method AddComment(requester: Option<UserId>, post: PostId, form: CommentForm) returns (reply: Reply)
      requires Valid() && (requester.Some? ==> requester.value in users)
      modifies this`comments, this`nextCommentId, this`clock
      ensures Valid()
      ensures requester.None? ==> reply == RedirectLogin && comments == old(comments)
      ensures requester.Some? && post !in PostIds(posts) ==> reply == PageNotFound && comments == old(comments)
      ensures requester.Some? && post in PostIds(posts) ==>
                && reply == RedirectPostDetail(post)
                && comments == if CommentFormValid(form)
                               then old(comments) + [Comment(old(nextCommentId), post, requester.value, form.text, old(clock))]
                               else old(comments)
      ensures if requester.Some? && post in PostIds(posts) && CommentFormValid(form)
              then nextCommentId == old(nextCommentId) + 1 && clock == old(clock) + 1
              else nextCommentId == old(nextCommentId) && clock == old(clock)
    {
      if requester.None? {
        return RedirectLogin;
      }
      if FindPost(posts, post).None? {
        return PageNotFound;
      }
      if CommentFormValid(form) {
        var c := Comment(nextCommentId, post, requester.value, form.text, clock);
        AppendCommentValid(Tables(), c);
        comments := comments + [c];
        nextCommentId := nextCommentId + 1;
        clock := clock + 1;
      }
      reply := RedirectPostDetail(post);
    }
  }
}
