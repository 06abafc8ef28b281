/** The read-only views of the posts app: `index`, `follow_index`,
    `country_posts`, `profile` and `post_detail`. Each selects rows of the
    store, orders them as the model's `Meta.ordering` says and, for the post
    lists, serves one page of twelve. None of them writes. */
module Feeds {
  import opened Wrappers
  import opened Seqs
  import opened Models
  import opened Paging

  /** What a read view answers: its context, a 404, or the redirect to the login
      page that `login_required` issues to an anonymous requester. */
  datatype View<T> = Ok(value: T) | NotFound | LoginRedirect

  function PubDate(p: Post): int {
    p.pubDate
  }

  function Created(c: Comment): int {
    c.created
  }

  /** `Post.Meta.ordering = ('-pub_date',)`: the same rows, newest first. Posts
      with equal dates may come in any order. */
  function NewestFirst(ps: seq<Post>): (r: seq<Post>)
    ensures multiset(r) == multiset(ps)
    ensures forall i, j :: 0 <= i < j < |r| ==> r[i].pubDate >= r[j].pubDate
  {
    SortDesc(ps, PubDate)
  }

  /** A post dated later than every other post heads the list. */
  lemma NewestHeadsList(ps: seq<Post>, p: Post)
    requires p in ps
    requires forall q :: q in ps && q != p ==> q.pubDate < p.pubDate
    ensures NewestFirst(ps) != [] && NewestFirst(ps)[0] == p
  {
    var r := NewestFirst(ps);
    assert p in multiset(r);
    var k :| 0 <= k < |r| && r[k] == p;
    assert r[0] in multiset(ps);
  }

  /** The filters the plain post lists apply. */
  datatype Selection = AllPosts | ByCountry(country: CountryId) | ByAuthor(author: UserId)

  predicate Selects(sel: Selection, p: Post) {
    match sel
    case AllPosts => true
    case ByCountry(c) => p.country == Some(c)
    case ByAuthor(u) => p.author == u
  }

  /** The ordered list a selection yields: exactly the matching posts, each as
      often as it is stored, newest first. */
  function Listing(ps: seq<Post>, sel: Selection): (r: seq<Post>)
    ensures forall p :: p in r <==> p in ps && Selects(sel, p)
    ensures forall p :: multiset(r)[p] == if Selects(sel, p) then multiset(ps)[p] else 0
    ensures forall i, j :: 0 <= i < j < |r| ==> r[i].pubDate >= r[j].pubDate
  {
    var chosen := Filter(ps, (p: Post) => Selects(sel, p));
    var r := NewestFirst(chosen);
    assert forall p :: p in r <==> p in multiset(chosen);
    r
  }

  // ---------------------------------------------------------------------------
  // index

  /** Any page of a newest-first list is itself newest first. */
  lemma PageNewestFirst(l: seq<Post>, req: PageRequest)
    requires forall i, j :: 0 <= i < j < |l| ==> l[i].pubDate >= l[j].pubDate
    ensures var items := GetPage(l, PostsPerPage, req).items;
            forall i, j :: 0 <= i < j < |items| ==> items[i].pubDate >= items[j].pubDate
  {
    var page := GetPage(l, PostsPerPage, req);
    var start := PageStart(PostsPerPage, page.number);
    forall i, j | 0 <= i < j < |page.items| ensures page.items[i].pubDate >= page.items[j].pubDate {
      assert page.items[i] == l[start + i] && page.items[j] == l[start + j];
    }
  }

  /** `index`: every post, newest first, the page `get_page` picks. */
  function Index(db: Db, req: PageRequest): (page: Page<Post>)
    ensures page == GetPage(Listing(db.posts, AllPosts), PostsPerPage, req)
    ensures page.count == |db.posts|
    ensures forall p :: p in page.items ==> p in db.posts
    ensures forall i, j :: 0 <= i < j < |page.items| ==> page.items[i].pubDate >= page.items[j].pubDate
  {
    var l := Listing(db.posts, AllPosts);
    assert multiset(l) == multiset(db.posts);
    assert |l| == |multiset(l)| == |db.posts|;
    PageNewestFirst(l, req);
    GetPage(l, PostsPerPage, req)
  }

  /** Read page by page, the main feed lists every stored post exactly once. */
  lemma IndexListsEveryPost(db: Db)
    ensures multiset(PagesFrom(Listing(db.posts, AllPosts), PostsPerPage, 1)) == multiset(db.posts)
  {
    PagesPartition(Listing(db.posts, AllPosts), PostsPerPage);
    var l := Listing(db.posts, AllPosts);
    assert forall p :: multiset(l)[p] == multiset(db.posts)[p];
  }

  // ---------------------------------------------------------------------------
  // follow_index

  /** `Post.objects.filter(author__following__user=r)` as the inner join it is:
      each post appears once for every follow row (r, post.author). */
  function FollowJoin(ps: seq<Post>, fs: seq<Follow>, r: UserId): (out: seq<Post>)
    ensures forall p :: p in out <==> p in ps && Follow(r, p.author) in fs
  {
    if ps == [] then []
    else
      assert ps == [ps[0]] + ps[1..];
      Repeat(ps[0], multiset(fs)[Follow(r, ps[0].author)]) + FollowJoin(ps[1..], fs, r)
  }

  /** Because follow rows are unique, the join repeats nothing: it is the plain
      filter "the author is followed by r". */
  lemma {:induction false} FollowJoinIsFilter(ps: seq<Post>, fs: seq<Follow>, r: UserId)
    requires NoDup(fs)
    ensures FollowJoin(ps, fs, r) == Filter(ps, (p: Post) => Follow(r, p.author) in fs)
  {
    if ps != [] {
      NoDupCount(fs, Follow(r, ps[0].author));
      FollowJoinIsFilter(ps[1..], fs, r);
    }
  }

  /** A follow row of anyone but r, such as the reverse edge (a, r), adds no post
      to r's follow feed. */
  lemma {:induction false} OtherFollowersIgnored(ps: seq<Post>, fs: seq<Follow>, r: UserId, f: Follow)
    requires f.user != r
    ensures FollowJoin(ps, fs + [f], r) == FollowJoin(ps, fs, r)
  {
    if ps != [] {
      assert multiset(fs + [f])[Follow(r, ps[0].author)] == multiset(fs)[Follow(r, ps[0].author)];
      OtherFollowersIgnored(ps[1..], fs, r, f);
    }
  }

  /** `follow_index`: login required; the posts of the authors the requester
      follows, newest first, the page `get_page` picks. */
  function FollowIndex(db: Db, requester: Option<UserId>, req: PageRequest): (v: View<Page<Post>>)
    ensures requester.None? <==> v.LoginRedirect?
    ensures !v.NotFound?
    ensures v.Ok? ==> v.value == GetPage(NewestFirst(FollowJoin(db.posts, db.follows, requester.value)), PostsPerPage, req)
    ensures v.Ok? ==> forall p :: p in v.value.items ==> p in db.posts && Follow(requester.value, p.author) in db.follows
    ensures v.Ok? ==> forall i, j :: 0 <= i < j < |v.value.items| ==> v.value.items[i].pubDate >= v.value.items[j].pubDate
  {
    match requester
    case None => LoginRedirect
    case Some(r) =>
      var l := NewestFirst(FollowJoin(db.posts, db.follows, r));
      var page := GetPage(l, PostsPerPage, req);
      assert forall p :: p in page.items ==> p in multiset(l);
      PageNewestFirst(l, req);
      Ok(page)
  }

  /** With unique posts and follow rows, as a valid store keeps them, the follow
      feed lists exactly the posts whose author the requester follows, each
      once, newest first. */
  lemma FollowFeedContents(db: Db, r: UserId)
    requires NoDup(db.posts) && NoDup(db.follows)
    ensures var l := NewestFirst(FollowJoin(db.posts, db.follows, r));
            && (forall p :: multiset(l)[p] == if Follow(r, p.author) in db.follows then multiset(db.posts)[p] else 0)
            && (forall p :: p in l <==> p in db.posts && Follow(r, p.author) in db.follows)
            && NoDup(l)
  {
    FollowFeedCounts(db, r);
    FollowFeedMembers(db, r);
    FollowFeedNoDup(db, r);
  }

  lemma FollowFeedCounts(db: Db, r: UserId)
    requires NoDup(db.follows)
    ensures var l := NewestFirst(FollowJoin(db.posts, db.follows, r));
            forall p :: multiset(l)[p] == if Follow(r, p.author) in db.follows then multiset(db.posts)[p] else 0
  {
    FollowJoinIsFilter(db.posts, db.follows, r);
  }

  lemma FollowFeedMembers(db: Db, r: UserId)
    ensures var l := NewestFirst(FollowJoin(db.posts, db.follows, r));
            forall p :: p in l <==> p in db.posts && Follow(r, p.author) in db.follows
  {
    var l := NewestFirst(FollowJoin(db.posts, db.follows, r));
    assert forall p :: p in l <==> p in multiset(FollowJoin(db.posts, db.follows, r));
  }

  lemma FollowFeedNoDup(db: Db, r: UserId)
    requires NoDup(db.posts) && NoDup(db.follows)
    ensures NoDup(NewestFirst(FollowJoin(db.posts, db.follows, r)))
  {
    var keep := (p: Post) => Follow(r, p.author) in db.follows;
    FollowJoinIsFilter(db.posts, db.follows, r);
    FilterNoDup(db.posts, keep);
    MultisetNoDup(Filter(db.posts, keep), NewestFirst(FollowJoin(db.posts, db.follows, r)));
  }

  /** A permutation of a duplicate-free sequence is duplicate-free. */
  lemma MultisetNoDup<T>(s: seq<T>, t: seq<T>)
    requires NoDup(s) && multiset(s) == multiset(t)
    ensures NoDup(t)
  {
    forall i, j | 0 <= i < j < |t| ensures t[i] != t[j] {
      if t[i] == t[j] {
        assert t == t[..j] + [t[j]] + t[j + 1..];
        assert t[i] in t[..j];
        assert multiset(t)[t[i]] >= 2 by {
          assert multiset(t) == multiset(t[..j]) + multiset{t[j]} + multiset(t[j + 1..]);
        }
        NoDupCount(s, t[i]);
        assert false;
      }
    }
  }

  // ---------------------------------------------------------------------------
  // country_posts

  datatype CountryContext = CountryContext(country: Country, page: Page<Post>)

  /** `country_posts`: 404 for an unknown slug; otherwise the country's posts,
      newest first, the page `get_page` picks. */
  function CountryPosts(db: Db, slug: string, req: PageRequest): (v: View<CountryContext>)
    ensures v.NotFound? <==> forall c :: c in db.countries ==> c.slug != slug
    ensures !v.LoginRedirect?
    ensures v.Ok? ==> v.value.country in db.countries && v.value.country.slug == slug
    ensures v.Ok? ==> v.value.page == GetPage(Listing(db.posts, ByCountry(v.value.country.id)), PostsPerPage, req)
    ensures v.Ok? ==> forall p :: p in v.value.page.items ==> p in db.posts && p.country == Some(v.value.country.id)
    ensures v.Ok? ==> forall i, j :: 0 <= i < j < |v.value.page.items| ==>
                        v.value.page.items[i].pubDate >= v.value.page.items[j].pubDate
  {
    match CountryBySlug(db.countries, slug)
    case None => NotFound
    case Some(c) =>
      var l := Listing(db.posts, ByCountry(c.id));
      var page := GetPage(l, PostsPerPage, req);
      PageNewestFirst(l, req);
      Ok(CountryContext(c, page))
  }

  /** A country nobody has written about gives an empty first page with count 0,
      not an error. */
  lemma EmptyCountryPage(db: Db, c: Country, req: PageRequest)
    requires Valid(db) && c in db.countries
    requires forall p :: p in db.posts ==> p.country != Some(c.id)
    ensures CountryPosts(db, c.slug, req) == Ok(CountryContext(c, Page([], 1, 1, 0)))
  {
    CountryBySlugUnique(db, c.slug, c);
  }

  // ---------------------------------------------------------------------------
  // profile

  datatype ProfileContext = ProfileContext(
    page: Page<Post>,
    following: bool,
    followersCount: nat,
    followingCount: nat)

  /** The users who follow `user`, and the authors `user` follows. */
  function Followers(fs: seq<Follow>, user: UserId): set<UserId> {
    set f | f in fs && f.author == user :: f.user
  }

  function Followed(fs: seq<Follow>, user: UserId): set<UserId> {
    set f | f in fs && f.user == user :: f.author
  }

  /** `follow_list.filter(author=user).count()`: with unique follow rows, the
      number of distinct followers. */
  function FollowersCount(fs: seq<Follow>, user: UserId): (n: nat)
    ensures n <= |fs|
    ensures NoDup(fs) ==> n == |Followers(fs, user)|
  {
    var keep := (f: Follow) => f.author == user;
    assert NoDup(fs) ==> |Filter(fs, keep)| == |Followers(fs, user)| by {
      if NoDup(fs) {
        FilterCountDistinct(fs, keep, (f: Follow) => f.user, Followers(fs, user));
      }
    }
    |Filter(fs, keep)|
  }

  /** `follow_list.filter(user=user).count()`: with unique follow rows, the
      number of distinct followed authors. */
  function FollowingCount(fs: seq<Follow>, user: UserId): (n: nat)
    ensures n <= |fs|
    ensures NoDup(fs) ==> n == |Followed(fs, user)|
  {
    var keep := (f: Follow) => f.user == user;
    assert NoDup(fs) ==> |Filter(fs, keep)| == |Followed(fs, user)| by {
      if NoDup(fs) {
        FilterCountDistinct(fs, keep, (f: Follow) => f.author, Followed(fs, user));
      }
    }
    |Filter(fs, keep)|
  }

  /** `profile`: 404 for an unknown user; otherwise the user's posts (newest
      first, one page of twelve), whether the requester follows them (never, for
      an anonymous requester), and the two follow counts. */
  function Profile(db: Db, requester: Option<UserId>, user: UserId, req: PageRequest): (v: View<ProfileContext>)
    ensures v.NotFound? <==> user !in db.users
    ensures !v.LoginRedirect?
    ensures v.Ok? ==> v.value.page == GetPage(Listing(db.posts, ByAuthor(user)), PostsPerPage, req)
    ensures v.Ok? ==> forall p :: p in v.value.page.items ==> p in db.posts && p.author == user
    ensures v.Ok? ==> forall i, j :: 0 <= i < j < |v.value.page.items| ==>
                        v.value.page.items[i].pubDate >= v.value.page.items[j].pubDate
    ensures v.Ok? ==> (v.value.following <==> requester.Some? && Follow(requester.value, user) in db.follows)
    ensures v.Ok? ==> v.value.followersCount == FollowersCount(db.follows, user)
    ensures v.Ok? ==> v.value.followingCount == FollowingCount(db.follows, user)
  {
    if user !in db.users then NotFound
    else
      var l := Listing(db.posts, ByAuthor(user));
      var page := GetPage(l, PostsPerPage, req);
      PageNewestFirst(l, req);
      var following := requester.Some? && Follow(requester.value, user) in db.follows;
      Ok(ProfileContext(page, following, FollowersCount(db.follows, user), FollowingCount(db.follows, user)))
  }

  /** In a valid store the profile figures mean what they say: the counts are
      the numbers of distinct followers and followed authors, and `following`
      holds exactly when an authenticated requester has a follow row to the user. */
  lemma ProfileFigures(db: Db, requester: Option<UserId>, user: UserId, req: PageRequest)
    requires Valid(db) && user in db.users
    ensures var v := Profile(db, requester, user, req);
            && v.Ok?
            && v.value.followersCount == |Followers(db.follows, user)|
            && v.value.followingCount == |Followed(db.follows, user)|
            && (v.value.following <==>
                  requester.Some? && exists f :: f in db.follows && f.user == requester.value && f.author == user)
  {
  }

  // ---------------------------------------------------------------------------
  // The newest post comes first

  /** A selected post dated after every other post heads the selection's list. */
  lemma NewestOpensListing(ps: seq<Post>, sel: Selection, p: Post)
    requires p in ps && Selects(sel, p)
    requires forall q :: q in ps && q != p ==> q.pubDate < p.pubDate
    ensures Listing(ps, sel) != [] && Listing(ps, sel)[0] == p
  {
    var chosen := Filter(ps, (q: Post) => Selects(sel, q));
    assert Listing(ps, sel) == NewestFirst(chosen);
    NewestHeadsList(chosen, p);
  }

  /** A list that starts with `p` serves `p` first on the default page. */
  lemma DefaultPageOpensWith(l: seq<Post>, p: Post, req: PageRequest)
    requires l != [] && l[0] == p && !req.Number?
    ensures var page := GetPage(l, PostsPerPage, req);
            page.items != [] && page.items[0] == p
  {
    FirstPageByDefault(l, PostsPerPage, req);
  }

  /** The post just written (dated after every other) is the first post on the
      first page of the main feed. */
  lemma NewPostOpensIndex(db: Db, p: Post, req: PageRequest)
    requires p in db.posts
    requires forall q :: q in db.posts && q != p ==> q.pubDate < p.pubDate
    requires !req.Number?
    ensures Index(db, req).items != [] && Index(db, req).items[0] == p
  {
    NewestOpensListing(db.posts, AllPosts, p);
    DefaultPageOpensWith(Listing(db.posts, AllPosts), p, req);
  }

  /** ... and of its author's profile, whoever looks at it. */
  lemma NewPostOpensProfile(db: Db, p: Post, viewer: Option<UserId>, req: PageRequest)
    requires p in db.posts && p.author in db.users
    requires forall q :: q in db.posts && q != p ==> q.pubDate < p.pubDate
    requires !req.Number?
    ensures var v := Profile(db, viewer, p.author, req);
            v.Ok? && v.value.page.items != [] && v.value.page.items[0] == p
  {
    NewestOpensListing(db.posts, ByAuthor(p.author), p);
    DefaultPageOpensWith(Listing(db.posts, ByAuthor(p.author)), p, req);
  }

  /** ... and of its country's page. */
  lemma NewPostOpensCountry(db: Db, p: Post, c: Country, req: PageRequest)
    requires Valid(db) && p in db.posts && c in db.countries && p.country == Some(c.id)
    requires forall q :: q in db.posts && q != p ==> q.pubDate < p.pubDate
    requires !req.Number?
    ensures var v := CountryPosts(db, c.slug, req);
            v.Ok? && v.value.page.items != [] && v.value.page.items[0] == p
  {
    CountryBySlugUnique(db, c.slug, c);
    NewestOpensListing(db.posts, ByCountry(c.id), p);
    DefaultPageOpensWith(Listing(db.posts, ByCountry(c.id)), p, req);
  }

  // ---------------------------------------------------------------------------
  // post_detail

  datatype DetailContext = DetailContext(post: Post, comments: seq<Comment>)

  /** `post.comments.all()` under `Comments.Meta.ordering = ('-created',)`. */
  function PostComments(comments: seq<Comment>, post: PostId): (r: seq<Comment>)
    ensures forall c :: c in r <==> c in comments && c.post == post
    ensures |r| == CommentsCount(comments, post)
    ensures forall i, j :: 0 <= i < j < |r| ==> r[i].created >= r[j].created
  {
    var mine := Filter(comments, (c: Comment) => c.post == post);
    var r := SortDesc(mine, Created);
    assert |r| == |multiset(r)| == |multiset(mine)| == |mine|;
    assert forall c :: c in r <==> c in multiset(mine);
    r
  }

  /** `post_detail`: 404 for an unknown post; otherwise the post and its comments,
      newest first. */
  function PostDetail(db: Db, post: PostId): (v: View<DetailContext>)
    ensures v.NotFound? <==> post !in PostIds(db.posts)
    ensures !v.LoginRedirect?
    ensures v.Ok? ==> v.value.post in db.posts && v.value.post.id == post
    ensures v.Ok? ==> v.value.comments == PostComments(db.comments, post)
    ensures v.Ok? ==> forall c :: c in v.value.comments <==> c in db.comments && c.post == post
    ensures v.Ok? ==> |v.value.comments| == CommentsCount(db.comments, post)
    ensures v.Ok? ==> forall i, j :: 0 <= i < j < |v.value.comments| ==>
                        v.value.comments[i].created >= v.value.comments[j].created
  {
    match FindPost(db.posts, post)
    case None => NotFound
    case Some(p) => Ok(DetailContext(p, PostComments(db.comments, post)))
  }
}
