/** The records of the posts app (Country, Post, Comments, Follow, Like) as values,
    the store they live in, the constraints the store keeps (primary keys, the
    unique slug, the two `unique_together` pairs, every foreign key resolving),
    the `on_delete` rules, and the methods the models define. */
module Models {
  import opened Wrappers
  import opened Seqs

  /** Users belong to the authentication collaborator; the store only knows their ids. */
  type UserId = nat
  type CountryId = nat
  type PostId = nat
  type CommentId = nat
  /** The stored path of an uploaded image; the file itself is not modelled. */
  type ImagePath = string

  /** Timestamps are readings of a logical clock that only moves forward. */
  type Timestamp = nat

  datatype Country = Country(id: CountryId, title: string, slug: string, description: Option<string>)

  datatype Post = Post(
    id: PostId,
    text: string,
    pubDate: Timestamp,
    author: UserId,
    country: Option<CountryId>,
    image: Option<ImagePath>)

  datatype Comment = Comment(id: CommentId, post: PostId, author: UserId, text: string, created: Timestamp)

  /** `user` follows `author`. */
  datatype Follow = Follow(user: UserId, author: UserId)

  datatype Like = Like(user: UserId, post: PostId)

  /** One state of the database: every table, rows in insertion order. */
  datatype Db = Db(
    users: set<UserId>,
    countries: seq<Country>,
    posts: seq<Post>,
    comments: seq<Comment>,
    follows: seq<Follow>,
    likes: seq<Like>)

  /** `max_length` of `Country.title`. */
  const TitleMaxLength: nat := 60

  function PostIds(ps: seq<Post>): set<PostId> {
    set p | p in ps :: p.id
  }

  function CountryIds(cs: seq<Country>): set<CountryId> {
    set c | c in cs :: c.id
  }

  /** Primary key and unique slug of the country table: no row is stored twice,
      and two rows that agree on the key or the slug are the same row. */
  ghost predicate CountryKeys(cs: seq<Country>) {
    && NoDup(cs)
    && (forall a, b :: a in cs && b in cs && (a.id == b.id || a.slug == b.slug) ==> a == b)
  }

  ghost predicate PostKeys(ps: seq<Post>) {
    && NoDup(ps)
    && (forall a, b :: a in ps && b in ps && a.id == b.id ==> a == b)
  }

  ghost predicate CommentKeys(cs: seq<Comment>) {
    && NoDup(cs)
    && (forall a, b :: a in cs && b in cs && a.id == b.id ==> a == b)
  }

  /** Primary keys and the columns declared unique, table by table; the follow
      and like tables are unique on their pair. */
  ghost predicate UniqueKeys(db: Db) {
    && CountryKeys(db.countries)
    && PostKeys(db.posts)
    && CommentKeys(db.comments)
    && NoDup(db.follows)
    && NoDup(db.likes)
  }

  /** A filtered post table keeps its keys unique. */
  lemma PostKeysFilter(ps: seq<Post>, keep: Post -> bool)
    requires PostKeys(ps)
    ensures PostKeys(Filter(ps, keep))
  {
    FilterNoDup(ps, keep);
  }

  lemma CommentKeysFilter(cs: seq<Comment>, keep: Comment -> bool)
    requires CommentKeys(cs)
    ensures CommentKeys(Filter(cs, keep))
  {
    FilterNoDup(cs, keep);
  }

  /** Every foreign key names an existing row; only `Post.country` may be null. */
  ghost predicate References(db: Db) {
    && (forall p :: p in db.posts ==>
          p.author in db.users && (p.country.Some? ==> p.country.value in CountryIds(db.countries)))
    && (forall c :: c in db.comments ==> c.post in PostIds(db.posts) && c.author in db.users)
    && (forall f :: f in db.follows ==> f.user in db.users && f.author in db.users)
    && (forall l :: l in db.likes ==> l.user in db.users && l.post in PostIds(db.posts))
  }

  /** Every constraint the schema declares: unique keys, existing references and
      country titles within `max_length`. Under it a follow or like pair is
      stored at most once, which is what `unique_together` promises. */
  ghost predicate Valid(db: Db): (ok: bool)
    ensures ok ==> forall f :: f in db.follows ==> multiset(db.follows)[f] == 1
    ensures ok ==> forall l :: l in db.likes ==> multiset(db.likes)[l] == 1
  {
    var ok := UniqueKeys(db) && References(db) && (forall c :: c in db.countries ==> |c.title| <= TitleMaxLength);
    assert ok ==> forall f :: f in db.follows ==> multiset(db.follows)[f] == 1 by {
      if ok { forall f | f in db.follows { NoDupCount(db.follows, f); } }
    }
    assert ok ==> forall l :: l in db.likes ==> multiset(db.likes)[l] == 1 by {
      if ok { forall l | l in db.likes { NoDupCount(db.likes, l); } }
    }
    ok
  }

  // ---------------------------------------------------------------------------
  // Lookups by key: `get_object_or_404` answers NotFound exactly when these say None.

  function PostIndex(ps: seq<Post>, id: PostId): (r: Option<nat>)
    ensures r.Some? ==> r.value < |ps| && ps[r.value].id == id
    ensures r.None? <==> id !in PostIds(ps)
  {
    if ps == [] then None
    else if ps[0].id == id then Some(0)
    else
      assert ps == [ps[0]] + ps[1..];
      match PostIndex(ps[1..], id)
      case None => None
      case Some(i) => Some(i + 1)
  }

  function FindPost(ps: seq<Post>, id: PostId): (r: Option<Post>)
    ensures r.Some? ==> r.value in ps && r.value.id == id
    ensures r.None? <==> id !in PostIds(ps)
  {
    match PostIndex(ps, id)
    case None => None
    case Some(i) => Some(ps[i])
  }

  /** `get_object_or_404(Country, slug=slug)`. */
  function CountryBySlug(cs: seq<Country>, slug: string): (r: Option<Country>)
    ensures r.Some? ==> r.value in cs && r.value.slug == slug
    ensures r.None? <==> forall c :: c in cs ==> c.slug != slug
  {
    if cs == [] then None
    else if cs[0].slug == slug then Some(cs[0])
    else
      assert cs == [cs[0]] + cs[1..];
      CountryBySlug(cs[1..], slug)
  }

  /** Slugs are unique, so the country a slug finds is the only one with it. */
  lemma CountryBySlugUnique(db: Db, slug: string, c: Country)
    requires Valid(db)
    requires c in db.countries && c.slug == slug
    ensures CountryBySlug(db.countries, slug) == Some(c)
  {
    var r := CountryBySlug(db.countries, slug);
    var i :| 0 <= i < |db.countries| && db.countries[i] == c;
    var j :| 0 <= j < |db.countries| && db.countries[j] == r.value;
  }

  // ---------------------------------------------------------------------------
  // Model methods

  /** `Post.comments_count()`: how many comments reference the post. */
  function CommentsCount(comments: seq<Comment>, post: PostId): (n: nat)
    ensures n <= |comments|
    ensures n == 0 <==> forall c :: c in comments ==> c.post != post
  {
    var mine := Filter(comments, (c: Comment) => c.post == post);
    assert mine != [] ==> mine[0] in mine;
    |mine|
  }

  /** Adding a comment raises its own post's count by one and no other post's. */
  lemma CommentsCountAppend(comments: seq<Comment>, c: Comment, post: PostId)
    ensures CommentsCount(comments + [c], post)
         == CommentsCount(comments, post) + (if c.post == post then 1 else 0)
  {
    FilterAppend(comments, [c], (x: Comment) => x.post == post);
  }

  /** `Post.likes()`: the like rows pointing at the post. */
  function PostLikes(likes: seq<Like>, post: PostId): (r: seq<Like>)
    ensures forall l :: l in r <==> l in likes && l.post == post
    ensures NoDup(likes) ==> NoDup(r)
  {
    var mine := Filter(likes, (l: Like) => l.post == post);
    assert NoDup(likes) ==> NoDup(mine) by {
      if NoDup(likes) { FilterNoDup(likes, (l: Like) => l.post == post); }
    }
    mine
  }

  /** `Post.already_like()`, with the requester passed explicitly instead of read
      from the ambient request. */
  function AlreadyLike(likes: seq<Like>, post: PostId, requester: Option<UserId>): (b: bool)
    ensures b <==> requester.Some? && exists l :: l in likes && l.user == requester.value && l.post == post
  {
    requester.Some? && Like(requester.value, post) in likes
  }

  // ---------------------------------------------------------------------------
  // __str__

  /** Python's `text[:n]`. */
  function Truncate(text: string, n: nat): (r: string)
    ensures |r| == if |text| <= n then |text| else n
    ensures r <= text
  {
    if |text| <= n then text else text[..n]
  }

  /** Length of the text excerpt in `str(post)` and `str(comment)`. */
  const ExcerptLength: nat := 15

  function DigitChar(d: nat): (c: char)
    requires d < 10
    ensures '0' <= c <= '9'
  {
    (('0' as int) + d) as char
  }

  predicate IsDigits(s: string) {
    forall k :: 0 <= k < |s| ==> '0' <= s[k] <= '9'
  }

  /** Python's `str(n)` for a non-negative integer. */
  function DecimalString(n: nat): (r: string)
    ensures |r| > 0 && IsDigits(r)
    ensures r[0] == '0' ==> n == 0 && |r| == 1
  {
    if n < 10 then [DigitChar(n)] else DecimalString(n / 10) + [DigitChar(n % 10)]
  }

  function DecimalValue(s: string): nat
    requires IsDigits(s)
  {
    if s == [] then 0 else 10 * DecimalValue(s[..|s| - 1]) + (s[|s| - 1] as int - '0' as int)
  }

  /** The decimal rendering of a key reads back as that key. */
  lemma {:induction false} DecimalRoundTrip(n: nat)
    ensures DecimalValue(DecimalString(n)) == n
  {
    var s := DecimalString(n);
    if n >= 10 {
      DecimalRoundTrip(n / 10);
      assert s[..|s| - 1] == DecimalString(n / 10);
    }
  }

  /** `str(country)`. */
  function CountryStr(c: Country): (r: string)
    ensures r == c.title
  {
    c.title
  }

  /** How much of a text `text[:15]` keeps. */
  function ExcerptSize(text: string): nat {
    if |text| <= ExcerptLength then |text| else ExcerptLength
  }

  /** `str(post)` is `"{pk} | {author} | {text[:15]}"`; the author renders as
      their username, which the authentication collaborator supplies. The key
      can be read back from the leading digits. */
  function PostStr(p: Post, authorName: string): (r: string)
    ensures var k := |DecimalString(p.id)|;
            && |r| == k + 6 + |authorName| + ExcerptSize(p.text)
            && IsDigits(r[..k]) && DecimalValue(r[..k]) == p.id
            && r[k..k + 3] == " | "
            && r[k + 3..k + 3 + |authorName|] == authorName
            && r[k + 3 + |authorName|..k + 6 + |authorName|] == " | "
            && r[k + 6 + |authorName|..] == p.text[..ExcerptSize(p.text)]
  {
    DecimalRoundTrip(p.id);
    var id := DecimalString(p.id);
    var excerpt := Truncate(p.text, ExcerptLength);
    SeparatedParts(id, authorName, excerpt);
    id + " | " + authorName + " | " + excerpt
  }

  /** Where the three fields of `"{a} | {b} | {c}"` sit. */
  lemma SeparatedParts(a: string, b: string, c: string)
    ensures var r := a + " | " + b + " | " + c;
            && |r| == |a| + 6 + |b| + |c|
            && r[..|a|] == a
            && r[|a|..|a| + 3] == " | "
            && r[|a| + 3..|a| + 3 + |b|] == b
            && r[|a| + 3 + |b|..|a| + 6 + |b|] == " | "
            && r[|a| + 6 + |b|..] == c
  {
    var r := a + " | " + b + " | " + c;
    assert r[..|a|] == a;
    assert r[|a|..|a| + 3] == " | ";
    assert r[|a| + 3..|a| + 3 + |b|] == b;
    assert r[|a| + 3 + |b|..|a| + 6 + |b|] == " | ";
    assert r[|a| + 6 + |b|..] == c;
  }

  /** `str(comment)` is the first 15 characters of its text. */
  function CommentStr(c: Comment): (r: string)
    ensures |r| == ExcerptSize(c.text)
    ensures r == c.text[..ExcerptSize(c.text)]
  {
    Truncate(c.text, ExcerptLength)
  }

  /** `str(follow)` is `"Follower: {user}, Following: {author}"`. */
  function FollowStr(userName: string, authorName: string): (r: string)
    ensures |r| == 23 + |userName| + |authorName|
    ensures r[..10] == "Follower: "
    ensures r[10..10 + |userName|] == userName
    ensures r[10 + |userName|..23 + |userName|] == ", Following: "
    ensures r[23 + |userName|..] == authorName
  {
    var r := "Follower: " + userName + ", Following: " + authorName;
    assert r[..10] == "Follower: ";
    assert r[10..10 + |userName|] == userName;
    assert r[10 + |userName|..23 + |userName|] == ", Following: ";
    assert r[23 + |userName|..] == authorName;
    r
  }

  // ---------------------------------------------------------------------------
  // on_delete rules

  /** `Post.country` is `on_delete=SET_NULL`. */
  function ClearCountry(p: Post, country: CountryId): Post {
    if p.country == Some(country) then p.(country := None) else p
  }

  /** Deleting a country removes it and nulls the country of its posts; no post
      is deleted and nothing else changes. */
  function DeleteCountry(db: Db, country: CountryId): (r: Db)
    ensures CountryIds(r.countries) == CountryIds(db.countries) - {country}
    ensures forall c :: c in r.countries <==> c in db.countries && c.id != country
    ensures |r.posts| == |db.posts|
    ensures forall i :: 0 <= i < |r.posts| ==>
              && r.posts[i].country == (if db.posts[i].country == Some(country) then None else db.posts[i].country)
              && r.posts[i].(country := None) == db.posts[i].(country := None)
    ensures forall p :: p in r.posts ==> p.country != Some(country)
    ensures r.users == db.users && r.comments == db.comments
    ensures r.follows == db.follows && r.likes == db.likes
  {
    db.(countries := Filter(db.countries, (c: Country) => c.id != country),
        posts := seq(|db.posts|, i requires 0 <= i < |db.posts| => ClearCountry(db.posts[i], country)))
  }

  lemma DeleteCountryKeys(db: Db, country: CountryId)
    requires UniqueKeys(db)
    ensures UniqueKeys(DeleteCountry(db, country))
  {
    var r := DeleteCountry(db, country);
    FilterNoDup(db.countries, (c: Country) => c.id != country);
    forall i, j | 0 <= i < j < |r.posts| ensures r.posts[i] != r.posts[j] {
      assert db.posts[i] in db.posts && db.posts[j] in db.posts;
      assert db.posts[i] != db.posts[j];
    }
    forall a, b | a in r.posts && b in r.posts && a.id == b.id ensures a == b {
      var i :| 0 <= i < |r.posts| && r.posts[i] == a;
      var j :| 0 <= j < |r.posts| && r.posts[j] == b;
      assert db.posts[i] in db.posts && db.posts[j] in db.posts;
    }
  }

  lemma DeleteCountryReferences(db: Db, country: CountryId)
    requires References(db)
    ensures References(DeleteCountry(db, country))
  {
    var r := DeleteCountry(db, country);
    assert PostIds(r.posts) == PostIds(db.posts) by {
      forall id | id in PostIds(db.posts) ensures id in PostIds(r.posts) {
        var i :| 0 <= i < |db.posts| && db.posts[i].id == id;
        assert r.posts[i].id == id;
      }
      forall id | id in PostIds(r.posts) ensures id in PostIds(db.posts) {
        var i :| 0 <= i < |r.posts| && r.posts[i].id == id;
        assert db.posts[i].id == id;
      }
    }
    forall p | p in r.posts
      ensures p.author in r.users && (p.country.Some? ==> p.country.value in CountryIds(r.countries))
    {
      var i :| 0 <= i < |r.posts| && r.posts[i] == p;
      assert db.posts[i] in db.posts;
      if p.country.Some? {
        var c :| c in db.countries && c.id == p.country.value;
        assert c in r.countries;
      }
    }
  }

  /** Nulling the references keeps every constraint of the store. */
  lemma DeleteCountryValid(db: Db, country: CountryId)
    requires Valid(db)
    ensures Valid(DeleteCountry(db, country))
  {
    DeleteCountryKeys(db, country);
    DeleteCountryReferences(db, country);
  }

  /** Deleting a post cascades to its comments and its likes and to nothing else. */
  function DeletePost(db: Db, post: PostId): (r: Db)
    ensures PostIds(r.posts) == PostIds(db.posts) - {post}
    ensures forall p :: p in r.posts <==> p in db.posts && p.id != post
    ensures forall c :: c in r.comments <==> c in db.comments && c.post != post
    ensures |r.comments| == |db.comments| - CommentsCount(db.comments, post)
    ensures forall l :: l in r.likes <==> l in db.likes && l.post != post
    ensures |r.likes| == |db.likes| - |PostLikes(db.likes, post)|
    ensures r.users == db.users && r.countries == db.countries && r.follows == db.follows
  {
    var r := db.(posts := Filter(db.posts, (p: Post) => p.id != post),
                 comments := Filter(db.comments, (c: Comment) => c.post != post),
                 likes := Filter(db.likes, (l: Like) => l.post != post));
    assert PostIds(r.posts) == PostIds(db.posts) - {post} by {
      forall id | id in PostIds(db.posts) - {post} ensures id in PostIds(r.posts) {
        var p :| p in db.posts && p.id == id;
        assert p in r.posts;
      }
    }
    FilterSplit(db.comments, (c: Comment) => c.post == post, (c: Comment) => c.post != post);
    FilterSplit(db.likes, (l: Like) => l.post == post, (l: Like) => l.post != post);
    r
  }

  lemma DeletePostKeys(db: Db, post: PostId)
    requires UniqueKeys(db)
    ensures UniqueKeys(DeletePost(db, post))
  {
    PostKeysFilter(db.posts, (p: Post) => p.id != post);
    CommentKeysFilter(db.comments, (c: Comment) => c.post != post);
    FilterNoDup(db.likes, (l: Like) => l.post != post);
  }

  lemma DeletePostReferences(db: Db, post: PostId)
    requires References(db)
    ensures References(DeletePost(db, post))
  {
    var r := DeletePost(db, post);
    forall c | c in r.comments ensures c.post in PostIds(r.posts) {
      assert c in db.comments;
    }
    forall l | l in r.likes ensures l.post in PostIds(r.posts) {
      assert l in db.likes;
    }
  }

  /** The cascade leaves no comment or like pointing at the deleted post. */
  lemma DeletePostValid(db: Db, post: PostId)
    requires Valid(db)
    ensures Valid(DeletePost(db, post))
  {
    DeletePostKeys(db, post);
    DeletePostReferences(db, post);
  }

  /** The keys of the posts `user` wrote. */
  function PostsBy(ps: seq<Post>, user: UserId): set<PostId> {
    set p | p in ps && p.author == user :: p.id
  }

  /** Deleting a user cascades to their posts (and through them to those posts'
      comments and likes), their comments, their likes, and every follow row
      they are either end of. */
  function DeleteUser(db: Db, user: UserId): (r: Db)
    ensures r.users == db.users - {user}
    ensures forall p :: p in r.posts <==> p in db.posts && p.author != user
    ensures forall c :: c in r.comments <==>
              c in db.comments && c.author != user && c.post !in PostsBy(db.posts, user)
    ensures forall l :: l in r.likes <==>
              l in db.likes && l.user != user && l.post !in PostsBy(db.posts, user)
    ensures forall f :: f in r.follows <==> f in db.follows && f.user != user && f.author != user
    ensures r.countries == db.countries
  {
    var gone := PostsBy(db.posts, user);
    Db(db.users - {user},
       db.countries,
       Filter(db.posts, (p: Post) => p.author != user),
       Filter(db.comments, (c: Comment) => c.author != user && c.post !in gone),
       Filter(db.follows, (f: Follow) => f.user != user && f.author != user),
       Filter(db.likes, (l: Like) => l.user != user && l.post !in gone))
  }

  lemma DeleteUserKeys(db: Db, user: UserId)
    requires UniqueKeys(db)
    ensures UniqueKeys(DeleteUser(db, user))
  {
    var gone := PostsBy(db.posts, user);
    PostKeysFilter(db.posts, (p: Post) => p.author != user);
    CommentKeysFilter(db.comments, (c: Comment) => c.author != user && c.post !in gone);
    FilterNoDup(db.follows, (f: Follow) => f.user != user && f.author != user);
    FilterNoDup(db.likes, (l: Like) => l.user != user && l.post !in gone);
  }

  /** A key of a post no longer there belonged to the deleted user. */
  lemma SurvivingPostIds(db: Db, user: UserId, id: PostId)
    requires id in PostIds(db.posts) && id !in PostsBy(db.posts, user)
    ensures id in PostIds(DeleteUser(db, user).posts)
  {
    var p :| p in db.posts && p.id == id;
    assert p in DeleteUser(db, user).posts;
  }

  lemma DeleteUserReferences(db: Db, user: UserId)
    requires References(db)
    ensures References(DeleteUser(db, user))
  {
    DeleteUserPostRefs(db, user);
    DeleteUserCommentRefs(db, user);
    DeleteUserFollowRefs(db, user);
    DeleteUserLikeRefs(db, user);
  }

  lemma DeleteUserPostRefs(db: Db, user: UserId)
    requires References(db)
    ensures var r := DeleteUser(db, user);
            forall p :: p in r.posts ==>
              p.author in r.users && (p.country.Some? ==> p.country.value in CountryIds(r.countries))
  {
  }

  lemma DeleteUserCommentRefs(db: Db, user: UserId)
    requires References(db)
    ensures var r := DeleteUser(db, user);
            forall c :: c in r.comments ==> c.post in PostIds(r.posts) && c.author in r.users
  {
    var r := DeleteUser(db, user);
    forall c | c in r.comments ensures c.post in PostIds(r.posts) && c.author in r.users {
      SurvivingPostIds(db, user, c.post);
    }
  }

  lemma DeleteUserFollowRefs(db: Db, user: UserId)
    requires References(db)
    ensures var r := DeleteUser(db, user);
            forall f :: f in r.follows ==> f.user in r.users && f.author in r.users
  {
  }

  lemma DeleteUserLikeRefs(db: Db, user: UserId)
    requires References(db)
    ensures var r := DeleteUser(db, user);
            forall l :: l in r.likes ==> l.user in r.users && l.post in PostIds(r.posts)
  {
    var r := DeleteUser(db, user);
    forall l | l in r.likes ensures l.user in r.users && l.post in PostIds(r.posts) {
      SurvivingPostIds(db, user, l.post);
    }
  }

  /** The cascade leaves no row pointing at the deleted user or at a deleted post. */
  lemma DeleteUserValid(db: Db, user: UserId)
    requires Valid(db)
    ensures Valid(DeleteUser(db, user))
  {
    DeleteUserKeys(db, user);
    DeleteUserReferences(db, user);
  }
}
