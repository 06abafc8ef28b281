/** The app's own test cases, replayed against the model store: each method
    builds a store, drives the views as a test client would, and promises in
    its postcondition what the test asserts. */
module Scenarios {
  import opened Wrappers
  import opened Seqs
  import opened Models
  import opened Paging
  import opened Feeds
  import opened Handlers

  const Author: UserId := 1
  const Reader: UserId := 2

  function NewZealand(): Country {
    Country(5, "New Zealand", "New-Zealand", Some("NZ description"))
  }

  function PostText(): string {
    "Some post text"
  }

  /** A valid post form in the one country the scenarios know. */
  function CreateForm(): PostForm {
    PostForm(true, PostText(), Some(NewZealand().id), Upload("posts/small.gif"), true)
  }

  method NewStore() returns (s: Store)
    ensures fresh(s) && s.Valid()
    ensures s.Tables() == Db({Author, Reader}, [NewZealand()], [], [], [], [])
  {
    s := new Store({Author, Reader}, [NewZealand()]);
  }

  /** `test_auth_user_can_follow`, asked twice: one follow row, one follower. */
  method FollowTwice() returns (first: Reply, second: Reply, rows: seq<Follow>, followers: nat)
    ensures first == second == RedirectProfile(Author)
    ensures rows == [Follow(Reader, Author)]
    ensures followers == 1
  {
    var s := NewStore();
    first := s.ProfileFollow(Some(Reader), Author);
    second := s.ProfileFollow(Some(Reader), Author);
    rows := s.follows;
    followers := FollowersCount(s.follows, Author);
  }

  /** `test_guest_user_cant_follow`, and following oneself: no row either way. */
  method FollowRefused() returns (guest: Reply, self: Reply, rows: seq<Follow>)
    ensures guest == RedirectLogin && self == RedirectProfile(Author)
    ensures rows == []
  {
    var s := NewStore();
    guest := s.ProfileFollow(None, Author);
    self := s.ProfileFollow(Some(Author), Author);
    rows := s.follows;
  }

  /** `test_auth_user_can_unfollow`: the row count drops by one. */
  method FollowThenUnfollow() returns (before: nat, after: nat)
    ensures before == 1 && after == 0
  {
    var s := NewStore();
    var _ := s.ProfileFollow(Some(Reader), Author);
    before := |s.follows|;
    var _ := s.ProfileUnfollow(Some(Reader), Author);
    after := |s.follows|;
  }

  /** `test_author_post_showing_for_followers`: once the reader follows the
      author, the reader's feed is exactly the author's post. */
  method FollowFeed() returns (post: Post, readerFeed: View<Page<Post>>)
    ensures post.author == Author && post.text == PostText() && post.country == Some(NewZealand().id)
    ensures readerFeed == Ok(Page([post], 1, 1, 1))
  {
    var s := NewStore();
    var _ := s.PostCreate(Some(Author), CreateForm());
    var _ := s.ProfileFollow(Some(Reader), Author);
    var db := s.Tables();
    post := db.posts[0];
    FollowedPostShows(db, post);
    readerFeed := FollowIndex(db, Some(Reader), Absent);
  }

  /** `test_author_post_not_showing_if_unfollow`: the reverse edge, the author
      following the reader, puts nothing in the reader's feed. */
  method ReverseEdgeFeed() returns (readerFeed: View<Page<Post>>)
    ensures readerFeed == Ok(Page([], 1, 1, 0))
  {
    var s := NewStore();
    var _ := s.PostCreate(Some(Author), CreateForm());
    var _ := s.ProfileFollow(Some(Author), Reader);
    var db := s.Tables();
    ReverseEdgeHidesPost(db, db.posts[0]);
    readerFeed := FollowIndex(db, Some(Reader), Absent);
  }

  /** One post by the author and one follow row from the reader to the author:
      the reader's feed is that post. */
  lemma FollowedPostShows(db: Db, p: Post)
    requires db.posts == [p] && p.author == Author && db.follows == [Follow(Reader, Author)]
    ensures FollowIndex(db, Some(Reader), Absent) == Ok(Page([p], 1, 1, 1))
  {
    assert multiset(db.follows)[Follow(Reader, Author)] == 1;
    assert FollowJoin(db.posts, db.follows, Reader) == [p] by {
      assert Repeat(p, 1) == [p];
    }
    var l := NewestFirst([p]);
    assert multiset(l) == multiset{p};
    assert |l| == 1 && l[0] in multiset(l);
    assert l == [p];
  }

  /** One post by the author and one follow row from the author to the reader:
      the reader's feed is empty. */
  lemma ReverseEdgeHidesPost(db: Db, p: Post)
    requires db.posts == [p] && p.author == Author && db.follows == [Follow(Author, Reader)]
    ensures FollowIndex(db, Some(Reader), Absent) == Ok(Page([], 1, 1, 0))
  {
    assert multiset(db.follows)[Follow(Reader, Author)] == 0;
    assert FollowJoin(db.posts, db.follows, Reader) == [];
  }

  /** `test_auth_user_create_post`: a redirect to the author's profile and one
      new post carrying the form's text, country, image and the author. */
  method CreatePost() returns (reply: Reply, posts: seq<Post>)
    ensures reply == RedirectProfile(Author)
    ensures |posts| == 1
    ensures posts[0].text == PostText() && posts[0].country == Some(NewZealand().id)
    ensures posts[0].author == Author && posts[0].image == Some("posts/small.gif")
  {
    var s := NewStore();
    reply := s.PostCreate(Some(Author), CreateForm());
    posts := s.posts;
  }

  /** `test_guest_user_cant_create_post`: nothing is stored. */
  method GuestCreatesNothing() returns (reply: Reply, posts: seq<Post>)
    ensures reply == RedirectLogin && posts == []
  {
    var s := NewStore();
    reply := s.PostCreate(None, CreateForm());
    posts := s.posts;
  }

  /** The second country of the form tests, the one an edit moves a post to. */
  function AnotherCountry(): Country {
    Country(6, "Another country Name", "another-country-name", Some("Another country description"))
  }

  /** `test_author_can_edit_post` and `test_guest_or_not_author_cant_edit_post`:
      a guest is sent to log in and another user to the main page, both leaving
      the post table as it was; the author's edit takes the new text, country
      and image and keeps the key, the author and the date. */
  method EditPost() returns (guest: Reply, other: Reply, refused: seq<Post>, author: Reply, before: Post, after: Post)
    ensures guest == RedirectLogin && other == RedirectMain
    ensures refused == [before]
    ensures author == RedirectPostDetail(before.id)
    ensures after.text == "Edited post text" && after.image == Some("posts/small_edited.gif")
    ensures before.country == Some(NewZealand().id) && after.country == Some(AnotherCountry().id)
    ensures after.id == before.id && after.pubDate == before.pubDate && after.author == before.author
  {
    var s := new Store({Author, Reader}, [NewZealand(), AnotherCountry()]);
    var _ := s.PostCreate(Some(Author), CreateForm());
    before := s.posts[0];
    assert s.posts == [before] && PostIndex(s.posts, before.id) == Some(0);
    var edit := PostForm(true, "Edited post text", Some(AnotherCountry().id), Upload("posts/small_edited.gif"), true);
    assert PostFormValid(edit, s.countries) by {
      assert AnotherCountry() in s.countries;
    }
    guest := s.PostEdit(None, before.id, edit);
    other := s.PostEdit(Some(Reader), before.id, edit);
    refused := s.posts;
    assert refused == [before];
    author := s.PostEdit(Some(Author), before.id, edit);
    after := s.posts[0];
    assert after == Edited(before, edit);
  }

  /** `test_auth_user_can_add_comment` and `test_guest_cant_add_comment`: the
      guest adds nothing; the user's comment is stored and heads the post page. */
  method CommentOnPost() returns (guest: Reply, user: Reply, detail: View<DetailContext>)
    ensures guest == RedirectLogin
    ensures user.RedirectPostDetail?
    ensures detail.Ok? && |detail.value.comments| == 1 && detail.value.comments[0].text == "Nice trip"
  {
    var s := NewStore();
    var _ := s.PostCreate(Some(Author), CreateForm());
    var id := s.posts[0].id;
    var form := CommentForm(true, "Nice trip", true);
    guest := s.AddComment(None, id, form);
    assert s.comments == [];
    user := s.AddComment(Some(Reader), id, form);
    detail := PostDetail(s.Tables(), id);
    assert s.comments[0] in detail.value.comments;
  }

  /** Like, un-like, like again: one like row, and the post reports it. */
  method LikeTwice() returns (rows: nat, liked: bool)
    ensures rows == 1 && liked
  {
    var s := NewStore();
    var _ := s.PostCreate(Some(Author), CreateForm());
    var id := s.posts[0].id;
    var _ := s.PostLike(Some(Reader), id);
    var _ := s.PostDislike(Some(Reader), id);
    var _ := s.PostLike(Some(Reader), id);
    rows := |s.likes|;
    liked := AlreadyLike(s.likes, id, Some(Reader));
  }

  /** A selection every post passes lists every post. */
  lemma ListingOfAll(ps: seq<Post>, sel: Selection)
    requires forall p :: p in ps ==> Selects(sel, p)
    ensures |Listing(ps, sel)| == |ps|
  {
    var l := Listing(ps, sel);
    assert multiset(l) == multiset(ps) by {
      forall p ensures multiset(l)[p] == multiset(ps)[p] {
        if p !in ps {
          assert multiset(ps)[p] == 0;
        }
      }
    }
    assert |l| == |multiset(l)|;
  }

  /** `test_first_page_contain_correct_records_amount` and
      `test_second_page_contain_correct_record_amount`: thirteen posts by one
      author in one country give pages of twelve and one on the main feed, the
      author's profile and the country's page. */
  method ThirteenPosts() returns (index: seq<nat>, profile: seq<nat>, country: seq<nat>)
    ensures index == profile == country == [12, 1]
  {
    var s := NewStore();
    var i := 0;
    while i < 13
      invariant 0 <= i <= 13
      invariant s.Valid() && |s.posts| == i
      invariant s.users == {Author, Reader} && s.countries == [NewZealand()]
      invariant forall p :: p in s.posts ==> p.author == Author && p.country == Some(NewZealand().id)
    {
      var _ := s.PostCreate(Some(Author), CreateForm());
      i := i + 1;
    }
    index, profile, country := FeedPageSizes(s.Tables());
  }

  /** The sizes of the first two pages of the main feed, the author's profile
      and the country's page. */
  method FeedPageSizes(db: Db) returns (index: seq<nat>, profile: seq<nat>, country: seq<nat>)
    requires |db.posts| == 13 && db.countries == [NewZealand()] && Author in db.users
    requires forall p :: p in db.posts ==> p.author == Author && p.country == Some(NewZealand().id)
    ensures index == profile == country == [12, 1]
  {
    var i1, i2 := Index(db, Absent), Index(db, Number(2));
    assert |i1.items| == 12 && |i2.items| == 1 by {
      ThirteenOnIndex(db);
    }
    index := [|i1.items|, |i2.items|];
    var p1, p2 := Profile(db, Some(Author), Author, Absent), Profile(db, Some(Author), Author, Number(2));
    assert p1.Ok? && p2.Ok? && |p1.value.page.items| == 12 && |p2.value.page.items| == 1 by {
      ThirteenOnProfile(db);
    }
    profile := [|p1.value.page.items|, |p2.value.page.items|];
    var c1, c2 := CountryPosts(db, NewZealand().slug, Absent), CountryPosts(db, NewZealand().slug, Number(2));
    assert c1.Ok? && c2.Ok? && |c1.value.page.items| == 12 && |c2.value.page.items| == 1 by {
      ThirteenOnCountry(db);
    }
    country := [|c1.value.page.items|, |c2.value.page.items|];
  }

  /** Thirteen rows at twelve a page: twelve on the default page, one on page 2. */
  lemma ThirteenSplit(l: seq<Post>)
    requires |l| == 13
    ensures |GetPage(l, PostsPerPage, Absent).items| == 12
    ensures |GetPage(l, PostsPerPage, Number(2)).items| == 1
  {
    ThirteenRows(l, 2);
  }

  lemma ThirteenOnIndex(db: Db)
    requires |db.posts| == 13
    ensures |Index(db, Absent).items| == 12 && |Index(db, Number(2)).items| == 1
  {
    ListingOfAll(db.posts, AllPosts);
    ThirteenSplit(Listing(db.posts, AllPosts));
  }

  lemma ThirteenOnProfile(db: Db)
    requires |db.posts| == 13 && Author in db.users
    requires forall p :: p in db.posts ==> p.author == Author
    ensures var p1, p2 := Profile(db, Some(Author), Author, Absent), Profile(db, Some(Author), Author, Number(2));
            p1.Ok? && p2.Ok? && |p1.value.page.items| == 12 && |p2.value.page.items| == 1
  {
    ListingOfAll(db.posts, ByAuthor(Author));
    ThirteenSplit(Listing(db.posts, ByAuthor(Author)));
  }

  lemma ThirteenOnCountry(db: Db)
    requires |db.posts| == 13 && db.countries == [NewZealand()]
    requires forall p :: p in db.posts ==> p.country == Some(NewZealand().id)
    ensures var c1, c2 := CountryPosts(db, NewZealand().slug, Absent), CountryPosts(db, NewZealand().slug, Number(2));
            c1.Ok? && c2.Ok? && |c1.value.page.items| == 12 && |c2.value.page.items| == 1
  {
    ListingOfAll(db.posts, ByCountry(NewZealand().id));
    ThirteenSplit(Listing(db.posts, ByCountry(NewZealand().id)));
    assert db.countries[0] == NewZealand();
    assert CountryBySlug(db.countries, NewZealand().slug) == Some(NewZealand());
  }

  /** `test_check_country_page_with_correct_country_posts`: a country without
      posts has an empty page (count 0) and no error. */
  method EmptyCountry() returns (v: View<CountryContext>)
    ensures v.Ok? && v.value.page.count == 0 && v.value.page.items == []
  {
    var other := Country(6, "UnnamedCountry", "UnnamedCountrySlug", Some("We mustn't see this country on a page"));
    var s := new Store({Author, Reader}, [NewZealand(), other]);
    var _ := s.PostCreate(Some(Author), CreateForm());
    EmptyCountryPage(s.Tables(), other, Absent);
    v := CountryPosts(s.Tables(), other.slug, Absent);
  }
}
