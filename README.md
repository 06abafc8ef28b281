# Travel blog posts app, modelled in Dafny

The posts app of a Django travel blog. Users write posts about countries. They
comment on posts, like them, and follow other authors. Any visitor can read
four paged feeds:

- the main feed of every post;
- a follow feed of the authors one follows;
- one feed per country;
- one profile per author.

Each feed is ordered newest first, at twelve posts per page.

The model has seven modules, one file each:

- `Wrappers` (`wrappers.dfy`): the optional value used for nullable references
  and for the requester of an anonymous request.
- `Seqs` (`seqs.dfy`): the table operations the ORM calls use. These are a
  filtered queryset, create-unless-present, filter-then-delete, ordering
  descending, and the row duplication an inner join produces.
- `Models` (`models.dfy`): the records of `posts/models.py` as values and the
  database state `Db`. `Valid` holds the constraints the database keeps:
  primary keys, the unique slug, the two `unique_together` pairs, every foreign
  key resolving, and the title length. The module also has the `on_delete`
  rules, `comments_count`, `likes`, `already_like` and the `__str__` formats.
- `Paging` (`paging.dfy`): `Paginator(..., 12).get_page(page)`, stated as
  Django documents the rule for which page is served. The page number is taken as already classified: absent, not an
  integer, or an integer.
- `Feeds` (`feeds.dfy`): the read-only views `index`, `follow_index`,
  `country_posts`, `profile` and `post_detail`, as pure functions of a
  database state.
- `Handlers` (`handlers.dfy`): the views that write. They are methods of a
  mutable `Store`, whose tables they update in place. What each one does to
  its table is also stated as a pure function (`AfterFollow`, ...), and the
  lemmas about the toggles are proved on those functions.
- `Scenarios` (`scenarios.dfy`): the app's own test cases replayed on the
  store.

The requester of a request is an explicit `Option<UserId>`, None when
anonymous. A username is resolved to a user id before a view is entered.
Timestamps are readings of a logical clock. Primary keys come from counters.

Three points where the model follows the code more closely than a summary of the app would suggest:

- `get_page` serves the last page for every integer outside 1..num_pages. That
  includes numbers below 1 (Django raises `EmptyPage` for those as well).
- The posts are ordered by `-pub_date` only. The model promises nothing about
  the order of posts with the same date.
- `post_like` and `post_dislike` build `HttpResponseRedirect(referer,
  reverse(...))`. The second argument of that call becomes the response body,
  not a fallback location. So the model's reply is just "back to the
  referer".

## Model

| member | source | states |
|---|---|---|
| Models.FindPost | posts/views.py:89 | `get_object_or_404(Post, pk=...)`: finds a stored post with that key, and finds nothing exactly when no stored post has it |
| Models.PostIndex | posts/views.py:121 | the position of the post with that key, and none exactly when the key is absent |
| Models.CountryBySlug | posts/views.py:44 | finds a stored country with that slug, and finds nothing exactly when no country has it |
| Models.CountryBySlugUnique | posts/models.py:11 | because slugs are unique, a lookup by slug finds the only country that has it |
| Models.CommentsCount | posts/models.py:48-49 | `comments_count()` is at most the number of comments, and zero exactly when no comment is on the post |
| Models.CommentsCountAppend | posts/models.py:48-49 | a new comment raises its own post's count by one and leaves every other post's count alone |
| Models.PostLikes | posts/models.py:51-52 | `likes()` holds exactly the like rows of the post, with no duplicates when the table has none |
| Models.AlreadyLike | posts/models.py:54-56 | `already_like()` holds exactly when the requester is authenticated and has a like row for the post |
| Models.Truncate | posts/models.py:62 | Python's `text[:n]`: a prefix of the text, of length min(len, n) |
| Models.DecimalString | posts/models.py:62 | the decimal rendering of the key is non-empty, all digits, and has no leading zero |
| Models.DecimalRoundTrip | posts/models.py:62 | the decimal rendering of a key reads back as that key |
| Models.CountryStr | posts/models.py:17-18 | `str(country)` is its title |
| Models.PostStr | posts/models.py:61-62 | `str(post)` is the key's digits (which read back as the key), `" \| "`, the author's name, `" \| "`, then the first 15 characters of the text |
| Models.SeparatedParts | posts/models.py:61-62 | where the three fields of the `" \| "`-separated rendering sit |
| Models.CommentStr | posts/models.py:82-83 | `str(comment)` is the first 15 characters of its text |
| Models.FollowStr | posts/models.py:101-102 | `str(follow)` is `"Follower: "`, the follower's name, `", Following: "`, then the author's name |
| Models.Valid | posts/models.py:104-121 | under the schema's constraints each follow pair and each like pair is stored at most once (`unique_together`) |
| Models.PostKeysFilter | posts/models.py:21 | deleting some posts keeps post keys unique |
| Models.CommentKeysFilter | posts/models.py:65 | deleting some comments keeps comment keys unique |
| Models.DeleteCountry | posts/models.py:35-41 | deleting a country (`SET_NULL`) removes it, nulls the country of its posts only, keeps every other post field, deletes no post, and changes no other table |
| Models.DeleteCountryKeys | posts/models.py:11 | deleting a country keeps every key unique |
| Models.DeleteCountryReferences | posts/models.py:35-41 | after deleting a country, every foreign key still resolves |
| Models.DeleteCountryValid | posts/models.py:35-41 | deleting a country keeps every database constraint |
| Models.DeletePost | posts/models.py:66-70 | deleting a post cascades to its comments and likes and to nothing else; the comment and like tables shrink by exactly that post's counts |
| Models.DeletePostKeys | posts/models.py:114-121 | the cascade keeps every key and unique pair unique |
| Models.DeletePostReferences | posts/models.py:66-70 | after the cascade, no comment or like points at the deleted post |
| Models.DeletePostValid | posts/models.py:114-118 | deleting a post keeps every database constraint |
| Models.DeleteUser | posts/models.py:30-34 | deleting a user cascades to their posts (and those posts' comments and likes), their comments, their likes, and every follow row they are either end of; countries are untouched |
| Models.DeleteUserKeys | posts/models.py:104-105 | the user cascade keeps every key and unique pair unique |
| Models.DeleteUserReferences | posts/models.py:90-99 | after the user cascade, no row points at the deleted user or at a deleted post |
| Models.DeleteUserValid | posts/models.py:71-75 | deleting a user keeps every database constraint |
| Paging.PageStartClosedForm | posts/views.py:18-20 | the first row of page `number` is row `(number - 1) * per_page` |
| Paging.NumPages | posts/views.py:18 | `num_pages` is at least 1 and exactly 1 for no rows (`allow_empty_first_page`), the pages hold every row, and the last page is non-empty unless there are no rows |
| Paging.PageStartMonotone | posts/views.py:18 | an earlier page ends no later than a later page starts |
| Paging.PageNumber | posts/views.py:19-20 | page 1 for a missing or non-integer number; the page asked for when it exists; the last page for any integer outside 1..num_pages |
| Paging.PageItems | posts/views.py:20 | a page is a contiguous run of the list starting at (number-1)*12; it is full unless it is the last, which ends with the list; it is non-empty when the list is |
| Paging.GetPage | posts/views.py:18-20 | the page object has the list's count, `num_pages`, the chosen number, and that page's rows |
| Paging.FirstPageByDefault | posts/views.py:19-20 | without a usable page number, the first 12 rows are served |
| Paging.OutOfRangeGivesLastPage | posts/views.py:20 | any integer outside 1..num_pages serves exactly the last page, whose rows are the tail after the full pages |
| Paging.PageCountsAtTwelve | posts/views.py:18 | at 12 per page, `num_pages` is ceil(count/12) (1 for none), and the last page holds count mod 12 rows (12 when that is 0) |
| Paging.PagesFromSuffix | posts/views.py:20 | the pages from number k onward, read in order, are the list from row (k-1)*12 onward |
| Paging.PagesPartition | posts/views.py:18-20 | read in order, the pages give every row exactly once |
| Paging.ThirteenRows | posts/tests/test_paginator.py:40-65 | 13 rows give pages of 12 and 1, and any page number beyond 2 serves page 2 |
| Feeds.NewestFirst | posts/models.py:58-59 | `ordering = ('-pub_date',)`: the same rows with the same multiplicities, dates non-increasing |
| Feeds.NewestHeadsList | posts/models.py:58-59 | a post dated after every other post comes first |
| Feeds.Listing | posts/views.py:13-16 | a feed's list holds exactly the selected posts, each as often as stored, newest first |
| Feeds.Index | posts/views.py:12-27 | the main feed is the page `get_page` picks from all posts newest first: it counts every post, shows only stored posts, and shows them newest first |
| Feeds.IndexListsEveryPost | posts/views.py:12-20 | the pages of one newest-first list of all posts, read in order, give every stored post exactly once (one tie order for all pages; see "## Left out") |
| Feeds.FollowJoin | posts/views.py:32 | the join `author__following__user=r` yields exactly the posts whose author r follows |
| Feeds.FollowJoinIsFilter | posts/models.py:104-105 | because follow pairs are unique, the join repeats no post: it equals the plain filter "author followed by r" |
| Feeds.OtherFollowersIgnored | posts/views.py:32 | a follow row of anyone but r, such as the reverse edge (a, r), adds nothing to r's feed |
| Feeds.FollowIndex | posts/views.py:30-40 | anonymous requesters are sent to log in; otherwise the page `get_page` picks from the join of posts with the requester's follow rows, newest first, so every post shown is by an author the requester follows |
| Feeds.FollowFeedContents | posts/views.py:32 | with unique posts and follow rows, the follow feed lists each post of a followed author exactly once, and nothing else |
| Feeds.MultisetNoDup | posts/views.py:32 | reordering a list that has no duplicates leaves it without duplicates |
| Feeds.CountryPosts | posts/views.py:43-56 | 404 exactly when no country has the slug; otherwise that country and the page `get_page` picks from its posts newest first, so only its posts appear, newest first |
| Feeds.EmptyCountryPage | posts/tests/test_views.py:114-127 | a country without posts gives an empty first page with count 0, not an error |
| Feeds.FollowersCount | posts/views.py:71 | `followers_count` is at most the number of follow rows and, with unique follow rows, the number of distinct followers |
| Feeds.FollowingCount | posts/views.py:72 | `following_count` is at most the number of follow rows and, with unique follow rows, the number of distinct authors followed |
| Feeds.Profile | posts/views.py:59-76 | 404 exactly when the user does not exist; otherwise the page `get_page` picks from that user's posts newest first, `following` exactly when an authenticated requester has a follow row to the user, and the two follow counts |
| Feeds.ProfileFigures | posts/views.py:67-80 | in a valid database the profile counts distinct followers and followees; `following` holds exactly when an authenticated requester has a follow row to the user |
| Feeds.NewestOpensListing | posts/models.py:58-59 | the newest selected post heads its feed's list |
| Feeds.DefaultPageOpensWith | posts/views.py:19-20 | the default page of a list starts with the list's first post |
| Feeds.NewPostOpensIndex | posts/views.py:12-20 | a post dated after all others is the first post on the main feed's first page |
| Feeds.NewPostOpensProfile | posts/views.py:59-65 | ... and on its author's profile, whoever looks at it |
| Feeds.NewPostOpensCountry | posts/views.py:43-48 | ... and on its country's page |
| Feeds.PostComments | posts/views.py:90 | the post's comments are exactly those on the post, `comments_count()` of them, newest first (models.py:85-86) |
| Feeds.PostDetail | posts/views.py:88-102 | 404 exactly when the key is unknown; otherwise the post with that key and exactly its comments, as many as `comments_count`, newest first |
| Handlers.AfterFollow | posts/views.py:158-160 | following oneself adds nothing; otherwise the pair is present afterwards; no other row changes; unique rows stay unique |
| Handlers.AfterUnfollow | posts/views.py:168 | the pair is absent afterwards; no other row changes |
| Handlers.AfterLike | posts/views.py:177-179 | the pair is present afterwards, with no self-like guard; no other row changes; unique rows stay unique |
| Handlers.AfterDislike | posts/views.py:190 | the pair is absent afterwards; no other row changes |
| Handlers.FollowIdempotent | posts/views.py:158-160 | following twice leaves the same table as following once |
| Handlers.FollowTwiceCountsOnce | posts/tests/test_views.py:169-185 | two follow requests raise the follower and following counts by one for a new pair, and by nothing for an existing pair or a self-follow |
| Handlers.UnfollowRemovesOne | posts/tests/test_views.py:202-215 | unfollowing an existing pair removes exactly one row, and exactly that follower of the author |
| Handlers.UnfollowUndoesFollow | posts/views.py:165-170 | unfollowing right after a first follow restores the table |
| Handlers.FollowTouchesOnlyOwnFeed | posts/tests/test_views.py:217-231 | following adds the author's posts to the follower's feed only; in particular nothing is added to the author's feed |
| Handlers.LikeDislikeLike | posts/views.py:173-195 | like, dislike, like leaves exactly one like row for the pair, the same rows as a single like |
| Handlers.DislikeUndoesLike | posts/views.py:187-195 | disliking right after a first like restores the table; `already_like` is true after a like and false after a dislike |
| Handlers.PostFormValid | posts/views.py:109 | `PostForm.is_valid()` fails for an unbound form, blank text or no country (the field is `blank=False`, posts/models.py:35-41), and passes only with a stored country chosen |
| Handlers.CommentFormValid | posts/views.py:146 | `CommentForm.is_valid()` fails for an unbound form or blank text (posts/models.py:76-78) |
| Handlers.NewImage | posts/models.py:42-46 | keeping leaves the current image, clearing removes it, an upload replaces it |
| Handlers.Edited | posts/views.py:126-130 | saving the edit form changes text, country and image, and never the key, author or `pub_date` (models.py:26-29) |
| Handlers.FollowsValid | posts/models.py:104-105 | a follow table without duplicates whose users exist keeps the database valid |
| Handlers.LikesValid | posts/models.py:120-121 | a like table without duplicates whose users and posts exist keeps the database valid |
| Handlers.AppendPostValid | posts/views.py:110-112 | storing a post with a fresh key, an existing author and an existing country keeps the database valid |
| Handlers.ReplacePostValid | posts/views.py:129-130 | rewriting a post with the same key and author keeps the database valid |
| Handlers.AppendCommentValid | posts/views.py:147-150 | storing a comment with a fresh key on an existing post keeps the database valid |
| Handlers.Store.constructor | posts/models.py:9-18 | a store with the given users and countries and no other rows is valid |
| Handlers.Store.ProfileFollow | posts/views.py:154-162 | login required; 404 for an unknown author; otherwise the follow table becomes `AfterFollow` and the answer is the author's profile; the store stays valid |
| Handlers.Store.ProfileUnfollow | posts/views.py:165-170 | login required; 404 for an unknown author; otherwise the follow table becomes `AfterUnfollow` |
| Handlers.Store.PostLike | posts/views.py:173-184 | login required; 404 for an unknown post; otherwise the like table becomes `AfterLike` and the answer redirects back |
| Handlers.Store.PostDislike | posts/views.py:187-195 | login required; 404 for an unknown post; otherwise the like table becomes `AfterDislike` |
| Handlers.Store.PostCreate | posts/views.py:105-116 | login required; an invalid form is shown again with nothing stored; a valid one appends a post by the requester, stamped after every existing post, and redirects to their profile; the key counter and clock advance only when a post is stored |
| Handlers.Store.PostEdit | posts/views.py:119-138 | login required, then 404, then a non-author is sent to the main page unchanged; an invalid form is shown again; a valid one rewrites only that post via `Edited`; keys never change |
| Handlers.Store.AddComment | posts/views.py:141-151 | login required; 404 for an unknown post; a valid form appends a comment by the requester on that post; valid or not, the answer is the post's page; the key counter and clock advance only when a comment is stored |
| Scenarios.NewStore | posts/tests/test_views.py:15-23 | a fresh valid store with two users and one country |
| Scenarios.FollowTwice | posts/tests/test_views.py:169-185 | following twice gives one follow row, (reader, author), and one follower |
| Scenarios.FollowRefused | posts/tests/test_views.py:187-200 | a guest is sent to log in and a self-follow is skipped; no row is stored |
| Scenarios.FollowThenUnfollow | posts/tests/test_views.py:202-215 | the follow row count goes from 1 to 0 |
| Scenarios.FollowFeed | posts/tests/test_views.py:217-223 | after the reader follows the author, the reader's feed is exactly the author's post, on one page of one |
| Scenarios.FollowedPostShows | posts/tests/test_views.py:217-223 | with one post and the edge reader to author, the reader's feed is that post alone |
| Scenarios.ReverseEdgeFeed | posts/tests/test_views.py:225-231 | after the author follows the reader, the reader's feed is an empty page with count 0 |
| Scenarios.ReverseEdgeHidesPost | posts/tests/test_views.py:225-231 | with one post by the author and the edge author to reader, the reader's feed is empty |
| Scenarios.CreatePost | posts/tests/test_forms.py:102-130 | a creation redirects to the profile and stores one post with the form's text, country, image and the author |
| Scenarios.GuestCreatesNothing | posts/tests/test_forms.py:132-146 | a guest's creation is sent to log in and stores nothing |
| Scenarios.EditPost | posts/tests/test_forms.py:148-215 | guest and non-author edits are turned away and leave the post table exactly as it was; the author's edit takes the new text, country and image and keeps key, author and date |
| Scenarios.CommentOnPost | posts/tests/test_views.py:129-167 | a guest's comment is refused; the user's comment is stored, and the post page shows it as its one comment |
| Scenarios.LikeTwice | posts/views.py:173-195 | like, dislike, like leaves one like row, and `already_like` holds |
| Scenarios.ListingOfAll | posts/views.py:45 | a selection every post passes lists every post |
| Scenarios.ThirteenPosts | posts/tests/test_paginator.py:23-65 | thirteen posts created one after another give pages of 12 and 1 on the main feed, the profile and the country page |
| Scenarios.FeedPageSizes | posts/tests/test_paginator.py:40-65 | with 13 posts by one author in one country, each of the three feeds has pages of 12 and 1 |
| Scenarios.ThirteenSplit | posts/tests/test_paginator.py:52-65 | 13 rows give 12 on the default page and 1 on page 2 |
| Scenarios.ThirteenOnIndex | posts/tests/test_paginator.py:40-65 | the main feed of 13 posts has pages of 12 and 1 |
| Scenarios.ThirteenOnProfile | posts/tests/test_paginator.py:40-65 | the profile of an author of 13 posts has pages of 12 and 1 |
| Scenarios.ThirteenOnCountry | posts/tests/test_paginator.py:40-65 | the page of a country with 13 posts has pages of 12 and 1 |
| Scenarios.EmptyCountry | posts/tests/test_views.py:114-127 | a country nobody wrote about gives an empty page with count 0 |

## Left out

- HTTP rendering, templates, URL routing and login URLs are not modelled. Views answer with a `View` or `Reply` value.
- Where a redirect to the referer lands is not modelled, and neither is the misplaced second argument of `HttpResponseRedirect` in `post_like` and `post_dislike`: the model's reply is just "back".
- The query string is not parsed. `get_page` receives the page number already classified as absent, not an integer, or an integer.
- Form internals are opaque: the `accepted` flag stands for them, such as checking that an upload is an image. The model does check what `posts/models.py` demands of a form: text not blank, a country chosen that exists, and no other requirement. Django strips whitespace from submitted text; the model takes the cleaned text as given.
- Image files and their storage are not modelled; only the stored path is.
- Users and usernames belong to the authentication collaborator. Views take user ids; a username the collaborator does not know corresponds to an id outside `users`.
- The ambient current user that `already_like` reads is replaced by an explicit requester.
- Wall-clock time is replaced by a logical clock, and database keys by counters.
- Concurrency and transactions are not modelled. Each view runs alone and to completion.
- `posts/variables.py` is not part of this model. Its `posts_per_page` is taken to be 12, the figure the paginator tests use.
- `Country.Meta.ordering` (by title) is not modelled, because no modelled view lists countries.
- `profile`'s unpaged `posts` context entry is not modelled. It is the same list that `Listing` gives.
- The admin site and the client-side script are not modelled.
- Models.AlreadyLike: answers false for an anonymous requester. In the app,
  `get_current_user()` then returns an `AnonymousUser`, and
  `post_likes.filter(user=...)` raises instead of answering. The model does not
  represent that error; only outside a request, where there is no current user,
  does the app answer false.
- Feeds.NewestFirst: promises nothing about the order of posts with equal `pub_date`, because the code leaves that order to the database.
- Feeds.IndexListsEveryPost: reads every page from one newest-first list, so it assumes each request sees posts with equal `pub_date` in the same order. In the app each page is a separate ordered query with its own limit and offset, so a tie at a page boundary can show a post on two pages or on none. The claim then holds only when no two posts share a `pub_date`.
- Models.PostStr: takes the author's rendered username as a parameter, because usernames live outside the model.
- Handlers.Store.PostLike: promises only a redirect back, not its location, for the reason given above.
