# WriteHub post listing and creation, modelled in Dafny

WriteHub is a blogging backend. This project models the two post
endpoints and the service behind them:

- **Creating a post.** The handler answers 400 `"Unauthorized!"` when the
  request has no signed-in user, and then never reaches the service.
  Otherwise the service writes the client's body with `authorId`
  overwritten by the acting user's id. A failed insert answers 400
  `"Post Creation Failed"`; a stored row answers 201.
- **Listing posts.** The handler turns the query string into
  `{ search, tags }`. `search` is kept only when it is a single string.
  `tags` is `[]` when absent or empty, and otherwise the value split on
  `","`. A repeated `tags` key arrives as an array of strings. An array
  has no `.split`, so the handler's `catch` answers 400
  `"Failed to fetch posts"`. The service pushes one clause per active
  filter into `andConditions`:
  - a search clause: title or content contains the text ignoring case,
    or the text is exactly one of the tags;
  - a `hasEvery` clause over the tags;
  - an `isFeatured` clause.
  The database returns the posts that satisfy all of these clauses.

Layout, one module per file:

- `wrappers.dfy` (`Wrappers`): `Option` for `undefined` and `Result` for
  thrown errors.
- `text.dfy` (`Text`): ASCII lower-casing and substring search. Also
  JavaScript's `split`/`join` on a one-character separator, proved to be
  inverse to each other.
- `sequences.dfy` (`Sequences`): order-preserving `Filter` and the
  subsequence relation. `Filter` stands in for the database query.
- `json.dfy` (`Json`): JSON values and records (request bodies, rows).
- `post_service.dfy` (`PostService`): the created row, the where-clause
  language and what it means, `BuildConditions` and `GetAllPosts`. Also a
  reference definition of the listing (`Wanted`, `Select`) that states each
  filter directly, without clauses.
- `post_controller.dfy` (`PostController`): the two handlers.

`PostService.BuildConditions` is imperative, like the code it models: it
appends to `andConditions` one clause at a time. Its postcondition says
two things. The list has one clause per active filter. A post satisfies
every clause exactly when `Wanted` holds of it. `PostService.GetAllPosts`
is proved to return `Select(posts, params)`, and the remaining lemmas are
about `Select`.

## Model

| member | source | states |
|---|---|---|
| `PostService.CreatePost` | src/modules/post/post.service.ts:9-14 | the row written has `authorId` equal to the acting user's id; every other body field is there unchanged; the row has exactly the body's keys plus `authorId` |
| `PostService.ForgedAuthorIgnored` | src/modules/post/post.service.ts:10-13 | the written row is the same whatever `authorId` the body carried, and the same as if the body carried none |
| `PostService.StringMatches` | src/modules/post/post.service.ts:33-42 | a `contains` filter matches only where the needle occurs ignoring case; in insensitive mode, exactly where it does |
| `PostService.Matches` | src/modules/post/post.service.ts:67-71 | the meaning of one clause of the `where`: an empty `OR` matches nothing, an empty `hasEvery` matches every post, a title or content match is an occurrence ignoring case |
| `PostService.FindMany` | src/modules/post/post.service.ts:67-71 | `findMany` with `AND: conditions` returns exactly the stored posts that satisfy every condition |
| `PostService.SearchClause` | src/modules/post/post.service.ts:30-50 | a post satisfies the search clause iff its lower-cased title or content contains the lower-cased search, or the search is exactly one of its tags |
| `PostService.SearchTagIsCaseSensitive` | src/modules/post/post.service.ts:44-48 | tag membership in the search clause is exact: a post tagged only `News`, with empty title and content, matches `News` but not `news` |
| `PostService.EmptySearchIsNoConstraint` | src/modules/post/post.service.ts:29 | an empty search string would match every post, so skipping it changes nothing |
| `PostService.TagsClause` | src/modules/post/post.service.ts:54-58 | a post satisfies the `hasEvery` clause iff every requested tag is among its tags |
| `PostService.PartialTagsExcluded` | src/modules/post/post.service.ts:53-58 | a post lacking any one requested tag is excluded |
| `PostService.FeaturedClause` | src/modules/post/post.service.ts:62-64 | a post satisfies the featured clause iff its `isFeatured` equals the requested boolean |
| `PostService.ActiveFilters` | src/modules/post/post.service.ts:29-65 | there are at most three active filters, and none exactly when search is falsy, tags are empty and `isFeatured` is not a boolean |
| `PostService.MatchesAllAppend` | src/modules/post/post.service.ts:27-71 | appending a clause to the conjunction adds exactly that clause's requirement |
| `PostService.BuildConditions` | src/modules/post/post.service.ts:27-65 | `andConditions` holds one clause per active filter, and a post satisfies all of them iff it is wanted by every active filter |
| `PostService.GetAllPosts` | src/modules/post/post.service.ts:18-73 | the listing equals the reference selection `Select(posts, params)` |
| `PostService.SelectExact` | src/modules/post/post.service.ts:67-71 | a post is listed iff it is stored and satisfies every active filter |
| `PostService.SelectIsSubsequence` | src/modules/post/post.service.ts:67-71 | the listing is a subsequence of the stored posts |
| `PostService.NoFiltersSelectAll` | src/modules/post/post.service.ts:27-71 | with no active filter every stored post is listed, in order |
| `PostService.MoreFiltersNarrow` | src/modules/post/post.service.ts:27-71 | activating extra filters gives a subsequence of the listing, never a longer one |
| `Sequences.Filter` | src/modules/post/post.service.ts:67-71 | the selection holds exactly the elements satisfying the predicate and is no longer than the input |
| `Text.SensitiveImpliesInsensitive` | src/modules/post/post.service.ts:33-42 | an exact occurrence of a text also satisfies the case-insensitive `contains` |
| `Text.EmptyOccursEverywhere` | src/modules/post/post.service.ts:33-42 | the empty string is contained, ignoring case, in every string |
| `Text.Split` | src/modules/post/post.controller.ts:29 | `split(",")` gives one piece more than there are commas, and no piece contains a comma |
| `Text.JoinSplit` | src/modules/post/post.controller.ts:29 | joining the pieces with `","` gives back the original string |
| `Text.SplitJoin` | src/modules/post/post.controller.ts:29 | splitting a join of comma-free pieces gives back the pieces |
| `Text.EmptyPieceKept` | src/modules/post/post.controller.ts:29 | two adjacent commas give an empty piece between the surrounding pieces |
| `PostController.CreatePost` | src/modules/post/post.controller.ts:5-22 | without a user: 400 `"Unauthorized!"` and no service call; with a user: the service gets the body and `user.id`, a stored row is answered 201 with that row, and a failed insert 400 `"Post Creation Failed"` with the failure; `"Unauthorized!"` is answered iff there is no user |
| `PostController.AuthorIsActingUser` | src/modules/post/post.controller.ts:14 | the row sent to the database has `authorId` equal to the signed-in user's id, and every other body field unchanged |
| `PostController.SearchString` | src/modules/post/post.controller.ts:26-27 | `search` is kept iff it is a single string, and then unchanged; a missing key or an array becomes `undefined` |
| `PostController.TagsTruthy` | src/modules/post/post.controller.ts:29 | the `tags` value is truthy only when present; every array is truthy; a string is truthy iff it is not empty |
| `PostController.ParseTags` | src/modules/post/post.controller.ts:29 | a missing or empty `tags` gives `[]`; a non-empty string gives comma-free pieces that join back to it, one more than its commas; an array throws |
| `PostController.ListArgs` | src/modules/post/post.controller.ts:31-34 | the service receives the normalised `search` and `tags`, and `isFeatured` is always undefined, so the featured clause is never active from this route |
| `PostController.GetAllPosts` | src/modules/post/post.controller.ts:24-42 | answers 200 with `Select` of the stored posts under the normalised arguments, or 400 `"Failed to fetch posts"` when normalising threw |
| `PostController.UnfilteredQueryListsAll` | src/modules/post/post.controller.ts:26-34 | with no string `search` and no truthy `tags`, the route lists every stored post, in order |
| `PostController.EmptyTagPiecesKept` | src/modules/post/post.controller.ts:29 | `?tags=a,,b` asks for the three tags `a`, `""` and `b` |

## Left out

- The database. `prisma.post.create` is the `store` parameter of
  `PostController.CreatePost`; what it adds to a row (id, timestamps,
  defaults) and why it may fail are not modelled. `findMany` is
  `PostService.FindMany` over a sequence of stored posts.
- Result order. Without `orderBy` the database promises no order; the
  model returns posts in stored order.
- `PostService.FindMany`: the model treats `contains` as plain substring
  search. It does not model how the database treats `%` and `_` inside the
  search text.
- Case folding is ASCII only (`A`-`Z` to `a`-`z`). The database's
  case-insensitive mode also folds non-ASCII letters.
- The `Post` datatype holds only the fields the listing reads, plus `id`
  and `authorId`. Status and timestamps are not part of this model.
- Request bodies are JSON objects (`Json.Record`); a missing body is the
  empty object. JSON numbers are integers here.
- Query values are a string or an array of strings, as the framework's
  default query parser produces. Nested objects are not modelled.
- A failing `findMany` is not modelled. In the source it is caught and
  answered 400 `"Failed to fetch posts"`; the model's `FindMany` always
  succeeds, so the listing answers 400 only when `.split` is called on an
  array. A failed insert is modelled through `store`.
- Sending the response, `async`/`await` and the HTTP framework are not
  modelled.
- Session handling and email (src/lib/auth.ts), the admin seeding script
  (src/scripts/seedAdmin.ts), the router setup (src/app.ts) and the
  comment module (src/modules/comment/) are not part of this model. They
  are configuration, I/O, or delegation to a comment service whose source
  is not shown.
