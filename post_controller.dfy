/** The HTTP handlers for posts: the authentication guard in front of
    creation, and the normalisation of the listing's query string into the
    service's filter parameters. The database calls are parameters: the
    create call is the function `store`, the listing reads `posts`. */
module PostController {
  import opened Wrappers
  import opened Text
  import Json
  import PostService

  /** The signed-in user attached to the request by the session layer. */
  datatype User = User(id: string, name: string, email: string, role: string)

  /** A query-string value: one occurrence of the key gives a string,
      repeated occurrences give an array of strings. */
  datatype QueryValue = One(value: string) | Many(values: seq<string>)

  type Query = map<string, QueryValue>

  /** What a handler's `catch` receives. */
  datatype Failure =
    | SplitNotAFunction          // `.split` called on an array of strings
    | StoreFailure(details: string)

  datatype Body =
    | Posts(posts: seq<PostService.Post>)
    | Row(row: Json.Record)
    | Error(error: string, details: Option<Failure>)

  datatype Response = Response(status: int, body: Body)

  /** The arguments the handler passed to `PostService.createPost`. */
  datatype CreateCall = CreateCall(data: Json.Record, userId: string)

  /** The service call made, if any, and the response sent. */
  datatype CreateExchange = CreateExchange(call: Option<CreateCall>, response: Response)

  // ---------------------------------------------------------------------
  // createPost

  /** Rejects a request without a user before the service is reached;
      otherwise the service builds the row with the user's id as author and
      `store` (the database insert) either returns the stored row or fails. */
  function CreatePost(user: Option<User>, body: Json.Record,
                      store: Json.Record -> Result<Json.Record, string>): (r: CreateExchange)
    ensures user.None? ==> r.call == None && r.response == Response(400, Error("Unauthorized!", None))
    ensures user.Some? ==> r.call == Some(CreateCall(body, user.value.id))
    ensures user.Some? ==>
      r.response == match store(PostService.CreatePost(body, user.value.id))
        case Ok(row) => Response(201, Row(row))
        case Err(details) => Response(400, Error("Post Creation Failed", Some(StoreFailure(details))))
    ensures r.response.status == 201 || r.response.status == 400
    ensures r.response.body == Error("Unauthorized!", None) <==> user.None?
  {
    match user
    case None => CreateExchange(None, Response(400, Error("Unauthorized!", None)))
    case Some(u) =>
      var call := CreateCall(body, u.id);
      var response :=
        match store(PostService.CreatePost(call.data, call.userId))
        case Ok(row) => Response(201, Row(row))
        case Err(details) => Response(400, Error("Post Creation Failed", Some(StoreFailure(details))));
      CreateExchange(Some(call), response)
  }

  /** The row the database is asked to store carries the acting user as
      author, whatever author field the body carried, and every other field
      of the body unchanged. */
  lemma AuthorIsActingUser(u: User, body: Json.Record,
                           store: Json.Record -> Result<Json.Record, string>)
    ensures var call := CreatePost(Some(u), body, store).call;
      && call.Some?
      && var row := PostService.CreatePost(call.value.data, call.value.userId);
      && row[PostService.AuthorKey] == Json.Str(u.id)
      && forall k :: k in body && k != PostService.AuthorKey ==> k in row && row[k] == body[k]
  {
  }

  // ---------------------------------------------------------------------
  // getAllPosts: normalising the query string

  /** The search text: kept when the query value is a single string,
      otherwise undefined. */
  function SearchString(query: Query): (search: Option<string>)
    ensures search.Some? <==> "search" in query && query["search"].One?
    ensures search.Some? ==> search.value == query["search"].value
  {
    if "search" in query && query["search"].One? then Some(query["search"].value) else None
  }

  /** Truthiness of `req.query.tags`: absent and `""` are falsy, every other
      string and every array is truthy. */
  predicate TagsTruthy(query: Query): (t: bool)
    ensures t ==> "tags" in query
    ensures "tags" in query && query["tags"].Many? ==> t
    ensures "tags" in query && query["tags"].One? ==> (t <==> query["tags"].value != "")
  {
    "tags" in query && query["tags"] != One("")
  }

  /** The requested tags: none when the value is falsy, otherwise the value
      split on commas. The type assertion to string converts nothing at run
      time, so an array reaches the string method and throws. */
  function ParseTags(query: Query): (tags: Result<seq<string>, Failure>)
    ensures !TagsTruthy(query) ==> tags == Ok([])
    ensures tags.Err? <==> "tags" in query && query["tags"].Many?
    ensures tags.Err? ==> tags.error == SplitNotAFunction
    ensures TagsTruthy(query) && tags.Ok? ==>
      && Join(tags.value, ',') == query["tags"].value
      && |tags.value| == Occurrences(query["tags"].value, ',') + 1
      && forall k :: 0 <= k < |tags.value| ==> ',' !in tags.value[k]
  {
    if !TagsTruthy(query) then Ok([])
    else match query["tags"]
      case One(s) => JoinSplit(s, ','); Ok(Split(s, ','))
      case Many(_) => Err(SplitNotAFunction)
  }

  /** The argument object handed to `PostService.getAllPosts`: `search` and
      `tags` only, so `isFeatured` is always `undefined`. */
  function ListArgs(query: Query): (args: Result<PostService.FilterParams, Failure>)
    ensures args.Err? <==> ParseTags(query).Err?
    ensures args.Err? ==> args.error == SplitNotAFunction
    ensures args.Ok? ==>
      && args.value.search == SearchString(query)
      && Ok(args.value.tags) == ParseTags(query)
      && args.value.isFeatured == None
      && !PostService.FeaturedActive(args.value)
  {
    var searchString := SearchString(query);
    match ParseTags(query)
    case Ok(tags) => Ok(PostService.FilterParams(searchString, tags, None))
    case Err(e) => Err(e)
  }

  /** Answers 200 with the listing, or 400 when normalising the query threw. */
  method GetAllPosts(query: Query, posts: seq<PostService.Post>) returns (res: Response)
    ensures ListArgs(query).Err? ==>
      res == Response(400, Error("Failed to fetch posts", Some(SplitNotAFunction)))
    ensures ListArgs(query).Ok? ==>
      res == Response(200, Posts(PostService.Select(posts, ListArgs(query).value)))
  {
    match ListArgs(query)
    case Err(e) =>
      res := Response(400, Error("Failed to fetch posts", Some(e)));
    case Ok(args) =>
      var result := PostService.GetAllPosts(posts, args);
      res := Response(200, Posts(result));
  }

  // ---------------------------------------------------------------------
  // Properties of the listing route

  /** Without a string `search` and without a truthy `tags` the route lists
      every stored post, in order. */
  lemma UnfilteredQueryListsAll(query: Query, posts: seq<PostService.Post>)
    requires "search" !in query || query["search"] == One("") || query["search"].Many?
    requires !TagsTruthy(query)
    ensures ListArgs(query).Ok?
    ensures PostService.ActiveFilters(ListArgs(query).value) == 0
    ensures PostService.Select(posts, ListArgs(query).value) == posts
  {
    PostService.NoFiltersSelectAll(posts, ListArgs(query).value);
  }

  /** `?tags=a,,b` asks for three tags, the middle one empty. */
  lemma EmptyTagPiecesKept()
    ensures ParseTags(map["tags" := One("a,,b")]) == Ok(["a", "", "b"])
  {
    EmptyPieceKept("a", "b", ',');
    assert "a" + [',', ','] + "b" == "a,,b";
  }
}
