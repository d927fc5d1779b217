/** The post service: the row written when a post is created, and the
    conjunctive where-predicate built from the optional listing filters,
    evaluated by an in-memory stand-in for the database's `findMany`. */
module PostService {
  import opened Wrappers
  import opened Text
  import opened Sequences
  import Json

  /** The fields of a stored post that the listing filter reads. */
  datatype Post = Post(
    id: string,
    title: string,
    content: string,
    tags: seq<string>,
    isFeatured: bool,
    authorId: string)

  // ---------------------------------------------------------------------
  // Creating a post

  const AuthorKey: string := "authorId"

  /** The row handed to the database when a post is created: the client's
      fields spread first, then `authorId` set to the acting user. */
  function CreatePost(data: Json.Record, userId: string): (row: Json.Record)
    ensures AuthorKey in row && row[AuthorKey] == Json.Str(userId)
    ensures forall k :: k in data && k != AuthorKey ==> k in row && row[k] == data[k]
    ensures row.Keys == data.Keys + {AuthorKey}
  {
    data[AuthorKey := Json.Str(userId)]
  }

  /** Whatever author the client claims, the row is the same as if it had
      claimed none. */
  lemma ForgedAuthorIgnored(data: Json.Record, userId: string, forged: Json.Value)
    ensures CreatePost(data[AuthorKey := forged], userId) == CreatePost(data, userId)
    ensures CreatePost(data, userId) == CreatePost(map k | k in data && k != AuthorKey :: data[k], userId)
  {
    var stripped := map k | k in data && k != AuthorKey :: data[k];
    assert CreatePost(data, userId).Keys == CreatePost(stripped, userId).Keys;
  }

  // ---------------------------------------------------------------------
  // The where-predicate and its meaning

  datatype Mode = Default | Insensitive

  /** A substring filter on a string field, optionally ignoring case. */
  datatype StringFilter = Contains(needle: string, mode: Mode)

  /** The part of the query language the listing uses. */
  datatype Clause =
    | Or(alternatives: seq<Clause>)
    | Title(title: StringFilter)
    | Content(content: StringFilter)
    | TagsHas(tag: string)
    | TagsHasEvery(tagList: seq<string>)
    | FeaturedIs(featured: bool)

  /** Whether a string field satisfies a substring filter. Any match, in
      either mode, is an occurrence ignoring case. */
  predicate StringMatches(f: StringFilter, value: string): (m: bool)
    ensures m ==> ContainsInsensitive(value, f.needle)
    ensures f.mode == Insensitive ==> (m <==> ContainsInsensitive(value, f.needle))
  {
    match f.mode
    case Default => SensitiveImpliesInsensitive(value, f.needle); IsSubstring(f.needle, value)
    case Insensitive => ContainsInsensitive(value, f.needle)
  }

  /** Whether a post satisfies one clause. An empty `OR` is never
      satisfied, an empty tag list is carried by every post, and a title or
      content match is always an occurrence ignoring case. */
  predicate Matches(post: Post, clause: Clause): (m: bool)
    ensures clause == Or([]) ==> !m
    ensures clause == TagsHasEvery([]) ==> m
    ensures clause.Title? && m ==> ContainsInsensitive(post.title, clause.title.needle)
    ensures clause.Content? && m ==> ContainsInsensitive(post.content, clause.content.needle)
  {
    match clause
    case Or(alternatives) =>
      exists i | 0 <= i < |alternatives| :: Matches(post, alternatives[i])
    case Title(f) => StringMatches(f, post.title)
    case Content(f) => StringMatches(f, post.content)
    case TagsHas(tag) => tag in post.tags
    case TagsHasEvery(tagList) => forall t | t in tagList :: t in post.tags
    case FeaturedIs(b) => post.isFeatured == b
  }

  /** The conjunction of a list of clauses: every clause holds; an empty
      list holds of every post. */
  predicate MatchesAll(post: Post, conditions: seq<Clause>) {
    forall i | 0 <= i < |conditions| :: Matches(post, conditions[i])
  }

  /** The database query: the stored posts satisfying the conjunction. */
  function FindMany(posts: seq<Post>, conditions: seq<Clause>): (found: seq<Post>)
    ensures forall p :: p in found <==> p in posts && MatchesAll(p, conditions)
  {
    Filter(posts, p => MatchesAll(p, conditions))
  }

  // ---------------------------------------------------------------------
  // The three clauses the listing can push

  /** The search clause: a post satisfies it exactly when its title or its
      content contains `search` ignoring case, or `search` is one of its
      tags exactly. */
  function SearchClause(search: string): (c: Clause)
    ensures forall post :: Matches(post, c) <==>
      || ContainsInsensitive(post.title, search)
      || ContainsInsensitive(post.content, search)
      || search in post.tags
  {
    var alts := [Title(Contains(search, Insensitive)),
                 Content(Contains(search, Insensitive)),
                 TagsHas(search)];
    assert forall post :: Matches(post, Or(alts)) <==>
      || ContainsInsensitive(post.title, search)
      || ContainsInsensitive(post.content, search)
      || search in post.tags
    by {
      forall post
        ensures Matches(post, Or(alts)) <==>
          || ContainsInsensitive(post.title, search)
          || ContainsInsensitive(post.content, search)
          || search in post.tags
      {
        assert Matches(post, alts[0]) <==> ContainsInsensitive(post.title, search);
        assert Matches(post, alts[1]) <==> ContainsInsensitive(post.content, search);
        assert Matches(post, alts[2]) <==> search in post.tags;
      }
    }
    Or(alts)
  }

  /** The tag clause: a post satisfies it exactly when it carries every
      requested tag. */
  function TagsClause(tags: seq<string>): (c: Clause)
    ensures forall post :: Matches(post, c) <==> forall t :: t in tags ==> t in post.tags
  {
    TagsHasEvery(tags)
  }

  /** The featured clause: a post satisfies it exactly when its flag equals
      the requested one. */
  function FeaturedClause(isFeatured: bool): (c: Clause)
    ensures forall post :: Matches(post, c) <==> post.isFeatured == isFeatured
  {
    FeaturedIs(isFeatured)
  }

  /** Tag membership in the search clause is exact: a tag differing only
      in case does not make a post match through the tag alternative. */
  lemma SearchTagIsCaseSensitive(post: Post)
    requires post.title == [] && post.content == [] && post.tags == ["News"]
    ensures !Matches(post, SearchClause("news"))
    ensures Matches(post, SearchClause("News"))
  {
    var s := "news";
    assert !IsSubstring(Lower(s), Lower(post.title)) by {
      forall i | 0 <= i <= 0 ensures !OccursAt(Lower(s), Lower(post.title), i) { }
    }
    assert !IsSubstring(Lower(s), Lower(post.content)) by {
      forall i | 0 <= i <= 0 ensures !OccursAt(Lower(s), Lower(post.content), i) { }
    }
  }

  /** An empty search string would match every post, so skipping it
      (the truthiness test on the search text) does not change the listing. */
  lemma EmptySearchIsNoConstraint(post: Post)
    ensures Matches(post, SearchClause(""))
  {
    EmptyOccursEverywhere(post.title);
  }

  /** A post carrying only some of the requested tags is excluded. */
  lemma PartialTagsExcluded(post: Post, tags: seq<string>, missing: string)
    requires missing in tags && missing !in post.tags
    ensures !Matches(post, TagsClause(tags))
  {
  }

  // ---------------------------------------------------------------------
  // Listing parameters and the intended selection

  /** `{ search, tags, isFeatured }`; `None` stands for `undefined`. */
  datatype FilterParams = FilterParams(
    search: Option<string>,
    tags: seq<string>,
    isFeatured: Option<bool>)

  /** The search text is truthy: present and not the empty string. */
  predicate SearchActive(params: FilterParams) {
    params.search.Some? && params.search.value != ""
  }

  predicate TagsActive(params: FilterParams) {
    |params.tags| > 0
  }

  /** The featured flag is a boolean rather than undefined. */
  predicate FeaturedActive(params: FilterParams) {
    params.isFeatured.Some?
  }

  function ActiveFilters(params: FilterParams): (n: nat)
    ensures n <= 3
    ensures n == 0 <==> !SearchActive(params) && !TagsActive(params) && !FeaturedActive(params)
  {
    (if SearchActive(params) then 1 else 0)
    + (if TagsActive(params) then 1 else 0)
    + (if FeaturedActive(params) then 1 else 0)
  }

  /** The selection the listing promises, stated without clauses: each
      active filter must hold and inactive ones impose nothing. */
  predicate Wanted(params: FilterParams, post: Post) {
    SearchWanted(params, post) && TagsWanted(params, post) && FeaturedWanted(params, post)
  }

  predicate SearchWanted(params: FilterParams, post: Post) {
    SearchActive(params) ==>
      var s := params.search.value;
      ContainsInsensitive(post.title, s) || ContainsInsensitive(post.content, s) || s in post.tags
  }

  predicate TagsWanted(params: FilterParams, post: Post) {
    forall t :: t in params.tags ==> t in post.tags
  }

  predicate FeaturedWanted(params: FilterParams, post: Post) {
    FeaturedActive(params) ==> post.isFeatured == params.isFeatured.value
  }

  /** The stored posts the listing should return, in stored order. */
  function Select(posts: seq<Post>, params: FilterParams): seq<Post> {
    Filter(posts, p => Wanted(params, p))
  }

  // ---------------------------------------------------------------------
  // getAllPosts

  /** Builds `andConditions` by pushing one clause per active filter. */
  method BuildConditions(params: FilterParams) returns (andConditions: seq<Clause>)
    ensures |andConditions| == ActiveFilters(params)
    ensures forall post :: MatchesAll(post, andConditions) <==> Wanted(params, post)
  {
    andConditions := [];
    if SearchActive(params) {
      MatchesAllAppend(andConditions, SearchClause(params.search.value));
      andConditions := andConditions + [SearchClause(params.search.value)];
    }
    assert forall post :: MatchesAll(post, andConditions) <==> SearchWanted(params, post);
    if TagsActive(params) {
      MatchesAllAppend(andConditions, TagsClause(params.tags));
      andConditions := andConditions + [TagsClause(params.tags)];
    }
    assert forall post :: MatchesAll(post, andConditions) <==>
      SearchWanted(params, post) && TagsWanted(params, post);
    if FeaturedActive(params) {
      MatchesAllAppend(andConditions, FeaturedClause(params.isFeatured.value));
      andConditions := andConditions + [FeaturedClause(params.isFeatured.value)];
    }
  }

  /** Appending a clause to the conjunction adds exactly that requirement. */
  lemma MatchesAllAppend(conditions: seq<Clause>, clause: Clause)
    ensures forall post :: MatchesAll(post, conditions + [clause]) <==>
      MatchesAll(post, conditions) && Matches(post, clause)
  {
    forall post ensures MatchesAll(post, conditions + [clause]) <==>
      MatchesAll(post, conditions) && Matches(post, clause)
    {
      var all := conditions + [clause];
      assert all[|conditions|] == clause;
      assert forall i :: 0 <= i < |conditions| ==> all[i] == conditions[i];
    }
  }

  /** Lists the stored posts that satisfy every active filter. */
  method GetAllPosts(posts: seq<Post>, params: FilterParams) returns (allPost: seq<Post>)
    ensures allPost == Select(posts, params)
  {
    var andConditions := BuildConditions(params);
    allPost := FindMany(posts, andConditions);
    FilterCongruent(posts, p => MatchesAll(p, andConditions), p => Wanted(params, p));
  }

  // ---------------------------------------------------------------------
  // Properties of the selection

  /** A post is listed exactly when it is stored and wanted. */
  lemma SelectExact(posts: seq<Post>, params: FilterParams, post: Post)
    ensures post in Select(posts, params) <==> post in posts && Wanted(params, post)
  {
  }

  /** The listing keeps the stored order and invents nothing. */
  lemma SelectIsSubsequence(posts: seq<Post>, params: FilterParams)
    ensures IsSubsequence(Select(posts, params), posts)
  {
    FilterIsSubsequence(posts, p => Wanted(params, p));
  }

  /** With no active filter every stored post is listed, in order. */
  lemma NoFiltersSelectAll(posts: seq<Post>, params: FilterParams)
    requires ActiveFilters(params) == 0
    ensures Select(posts, params) == posts
  {
    FilterKeepsAll(posts, p => Wanted(params, p));
  }

  /** `narrow` keeps every filter `wide` activates, and may add more. */
  predicate Refines(narrow: FilterParams, wide: FilterParams) {
    && (SearchActive(wide) ==> narrow.search == wide.search)
    && (TagsActive(wide) ==> narrow.tags == wide.tags)
    && (FeaturedActive(wide) ==> narrow.isFeatured == wide.isFeatured)
  }

  /** Activating more filters never enlarges the listing. */
  lemma MoreFiltersNarrow(posts: seq<Post>, narrow: FilterParams, wide: FilterParams)
    requires Refines(narrow, wide)
    ensures IsSubsequence(Select(posts, narrow), Select(posts, wide))
    ensures |Select(posts, narrow)| <= |Select(posts, wide)|
  {
    FilterNarrows(posts, p => Wanted(narrow, p), p => Wanted(wide, p));
    SubsequenceLength(Select(posts, narrow), Select(posts, wide));
  }
}
