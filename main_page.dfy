/** The state of the `MainPage` component and its event handlers. Each
    handler runs to completion on the current state; the `"posts"` entry of
    local storage is the field `stored`, holding the parsed list. */
module MainPage {
  import opened Wrappers
  import opened ArrayOps
  import opened Posts
  import opened Pagination

  class PostBoard {
    var posts: seq<Post>
    var loading: bool
    var isEditing: bool
    var currentPost: Option<Post>
    var searchQuery: string
    var currentPage: int
    /** The list stored under `"posts"`; `None` when the key is absent. */
    var stored: Option<seq<Post>>

    /** An active edit session always has a target post. */
    ghost predicate Valid()
      reads this
    {
      isEditing ==> currentPost.Some?
    }

    /** The stored snapshot is the list on screen. */
    ghost predicate Synced()
      reads this
    {
      stored == Some(posts)
    }

    /** `filteredPosts`. */
    function FilteredPosts(): (r: seq<Post>)
      reads this
      ensures |r| <= |posts|
      ensures forall i :: 0 <= i < |r| ==> r[i] in posts && TitleContains(r[i], searchQuery)
    {
      FilterByTitle(posts, searchQuery)
    }

    /** `currentPosts`: the page handed to the post list. */
    function CurrentPosts(): (r: seq<Post>)
      reads this
      ensures |r| <= PostsPerPage
      ensures forall i :: 0 <= i < |r| ==> r[i] in FilteredPosts()
    {
      PageOf(FilteredPosts(), currentPage)
    }

    /** The labels of the page buttons. */
    function Buttons(): (labels: seq<int>)
      reads this
      ensures |labels| == PageCount(|FilteredPosts()|)
      ensures forall i :: 0 <= i < |labels| ==> PageOf(FilteredPosts(), labels[i]) != []
    {
      ButtonsShowPosts(FilteredPosts());
      PageButtons(|FilteredPosts()|)
    }

    /** The first render: the initial `useState` values, with `storage` the
        entry local storage already holds. */
    constructor (storage: Option<seq<Post>>)
      ensures Valid()
      ensures posts == [] && loading && !isEditing && currentPost == None
      ensures searchQuery == "" && currentPage == 1 && stored == storage
    {
      posts := [];
      loading := true;
      isEditing := false;
      currentPost := None;
      searchQuery := "";
      currentPage := 1;
      stored := storage;
    }

    /** `savePostsToLocalStorage`: overwrite the stored entry, even with `[]`. */
    method SavePostsToLocalStorage(list: seq<Post>)
      modifies this`stored
      ensures stored == Some(list)
    {
      stored := Some(list);
    }

    /** `addPost`: replace the edited post by id and close the session, or
        prepend a new post; then store the result. */
    method AddPost(post: Post)
      requires Valid()
      requires !loading
      modifies this`posts, this`isEditing, this`currentPost, this`stored
      ensures Valid() && Synced()
      ensures old(isEditing && currentPost.Some?) ==>
        && posts == ReplaceById(old(posts), old(currentPost).value.id, post)
        && !isEditing && currentPost == None
      ensures !old(isEditing && currentPost.Some?) ==>
        && posts == [post] + old(posts)
        && isEditing == old(isEditing) && currentPost == old(currentPost)
    {
      var updatedPosts;
      if isEditing && currentPost.Some? {
        updatedPosts := ReplaceById(posts, currentPost.value.id, post);
        isEditing := false;
        currentPost := None;
      } else {
        updatedPosts := [post] + posts;
      }
      posts := updatedPosts;
      SavePostsToLocalStorage(updatedPosts);
    }

    /** `editPost`: open an edit session on `post`. */
    method EditPost(post: Post)
      requires !loading
      modifies this`isEditing, this`currentPost
      ensures Valid()
      ensures isEditing && currentPost == Some(post)
    {
      isEditing := true;
      currentPost := Some(post);
    }

    /** `handleEditing`: close the edit session, keeping its target. */
    method HandleEditing()
      requires !loading
      modifies this`isEditing
      ensures Valid()
      ensures !isEditing
    {
      isEditing := false;
    }

    /** `deletePost`: drop every post with this id and store the result. */
    method DeletePost(postId: int)
      requires Valid()
      requires !loading
      modifies this`posts, this`stored
      ensures Valid() && Synced()
      ensures posts == WithoutId(old(posts), postId)
    {
      var filteredPosts := WithoutId(posts, postId);
      posts := filteredPosts;
      SavePostsToLocalStorage(filteredPosts);
    }

    /** `paginate`. */
    method Paginate(pageNumber: int)
      requires !loading
      modifies this`currentPage
      ensures currentPage == pageNumber
    {
      currentPage := pageNumber;
    }

    /** `setSearchQuery` as passed to the search box; the page is not reset. */
    method SetSearchQuery(query: string)
      requires !loading
      modifies this`searchQuery
      ensures searchQuery == query
    {
      searchQuery := query;
    }

    /** The mount effect: take the stored list when the key is present
        (an empty list included), else the fetched list (`getTodos`). */
    method Initialize(fetched: seq<Post>)
      modifies this`posts, this`loading
      ensures !loading
      ensures old(stored).Some? ==> posts == old(stored).value
      ensures old(stored).None? ==> posts == fetched
    {
      if stored.Some? {
        posts := stored.value;
        loading := false;
      } else {
        posts := fetched;
        loading := false;
      }
    }

    /** The effect that runs when `posts` changes: store a non-empty list. */
    method PersistOnChange()
      modifies this`stored
      ensures |posts| > 0 ==> Synced()
      ensures |posts| == 0 ==> stored == old(stored)
    {
      if |posts| > 0 {
        SavePostsToLocalStorage(posts);
      }
    }
  }

  /** A reload after the list was stored shows the same list, whatever the
      remote service would return. */
  method Reload(board: PostBoard, fetched: seq<Post>) returns (reloaded: PostBoard)
    requires board.Synced()
    ensures fresh(reloaded) && reloaded.Valid()
    ensures reloaded.posts == board.posts && !reloaded.loading && reloaded.Synced()
  {
    reloaded := new PostBoard(board.stored);
    reloaded.Initialize(fetched);
  }

  /** Cold start with nothing stored: the fetched list is shown and, once the
      change effect has run, stored when non-empty. */
  method ColdStart(fetched: seq<Post>) returns (board: PostBoard)
    ensures fresh(board) && board.Valid() && !board.loading
    ensures board.posts == fetched
    ensures board.stored == if |fetched| > 0 then Some(fetched) else None
  {
    board := new PostBoard(None);
    board.Initialize(fetched);
    board.PersistOnChange();
  }

  /** Editing `b` in `[a, b, c]` with `b2`, which keeps `b`'s id, gives `[a, b2, c]`. */
  method EditScenario(a: Post, b: Post, b2: Post, c: Post) returns (shown: seq<Post>)
    requires a.id != b.id && c.id != b.id && b2.id == b.id
    ensures shown == [a, b2, c]
  {
    var board := ColdStart([a, b, c]);
    board.EditPost(b);
    board.AddPost(b2);
    assert !board.isEditing;
    shown := board.posts;
  }

  /** Deleting the only post stores the empty list, and a reload keeps it
      empty instead of fetching again. */
  method DeleteLastScenario(a: Post, fetched: seq<Post>) returns (shown: seq<Post>)
    ensures shown == []
  {
    var board := ColdStart([a]);
    board.DeletePost(a.id);
    assert board.posts == [] by {
      DeletePresentRemoves([a], a.id);
    }
    var reloaded := Reload(board, fetched);
    shown := reloaded.posts;
  }

  /** Cancelling an edit keeps its target but turns the next save into a create. */
  method CancelThenAddScenario(list: seq<Post>, target: Post, post: Post) returns (shown: seq<Post>)
    ensures shown == [post] + list
  {
    var board := ColdStart(list);
    board.EditPost(target);
    board.HandleEditing();
    assert board.currentPost == Some(target);
    board.AddPost(post);
    shown := board.posts;
  }
}
