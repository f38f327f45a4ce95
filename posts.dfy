/** A blog post and the list operations the page applies to its posts:
    delete by id, replace by id, and the case-insensitive title search. */
module Posts {
  import opened ArrayOps
  import opened Text

  /** `IPost`: an id and the two text fields shown in the list. */
  datatype Post = Post(id: int, title: string, body: string)

  /** No two posts of `s` share an id. */
  ghost predicate UniqueIds(s: seq<Post>)
  {
    forall i, j :: 0 <= i < j < |s| ==> s[i].id != s[j].id
  }

  /** Some post of `s` has id `id`. */
  ghost predicate HasId(s: seq<Post>, id: int)
  {
    exists i :: 0 <= i < |s| && s[i].id == id
  }

  /** The test `post.id !== postId` of `deletePost`. */
  function OtherThan(id: int): (keep: Post -> bool)
    ensures forall p :: keep(p) <==> p.id != id
  {
    (p: Post) => p.id != id
  }

  /** `posts.filter((post) => post.id !== postId)`. */
  function WithoutId(posts: seq<Post>, id: int): (r: seq<Post>)
    ensures |r| <= |posts|
    ensures forall i :: 0 <= i < |r| ==> r[i] in posts && r[i].id != id
  {
    Filter(posts, OtherThan(id))
  }

  /** Deleting keeps exactly the posts with another id, in their original order. */
  lemma DeleteKeepsOthersInOrder(posts: seq<Post>, id: int)
    ensures SelectsAt(WithoutId(posts, id), posts, KeptIndices(posts, OtherThan(id)))
    ensures forall k :: 0 <= k < |posts| ==>
      (posts[k].id != id <==> k in KeptIndices(posts, OtherThan(id)))
    ensures forall p :: p in WithoutId(posts, id) <==> p in posts && p.id != id
  {
    FilterSelectsKept(posts, OtherThan(id));
    var r := WithoutId(posts, id);
    forall p | p in posts && p.id != id
      ensures p in r
    {
      var k :| 0 <= k < |posts| && posts[k] == p;
      assert OtherThan(id)(posts[k]);
    }
    forall p | p in r
      ensures p in posts && p.id != id
    {
      var k :| 0 <= k < |r| && r[k] == p;
      assert OtherThan(id)(r[k]);
    }
  }

  /** Deleting an id no post carries leaves the list unchanged. */
  lemma DeleteMissingIsNoOp(posts: seq<Post>, id: int)
    requires !HasId(posts, id)
    ensures WithoutId(posts, id) == posts
  {
    forall p | p in posts
      ensures OtherThan(id)(p)
    {
      var k :| 0 <= k < |posts| && posts[k] == p;
    }
    FilterKeepsAll(posts, OtherThan(id));
  }

  /** Deleting a present id shortens the list and removes the id. */
  lemma DeletePresentRemoves(posts: seq<Post>, id: int)
    requires HasId(posts, id)
    ensures |WithoutId(posts, id)| < |posts|
    ensures !HasId(WithoutId(posts, id), id)
  {
    DeleteKeepsOthersInOrder(posts, id);
    var r, idx := WithoutId(posts, id), KeptIndices(posts, OtherThan(id));
    var k :| 0 <= k < |posts| && posts[k].id == id;
    // `idx` is strictly increasing inside `0..|posts|` and misses `k`.
    IncreasingMissesBound(idx, |posts|, k);
  }

  /** A strictly increasing sequence inside `0..n` that misses `k` has fewer than `n` entries. */
  lemma {:induction false} IncreasingMissesBound(idx: seq<int>, n: nat, k: int)
    requires forall i :: 0 <= i < |idx| ==> 0 <= idx[i] < n
    requires forall i, j :: 0 <= i < j < |idx| ==> idx[i] < idx[j]
    requires 0 <= k < n && k !in idx
    ensures |idx| < n
    decreases n
  {
    if idx != [] {
      var last := idx[|idx| - 1];
      var init := idx[..|idx| - 1];
      assert forall i :: 0 <= i < |init| ==> init[i] < last;
      if k < last {
        IncreasingMissesBound(init, last, k);
      } else {
        IncreasingWithin(init, last);
      }
    }
  }

  /** A strictly increasing sequence inside `0..n` has at most `n` entries. */
  lemma {:induction false} IncreasingWithin(idx: seq<int>, n: nat)
    requires forall i :: 0 <= i < |idx| ==> 0 <= idx[i] < n
    requires forall i, j :: 0 <= i < j < |idx| ==> idx[i] < idx[j]
    ensures |idx| <= n
    decreases n
  {
    if idx != [] {
      var last := idx[|idx| - 1];
      var init := idx[..|idx| - 1];
      assert forall i :: 0 <= i < |init| ==> init[i] < last;
      IncreasingWithin(init, last);
    }
  }

  /** Deleting keeps the ids unique. */
  lemma DeletePreservesUniqueIds(posts: seq<Post>, id: int)
    requires UniqueIds(posts)
    ensures UniqueIds(WithoutId(posts, id))
  {
    DeleteKeepsOthersInOrder(posts, id);
    var r, idx := WithoutId(posts, id), KeptIndices(posts, OtherThan(id));
    forall i, j | 0 <= i < j < |r|
      ensures r[i].id != r[j].id
    {
      assert r[i] == posts[idx[i]] && r[j] == posts[idx[j]] && idx[i] < idx[j];
    }
  }

  /** `posts.map((p) => (p.id === id ? post : p))`. */
  function ReplaceById(posts: seq<Post>, id: int, post: Post): (r: seq<Post>)
    ensures |r| == |posts|
    ensures forall i :: 0 <= i < |posts| && posts[i].id == id ==> r[i] == post
    ensures forall i :: 0 <= i < |posts| && posts[i].id != id ==> r[i] == posts[i]
  {
    if posts == [] then []
    else [if posts[0].id == id then post else posts[0]] + ReplaceById(posts[1..], id, post)
  }

  /** Replacing an id no post carries leaves the list unchanged. */
  lemma ReplaceMissingIsNoOp(posts: seq<Post>, id: int, post: Post)
    requires !HasId(posts, id)
    ensures ReplaceById(posts, id, post) == posts
  {
  }

  /** An edit that keeps the id keeps the ids of the list, position by position. */
  lemma ReplaceKeepsIds(posts: seq<Post>, id: int, post: Post)
    requires post.id == id
    ensures forall i :: 0 <= i < |posts| ==> ReplaceById(posts, id, post)[i].id == posts[i].id
    ensures UniqueIds(posts) ==> UniqueIds(ReplaceById(posts, id, post))
  {
  }

  /** Prepending a post with a fresh id keeps the ids unique. */
  lemma PrependPreservesUniqueIds(posts: seq<Post>, post: Post)
    requires UniqueIds(posts) && !HasId(posts, post.id)
    ensures UniqueIds([post] + posts)
  {
    var r := [post] + posts;
    forall i, j | 0 <= i < j < |r|
      ensures r[i].id != r[j].id
    {
      if i == 0 {
        assert r[j] == posts[j - 1];
      } else {
        assert r[i] == posts[i - 1] && r[j] == posts[j - 1];
      }
    }
  }

  /** The lower-cased title of `p` contains the lower-cased query at some position. */
  ghost predicate TitleContains(p: Post, query: string)
  {
    exists i :: OccursAt(Lower(p.title), Lower(query), i)
  }

  /** The `includes` scan on a title decides `TitleContains`. */
  lemma IncludesDecidesTitleContains(query: string)
    ensures forall p: Post :: Includes(Lower(p.title), Lower(query)) <==> TitleContains(p, query)
  {
    forall p: Post
      ensures Includes(Lower(p.title), Lower(query)) <==> TitleContains(p, query)
    {
      IncludesIffOccurs(Lower(p.title), Lower(query));
    }
  }

  /** The search test: the lower-cased title includes the lower-cased query. */
  function TitleMatches(query: string): (keep: Post -> bool)
    ensures forall p :: keep(p) <==> TitleContains(p, query)
  {
    IncludesDecidesTitleContains(query);
    (p: Post) => Includes(Lower(p.title), Lower(query))
  }

  /** `filteredPosts`: the posts whose title contains the query, ignoring case. */
  function FilterByTitle(posts: seq<Post>, query: string): (r: seq<Post>)
    ensures |r| <= |posts|
    ensures forall i :: 0 <= i < |r| ==> r[i] in posts && TitleContains(r[i], query)
  {
    Filter(posts, TitleMatches(query))
  }

  /** The search keeps exactly the posts whose lower-cased title contains the
      lower-cased query, in their original order. */
  lemma SearchKeepsMatchesInOrder(posts: seq<Post>, query: string)
    ensures SelectsAt(FilterByTitle(posts, query), posts, KeptIndices(posts, TitleMatches(query)))
    ensures forall k :: 0 <= k < |posts| ==>
      (TitleContains(posts[k], query) <==> k in KeptIndices(posts, TitleMatches(query)))
  {
    FilterSelectsKept(posts, TitleMatches(query));
    forall k | 0 <= k < |posts|
      ensures TitleContains(posts[k], query) <==> TitleMatches(query)(posts[k])
    {
      IncludesIffOccurs(Lower(posts[k].title), Lower(query));
    }
  }

  /** An empty query keeps every post. */
  lemma EmptyQueryKeepsAll(posts: seq<Post>)
    ensures FilterByTitle(posts, "") == posts
  {
    forall p | p in posts
      ensures TitleMatches("")(p)
    {
      IncludesEmpty(Lower(p.title));
    }
    FilterKeepsAll(posts, TitleMatches(""));
  }

  /** The search ignores the case of the query. */
  lemma SearchIgnoresQueryCase(posts: seq<Post>, query: string, query': string)
    requires Lower(query) == Lower(query')
    ensures FilterByTitle(posts, query) == FilterByTitle(posts, query')
  {
    FilterAgrees(posts, TitleMatches(query), TitleMatches(query'));
  }

  /** Searching the search result again with the same query changes nothing. */
  lemma SearchIdempotent(posts: seq<Post>, query: string)
    ensures FilterByTitle(FilterByTitle(posts, query), query) == FilterByTitle(posts, query)
  {
    FilterIdempotent(posts, TitleMatches(query));
  }

  /** Deleting the middle one of three posts with distinct ids keeps the outer two. */
  lemma DeleteMiddleExample(a: Post, b: Post, c: Post)
    requires a.id != b.id && c.id != b.id
    ensures WithoutId([a, b, c], b.id) == [a, c]
  {
    var keep := OtherThan(b.id);
    assert keep(a) && !keep(b) && keep(c);
    assert [a, b, c][..2] == [a, b] && [a, b][..1] == [a] && [a][..0] == [];
    assert Filter([a], keep) == [a];
    assert Filter([a, b], keep) == [a];
  }

  /** Searching "HELLO" among "Hello World" and "goodbye" finds only the first. */
  lemma SearchExample(p: Post, q: Post)
    requires p.title == "Hello World" && q.title == "goodbye"
    ensures FilterByTitle([p, q], "HELLO") == [p]
  {
    var keep := TitleMatches("HELLO");
    LowerLiterals();
    HelloInHelloWorld();
    HelloNotInGoodbye();
    assert keep(p) by {
      assert keep(p) == Includes(Lower(p.title), Lower("HELLO"));
    }
    assert !keep(q) by {
      assert keep(q) == Includes(Lower(q.title), Lower("HELLO"));
    }
    FilterTwo(p, q, keep);
  }

  /** Filtering a two-element list, spelled out. */
  lemma FilterTwo(p: Post, q: Post, keep: Post -> bool)
    requires keep(p) && !keep(q)
    ensures Filter([p, q], keep) == [p]
  {
    assert [p, q][..1] == [p] && [p][..0] == [];
    assert Filter([p], keep) == [p];
  }

  /** The lower-cased title of the first post contains the query. */
  lemma HelloInHelloWorld()
    ensures Includes("hello world", "hello")
  {
    assert "hello world"[..5] == "hello";
  }

  /** The lower-cased title of the second post does not. */
  lemma HelloNotInGoodbye()
    ensures !Includes("goodbye", "hello")
  {
    var s := "goodbye";
    assert s[..5][0] == 'g' && s[1..] == "oodbye";
    assert s[1..][..5][0] == 'o' && s[1..][1..] == "odbye";
    assert s[1..][1..][..5][0] == 'o' && s[1..][1..][1..] == "dbye";
  }

  /** The lower-cased forms of the strings in `SearchExample`. */
  lemma LowerLiterals()
    ensures Lower("HELLO") == "hello"
    ensures Lower("Hello World") == "hello world"
    ensures Lower("goodbye") == "goodbye"
  {
    LowerHello();
    LowerHelloWorld();
    LowerGoodbye();
  }

  /** Lower-casing the query. */
  lemma LowerHello()
    ensures Lower("HELLO") == "hello"
  {
    var s := "HELLO";
    assert s[0] == 'H' && s[1] == 'E' && s[2] == 'L' && s[3] == 'L' && s[4] == 'O';
    assert LowerChar('H') == 'h' && LowerChar('E') == 'e' && LowerChar('L') == 'l' && LowerChar('O') == 'o';
  }

  /** Lower-casing the first title, in two halves. */
  lemma LowerHelloWorld()
    ensures Lower("Hello World") == "hello world"
  {
    assert "Hello" + " World" == "Hello World";
    assert "hello" + " world" == "hello world";
    LowerConcat("Hello", " World");
    LowerCapitalHello();
    LowerSpaceWorld();
  }

  /** Lower-casing the first half of the first title. */
  lemma LowerCapitalHello()
    ensures Lower("Hello") == "hello"
  {
    var s := "Hello";
    assert s[0] == 'H' && s[1] == 'e' && s[2] == 'l' && s[3] == 'l' && s[4] == 'o';
    assert LowerChar('H') == 'h' && LowerChar('e') == 'e' && LowerChar('l') == 'l' && LowerChar('o') == 'o';
  }

  /** Lower-casing the second half of the first title. */
  lemma LowerSpaceWorld()
    ensures Lower(" World") == " world"
  {
    var s := " World";
    assert s[0] == ' ' && s[1] == 'W' && s[2] == 'o' && s[3] == 'r' && s[4] == 'l' && s[5] == 'd';
    assert LowerChar(' ') == ' ' && LowerChar('W') == 'w' && LowerChar('o') == 'o';
    assert LowerChar('r') == 'r' && LowerChar('l') == 'l' && LowerChar('d') == 'd';
  }

  /** Lower-casing the second title changes nothing. */
  lemma LowerGoodbye()
    ensures Lower("goodbye") == "goodbye"
  {
    var s := "goodbye";
    assert s[0] == 'g' && s[1] == 'o' && s[2] == 'o' && s[3] == 'd';
    assert s[4] == 'b' && s[5] == 'y' && s[6] == 'e';
    assert LowerChar('g') == 'g' && LowerChar('o') == 'o' && LowerChar('d') == 'd';
    assert LowerChar('b') == 'b' && LowerChar('y') == 'y' && LowerChar('e') == 'e';
  }
}
