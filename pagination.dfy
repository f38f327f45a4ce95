/** Pagination of the search result: the page shown for `currentPage` and the
    page buttons, with a fixed page size of ten. */
module Pagination {
  import opened ArrayOps

  /** `postsPerPage`. */
  const PostsPerPage: nat := 10

  /** `currentPosts`: `filtered.slice(indexOfFirstPost, indexOfLastPost)` where
      the last index is `page * postsPerPage` and the first is ten less. */
  function PageOf<T>(filtered: seq<T>, page: int): (r: seq<T>)
    ensures |r| <= PostsPerPage
    ensures forall i :: 0 <= i < |r| ==> r[i] in filtered
  {
    var indexOfLastPost := page * PostsPerPage;
    var indexOfFirstPost := indexOfLastPost - PostsPerPage;
    Slice(filtered, indexOfFirstPost, indexOfLastPost)
  }

  /** `Math.ceil(length / postsPerPage)`: the number of page buttons. */
  function PageCount(length: nat): (count: nat)
    ensures length <= count * PostsPerPage < length + PostsPerPage
  {
    (length + PostsPerPage - 1) / PostsPerPage
  }

  /** The labels of the page buttons, `1` to the page count. */
  function PageButtons(length: nat): (labels: seq<int>)
    ensures |labels| == PageCount(length)
    ensures forall i :: 0 <= i < |labels| ==> labels[i] == i + 1
  {
    seq(PageCount(length), i => i + 1)
  }

  /** For a page number from one up, the page is the window
      `[(page-1)*10, page*10)` cut at the end of the list: at most ten
      posts, exactly ten before the last page, and empty past it. */
  lemma PageWindow<T>(filtered: seq<T>, page: int)
    requires page >= 1
    ensures var first, last := (page - 1) * PostsPerPage, page * PostsPerPage;
      && PageOf(filtered, page) ==
         filtered[(if first < |filtered| then first else |filtered|)..(if last < |filtered| then last else |filtered|)]
      && |PageOf(filtered, page)| <= PostsPerPage
      && (last <= |filtered| ==> |PageOf(filtered, page)| == PostsPerPage)
      && (PageOf(filtered, page) == [] <==> first >= |filtered|)
  {
    SliceNonNegative(filtered, (page - 1) * PostsPerPage, page * PostsPerPage);
  }

  /** A page is shown with posts exactly when it has a button. */
  lemma PageNonEmptyIffButton<T>(filtered: seq<T>, page: int)
    requires page >= 1
    ensures PageOf(filtered, page) != [] <==> page <= PageCount(|filtered|)
  {
    PageWindow(filtered, page);
  }

  /** Every page button leads to a non-empty page. */
  lemma ButtonsShowPosts<T>(filtered: seq<T>)
    ensures forall i :: 0 <= i < |PageButtons(|filtered|)| ==>
      PageButtons(|filtered|)[i] >= 1 && PageOf(filtered, PageButtons(|filtered|)[i]) != []
  {
    forall i | 0 <= i < |PageButtons(|filtered|)|
      ensures PageOf(filtered, PageButtons(|filtered|)[i]) != []
    {
      PageNonEmptyIffButton(filtered, i + 1);
    }
  }

  /** The page before page one is empty. */
  lemma PageZeroEmpty<T>(filtered: seq<T>)
    ensures PageOf(filtered, 0) == []
  {
  }

  /** Pages one to `k`, one after the other. */
  function PagesUpTo<T>(filtered: seq<T>, k: nat): seq<T>
  {
    if k == 0 then [] else PagesUpTo(filtered, k - 1) + PageOf(filtered, k)
  }

  /** The first `k` pages are the first `10 * k` posts. */
  lemma {:induction false} PagesUpToPrefix<T>(filtered: seq<T>, k: nat)
    ensures PagesUpTo(filtered, k) ==
      filtered[..if k * PostsPerPage < |filtered| then k * PostsPerPage else |filtered|]
  {
    if k > 0 {
      PagesUpToPrefix(filtered, k - 1);
      PageWindow(filtered, k);
      var a := if (k - 1) * PostsPerPage < |filtered| then (k - 1) * PostsPerPage else |filtered|;
      var b := if k * PostsPerPage < |filtered| then k * PostsPerPage else |filtered|;
      assert filtered[..a] + filtered[a..b] == filtered[..b];
    }
  }

  /** Reading every page in button order shows each post of the search
      result once, in order. */
  lemma PagesCoverAll<T>(filtered: seq<T>)
    ensures PagesUpTo(filtered, PageCount(|filtered|)) == filtered
  {
    PagesUpToPrefix(filtered, PageCount(|filtered|));
  }

  /** Twenty-five results make three buttons; page 3 holds five, page 4 none. */
  lemma TwentyFiveExample<T>(filtered: seq<T>)
    requires |filtered| == 25
    ensures PageCount(|filtered|) == 3
    ensures |PageOf(filtered, 3)| == 5 && PageOf(filtered, 4) == []
  {
    PageWindow(filtered, 3);
    PageWindow(filtered, 4);
  }
}
