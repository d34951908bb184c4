/** The review routes of content_reviewer: /approve and /edit each load the
    queue, update one post picked by its list index, and write the whole
    list back. */
module Reviewer {
  import opened Python
  import opened Queue

  /** The reply a route gives: success, or the IndexError raised by
      `posts[post_index]` before anything is written. */
  datatype Response = Success | IndexError

  /** The fields approve_post sets; nothing else in the post changes. */
  function Approve(p: Post, now: string): (q: Post)
    ensures q.approved == Some(true) && q.approvedAt == Some(now)
    ensures q.(approved := p.approved, approvedAt := p.approvedAt) == p
  {
    p.(approved := Some(true), approvedAt := Some(now))
  }

  /** The fields edit_post sets; the approval flags and the rest of the post
      are left as they were. */
  function Edit(p: Post, content: string, now: string): (q: Post)
    ensures q.content == Some(content) && q.edited == Some(true) && q.editedAt == Some(now)
    ensures q.(content := p.content, edited := p.edited, editedAt := p.editedAt) == p
  {
    p.(content := Some(content), edited := Some(true), editedAt := Some(now))
  }

  /** The list approve_post writes back, or `None` when the index is out of
      range and nothing is written. */
  function ApproveAt(posts: seq<Post>, index: int, now: string): (r: Option<seq<Post>>)
    ensures r.Some? <==> -|posts| <= index < |posts|
    ensures r.Some? ==> |r.value| == |posts|
    ensures r.Some? ==> forall j :: 0 <= j < |posts| ==>
      r.value[j] == if ResolveIndex(|posts|, index) == Some(j) then Approve(posts[j], now) else posts[j]
  {
    match ResolveIndex(|posts|, index)
    case None => None
    case Some(k) => Some(posts[k := Approve(posts[k], now)])
  }

  /** The list edit_post writes back, or `None` when the index is out of
      range and nothing is written. */
  function EditAt(posts: seq<Post>, index: int, content: string, now: string): (r: Option<seq<Post>>)
    ensures r.Some? <==> -|posts| <= index < |posts|
    ensures r.Some? ==> |r.value| == |posts|
    ensures r.Some? ==> forall j :: 0 <= j < |posts| ==>
      r.value[j] == if ResolveIndex(|posts|, index) == Some(j) then Edit(posts[j], content, now) else posts[j]
  {
    match ResolveIndex(|posts|, index)
    case None => None
    case Some(k) => Some(posts[k := Edit(posts[k], content, now)])
  }

  /** Approving twice leaves the same list as approving once at the later
      time: the flag stays set and only the timestamp moves. */
  lemma {:induction false} ApproveTwice(posts: seq<Post>, index: int, earlier: string, later: string)
    requires -|posts| <= index < |posts|
    ensures ApproveAt(ApproveAt(posts, index, earlier).value, index, later) == ApproveAt(posts, index, later)
  {
    var k := ResolveIndex(|posts|, index).value;
    var once := ApproveAt(posts, index, earlier).value;
    assert once == posts[k := Approve(posts[k], earlier)];
    assert Approve(Approve(posts[k], earlier), later) == Approve(posts[k], later);
    assert once[k := Approve(once[k], later)] == posts[k := Approve(posts[k], later)];
  }

  /** Editing an approved post keeps it approved, with its approval time. */
  lemma EditKeepsApproval(posts: seq<Post>, index: int, when: string, content: string, now: string)
    requires -|posts| <= index < |posts|
    ensures var k := ResolveIndex(|posts|, index).value;
      var edited := EditAt(ApproveAt(posts, index, when).value, index, content, now).value;
      edited[k].approved == Some(true) && edited[k].approvedAt == Some(when)
      && edited[k].content == Some(content)
  {
  }

  /** Approval and edit touch different fields, so applying them to one post
      in either order gives the same post. */
  lemma ApproveEditCommute(p: Post, content: string, editedAt: string, approvedAt: string)
    ensures Approve(Edit(p, content, editedAt), approvedAt) == Edit(Approve(p, approvedAt), content, editedAt)
  {
  }

  /** content_queue.json as the reviewer sees it: the list of posts the
      routes read, update and write back. */
  class QueueFile {
    var posts: seq<Post>

    constructor (posts: seq<Post>)
      ensures this.posts == posts
    {
      this.posts := posts;
    }

    /** /approve: sets `approved` and `approved_at` on the post at `index`
        (negative indices count from the end). An out-of-range index raises
        before the write, so the file keeps its old list. */
    method ApprovePost(index: int, now: string) returns (response: Response)
      modifies this
      ensures response == Success <==> -|old(posts)| <= index < |old(posts)|
      ensures response == Success ==> Some(posts) == ApproveAt(old(posts), index, now)
      ensures response == IndexError ==> posts == old(posts)
    {
      var loaded := posts;
      var k := ResolveIndex(|loaded|, index);
      if k.None? {
        return IndexError;
      }
      var i := k.value;
      loaded := loaded[i := loaded[i].(approved := Some(true))];
      loaded := loaded[i := loaded[i].(approvedAt := Some(now))];
      assert loaded == old(posts)[i := Approve(old(posts)[i], now)];
      posts := loaded;
      response := Success;
    }

    /** /edit: replaces the text of the post at `index` and sets `edited` and
        `edited_at`; the approval flags are not touched. An out-of-range index
        raises before the write, so the file keeps its old list. */
    method EditPost(index: int, content: string, now: string) returns (response: Response)
      modifies this
      ensures response == Success <==> -|old(posts)| <= index < |old(posts)|
      ensures response == Success ==> Some(posts) == EditAt(old(posts), index, content, now)
      ensures response == IndexError ==> posts == old(posts)
    {
      var loaded := posts;
      var k := ResolveIndex(|loaded|, index);
      if k.None? {
        return IndexError;
      }
      var i := k.value;
      loaded := loaded[i := loaded[i].(content := Some(content))];
      loaded := loaded[i := loaded[i].(edited := Some(true))];
      loaded := loaded[i := loaded[i].(editedAt := Some(now))];
      assert loaded == old(posts)[i := Edit(old(posts)[i], content, now)];
      posts := loaded;
      response := Success;
    }
  }
}
