/** SafeTwitterPoster.post_from_queue: cut the queue to `limit`, offer each
    post in turn, publish the confirmed ones, mark those that went out, and
    write the (cut) list back. The console answers and the publish outcomes
    are inputs: `answers` holds the lines typed at the confirmation prompt,
    in order, `outcomes[i]` is what publishing the post at position `i`
    would return, and `times[i]` is the clock reading taken after that post
    went out. */
module Poster {
  import opened Python
  import opened Queue

  /** `posts[:limit]` when `limit` is truthy; all posts for None or 0. */
  function Truncate(posts: seq<Post>, limit: Option<int>): (r: seq<Post>)
    ensures |r| <= |posts| && r == posts[..|r|]
    ensures limit.None? || limit == Some(0) ==> r == posts
    ensures limit.Some? && limit.value > 0 ==> |r| == Min(limit.value, |posts|)
    ensures limit.Some? && limit.value < 0 ==> |r| == Max(0, |posts| + limit.value)
  {
    if limit.Some? && limit.value != 0 then SliceTo(posts, limit.value) else posts
  }

  /** The fields set on a post that went out; nothing else changes. */
  function MarkPosted(p: Post, now: string): (q: Post)
    ensures q.posted == Some(true) && q.postedAt == Some(now)
    ensures q.(posted := p.posted, postedAt := p.postedAt) == p
  {
    p.(posted := Some(true), postedAt := Some(now))
  }

  /** The confirmation answer, lower-cased, is "y". */
  predicate IsYes(answer: string) {
    Lower(answer) == "y"
  }

  /** Exactly "y" and "Y" confirm a post. */
  lemma IsYesIff(answer: string)
    ensures IsYes(answer) <==> answer == "y" || answer == "Y"
  {
    LowerIsY(answer);
  }

  /** A post goes out when it is confirmed and publishing it succeeds. */
  predicate Accepted(answers: seq<string>, outcomes: seq<bool>, i: nat)
    requires i < |answers| && i < |outcomes|
  {
    IsYes(answers[i]) && outcomes[i]
  }

  /** How far the sweep gets: the first position whose post has no `content`
      (KeyError) or for which no answer is left (EOFError), or |posts| when
      neither happens. */
  function Reach(posts: seq<Post>, answers: seq<string>, from: nat): (k: nat)
    requires from <= |posts|
    ensures from <= k <= |posts|
    ensures from <= |answers| ==> k <= |answers|
    ensures forall i :: from <= i < k ==> posts[i].content.Some? && i < |answers|
    ensures k < |posts| ==> posts[k].content.None? || k >= |answers|
    decreases |posts| - from
  {
    if from == |posts| || posts[from].content.None? || from >= |answers| then from
    else Reach(posts, answers, from + 1)
  }

  /** The positions, below `n`, at which the publish action is invoked:
      those whose answer is "y", in increasing order. */
  function Published(answers: seq<string>, n: nat): (r: seq<nat>)
    requires n <= |answers|
  {
    if n == 0 then [] else Published(answers, n - 1) + (if IsYes(answers[n - 1]) then [n - 1] else [])
  }

  /** The success counter after the first `n` posts. */
  function Successes(answers: seq<string>, outcomes: seq<bool>, n: nat): nat
    requires n <= |answers| && n <= |outcomes|
  {
    if n == 0 then 0 else Successes(answers, outcomes, n - 1) + (if Accepted(answers, outcomes, n - 1) then 1 else 0)
  }

  /** The publish action is invoked once for each confirmed post and for no
      other: the positions are increasing (so none repeats), each is a "y",
      and every "y" below `n` is there. */
  lemma {:induction false} PublishedSpec(answers: seq<string>, n: nat)
    requires n <= |answers|
    ensures |Published(answers, n)| <= n
    ensures forall a, b :: 0 <= a < b < |Published(answers, n)| ==> Published(answers, n)[a] < Published(answers, n)[b]
    ensures forall k :: 0 <= k < |Published(answers, n)| ==>
      Published(answers, n)[k] < n && IsYes(answers[Published(answers, n)[k]])
    ensures forall i :: 0 <= i < n && IsYes(answers[i]) ==> i in Published(answers, n)
  {
    if n > 0 {
      PublishedSpec(answers, n - 1);
    }
  }

  /** The set of positions, below `n`, whose post goes out. */
  function AcceptedBelow(answers: seq<string>, outcomes: seq<bool>, n: nat): set<nat>
    requires n <= |answers| && n <= |outcomes|
  {
    set i: nat | i < n && Accepted(answers, outcomes, i)
  }

  /** Going one position further adds that position exactly when its post
      goes out. */
  lemma AcceptedBelowStep(answers: seq<string>, outcomes: seq<bool>, n: nat)
    requires 0 < n <= |answers| && n <= |outcomes|
    ensures |AcceptedBelow(answers, outcomes, n)| ==
      |AcceptedBelow(answers, outcomes, n - 1)| + if Accepted(answers, outcomes, n - 1) then 1 else 0
  {
    var below := AcceptedBelow(answers, outcomes, n - 1);
    if Accepted(answers, outcomes, n - 1) {
      assert AcceptedBelow(answers, outcomes, n) == below + {n - 1};
    } else {
      assert AcceptedBelow(answers, outcomes, n) == below;
    }
  }

  /** The success counter is the number of posts that went out. */
  lemma {:induction false} SuccessesCount(answers: seq<string>, outcomes: seq<bool>, n: nat)
    requires n <= |answers| && n <= |outcomes|
    ensures Successes(answers, outcomes, n) == |AcceptedBelow(answers, outcomes, n)|
  {
    if n > 0 {
      SuccessesCount(answers, outcomes, n - 1);
      AcceptedBelowStep(answers, outcomes, n);
    }
  }

  /** Every success needed a publish call, and there is at most one call
      per post offered. */
  lemma {:induction false} SuccessesBounded(answers: seq<string>, outcomes: seq<bool>, n: nat)
    requires n <= |answers| && n <= |outcomes|
    ensures Successes(answers, outcomes, n) <= |Published(answers, n)| <= n
  {
    if n > 0 {
      SuccessesBounded(answers, outcomes, n - 1);
    }
  }

  /** Why a sweep stopped early: a post with no `content` key, or the end of
      the console input; `at` is the position reached. */
  datatype SweepError = MissingContent(at: nat) | EndOfInput(at: nat)

  /** The list written back with the success counter, or the exception that
      ended the sweep before the write (the stored queue is then unchanged). */
  datatype SweepResult = Saved(posts: seq<Post>, successful: nat) | Raised(error: SweepError)

  /** post_from_queue. The sweep offers every post of the cut list in order,
      whatever its `approved` or `posted` flags. It publishes exactly the
      confirmed posts (`published`, by position), marks exactly those that
      went out, leaves every other post as it was, drops the posts beyond
      the limit from the list it writes back, and counts the posts that went
      out. Each marked post gets the clock reading taken for it. A missing
      `content` or the end of the answers raises, and then nothing is
      written. */
  method PostFromQueue(queue: seq<Post>, limit: Option<int>, answers: seq<string>, outcomes: seq<bool>, times: seq<string>)
    returns (result: SweepResult, published: seq<nat>)
    requires |outcomes| == |queue| && |times| == |queue|
    ensures published == Published(answers, Reach(Truncate(queue, limit), answers, 0))
    ensures result.Raised? <==> Reach(Truncate(queue, limit), answers, 0) < |Truncate(queue, limit)|
    ensures result.Raised? ==>
      var k := Reach(Truncate(queue, limit), answers, 0);
      result.error == if Truncate(queue, limit)[k].content.None? then MissingContent(k) else EndOfInput(k)
    ensures result.Saved? ==> |result.posts| == |Truncate(queue, limit)| <= |answers|
    ensures result.Saved? ==> forall i :: 0 <= i < |result.posts| ==>
      result.posts[i] == if Accepted(answers, outcomes, i) then MarkPosted(Truncate(queue, limit)[i], times[i])
                         else Truncate(queue, limit)[i]
    ensures result.Saved? ==> result.successful == Successes(answers, outcomes, |result.posts|)
  {
    var posts := Truncate(queue, limit);
    ghost var cut := posts;
    var successful := 0;
    published := [];
    var i := 0;
    while i < |posts|
      invariant i <= Reach(cut, answers, 0) <= |answers| && |posts| == |cut| <= |outcomes| == |times|
      invariant published == Published(answers, i)
      invariant successful == Successes(answers, outcomes, i)
      invariant forall j :: 0 <= j < |posts| ==>
        posts[j] == if j < i && Accepted(answers, outcomes, j) then MarkPosted(cut[j], times[j]) else cut[j]
    {
      if posts[i].content.None? {
        return Raised(MissingContent(i)), published;
      }
      if i >= |answers| {
        return Raised(EndOfInput(i)), published;
      }
      var confirm := Lower(answers[i]);
      if confirm == "y" {
        published := published + [i];
        if outcomes[i] {
          successful := successful + 1;
          posts := posts[i := posts[i].(posted := Some(true))];
          posts := posts[i := posts[i].(postedAt := Some(times[i]))];
        }
      } else if confirm == "skip" {
        // skipped without a message
      } else {
        // skipped with a message
      }
      i := i + 1;
    }
    result := Saved(posts, successful);
  }

  /** A post that went out before and is confirmed again goes out again:
      only its `posted_at` moves. */
  lemma RepostMovesTimestamp(p: Post, earlier: string, later: string)
    ensures MarkPosted(MarkPosted(p, earlier), later) == MarkPosted(p, later)
  {
  }
}
