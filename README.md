# Post queue of the tech tweet agent, in Dafny

This project models the deterministic logic of a small tweet pipeline. All
three programs work on one shared queue file, `content_queue.json`, which
holds a list of JSON post records.

- The **generator** (`tech_content_agent.py`) builds a language-model
  prompt for a (category, post type) pair. It also looks up the hashtags
  of a category, cuts the model's reply into at most five trending topics,
  and lays the posts out on a weekly schedule. The schedule gives two
  posts per day over the cycle US_morning, India_evening, US_lunch,
  India_morning.
- The **reviewer** (`content_reviewer.py`) approves or edits the post at a
  list index. Each route reads the whole list, updates that one record and
  writes the whole list back.
- The **poster** (`manual_poster.py`) cuts the queue to an optional limit.
  It offers each post at a console prompt, publishes the ones confirmed
  with "y", and marks the ones that went out as `posted` with a timestamp.
  Then it writes the cut list back and reports how many went out.

Modules, one per source component:

- `Python` (python.dfy): the Python built-ins the code relies on. These
  are `str.isspace`, `str.strip`, `str.split('\n')` and its inverse
  `join`, `str.lower`, list indexing with negative indices, and `xs[:stop]`.
- `Queue` (queue.dfy): the post record. It has the keys the programs touch
  (`content`, `approved`, `approved_at`, `edited`, `edited_at`, `posted`,
  `posted_at`), each `None` when absent, plus the other keys kept opaque.
- `Scheduler` (scheduler.dfy): `PostScheduler.create_weekly_schedule`.
- `Generator` (generator.dfy): `_build_prompt`, the hashtag table and
  when `random.sample(…, 2)` on it is defined, and the topic parsing of
  `get_trending_topics`.
- `Reviewer` (reviewer.dfy): the `/approve` and `/edit` routes. The class
  `QueueFile` stands for the queue file they read and write.
- `Poster` (poster.dfy): `SafeTwitterPoster.post_from_queue`. The console
  answers, the publish outcomes and the clock readings are inputs.

Timestamps (`datetime.now().isoformat()`) are passed in as strings: one
per route call in the reviewer, and one per queue position in the poster,
which reads the clock again for each post it marks.

What the code does, and the model with it:

- The code has no item ids, lifecycle states, atomic per-id updates or
  schedule-collision checks. Posts are addressed by list index, and their
  state is the set of boolean flags present.
- Editing an approved post is allowed and keeps it approved.
- Approving a posted post is allowed.
- The scheduler assigns every post it is given, approved or not.
- The poster's docstrings say it posts pre-approved content
  (manual_poster.py:4 and :41), but the loop at manual_poster.py:51-66
  never reads `approved` or `posted`: it offers every post in the (cut)
  list, whatever its flags say.
- A failed publish leaves the post unchanged; it is not marked "failed".

## Model

| member | source | states |
|---|---|---|
| `Python.IsSpace` | tech_content_agent.py:125 | the whitespace `str.strip()` removes: space, tab, newline and carriage return are whitespace, no ASCII letter or digit is |
| `Python.StripStart` | tech_content_agent.py:125 | strip's cut-off at the front: everything before it is whitespace and the character at it is not |
| `Python.StripEnd` | tech_content_agent.py:125 | strip's cut-off at the back: everything after it is whitespace and the character before it is not |
| `Python.Strip` | tech_content_agent.py:125 | `str.strip()` is the input with only its leading and trailing whitespace cut off: the input is the result with blank text on either side, the result has no whitespace at either end, it is empty exactly for blank strings, and a stripped string is left unchanged |
| `Python.StripUnique` | tech_content_agent.py:125 | a string that is `r` with whitespace on either side strips to `r`, for any stripped `r` |
| `Python.StripBlankPrefix` | tech_content_agent.py:125 | whitespace in front of a string does not change its strip |
| `Python.StripBlankSuffix` | tech_content_agent.py:125 | whitespace after a string does not change its strip |
| `Python.Split` | tech_content_agent.py:125 | `split('\n')` gives at least one part, no part contains the separator, and joining the parts with it gives the input back |
| `Python.SplitPrefix` | tech_content_agent.py:125 | a separator-free prefix only lengthens the first part of a split |
| `Python.SplitAfterSep` | tech_content_agent.py:125 | a leading newline splits off an empty first line |
| `Python.SplitNoSep` | tech_content_agent.py:125 | a string with no newline splits into itself alone |
| `Python.SplitJoin` | tech_content_agent.py:125 | splitting a join of separator-free parts gives the same parts back |
| `Python.SplitAppend` | tech_content_agent.py:125 | `(x + y).split('\n')` is the split of `x` and the split of `y` with the last part of the first glued to the first part of the second |
| `Python.SplitBlank` | tech_content_agent.py:125 | every line of a blank string's split is blank |
| `Python.JoinStripped` | tech_content_agent.py:125 | a join of non-empty stripped lines is non-empty and stripped |
| `Python.Lower` | manual_poster.py:56 | `str.lower()` keeps the length and lower-cases each ASCII upper-case letter on its own, leaving every other character |
| `Python.LowerIsY` | manual_poster.py:56-58 | `answer.lower() == 'y'` holds exactly for "y" and "Y" |
| `Python.ResolveIndex` | content_reviewer.py:31 | `posts[index]` is defined exactly for -n <= index < n; a non-negative index addresses itself and a negative one addresses n + index |
| `Python.SliceTo` | manual_poster.py:46 | `posts[:stop]` is a prefix of length min(stop, n), or max(0, n + stop) for a negative stop |
| `Scheduler.CreateWeeklySchedule` | tech_content_agent.py:172-190 | one entry per post, in input order, each unposted. Entry i is on day i // 2 + 1 and slot i % 4 of the cycle. Days start at 1 and never decrease, a day holds at most two entries, and no (day, slot) pair repeats |
| `Scheduler.SlotOf` | tech_content_agent.py:177-181 | position i is on the day d with 2(d - 1) <= i < 2d, counted from 1, and on slot i % 4 of the cycle, which differs from the slot of position i + 1 |
| `Scheduler.SlotDays` | tech_content_agent.py:180-184 | days are at least 1, non-decreasing, at most two positions per day, and no day is skipped |
| `Scheduler.SlotOfInjective` | tech_content_agent.py:177-181 | two different positions never get the same (day, slot) pair |
| `Scheduler.FirstSlots` | tech_content_agent.py:177-185 | the first posts land on (1, US_morning), (1, India_evening), (2, US_lunch), (2, India_morning), (3, US_morning) |
| `Generator.BuildPrompt` | tech_content_agent.py:71-99 | defined exactly for the six table keys (a KeyError otherwise); the prompt is the base context followed by the type's sentence |
| `Generator.PromptDefinedForGeneratedTypes` | tech_content_agent.py:43-99 | for every category, the prompt is defined exactly for the six post types the batch generator draws, so it never raises KeyError there |
| `Generator.PromptNamesCategoryAndType` | tech_content_agent.py:74-78 | the category and the post type sit in the prompt at fixed offsets |
| `Generator.HashtagPool` | tech_content_agent.py:103-115 | `hashtag_map.get(category, ["#Tech"])` is never empty, every tag in it starts with '#', and a category missing from the table gets `["#Tech"]` |
| `Generator.CanSampleTwoIff` | tech_content_agent.py:103-115 | sampling two tags is defined exactly for categories in the table; the `["#Tech"]` fallback has too few tags, so sampling raises ValueError |
| `Generator.CategoriesHaveHashtags` | tech_content_agent.py:16-27 | the generator's ten categories are exactly the hashtag table's keys, so each one can get two tags |
| `Generator.HashtagPoolsDistinct` | tech_content_agent.py:103-115 | within every table entry the tags are distinct, so two sampled positions give two different tags |
| `Generator.NonBlankLines` | tech_content_agent.py:125 | each kept line is non-empty and stripped, there are no more of them than input lines, and they are free of newlines when the input lines are (what they are is fixed by the lemmas below) |
| `Generator.ParseTopics` | tech_content_agent.py:125-126 | at most five topics, each non-empty, stripped and free of newlines (which ones is ParseTopicsOfReply) |
| `Generator.NonBlankLinesKeepsTopics` | tech_content_agent.py:125 | lines that are already topics pass through unchanged and in order |
| `Generator.NonBlankLinesSkipsBlank` | tech_content_agent.py:125 | a blank line anywhere is dropped without affecting the others |
| `Generator.NonBlankLinesAppend` | tech_content_agent.py:125 | the filter works line by line: the topics of two blocks of lines are those of the first followed by those of the second |
| `Generator.NonBlankLinesOne` | tech_content_agent.py:125 | one line gives nothing when blank and its strip otherwise |
| `Generator.NonBlankLinesStripsEach` | tech_content_agent.py:125 | only the strip of each line matters: a padded line such as " Rust " gives the topic "Rust" |
| `Generator.NonBlankLinesAllBlank` | tech_content_agent.py:125 | all-blank lines give no topics |
| `Generator.BlankBeforeReply` | tech_content_agent.py:125 | whitespace and blank lines in front of a reply change none of its topics |
| `Generator.BlankAfterReply` | tech_content_agent.py:125 | whitespace and blank lines after a reply change none of its topics |
| `Generator.ParseTopicsOfReply` | tech_content_agent.py:124-126 | for any reply made of lines, the topics are the stripped non-blank lines in their order, cut to the first five; stripping the whole reply first changes nothing |
| `Generator.EmptyReplyHasNoTopics` | tech_content_agent.py:125 | an empty reply gives no topics |
| `Generator.ParseTopicsOfLines` | tech_content_agent.py:124-126 | a reply listing topics one per line parses back to those topics, in order, cut to the first five |
| `Reviewer.Approve` | content_reviewer.py:31-32 | sets `approved` and `approved_at = now` and changes nothing else in the post |
| `Reviewer.Edit` | content_reviewer.py:49-51 | sets `content`, `edited` and `edited_at = now` and changes nothing else, the approval flags included |
| `Reviewer.ApproveAt` | content_reviewer.py:26-35 | fails exactly for an index outside [-n, n); otherwise the list keeps its length and only the addressed post is approved |
| `Reviewer.EditAt` | content_reviewer.py:43-54 | fails exactly for an index outside [-n, n); otherwise the list keeps its length and only the addressed post is edited |
| `Reviewer.ApproveTwice` | content_reviewer.py:31-32 | approving twice equals approving once at the later time |
| `Reviewer.EditKeepsApproval` | content_reviewer.py:49-51 | an approved post stays approved, with its approval time, after an edit |
| `Reviewer.ApproveEditCommute` | content_reviewer.py:31-51 | approve and edit touch disjoint fields, so their order does not matter |
| `Reviewer.QueueFile.ApprovePost` | content_reviewer.py:22-37 | succeeds exactly for a valid index and writes back the approved list; on IndexError the stored list is unchanged |
| `Reviewer.QueueFile.EditPost` | content_reviewer.py:39-56 | succeeds exactly for a valid index and writes back the edited list; on IndexError the stored list is unchanged |
| `Poster.Truncate` | manual_poster.py:45-46 | the processed list is a prefix: all posts for None or 0, else `posts[:limit]` with slice clamping and negative limits |
| `Poster.MarkPosted` | manual_poster.py:61-62 | sets `posted` and `posted_at` to the given time and changes nothing else |
| `Poster.IsYesIff` | manual_poster.py:56-58 | a post is confirmed exactly when the answer is "y" or "Y" |
| `Poster.Reach` | manual_poster.py:51-56 | the sweep gets past every post that has content and an answer, and stops at the first that lacks either |
| `Poster.PublishedSpec` | manual_poster.py:56-59 | publish is invoked in increasing position order, at most once per post, for exactly the confirmed posts |
| `Poster.SuccessesCount` | manual_poster.py:49-61 | the success counter is the number of posts that went out |
| `Poster.SuccessesBounded` | manual_poster.py:49-61 | the success counter is at most the number of publish calls, which is at most the number of posts offered |
| `Poster.PostFromQueue` | manual_poster.py:40-72 | publishes exactly the confirmed posts. It writes back the cut list, with exactly the published-and-successful posts marked, each with the clock reading taken for it, and every other post unchanged, and counts the marked ones. A missing `content` or the end of the answers raises before the write |
| `Poster.RepostMovesTimestamp` | manual_poster.py:51-62 | an already-posted post confirmed again is marked again; only `posted_at` moves |

## Left out

- The language-model calls are not modelled: `generate_content_batch`, the
  request in `get_trending_topics` and `generate_trending_post`. Their output
  is opaque. Topic parsing is modelled on a given reply string.
- `random.choice`, `random.sample`, `random.uniform` and `time.sleep` are not
  modelled, because they are nondeterministic or only delay. Only the
  deterministic precondition of `random.sample(…, 2)` is modelled.
- JSON load and save are not modelled. Each program's queue is an in-memory
  list that is read in and handed back. A JSON value of another shape than
  the model's field types (a non-string `content`, a non-bool flag, a
  non-int index) is not modelled.
- Flask routing, request parsing (a missing `index` or `content` key in the
  request) and template rendering are not modelled: they are web plumbing.
- The tweepy client and `create_tweet` are not modelled: they are an external
  network call. Publishing is the `outcomes` input, and `published` records
  which posts it was invoked for.
- `input()` menus, the printing, and the `main()` and `interactive_mode()`
  orchestration are not modelled: they are console I/O. The confirmation
  answers are the `answers` input.
- Concurrent read-modify-write races on `content_queue.json` between the
  reviewer and the poster are not modelled: concurrency is outside what the
  model can express.
- `PostScheduler.save_schedule` and the unused `self.schedule` field are not
  modelled: the first is file I/O and the second is never read.
- Python.Lower: lower-cases ASCII letters only. The answer is compared with
  'y' and with 'skip', and both non-'y' branches leave the post unchanged, so
  only the 'y' test matters; no other character lower-cases to "y".
- Poster.PostFromQueue: the outcome of publishing and the clock reading are
  given per queue position (`outcomes[i]`, `times[i]`), so the same post
  always gets the same outcome and time; how far apart the readings are
  (the 30-60 s sleep) is not modelled.
