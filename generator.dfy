/** The deterministic parts of TechContentGenerator: the prompt built for a
    (category, post type) pair, the hashtag table and when sampling two tags
    from it is defined, and how the model's reply is cut into trending
    topics. */
module Generator {
  import opened Python

  /** The categories a post is drawn from. */
  const Categories: seq<string> := [
    "AI/ML insights",
    "Cloud infrastructure tips",
    "DSA problem breakdowns",
    "System design concepts",
    "Full-stack development",
    "Reinforcement learning",
    "Tech career advice",
    "Coding best practices",
    "DevOps/Infrastructure",
    "Tech industry trends"
  ]

  /** The post types generate_content_batch picks from. */
  const PostTypes: seq<string> := ["insight", "tip", "thread_starter", "question", "breakdown", "comparison"]

  // ---------------------------------------------------------------------
  // _build_prompt

  /** The sentence appended to the prompt for each post type. */
  const TypeSpecific: map<string, string> := map[
    "insight" := "Share a specific technical insight or learning experience.",
    "tip" := "Provide a practical, actionable tip that solves a real problem.",
    "thread_starter" := "Start a thought-provoking discussion with a question or statement.",
    "question" := "Ask an engaging technical question that sparks discussion.",
    "breakdown" := "Explain a complex concept simply (e.g., 'Recursion in 3 lines')",
    "comparison" := "Compare two technologies/approaches with pros/cons"
  ]

  const ContextHead := "You are a tech professional sharing valuable insights on X (Twitter).\n        \nCategory: "
  const ContextMiddle := "\nPost Type: "
  const ContextTail :=
    "\nAudience: Tech professionals, students, and enthusiasts in US & India\n\n"
    + "Requirements:\n"
    + "1. Create an engaging, authentic post (max 280 characters)\n"
    + "2. Use natural language, not marketing speak\n"
    + "3. Make it educational and valuable\n"
    + "4. Include 1-2 relevant hashtags naturally\n"
    + "5. Avoid generic advice - be specific\n"
    + "6. Sound like a real person sharing knowledge, not a bot\n\n"

  /** The formatted base context, with the category and post type filled in. */
  function BaseContext(category: string, postType: string): string {
    ContextHead + category + ContextMiddle + postType + ContextTail
  }

  /** _build_prompt: the base context followed by the post type's sentence;
      `None` is the KeyError raised for a post type the table lacks. */
  function BuildPrompt(category: string, postType: string): (prompt: Option<string>)
    ensures prompt.Some? <==> postType in TypeSpecific
    ensures prompt.Some? ==>
      var base := BaseContext(category, postType);
      |base| < |prompt.value| && prompt.value[..|base|] == base
      && prompt.value[|base|..] == TypeSpecific[postType]
  {
    if postType in TypeSpecific then
      Some(BaseContext(category, postType) + TypeSpecific[postType])
    else
      None
  }

  /** The prompt is defined for exactly the six post types the generator
      draws from, so generate_content_batch never hits the KeyError. */
  lemma PromptDefinedForGeneratedTypes(category: string, postType: string)
    ensures BuildPrompt(category, postType).Some? <==> postType in PostTypes
  {
  }

  /** The category and post type sit in the prompt at fixed offsets. */
  lemma PromptNamesCategoryAndType(category: string, postType: string)
    requires postType in TypeSpecific
    ensures var p := BuildPrompt(category, postType).value;
      var c := |ContextHead|;
      var t := c + |category| + |ContextMiddle|;
      t + |postType| <= |p| && p[c..c + |category|] == category && p[t..t + |postType|] == postType
  {
    var rest := ContextTail + TypeSpecific[postType];
    assert BuildPrompt(category, postType).value == ContextHead + category + ContextMiddle + postType + rest;
    Offsets(ContextHead, category, ContextMiddle, postType, rest);
  }

  lemma Offsets(h: string, c: string, m: string, t: string, rest: string)
    ensures var p := h + c + m + t + rest;
      var i := |h| + |c| + |m|;
      i + |t| <= |p| && p[|h|..|h| + |c|] == c && p[i..i + |t|] == t
  {
    var p := h + c + m + t + rest;
    assert p == h + (c + (m + (t + rest)));
  }

  // ---------------------------------------------------------------------
  // _generate_hashtags

  const HashtagMap: map<string, seq<string>> := map[
    "AI/ML insights" := ["#MachineLearning", "#AI", "#DeepLearning"],
    "Cloud infrastructure tips" := ["#CloudComputing", "#AWS", "#DevOps"],
    "DSA problem breakdowns" := ["#DSA", "#Algorithms", "#CodingInterview"],
    "System design concepts" := ["#SystemDesign", "#SoftwareArchitecture"],
    "Full-stack development" := ["#FullStack", "#WebDev", "#JavaScript"],
    "Reinforcement learning" := ["#ReinforcementLearning", "#ML", "#AI"],
    "Tech career advice" := ["#TechCareers", "#SoftwareEngineering"],
    "Coding best practices" := ["#CleanCode", "#Programming", "#SoftwareEngineering"],
    "DevOps/Infrastructure" := ["#DevOps", "#Kubernetes", "#Docker"],
    "Tech industry trends" := ["#TechTrends", "#Innovation", "#TechNews"]
  ]

  /** The tags used when a category has no table entry. */
  const FallbackHashtags: seq<string> := ["#Tech"]

  /** hashtag_map.get(category, ["#Tech"]): the population the two tags are
      sampled from. It is never empty, every tag in it is a hashtag, and a
      category the table lacks gets the fallback. */
  function HashtagPool(category: string): (pool: seq<string>)
    ensures 1 <= |pool|
    ensures forall i :: 0 <= i < |pool| ==> pool[i] != [] && pool[i][0] == '#'
    ensures category !in HashtagMap ==> pool == FallbackHashtags
  {
    if category in HashtagMap then HashtagMap[category] else FallbackHashtags
  }

  /** random.sample(pool, 2) is defined only when the pool holds at least two
      tags; otherwise Python raises ValueError. */
  predicate CanSampleTwo(category: string) {
    |HashtagPool(category)| >= 2
  }

  /** Sampling two tags is defined exactly for the categories in the table:
      each entry has at least two tags, and the fallback has one. */
  lemma CanSampleTwoIff(category: string)
    ensures CanSampleTwo(category) <==> category in HashtagMap
  {
  }

  /** The generator's categories are exactly the table's keys, so every
      category it draws can be given two hashtags. */
  lemma CategoriesHaveHashtags()
    ensures forall c :: c in Categories <==> c in HashtagMap
    ensures forall c :: c in Categories ==> CanSampleTwo(c)
  {
  }

  /** Within each entry the tags are distinct, so the two sampled positions
      give two different tags. */
  lemma HashtagPoolsDistinct(category: string)
    ensures var pool := HashtagPool(category);
      forall i, j :: 0 <= i < j < |pool| ==> pool[i] != pool[j]
  {
  }

  // ---------------------------------------------------------------------
  // get_trending_topics, on the model's reply text

  /** How many topics are kept. */
  const MaxTopics: nat := 5

  /** [t.strip() for t in lines if t.strip()]: the stripped non-blank lines, in order. */
  function NonBlankLines(lines: seq<string>): (topics: seq<string>)
    ensures |topics| <= |lines|
    ensures forall k :: 0 <= k < |topics| ==> topics[k] != [] && IsStripped(topics[k])
    ensures (forall k :: 0 <= k < |lines| ==> '\n' !in lines[k]) ==>
      (forall k :: 0 <= k < |topics| ==> '\n' !in topics[k])
  {
    if lines == [] then []
    else
      var t := Strip(lines[0]);
      (if t != [] then [t] else []) + NonBlankLines(lines[1..])
  }

  /** The topics cut from the reply: at most five, each non-empty, free of
      surrounding whitespace and of line breaks. */
  function ParseTopics(text: string): (topics: seq<string>)
    ensures |topics| <= MaxTopics
    ensures forall k :: 0 <= k < |topics| ==> topics[k] != [] && IsStripped(topics[k]) && '\n' !in topics[k]
  {
    var all := NonBlankLines(Split(Strip(text), '\n'));
    if |all| <= MaxTopics then all else all[..MaxTopics]
  }

  /** A well-formed topic: what ParseTopics can return. */
  predicate IsTopic(t: string) {
    t != [] && IsStripped(t) && '\n' !in t
  }

  /** Lines that are already topics pass through unchanged and in order. */
  lemma {:induction false} NonBlankLinesKeepsTopics(lines: seq<string>)
    requires forall k :: 0 <= k < |lines| ==> IsTopic(lines[k])
    ensures NonBlankLines(lines) == lines
  {
    if lines != [] {
      NonBlankLinesKeepsTopics(lines[1..]);
      assert [lines[0]] + lines[1..] == lines;
    }
  }

  /** Blank lines are dropped wherever they appear. */
  lemma {:induction false} NonBlankLinesSkipsBlank(before: seq<string>, blank: string, after: seq<string>)
    requires IsBlank(blank)
    ensures NonBlankLines(before + [blank] + after) == NonBlankLines(before + after)
  {
    if before == [] {
      assert (before + [blank] + after)[1..] == after;
      assert before + after == after;
    } else {
      assert (before + [blank] + after)[1..] == before[1..] + [blank] + after;
      assert (before + after)[1..] == before[1..] + after;
      NonBlankLinesSkipsBlank(before[1..], blank, after);
    }
  }

  /** The filter works line by line: the topics of two blocks of lines are
      the topics of the first followed by those of the second. */
  lemma {:induction false} NonBlankLinesAppend(a: seq<string>, b: seq<string>)
    ensures NonBlankLines(a + b) == NonBlankLines(a) + NonBlankLines(b)
  {
    if a == [] {
      assert a + b == b;
    } else {
      assert (a + b)[0] == a[0] && (a + b)[1..] == a[1..] + b;
      NonBlankLinesAppend(a[1..], b);
      var t := Strip(a[0]);
      var head := if t != [] then [t] else [];
      assert NonBlankLines(a + b) == head + NonBlankLines(a[1..] + b);
      assert NonBlankLines(a) == head + NonBlankLines(a[1..]);
      Reassociate(head, NonBlankLines(a[1..]), NonBlankLines(b));
    }
  }

  lemma Reassociate(h: seq<string>, x: seq<string>, y: seq<string>)
    ensures h + (x + y) == (h + x) + y
  {
  }

  lemma HeadTail(p: seq<string>)
    requires |p| >= 1
    ensures [p[0]] + p[1..] == p
  {
  }

  lemma InitLast(p: seq<string>)
    requires |p| >= 1
    ensures p[..|p| - 1] + [p[|p| - 1]] == p
  {
  }

  /** One line gives nothing when it is blank, and its strip otherwise. */
  lemma NonBlankLinesOne(line: string)
    ensures NonBlankLines([line]) == if IsBlank(line) then [] else [Strip(line)]
  {
    assert [line][1..] == [];
  }

  /** Only the strip of each line matters: a padded line such as " Rust "
      gives the same topic as "Rust". */
  lemma NonBlankLinesStripsEach(before: seq<string>, line: string, after: seq<string>)
    ensures NonBlankLines(before + [line] + after) == NonBlankLines(before + [Strip(line)] + after)
  {
    NonBlankLinesAppend(before + [line], after);
    NonBlankLinesAppend(before, [line]);
    NonBlankLinesAppend(before + [Strip(line)], after);
    NonBlankLinesAppend(before, [Strip(line)]);
    NonBlankLinesOne(line);
    NonBlankLinesOne(Strip(line));
  }

  /** Lines that are all blank give no topics. */
  lemma {:induction false} NonBlankLinesAllBlank(lines: seq<string>)
    requires forall k :: 0 <= k < |lines| ==> IsBlank(lines[k])
    ensures NonBlankLines(lines) == []
  {
    if lines != [] {
      NonBlankLinesAllBlank(lines[1..]);
    }
  }

  /** Blank lines in front go, and a first line with the same strip gives
      the same topic. */
  lemma DropBlankLead(blanks: seq<string>, first: string, line: string, rest: seq<string>)
    requires forall k :: 0 <= k < |blanks| ==> IsBlank(blanks[k])
    requires Strip(first) == Strip(line)
    ensures NonBlankLines(blanks + [first] + rest) == NonBlankLines([line] + rest)
  {
    NonBlankLinesAllBlank(blanks);
    NonBlankLinesOne(first);
    NonBlankLinesOne(line);
    var one := NonBlankLines([line]);
    assert NonBlankLines([first]) == one;
    NonBlankLinesAppend(blanks, [first]);
    assert NonBlankLines(blanks + [first]) == one;
    NonBlankLinesAppend(blanks + [first], rest);
    NonBlankLinesAppend([line], rest);
  }

  /** Blank lines at the end go, and a last line with the same strip gives
      the same topic. */
  lemma DropBlankTail(init: seq<string>, last: string, line: string, blanks: seq<string>)
    requires forall k :: 0 <= k < |blanks| ==> IsBlank(blanks[k])
    requires Strip(last) == Strip(line)
    ensures NonBlankLines(init + [last] + blanks) == NonBlankLines(init + [line])
  {
    NonBlankLinesAllBlank(blanks);
    NonBlankLinesOne(last);
    NonBlankLinesOne(line);
    var one := NonBlankLines([line]);
    assert NonBlankLines([last]) == one;
    NonBlankLinesAppend(init + [last], blanks);
    assert NonBlankLines(init + [last] + blanks) == NonBlankLines(init + [last]);
    NonBlankLinesAppend(init, [last]);
    NonBlankLinesAppend(init, [line]);
  }

  /** Lines glued onto the front of a split reply from a blank block add no
      topic. */
  lemma GluedInFront(q: seq<string>, p: seq<string>, s: seq<string>)
    requires Glued(q, p, s)
    requires forall k :: 0 <= k < |q| ==> IsBlank(q[k])
    ensures NonBlankLines(s) == NonBlankLines(p)
  {
    var m := |q|;
    StripBlankPrefix(q[m - 1], p[0]);
    DropBlankLead(q[..m - 1], q[m - 1] + p[0], p[0], p[1..]);
    HeadTail(p);
  }

  /** Lines glued onto the end of a split reply from a blank block add no
      topic. */
  lemma GluedBehind(p: seq<string>, q: seq<string>, s: seq<string>)
    requires Glued(p, q, s)
    requires forall k :: 0 <= k < |q| ==> IsBlank(q[k])
    ensures NonBlankLines(s) == NonBlankLines(p)
  {
    var n := |p|;
    StripBlankSuffix(p[n - 1], q[0]);
    DropBlankTail(p[..n - 1], p[n - 1] + q[0], p[n - 1], q[1..]);
    InitLast(p);
  }

  /** Whitespace, line breaks included, in front of a reply changes none of
      its topics. */
  lemma BlankBeforeReply(w: string, text: string)
    requires IsBlank(w)
    ensures NonBlankLines(Split(w + text, '\n')) == NonBlankLines(Split(text, '\n'))
  {
    SplitAppend(w, text, '\n');
    SplitBlank(w, '\n');
    GluedInFront(Split(w, '\n'), Split(text, '\n'), Split(w + text, '\n'));
  }

  /** Whitespace, line breaks included, after a reply changes none of its
      topics. */
  lemma BlankAfterReply(text: string, w: string)
    requires IsBlank(w)
    ensures NonBlankLines(Split(text + w, '\n')) == NonBlankLines(Split(text, '\n'))
  {
    SplitAppend(text, w, '\n');
    SplitBlank(w, '\n');
    GluedBehind(Split(text, '\n'), Split(w, '\n'), Split(text + w, '\n'));
  }

  /** The topics of any reply: for a reply made of lines, the stripped
      non-blank lines in their order, cut to the first five. Stripping the
      whole reply first changes nothing. */
  lemma ParseTopicsOfReply(lines: seq<string>)
    requires forall k :: 0 <= k < |lines| ==> '\n' !in lines[k]
    ensures var all := NonBlankLines(lines);
      ParseTopics(Join(lines, '\n')) == if |all| <= MaxTopics then all else all[..MaxTopics]
  {
    var text := Join(lines, '\n');
    var u, v := StripParts(text);
    var m := Strip(text);
    assert NonBlankLines(Split(m, '\n')) == NonBlankLines(lines) by {
      BlankAfterReply(u + m, v);
      BlankBeforeReply(u, m);
      if lines == [] {
        EmptyReplyHasNoTopics();
      } else {
        SplitJoin(lines, '\n');
      }
    }
  }

  /** Round trip: a reply listing topics one per line parses back to those
      topics, in order, cut to the first five. */
  lemma ParseTopicsOfLines(topics: seq<string>)
    requires forall k :: 0 <= k < |topics| ==> IsTopic(topics[k])
    ensures ParseTopics(Join(topics, '\n')) == if |topics| <= MaxTopics then topics else topics[..MaxTopics]
  {
    ParseTopicsOfReply(topics);
    NonBlankLinesKeepsTopics(topics);
  }

  /** An empty reply splits into one empty line, which is dropped. */
  lemma EmptyReplyHasNoTopics()
    ensures NonBlankLines(Split([], '\n')) == []
  {
    assert Split([], '\n') == [[]];
    assert IsBlank([]);
    assert NonBlankLines([[]]) == [] + NonBlankLines([]);
  }

}
