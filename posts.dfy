/** `create_post`, written the same way in weekly_ai_summary.py and
    summarize_and_publish.py: the link to the paper, the slug and path of the
    post file, and the text of the post. The date is today's date in ISO
    form and the summaries come from the text-generation models; all three
    are parameters here. */
module Posts {
  import opened Papers
  import opened Text

  const DOI_PREFIX := "https://doi.org/"
  const OPENALEX_PREFIX := "https://openalex.org/"
  const SLUG_SUFFIX := "-ai-summary"
  const POST_EXTENSION := ".qmd"
  const UNKNOWN_DATE := "unknown"

  /** One post file: where it is written and what it says. */
  datatype Post = Post(path: string, text: string)

  /** The link to the paper: the doi resolved at doi.org when the doi is
      non-empty, otherwise the id with every catalogue prefix rewritten to
      the doi.org prefix. */
  function PostUrl(p: Paper): (url: string)
    requires HasKey(p)
    ensures Truthy(p.doi) ==> DOI_PREFIX <= url && url[|DOI_PREFIX|..] == p.doi.value
    ensures Truthy(p.doi) ==> Contains(url, p.doi.value)
    ensures !Truthy(p.doi) ==> |url| <= |p.id.value| && !Contains(url, OPENALEX_PREFIX)
    ensures !Truthy(p.doi) && !Contains(p.id.value, OPENALEX_PREFIX) ==> url == p.id.value
  {
    if Truthy(p.doi) then
      ContainsInfix(DOI_PREFIX, p.doi.value, "");
      assert DOI_PREFIX + p.doi.value + "" == DOI_PREFIX + p.doi.value;
      DOI_PREFIX + p.doi.value
    else
      PrefixesCannotOverlap(p.id.value);
      if !Contains(p.id.value, OPENALEX_PREFIX) then
        ReplaceAllAbsent(p.id.value, OPENALEX_PREFIX, DOI_PREFIX);
        ReplaceAll(p.id.value, OPENALEX_PREFIX, DOI_PREFIX)
      else
        ReplaceAll(p.id.value, OPENALEX_PREFIX, DOI_PREFIX)
  }

  /** The catalogue prefix and the doi.org prefix cannot overlap, so the
      rewrite leaves no catalogue prefix behind. */
  lemma PrefixesCannotOverlap(id: string)
    ensures !Contains(ReplaceAll(id, OPENALEX_PREFIX, DOI_PREFIX), OPENALEX_PREFIX)
  {
    assert DOI_PREFIX[8] != OPENALEX_PREFIX[8];
    ReplaceAllRemovesPattern(id, OPENALEX_PREFIX, DOI_PREFIX, 8);
  }

  /** A catalogue id keeps its suffix behind the doi.org prefix, and the
      rewritten link is too short to contain the id it came from. */
  lemma OpenAlexIdRewritten(p: Paper, rest: string)
    requires !Truthy(p.doi) && p.id == Some(OPENALEX_PREFIX + rest)
    ensures PostUrl(p) == DOI_PREFIX + ReplaceAll(rest, OPENALEX_PREFIX, DOI_PREFIX)
    ensures !Contains(PostUrl(p), DuplicateKey(p))
  {
  }

  /** `POSTS_DIR / f"{slug}.qmd"` with the slug `f"{date_str}-ai-summary"`:
      a `.qmd` file directly inside the posts directory whose name starts
      with the date. */
  function PostPath(postsDir: string, date: string): (path: string)
    ensures postsDir + "/" + date <= path
    ensures |path| >= |POST_EXTENSION| && path[|path| - |POST_EXTENSION|..] == POST_EXTENSION
    ensures path[|postsDir| + 1 + |date|..] == SLUG_SUFFIX + POST_EXTENSION
  {
    postsDir + "/" + date + SLUG_SUFFIX + POST_EXTENSION
  }

  /** The path depends on the date alone: two runs on the same day write the
      same file, runs on different days write different files. */
  lemma PostPathPerDate(postsDir: string, d1: string, d2: string)
    ensures PostPath(postsDir, d1) == PostPath(postsDir, d2) <==> d1 == d2
  {
    if PostPath(postsDir, d1) == PostPath(postsDir, d2) {
      var n := |postsDir| + 1;
      var tail := SLUG_SUFFIX + POST_EXTENSION;
      assert PostPath(postsDir, d1) == (postsDir + "/") + d1 + tail;
      assert PostPath(postsDir, d2) == (postsDir + "/") + d2 + tail;
      assert |d1| == |d2|;
      assert d1 == PostPath(postsDir, d1)[n..n + |d1|];
      assert d2 == PostPath(postsDir, d2)[n..n + |d2|];
    }
  }

  /** `paper.get('publication_date', 'unknown')`: the label reads `unknown`
      exactly when the date is absent or is itself that word. */
  function PublishedLabel(p: Paper): (shown: string)
    ensures shown == UNKNOWN_DATE <==> p.publicationDate.None? || p.publicationDate == Some(UNKNOWN_DATE)
    ensures p.publicationDate.Some? ==> shown == p.publicationDate.value
  {
    if p.publicationDate.Some? then p.publicationDate.value else UNKNOWN_DATE
  }

  /** The pieces of the post template, interpolated values in between.
      The template starts with a newline and `---` and ends with `)` and a
      newline, so its `.strip()` removes exactly the first and last newline;
      these pieces are the stripped text. */
  function PostParts(topic: string, title: string, date: string, url: string,
                     published: string, summary: string, simplified: string): seq<string>
  {
    [ "---\ntitle: \"AI Paper of the Week: ", title,
      "\"\ndate: ", date,
      "\ncategories: [\"AI\", \"", topic,
      "\"]\n---\n\n### \U{1F9E0} Topic of the Week: ", topic,
      "\n\n**Paper**: [", title, "](", url, ")  \n",
      "**Published**: " + published,
      "\n\n---\n\n### TL;DR (Technical Summary)\n", summary,
      "\n\n### \U{1FA84} Explained Simply\n", simplified,
      "\n\n### \U{1F517} [Read the full paper](", url, ")" ]
  }

  /** The text written to the post file. After `.strip()` it opens with the
      front matter's title line and ends with the link to the full paper. */
  function PostText(topic: string, p: Paper, date: string, summary: string, simplified: string): (text: string)
    requires HasKey(p) && p.title.Some?
    ensures "---\ntitle: \"AI Paper of the Week: " + p.title.value <= text
    ensures var tail := "\n\n### \U{1F517} [Read the full paper](" + PostUrl(p) + ")";
      |tail| <= |text| && text[|text| - |tail|..] == tail
  {
    var parts := PostParts(topic, p.title.value, date, PostUrl(p), PublishedLabel(p), summary, simplified);
    ConcatAppend(parts[..18], parts[18..]);
    assert parts[..18] + parts[18..] == parts;
    assert parts[20..][1..] == [] && parts[19..][1..] == parts[20..] && parts[18..][1..] == parts[19..];
    assert Concat(parts[20..]) == ")";
    assert Concat(parts[19..]) == PostUrl(p) + ")";
    assert parts[1..][1..] == parts[2..];
    Concat(parts)
  }

  /** The post a run writes for `p` on `date`. */
  function CreatePost(postsDir: string, date: string, topic: string, p: Paper, summary: string, simplified: string): (post: Post)
    requires HasKey(p) && p.title.Some?
    ensures post.path == PostPath(postsDir, date)
    ensures Contains(post.text, PostUrl(p))
    ensures Contains(post.text, p.title.value)
    ensures Contains(post.text, topic) && Contains(post.text, date)
    ensures Contains(post.text, summary) && Contains(post.text, simplified)
    ensures Contains(post.text, "**Published**: " + PublishedLabel(p))
  {
    var text := PostText(topic, p, date, summary, simplified);
    PostMentions(topic, p, date, summary, simplified);
    Post(PostPath(postsDir, date), text)
  }

  /** Everything the template interpolates appears in the text, the
      publication date as `unknown` when the paper has none. */
  lemma PostMentions(topic: string, p: Paper, date: string, summary: string, simplified: string)
    requires HasKey(p) && p.title.Some?
    ensures var text := PostText(topic, p, date, summary, simplified);
      && Contains(text, PostUrl(p))
      && Contains(text, p.title.value)
      && Contains(text, topic) && Contains(text, date)
      && Contains(text, summary) && Contains(text, simplified)
      && Contains(text, "**Published**: " + PublishedLabel(p))
  {
    var parts := PostParts(topic, p.title.value, date, PostUrl(p), PublishedLabel(p), summary, simplified);
    forall i | i in {1, 3, 5, 11, 13, 15, 17}
      ensures Contains(Concat(parts), parts[i])
    {
      ContainsSelf(parts[i]);
      ConcatContains(parts, i, parts[i]);
    }
    assert parts[1] == p.title.value && parts[3] == date && parts[5] == topic;
    assert parts[11] == PostUrl(p) && parts[13] == "**Published**: " + PublishedLabel(p);
    assert parts[15] == summary && parts[17] == simplified;
  }
}
