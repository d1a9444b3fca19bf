/** weekly_ai_summary.py: fetch recent papers for one fixed topic, keep
    every paper with an abstract that no post mentions yet, pick one of them
    at random and write its post.

    The catalogue query is not modelled (`papers` is the fetched batch);
    the two text-generation models are the parameter `summarize`, which maps
    an abstract to its (summary, simplified) pair; the random choice is a
    nondeterministic choice among the kept papers. */
module WeeklySummary {
  import opened Papers
  import opened Ledger
  import opened Posts

  const TOPIC_NAME := "Artificial Intelligence"

  /** `a` is `b` with some elements left out, order kept. */
  predicate IsSubsequence(a: seq<Paper>, b: seq<Paper>)
    decreases |b|
  {
    a == [] || (b != [] && ((a[0] == b[0] && IsSubsequence(a[1..], b[1..])) || IsSubsequence(a, b[1..])))
  }

  /** The `valid_papers` comprehension: exactly the eligible papers, each as
      often as it was fetched, in fetch order. */
  function ValidPapers(papers: seq<Paper>, posts: Option<seq<string>>): (valid: seq<Paper>)
    requires WellKeyed(papers)
    ensures IsSubsequence(valid, papers)
    ensures forall p :: p in valid ==> p in papers && Eligible(p, posts)
    ensures forall p :: multiset(valid)[p] == if p in papers && Eligible(p, posts) then multiset(papers)[p] else 0
  {
    if papers == [] then
      []
    else
      var rest := ValidPapers(papers[1..], posts);
      assert papers == [papers[0]] + papers[1..];
      assert multiset(papers) == multiset{papers[0]} + multiset(papers[1..]);
      if Eligible(papers[0], posts) then
        assert ([papers[0]] + rest)[1..] == rest;
        [papers[0]] + rest
      else
        rest
  }

  /** `main`: nothing is written when the batch is empty or nothing in it is
      eligible; otherwise one eligible paper is chosen and its post written
      under today's date. */
  method PublishWeekly(papers: seq<Paper>, posts: Option<seq<string>>, postsDir: string, date: string,
                       summarize: string -> (string, string))
    returns (chosen: Option<Paper>, post: Option<Post>)
    requires WellKeyed(papers)
    requires forall p :: p in ValidPapers(papers, posts) ==> p.title.Some?
    ensures papers == [] ==> post.None?
    ensures post.None? <==> ValidPapers(papers, posts) == []
    ensures chosen.None? <==> post.None?
    ensures chosen.Some? ==> chosen.value in ValidPapers(papers, posts)
    ensures chosen.Some? ==> Truthy(chosen.value.abstractText) && !Published(posts, DuplicateKey(chosen.value))
    ensures chosen.Some? ==> post == Some(CreatePost(postsDir, date, TOPIC_NAME, chosen.value,
                                                     summarize(chosen.value.abstractText.value).0,
                                                     summarize(chosen.value.abstractText.value).1))
  {
    if |papers| == 0 {
      return None, None;
    }
    var valid := ValidPapers(papers, posts);
    if |valid| == 0 {
      return None, None;
    }
    var paper :| paper in valid;
    var summaries := summarize(paper.abstractText.value);
    chosen := Some(paper);
    post := Some(CreatePost(postsDir, date, TOPIC_NAME, paper, summaries.0, summaries.1));
  }
}
