/** summarize_and_publish.py: read the (topic, paper) pair that
    fetch_paper.py saved, summarize the paper's abstract and write its post.

    The saved JSON file is `input` (`None` when the file does not exist);
    the two text-generation models are the parameter `summarize`. The module
    ends with how the written post feeds back into the duplicate check of
    the next fetch. */
module SummarizeAndPublish {
  import opened Papers
  import opened Text
  import opened Ledger
  import opened Posts
  import opened FetchPaper

  /** The content of `paper_to_summarize.json`. */
  datatype Input = Input(topic: string, paper: Paper)

  /** `main`: no post without the input file or without an abstract;
      otherwise the post for the saved paper under the saved topic. */
  function Publish(input: Option<Input>, postsDir: string, date: string,
                   summarize: string -> (string, string)): (post: Option<Post>)
    requires input.Some? && Truthy(input.value.paper.abstractText) ==>
               HasKey(input.value.paper) && input.value.paper.title.Some?
    ensures post.None? <==> input.None? || !Truthy(input.value.paper.abstractText)
    ensures post.Some? ==> post.value.path == PostPath(postsDir, date)
    ensures post.Some? ==> Contains(post.value.text, input.value.paper.title.value)
    ensures post.Some? ==> Contains(post.value.text, PostUrl(input.value.paper))
    ensures post.Some? ==> Contains(post.value.text, input.value.topic)
  {
    if input.None? then
      None
    else if !Truthy(input.value.paper.abstractText) then
      None
    else
      var summaries := summarize(input.value.paper.abstractText.value);
      Some(CreatePost(postsDir, date, input.value.topic, input.value.paper, summaries.0, summaries.1))
  }

  /** A post written for a paper with a non-empty doi mentions the doi, so
      once that post is in the posts directory, whatever else is there, the
      duplicate check finds the paper and no later fetch selects it again. */
  lemma DoiPostBlocksRepublication(input: Input, postsDir: string, date: string,
                                   summarize: string -> (string, string),
                                   corpus: seq<string>, batch: seq<Paper>)
    requires Truthy(input.paper.abstractText) && Truthy(input.paper.doi) && input.paper.title.Some?
    requires Publish(Some(input), postsDir, date, summarize).Some?
    requires Publish(Some(input), postsDir, date, summarize).value.text in corpus
    requires WellKeyed(batch)
    ensures Published(Some(corpus), DuplicateKey(input.paper))
    ensures !Eligible(input.paper, Some(corpus))
    ensures FirstEligible(batch, Some(corpus)) != Some(input.paper)
  {
    var text := Publish(Some(input), postsDir, date, summarize).value.text;
    var url := PostUrl(input.paper);
    ContainsTransitive(text, url, input.paper.doi.value);
    FirstEligibleIsFirst(batch, Some(corpus));
  }

  /** The analogue fails for a paper known only by its catalogue id: the
      link in the post is the id rewritten to doi.org, and that link does
      not contain the id the duplicate check searches for. */
  lemma IdOnlyLinkMissesKey(input: Input, rest: string)
    requires !Truthy(input.paper.doi) && input.paper.id == Some(OPENALEX_PREFIX + rest)
    ensures Contains(PostUrl(input.paper), DOI_PREFIX)
    ensures !Contains(PostUrl(input.paper), DuplicateKey(input.paper))
  {
    OpenAlexIdRewritten(input.paper, rest);
    ContainsInfix("", DOI_PREFIX, ReplaceAll(rest, OPENALEX_PREFIX, DOI_PREFIX));
    assert "" + DOI_PREFIX + ReplaceAll(rest, OPENALEX_PREFIX, DOI_PREFIX) == PostUrl(input.paper);
  }
}
