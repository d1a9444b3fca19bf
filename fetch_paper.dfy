/** fetch_paper.py: pick this week's topic, fetch recent papers for it and
    keep the first one with an abstract that no post mentions yet; if the
    topic yields nothing, try the next topics in turn, wrapping around.

    The catalogue query is not modelled: `batches[i]` is the batch the query
    for `topics[i]` returns, in the catalogue's order. The ISO week number is
    a parameter, and the JSON file written for the next script is the
    returned (topic, paper) pair. */
module FetchPaper {
  import opened Papers
  import opened Text
  import opened Ledger

  /** The ISO calendar week, as `isocalendar().week` yields it. */
  type IsoWeek = w: int | 1 <= w <= 53 witness 1

  const TOPICS: seq<string> := [
    "Artificial Intelligence",
    "Machine Learning",
    "NLP",
    "Education",
    "Ethics"
  ]

  /** Python's `x % n` for a non-negative `x`, as repeated subtraction. */
  function Mod(x: nat, n: nat): (r: nat)
    requires n > 0
    ensures r < n
  {
    if x < n then x else Mod(x - n, n)
  }

  /** `Mod` is the remainder of Euclidean division, which is Python's `%`
      on non-negative operands. */
  lemma {:induction false} ModIsRemainder(x: nat, n: nat)
    requires n > 0
    ensures Mod(x, n) == x % n
  {
    if x >= n {
      ModIsRemainder(x - n, n);
      RemainderShift(x - n, n);
    }
  }

  lemma RemainderShift(y: nat, n: nat)
    requires n > 0
    ensures (y + n) % n == y % n
  {
    var q := y / n;
    assert y == q * n + y % n;
    assert y + n == (q + 1) * n + y % n;
    RemainderUnique(y + n, n, q + 1, y % n);
  }

  /** Euclidean division has one remainder. */
  lemma RemainderUnique(x: nat, n: nat, q: nat, r: nat)
    requires n > 0 && r < n && x == q * n + r
    ensures x % n == r
  {
    var q', r' := x / n, x % n;
    assert x == q' * n + r';
    if q > q' {
      MulAtLeast(q - q', n);
    } else if q' > q {
      MulAtLeast(q' - q, n);
    }
  }

  lemma MulAtLeast(a: nat, n: nat)
    requires a >= 1
    ensures a * n >= n
  {
  }

  /** `get_weekly_topic`. */
  function WeeklyTopic(topics: seq<string>, week: IsoWeek): (topic: string)
    requires |topics| > 0
    ensures topic in topics
    ensures topic == topics[TryIndex(week, 0, |topics|)]
  {
    topics[Mod(week, |topics|)]
  }

  /** The index of the topic tried at `offset`: `(starting_index + offset) % len(TOPICS)`. */
  function TryIndex(week: nat, offset: nat, n: nat): (i: nat)
    requires n > 0
    ensures i < n
  {
    Mod(Mod(week, n) + offset, n)
  }

  /** `TryIndex` is the index `main` computes with Python's `%`. */
  lemma TryIndexIsPythonIndex(week: nat, offset: nat, n: nat)
    requires n > 0
    ensures TryIndex(week, offset, n) == (week % n + offset) % n
  {
    ModIsRemainder(week, n);
    ModIsRemainder(week % n + offset, n);
  }

  /** The offset at which the fallback loop reaches topic `i`: the inverse
      of `TryIndex`, so every topic is tried. */
  function OffsetOf(week: nat, i: nat, n: nat): (k: nat)
    requires i < n
    ensures k < n && TryIndex(week, k, n) == i
  {
    var start := Mod(week, n);
    if start <= i then
      i - start
    else
      assert Mod(n + i, n) == Mod(i, n);
      n - start + i
  }

  /** The fallback loop tries every topic exactly once, starting with the
      weekly one: distinct offsets give distinct topics, and by `OffsetOf`
      every topic has an offset. */
  lemma RotationVisitsEachTopicOnce(week: nat, n: nat)
    requires n > 0
    ensures TryIndex(week, 0, n) == Mod(week, n)
    ensures forall k1, k2 :: 0 <= k1 < k2 < n ==> TryIndex(week, k1, n) != TryIndex(week, k2, n)
  {
    var start := Mod(week, n);
    forall k | 0 <= k < n
      ensures TryIndex(week, k, n) == if start + k < n then start + k else start + k - n
    {
      if start + k >= n {
        assert Mod(start + k, n) == Mod(start + k - n, n);
      }
    }
  }

  /** Every topic is the weekly topic of some ISO week, as long as the list
      is no longer than a year's weeks. */
  lemma EveryTopicHasAWeek(topics: seq<string>, i: nat)
    requires 0 <= i < |topics| <= 53
    ensures exists w: IsoWeek :: WeeklyTopic(topics, w) == topics[i]
  {
    var n := |topics|;
    var w: IsoWeek := if i == 0 then n else i;
    assert Mod(n, n) == Mod(0, n) == 0;
    assert WeeklyTopic(topics, w) == topics[i];
  }

  /** The rotation repeats every `len(TOPICS)` weeks. */
  lemma WeeklyTopicPeriodic(topics: seq<string>, w1: IsoWeek, w2: IsoWeek)
    requires |topics| > 0 && w2 == w1 + |topics|
    ensures WeeklyTopic(topics, w1) == WeeklyTopic(topics, w2)
  {
  }

  /** With the five configured topics, week 10 is the
      "Artificial Intelligence" week and week 13 the "Education" week. */
  lemma ConfiguredRotation()
    ensures WeeklyTopic(TOPICS, 10) == "Artificial Intelligence"
    ensures WeeklyTopic(TOPICS, 13) == "Education"
  {
    assert Mod(10, 5) == Mod(5, 5) == Mod(0, 5) == 0;
    assert Mod(13, 5) == Mod(8, 5) == Mod(3, 5) == 3;
  }

  /** The paper `get_valid_paper` returns, by recursion over the batch. */
  function FirstEligible(papers: seq<Paper>, posts: Option<seq<string>>): Option<Paper>
    requires WellKeyed(papers)
  {
    if papers == [] then
      None
    else if Eligible(papers[0], posts) then
      Some(papers[0])
    else
      FirstEligible(papers[1..], posts)
  }

  /** The selected paper is the first eligible one in fetch order, and
      there is none exactly when no paper is eligible. */
  lemma {:induction false} FirstEligibleIsFirst(papers: seq<Paper>, posts: Option<seq<string>>)
    requires WellKeyed(papers)
    ensures var r := FirstEligible(papers, posts);
      && (r.Some? ==> r.value in papers && Eligible(r.value, posts))
      && (r.Some? ==> exists i :: (0 <= i < |papers| && papers[i] == r.value
                        && forall j :: 0 <= j < i ==> !Eligible(papers[j], posts)))
      && (r.None? <==> forall i :: 0 <= i < |papers| ==> !Eligible(papers[i], posts))
  {
    if papers != [] && !Eligible(papers[0], posts) {
      FirstEligibleIsFirst(papers[1..], posts);
      var r := FirstEligible(papers[1..], posts);
      assert forall i :: 1 <= i < |papers| ==> papers[i] == papers[1..][i - 1];
      if r.Some? {
        var i :| 0 <= i < |papers[1..]| && papers[1..][i] == r.value
          && forall j :: 0 <= j < i ==> !Eligible(papers[1..][j], posts);
        assert papers[i + 1] == r.value;
      }
    }
  }

  /** Two fetched works, one with an abstract and doi "10.1/x", one without
      an abstract: with no posts directory the first is selected; once a
      post links to that doi, neither is. */
  lemma SelectionExample()
    ensures var w1 := Paper(Some("10.1/x"), Some("https://openalex.org/W1"), Some("hello world"), Some("T"), None);
            var w2 := Paper(None, Some("https://openalex.org/W2"), None, Some("U"), None);
            && FirstEligible([w1, w2], None) == Some(w1)
            && FirstEligible([w1, w2], Some(["see https://doi.org/10.1/x"])) == None
  {
    var w1 := Paper(Some("10.1/x"), Some("https://openalex.org/W1"), Some("hello world"), Some("T"), None);
    var w2 := Paper(None, Some("https://openalex.org/W2"), None, Some("U"), None);
    var post := "see https://doi.org/10.1/x";
    assert post[20..26] == "10.1/x";
    assert OccursAt(post, "10.1/x", 20);
    assert Contains(post, "10.1/x");
    assert post in [post];
    assert Published(Some([post]), DuplicateKey(w1));
    assert [w1, w2][1..] == [w2] && [w2][1..] == [];
    assert FirstEligible([w2], Some([post])) == FirstEligible([], Some([post]));
  }

  /** `get_valid_paper`, given the fetched batch. */
  method GetValidPaper(papers: seq<Paper>, posts: Option<seq<string>>) returns (r: Option<Paper>)
    requires WellKeyed(papers)
    ensures r == FirstEligible(papers, posts)
  {
    for i := 0 to |papers|
      invariant FirstEligible(papers[i..], posts) == FirstEligible(papers, posts)
    {
      var p := papers[i];
      assert papers[i..][1..] == papers[i + 1..];
      if Truthy(p.abstractText) {
        var published := AlreadyPublished(posts, DuplicateKey(p));
        if !published {
          return Some(p);
        }
      }
    }
    return None;
  }

  /** What the fallback loop of `main` emits when it reaches `offset`. */
  function FirstHit(topics: seq<string>, week: IsoWeek, batches: seq<seq<Paper>>,
                    posts: Option<seq<string>>, offset: nat): Option<(string, Paper)>
    requires |topics| > 0 && |batches| == |topics| && offset <= |topics|
    requires forall i :: 0 <= i < |batches| ==> WellKeyed(batches[i])
    decreases |topics| - offset
  {
    if offset == |topics| then
      None
    else
      var index := TryIndex(week, offset, |topics|);
      match FirstEligible(batches[index], posts)
      case Some(p) => Some((topics[index], p))
      case None => FirstHit(topics, week, batches, posts, offset + 1)
  }

  /** From `offset` on, the loop emits nothing iff no remaining topic's
      batch has an eligible paper. */
  lemma {:induction false} FirstHitNoneIffAllFail(topics: seq<string>, week: IsoWeek, batches: seq<seq<Paper>>,
                                                 posts: Option<seq<string>>, offset: nat)
    requires |topics| > 0 && |batches| == |topics| && offset <= |topics|
    requires forall i :: 0 <= i < |batches| ==> WellKeyed(batches[i])
    ensures FirstHit(topics, week, batches, posts, offset).None? <==>
      forall k :: offset <= k < |topics| ==> FirstEligible(batches[TryIndex(week, k, |topics|)], posts).None?
    decreases |topics| - offset
  {
    if offset < |topics| {
      FirstHitNoneIffAllFail(topics, week, batches, posts, offset + 1);
    }
  }

  /** When the loop emits something from `offset` on, it is the first
      remaining topic, in rotation order, whose batch has an eligible paper,
      together with that batch's first eligible paper. */
  lemma {:induction false} FirstHitIsFirstTopicWithPaper(topics: seq<string>, week: IsoWeek, batches: seq<seq<Paper>>,
                                                        posts: Option<seq<string>>, offset: nat)
    requires |topics| > 0 && |batches| == |topics| && offset <= |topics|
    requires forall i :: 0 <= i < |batches| ==> WellKeyed(batches[i])
    requires FirstHit(topics, week, batches, posts, offset).Some?
    ensures var found := FirstHit(topics, week, batches, posts, offset).value;
      exists k :: (offset <= k < |topics|
        && found.0 == topics[TryIndex(week, k, |topics|)]
        && FirstEligible(batches[TryIndex(week, k, |topics|)], posts) == Some(found.1)
        && forall j :: offset <= j < k ==> FirstEligible(batches[TryIndex(week, j, |topics|)], posts).None?)
    decreases |topics| - offset
  {
    var n := |topics|;
    var found := FirstHit(topics, week, batches, posts, offset).value;
    var here := FirstEligible(batches[TryIndex(week, offset, n)], posts);
    if here.Some? {
      assert found == (topics[TryIndex(week, offset, n)], here.value);
    } else {
      assert FirstHit(topics, week, batches, posts, offset + 1) == Some(found);
      FirstHitIsFirstTopicWithPaper(topics, week, batches, posts, offset + 1);
      var k :| offset + 1 <= k < n
        && found.0 == topics[TryIndex(week, k, n)]
        && FirstEligible(batches[TryIndex(week, k, n)], posts) == Some(found.1)
        && forall j :: offset + 1 <= j < k ==> FirstEligible(batches[TryIndex(week, j, n)], posts).None?;
      assert forall j :: offset <= j < k ==> FirstEligible(batches[TryIndex(week, j, n)], posts).None?;
    }
  }

  /** `main`: try the topics from the weekly one on, wrapping around, and
      emit the first topic and paper found; nothing when every topic fails. */
  method FindPaper(topics: seq<string>, week: IsoWeek, batches: seq<seq<Paper>>, posts: Option<seq<string>>)
    returns (found: Option<(string, Paper)>)
    requires |topics| > 0 && |batches| == |topics|
    requires forall i :: 0 <= i < |batches| ==> WellKeyed(batches[i])
    ensures found == FirstHit(topics, week, batches, posts, 0)
  {
    var n := |topics|;
    var start := week % n;
    for offset := 0 to n
      invariant FirstHit(topics, week, batches, posts, offset) == FirstHit(topics, week, batches, posts, 0)
    {
      var index := (start + offset) % n;
      TryIndexIsPythonIndex(week, offset, n);
      var paper := GetValidPaper(batches[index], posts);
      if paper.Some? {
        return Some((topics[index], paper.value));
      }
    }
    return None;
  }
}
