# AI research summaries: selection and post logic

A Dafny model of the logic underneath three automation scripts that publish
a weekly "AI paper of the week" post:

- `fetch_paper.py` picks this week's topic from a fixed list (ISO week number
  modulo the list length), fetches recent open-access papers for it, and keeps
  the first paper that has an abstract and is not already published; when a
  topic yields nothing it tries the following topics, wrapping around, each
  exactly once.
- `weekly_ai_summary.py` is meant to fetch papers for one fixed topic, keep
  every paper with an abstract that is not already published, pick one at
  random and write its post. As written it stops on loading: line 8 uses
  `Path` without importing it, which raises `NameError`. The model describes
  the script as it would run with `Path` imported.
- `summarize_and_publish.py` reads the (topic, paper) pair saved by
  `fetch_paper.py` and writes its post, unless the file is missing or the
  paper has no abstract.

"Already published" is a substring search of the paper's key (`doi or id`)
over the texts of the `.qmd` files in the posts directory. A post's file is
`<posts dir>/<date>-ai-summary.qmd`; its link is `https://doi.org/<doi>` when
the doi is non-empty, otherwise the id with every `https://openalex.org/`
replaced by `https://doi.org/`.

Modules: `Papers` (the work record, Python truthiness, the duplicate key),
`Text` (substring containment and `str.replace`), `Ledger` (the duplicate
check, shared by two scripts), `Posts` (`create_post`, shared by two
scripts), and one module per script: `FetchPaper`, `WeeklySummary`,
`SummarizeAndPublish`.

The scans and loops of the scripts are methods proved against specification
functions: `Ledger.AlreadyPublished` against `Ledger.Published`,
`FetchPaper.GetValidPaper` against `FetchPaper.FirstEligible`, and
`FetchPaper.FindPaper` against `FetchPaper.FirstHit`.

The main cross-script result is `SummarizeAndPublish.DoiPostBlocksRepublication`.
A post for a paper with a non-empty doi contains that doi. So once that post
is in the posts directory, whatever else is there, the duplicate check finds
the paper and no later fetch selects it. The same claim is false for a paper
known only by its catalogue id: the post links to the rewritten doi.org URL,
which is shorter than the id and so never contains it. `Posts.OpenAlexIdRewritten`
and `SummarizeAndPublish.IdOnlyLinkMissesKey` prove this for the link. Whether
some other part of the post (title, summaries) happens to contain the id is
left open.

Three facts about the scripts shape the model:
- they read a plain `abstract` field, with no inverted-index decoding;
- the duplicate check matches only the doi/id key, never the title;
- a read error on a post file is not caught, so it ends the run (not
  modelled, see below).

## Model

| member | source | states |
|---|---|---|
| `Papers.DuplicateKey` | fetch_paper.py:53 | The key is the doi exactly when the doi is non-empty, and the id otherwise, including when the doi is the empty string (Python `doi or id`). |
| `Text.Contains` | fetch_paper.py:33 | Python's `k in s`: `k` occurs at some position of `s`. A text contains nothing longer than itself. |
| `Ledger.Eligible` | fetch_paper.py:53-54 | The filter of both scripts: a non-empty abstract and an unpublished key. Without a posts directory, or with an empty one, exactly the papers with an abstract pass. |
| `Ledger.AlreadyPublished` | fetch_paper.py:29-35 | Returns false when the posts directory is absent; otherwise true iff some post text contains the key as a substring. The same function is weekly_ai_summary.py:48-56. |
| `Ledger.PublishedOrderIndependent` | weekly_ai_summary.py:51-56 | The verdict does not depend on the order in which the post files are listed. |
| `Ledger.PublishedPersists` | summarize_and_publish.py:51-53 | Appending a post file keeps every key found before, and a key in the new post is found, even if the directory did not exist before. |
| `FetchPaper.ModIsRemainder` | fetch_paper.py:26 | The rotation's `Mod`, defined by repeated subtraction, equals Python's `%` on non-negative operands. |
| `FetchPaper.WeeklyTopic` | fetch_paper.py:24-26 | The weekly topic is an element of the topic list, and it is the first topic the fallback loop of `main` tries. |
| `FetchPaper.EveryTopicHasAWeek` | fetch_paper.py:24-26 | With at most 53 topics, every topic is the weekly topic of some ISO week. |
| `FetchPaper.WeeklyTopicPeriodic` | fetch_paper.py:25-26 | The rotation repeats every `len(TOPICS)` weeks. |
| `FetchPaper.ConfiguredRotation` | fetch_paper.py:12-26 | With the five configured topics, week 10 gives "Artificial Intelligence" and week 13 gives "Education". |
| `FetchPaper.TryIndex` | fetch_paper.py:59-61 | The topic index tried at each offset is a valid index of the list. |
| `FetchPaper.OffsetOf` | fetch_paper.py:59-61 | Every topic index is reached at some offset below the list length: the loop tries every topic. |
| `FetchPaper.RotationVisitsEachTopicOnce` | fetch_paper.py:59-61 | The first topic tried is the weekly one, and distinct offsets try distinct topics, so no topic is tried twice. |
| `FetchPaper.FirstEligibleIsFirst` | fetch_paper.py:50-56 | The selected paper is in the batch, has a non-empty abstract, and its key is not published. Every earlier paper is ineligible. There is no result exactly when no paper is eligible. |
| `FetchPaper.SelectionExample` | fetch_paper.py:50-56 | Of a paper with abstract and doi "10.1/x" and a paper without abstract, the first is selected with no posts directory, and neither once a post mentions "10.1/x". |
| `FetchPaper.GetValidPaper` | fetch_paper.py:50-56 | The linear scan with early return selects exactly `FirstEligible` of the batch: the first eligible paper, or none. |
| `FetchPaper.TryIndexIsPythonIndex` | fetch_paper.py:59-61 | The index `main` computes with `%` is the rotation index `TryIndex`. |
| `FetchPaper.FirstHitNoneIffAllFail` | fetch_paper.py:60-71 | From a given offset on, the loop emits nothing iff no remaining topic's batch has an eligible paper. |
| `FetchPaper.FirstHitIsFirstTopicWithPaper` | fetch_paper.py:60-71 | When the loop emits something, it is the first remaining topic in rotation order whose batch has an eligible paper, together with that batch's first eligible paper. |
| `FetchPaper.FindPaper` | fetch_paper.py:58-71 | The loop over offsets with early return emits exactly `FirstHit` from offset 0. So it emits nothing iff every topic fails, and otherwise the first topic in rotation order that yields a paper, together with that paper. |
| `Text.ReplaceAllAbsent` | weekly_ai_summary.py:67 | `str.replace` leaves a text without the pattern unchanged. |
| `Text.ReplaceAll` | weekly_ai_summary.py:67 | Python's `str.replace`, every non-overlapping occurrence from the left: a replacement no longer than the pattern never lengthens the text. |
| `Text.ReplaceAllKeepsPrefix` | weekly_ai_summary.py:67 | Before the first replacement, `str.replace` copies the text: a prefix of the output that avoids the replacement's first character is a prefix of the input. |
| `Text.ReplaceAllRemovesPattern` | weekly_ai_summary.py:67 | When the pattern and its replacement cannot overlap, no occurrence of the pattern is left in the output. |
| `Posts.PrefixesCannotOverlap` | summarize_and_publish.py:26 | Rewriting `https://openalex.org/` to `https://doi.org/` leaves no `https://openalex.org/` anywhere in the result. |
| `Posts.PostUrl` | summarize_and_publish.py:25-26 | With a non-empty doi the link is `https://doi.org/` followed by exactly the doi. Without one, the link is no longer than the id, contains no `https://openalex.org/` (every occurrence rewritten), and equals the id when the id has none. |
| `Posts.OpenAlexIdRewritten` | weekly_ai_summary.py:63-67 | For an id-only paper with id `https://openalex.org/<rest>`, the link is `https://doi.org/` followed by `<rest>` with every further prefix replaced. The link does not contain the id. |
| `Posts.PostPath` | summarize_and_publish.py:22-23 | The post file is `<posts dir>/<date>-ai-summary.qmd`: it starts with the posts directory and the date, and what follows the date is exactly the `-ai-summary` slug suffix and `.qmd`. |
| `Posts.PostPathPerDate` | summarize_and_publish.py:52 | Two runs target the same post file iff they run on the same date. |
| `Posts.PublishedLabel` | summarize_and_publish.py:38 | `paper.get('publication_date', 'unknown')`: the date when present; the label reads `unknown` exactly when the date is absent or is that word. |
| `Posts.PostText` | summarize_and_publish.py:28-53 | The template pieces (`PostParts`) joined and stripped: the text opens with the front matter's title line and ends with the read-the-paper link. |
| `Posts.PostMentions` | summarize_and_publish.py:28-49 | The post text contains the title, the link, the topic, the date and both summaries. It contains `**Published**: ` followed by the publication date, or by `unknown` when the paper has none. |
| `Posts.CreatePost` | summarize_and_publish.py:21-53 | The post is written to the dated path, and its text mentions the title, link, topic, date, summaries and publication date. |
| `WeeklySummary.ValidPapers` | weekly_ai_summary.py:105-108 | The kept papers are the fetched ones in the same order. Each eligible paper is kept as often as it was fetched, and no ineligible paper is kept. |
| `WeeklySummary.PublishWeekly` | weekly_ai_summary.py:97-118 | No post when the batch is empty or no paper is eligible. Otherwise a paper is chosen from the kept ones, so it has an abstract and is not published. The post is that paper's post under the fixed topic and today's date. Only kept papers need a title. |
| `SummarizeAndPublish.Publish` | summarize_and_publish.py:56-73 | No post iff the input file is missing or the paper's abstract is absent or empty. Otherwise the post is at the dated path and mentions the title, the link and the topic. |
| `SummarizeAndPublish.DoiPostBlocksRepublication` | summarize_and_publish.py:25-48 | Once a post for a paper with a non-empty doi is in the posts directory, the duplicate check on its doi succeeds. The paper is then not eligible, and the next fetch never selects it. |
| `SummarizeAndPublish.IdOnlyLinkMissesKey` | summarize_and_publish.py:26 | For an id-only paper the link is a doi.org link that does not contain the key the duplicate check searches for. |

## Left out

- HTTP fetching (`fetch_papers_for_topic`, `fetch_recent_open_access_papers`): network I/O. The fetched batch is an input sequence (one per topic in `FetchPaper.FindPaper`).
- `get_from_date`: calendar arithmetic that only feeds the request URL.
- The summarization and simplification models (`summarize_and_simplify`): opaque; a parameter mapping an abstract to its two summaries.
- Today's date and ISO week: parameters.
- File-system effects: `mkdir`, `write_text`, `json.dump`/`json.load`, `glob` and the diagnostic prints. Post texts are inputs, and written posts and saved pairs are return values.
- `Ledger.PublishedPersists`: covers appending a post file only. `write_text` on `<posts dir>/<date>-ai-summary.qmd` replaces an earlier post of the same date, and a key found only in the replaced post is then no longer found.
- Replacing an existing post of the same date is not modelled as a change of the posts directory. `Posts.PostPathPerDate` shows that it happens. `SummarizeAndPublish.DoiPostBlocksRepublication` only needs the new post to be among the files, so it holds either way.
- Read errors on post files: the scripts let them end the run; the model has no I/O errors.
- `publish_to_blog.py`: picking the newest file by modification time and copying it are file-system operations only.
- The distribution of `random.choice`: only membership of the chosen paper is modelled.
- Crash paths become preconditions: a paper with an abstract must have a non-empty doi or an id (`KeyError` on `p['id']`, `TypeError` on `None in text`), and the posted paper must have a title (`KeyError` on `paper['title']`). An empty topic list (`ZeroDivisionError`) is excluded the same way.
- `FetchPaper.GetValidPaper`, `FetchPaper.FindPaper`: the keyed-paper precondition also excludes a run of fetch_paper.py that does not crash. There `p.get('doi') or p.get('id')` never raises, and `already_published(None)` returns False when the posts directory is absent or holds no `.qmd` file, so a paper with an abstract and no key is selected and saved. summarize_and_publish.py then fails on `paper['id']`.
- `FetchPaper.FindPaper`: after the JSON file is written, fetch_paper.py prints `paper['title']`, which raises `KeyError` for an untitled paper. The saved pair is the one the model returns, so only the exit status differs.
- `WeeklySummary.PublishWeekly`: models `weekly_ai_summary.py` as it would run with `Path` imported. As written, line 8 calls `Path` without the import and raises `NameError` on loading, so the script does nothing. It also assigns `POSTS_DIR` twice; the posts directory is a parameter of the model.
- Absent JSON keys and JSON `null` values are both `None`. For a `null` publication date the scripts print `None` where the model prints `unknown`; a `null` title is excluded with the missing one.
- Python `strip()` is modelled by its effect on this template (it removes the leading and trailing newline), not in general.
- The inverted-index abstract decoder and title-based duplicate matching are not implemented by the scripts, so they are not modelled.
