/** The duplicate check `already_published`, which both fetch_paper.py and
    weekly_ai_summary.py define identically: the posts directory is the
    "ledger" of everything published so far. The directory is
    `None` when it does not exist, and otherwise holds the texts of its
    `.qmd` files in the unspecified order `glob` yields them. */
module Ledger {
  import opened Papers
  import opened Text

  /** Some post text contains `key` as a substring. */
  predicate Published(posts: Option<seq<string>>, key: string)
  {
    posts.Some? && exists t | t in posts.value :: Contains(t, key)
  }

  /** The filter both scripts apply to a fetched paper: a non-empty abstract
      and a key that no post mentions yet. `&&` short-circuits as in Python,
      so the key is only needed for papers with an abstract. Without a
      posts directory, or with no post in it, every paper with an abstract
      is eligible. */
  predicate Eligible(p: Paper, posts: Option<seq<string>>)
    requires Truthy(p.abstractText) ==> HasKey(p)
    ensures posts.None? || posts == Some([]) ==> (Eligible(p, posts) <==> Truthy(p.abstractText))
  {
    Truthy(p.abstractText) && !Published(posts, DuplicateKey(p))
  }

  /** `already_published`: scans the post texts and stops at the first hit. */
  method AlreadyPublished(posts: Option<seq<string>>, key: string) returns (found: bool)
    ensures posts.None? ==> !found
    ensures found <==> Published(posts, key)
  {
    if posts.None? {
      return false;
    }
    var texts := posts.value;
    for i := 0 to |texts|
      invariant forall j :: 0 <= j < i ==> !Contains(texts[j], key)
    {
      if Contains(texts[i], key) {
        return true;
      }
    }
    return false;
  }

  /** The verdict does not depend on the order in which the files are listed. */
  lemma PublishedOrderIndependent(a: seq<string>, b: seq<string>, key: string)
    requires multiset(a) == multiset(b)
    ensures Published(Some(a), key) <==> Published(Some(b), key)
  {
    if Published(Some(a), key) {
      var t :| t in a && Contains(t, key);
      assert t in multiset(b);
    }
    if Published(Some(b), key) {
      var t :| t in b && Contains(t, key);
      assert t in multiset(a);
    }
  }

  /** Appending a post file keeps every key found before, and makes a key
      the new post mentions found, even in a directory that did not exist.
      A post that replaces an earlier one of the same date is not an append. */
  lemma PublishedPersists(posts: Option<seq<string>>, text: string, key: string)
    requires Published(posts, key) || Contains(text, key)
    ensures Published(Some(if posts.Some? then posts.value + [text] else [text]), key)
  {
  }
}
