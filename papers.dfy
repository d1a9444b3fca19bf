/** Values shared by the three scripts: the work records fetched from the
    catalogue and Python's notion of a "truthy" optional string. */
module Papers {

  datatype Option<+T> = None | Some(value: T)

  /** A work as the catalogue returns it. Every field may be absent from the
      JSON mapping; `None` stands for an absent key. */
  datatype Paper = Paper(
    doi: Option<string>,
    id: Option<string>,
    abstractText: Option<string>,
    title: Option<string>,
    publicationDate: Option<string>)

  /** Python truthiness of `d.get(key)` for a string field: present and non-empty. */
  predicate Truthy(s: Option<string>)
  {
    s.Some? && s.value != ""
  }

  /** The expression `doi or id` yields a string: the doi is non-empty or the id is present.
      Without it the scripts raise (KeyError on `p['id']`, TypeError on `None in text`). */
  predicate HasKey(p: Paper)
  {
    Truthy(p.doi) || p.id.Some?
  }

  /** Every paper whose abstract passes the first test of the filter can be keyed. */
  predicate WellKeyed(papers: seq<Paper>)
  {
    forall p :: p in papers ==> (Truthy(p.abstractText) ==> HasKey(p))
  }

  /** The duplicate-check key `doi or id`: the doi when it is non-empty, the id otherwise. */
  function DuplicateKey(p: Paper): (key: string)
    requires HasKey(p)
    ensures Some(key) == p.doi || Some(key) == p.id
    ensures Truthy(p.doi) <==> (Some(key) == p.doi && key != "")
    ensures !Truthy(p.doi) ==> Some(key) == p.id
  {
    if Truthy(p.doi) then p.doi.value else p.id.value
  }
}
