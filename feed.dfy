/** The feed page (`Home`): every prompt newest first, or, with a search term
    `q`, the prompts whose title or description contains it, ignoring case. */
module Feed {
  import opened Rows
  import opened Text
  import opened Ordering

  /** `if (query)`: the term of the `.or(...)` filter, applied only when `q`
      is present and not the empty string. */
  function SearchTerm(q: Option<string>): (term: Option<string>)
    ensures term.Some? <==> q.Some? && q.value != ""
    ensures term.Some? ==> term.value == q.value
  {
    if q.Some? && q.value != "" then q else None
  }

  /** `title.ilike.%term%,description.ilike.%term%`: the title contains the
      term ignoring case, or the description is present and does; a missing
      description matches nothing. */
  predicate Admits(term: string, p: Prompt)
  {
    ILike(p.title, term) || (p.description.Some? && ILike(p.description.value, term))
  }

  /** The condition the query applies: every row without a term. */
  function Matches(term: Option<string>): Prompt -> bool
  {
    (p: Prompt) => term.None? || Admits(term.value, p)
  }

  /** The column the feed is ordered by. */
  function CreatedAt(p: Prompt): int
  {
    p.createdAt
  }

  /** `.select('*').order('created_at', desc)`, filtered when a term is given,
      over a scan of the `prompts` table: exactly the admitted rows, each as
      often as it is scanned, newest first. */
  function RunQuery(rows: seq<Prompt>, term: Option<string>): (r: seq<Prompt>)
    ensures forall p :: p in r <==> p in rows && (term.None? || Admits(term.value, p))
    ensures forall p :: term.None? || Admits(term.value, p) ==> multiset(r)[p] == multiset(rows)[p]
    ensures SortedDesc(r, CreatedAt)
  {
    var admitted := Filter(rows, Matches(term));
    FilterRows(rows, Matches(term));
    SortDescSameRows(admitted, CreatedAt);
    SortDesc(admitted, CreatedAt)
  }

  /** What the page renders. */
  datatype View =
    | LoadFailed
    | NothingFound
    | NoPromptsYet
    | Cards(prompts: seq<Prompt>)

  /** The page for search parameter `q`, given the table scan and the store's
      reply: the failure message on an error; on an empty result the apology
      when a term was applied and the empty-feed message otherwise; else one
      card per returned prompt, in result order. */
  function Home(q: Option<string>, rows: seq<Prompt>, reply: Reply): (v: View)
    ensures v.LoadFailed? <==> reply.Failed?
    ensures v.NothingFound? <==> reply.Ok? && RunQuery(rows, SearchTerm(q)) == [] && SearchTerm(q).Some?
    ensures v.NoPromptsYet? <==> reply.Ok? && RunQuery(rows, SearchTerm(q)) == [] && SearchTerm(q).None?
    ensures v.Cards? ==> v.prompts == RunQuery(rows, SearchTerm(q)) && v.prompts != []
  {
    if reply.Failed? then LoadFailed
    else
      var prompts := RunQuery(rows, SearchTerm(q));
      if prompts == [] then
        if SearchTerm(q).Some? then NothingFound else NoPromptsYet
      else Cards(prompts)
  }

  /** Without a term (no `q`, or an empty one) the feed is the whole table,
      newest first. */
  lemma {:induction false} NoTermShowsAll(q: Option<string>, rows: seq<Prompt>)
    requires q.None? || q.value == ""
    ensures multiset(RunQuery(rows, SearchTerm(q))) == multiset(rows)
    ensures |RunQuery(rows, SearchTerm(q))| == |rows|
  {
    var r := RunQuery(rows, SearchTerm(q));
    forall p ensures multiset(r)[p] == multiset(rows)[p] {
    }
    assert multiset(r) == multiset(rows);
    assert |multiset(r)| == |multiset(rows)|;
  }

  /** The empty-feed message means the table is empty, and the apology means
      that no prompt matches the term. */
  lemma {:induction false} EmptyViews(q: Option<string>, rows: seq<Prompt>)
    ensures Home(q, rows, Ok).NoPromptsYet? <==> (q.None? || q.value == "") && rows == []
    ensures Home(q, rows, Ok).NothingFound? <==>
      q.Some? && q.value != "" && forall p :: p in rows ==> !Admits(q.value, p)
  {
    var term := SearchTerm(q);
    var r := RunQuery(rows, term);
    if term.None? {
      NoTermShowsAll(q, rows);
    } else if r != [] {
      assert r[0] in r;
    }
  }

  /** A term admits the same prompts as its lower-case form: the search does
      not depend on the letter case of the term. */
  lemma {:induction false} AdmitsIgnoresCase(term: string, p: Prompt)
    ensures Admits(Lower(term), p) == Admits(term, p)
  {
    LowerIdempotent(term);
    ILikeIgnoresCase(p.title, term);
    ILikeIgnoresCase(p.title, Lower(term));
    if p.description.Some? {
      ILikeIgnoresCase(p.description.value, term);
      ILikeIgnoresCase(p.description.value, Lower(term));
    }
  }
}
