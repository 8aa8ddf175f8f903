/** Query dispatch of a conversion run (kim.py:203-209): the query string
    chooses between all notes, the notes of one label and a free-text
    search. `QueryText` is the partner: it writes a query back as the string
    that selects it. */
module Query {
  import opened Wrappers

  /** The query that selects every note that is neither archived nor trashed. */
  const ALL_NOTES_QUERY: string := "--all"

  datatype Selection = AllNotes | ByLabel(name: string) | ByText(text: string)

  /** kim.py:203-209. An empty query has no first character to look at:
      `keepquery[0]` raises, modelled as `None`. */
  function Dispatch(q: string): (r: Option<Selection>)
    ensures r.None? <==> q == ""
    ensures r == Some(AllNotes) <==> q == ALL_NOTES_QUERY
    ensures forall n :: r == Some(ByLabel(n)) <==> q == "#" + n
    ensures r.Some? && r.value.ByText? <==> q != "" && q != ALL_NOTES_QUERY && q[0] != '#'
    ensures r.Some? && r.value.ByText? ==> r.value.text == q
  {
    assert forall n :: ("#" + n)[0] == '#';
    if q == ALL_NOTES_QUERY then Some(AllNotes)
    else if q == "" then None
    else if q[0] == '#' then
      assert q == "#" + q[1..];
      Some(ByLabel(q[1..]))
    else Some(ByText(q))
  }

  /** The string that selects a query. */
  function QueryText(s: Selection): string {
    match s
    case AllNotes => ALL_NOTES_QUERY
    case ByLabel(n) => "#" + n
    case ByText(t) => t
  }

  /** A free-text search is reachable only when it cannot be mistaken for
      the other two forms. */
  predicate Reachable(s: Selection) {
    s.ByText? ==> s.text != "" && s.text != ALL_NOTES_QUERY && s.text[0] != '#'
  }

  /** Every query the dispatcher accepts is written back as itself. */
  lemma DispatchThenText(q: string)
    requires q != ""
    ensures Dispatch(q).Some? && QueryText(Dispatch(q).value) == q
    ensures Reachable(Dispatch(q).value)
  {
  }

  /** Every reachable selection is dispatched from its own string. */
  lemma TextThenDispatch(s: Selection)
    requires Reachable(s)
    ensures Dispatch(QueryText(s)) == Some(s)
  {
    if s.ByLabel? {
      assert ("#" + s.name)[1..] == s.name;
    }
  }

  /** `#--all` names a label called `--all`, not every note. */
  lemma HashAllIsLabel()
    ensures Dispatch("#--all") == Some(ByLabel("--all"))
  {
    assert "#--all" == "#" + "--all";
  }
}
