/** The repository queries the service relies on, as functions of the stored rows. */
module Repository {
  import opened Wrappers
  import opened Text
  import opened Entity

  /** The record's name equals `name` ignoring case. */
  predicate NameIs(c: Country, name: string)
  {
    EqualsIgnoreCase(c.name, name)
  }

  /**
   * findByNameIgnoreCase: the position of the first record whose name matches,
   * or None when no record matches.
   */
  function FindIndexByName(rows: seq<Country>, name: string): (r: Option<nat>)
    ensures r.Some? ==> r.value < |rows| && NameIs(rows[r.value], name)
    ensures r.Some? ==> forall j :: 0 <= j < r.value ==> !NameIs(rows[j], name)
    ensures r.None? <==> forall j :: 0 <= j < |rows| ==> !NameIs(rows[j], name)
  {
    if |rows| == 0 then None
    else if NameIs(rows[0], name) then Some(0)
    else
      match FindIndexByName(rows[1..], name)
      case None => None
      case Some(k) => Some(k + 1)
  }

  /** No two records have names that are equal ignoring case. */
  predicate UniqueNames(rows: seq<Country>)
  {
    forall i, j :: 0 <= i < j < |rows| ==> Lower(rows[i].name) != Lower(rows[j].name)
  }

  /** The folded names present in the store. */
  function Names(rows: seq<Country>): set<string>
  {
    set c | c in rows :: Lower(c.name)
  }

  /** With unique names, the record at `k` is the only one matching its name, so the lookup finds it. */
  lemma UniqueMatch(rows: seq<Country>, name: string, k: nat)
    requires UniqueNames(rows)
    requires k < |rows| && NameIs(rows[k], name)
    ensures FindIndexByName(rows, name) == Some(k)
    ensures forall j :: 0 <= j < |rows| && NameIs(rows[j], name) ==> j == k
  {
  }

  /** A name is found exactly when its folded form is among the stored names. */
  lemma FoundIffNamed(rows: seq<Country>, name: string)
    ensures FindIndexByName(rows, name).Some? <==> Lower(name) in Names(rows)
  {
  }
}
