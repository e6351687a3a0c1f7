/** getCountryByName and deleteCountryByName, as functions of the stored rows. */
module Lookup {
  import opened Wrappers
  import opened Text
  import opened Entity
  import opened Repository

  /** The record whose name matches ignoring case, or NotFound. */
  function GetCountryByName(rows: seq<Country>, name: string): (r: Result<Country>)
    ensures r.Err? <==> forall j :: 0 <= j < |rows| ==> !NameIs(rows[j], name)
    ensures r.Err? ==> r.error == NotFound
    ensures r.Ok? ==> r.value in rows && NameIs(r.value, name)
    ensures r.Ok? && UniqueNames(rows) ==>
              forall j :: 0 <= j < |rows| && NameIs(rows[j], name) ==> rows[j] == r.value
  {
    match FindIndexByName(rows, name)
    case None => Err(NotFound)
    case Some(k) =>
      assert UniqueNames(rows) ==> forall j :: 0 <= j < |rows| && NameIs(rows[j], name) ==> j == k by {
        if UniqueNames(rows) { UniqueMatch(rows, name, k); }
      }
      Ok(rows[k])
  }

  /**
   * The store after deleteCountryByName: NotFound when nothing matches, otherwise the store
   * with the matching record removed and every other record kept in order.
   */
  function DeletedByName(rows: seq<Country>, name: string): (r: Result<seq<Country>>)
    ensures r.Err? <==> forall j :: 0 <= j < |rows| ==> !NameIs(rows[j], name)
    ensures r.Err? ==> r.error == NotFound
    ensures r.Ok? ==> exists k :: 0 <= k < |rows| && NameIs(rows[k], name) && r.value == rows[..k] + rows[k + 1..]
  {
    match FindIndexByName(rows, name)
    case None => Err(NotFound)
    case Some(k) => Ok(rows[..k] + rows[k + 1..])
  }

  /**
   * With unique names, a deletion leaves no record of that name and keeps the names unique,
   * so a lookup of the deleted name then fails with NotFound.
   */
  lemma DeleteThenGet(rows: seq<Country>, name: string)
    requires UniqueNames(rows)
    requires DeletedByName(rows, name).Ok?
    ensures var rest := DeletedByName(rows, name).value;
            && |rest| == |rows| - 1
            && UniqueNames(rest)
            && GetCountryByName(rest, name) == Err(NotFound)
  {
  }
}
