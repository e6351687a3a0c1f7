/** getStatus: the record count and the latest refresh time. */
module StatusReport {
  import opened Wrappers
  import opened Entity

  datatype Status = Status(totalCountries: nat, lastRefreshedAt: Option<Timestamp>)

  /** The latest refresh time: the largest non-null time of any record, if there is one. */
  function LatestRefresh(rows: seq<Country>): (r: Option<Timestamp>)
    ensures r.None? <==> forall i :: 0 <= i < |rows| ==> rows[i].lastRefreshedAt.None?
    ensures r.Some? ==> exists i :: 0 <= i < |rows| && rows[i].lastRefreshedAt == r
    ensures r.Some? ==> forall i :: 0 <= i < |rows| && rows[i].lastRefreshedAt.Some? ==>
                                      rows[i].lastRefreshedAt.value <= r.value
  {
    if rows == [] then None
    else
      var rest := LatestRefresh(rows[1..]);
      assert forall i :: 1 <= i < |rows| ==> rows[i] == rows[1..][i - 1];
      match rows[0].lastRefreshedAt
      case None => rest
      case Some(t) =>
        if rest.Some? && t <= rest.value then rest else Some(t)
  }

  /**
   * The total is the store's size; the time is the maximum of the non-null refresh times,
   * and absent exactly when the store is empty or no record has one.
   */
  function GetStatus(rows: seq<Country>): (s: Status)
    ensures s.totalCountries == |rows|
    ensures s.lastRefreshedAt.None? <==> |rows| == 0 || forall i :: 0 <= i < |rows| ==> rows[i].lastRefreshedAt.None?
    ensures s.lastRefreshedAt.Some? ==>
              (exists i :: 0 <= i < |rows| && rows[i].lastRefreshedAt == s.lastRefreshedAt) &&
              forall i :: 0 <= i < |rows| && rows[i].lastRefreshedAt.Some? ==>
                            rows[i].lastRefreshedAt.value <= s.lastRefreshedAt.value
  {
    Status(|rows|, LatestRefresh(rows))
  }
}
