/**
 * The GDP comparators of the service and the stable sort that applies them
 * (Java's List.sort / Stream.sorted is a stable merge sort).
 */
module Ordering {
  import opened Wrappers
  import opened Entity

  /**
   * GdpAsc: by estimated GDP, ascending, with null GDPs after every value.
   * GdpDesc: that comparator reversed; on non-null values it is also the summary's descending order.
   */
  datatype Direction = GdpAsc | GdpDesc

  /** a <= b on optional GDPs, with null greater than every value. */
  predicate NullsLastLe(a: Option<real>, b: Option<real>)
  {
    b.None? || (a.Some? && a.value <= b.value)
  }

  /** x may stand before y: the comparator does not put y strictly before x. */
  predicate Precedes(dir: Direction, x: Country, y: Country)
  {
    match dir
    case GdpAsc => NullsLastLe(x.estimatedGdp, y.estimatedGdp)
    case GdpDesc => NullsLastLe(y.estimatedGdp, x.estimatedGdp)
  }

  /** Every pair of positions is in comparator order. */
  predicate Sorted(dir: Direction, s: seq<Country>)
  {
    forall i, j :: 0 <= i < j < |s| ==> Precedes(dir, s[i], s[j])
  }

  /** Both comparators are total preorders whose ties are exactly equal GDP values. */
  lemma PrecedesIsTotalPreorder(dir: Direction, x: Country, y: Country, z: Country)
    ensures Precedes(dir, x, x)
    ensures Precedes(dir, x, y) || Precedes(dir, y, x)
    ensures Precedes(dir, x, y) && Precedes(dir, y, z) ==> Precedes(dir, x, z)
    ensures Precedes(dir, x, y) && Precedes(dir, y, x) <==> x.estimatedGdp == y.estimatedGdp
  {
  }

  /** Inserts x before the first element it may precede, so after every element strictly smaller. */
  function Insert(dir: Direction, x: Country, s: seq<Country>): (r: seq<Country>)
    ensures multiset(r) == multiset(s) + multiset{x}
  {
    if s == [] then [x]
    else if Precedes(dir, x, s[0]) then [x] + s
    else
      assert s == [s[0]] + s[1..];
      [s[0]] + Insert(dir, x, s[1..])
  }

  /** Stable insertion sort: the head goes in front of every later element it ties with. */
  function Sort(dir: Direction, s: seq<Country>): (r: seq<Country>)
    ensures multiset(r) == multiset(s)
  {
    if s == [] then []
    else
      assert s == [s[0]] + s[1..];
      Insert(dir, s[0], Sort(dir, s[1..]))
  }

  /** The records of s whose estimated GDP is exactly `gdp`, in their order in s. */
  function WithGdp(s: seq<Country>, gdp: Option<real>): (r: seq<Country>)
    ensures forall c :: c in r ==> c in s && c.estimatedGdp == gdp
  {
    if s == [] then []
    else if s[0].estimatedGdp == gdp then [s[0]] + WithGdp(s[1..], gdp)
    else WithGdp(s[1..], gdp)
  }

  lemma SortedCons(dir: Direction, a: Country, s: seq<Country>)
    requires Sorted(dir, s)
    requires forall c :: c in s ==> Precedes(dir, a, c)
    ensures Sorted(dir, [a] + s)
  {
  }

  lemma {:induction false} InsertSorted(dir: Direction, x: Country, s: seq<Country>)
    requires Sorted(dir, s)
    ensures Sorted(dir, Insert(dir, x, s))
  {
    if s == [] {
    } else if Precedes(dir, x, s[0]) {
      forall c | c in s ensures Precedes(dir, x, c) {
        var j :| 0 <= j < |s| && s[j] == c;
        if j > 0 { PrecedesIsTotalPreorder(dir, x, s[0], c); }
      }
      SortedCons(dir, x, s);
    } else {
      var tail := s[1..];
      assert Sorted(dir, tail) by {
        forall i, j | 0 <= i < j < |tail| ensures Precedes(dir, tail[i], tail[j]) {
          assert tail[i] == s[i + 1] && tail[j] == s[j + 1];
        }
      }
      InsertSorted(dir, x, tail);
      var r := Insert(dir, x, tail);
      PrecedesIsTotalPreorder(dir, x, s[0], x);
      forall c | c in r ensures Precedes(dir, s[0], c) {
        assert c in multiset(r);
        if c != x {
          assert c in multiset(tail);
          var j :| 0 <= j < |tail| && tail[j] == c;
          assert s[j + 1] == c;
        }
      }
      SortedCons(dir, s[0], r);
    }
  }

  /** The sort's output is ordered by the comparator. */
  lemma {:induction false} SortSorted(dir: Direction, s: seq<Country>)
    ensures Sorted(dir, Sort(dir, s))
  {
    if s != [] {
      SortSorted(dir, s[1..]);
      InsertSorted(dir, s[0], Sort(dir, s[1..]));
    }
  }

  /** Inserting x leaves the order among the records of every GDP value as it was, with x first among its own. */
  lemma {:induction false} InsertKeepsTies(dir: Direction, x: Country, s: seq<Country>, gdp: Option<real>)
    ensures WithGdp(Insert(dir, x, s), gdp) ==
            if x.estimatedGdp == gdp then [x] + WithGdp(s, gdp) else WithGdp(s, gdp)
  {
    if s == [] {
    } else if Precedes(dir, x, s[0]) {
      assert ([x] + s)[1..] == s;
    } else {
      InsertKeepsTies(dir, x, s[1..], gdp);
      PrecedesIsTotalPreorder(dir, x, s[0], x);
      assert s[0].estimatedGdp != x.estimatedGdp;
      assert ([s[0]] + Insert(dir, x, s[1..]))[1..] == Insert(dir, x, s[1..]);
    }
  }

  /**
   * Stability: for every GDP value, the records carrying it keep their relative order.
   * Together with SortSorted and the multiset ensures this fixes the output uniquely,
   * so Sort computes what Java's stable sort computes.
   */
  lemma {:induction false} SortIsStable(dir: Direction, s: seq<Country>, gdp: Option<real>)
    ensures WithGdp(Sort(dir, s), gdp) == WithGdp(s, gdp)
  {
    if s != [] {
      SortIsStable(dir, s[1..], gdp);
      InsertKeepsTies(dir, s[0], Sort(dir, s[1..]), gdp);
    }
  }
}
