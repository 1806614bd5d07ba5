/** The nearest-colour lookup: a linear scan of the colour table for the row
    whose RGB triple is closest, in Manhattan distance, to a query pixel. */
module Matcher {
  import opened Wrappers

  datatype Rgb = Rgb(r: int, g: int, b: int)

  /** One row of the colour table, already projected onto the resolved
      name and channel columns. */
  datatype ColorEntry = ColorEntry(name: string, rgb: Rgb)

  function Abs(x: int): (a: nat)
    ensures a == x || a == -x
  {
    if x < 0 then -x else x
  }

  /** Manhattan (L1) distance between two RGB triples. It is zero exactly
      when the triples are equal. */
  function Distance(p: Rgb, q: Rgb): (d: nat)
    ensures d == 0 <==> p == q
  {
    Abs(p.r - q.r) + Abs(p.g - q.g) + Abs(p.b - q.b)
  }

  function Dist(table: seq<ColorEntry>, query: Rgb, j: int): nat
    requires 0 <= j < |table|
  {
    Distance(query, table[j].rgb)
  }

  /** Among the first `n` rows, row `k` has the smallest distance to `query`,
      and every row before it is strictly farther away. */
  predicate IsFirstNearest(table: seq<ColorEntry>, query: Rgb, n: int, k: int) {
    0 <= k < n <= |table| &&
    (forall j :: 0 <= j < n ==> Dist(table, query, k) <= Dist(table, query, j)) &&
    (forall j :: 0 <= j < k ==> Dist(table, query, k) < Dist(table, query, j))
  }

  /** At most one row is the first nearest one. */
  lemma FirstNearestUnique(table: seq<ColorEntry>, query: Rgb, n: int, k1: int, k2: int)
    requires IsFirstNearest(table, query, n, k1) && IsFirstNearest(table, query, n, k2)
    ensures k1 == k2
  {
    assert Dist(table, query, k1) == Dist(table, query, k2);
  }

  /** Reference definition of the row the lookup picks: the first row of
      minimal distance, found from the rows before the last one. */
  function FirstNearest(table: seq<ColorEntry>, query: Rgb): (k: nat)
    requires |table| > 0
    ensures IsFirstNearest(table, query, |table|, k)
  {
    if |table| == 1 then 0
    else
      var init := table[..|table| - 1];
      var k := FirstNearest(init, query);
      assert forall j :: 0 <= j < |init| ==> Dist(init, query, j) == Dist(table, query, j);
      if Distance(query, table[|table| - 1].rgb) < Distance(query, table[k].rgb) then |table| - 1 else k
  }

  /** The name the lookup reports: the first nearest row's name, or the
      empty string when the table has no rows. */
  function NearestName(table: seq<ColorEntry>, query: Rgb): string {
    if |table| == 0 then "" else table[FirstNearest(table, query)].name
  }

  /** The lookup: one pass over the rows keeping the smallest distance seen
      so far (`None` until the first row) and the name of the row that has it.
      A row replaces the current best only when it is strictly closer. */
  method ClosestColorName(R: int, G: int, B: int, table: seq<ColorEntry>) returns (name: string)
    ensures |table| == 0 ==> name == ""
    ensures |table| > 0 ==>
      exists k :: IsFirstNearest(table, Rgb(R, G, B), |table|, k) && name == table[k].name
    ensures name == NearestName(table, Rgb(R, G, B))
  {
    var query := Rgb(R, G, B);
    var minDist: Option<nat> := None;
    name := "";
    ghost var best := 0;
    for i := 0 to |table|
      invariant minDist.None? <==> i == 0
      invariant i == 0 ==> name == ""
      invariant i > 0 ==> IsFirstNearest(table, query, i, best)
      invariant i > 0 ==> minDist.value == Dist(table, query, best) && name == table[best].name
    {
      var d := Distance(query, table[i].rgb);
      if minDist.None? || d < minDist.value {
        minDist := Some(d);
        name := table[i].name;
        best := i;
      }
    }
    if |table| > 0 {
      FirstNearestUnique(table, query, |table|, best, FirstNearest(table, query));
    }
  }

  /** The lookup only reads its arguments: asking twice gives the same name. */
  method LookupTwice(R: int, G: int, B: int, table: seq<ColorEntry>) returns (first: string, second: string)
    ensures first == second
  {
    first := ClosestColorName(R, G, B, table);
    second := ClosestColorName(R, G, B, table);
  }

  /** If some row has exactly the query's colour, the reported row is at
      distance 0, at or before the first such row, and has that colour. */
  lemma ExactMatchFound(table: seq<ColorEntry>, query: Rgb, j: nat)
    requires j < |table| && table[j].rgb == query
    ensures FirstNearest(table, query) <= j
    ensures table[FirstNearest(table, query)].rgb == query
  {
    var k := FirstNearest(table, query);
    assert Dist(table, query, j) == 0;
    assert Dist(table, query, k) == 0;
  }

  /** A query of (250, 10, 5) against red and green picks red: distance 20
      against 500. */
  lemma RedBeatsGreen()
    ensures NearestName([ColorEntry("red", Rgb(255, 0, 0)), ColorEntry("green", Rgb(0, 255, 0))], Rgb(250, 10, 5)) == "red"
  {
    var t := [ColorEntry("red", Rgb(255, 0, 0)), ColorEntry("green", Rgb(0, 255, 0))];
    assert Dist(t, Rgb(250, 10, 5), 0) == 20;
    assert Dist(t, Rgb(250, 10, 5), 1) == 500;
  }

}
