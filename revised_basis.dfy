/** Reading a final tableau in Algorithms/RevisedSimplex.cs: the value of a
    column that is a unit column (ExtractSolution), the columns whose entries
    sum to 1 (the basic-variable spots of DoPreliminaries), their stable order
    by the row of their 1 and the objective coefficients of the basis. */
module RevisedBasis {
  import opened Common

  type Table = seq<seq<real>>

  /** The tolerance of the unit-column tests (1e-10). */
  const UnitTol: real := 0.0000000001

  // ---------------------------------------------------------------------
  // ExtractSolution (RevisedSimplex.cs:748-789)

  /** Row r (below the z-row) holds 1 in column c and every other row, the
      z-row included, holds 0 there, both up to the tolerance. */
  predicate UnitAt(T: Table, r: nat, c: nat)
    requires forall q :: 0 <= q < |T| ==> c < |T[q]|
  {
    1 <= r < |T| && Abs(T[r][c] - 1.0) < UnitTol
    && forall q :: 0 <= q < |T| && q != r ==> Abs(T[q][c]) <= UnitTol
  }

  /** The first row at or after from where column c is a unit column. */
  function FirstUnitRow(T: Table, c: nat, from: nat): (r: Option<nat>)
    requires forall q :: 0 <= q < |T| ==> c < |T[q]|
    ensures r.Some? ==> from <= r.value && UnitAt(T, r.value, c)
    ensures r.None? <==> forall q :: from <= q < |T| ==> !UnitAt(T, q, c)
    decreases |T| - from
  {
    if from >= |T| then None
    else if UnitAt(T, from, c) then Some(from)
    else FirstUnitRow(T, c, from + 1)
  }

  /** A column is a unit column in at most one row. */
  lemma UnitRowUnique(T: Table, c: nat, r1: nat, r2: nat)
    requires forall q :: 0 <= q < |T| ==> c < |T[q]|
    requires UnitAt(T, r1, c) && UnitAt(T, r2, c)
    ensures r1 == r2
  {
  }

  /** The value ExtractSolution gives column c: the RHS of its unit row, else 0. */
  function ColumnValue(T: Table, c: nat): real
    requires forall q :: 0 <= q < |T| ==> c < |T[q]|
  {
    match FirstUnitRow(T, c, 1)
    case None => 0.0
    case Some(r) => T[r][|T[r]| - 1]
  }

  /** The value of a column is the RHS of the one row where it is a unit
      column, and 0 when there is no such row. */
  lemma ColumnValueSpec(T: Table, c: nat)
    requires forall q :: 0 <= q < |T| ==> c < |T[q]|
    ensures forall r :: 0 <= r < |T| && UnitAt(T, r, c) ==> ColumnValue(T, c) == T[r][|T[r]| - 1]
    ensures (forall r :: 0 <= r < |T| ==> !UnitAt(T, r, c)) ==> ColumnValue(T, c) == 0.0
  {
    forall r | 0 <= r < |T| && UnitAt(T, r, c) ensures ColumnValue(T, c) == T[r][|T[r]| - 1] {
      var f := FirstUnitRow(T, c, 1);
      assert f.Some?;
      UnitRowUnique(T, c, f.value, r);
    }
  }

  /** The values of the first k columns, the columns headed "Z" left out. */
  function Extracted(T: Table, headers: seq<string>, k: nat): (s: seq<real>)
    requires k <= |headers| && forall q :: 0 <= q < |T| ==> k <= |T[q]|
  {
    if k == 0 then []
    else Extracted(T, headers, k - 1) + (if headers[k - 1] == "Z" then [] else [ColumnValue(T, k - 1)])
  }

  /** The number of columns among the first k not headed "Z". */
  function CountNamed(headers: seq<string>, k: nat): nat
    requires k <= |headers|
  {
    if k == 0 then 0 else CountNamed(headers, k - 1) + (if headers[k - 1] == "Z" then 0 else 1)
  }

  /** One value per column not headed "Z": the q-th value belongs to the q-th such column. */
  lemma {:induction false} ExtractedAt(T: Table, headers: seq<string>, k: nat, c: nat)
    requires k <= |headers| && forall q :: 0 <= q < |T| ==> k <= |T[q]|
    requires c < k && headers[c] != "Z"
    ensures |Extracted(T, headers, k)| == CountNamed(headers, k)
    ensures CountNamed(headers, c) < CountNamed(headers, k)
    ensures Extracted(T, headers, k)[CountNamed(headers, c)] == ColumnValue(T, c)
  {
    ExtractedLength(T, headers, k);
    if c < k - 1 {
      ExtractedAt(T, headers, k - 1, c);
    } else {
      ExtractedLength(T, headers, c);
    }
  }

  lemma {:induction false} ExtractedLength(T: Table, headers: seq<string>, k: nat)
    requires k <= |headers| && forall q :: 0 <= q < |T| ==> k <= |T[q]|
    ensures |Extracted(T, headers, k)| == CountNamed(headers, k)
  {
    if k > 0 {
      ExtractedLength(T, headers, k - 1);
    }
  }

  // ---------------------------------------------------------------------
  // The basic-variable spots of DoPreliminaries (RevisedSimplex.cs:547-597)

  /** The column entries of column k sum to 1 up to the tolerance. */
  predicate SumsToOne(L: Table, k: nat)
    requires forall q :: 0 <= q < |L| ==> k < |L[q]|
  {
    Abs(Sum(Column(L, k)) - 1.0) < UnitTol
  }

  /** The columns below k whose entries sum to 1, in increasing order. */
  function SpotsBelow(L: Table, k: nat): (s: seq<nat>)
    requires forall q :: 0 <= q < |L| ==> k <= |L[q]|
    ensures forall i :: 0 <= i < |s| ==> s[i] < k
    ensures forall i, j :: 0 <= i < j < |s| ==> s[i] < s[j]
  {
    if k == 0 then [] else SpotsBelow(L, k - 1) + (if SumsToOne(L, k - 1) then [k - 1] else [])
  }

  /** A column is a spot exactly when its entries sum to 1. */
  lemma {:induction false} SpotsBelowSpec(L: Table, k: nat)
    requires forall q :: 0 <= q < |L| ==> k <= |L[q]|
    ensures forall c: nat :: c in SpotsBelow(L, k) <==> c < k && SumsToOne(L, c)
  {
    if k > 0 {
      SpotsBelowSpec(L, k - 1);
    }
  }

  /** The row of a column's first exact 1, or the column's length without one
      (the key of the OrderBy). */
  function OneKey(col: seq<real>): (key: nat)
    ensures key <= |col|
  {
    var i := IndexOf(col, 1.0);
    if i >= 0 then i else |col|
  }

  /** A basic column with its spot. */
  datatype Spot = Spot(col: seq<real>, spot: nat)

  predicate KeyLe(a: Spot, b: Spot) {
    OneKey(a.col) <= OneKey(b.col)
  }

  /** p placed before the first element whose key is not below p's. */
  function Insert(p: Spot, s: seq<Spot>): (r: seq<Spot>)
    ensures multiset(r) == multiset(s) + multiset{p}
  {
    if |s| == 0 then [p]
    else if KeyLe(p, s[0]) then [p] + s
    else
      assert s == [s[0]] + s[1..];
      [s[0]] + Insert(p, s[1..])
  }

  lemma InsertMember(p: Spot, s: seq<Spot>, x: Spot)
    requires x in Insert(p, s)
    ensures x == p || x in s
  {
    assert x in multiset(Insert(p, s));
  }

  /** Enumerable.OrderBy on the key OneKey: a stable sort. */
  function OrderByKey(s: seq<Spot>): (r: seq<Spot>)
    ensures multiset(r) == multiset(s)
  {
    if |s| == 0 then []
    else
      assert s == [s[0]] + s[1..];
      Insert(s[0], OrderByKey(s[1..]))
  }

  /** a comes before b: a smaller key, or the same key and a smaller spot. */
  predicate Precedes(a: Spot, b: Spot) {
    OneKey(a.col) < OneKey(b.col) || (OneKey(a.col) == OneKey(b.col) && a.spot < b.spot)
  }

  /** Keys in order, and spots in order among equal keys. */
  predicate KeySorted(s: seq<Spot>) {
    forall i, j :: 0 <= i < j < |s| ==> Precedes(s[i], s[j])
  }

  predicate SpotsIncreasing(s: seq<Spot>) {
    forall i, j :: 0 <= i < j < |s| ==> s[i].spot < s[j].spot
  }

  lemma ConsSorted(a: Spot, t: seq<Spot>)
    requires KeySorted(t) && forall x :: x in t ==> Precedes(a, x)
    ensures KeySorted([a] + t)
  {
    var r := [a] + t;
    forall i, j | 0 <= i < j < |r| ensures Precedes(r[i], r[j]) {
      if i == 0 {
        assert r[j] == t[j - 1] && t[j - 1] in t;
      } else {
        assert r[i] == t[i - 1] && r[j] == t[j - 1];
      }
    }
  }

  lemma {:induction false} InsertSorted(p: Spot, s: seq<Spot>)
    requires KeySorted(s) && forall i :: 0 <= i < |s| ==> p.spot < s[i].spot
    ensures KeySorted(Insert(p, s))
  {
    if |s| == 0 {
    } else if KeyLe(p, s[0]) {
      forall x | x in s ensures Precedes(p, x) {
        var i :| 0 <= i < |s| && s[i] == x;
        assert i == 0 || Precedes(s[0], s[i]);
      }
      ConsSorted(p, s);
    } else {
      InsertSorted(p, s[1..]);
      var t := Insert(p, s[1..]);
      forall x | x in t ensures Precedes(s[0], x) {
        InsertMember(p, s[1..], x);
        if x != p {
          var i :| 0 <= i < |s[1..]| && s[1..][i] == x;
          assert Precedes(s[0], s[i + 1]);
        }
      }
      ConsSorted(s[0], t);
    }
  }

  /** Sorting spots that come in increasing order gives the order by key,
      ties left in spot order: the result of the stable OrderBy. */
  lemma {:induction false} OrderByKeySorted(s: seq<Spot>)
    requires SpotsIncreasing(s)
    ensures KeySorted(OrderByKey(s))
  {
    if |s| > 0 {
      OrderByKeySorted(s[1..]);
      var t := OrderByKey(s[1..]);
      forall i | 0 <= i < |t| ensures s[0].spot < t[i].spot {
        assert t[i] in multiset(s[1..]);
      }
      InsertSorted(s[0], t);
    }
  }

  /** The basic columns zipped with their spots. */
  function Zipped(L: Table, spots: seq<nat>): (z: seq<Spot>)
    requires forall i :: 0 <= i < |spots| ==> forall q :: 0 <= q < |L| ==> spots[i] < |L[q]|
    ensures |z| == |spots|
  {
    seq(|spots|, i requires 0 <= i < |spots| => Spot(Column(L, spots[i]), spots[i]))
  }

  function Spots(s: seq<Spot>): (r: seq<nat>)
    ensures |r| == |s| && forall i :: 0 <= i < |s| ==> r[i] == s[i].spot
  {
    seq(|s|, i requires 0 <= i < |s| => s[i].spot)
  }

  /** x is a column of L below w that sums to 1, paired with its index. */
  predicate BasicSpot(L: Table, w: nat, x: Spot)
    requires forall q :: 0 <= q < |L| ==> w <= |L[q]|
  {
    x.spot < w && SumsToOne(L, x.spot) && x.col == Column(L, x.spot)
  }

  lemma ZippedSpec(L: Table, w: nat)
    requires forall q :: 0 <= q < |L| ==> w <= |L[q]|
    ensures var z := Zipped(L, SpotsBelow(L, w));
      SpotsIncreasing(z) && forall x :: x in z <==> BasicSpot(L, w, x)
  {
    var spots := SpotsBelow(L, w);
    var z := Zipped(L, spots);
    SpotsBelowSpec(L, w);
    forall x ensures x in z <==> BasicSpot(L, w, x) {
      if BasicSpot(L, w, x) {
        var i :| 0 <= i < |spots| && spots[i] == x.spot;
        assert z[i] == x;
      }
    }
  }

  /** The reordered spots are the columns summing to 1, each once with its
      column, ordered by the row of their first exact 1 with ties in column order. */
  lemma SortedSpotsSpec(L: Table, w: nat)
    requires forall q :: 0 <= q < |L| ==> w <= |L[q]|
    ensures var s := OrderByKey(Zipped(L, SpotsBelow(L, w)));
      (forall x :: x in s <==> BasicSpot(L, w, x))
      && (forall i, j :: 0 <= i < j < |s| ==> s[i].spot != s[j].spot)
      && KeySorted(s)
  {
    var z := Zipped(L, SpotsBelow(L, w));
    var s := OrderByKey(z);
    ZippedSpec(L, w);
    OrderByKeySorted(z);
    assert forall x :: x in s <==> x in multiset(z);
    SpotsDistinct(L, w, s);
  }

  /** Sorted basic spots never repeat a column: equal spots carry equal columns and keys. */
  lemma SpotsDistinct(L: Table, w: nat, s: seq<Spot>)
    requires forall q :: 0 <= q < |L| ==> w <= |L[q]|
    requires KeySorted(s) && forall x :: x in s ==> BasicSpot(L, w, x)
    ensures forall i, j :: 0 <= i < j < |s| ==> s[i].spot != s[j].spot
  {
    forall i, j | 0 <= i < j < |s| ensures s[i].spot != s[j].spot {
      assert s[i] in s && s[j] in s;
    }
  }

  /** The basic-variable spots of DoPreliminaries after the OrderBy. */
  function SortedSpots(L: Table, w: nat): (r: seq<nat>)
    requires forall q :: 0 <= q < |L| ==> w <= |L[q]|
    ensures forall i :: 0 <= i < |r| ==> r[i] < w
  {
    var s := OrderByKey(Zipped(L, SpotsBelow(L, w)));
    SortedSpotsSpec(L, w);
    assert forall i :: 0 <= i < |s| ==> s[i] in s;
    Spots(s)
  }

  /** cbv: each spot's objective entry in the first tableau with its sign restored. */
  function CostsOfBasis(first: Table, spots: seq<nat>): (cbv: seq<real>)
    requires |first| > 0 && forall i :: 0 <= i < |spots| ==> spots[i] < |first[0]|
    ensures |cbv| == |spots|
  {
    seq(|spots|, i requires 0 <= i < |spots| => -first[0][spots[i]])
  }

  /** The rows of matB: each spot's column in the constraint rows of the first tableau. */
  function BasisRows(first: Table, spots: seq<nat>): (B: Table)
    requires |first| > 0
    requires forall i :: 0 <= i < |spots| ==> forall q :: 0 <= q < |first| ==> spots[i] < |first[q]|
    ensures |B| == |spots| && Rectangular(B, |first| - 1)
  {
    seq(|spots|, i requires 0 <= i < |spots| => Column(first[1..], spots[i]))
  }
}
