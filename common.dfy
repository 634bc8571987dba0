/** Small vocabulary shared by the simplex models: optional values, the
    extended reals used where the C# code keeps double.PositiveInfinity as a
    sentinel, rectangular matrices as sequences of rows, and decimal names. */
module Common {

  datatype Option<T> = None | Some(value: T)

  /** A double that may be +infinity. */
  datatype ExtReal = Finite(r: real) | PosInf

  /** x < y on the extended reals (+inf is above every finite value). */
  predicate ExtLess(x: ExtReal, y: ExtReal) {
    match (x, y)
    case (Finite(a), Finite(b)) => a < b
    case (Finite(_), PosInf) => true
    case (PosInf, _) => false
  }

  function Abs(x: real): (r: real)
    ensures r >= 0.0 && (r == x || r == -x)
  {
    if x < 0.0 then -x else x
  }

  /** Math.Floor on a double, as a real. */
  function Floor(x: real): (r: real)
    ensures r == r.Floor as real
    ensures r <= x < r + 1.0
  {
    x.Floor as real
  }

  /** Every row has width w. */
  predicate Rectangular(M: seq<seq<real>>, w: nat) {
    forall i :: 0 <= i < |M| ==> |M[i]| == w
  }

  /** The entries of column j, top to bottom. */
  function Column(M: seq<seq<real>>, j: nat): (col: seq<real>)
    requires forall i :: 0 <= i < |M| ==> j < |M[i]|
    ensures |col| == |M| && forall i :: 0 <= i < |M| ==> col[i] == M[i][j]
  {
    seq(|M|, i requires 0 <= i < |M| => M[i][j])
  }

  /** The last entry of every row (the RHS column of a list-of-lists table). */
  function LastColumn(M: seq<seq<real>>): (col: seq<real>)
    requires forall i :: 0 <= i < |M| ==> |M[i]| > 0
    ensures |col| == |M| && forall i :: 0 <= i < |M| ==> col[i] == M[i][|M[i]| - 1]
  {
    seq(|M|, i requires 0 <= i < |M| => M[i][|M[i]| - 1])
  }

  function Sum(s: seq<real>): real
  {
    if s == [] then 0.0 else Sum(s[..|s| - 1]) + s[|s| - 1]
  }

  function Digit(d: nat): char
    requires d < 10
  {
    "0123456789"[d]
  }

  predicate IsDigit(ch: char) {
    '0' <= ch <= '9'
  }

  /** The decimal rendering of n, as C# interpolation "{n}" writes an int. */
  function NatToString(n: nat): (s: string)
    ensures |s| >= 1
    ensures forall i :: 0 <= i < |s| ==> IsDigit(s[i])
    ensures n < 10 <==> |s| == 1
  {
    if n < 10 then [Digit(n)] else NatToString(n / 10) + [Digit(n % 10)]
  }

  /** The value of a string of decimal digits. */
  function DigitsValue(s: string): nat
    requires forall i :: 0 <= i < |s| ==> IsDigit(s[i])
  {
    if s == [] then 0
    else
      assert IsDigit(s[|s| - 1]);
      10 * DigitsValue(s[..|s| - 1]) + ((s[|s| - 1] as int) - ('0' as int))
  }

  /** Reading the rendering back gives n: distinct numbers get distinct names. */
  lemma {:induction false} NatToStringRoundTrip(n: nat)
    ensures DigitsValue(NatToString(n)) == n
  {
    var s := NatToString(n);
    if n >= 10 {
      NatToStringRoundTrip(n / 10);
      assert s[..|s| - 1] == NatToString(n / 10);
    }
  }

  lemma NatToStringInjective(a: nat, b: nat)
    requires NatToString(a) == NatToString(b)
    ensures a == b
  {
    NatToStringRoundTrip(a);
    NatToStringRoundTrip(b);
  }

  /** A name such as "x3" or "s12": a letter prefix followed by a number. */
  function Name(prefix: string, k: nat): (s: string)
    ensures |s| == |prefix| + |NatToString(k)| && s[..|prefix|] == prefix
  {
    prefix + NatToString(k)
  }

  /** Names with the same prefix and different numbers differ. */
  lemma NameDistinct(prefix: string, a: nat, b: nat)
    requires a != b
    ensures Name(prefix, a) != Name(prefix, b)
  {
    NatToStringRoundTrip(a);
    NatToStringRoundTrip(b);
    assert Name(prefix, a)[|prefix|..] == NatToString(a);
    assert Name(prefix, b)[|prefix|..] == NatToString(b);
  }

  /** Names with different one-letter prefixes differ. */
  lemma NamePrefixesDiffer(p: string, q: string, a: nat, b: nat)
    requires |p| == 1 && |q| == 1 && p != q
    ensures Name(p, a) != Name(q, b)
  {
    assert Name(p, a)[..1] == p && Name(q, b)[..1] == q;
  }

  /** Names with the same one-letter prefix are equal only for equal numbers. */
  lemma NameInjective(prefix: string, a: nat, b: nat)
    requires Name(prefix, a) == Name(prefix, b)
    ensures a == b
  {
    assert NatToString(a) == Name(prefix, a)[|prefix|..];
    assert NatToString(b) == Name(prefix, b)[|prefix|..];
    NatToStringInjective(a, b);
  }

  /** String.ToLower on ASCII letters. */
  function ToLower(s: string): (r: string)
    ensures |r| == |s|
    ensures forall i :: 0 <= i < |s| ==>
      r[i] == if 'A' <= s[i] <= 'Z' then (s[i] as int + 32) as char else s[i]
  {
    seq(|s|, i requires 0 <= i < |s| =>
      if 'A' <= s[i] <= 'Z' then (s[i] as int + 32) as char else s[i])
  }

  /** At least one row and one column, every row as wide as the first. */
  predicate IsGrid(G: seq<seq<real>>) {
    |G| >= 1 && |G[0]| >= 1 && Rectangular(G, |G[0]|)
  }

  /** The rows of a two-dimensional array. */
  ghost function Grid(T: array2<real>): (G: seq<seq<real>>)
    reads T
    ensures |G| == T.Length0 && Rectangular(G, T.Length1)
    ensures forall i, j :: 0 <= i < T.Length0 && 0 <= j < T.Length1 ==> G[i][j] == T[i, j]
  {
    seq(T.Length0, i requires 0 <= i < T.Length0 reads T =>
      seq(T.Length1, j requires 0 <= j < T.Length1 reads T => T[i, j]))
  }

  lemma GridExt(T: array2<real>, H: seq<seq<real>>)
    requires |H| == T.Length0 && Rectangular(H, T.Length1)
    requires forall i, k :: 0 <= i < T.Length0 && 0 <= k < T.Length1 ==> T[i, k] == H[i][k]
    ensures Grid(T) == H
  {
    forall i | 0 <= i < T.Length0 ensures Grid(T)[i] == H[i] {
      assert |Grid(T)[i]| == |H[i]|;
    }
  }

  // ---------------------------------------------------------------------
  // The List/LINQ operations the C# code leans on

  /** List.IndexOf: the first index holding x, or -1. */
  function IndexOf<T(==)>(s: seq<T>, x: T): (k: int)
    ensures -1 <= k < |s|
    ensures k >= 0 ==> s[k] == x && forall i :: 0 <= i < k ==> s[i] != x
    ensures k == -1 <==> forall i :: 0 <= i < |s| ==> s[i] != x
  {
    if |s| == 0 then -1
    else if s[0] == x then 0
    else
      var k := IndexOf(s[1..], x);
      if k < 0 then -1 else k + 1
  }

  /** Enumerable.Min on a non-empty sequence. */
  function MinOf(s: seq<real>): (m: real)
    requires |s| > 0
    ensures (exists i :: 0 <= i < |s| && s[i] == m) && forall i :: 0 <= i < |s| ==> m <= s[i]
  {
    if |s| == 1 then s[0]
    else
      var m := MinOf(s[1..]);
      assert forall i :: 1 <= i < |s| ==> s[i] == s[1..][i - 1];
      if s[0] <= m then s[0] else m
  }

  /** Enumerable.Where: the elements satisfying p; FilterCounts shows each
      is kept as often as in s, FilterAppend that the order of s is kept. */
  function Filter(s: seq<real>, p: real -> bool): (r: seq<real>)
    ensures |r| <= |s|
    ensures forall x :: x in r <==> x in s && p(x)
  {
    if |s| == 0 then []
    else
      var rest := Filter(s[1..], p);
      assert forall x :: x in s <==> x == s[0] || x in s[1..];
      if p(s[0]) then [s[0]] + rest else rest
  }

  /** Every element satisfying p occurs in Filter(s, p) as often as in s,
      and no other element occurs. */
  lemma {:induction false} FilterCounts(s: seq<real>, p: real -> bool)
    ensures forall x :: multiset(Filter(s, p))[x] == if p(x) then multiset(s)[x] else 0
    decreases |s|
  {
    if |s| > 0 {
      FilterCounts(s[1..], p);
      assert s == [s[0]] + s[1..];
    }
  }

  /** Filtering a concatenation filters each part in turn, so the kept
      elements stay in the order of s. */
  lemma {:induction false} FilterAppend(a: seq<real>, b: seq<real>, p: real -> bool)
    ensures Filter(a + b, p) == Filter(a, p) + Filter(b, p)
    decreases |a|
  {
    if |a| > 0 {
      var t := a + b;
      assert t[0] == a[0] && t[1..] == a[1..] + b;
      FilterAppend(a[1..], b, p);
      var head := if p(a[0]) then [a[0]] else [];
      assert Filter(t, p) == head + Filter(t[1..], p);
      assert Filter(a, p) == head + Filter(a[1..], p);
      assert head + (Filter(a[1..], p) + Filter(b, p)) == (head + Filter(a[1..], p)) + Filter(b, p);
    } else {
      assert a + b == b;
    }
  }
}
