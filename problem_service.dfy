/** Model/ProblemService.cs: three built-in example problems served round
    robin by GetNext. */
module ProblemServices {

  /** Model/Problem.cs: constraint matrix, signs, right-hand sides,
      objective coefficients, objective constant and the maximisation flag. */
  datatype Problem = Problem(consMatrx: seq<seq<real>>, signs: seq<string>, freeVars: seq<real>,
                             funcVars: seq<real>, c: real, isExtrMax: bool)

  /** The examples of InitializeProblems (ProblemService.cs:22-68). */
  function Examples(): (ps: seq<Problem>)
    ensures |ps| == 3
  {
    [ Problem([[1.0, 2.0], [2.0, 1.0]], ["<=", "<="], [10.0, 8.0], [3.0, 2.0], 0.0, true),
      Problem([[1.0, 1.0], [1.0, -1.0]], [">=", "<="], [2.0, 1.0], [1.0, 1.0], 0.0, true),
      Problem([[1.0, 1.0], [2.0, 1.0]], [">=", ">="], [4.0, 6.0], [2.0, 3.0], 0.0, false) ]
  }

  /** Every example has one sign and one right-hand side per constraint row
      and one objective coefficient per column; the first is
      max 3x1 + 2x2, the last is a minimisation. */
  lemma ExamplesShape()
    ensures forall p :: p in Examples() ==>
      |p.signs| == |p.freeVars| == |p.consMatrx| && forall r :: r in p.consMatrx ==> |r| == |p.funcVars|
    ensures Examples()[0].funcVars == [3.0, 2.0] && Examples()[0].isExtrMax
    ensures !Examples()[2].isExtrMax
  {
    var ps := Examples();
    assert ps == [ps[0], ps[1], ps[2]];
  }

  /** The cursor after one GetNext on n problems: one place on, back to 0
      after the last. */
  function NextIndex(i: nat, n: nat): (j: nat)
    requires i < n
    ensures j == if i + 1 < n then i + 1 else 0
  {
    (i + 1) % n
  }

  /** The cursor after k calls. */
  function IndexAfter(i: nat, n: nat, k: nat): (j: nat)
    requires i < n
    ensures j < n
  {
    if k == 0 then i else NextIndex(IndexAfter(i, n, k - 1), n)
  }

  /** Up to n calls move the cursor k places on, wrapping round once past
      the end; so n calls bring it back. */
  lemma {:induction false} IndexAfterWraps(i: nat, n: nat, k: nat)
    requires i < n && k <= n
    ensures IndexAfter(i, n, k) == if i + k < n then i + k else i + k - n
  {
    if k > 0 {
      IndexAfterWraps(i, n, k - 1);
    }
  }

  /** The problems k calls return, starting at cursor i. */
  function Served(ps: seq<Problem>, i: nat, k: nat): (r: seq<Problem>)
    requires i < |ps|
    ensures |r| == k
  {
    if k == 0 then [] else Served(ps, i, k - 1) + [ps[IndexAfter(i, |ps|, k - 1)]]
  }

  /** Call t returns the problem at the cursor after t calls. */
  lemma {:induction false} ServedAt(ps: seq<Problem>, i: nat, k: nat, t: nat)
    requires i < |ps| && t < k
    ensures Served(ps, i, k)[t] == ps[IndexAfter(i, |ps|, t)]
  {
    if t < k - 1 {
      ServedAt(ps, i, k - 1, t);
    }
  }

  /** As many calls as there are problems return every problem once,
      starting with the one at the cursor and wrapping round, and bring the
      cursor back; from a fresh service the three calls return the examples
      in order. */
  lemma CallsCycle(ps: seq<Problem>, i: nat)
    requires i < |ps|
    ensures Served(ps, i, |ps|) == ps[i..] + ps[..i]
    ensures IndexAfter(i, |ps|, |ps|) == i
  {
    var n := |ps|;
    IndexAfterWraps(i, n, n);
    forall t | 0 <= t < n ensures Served(ps, i, n)[t] == (ps[i..] + ps[..i])[t] {
      ServedAt(ps, i, n, t);
      IndexAfterWraps(i, n, t);
    }
  }

  class ProblemsService {
    const problems: array<Problem>
    var currentIndex: nat

    /** The cursor is always a valid index and the examples never change. */
    ghost predicate Valid()
      reads this, problems
    {
      problems[..] == Examples() && currentIndex < problems.Length
    }

    /** ProblemService.cs:13, 18-21: the examples, cursor at 0. */
    constructor ()
      ensures Valid() && currentIndex == 0 && fresh(problems)
    {
      var ps := new Problem[3];
      ps[0], ps[1], ps[2] := Examples()[0], Examples()[1], Examples()[2];
      problems := ps;
      currentIndex := 0;
      new;
      assert problems[..] == [problems[0], problems[1], problems[2]];
    }

    /** GetNext (ProblemService.cs:71-76): the problem at the cursor, and the
        cursor one place on, cyclically. */
    method GetNext() returns (problem: Problem)
      requires Valid()
      modifies this`currentIndex
      ensures Valid()
      ensures problem == Examples()[old(currentIndex)]
      ensures currentIndex == NextIndex(old(currentIndex), problems.Length)
    {
      problem := problems[currentIndex];
      currentIndex := (currentIndex + 1) % problems.Length;
    }
  }
}
