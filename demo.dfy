/** The 3 x 3 system solved by the demonstration driver in main.c. */
module Demo {
  import opened LinAlg
  import opened Gauss

  function DemoSystem(): (S: Sys)
    ensures WellFormed(S) && |S.b| == 3
  {
    Sys([[2.0, 1.0, 1.0], [1.0, 3.0, 1.0], [1.0, 1.0, 4.0]], [8.0, 11.0, 16.0])
  }

  /** The system after step 0 and after step 1 of forward elimination. */
  function AfterStep0(): (S: Sys)
    ensures WellFormed(S) && |S.b| == 3
  {
    Sys([[2.0, 1.0, 1.0], [0.0, 2.5, 0.5], [0.0, 0.5, 3.5]], [8.0, 7.0, 12.0])
  }

  function AfterStep1(): (S: Sys)
    ensures WellFormed(S) && |S.b| == 3
  {
    Sys([[2.0, 1.0, 1.0], [0.0, 2.5, 0.5], [0.0, 0.0, 3.4]], [8.0, 7.0, 10.6])
  }

  /** The two row reductions of step 0. */
  lemma DemoStep0Rows()
    ensures ElimRow([1.0, 3.0, 1.0], [2.0, 1.0, 1.0], 0) == [0.0, 2.5, 0.5]
    ensures ElimRow([1.0, 1.0, 4.0], [2.0, 1.0, 1.0], 0) == [0.0, 0.5, 3.5]
  {
    var r1 := ElimRow([1.0, 3.0, 1.0], [2.0, 1.0, 1.0], 0);
    assert r1[1] == 2.5 && r1[2] == 0.5;
    var r2 := ElimRow([1.0, 1.0, 4.0], [2.0, 1.0, 1.0], 0);
    assert r2[1] == 0.5 && r2[2] == 3.5;
  }

  lemma DemoStep0()
    ensures Step(DemoSystem(), 0) == Outcome(AfterStep0(), true)
  {
    var S0, S1 := DemoSystem(), AfterStep0();
    assert Pivot(S0.A, 0) == 0;
    assert Swap(S0, 0, 0) == S0;
    var E := Eliminate(S0, 0);
    DemoStep0Rows();
    assert E.A[0] == S1.A[0] && E.A[1] == S1.A[1] && E.A[2] == S1.A[2];
    assert E.A == S1.A;
    assert E.b == S1.b;
  }

  lemma DemoStep1()
    ensures Step(AfterStep0(), 1) == Outcome(AfterStep1(), true)
  {
    var S1, S2 := AfterStep0(), AfterStep1();
    assert Pivot(S1.A, 1) == 1;
    assert Swap(S1, 1, 1) == S1;
    var E := Eliminate(S1, 1);
    assert E.A[2] == ElimRow(S1.A[2], S1.A[1], 1);
    assert E.A[2][2] == 3.4;
    assert E.A[0] == S2.A[0] && E.A[1] == S2.A[1] && E.A[2] == S2.A[2];
    assert E.A == S2.A;
    assert E.b == S2.b;
  }

  /** (23/17, 37/17, 53/17) satisfies all three equations. */
  lemma DemoSolution()
    ensures Solves(DemoSystem().A, DemoSystem().b, [23.0 / 17.0, 37.0 / 17.0, 53.0 / 17.0])
  {
    var S0, y := DemoSystem(), [23.0 / 17.0, 37.0 / 17.0, 53.0 / 17.0];
    assert Dot(S0.A[0], y) == S0.b[0];
    assert Dot(S0.A[1], y) == S0.b[1];
    assert Dot(S0.A[2], y) == S0.b[2];
  }

  /** Both forward steps pass the pivot test and reach AfterStep1. */
  lemma DemoForward()
    ensures ForwardFrom(DemoSystem(), 0) == Outcome(AfterStep1(), true)
  {
    DemoStep0();
    DemoStep1();
  }

  /** The sequential solver succeeds on the demonstration system and returns its exact
      solution (23/17, 37/17, 53/17). */
  lemma DemoSolved()
    ensures Solve(DemoSystem()).Solved?
    ensures Solve(DemoSystem()).x == [23.0 / 17.0, 37.0 / 17.0, 53.0 / 17.0]
  {
    DemoForward();
    SolveCorrect(DemoSystem());
    DemoSolution();
  }
}
