/**
 The two implementations of edit distance: the full matrix with a trace and a backtrace
 (`Align`), and the form with two rolling rows (`TwoRows`, and `LevenshteinDistance`, which
 first swaps its arguments).  Both are proved against `EditDistance.Distance`.
 */
module Alignment {
  import opened Arithmetic
  import opened EditDistance

  datatype Kind = Match | Substitution | Deletion | Insertion

  /** One aligned operation; an index is -1 when the token is absent on that side. */
  datatype Step = Step(kind: Kind, ref: int, hyp: int)

  datatype Trace = TraceSub | TraceDel | TraceIns

  // ---------- What an edit script is ----------

  predicate StepFits<T(==)>(s: seq<T>, t: seq<T>, step: Step) {
    match step.kind
    case Match => 0 <= step.ref < |s| && 0 <= step.hyp < |t| && s[step.ref] == t[step.hyp]
    case Substitution => 0 <= step.ref < |s| && 0 <= step.hyp < |t|
    case Deletion => 0 <= step.ref < |s| && step.hyp == -1
    case Insertion => step.ref == -1 && 0 <= step.hyp < |t|
  }

  /** The reference indices an alignment consumes, in order. */
  function RefIndices(ops: seq<Step>): seq<int> {
    if ops == [] then []
    else RefIndices(Init(ops)) + if Last(ops).kind == Insertion then [] else [Last(ops).ref]
  }

  /** The hypothesis indices an alignment consumes, in order. */
  function HypIndices(ops: seq<Step>): seq<int> {
    if ops == [] then []
    else HypIndices(Init(ops)) + if Last(ops).kind == Deletion then [] else [Last(ops).hyp]
  }

  function Range(n: nat): seq<int> {
    seq(n, i => i)
  }

  /** Every reference index and every hypothesis index is used exactly once, in increasing
      order, and a match joins equal tokens. */
  predicate IsScript<T(==)>(s: seq<T>, t: seq<T>, ops: seq<Step>) {
    && (forall k :: 0 <= k < |ops| ==> StepFits(s, t, ops[k]))
    && RefIndices(ops) == Range(|s|)
    && HypIndices(ops) == Range(|t|)
  }

  function Cost(ops: seq<Step>): nat {
    if ops == [] then 0
    else Cost(Init(ops)) + if Last(ops).kind == Match then 0 else 1
  }

  /** The text an alignment writes: matched tokens are copied from the reference. */
  function Replay<T(==)>(s: seq<T>, t: seq<T>, ops: seq<Step>): seq<T>
    requires forall k :: 0 <= k < |ops| ==> StepFits(s, t, ops[k])
  {
    if ops == [] then []
    else
      var step := ops[|ops| - 1];
      assert StepFits(s, t, step);
      var rest := Replay(s, t, Init(ops));
      match step.kind
      case Match => rest + [s[step.ref]]
      case Deletion => rest
      case _ => rest + [t[step.hyp]]
  }

  lemma {:induction false} IndicesCollected(ops: seq<Step>, k: nat)
    requires k < |ops|
    ensures ops[k].kind != Insertion ==> ops[k].ref in RefIndices(ops)
    ensures ops[k].kind != Deletion ==> ops[k].hyp in HypIndices(ops)
  {
    if k == |ops| - 1 {
    } else {
      IndicesCollected(Init(ops), k);
    }
  }

  /** The texts left when the last operation of a script is undone. */
  function Before<T>(s: seq<T>, t: seq<T>, step: Step): (seq<T>, seq<T>)
    requires step.kind != Insertion ==> |s| > 0
    requires step.kind != Deletion ==> |t| > 0
  {
    (if step.kind == Insertion then s else Init(s), if step.kind == Deletion then t else Init(t))
  }

  lemma PeelScript<T>(s: seq<T>, t: seq<T>, ops: seq<Step>)
    requires IsScript(s, t, ops) && ops != []
    ensures Last(ops).kind != Insertion ==> s != [] && Last(ops).ref == |s| - 1
    ensures Last(ops).kind != Deletion ==> t != [] && Last(ops).hyp == |t| - 1
    ensures var (s', t') := Before(s, t, Last(ops)); IsScript(s', t', Init(ops))
  {
    var step, rest := Last(ops), Init(ops);
    assert step == ops[|ops| - 1];
    if step.kind != Insertion {
      assert Last(RefIndices(ops)) == step.ref;
      assert RefIndices(rest) == Init(RefIndices(ops));
    }
    if step.kind != Deletion {
      assert Last(HypIndices(ops)) == step.hyp;
      assert HypIndices(rest) == Init(HypIndices(ops));
    }
    var (s', t') := Before(s, t, step);
    assert RefIndices(rest) == Range(|s'|) && HypIndices(rest) == Range(|t'|);
    forall k | 0 <= k < |rest| ensures StepFits(s', t', rest[k]) {
      assert rest[k] == ops[k];
      IndicesCollected(rest, k);
    }
  }

  lemma AppendStep<T>(s: seq<T>, t: seq<T>, ops: seq<Step>, step: Step)
    requires StepFits(s, t, step)
    requires step.kind != Insertion ==> step.ref == |s| - 1
    requires step.kind != Deletion ==> step.hyp == |t| - 1
    requires var (s', t') := Before(s, t, step); IsScript(s', t', ops)
    ensures IsScript(s, t, ops + [step])
  {
    var more := ops + [step];
    assert Init(more) == ops;
    forall k | 0 <= k < |more| ensures StepFits(s, t, more[k]) {
      if k < |ops| { assert more[k] == ops[k]; }
    }
  }

  /** Every script writes the hypothesis. */
  lemma {:induction false} ScriptReplaysHypothesis<T>(s: seq<T>, t: seq<T>, ops: seq<Step>)
    requires IsScript(s, t, ops)
    ensures Replay(s, t, ops) == t
    decreases |ops|
  {
    if ops == [] {
      assert |Range(|t|)| == 0;
    } else {
      PeelScript(s, t, ops);
      var (s', t') := Before(s, t, Last(ops));
      ScriptReplaysHypothesis(s', t', Init(ops));
      ReplayLocal(s, t, s', t', Init(ops));
      if Last(ops).kind != Deletion {
        assert t == t' + [t[|t| - 1]];
        assert StepFits(s, t, ops[|ops| - 1]);
      }
    }
  }

  lemma {:induction false} ReplayLocal<T>(s: seq<T>, t: seq<T>, s': seq<T>, t': seq<T>, ops: seq<Step>)
    requires s' <= s && t' <= t
    requires forall k :: 0 <= k < |ops| ==> StepFits(s', t', ops[k])
    ensures forall k :: 0 <= k < |ops| ==> StepFits(s, t, ops[k])
    ensures Replay(s, t, ops) == Replay(s', t', ops)
  {
    forall k | 0 <= k < |ops| ensures StepFits(s, t, ops[k]) {
      assert StepFits(s', t', ops[k]);
    }
    if ops == [] {
    } else {
      ReplayLocal(s, t, s', t', Init(ops));
      assert StepFits(s', t', ops[|ops| - 1]);
    }
  }

  /** No script from s to t has fewer non-match operations than Distance(s, t). */
  lemma {:induction false} ScriptCostsAtLeastDistance<T>(s: seq<T>, t: seq<T>, ops: seq<Step>)
    requires IsScript(s, t, ops)
    ensures Distance(s, t) <= Cost(ops)
    decreases |ops|
  {
    if ops == [] {
      assert |Range(|s|)| == 0 && |Range(|t|)| == 0;
    } else {
      PeelScript(s, t, ops);
      var (s', t') := Before(s, t, Last(ops));
      ScriptCostsAtLeastDistance(s', t', Init(ops));
      DistanceBounds(s', t');
      assert StepFits(s, t, ops[|ops| - 1]);
    }
  }

  // ---------- The alignment the code chooses ----------

  /** Ties go to the diagonal, then to deletion, then to insertion. */
  function Choice<T(==)>(s: seq<T>, t: seq<T>): Trace
    requires |s| > 0 && |t| > 0
  {
    var sub := Distance(Init(s), Init(t)) + Mismatch(Last(s), Last(t));
    var del := Distance(Init(s), t) + 1;
    var ins := Distance(s, Init(t)) + 1;
    if sub <= del && sub <= ins then TraceSub else if del <= ins then TraceDel else TraceIns
  }

  /** The operation the backtrace emits first from cell (|s|, |t|). */
  function FinalStep<T(==)>(s: seq<T>, t: seq<T>): Step
    requires |s| > 0 || |t| > 0
  {
    if |t| == 0 || (|s| > 0 && Choice(s, t) == TraceDel) then Step(Deletion, |s| - 1, -1)
    else if |s| == 0 || Choice(s, t) == TraceIns then Step(Insertion, -1, |t| - 1)
    else Step(if Last(s) == Last(t) then Match else Substitution, |s| - 1, |t| - 1)
  }

  /** The whole alignment, read off the trace from cell (|s|, |t|). */
  function Canonical<T(==)>(s: seq<T>, t: seq<T>): seq<Step>
    decreases |s| + |t|
  {
    if |s| == 0 && |t| == 0 then []
    else
      var step := FinalStep(s, t);
      var (s', t') := Before(s, t, step);
      Canonical(s', t') + [step]
  }

  lemma {:induction false} FinalStepCost<T>(s: seq<T>, t: seq<T>)
    requires |s| > 0 || |t| > 0
    ensures StepFits(s, t, FinalStep(s, t))
    ensures var step := FinalStep(s, t); var (s', t') := Before(s, t, step);
            Distance(s, t) == Distance(s', t') + if step.kind == Match then 0 else 1
  {
  }

  /** The chosen alignment is a script, and is optimal among all scripts. */
  lemma {:induction false} CanonicalIsOptimal<T>(s: seq<T>, t: seq<T>)
    ensures IsScript(s, t, Canonical(s, t))
    ensures Cost(Canonical(s, t)) == Distance(s, t)
    decreases |s| + |t|
  {
    if s == [] && t == [] {
      assert Range(0) == [];
    } else {
      var step := FinalStep(s, t);
      var (s', t') := Before(s, t, step);
      var rest := Canonical(s', t');
      CanonicalIsOptimal(s', t');
      FinalStepCost(s, t);
      AppendStep(s, t, rest, step);
      assert Init(rest + [step]) == rest;
    }
  }

  /** The chosen alignment never labels equal tokens a substitution. */
  lemma {:induction false} CanonicalSubstitutionsDiffer<T>(s: seq<T>, t: seq<T>, k: nat)
    requires k < |Canonical(s, t)| && Canonical(s, t)[k].kind == Substitution
    ensures StepFits(s, t, Canonical(s, t)[k])
    ensures s[Canonical(s, t)[k].ref] != t[Canonical(s, t)[k].hyp]
    decreases |s| + |t|
  {
    hide Distance, Choice;
    var step := FinalStep(s, t);
    FinalStepCost(s, t);
    var (s', t') := Before(s, t, step);
    var rest := Canonical(s', t');
    assert Canonical(s, t) == rest + [step];
    if k == |rest| {
      hide Canonical;
    } else {
      CanonicalSubstitutionsDiffer(s', t', k);
      hide Canonical, FinalStep;
      assert Canonical(s, t)[k] == rest[k];
    }
  }

  function Reversed<T>(s: seq<T>): (r: seq<T>)
    ensures |r| == |s|
    ensures forall k :: 0 <= k < |s| ==> r[k] == s[|s| - 1 - k]
  {
    seq(|s|, k requires 0 <= k < |s| => s[|s| - 1 - k])
  }

  // ---------- The cost matrix ----------

  ghost predicate Recurrence<T>(s: seq<T>, t: seq<T>, m: seq<seq<nat>>, i: nat, j: nat)
    requires 0 < i <= |s| && 0 < j <= |t| && IsTable(s, t, m)
  {
    m[i][j] == Min(m[i - 1][j - 1] + Mismatch(s[i - 1], t[j - 1]), Min(m[i - 1][j] + 1, m[i][j - 1] + 1))
  }

  ghost predicate IsTable<T>(s: seq<T>, t: seq<T>, m: seq<seq<nat>>) {
    |m| == |s| + 1 && forall i :: 0 <= i <= |s| ==> |m[i]| == |t| + 1
  }

  /** m is the cost matrix of s and t. */
  ghost predicate IsMatrix<T>(s: seq<T>, t: seq<T>, m: seq<seq<nat>>) {
    && IsTable(s, t, m)
    && (forall i :: 0 <= i <= |s| ==> m[i][0] == i)
    && (forall j :: 0 <= j <= |t| ==> m[0][j] == j)
    && (forall i, j :: 0 < i <= |s| && 0 < j <= |t| ==> Recurrence(s, t, m, i, j))
  }

  ghost function Matrix<T>(s: seq<T>, t: seq<T>): seq<seq<nat>> {
    seq(|s| + 1, i requires 0 <= i <= |s| => seq(|t| + 1, j requires 0 <= j <= |t| => Distance(s[..i], t[..j])))
  }

  lemma PrefixDistance<T>(s: seq<T>, t: seq<T>, i: nat, j: nat)
    requires 0 < i <= |s| && 0 < j <= |t|
    ensures Recurrence(s, t, Matrix(s, t), i, j)
  {
    assert Init(s[..i]) == s[..i - 1] && Init(t[..j]) == t[..j - 1];
  }

  lemma MatrixIsMatrix<T>(s: seq<T>, t: seq<T>)
    ensures IsMatrix(s, t, Matrix(s, t))
    ensures Matrix(s, t)[|s|][|t|] == Distance(s, t)
  {
    forall i, j | 0 < i <= |s| && 0 < j <= |t| ensures Recurrence(s, t, Matrix(s, t), i, j) {
      PrefixDistance(s, t, i, j);
    }
    assert s[..|s|] == s && t[..|t|] == t;
  }

  ghost function ChoiceAt<T>(s: seq<T>, t: seq<T>, m: seq<seq<nat>>, i: nat, j: nat): Trace
    requires IsTable(s, t, m) && 0 < i <= |s| && 0 < j <= |t|
  {
    var sub := m[i - 1][j - 1] + Mismatch(s[i - 1], t[j - 1]);
    var del := m[i - 1][j] + 1;
    var ins := m[i][j - 1] + 1;
    if sub <= del && sub <= ins then TraceSub else if del <= ins then TraceDel else TraceIns
  }

  /** The operation the backtrace emits at cell (i, j). */
  ghost function StepAt<T>(s: seq<T>, t: seq<T>, m: seq<seq<nat>>, i: nat, j: nat): Step
    requires IsTable(s, t, m) && i <= |s| && j <= |t| && (i > 0 || j > 0)
  {
    if j == 0 || (i > 0 && ChoiceAt(s, t, m, i, j) == TraceDel) then Step(Deletion, i - 1, -1)
    else if i == 0 || ChoiceAt(s, t, m, i, j) == TraceIns then Step(Insertion, -1, j - 1)
    else Step(if s[i - 1] == t[j - 1] then Match else Substitution, i - 1, j - 1)
  }

  /** What the backtrace still has to emit from cell (i, j). */
  ghost function Path<T>(s: seq<T>, t: seq<T>, m: seq<seq<nat>>, i: nat, j: nat): seq<Step>
    requires IsTable(s, t, m) && i <= |s| && j <= |t|
    decreases i + j
  {
    if i == 0 && j == 0 then []
    else
      var step := StepAt(s, t, m, i, j);
      Path(s, t, m, if step.kind == Insertion then i else i - 1, if step.kind == Deletion then j else j - 1) + [step]
  }

  lemma ChoiceAtIsChoice<T>(s: seq<T>, t: seq<T>, i: nat, j: nat)
    requires 0 < i <= |s| && 0 < j <= |t|
    ensures ChoiceAt(s, t, Matrix(s, t), i, j) == Choice(s[..i], t[..j])
  {
    assert Init(s[..i]) == s[..i - 1] && Init(t[..j]) == t[..j - 1];
  }

  lemma StepAtIsFinalStep<T>(s: seq<T>, t: seq<T>, i: nat, j: nat)
    requires i <= |s| && j <= |t| && (i > 0 || j > 0)
    ensures StepAt(s, t, Matrix(s, t), i, j) == FinalStep(s[..i], t[..j])
  {
    if i > 0 && j > 0 {
      ChoiceAtIsChoice(s, t, i, j);
    }
  }

  lemma {:induction false} PathIsCanonical<T>(s: seq<T>, t: seq<T>, m: seq<seq<nat>>, i: nat, j: nat)
    requires i <= |s| && j <= |t| && m == Matrix(s, t)
    ensures Path(s, t, m, i, j) == Canonical(s[..i], t[..j])
    decreases i + j
  {
    if i == 0 && j == 0 {
    } else {
      StepAtIsFinalStep(s, t, i, j);
      var step := StepAt(s, t, m, i, j);
      var i', j' := if step.kind == Insertion then i else i - 1, if step.kind == Deletion then j else j - 1;
      assert i > 0 ==> Init(s[..i]) == s[..i - 1];
      assert j > 0 ==> Init(t[..j]) == t[..j - 1];
      assert Before(s[..i], t[..j], step) == (s[..i'], t[..j']);
      PathIsCanonical(s, t, m, i', j');
    }
  }

  // ---------- The full-matrix form ----------

  /** The full-matrix alignment with its backtrace. */
  method Align<T(==)>(reference: seq<T>, hypothesis: seq<T>) returns (ops: seq<Step>)
    ensures ops == Canonical(reference, hypothesis)
    ensures IsScript(reference, hypothesis, ops)
    ensures Cost(ops) == Distance(reference, hypothesis)
  {
    ghost var m := Matrix(reference, hypothesis);
    MatrixIsMatrix(reference, hypothesis);
    var rows, cols := |reference| + 1, |hypothesis| + 1;
    var cost := new nat[rows, cols]((_, _) => 0);
    var trace := new Trace[rows, cols]((_, _) => TraceSub);
    FillBorders(cost, trace);
    FillInterior(reference, hypothesis, cost, trace, m);
    ops := Backtrace(reference, hypothesis, trace, m);
    PathIsCanonical(reference, hypothesis, m, |reference|, |hypothesis|);
    assert reference[..|reference|] == reference && hypothesis[..|hypothesis|] == hypothesis;
    CanonicalIsOptimal(reference, hypothesis);
  }

  method FillBorders(cost: array2<nat>, trace: array2<Trace>)
    requires cost.Length0 == trace.Length0 > 0 && cost.Length1 == trace.Length1 > 0
    requires cost[0, 0] == 0
    modifies cost, trace
    ensures forall a :: 0 <= a < cost.Length0 ==> cost[a, 0] == a
    ensures forall b :: 0 <= b < cost.Length1 ==> cost[0, b] == b
  {
    for i := 1 to cost.Length0
      invariant forall a :: 0 <= a < i ==> cost[a, 0] == a
    {
      cost[i, 0] := i;
      trace[i, 0] := TraceDel;
    }
    for j := 1 to cost.Length1
      invariant forall a :: 0 <= a < cost.Length0 ==> cost[a, 0] == a
      invariant forall b :: 0 <= b < j ==> cost[0, b] == b
    {
      cost[0, j] := j;
      trace[0, j] := TraceIns;
    }
  }

  method FillInterior<T(==)>(reference: seq<T>, hypothesis: seq<T>, cost: array2<nat>, trace: array2<Trace>,
                             ghost m: seq<seq<nat>>)
    requires |reference| + 1 == cost.Length0 == trace.Length0 && |hypothesis| + 1 == cost.Length1 == trace.Length1
    requires IsMatrix(reference, hypothesis, m)
    requires forall a :: 0 <= a < cost.Length0 ==> cost[a, 0] == a
    requires forall b :: 0 <= b < cost.Length1 ==> cost[0, b] == b
    modifies cost, trace
    ensures forall a, b :: 0 < a <= |reference| && 0 < b <= |hypothesis| ==>
              trace[a, b] == ChoiceAt(reference, hypothesis, m, a, b)
  {
    for i := 1 to cost.Length0
      invariant forall a :: 0 <= a < cost.Length0 ==> cost[a, 0] == a
      invariant forall a, b :: 0 <= a < i && 0 <= b <= |hypothesis| ==> cost[a, b] == m[a][b]
      invariant forall a, b :: 0 < a < i && 0 < b <= |hypothesis| ==>
                  trace[a, b] == ChoiceAt(reference, hypothesis, m, a, b)
    {
      var refItem := reference[i - 1];
      for j := 1 to cost.Length1
        invariant forall a :: 0 <= a < cost.Length0 ==> cost[a, 0] == a
        invariant forall a, b :: 0 <= a < i && 0 <= b <= |hypothesis| ==> cost[a, b] == m[a][b]
        invariant forall b :: 0 <= b < j ==> cost[i, b] == m[i][b]
        invariant forall a, b :: 0 < a < i && 0 < b <= |hypothesis| ==>
                    trace[a, b] == ChoiceAt(reference, hypothesis, m, a, b)
        invariant forall b :: 0 < b < j ==> trace[i, b] == ChoiceAt(reference, hypothesis, m, i, b)
      {
        assert Recurrence(reference, hypothesis, m, i, j);
        var subCost := cost[i - 1, j - 1] + if refItem != hypothesis[j - 1] then 1 else 0;
        var delCost := cost[i - 1, j] + 1;
        var insCost := cost[i, j - 1] + 1;
        if subCost <= delCost && subCost <= insCost {
          cost[i, j] := subCost;
          trace[i, j] := TraceSub;
        } else if delCost <= insCost {
          cost[i, j] := delCost;
          trace[i, j] := TraceDel;
        } else {
          cost[i, j] := insCost;
          trace[i, j] := TraceIns;
        }
      }
    }
  }

  method Backtrace<T(==)>(reference: seq<T>, hypothesis: seq<T>, trace: array2<Trace>, ghost m: seq<seq<nat>>)
    returns (ops: seq<Step>)
    requires |reference| + 1 == trace.Length0 && |hypothesis| + 1 == trace.Length1
    requires IsTable(reference, hypothesis, m)
    requires forall a, b :: 0 < a <= |reference| && 0 < b <= |hypothesis| ==>
               trace[a, b] == ChoiceAt(reference, hypothesis, m, a, b)
    ensures ops == Path(reference, hypothesis, m, |reference|, |hypothesis|)
  {
    ops := [];
    var i, j := |reference|, |hypothesis|;
    while i > 0 || j > 0
      invariant 0 <= i <= |reference| && 0 <= j <= |hypothesis|
      invariant Path(reference, hypothesis, m, |reference|, |hypothesis|) ==
                Path(reference, hypothesis, m, i, j) + Reversed(ops)
      decreases i + j
    {
      ghost var done := ops;
      if i > 0 && j > 0 {
        var op := trace[i, j];
        if op == TraceSub {
          var kind := if reference[i - 1] == hypothesis[j - 1] then Match else Substitution;
          ops := ops + [Step(kind, i - 1, j - 1)];
          i, j := i - 1, j - 1;
        } else if op == TraceDel {
          ops := ops + [Step(Deletion, i - 1, -1)];
          i := i - 1;
        } else {
          ops := ops + [Step(Insertion, -1, j - 1)];
          j := j - 1;
        }
      } else if i > 0 {
        ops := ops + [Step(Deletion, i - 1, -1)];
        i := i - 1;
      } else {
        ops := ops + [Step(Insertion, -1, j - 1)];
        j := j - 1;
      }
      assert Reversed(ops) == [Last(ops)] + Reversed(done);
    }
    ops := Reversed(ops);
  }

  // ---------- The rolling-row forms ----------

  /** Two rolling rows, without a swap. */
  method TwoRows<T(==)>(reference: seq<T>, hypothesis: seq<T>) returns (distance: nat)
    ensures distance == Distance(reference, hypothesis)
  {
    ghost var m := Matrix(reference, hypothesis);
    MatrixIsMatrix(reference, hypothesis);
    var prev: seq<nat> := seq(|hypothesis| + 1, k => k);
    for i := 1 to |reference| + 1
      invariant prev == m[i - 1]
    {
      var curr: seq<nat> := [i];
      for j := 1 to |hypothesis| + 1
        invariant |curr| == j
        invariant forall b :: 0 <= b < j ==> curr[b] == m[i][b]
      {
        assert Recurrence(reference, hypothesis, m, i, j);
        var ins := curr[j - 1] + 1;
        var delete := prev[j] + 1;
        var replace := prev[j - 1] + if reference[i - 1] == hypothesis[j - 1] then 0 else 1;
        curr := curr + [Min(ins, Min(delete, replace))];
      }
      prev := curr;
    }
    distance := prev[|prev| - 1];
  }

  /** The form that puts the longer text first. */
  method LevenshteinDistance<T(==)>(seq1: seq<T>, seq2: seq<T>) returns (distance: nat)
    ensures distance == Distance(seq1, seq2)
  {
    var longer, shorter := seq1, seq2;
    if |seq1| < |seq2| {
      longer, shorter := seq2, seq1;
    }
    distance := TwoRows(longer, shorter);
    DistanceSymmetric(seq1, seq2);
  }

  lemma TieMatrix(m: seq<seq<nat>>)
    requires IsMatrix("baba", "abab", m)
    ensures m[3][4] == m[4][3] == 1 && m[3][3] == 2
    ensures ChoiceAt("baba", "abab", m, 4, 4) == TraceDel
  {
    var s, t := "baba", "abab";
    assert m[1][1] == 1 && m[1][2] == 1 && m[1][3] == 2 && m[1][4] == 3 by {
      assert Recurrence(s, t, m, 1, 1) && Recurrence(s, t, m, 1, 2);
      assert Recurrence(s, t, m, 1, 3) && Recurrence(s, t, m, 1, 4);
    }
    assert m[2][1] == 1 && m[2][2] == 2 && m[2][3] == 1 && m[2][4] == 2 by {
      assert Recurrence(s, t, m, 2, 1) && Recurrence(s, t, m, 2, 2);
      assert Recurrence(s, t, m, 2, 3) && Recurrence(s, t, m, 2, 4);
    }
    assert m[3][1] == 2 && m[3][2] == 1 && m[3][3] == 2 && m[3][4] == 1 by {
      assert Recurrence(s, t, m, 3, 1) && Recurrence(s, t, m, 3, 2);
      assert Recurrence(s, t, m, 3, 3) && Recurrence(s, t, m, 3, 4);
    }
    assert m[4][1] == 3 && m[4][2] == 2 && m[4][3] == 1 by {
      assert Recurrence(s, t, m, 4, 1) && Recurrence(s, t, m, 4, 2) && Recurrence(s, t, m, 4, 3);
    }
  }

  // ---------- The tie order that the docstring names ----------

  /** Deletion and insertion cost the same and both beat the diagonal. */
  predicate SideTie<T(==)>(s: seq<T>, t: seq<T>)
    requires |s| > 0 && |t| > 0
  {
    && Distance(Init(s), t) == Distance(s, Init(t))
    && Distance(s, Init(t)) + 1 < Distance(Init(s), Init(t)) + Mismatch(Last(s), Last(t))
  }

  /** Substitution over insertion over deletion at equal cost. */
  function DocumentedChoice<T(==)>(s: seq<T>, t: seq<T>): Trace
    requires |s| > 0 && |t| > 0
  {
    var sub := Distance(Init(s), Init(t)) + Mismatch(Last(s), Last(t));
    var del := Distance(Init(s), t) + 1;
    var ins := Distance(s, Init(t)) + 1;
    if sub <= del && sub <= ins then TraceSub else if ins <= del then TraceIns else TraceDel
  }

  function DocumentedStep<T(==)>(s: seq<T>, t: seq<T>): Step
    requires |s| > 0 || |t| > 0
  {
    if |t| == 0 || (|s| > 0 && DocumentedChoice(s, t) == TraceDel) then Step(Deletion, |s| - 1, -1)
    else if |s| == 0 || DocumentedChoice(s, t) == TraceIns then Step(Insertion, -1, |t| - 1)
    else Step(if Last(s) == Last(t) then Match else Substitution, |s| - 1, |t| - 1)
  }

  /** The alignment with the documented tie order. */
  function Documented<T(==)>(s: seq<T>, t: seq<T>): seq<Step>
    decreases |s| + |t|
  {
    if |s| == 0 && |t| == 0 then []
    else
      var step := DocumentedStep(s, t);
      var (s', t') := Before(s, t, step);
      Documented(s', t') + [step]
  }

  /** Some cell that the backtrace passes through has such a tie. */
  predicate PathHasSideTie<T(==)>(s: seq<T>, t: seq<T>)
    decreases |s| + |t|
  {
    (|s| > 0 || |t| > 0) &&
    var (s', t') := Before(s, t, FinalStep(s, t));
    (|s| > 0 && |t| > 0 && SideTie(s, t)) || PathHasSideTie(s', t')
  }

  /** The code's choice departs from the documented one exactly at such a tie. */
  lemma StepsDifferAtSideTies<T>(s: seq<T>, t: seq<T>)
    requires |s| > 0 || |t| > 0
    ensures |s| > 0 && |t| > 0 ==> (Choice(s, t) != DocumentedChoice(s, t) <==> SideTie(s, t))
    ensures FinalStep(s, t) != DocumentedStep(s, t) <==> |s| > 0 && |t| > 0 && SideTie(s, t)
  {
    hide Distance;
  }

  /** The code's alignment is the documented one if and only if its path meets no such tie. */
  lemma {:induction false} DocumentedUnlessSideTie<T>(s: seq<T>, t: seq<T>)
    ensures Canonical(s, t) == Documented(s, t) <==> !PathHasSideTie(s, t)
    decreases |s| + |t|
  {
    hide Distance, Choice, DocumentedChoice;
    if |s| == 0 && |t| == 0 {
    } else {
      StepsDifferAtSideTies(s, t);
      var step, documented := FinalStep(s, t), DocumentedStep(s, t);
      var (s', t') := Before(s, t, step);
      hide FinalStep, DocumentedStep, SideTie;
      if step == documented {
        DocumentedUnlessSideTie(s', t');
        LastStepSame(Canonical(s', t'), Documented(s', t'), step, step);
      } else {
        var (d, e) := Before(s, t, documented);
        LastStepSame(Canonical(s', t'), Documented(d, e), step, documented);
      }
    }
  }

  lemma LastStepSame(a: seq<Step>, b: seq<Step>, x: Step, y: Step)
    ensures a + [x] == b + [y] <==> a == b && x == y
  {
    if a + [x] == b + [y] {
      assert (a + [x])[..|a|] == (b + [y])[..|b|];
      assert (a + [x])[|a|] == (b + [y])[|b|];
    }
  }

  /** Where deletion and insertion tie and both beat the diagonal the code deletes, although
      the module's docstring says that insertion is preferred. */
  lemma DeletionBeatsInsertion(s: string, t: string)
    requires s == "baba" && t == "abab"
    ensures Distance(s[..3], t[..4]) == Distance(s[..4], t[..3]) < Distance(s[..3], t[..3])
    ensures FinalStep(s[..4], t[..4]) == Step(Deletion, 3, -1)
  {
    var m := Matrix(s, t);
    MatrixIsMatrix(s, t);
    TieMatrix(m);
    StepAtIsFinalStep(s, t, 4, 4);
  }

  /** So on that input the code's alignment is not the documented one. */
  lemma DocumentedTiesNotFollowed(s: string, t: string)
    requires s == "baba" && t == "abab"
    ensures Canonical(s, t) != Documented(s, t)
  {
    DeletionBeatsInsertion(s, t);
    assert s[..4] == s && t[..4] == t && Init(s) == s[..3] && Init(t) == t[..3];
    hide Distance, Canonical, Documented, FinalStep;
    DocumentedUnlessSideTie(s, t);
  }
}
