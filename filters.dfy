/**
 * The dependent categorical filter chain both dashboards run: an ordered
 * list of stages, each bound to one column; each stage offers "All" plus
 * the sorted distinct non-missing values of its column in the table as
 * narrowed by the earlier stages, and a selection other than "All" keeps
 * only the rows whose column equals it.
 */
module Filters {
  import opened Wrappers
  import opened Lexicographic

  /** The sentinel every option list starts with; compared as a plain string. */
  const All: string := "All"

  /** One stage: the column it reads and the viewer's selection. */
  datatype Stage<!R> = Stage(column: R -> Option<string>, selection: string)

  /** `a` is `b` with some elements dropped, order kept. */
  predicate Subsequence<T(==)>(a: seq<T>, b: seq<T>)
  {
    if a == [] then true
    else if b == [] then false
    else (a[0] == b[0] && Subsequence(a[1..], b[1..])) || Subsequence(a, b[1..])
  }

  /** Number of rows whose column is present. */
  function CountPresent<R>(t: seq<R>, column: R -> Option<string>): nat
  {
    if t == [] then 0
    else (if column(t[0]).Some? then 1 else 0) + CountPresent(t[1..], column)
  }

  /** `t[col] == v`: the matching rows, in table order (see `NarrowRows`). */
  function Narrow<R(==)>(t: seq<R>, column: R -> Option<string>, v: string): (r: seq<R>)
    ensures Subsequence(r, t)
  {
    if t == [] then []
    else
      var rest := Narrow(t[1..], column, v);
      if column(t[0]) == Some(v) then
        assert ([t[0]] + rest)[1..] == rest;
        [t[0]] + rest
      else
        rest
  }

  /** `t[col].dropna().tolist()`: the present values, one per row, in order. */
  function Values<R>(t: seq<R>, column: R -> Option<string>): (r: seq<string>)
    ensures |r| == CountPresent(t, column)
  {
    if t == [] then []
    else
      match column(t[0])
      case Some(v0) => [v0] + Values(t[1..], column)
      case None => Values(t[1..], column)
  }

  /** `sorted(t[col].dropna().unique())`: the categories present in the column. */
  function Categories<R>(t: seq<R>, column: R -> Option<string>): (r: seq<string>)
    ensures StrictlyAscending(r)
  {
    SortedDistinct(Values(t, column))
  }

  /** The options a stage's select box offers (see `OptionsContents`). */
  function Options<R>(t: seq<R>, column: R -> Option<string>): (r: seq<string>)
    ensures |r| >= 1 && r[0] == All
  {
    [All] + Categories(t, column)
  }

  /**
   * `Narrow` keeps exactly the rows whose column equals the value, each as
   * often as the table holds it.
   */
  lemma {:induction false} NarrowRows<R>(t: seq<R>, column: R -> Option<string>, v: string)
    ensures forall x :: x in Narrow(t, column, v) ==> x in t && column(x) == Some(v)
    ensures forall x :: x in t ==>
      multiset(Narrow(t, column, v))[x] == if column(x) == Some(v) then multiset(t)[x] else 0
  {
    if t != [] {
      NarrowRows(t[1..], column, v);
      assert t == [t[0]] + t[1..];
    }
  }

  /** A value is listed exactly when some row holds it. */
  lemma {:induction false} ValuesMembers<R>(t: seq<R>, column: R -> Option<string>)
    ensures forall v :: v in Values(t, column) <==> exists i :: 0 <= i < |t| && column(t[i]) == Some(v)
  {
    if t != [] {
      ValuesMembers(t[1..], column);
      assert forall v :: (exists i :: 0 <= i < |t[1..]| && column(t[1..][i]) == Some(v))
                     <==> (exists i :: 1 <= i < |t| && column(t[i]) == Some(v));
    }
  }

  /** A value occurs among the present values once per row that the value would narrow to. */
  lemma {:induction false} ValuesCountRows<R>(t: seq<R>, column: R -> Option<string>, v: string)
    ensures multiset(Values(t, column))[v] == |Narrow(t, column, v)|
  {
    if t != [] {
      ValuesCountRows(t[1..], column, v);
    }
  }

  /**
   * The options are "All" followed by the categories of the column, strictly
   * ascending and each held by some row; an empty table offers only "All".
   */
  lemma OptionsContents<R>(t: seq<R>, column: R -> Option<string>)
    ensures StrictlyAscending(Options(t, column)[1..])
    ensures forall v :: v in Options(t, column)[1..] <==> exists i :: 0 <= i < |t| && column(t[i]) == Some(v)
    ensures t == [] ==> Options(t, column) == [All]
  {
    ValuesMembers(t, column);
    assert Options(t, column)[1..] == Categories(t, column);
  }

  /** What one stage does to the table it receives. */
  function ApplyStage<R(==)>(t: seq<R>, st: Stage<R>): seq<R>
  {
    if st.selection == All then t else Narrow(t, st.column, st.selection)
  }

  /** The table after the first `k` stages, each run on the previous one's output. */
  function Narrowed<R(==)>(t: seq<R>, stages: seq<Stage<R>>, k: nat): seq<R>
    requires k <= |stages|
  {
    if k == 0 then t
    else ApplyStage(Narrowed(t, stages, k - 1), stages[k - 1])
  }

  /** The table the whole chain hands to the views. */
  function Pipeline<R(==)>(t: seq<R>, stages: seq<Stage<R>>): seq<R>
  {
    Narrowed(t, stages, |stages|)
  }

  /** A cell passes a selection: the selection is "All", or the cell equals it. */
  predicate Keeps(selection: string, cell: Option<string>)
  {
    selection == All || cell == Some(selection)
  }

  /** A row passes a stage when its cell in the stage's column passes the stage's selection. */
  predicate Passes<R>(st: Stage<R>, x: R)
  {
    Keeps(st.selection, st.column(x))
  }

  /** A row passes every stage. */
  predicate PassesAll<R>(stages: seq<Stage<R>>, x: R)
  {
    forall i :: 0 <= i < |stages| ==> Passes(stages[i], x)
  }

  /** Reference definition: the rows of `t` that pass every stage, in table order. */
  function Select<R(==)>(t: seq<R>, stages: seq<Stage<R>>): (r: seq<R>)
    ensures Subsequence(r, t)
    ensures forall x :: x in r ==> x in t
    ensures forall x :: x in t ==> multiset(r)[x] == if PassesAll(stages, x) then multiset(t)[x] else 0
  {
    if t == [] then []
    else
      var rest := Select(t[1..], stages);
      assert t == [t[0]] + t[1..];
      if PassesAll(stages, t[0]) then
        assert ([t[0]] + rest)[1..] == rest;
        [t[0]] + rest
      else
        rest
  }

  /** The options stage `i` offers: those of its column in the table the earlier stages left. */
  function OptionsAt<R(==)>(t: seq<R>, stages: seq<Stage<R>>, i: nat): seq<string>
    requires i < |stages|
  {
    Options(Narrowed(t, stages, i), stages[i].column)
  }

  /** Stage `i`'s selection is one of the options it offered. */
  predicate OfferedAt<R(==)>(t: seq<R>, stages: seq<Stage<R>>, i: nat)
    requires i < |stages|
  {
    stages[i].selection in OptionsAt(t, stages, i)
  }

  /** Every selection was one of the options its stage offered at that point. */
  predicate Offered<R(==)>(t: seq<R>, stages: seq<Stage<R>>)
  {
    forall i :: 0 <= i < |stages| ==> OfferedAt(t, stages, i)
  }

  // ---------------------------------------------------------------------
  // Properties of a single stage
  // ---------------------------------------------------------------------

  /** Selecting "All" leaves the table as it is, even when "All" is also a real category. */
  lemma ApplyAllIsIdentity<R>(t: seq<R>, column: R -> Option<string>)
    ensures ApplyStage(t, Stage(column, All)) == t
  {
  }

  /**
   * A stage keeps exactly the rows that pass it, in order: the result is a
   * subsequence of its input holding every passing row as often as the input does.
   */
  lemma ApplyStageKeepsPassing<R>(t: seq<R>, st: Stage<R>)
    ensures Subsequence(ApplyStage(t, st), t)
    ensures forall x :: x in ApplyStage(t, st) ==> x in t
    ensures forall x :: x in t ==> multiset(ApplyStage(t, st))[x] == if Passes(st, x) then multiset(t)[x] else 0
  {
    SubsequenceReflexive(t);
    NarrowRows(t, st.column, st.selection);
  }

  lemma {:induction false} SubsequenceReflexive<T>(a: seq<T>)
    ensures Subsequence(a, a)
  {
    if a != [] {
      SubsequenceReflexive(a[1..]);
    }
  }

  lemma {:induction false} SubsequenceTransitive<T>(a: seq<T>, b: seq<T>, c: seq<T>)
    requires Subsequence(a, b) && Subsequence(b, c)
    ensures Subsequence(a, c)
    decreases |c|
  {
    if a != [] {
      assert b != [] && c != [];
      if b[0] == c[0] && Subsequence(b[1..], c[1..]) {
        if a[0] == b[0] && Subsequence(a[1..], b[1..]) {
          SubsequenceTransitive(a[1..], b[1..], c[1..]);
        } else {
          SubsequenceTransitive(a, b[1..], c[1..]);
        }
      } else {
        SubsequenceTransitive(a, b, c[1..]);
      }
    }
  }

  /** The table only narrows along the chain: a later stage's table is a subsequence of an earlier one's. */
  lemma {:induction false} NarrowedShrinks<R>(t: seq<R>, stages: seq<Stage<R>>, j: nat, k: nat)
    requires j <= k <= |stages|
    ensures Subsequence(Narrowed(t, stages, k), Narrowed(t, stages, j))
    decreases k - j
  {
    if j == k {
      SubsequenceReflexive(Narrowed(t, stages, j));
    } else {
      NarrowedShrinks(t, stages, j + 1, k);
      ApplyStageKeepsPassing(Narrowed(t, stages, j), stages[j]);
      SubsequenceTransitive(Narrowed(t, stages, k), Narrowed(t, stages, j + 1), Narrowed(t, stages, j));
    }
  }

  // ---------------------------------------------------------------------
  // The chain as a whole
  // ---------------------------------------------------------------------

  lemma PassesAllSnoc<R>(stages: seq<Stage<R>>, st: Stage<R>, x: R)
    ensures PassesAll(stages + [st], x) <==> PassesAll(stages, x) && Passes(st, x)
  {
    assert forall i :: 0 <= i < |stages| ==> (stages + [st])[i] == stages[i];
    assert (stages + [st])[|stages|] == st;
  }

  /** Narrowing the reference selection by one more stage selects by the longer list. */
  lemma {:induction false} ApplyStageSelect<R>(t: seq<R>, stages: seq<Stage<R>>, st: Stage<R>)
    ensures ApplyStage(Select(t, stages), st) == Select(t, stages + [st])
  {
    forall x { PassesAllSnoc(stages, st, x); }
    if t != [] {
      ApplyStageSelect(t[1..], stages, st);
    } else if st.selection == All {
    }
  }

  /**
   * After `k` stages the table is the reference selection of the rows that
   * pass each of those stages.
   */
  lemma {:induction false} NarrowedIsConjunction<R>(t: seq<R>, stages: seq<Stage<R>>, k: nat)
    requires k <= |stages|
    ensures Narrowed(t, stages, k) == Select(t, stages[..k])
  {
    if k == 0 {
      SelectNoStages(t);
    } else {
      NarrowedIsConjunction(t, stages, k - 1);
      ApplyStageSelect(t, stages[..k - 1], stages[k - 1]);
      assert stages[..k - 1] + [stages[k - 1]] == stages[..k];
    }
  }

  /**
   * The chain computes the conjunction of all its selections: its output
   * is the reference selection of the rows that pass every stage.
   */
  lemma PipelineIsConjunction<R>(t: seq<R>, stages: seq<Stage<R>>)
    ensures Pipeline(t, stages) == Select(t, stages)
  {
    NarrowedIsConjunction(t, stages, |stages|);
    assert stages[..|stages|] == stages;
  }

  lemma {:induction false} SelectNoStages<R>(t: seq<R>)
    ensures Select(t, []) == t
  {
    if t != [] {
      SelectNoStages(t[1..]);
      assert t == [t[0]] + t[1..];
    }
  }

  /** Membership in a reference selection. */
  lemma SelectRows<R>(t: seq<R>, stages: seq<Stage<R>>)
    ensures forall x :: x in Select(t, stages) <==> x in t && PassesAll(stages, x)
  {
    var r := Select(t, stages);
    forall x ensures x in r <==> x in t && PassesAll(stages, x) {
      assert x in r <==> multiset(r)[x] > 0;
      assert x in t <==> multiset(t)[x] > 0;
    }
  }

  /**
   * A row is in the final table exactly when it is in the input and
   * satisfies every non-"All" selection; the final table is a subsequence
   * of the input.
   */
  lemma PipelineRows<R>(t: seq<R>, stages: seq<Stage<R>>)
    ensures Subsequence(Pipeline(t, stages), t)
    ensures forall x :: x in Pipeline(t, stages) <==> x in t && PassesAll(stages, x)
  {
    PipelineIsConjunction(t, stages);
    SelectRows(t, stages);
  }

  /** Two selections that pass the same rows of `t` select the same table. */
  lemma {:induction false} SelectAgrees<R>(t: seq<R>, a: seq<Stage<R>>, b: seq<Stage<R>>)
    requires forall x :: x in t ==> (PassesAll(a, x) <==> PassesAll(b, x))
    ensures Select(t, a) == Select(t, b)
  {
    if t != [] {
      assert t[0] in t;
      assert forall x :: x in t[1..] ==> x in t;
      SelectAgrees(t[1..], a, b);
    }
  }

  /**
   * The order of the stages does not affect the final rows (it only
   * changes what the later stages offer).
   */
  lemma PipelineOrderIrrelevant<R>(t: seq<R>, a: seq<Stage<R>>, b: seq<Stage<R>>)
    ensures Pipeline(t, a + b) == Pipeline(t, b + a)
  {
    PipelineIsConjunction(t, a + b);
    PipelineIsConjunction(t, b + a);
    forall x ensures PassesAll(a + b, x) <==> PassesAll(b + a, x) {
      PassesAllAppend(a, b, x);
      PassesAllAppend(b, a, x);
    }
    SelectAgrees(t, a + b, b + a);
  }

  lemma PassesAllAppend<R>(a: seq<Stage<R>>, b: seq<Stage<R>>, x: R)
    ensures PassesAll(a + b, x) <==> PassesAll(a, x) && PassesAll(b, x)
  {
    assert forall i :: 0 <= i < |a| ==> (a + b)[i] == a[i];
    assert forall i :: 0 <= i < |b| ==> (a + b)[|a| + i] == b[i];
  }

  /** Stages that all select "All" keep the table as it is. */
  lemma {:induction false} AllStagesKeep<R>(t: seq<R>, stages: seq<Stage<R>>, k: nat)
    requires k <= |stages| && forall i :: 0 <= i < |stages| ==> stages[i].selection == All
    ensures Narrowed(t, stages, k) == t
  {
    if k > 0 {
      AllStagesKeep(t, stages, k - 1);
    }
  }

  /** A stage whose selection was offered by a non-empty table keeps a row. */
  lemma OfferedStageKeepsRows<R>(t: seq<R>, st: Stage<R>)
    requires t != [] && st.selection in Options(t, st.column)
    ensures ApplyStage(t, st) != []
  {
    if st.selection != All {
      OptionsContents(t, st.column);
      NarrowRows(t, st.column, st.selection);
      assert st.selection in Options(t, st.column)[1..];
      var i :| 0 <= i < |t| && st.column(t[i]) == Some(st.selection);
      assert t[i] in t;
      assert multiset(Narrow(t, st.column, st.selection))[t[i]] > 0;
    }
  }

  /**
   * Choosing only offered options never empties a non-empty table: every
   * narrowing keeps at least the row that made its value an option.
   */
  lemma {:induction false} OfferedKeepsRows<R>(t: seq<R>, stages: seq<Stage<R>>, k: nat)
    requires t != [] && k <= |stages|
    requires Offered(t, stages)
    ensures Narrowed(t, stages, k) != []
  {
    if k > 0 {
      OfferedKeepsRows(t, stages, k - 1);
      var before, st := Narrowed(t, stages, k - 1), stages[k - 1];
      assert OfferedAt(t, stages, k - 1);
      OfferedStageKeepsRows(before, st);
      assert ApplyStage(before, st) != [];
    }
  }

  /**
   * An offered selection other than "All" can only have been offered by a
   * non-empty table, so the input was non-empty too.
   */
  lemma OfferedValueNeedsRows<R>(t: seq<R>, stages: seq<Stage<R>>, i: nat)
    requires Offered(t, stages)
    requires i < |stages| && stages[i].selection != All
    ensures t != []
  {
    var before := Narrowed(t, stages, i);
    assert OfferedAt(t, stages, i);
    OptionsContents(before, stages[i].column);
    assert stages[i].selection in Options(before, stages[i].column)[1..];
    NarrowedIsConjunction(t, stages, i);
    SelectRows(t, stages[..i]);
    assert before[0] in before;
  }

  /**
   * Offered selections leave a non-empty final table whenever the input is
   * non-empty or some stage selects a value other than "All"; this is what
   * makes the first-row photo lookups safe.
   */
  lemma OfferedNonEmpty<R>(t: seq<R>, stages: seq<Stage<R>>)
    requires Offered(t, stages)
    ensures (t != [] || exists i :: 0 <= i < |stages| && stages[i].selection != All) ==> Pipeline(t, stages) != []
  {
    if exists i :: 0 <= i < |stages| && stages[i].selection != All {
      var i :| 0 <= i < |stages| && stages[i].selection != All;
      OfferedValueNeedsRows(t, stages, i);
    }
    if t != [] {
      OfferedKeepsRows(t, stages, |stages|);
    }
  }

  // ---------------------------------------------------------------------
  // The chain run step by step
  // ---------------------------------------------------------------------

  /**
   * Runs the stages one after the other on a local copy of the table,
   * recording each stage's offered options before applying its selection.
   */
  method RunChain<R(==)>(t: seq<R>, stages: seq<Stage<R>>) returns (filtered: seq<R>, offered: seq<seq<string>>)
    ensures filtered == Pipeline(t, stages)
    ensures offered == OptionsList(t, stages, |stages|)
    ensures (forall i {:trigger offered[i]} :: 0 <= i < |offered| ==> stages[i].selection in offered[i]) ==>
              (t != [] || exists i :: 0 <= i < |stages| && stages[i].selection != All) ==> filtered != []
  {
    filtered := t;
    offered := [];
    for k := 0 to |stages|
      invariant filtered == Narrowed(t, stages, k)
      invariant offered == OptionsList(t, stages, k)
    {
      NarrowedStep(t, stages, k);
      offered := offered + [Options(filtered, stages[k].column)];
      if stages[k].selection != All {
        filtered := Narrow(filtered, stages[k].column, stages[k].selection);
      }
    }
    if forall i {:trigger offered[i]} :: 0 <= i < |offered| ==> stages[i].selection in offered[i] {
      RecordedOptionsKeepRows(t, stages, offered);
    }
  }

  /** One more stage: how `Narrowed` and `OptionsAt` unfold at stage `k`. */
  lemma NarrowedStep<R>(t: seq<R>, stages: seq<Stage<R>>, k: nat)
    requires k < |stages|
    ensures Narrowed(t, stages, k + 1) == ApplyStage(Narrowed(t, stages, k), stages[k])
    ensures OptionsAt(t, stages, k) == Options(Narrowed(t, stages, k), stages[k].column)
  {
  }

  /** The option lists of the first `k` stages, each computed on the table that stage receives. */
  function OptionsList<R(==)>(t: seq<R>, stages: seq<Stage<R>>, k: nat): (r: seq<seq<string>>)
    requires k <= |stages|
    ensures |r| == k
  {
    if k == 0 then [] else OptionsList(t, stages, k - 1) + [OptionsAt(t, stages, k - 1)]
  }

  /** The `i`-th recorded list is the one stage `i` offers. */
  lemma {:induction false} OptionsListAt<R>(t: seq<R>, stages: seq<Stage<R>>, k: nat, i: nat)
    requires i < k <= |stages|
    ensures OptionsList(t, stages, k)[i] == OptionsAt(t, stages, i)
  {
    if i < k - 1 {
      OptionsListAt(t, stages, k - 1, i);
    }
  }

  /** RunChain's last promise, from the option lists it recorded. */
  lemma RecordedOptionsKeepRows<R>(t: seq<R>, stages: seq<Stage<R>>, offered: seq<seq<string>>)
    requires offered == OptionsList(t, stages, |stages|)
    requires forall i {:trigger offered[i]} :: 0 <= i < |offered| ==> stages[i].selection in offered[i]
    ensures (t != [] || exists i :: 0 <= i < |stages| && stages[i].selection != All) ==> Pipeline(t, stages) != []
  {
    forall i | 0 <= i < |stages|
      ensures OfferedAt(t, stages, i)
    {
      OptionsListAt(t, stages, |stages|, i);
      assert stages[i].selection in offered[i];
    }
    OfferedNonEmpty(t, stages);
  }
}
