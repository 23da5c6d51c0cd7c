/**
 * The shape shared by the driver's list-building loops: walk a list in
 * order, append what each element yields, skip the elements that yield
 * nothing (`continue`), and stop at the first element that raises.
 */
module Traversals {
  import opened Wrappers

  /**
   * Applies `f` to the elements of `xs` in order, each time with the same
   * context `env`, and collects the values it yields; the first failure of
   * `f` is the failure of the whole walk.
   */
  function Traverse<A, C, B, E>(xs: seq<A>, env: C, f: (A, C) -> Result<Option<B>, E>): Result<seq<B>, E>
  {
    if xs == [] then Ok([])
    else
      match Traverse(xs[..|xs| - 1], env, f)
      case Err(e) => Err(e)
      case Ok(ys) =>
        match f(xs[|xs| - 1], env)
        case Err(e) => Err(e)
        case Ok(None) => Ok(ys)
        case Ok(Some(y)) => Ok(ys + [y])
  }

  /** The elements on which `f` yields a value, in order. */
  function Kept<A, C, B, E>(xs: seq<A>, env: C, f: (A, C) -> Result<Option<B>, E>): seq<A>
  {
    if xs == [] then []
    else
      var last := xs[|xs| - 1];
      Kept(xs[..|xs| - 1], env, f) + (if f(last, env).Ok? && f(last, env).value.Some? then [last] else [])
  }

  /** One more step of the walk, as the loops take it. */
  lemma TraverseStep<A, C, B, E>(xs: seq<A>, i: nat, env: C, f: (A, C) -> Result<Option<B>, E>)
    requires i < |xs|
    ensures Traverse(xs[..i + 1], env, f) ==
      match Traverse(xs[..i], env, f)
      case Err(e) => Err(e)
      case Ok(ys) =>
        match f(xs[i], env)
        case Err(e) => Err(e)
        case Ok(None) => Ok(ys)
        case Ok(Some(y)) => Ok(ys + [y])
  {
    assert xs[..i + 1][..i] == xs[..i];
  }

  /** Once a prefix fails, the whole walk fails with the same error. */
  lemma {:induction false} TraverseErrPrefix<A, C, B, E>(xs: seq<A>, i: nat, env: C, f: (A, C) -> Result<Option<B>, E>)
    requires i <= |xs| && Traverse(xs[..i], env, f).Err?
    ensures Traverse(xs, env, f) == Traverse(xs[..i], env, f)
    decreases |xs| - i
  {
    if i < |xs| {
      TraverseStep(xs, i, env, f);
      TraverseErrPrefix(xs, i + 1, env, f);
    } else {
      assert xs[..i] == xs;
    }
  }

  /** The whole walk, as the loops finish it. */
  lemma TraverseWhole<A, C, B, E>(xs: seq<A>, env: C, f: (A, C) -> Result<Option<B>, E>)
    ensures Traverse(xs[..|xs|], env, f) == Traverse(xs, env, f)
  {
    assert xs[..|xs|] == xs;
  }

  /** The walk succeeds exactly when `f` succeeds on every element. */
  lemma {:induction false} TraverseSucceeds<A, C, B, E>(xs: seq<A>, env: C, f: (A, C) -> Result<Option<B>, E>)
    ensures Traverse(xs, env, f).Ok? <==> forall i :: 0 <= i < |xs| ==> f(xs[i], env).Ok?
    decreases |xs|
  {
    if xs != [] {
      var init := xs[..|xs| - 1];
      TraverseSucceeds(init, env, f);
      assert forall i :: 0 <= i < |init| ==> init[i] == xs[i];
    }
  }

  /**
   * A successful walk yields one value per kept element, in order, each the
   * value `f` yields on that element.
   */
  lemma {:induction false} TraverseKept<A, C, B, E>(xs: seq<A>, env: C, f: (A, C) -> Result<Option<B>, E>, ys: seq<B>)
    requires Traverse(xs, env, f) == Ok(ys)
    ensures |ys| == |Kept(xs, env, f)|
    ensures forall j :: 0 <= j < |ys| ==> f(Kept(xs, env, f)[j], env) == Ok(Some(ys[j]))
    decreases |xs|
  {
    if xs != [] {
      var init := xs[..|xs| - 1];
      var last := xs[|xs| - 1];
      var ys' := Traverse(init, env, f).value;
      TraverseKept(init, env, f, ys');
      var k := Kept(init, env, f);
      if f(last, env).value.Some? {
        assert ys == ys' + [f(last, env).value.value];
        assert Kept(xs, env, f) == k + [last];
        forall j | 0 <= j < |ys| ensures f(Kept(xs, env, f)[j], env) == Ok(Some(ys[j])) {
          if j < |ys'| {
            assert Kept(xs, env, f)[j] == k[j];
          }
        }
      } else {
        assert Kept(xs, env, f) == k;
      }
    }
  }

  /** When `f` keeps every element, the walk yields exactly one value per element. */
  lemma {:induction false} KeptAll<A, C, B, E>(xs: seq<A>, env: C, f: (A, C) -> Result<Option<B>, E>)
    requires forall i :: 0 <= i < |xs| ==> f(xs[i], env).Ok? && f(xs[i], env).value.Some?
    ensures Kept(xs, env, f) == xs
    decreases |xs|
  {
    if xs != [] {
      var init := xs[..|xs| - 1];
      assert forall i :: 0 <= i < |init| ==> init[i] == xs[i];
      KeptAll(init, env, f);
      assert xs == init + [xs[|xs| - 1]];
    }
  }

  /**
   * A loop that starts from `init` and overwrites one variable with the
   * value `f` yields on each element in turn; the first failure of `f` ends
   * the loop with that failure.
   */
  function LastResult<A, C, B, E>(xs: seq<A>, env: C, f: (A, C) -> Result<B, E>, init: B): Result<B, E>
  {
    if xs == [] then Ok(init)
    else
      match LastResult(xs[..|xs| - 1], env, f, init)
      case Err(e) => Err(e)
      case Ok(_) => f(xs[|xs| - 1], env)
  }

  /** Once a prefix fails, the whole loop fails with the same error. */
  lemma {:induction false} LastResultErrPrefix<A, C, B, E>(xs: seq<A>, i: nat, env: C, f: (A, C) -> Result<B, E>, init: B)
    requires i <= |xs| && LastResult(xs[..i], env, f, init).Err?
    ensures LastResult(xs, env, f, init) == LastResult(xs[..i], env, f, init)
    decreases |xs| - i
  {
    if i < |xs| {
      assert xs[..i + 1][..i] == xs[..i];
      LastResultErrPrefix(xs, i + 1, env, f, init);
    } else {
      assert xs[..i] == xs;
    }
  }

  /**
   * The loop succeeds exactly when `f` succeeds on every element, and then
   * its value is the one `f` yields on the last element (or `init` for no
   * elements): the earlier elements only decide whether the loop fails.
   */
  lemma {:induction false} LastResultSucceeds<A, C, B, E>(xs: seq<A>, env: C, f: (A, C) -> Result<B, E>, init: B)
    ensures LastResult(xs, env, f, init).Ok? <==> forall i :: 0 <= i < |xs| ==> f(xs[i], env).Ok?
    ensures LastResult(xs, env, f, init).Ok? ==>
      LastResult(xs, env, f, init).value == if xs == [] then init else f(xs[|xs| - 1], env).value
    decreases |xs|
  {
    if xs != [] {
      var front := xs[..|xs| - 1];
      LastResultSucceeds(front, env, f, init);
      assert forall i :: 0 <= i < |front| ==> front[i] == xs[i];
    }
  }

  /** The sum of what `f` gives for the elements of `xs`. */
  function Total<A>(xs: seq<A>, f: A -> nat): nat
  {
    if xs == [] then 0 else Total(xs[..|xs| - 1], f) + f(xs[|xs| - 1])
  }

  /** The concatenation, in order, of what `f` gives for the elements of `xs`. */
  function Concat<A, B>(xs: seq<A>, f: A -> seq<B>): seq<B>
  {
    if xs == [] then [] else Concat(xs[..|xs| - 1], f) + f(xs[|xs| - 1])
  }

  lemma {:induction false} TotalAppend<A>(xs: seq<A>, ys: seq<A>, f: A -> nat)
    ensures Total(xs + ys, f) == Total(xs, f) + Total(ys, f)
    decreases |ys|
  {
    if ys == [] {
      assert xs + ys == xs;
    } else {
      var front := ys[..|ys| - 1];
      assert (xs + ys)[..|xs + ys| - 1] == xs + front;
      TotalAppend(xs, front, f);
    }
  }

  lemma {:induction false} ConcatAppend<A, B>(xs: seq<A>, ys: seq<A>, f: A -> seq<B>)
    ensures Concat(xs + ys, f) == Concat(xs, f) + Concat(ys, f)
    decreases |ys|
  {
    if ys == [] {
      assert xs + ys == xs;
    } else {
      var front := ys[..|ys| - 1];
      assert (xs + ys)[..|xs + ys| - 1] == xs + front;
      ConcatAppend(xs, front, f);
    }
  }

  /**
   * When `ys` holds the elements of `xs`, the last element of `xs` sits at
   * some position `j` of `ys`, and the rest of `ys` holds the rest of `xs`.
   */
  lemma PickLast<A>(xs: seq<A>, ys: seq<A>) returns (j: nat)
    requires xs != [] && multiset(xs) == multiset(ys)
    ensures j < |ys| && ys[j] == xs[|xs| - 1]
    ensures ys == ys[..j] + [ys[j]] + ys[j + 1..]
    ensures multiset(xs[..|xs| - 1]) == multiset(ys[..j] + ys[j + 1..])
  {
    var x, front := xs[|xs| - 1], xs[..|xs| - 1];
    assert xs == front + [x];
    assert x in multiset(ys);
    j :| 0 <= j < |ys| && ys[j] == x;
    var before, after := ys[..j], ys[j + 1..];
    assert ys == before + [x] + after;
    assert multiset(front) == multiset(xs) - multiset{x};
    assert multiset(before + after) == multiset(ys) - multiset{x};
  }

  /** Inserting one element adds its term to the sum. */
  lemma TotalInsert<A>(before: seq<A>, x: A, after: seq<A>, f: A -> nat)
    ensures Total(before + [x] + after, f) == Total(before + after, f) + f(x)
  {
    TotalAppend(before + [x], after, f);
    TotalAppend(before, [x], f);
    TotalAppend(before, after, f);
    assert [x][..0] == [];
  }

  /** Inserting one element adds its part to the concatenation's multiset. */
  lemma ConcatInsert<A, B>(before: seq<A>, x: A, after: seq<A>, f: A -> seq<B>)
    ensures multiset(Concat(before + [x] + after, f)) == multiset(Concat(before + after, f)) + multiset(f(x))
  {
    ConcatAppend(before + [x], after, f);
    ConcatAppend(before, [x], f);
    ConcatAppend(before, after, f);
    assert [x][..0] == [];
  }

  /** The sum does not depend on the order of the elements. */
  lemma {:induction false} TotalPermutation<A>(xs: seq<A>, ys: seq<A>, f: A -> nat)
    requires multiset(xs) == multiset(ys)
    ensures Total(xs, f) == Total(ys, f)
    decreases |xs|
  {
    if xs == [] {
      assert |ys| == |multiset(ys)| == 0;
    } else {
      var j := PickLast(xs, ys);
      TotalPermutation(xs[..|xs| - 1], ys[..j] + ys[j + 1..], f);
      TotalInsert(ys[..j], ys[j], ys[j + 1..], f);
    }
  }

  /** The concatenation holds the same elements, counted with multiplicity, in any order of `xs`. */
  lemma {:induction false} ConcatPermutation<A, B>(xs: seq<A>, ys: seq<A>, f: A -> seq<B>)
    requires multiset(xs) == multiset(ys)
    ensures multiset(Concat(xs, f)) == multiset(Concat(ys, f))
    decreases |xs|
  {
    if xs == [] {
      assert |ys| == |multiset(ys)| == 0;
    } else {
      var j := PickLast(xs, ys);
      ConcatPermutation(xs[..|xs| - 1], ys[..j] + ys[j + 1..], f);
      ConcatInsert(ys[..j], ys[j], ys[j + 1..], f);
    }
  }

  /** Every element of the concatenation comes from what `f` gives for some element of `xs`. */
  lemma {:induction false} ConcatMember<A, B>(xs: seq<A>, f: A -> seq<B>, y: B)
    requires y in Concat(xs, f)
    ensures exists i :: 0 <= i < |xs| && y in f(xs[i])
    decreases |xs|
  {
    var front := xs[..|xs| - 1];
    if y in Concat(front, f) {
      ConcatMember(front, f, y);
      var i :| 0 <= i < |front| && y in f(front[i]);
      assert front[i] == xs[i];
    } else {
      assert y in f(xs[|xs| - 1]);
    }
  }

  /** Sums over two sequences agree when their terms agree position by position. */
  lemma {:induction false} TotalPointwise<A, B>(xs: seq<A>, f: A -> nat, ys: seq<B>, g: B -> nat)
    requires |xs| == |ys|
    requires forall i :: 0 <= i < |xs| ==> f(xs[i]) == g(ys[i])
    ensures Total(xs, f) == Total(ys, g)
    decreases |xs|
  {
    if xs != [] {
      var n := |xs| - 1;
      assert forall i :: 0 <= i < n ==> xs[..n][i] == xs[i] && ys[..n][i] == ys[i];
      TotalPointwise(xs[..n], f, ys[..n], g);
    }
  }
}
