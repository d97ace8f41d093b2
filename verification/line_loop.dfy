/** The shape of the ledger's file-reading loop: a step applied to each line
    in turn, stopping at the first line whose step fails. */
module LineLoop {
  import opened Outcomes

  /** How far the loop got: the state after the lines it took, and the index
      of the line it stopped at, if it stopped. */
  datatype Run<S> = Run(state: S, failedAt: Option<nat>)

  /** The loop from line `i` on. */
  function Fold<S>(step: (S, string) -> Option<S>, s: S, lines: seq<string>, i: nat): (r: Run<S>)
    requires i <= |lines|
    ensures r.failedAt.Some? ==> i <= r.failedAt.value < |lines|
    decreases |lines| - i
  {
    if i == |lines| then Run(s, None)
    else match step(s, lines[i])
      case None => Run(s, Some(i))
      case Some(next) => Fold(step, next, lines, i + 1)
  }

  /** The loop stops at the first line that fails: run on the lines before
      it, the loop takes them all, and the stopping line fails on the state
      they produce. */
  lemma FirstFailure<S>(step: (S, string) -> Option<S>, s: S, lines: seq<string>, i: nat, n: nat)
    requires i <= n < |lines|
    requires Fold(step, s, lines, i).failedAt == Some(n)
    ensures Fold(step, s, lines[..n], i).failedAt.None?
    ensures step(Fold(step, s, lines[..n], i).state, lines[n]).None?
    ensures Fold(step, s, lines, i).state == Fold(step, s, lines[..n], i).state
  {
    PrefixClean(step, s, lines, lines[..n], i);
  }

  lemma {:induction false} PrefixClean<S>(step: (S, string) -> Option<S>, s: S, lines: seq<string>, prefix: seq<string>, i: nat)
    requires i <= |prefix| < |lines|
    requires forall k :: 0 <= k < |prefix| ==> prefix[k] == lines[k]
    requires Fold(step, s, lines, i).failedAt == Some(|prefix|)
    ensures Fold(step, s, prefix, i).failedAt.None?
    ensures step(Fold(step, s, prefix, i).state, lines[|prefix|]).None?
    ensures Fold(step, s, lines, i).state == Fold(step, s, prefix, i).state
    decreases |prefix| - i
  {
    if i < |prefix| {
      assert prefix[i] == lines[i];
      PrefixClean(step, step(s, lines[i]).value, lines, prefix, i + 1);
    }
  }

  /** A property every successful step keeps holds of the state the loop
      ends with. */
  lemma {:induction false} FoldKeeps<S>(step: (S, string) -> Option<S>, inv: S -> bool, s: S, lines: seq<string>, i: nat)
    requires i <= |lines|
    requires forall x: S, line: string :: inv(x) && step(x, line).Some? ==> inv(step(x, line).value)
    requires inv(s)
    ensures inv(Fold(step, s, lines, i).state)
    decreases |lines| - i
  {
    if i < |lines| && step(s, lines[i]).Some? {
      FoldKeeps(step, inv, step(s, lines[i]).value, lines, i + 1);
    }
  }
}
