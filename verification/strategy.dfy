/**
 The three placement algorithms: which free block `allocate` picks for a
 request. Each is stated declaratively by `Chosen` and computed by a scan that
 follows the allocator's loops, with `None` in place of the -1 index and the
 Integer.MAX_VALUE / -1 leftover sentinels.
 */
module Strategy {
  import opened Wrappers
  import opened Blocks

  /** The algorithm names the allocator dispatches on; any other name fails. */
  datatype Algorithm = FirstFit | BestFit | WorstFit | Unrecognised

  function AlgorithmNamed(name: string): Algorithm {
    if name == "First-Fit" then FirstFit
    else if name == "Best-Fit" then BestFit
    else if name == "Worst-Fit" then WorstFit
    else Unrecognised
  }

  /** A block can take a request when it is free and at least as large. */
  predicate Eligible(b: Block, size: int) {
    b.free && b.size >= size
  }

  /** What would be left of the block after the request were carved out of it. */
  function Leftover(b: Block, size: int): int {
    b.size - size
  }

  /**
   Index `i` is the block the algorithm picks from `t`:
   first-fit the lowest eligible index; best-fit the eligible block with the
   least leftover and worst-fit the one with the most, ties going to the lower
   index; an unrecognised algorithm picks nothing.
   */
  predicate Chosen(t: Table, size: int, algorithm: Algorithm, i: int) {
    && 0 <= i < |t|
    && Eligible(t[i], size)
    && match algorithm
       case FirstFit =>
         forall j :: 0 <= j < i ==> !Eligible(t[j], size)
       case BestFit =>
         forall j :: 0 <= j < |t| && Eligible(t[j], size) ==>
           Leftover(t[i], size) < Leftover(t[j], size)
           || (Leftover(t[i], size) == Leftover(t[j], size) && i <= j)
       case WorstFit =>
         forall j :: 0 <= j < |t| && Eligible(t[j], size) ==>
           Leftover(t[i], size) > Leftover(t[j], size)
           || (Leftover(t[i], size) == Leftover(t[j], size) && i <= j)
       case Unrecognised => false
  }

  /** No block of `t` can take the request. */
  predicate NoneEligible(t: Table, size: int) {
    forall j :: 0 <= j < |t| ==> !Eligible(t[j], size)
  }

  /** The first-fit loop: stop at the first eligible block at or after `i`. */
  function FirstFitFrom(t: Table, size: int, i: nat): (r: Option<nat>)
    requires i <= |t|
    ensures r.Some? ==> i <= r.value < |t| && Eligible(t[r.value], size)
    ensures r.Some? ==> forall j :: i <= j < r.value ==> !Eligible(t[j], size)
    ensures r.None? ==> forall j :: i <= j < |t| ==> !Eligible(t[j], size)
    decreases |t| - i
  {
    if i == |t| then None
    else if Eligible(t[i], size) then Some(i)
    else FirstFitFrom(t, size, i + 1)
  }

  /** The strict comparison by which a later block replaces the incumbent. */
  predicate Improves(algorithm: Algorithm, current: int, incumbent: int) {
    match algorithm
    case BestFit => current < incumbent
    case WorstFit => current > incumbent
    case _ => false
  }

  /**
   The best-fit and worst-fit loops from index `i` on, with `best` the
   incumbent chosen from t[..i] (`None` while no eligible block has been seen).
   */
  function ExtremeFrom(t: Table, size: int, algorithm: Algorithm, i: nat, best: Option<nat>)
    : (r: Option<nat>)
    requires algorithm == BestFit || algorithm == WorstFit
    requires i <= |t|
    requires best.Some? ==> Chosen(t[..i], size, algorithm, best.value)
    requires best.None? ==> NoneEligible(t[..i], size)
    ensures r.Some? ==> Chosen(t, size, algorithm, r.value)
    ensures r.None? ==> NoneEligible(t, size)
    decreases |t| - i
  {
    if i == |t| then
      assert t[..i] == t;
      best
    else
      assert t[..i + 1][..i] == t[..i];
      if Eligible(t[i], size)
         && (best.None? || Improves(algorithm, Leftover(t[i], size), Leftover(t[best.value], size)))
      then
        ExtremeFrom(t, size, algorithm, i + 1, Some(i))
      else
        ExtremeFrom(t, size, algorithm, i + 1, best)
  }

  /** The block `allocate` picks, or `None` when the request cannot be placed. */
  function Choose(t: Table, size: int, algorithm: Algorithm): (r: Option<nat>)
    ensures r.Some? ==> Chosen(t, size, algorithm, r.value)
    ensures r.None? <==> algorithm == Unrecognised || NoneEligible(t, size)
  {
    match algorithm
    case FirstFit => FirstFitFrom(t, size, 0)
    case BestFit => assert t[..0] == []; ExtremeFrom(t, size, BestFit, 0, None)
    case WorstFit => assert t[..0] == []; ExtremeFrom(t, size, WorstFit, 0, None)
    case Unrecognised => None
  }

  /** Each algorithm's choice is unique: the tie-breaking leaves no freedom. */
  lemma ChosenUnique(t: Table, size: int, algorithm: Algorithm, i: int, j: int)
    requires Chosen(t, size, algorithm, i) && Chosen(t, size, algorithm, j)
    ensures i == j
  {
  }

  /** `Choose` returns exactly the block the declarative rule designates. */
  lemma ChooseExactly(t: Table, size: int, algorithm: Algorithm, i: int)
    ensures Choose(t, size, algorithm) == Some(i) <==> Chosen(t, size, algorithm, i)
  {
    var r := Choose(t, size, algorithm);
    if Chosen(t, size, algorithm, i) {
      assert r.Some?;
      ChosenUnique(t, size, algorithm, i, r.value);
    }
  }
}
