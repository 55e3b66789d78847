/** Building the trial list: per repetition, each of the three slot lists is a
    shuffled copy of the image list; positions where two slots show the same
    image are repaired by swapping with the previous position, for at most 100
    passes; the blocks are concatenated and each trial gets its probe word and
    fixation time. The random draws are inputs. */
module TrialBuilder {
  import opened Wrappers

  /** How many times each image appears in each slot. */
  const NRepsPerLoc: nat := 2

  /** Passes of the duplicate check before giving up. */
  const MaxIter: nat := 100

  /** Lower and upper end of the uniform fixation-hold time, in seconds. */
  const FixDurLow: real := 0.5
  const FixDurHigh: real := 1.0

  /** Why building stops. */
  datatype BuildError =
    | UndefinedName            // the bare name on the repair path raises NameError
    | EmptyImageList           // `apply_along_axis` over zero positions raises ValueError
    | NoDuplicateFreeOrder     // 100 passes left a duplicate: the script exits
    | EmptyProbeList           // a probe was drawn but there are no probe words

  // ----- shuffling -----

  function Swap<T>(xs: seq<T>, i: nat, j: nat): (r: seq<T>)
    requires i < |xs| && j < |xs|
    ensures |r| == |xs| && r[i] == xs[j] && r[j] == xs[i]
    ensures forall k :: 0 <= k < |xs| && k != i && k != j ==> r[k] == xs[k]
  {
    xs[i := xs[j]][j := xs[i]]
  }

  lemma {:induction false} SwapPermutes<T>(xs: seq<T>, i: nat, j: nat)
    requires i < |xs| && j < |xs|
    ensures multiset(Swap(xs, i, j)) == multiset(xs)
  {
    var ys := xs[i := xs[j]];
    assert multiset(ys) == multiset(xs) - multiset{xs[i]} + multiset{xs[j]};
    assert multiset(ys[j := xs[i]]) == multiset(ys) - multiset{ys[j]} + multiset{xs[i]};
  }

  /** Draws for numpy's shuffle of n items: the k-th draw picks a position in
      0..n-1-k to swap with position n-1-k. */
  predicate ValidDraws(n: nat, draws: seq<nat>) {
    && |draws| == (if n == 0 then 0 else n - 1)
    && forall k :: 0 <= k < |draws| ==> draws[k] <= n - 1 - k
  }

  /** `np.random.shuffle`: the Fisher-Yates shuffle driven by `draws`. */
  function Shuffle<T>(xs: seq<T>, draws: seq<nat>): (r: seq<T>)
    requires ValidDraws(|xs|, draws)
    ensures |r| == |xs|
    ensures multiset(r) == multiset(xs)
    decreases |xs|
  {
    if |xs| <= 1 then xs
    else
      var i := |xs| - 1;
      var ys := Swap(xs, i, draws[0]);
      SwapPermutes(xs, i, draws[0]);
      assert ys == ys[..i] + [ys[i]];
      Shuffle(ys[..i], draws[1..]) + [ys[i]]
  }

  /** Every order is reachable: the draws that pick, position by position from
      the back, where the wanted item currently is reproduce any permutation. */
  lemma {:induction false} ShuffleReachesAll<T>(xs: seq<T>, ys: seq<T>)
    requires multiset(ys) == multiset(xs)
    ensures exists draws :: ValidDraws(|xs|, draws) && Shuffle(xs, draws) == ys
  {
    DrawsForWorks(xs, ys);
  }

  /** The draws that turn `xs` into `ys`. */
  ghost function DrawsFor<T>(xs: seq<T>, ys: seq<T>): seq<nat>
    requires multiset(ys) == multiset(xs)
    decreases |xs|
  {
    assert |ys| == |multiset(ys)| == |xs|;
    if |xs| <= 1 then []
    else
      var i := |xs| - 1;
      assert ys[i] in multiset(xs);
      var j := IndexOf(xs, ys[i]);
      var zs := Swap(xs, i, j);
      SwapPermutes(xs, i, j);
      SameLastSamePrefix(ys, zs);
      [j] + DrawsFor(zs[..i], ys[..i])
  }

  lemma {:induction false} DrawsForWorks<T>(xs: seq<T>, ys: seq<T>)
    requires multiset(ys) == multiset(xs)
    ensures ValidDraws(|xs|, DrawsFor(xs, ys)) && Shuffle(xs, DrawsFor(xs, ys)) == ys
    decreases |xs|
  {
    assert |ys| == |multiset(ys)| == |xs|;
    if |xs| <= 1 {
      ShortShuffle(xs, ys);
    } else {
      var i := |xs| - 1;
      assert ys[i] in multiset(xs);
      var j := IndexOf(xs, ys[i]);
      var zs := Swap(xs, i, j);
      SwapPermutes(xs, i, j);
      SameLastSamePrefix(ys, zs);
      DrawsForWorks(zs[..i], ys[..i]);
      ShuffleStep(xs, j, DrawsFor(zs[..i], ys[..i]));
    }
  }

  lemma {:induction false} ShortShuffle<T>(xs: seq<T>, ys: seq<T>)
    requires |xs| <= 1 && multiset(ys) == multiset(xs)
    ensures ValidDraws(|xs|, []) && Shuffle(xs, []) == ys
  {
    assert |ys| == |multiset(ys)| == |xs|;
    if |xs| == 1 {
      assert ys[0] in multiset(xs);
      assert xs == [xs[0]] && ys == [ys[0]];
    }
  }

  /** A position holding `v`. */
  ghost function IndexOf<T>(xs: seq<T>, v: T): (j: nat)
    requires v in xs
    ensures j < |xs| && xs[j] == v
  {
    if xs[0] == v then 0 else 1 + IndexOf(xs[1..], v)
  }

  /** Two permutations of each other that end alike agree before the end, as multisets. */
  lemma {:induction false} SameLastSamePrefix<T>(ys: seq<T>, zs: seq<T>)
    requires |ys| == |zs| > 0 && ys[|ys| - 1] == zs[|zs| - 1]
    requires multiset(ys) == multiset(zs)
    ensures multiset(ys[..|ys| - 1]) == multiset(zs[..|zs| - 1])
    ensures ys == ys[..|ys| - 1] + [zs[|zs| - 1]]
  {
    var i := |ys| - 1;
    assert ys == ys[..i] + [ys[i]];
    assert zs == zs[..i] + [zs[i]];
    assert multiset(ys[..i]) == multiset(ys) - multiset{ys[i]};
    assert multiset(zs[..i]) == multiset(zs) - multiset{zs[i]};
  }

  /** One step of the shuffle: the first draw fixes the last position. */
  lemma {:induction false} ShuffleStep<T>(xs: seq<T>, j: nat, rest: seq<nat>)
    requires |xs| > 1 && j < |xs|
    requires ValidDraws(|xs| - 1, rest)
    ensures ValidDraws(|xs|, [j] + rest)
    ensures var zs := Swap(xs, |xs| - 1, j);
      Shuffle(xs, [j] + rest) == Shuffle(zs[..|xs| - 1], rest) + [zs[|xs| - 1]]
  {
    var draws := [j] + rest;
    assert draws[0] == j && draws[1..] == rest;
  }

  // ----- duplicates across slots -----

  /** The three slot lists of one repetition block. */
  datatype Slots<T> = Slots(left: seq<T>, center: seq<T>, right: seq<T>)

  predicate WellShaped<T>(s: Slots<T>) {
    |s.left| == |s.center| == |s.right|
  }

  /** Position i shows some image in two slots. */
  predicate IsDup<T(==)>(s: Slots<T>, i: nat)
    requires WellShaped(s) && i < |s.left|
  {
    s.left[i] == s.center[i] || s.left[i] == s.right[i] || s.center[i] == s.right[i]
  }

  /** `len(set(x)) != 3` is exactly a repeated value among three. */
  lemma {:induction false} ThreeDistinct<T>(a: T, b: T, c: T)
    ensures |{a, b, c}| != 3 <==> (a == b || a == c || b == c)
  {
    if a != b && a != c && b != c {
      assert {a, b, c} == {a} + {b} + {c};
      assert |{a} + {b}| == 2;
    } else if a == b {
      assert {a, b, c} == {a, c};
    } else if a == c {
      assert {a, b, c} == {a, b};
    } else {
      assert {a, b, c} == {a, b};
    }
  }

  predicate NoDups<T(==)>(s: Slots<T>)
    requires WellShaped(s)
  {
    forall i :: 0 <= i < |s.left| ==> !IsDup(s, i)
  }

  /** `np.nonzero(n_unique != 3)` over the first n positions: the duplicate
      positions, ascending. */
  function DupsBelow<T(==)>(s: Slots<T>, n: nat): (r: seq<nat>)
    requires WellShaped(s) && n <= |s.left|
    ensures forall k :: 0 <= k < |r| ==> r[k] < n && IsDup(s, r[k])
  {
    if n == 0 then []
    else DupsBelow(s, n - 1) + (if IsDup(s, n - 1) then [n - 1] else [])
  }

  /** Every duplicate position below n is listed, and the list ascends. */
  lemma {:induction false} DupsBelowComplete<T>(s: Slots<T>, n: nat)
    requires WellShaped(s) && n <= |s.left|
    ensures forall i :: 0 <= i < n && IsDup(s, i) ==> i in DupsBelow(s, n)
    ensures forall k, l :: 0 <= k < l < |DupsBelow(s, n)| ==> DupsBelow(s, n)[k] < DupsBelow(s, n)[l]
  {
    if n > 0 {
      DupsBelowComplete(s, n - 1);
    }
  }

  function Dups<T(==)>(s: Slots<T>): (r: seq<nat>)
    requires WellShaped(s)
    ensures forall k :: 0 <= k < |r| ==> r[k] < |s.left| && IsDup(s, r[k])
  {
    DupsBelow(s, |s.left|)
  }

  /** The script's test `len(dups) == 0` is exactly freedom from duplicates. */
  lemma {:induction false} DupsEmptyIff<T>(s: Slots<T>)
    requires WellShaped(s)
    ensures |Dups(s)| == 0 <==> NoDups(s)
  {
    DupsBelowComplete(s, |s.left|);
    var r := Dups(s);
    assert |r| > 0 ==> IsDup(s, r[0]);
  }

  // ----- repairing duplicates -----

  /** The position before i, where index -1 is Python's last element. */
  function Before(i: nat, n: nat): (p: nat)
    requires i < n
    ensures p < n
  {
    if i == 0 then n - 1 else i - 1
  }

  /** Repair of position i: if the left image repeats the centre or right one,
      swap it with the left image before it; otherwise swap the centre image
      with the one before it. The right list is never touched. */
  function RepairAt<T(==)>(s: Slots<T>, i: nat): (r: Slots<T>)
    requires WellShaped(s) && i < |s.left|
    ensures WellShaped(r) && |r.left| == |s.left| && r.right == s.right
    ensures r.left == s.left || r.center == s.center
  {
    var p := Before(i, |s.left|);
    if s.left[i] == s.center[i] || s.left[i] == s.right[i] then
      s.(left := Swap(s.left, p, i))
    else
      s.(center := Swap(s.center, p, i))
  }

  /** The left and centre lists of `a` are permutations of those of `b`. */
  predicate SameImages<T(==)>(a: Slots<T>, b: Slots<T>) {
    multiset(a.left) == multiset(b.left) && multiset(a.center) == multiset(b.center)
  }

  lemma {:induction false} RepairAtPermutes<T>(s: Slots<T>, i: nat)
    requires WellShaped(s) && i < |s.left|
    ensures SameImages(RepairAt(s, i), s)
  {
    var p := Before(i, |s.left|);
    SwapPermutes(s.left, p, i);
    SwapPermutes(s.center, p, i);
  }

  /** One pass: repair the duplicate positions found at the start of the
      pass, in order, each on the lists as the earlier repairs left them. */
  function RepairPass<T(==)>(s: Slots<T>, ds: seq<nat>): (r: Slots<T>)
    requires WellShaped(s) && forall k :: 0 <= k < |ds| ==> ds[k] < |s.left|
    ensures WellShaped(r) && |r.left| == |s.left| && r.right == s.right
    decreases |ds|
  {
    if |ds| == 0 then s
    else RepairPass(RepairAt(s, ds[0]), ds[1..])
  }

  lemma {:induction false} RepairPassPermutes<T>(s: Slots<T>, ds: seq<nat>)
    requires WellShaped(s) && forall k :: 0 <= k < |ds| ==> ds[k] < |s.left|
    ensures SameImages(RepairPass(s, ds), s)
    decreases |ds|
  {
    if |ds| > 0 {
      RepairAtPermutes(s, ds[0]);
      RepairPassPermutes(RepairAt(s, ds[0]), ds[1..]);
    }
  }

  /** The lists after k repair passes. */
  function Repaired<T(==)>(s: Slots<T>, k: nat): (r: Slots<T>)
    requires WellShaped(s)
    ensures WellShaped(r) && |r.left| == |s.left| && r.right == s.right
  {
    if k == 0 then s
    else
      var p := Repaired(s, k - 1);
      RepairPass(p, Dups(p))
  }

  lemma {:induction false} RepairedPermutes<T>(s: Slots<T>, k: nat)
    requires WellShaped(s)
    ensures SameImages(Repaired(s, k), s)
  {
    if k > 0 {
      var p := Repaired(s, k - 1);
      RepairedPermutes(s, k - 1);
      RepairPassPermutes(p, Dups(p));
      assert Repaired(s, k) == RepairPass(p, Dups(p));
    }
  }

  /** The state of the repair loop: the lists and the passes made so far. */
  datatype LoopState<T> = LoopState(lists: Slots<T>, passes: nat)

  /** The repair loop from a given state on: stop when nothing is duplicated,
      give up when the pass count would exceed `MaxIter`. */
  function ResolveFrom<T(==)>(st: LoopState<T>): (r: Result<Slots<T>, BuildError>)
    requires WellShaped(st.lists) && st.passes <= MaxIter
    decreases MaxIter - st.passes
  {
    if st.passes == MaxIter then Failure(NoDuplicateFreeOrder)
    else
      var ds := Dups(st.lists);
      if |ds| == 0 then Success(st.lists)
      else ResolveFrom(LoopState(RepairPass(st.lists, ds), st.passes + 1))
  }

  /** The duplicate repair of one block. An empty block fails its first
      check; the passes keep the length of the lists, so this is the only
      place where emptiness matters. */
  function ResolveDuplicates<T(==)>(s: Slots<T>): (r: Result<Slots<T>, BuildError>)
    requires WellShaped(s)
    ensures IsResolution(s, r)
  {
    if |s.left| == 0 then Failure(EmptyImageList)
    else
      ResolveFromSound(s, 0);
      ResolveFrom(LoopState(s, 0))
  }

  /** What a repair outcome promises about the block it started from: a
      failure is the empty-list error for an empty block and the give-up error
      otherwise; a success is a nonempty duplicate-free block whose left and
      centre lists are permutations of the originals and whose right list is
      the original. */
  predicate IsResolution<T(==)>(s: Slots<T>, r: Result<Slots<T>, BuildError>)
    requires WellShaped(s)
  {
    match r
    case Failure(e) => e == if |s.left| == 0 then EmptyImageList else NoDuplicateFreeOrder
    case Success(v) =>
      && |s.left| > 0
      && WellShaped(v) && NoDups(v) && |v.left| == |s.left| && v.right == s.right
      && SameImages(v, s)
  }

  lemma {:induction false} ResolveFromSound<T>(cur: Slots<T>, iter: nat)
    requires WellShaped(cur) && |cur.left| > 0 && iter <= MaxIter
    ensures IsResolution(cur, ResolveFrom(LoopState(cur, iter)))
    decreases MaxIter - iter
  {
    if iter == MaxIter {
      GiveUpAtLimit(cur, iter);
    } else if NoDups(cur) {
      StopWhenClean(cur, iter);
    } else {
      var next := RepairPass(cur, Dups(cur));
      DupsEmptyIff(cur);
      RepairStep(cur, iter);
      RepairPassPermutes(cur, Dups(cur));
      ResolveFromSound(next, iter + 1);
      ResolutionCarries(cur, next, ResolveFrom(LoopState(next, iter + 1)));
    }
  }

  /** A resolution of a rearranged block is a resolution of the original. */
  lemma {:induction false} ResolutionCarries<T>(s: Slots<T>, t: Slots<T>, r: Result<Slots<T>, BuildError>)
    requires WellShaped(s) && WellShaped(t)
    requires |t.left| == |s.left| && t.right == s.right && SameImages(t, s)
    requires IsResolution(t, r)
    ensures IsResolution(s, r)
  {
  }

  /** The loop as the script runs it, with its pass counter. */
  method RepairLoop<T(==)>(s: Slots<T>) returns (r: Result<Slots<T>, BuildError>)
    requires WellShaped(s)
    ensures r == ResolveDuplicates(s)
  {
    r := RepairPasses(s);
  }

  /** The counted while loop, compared with the recursive passes. */
  method RepairPasses<T(==)>(s: Slots<T>) returns (r: Result<Slots<T>, BuildError>)
    requires WellShaped(s)
    ensures |s.left| == 0 ==> r == Failure(EmptyImageList)
    ensures |s.left| > 0 ==> r == ResolveFrom(LoopState(s, 0))
  {
    var cur := s;
    var iter := 0;
    while true
      invariant WellShaped(cur) && iter <= MaxIter && |cur.left| == |s.left|
      invariant ResolveFrom(LoopState(cur, iter)) == ResolveFrom(LoopState(s, 0))
      decreases MaxIter - iter
    {
      if iter + 1 > MaxIter {
        return Failure(NoDuplicateFreeOrder);
      }
      if |cur.left| == 0 {
        return Failure(EmptyImageList);
      }
      var ds := Dups(cur);
      if |ds| == 0 {
        return Success(cur);
      }
      cur := RepairPass(cur, ds);
      iter := iter + 1;
    }
  }

  /** One more pass. */
  lemma {:induction false} RepairedNext<T>(s: Slots<T>, k: nat)
    requires WellShaped(s)
    ensures Repaired(s, k + 1) == RepairPass(Repaired(s, k), Dups(Repaired(s, k)))
  {
  }

  /** A block that is not clean from the start has a position at all. */
  lemma {:induction false} DirtyNonempty<T>(s: Slots<T>)
    requires WellShaped(s) && !CleanAfter(s, 0)
    ensures |s.left| > 0
  {
    assert Repaired(s, 0) == s;
  }

  lemma {:induction false} GiveUpAtLimit<T>(cur: Slots<T>, iter: nat)
    requires WellShaped(cur) && iter == MaxIter
    ensures ResolveFrom(LoopState(cur, iter)) == Failure(NoDuplicateFreeOrder)
  {
  }

  lemma {:induction false} RepairStep<T>(cur: Slots<T>, iter: nat)
    requires WellShaped(cur) && iter < MaxIter && |Dups(cur)| > 0
    ensures ResolveFrom(LoopState(cur, iter)) == ResolveFrom(LoopState(RepairPass(cur, Dups(cur)), iter + 1))
  {
    var st := LoopState(cur, iter);
    var ds := Dups(st.lists);
    assert st.passes != MaxIter && |ds| != 0;
  }

  lemma {:induction false} StopWhenClean<T>(cur: Slots<T>, iter: nat)
    requires WellShaped(cur) && iter < MaxIter && NoDups(cur)
    ensures ResolveFrom(LoopState(cur, iter)) == Success(cur)
  {
    DupsEmptyIff(cur);
    assert |Dups(cur)| == 0;
  }

  /** The block after k passes is free of duplicates. */
  predicate CleanAfter<T(==)>(s: Slots<T>, k: nat)
    requires WellShaped(s)
  {
    NoDups(Repaired(s, k))
  }

  /** None of the states after a, a+1, ..., b-1 passes is clean. */
  predicate DirtyBetween<T(==)>(s: Slots<T>, a: nat, b: nat)
    requires WellShaped(s)
  {
    forall j :: a <= j < b ==> !CleanAfter(s, j)
  }

  /** An empty block fails with its own error. Otherwise the repair succeeds
      exactly when one of the first `MaxIter` states (after 0, 1, ..., 99
      passes) is free of duplicates, and then it returns the first such state. */
  lemma {:induction false} ResolveDuplicatesSpec<T>(s: Slots<T>)
    requires WellShaped(s)
    ensures |s.left| == 0 ==> ResolveDuplicates(s) == Failure(EmptyImageList)
    ensures DirtyBetween(s, 0, MaxIter) ==> ResolveDuplicates(s) == Failure(NoDuplicateFreeOrder)
    ensures forall k :: 0 <= k < MaxIter && CleanAfter(s, k) && DirtyBetween(s, 0, k) && |s.left| > 0 ==>
      ResolveDuplicates(s) == Success(Repaired(s, k))
  {
    if DirtyBetween(s, 0, MaxIter) {
      assert !CleanAfter(s, 0);
      DirtyNonempty(s);
      ResolveFromRepairedFails(s, 0);
    }
    forall k | 0 <= k < MaxIter && CleanAfter(s, k) && DirtyBetween(s, 0, k) && |s.left| > 0
      ensures ResolveDuplicates(s) == Success(Repaired(s, k))
    {
      ResolveFromRepairedSucceeds(s, 0, k);
    }
  }

  /** A pass from a state that still has a duplicate leads to the next state. */
  lemma {:induction false} RepairedStep<T>(s: Slots<T>, iter: nat)
    requires WellShaped(s) && iter < MaxIter && !CleanAfter(s, iter)
    ensures ResolveFrom(LoopState(Repaired(s, iter), iter)) == ResolveFrom(LoopState(Repaired(s, iter + 1), iter + 1))
  {
    var cur := Repaired(s, iter);
    DupsEmptyIff(cur);
    RepairStep(cur, iter);
    RepairedNext(s, iter);
  }

  lemma {:induction false} ResolveFromRepairedFails<T>(s: Slots<T>, iter: nat)
    requires WellShaped(s) && iter <= MaxIter
    requires DirtyBetween(s, iter, MaxIter)
    ensures ResolveFrom(LoopState(Repaired(s, iter), iter)) == Failure(NoDuplicateFreeOrder)
  {
    ResolveFromSkip(s, iter, MaxIter);
    GiveUpAtLimit(Repaired(s, MaxIter), MaxIter);
  }

  lemma {:induction false} ResolveFromRepairedSucceeds<T>(s: Slots<T>, iter: nat, k: nat)
    requires WellShaped(s) && iter <= k < MaxIter
    requires CleanAfter(s, k) && DirtyBetween(s, iter, k)
    ensures ResolveFrom(LoopState(Repaired(s, iter), iter)) == Success(Repaired(s, k))
  {
    ResolveFromSkip(s, iter, k);
    StopWhenClean(Repaired(s, k), k);
  }

  /** The outcome of the loop started from the state after j passes. */
  function Outcome<T(==)>(s: Slots<T>, j: nat): Result<Slots<T>, BuildError>
    requires WellShaped(s)
  {
    if j <= MaxIter then ResolveFrom(LoopState(Repaired(s, j), j)) else Failure(NoDuplicateFreeOrder)
  }

  /** Passes over states that all still have a duplicate do not change the
      outcome of the loop. */
  lemma {:induction false} ResolveFromSkip<T>(s: Slots<T>, iter: nat, k: nat)
    requires WellShaped(s) && iter <= k <= MaxIter && DirtyBetween(s, iter, k)
    ensures ResolveFrom(LoopState(Repaired(s, iter), iter)) == ResolveFrom(LoopState(Repaired(s, k), k))
  {
    OutcomeSteps(s, iter, k);
    ChainEqual(j => Outcome(s, j), iter, k);
  }

  lemma {:induction false} OutcomeSteps<T>(s: Slots<T>, iter: nat, k: nat)
    requires WellShaped(s) && k <= MaxIter && DirtyBetween(s, iter, k)
    ensures forall j :: iter <= j < k ==> Outcome(s, j) == Outcome(s, j + 1)
  {
    forall j | iter <= j < k
      ensures Outcome(s, j) == Outcome(s, j + 1)
    {
      RepairedStep(s, j);
    }
  }

  /** Equal neighbours all the way from a to b make the ends equal. */
  lemma {:induction false} ChainEqual<R>(f: nat -> R, a: nat, b: nat)
    requires a <= b && forall j :: a <= j < b ==> f(j) == f(j + 1)
    ensures f(a) == f(b)
    decreases b - a
  {
    if a < b {
      ChainEqual(f, a + 1, b);
    }
  }

  /** A nonempty block with no duplicates is returned as it is, on the first
      check and with no pass made. */
  lemma {:induction false} CleanBlockUnchanged<T>(s: Slots<T>)
    requires WellShaped(s) && NoDups(s)
    ensures ResolveDuplicates(s) == if |s.left| == 0 then Failure(EmptyImageList) else Success(s)
  {
  }

  /** The repair loop as written: an empty block fails its first check, and
      the bare name on the repair path raises NameError, so any block with a
      duplicate aborts. */
  function ResolveDuplicatesAsWritten<T(==)>(s: Slots<T>): (r: Result<Slots<T>, BuildError>)
    requires WellShaped(s)
    ensures r.Success? <==> |s.left| > 0 && NoDups(s)
    ensures r.Success? ==> r.value == s
    ensures r.Failure? ==> r.error == if |s.left| == 0 then EmptyImageList else UndefinedName
  {
    DupsEmptyIff(s);
    if |s.left| == 0 then Failure(EmptyImageList)
    else if |Dups(s)| == 0 then Success(s) else Failure(UndefinedName)
  }

  /** A block with one duplicate that a single left swap removes: the repair
      succeeds, the code as written aborts. */
  lemma {:induction false} AsWrittenAbortsRepairableBlock()
    ensures var s := Slots([4, 3, 1, 2], [2, 3, 4, 1], [1, 2, 3, 4]);
      && ResolveDuplicatesAsWritten(s) == Failure(UndefinedName)
      && ResolveDuplicates(s) == Success(Slots([3, 4, 1, 2], [2, 3, 4, 1], [1, 2, 3, 4]))
  {
    var s := Slots([4, 3, 1, 2], [2, 3, 4, 1], [1, 2, 3, 4]);
    RepairableBlockPass(s);
    RepairableBlockResolves(s, Slots([3, 4, 1, 2], [2, 3, 4, 1], [1, 2, 3, 4]));
  }

  /** The example block has its only duplicate at position 1. */
  lemma RepairableBlockPass(s: Slots<int>)
    requires s == Slots([4, 3, 1, 2], [2, 3, 4, 1], [1, 2, 3, 4])
    ensures Dups(s) == [1]
  {
    assert IsDup(s, 1);
    assert !IsDup(s, 0) && !IsDup(s, 2) && !IsDup(s, 3);
    assert DupsBelow(s, 4) == [1];
  }

  /** One pass over the example block swaps the first two left images and
      leaves a duplicate-free block. */
  lemma RepairableBlockResolves(s: Slots<int>, t: Slots<int>)
    requires s == Slots([4, 3, 1, 2], [2, 3, 4, 1], [1, 2, 3, 4])
    requires t == Slots([3, 4, 1, 2], [2, 3, 4, 1], [1, 2, 3, 4])
    requires Dups(s) == [1]
    ensures ResolveFrom(LoopState(s, 0)) == Success(t)
  {
    assert RepairAt(s, 1) == t;
    assert RepairPass(s, [1]) == t;
    assert NoDups(t);
    assert |Dups(t)| == 0;
    assert ResolveFrom(LoopState(t, 1)) == Success(t);
  }

  // ----- the stimulus lists -----

  /** The shuffle draws of one repetition block, one set per slot. */
  datatype BlockDraws = BlockDraws(left: seq<nat>, center: seq<nat>, right: seq<nat>)

  predicate ValidBlockDraws(n: nat, d: BlockDraws) {
    ValidDraws(n, d.left) && ValidDraws(n, d.center) && ValidDraws(n, d.right)
  }

  /** Each slot list is a permutation of `images`. */
  predicate PermutesImages<T(==)>(s: Slots<T>, images: seq<T>) {
    && multiset(s.left) == multiset(images)
    && multiset(s.center) == multiset(images)
    && multiset(s.right) == multiset(images)
  }

  /** The start of a repetition block: every slot gets its own shuffled copy
      of the image list. */
  function ShuffledBlock<T(==)>(images: seq<T>, d: BlockDraws): (s: Slots<T>)
    requires ValidBlockDraws(|images|, d)
    ensures WellShaped(s) && |s.left| == |images|
    ensures PermutesImages(s, images)
  {
    Slots(Shuffle(images, d.left), Shuffle(images, d.center), Shuffle(images, d.right))
  }

  /** Any three orders of the images can start a block. */
  lemma {:induction false} ShuffledBlockReachesAll<T>(images: seq<T>, s: Slots<T>)
    requires PermutesImages(s, images)
    ensures exists d :: ValidBlockDraws(|images|, d) && ShuffledBlock(images, d) == s
  {
    DrawsForWorks(images, s.left);
    DrawsForWorks(images, s.center);
    DrawsForWorks(images, s.right);
    var l, c, r := DrawsFor(images, s.left), DrawsFor(images, s.center), DrawsFor(images, s.right);
    assert ShuffledBlock(images, BlockDraws(l, c, r)) == s;
  }

  predicate AllValidBlockDraws(n: nat, blocks: seq<BlockDraws>) {
    forall b :: 0 <= b < |blocks| ==> ValidBlockDraws(n, blocks[b])
  }

  /** The shuffled start of every block. */
  function StartBlocks<T(==)>(images: seq<T>, blocks: seq<BlockDraws>): (starts: seq<Slots<T>>)
    requires AllValidBlockDraws(|images|, blocks)
    ensures |starts| == |blocks| && UniformBlocks(starts, |images|)
    ensures forall b :: 0 <= b < |starts| ==> PermutesImages(starts[b], images)
  {
    seq(|blocks|, b requires 0 <= b < |blocks| => ShuffledBlock(images, blocks[b]))
  }

  /** Every block is a well-shaped set of three lists of length n. */
  predicate UniformBlocks<T>(starts: seq<Slots<T>>, n: nat) {
    forall b :: 0 <= b < |starts| ==> WellShaped(starts[b]) && |starts[b].left| == n
  }

  /** Every block's repair finds a duplicate-free order. */
  predicate AllBlocksResolve<T(==)>(starts: seq<Slots<T>>) {
    forall b :: 0 <= b < |starts| ==> BlockResolves(starts[b])
  }

  /** The repair of this block finds a duplicate-free order. */
  predicate BlockResolves<T(==)>(s: Slots<T>) {
    WellShaped(s) && ResolveDuplicates(s).Success?
  }

  lemma {:induction false} AllBlocksResolveSnoc<T>(starts: seq<Slots<T>>)
    requires |starts| > 0
    ensures AllBlocksResolve(starts) <==>
      AllBlocksResolve(starts[..|starts| - 1]) && BlockResolves(starts[|starts| - 1])
  {
    var pre := starts[..|starts| - 1];
    assert forall b :: 0 <= b < |pre| ==> pre[b] == starts[b];
  }

  /** Repair each block and append it to the slot lists; the script exits at
      the first block it cannot repair. */
  function JoinBlocks<T(==)>(starts: seq<Slots<T>>, n: nat): (r: Result<Slots<T>, BuildError>)
    requires UniformBlocks(starts, n)
    ensures r.Failure? ==> r.error == if n == 0 then EmptyImageList else NoDuplicateFreeOrder
    ensures r.Success? <==> AllBlocksResolve(starts)
    ensures r.Success? ==> WellShaped(r.value) && |r.value.left| == |starts| * n
    ensures r.Success? ==> NoDups(r.value)
  {
    if |starts| == 0 then Success(Slots([], [], []))
    else
      var pre := starts[..|starts| - 1];
      var last := starts[|starts| - 1];
      MulSucc(|pre|, n);
      AllBlocksResolveSnoc(starts);
      var prev := JoinBlocks(pre, n);
      var blk := ResolveDuplicates(last);
      if prev.Failure? then Failure(prev.error)
      else if blk.Failure? then Failure(blk.error)
      else
        NoDupsConcat(prev.value, blk.value);
        Success(Append(prev.value, blk.value))
  }

  /** The slot lists of the whole run, from the shuffle draws of each block. */
  function BuildStimLists<T(==)>(images: seq<T>, blocks: seq<BlockDraws>): (r: Result<Slots<T>, BuildError>)
    requires AllValidBlockDraws(|images|, blocks)
    ensures r.Failure? ==> r.error == if |images| == 0 then EmptyImageList else NoDuplicateFreeOrder
    ensures r.Success? <==> AllBlocksResolve(StartBlocks(images, blocks))
    ensures r.Success? ==> WellShaped(r.value) && |r.value.left| == |blocks| * |images|
    ensures r.Success? ==> NoDups(r.value)
  {
    JoinBlocks(StartBlocks(images, blocks), |images|)
  }

  /** Extending each slot list by the matching list of another block. */
  function Append<T>(a: Slots<T>, b: Slots<T>): Slots<T> {
    Slots(a.left + b.left, a.center + b.center, a.right + b.right)
  }

  /** Appending a duplicate-free block to duplicate-free lists keeps them so. */
  lemma {:induction false} NoDupsConcat<T>(a: Slots<T>, b: Slots<T>)
    requires WellShaped(a) && WellShaped(b) && NoDups(a) && NoDups(b)
    ensures WellShaped(Append(a, b)) && NoDups(Append(a, b))
  {
    var c := Append(a, b);
    forall i | 0 <= i < |c.left|
      ensures !IsDup(c, i)
    {
      if i < |a.left| {
        assert !IsDup(a, i);
      } else {
        assert !IsDup(b, i - |a.left|);
      }
    }
  }

  /** `x` appears k times as often in `xs` as in `images`. */
  ghost predicate RepeatsImages<T(!new)>(xs: seq<T>, images: seq<T>, k: nat) {
    forall x :: multiset(xs)[x] == k * multiset(images)[x]
  }

  /** Entries `b * n` to `b * n + n - 1` of `xs`, the b-th stretch of n
      (empty when `xs` is too short to hold it). */
  function Block<T>(xs: seq<T>, n: nat, b: nat): (r: seq<T>)
    ensures b * n + n <= |xs| ==> |r| == n
  {
    if b * n + n <= |xs| then xs[b * n..b * n + n] else []
  }

  /** `xs` is `blocks` stretches of `|images|` entries, each a permutation of
      `images`. */
  predicate BlockwisePermutes<T(==)>(xs: seq<T>, images: seq<T>, blocks: nat) {
    && |xs| == blocks * |images|
    && forall b :: 0 <= b < blocks ==> multiset(Block(xs, |images|, b)) == multiset(images)
  }

  /** One more block at the end keeps the stretches before it. */
  lemma {:induction false} BlockwiseSnoc<T>(xs: seq<T>, ys: seq<T>, images: seq<T>, m: nat)
    requires BlockwisePermutes(xs, images, m)
    requires |ys| == |images| && multiset(ys) == multiset(images)
    ensures BlockwisePermutes(xs + ys, images, m + 1)
  {
    var n := |images|;
    var zs := xs + ys;
    MulSucc(m, n);
    forall b | 0 <= b < m + 1
      ensures multiset(Block(zs, n, b)) == multiset(images)
    {
      if b < m {
        BlockInside(b, m, n);
        assert Block(zs, n, b) == Block(xs, n, b);
      } else {
        assert Block(zs, n, b) == ys;
      }
    }
  }

  /** A stretch before the m-th ends within the first m stretches. */
  lemma {:induction false} BlockInside(b: nat, m: nat, n: nat)
    requires b < m
    ensures b * n + n <= m * n
  {
    MulSucc(b, n);
    assert (b + 1) * n <= m * n by {
      MulMonotone(b + 1, m, n);
    }
  }

  lemma {:induction false} MulMonotone(a: nat, m: nat, n: nat)
    requires a <= m
    ensures a * n <= m * n
    decreases m - a
  {
    if a < m {
      MulMonotone(a + 1, m, n);
      MulSucc(a, n);
    }
  }

  /** After all blocks, each image appears once per block in every slot, and
      block by block every slot list is a permutation of the images: every
      image is shown once at each location before the images repeat. */
  lemma {:induction false} JoinBlocksCounts<T(!new)>(starts: seq<Slots<T>>, images: seq<T>)
    requires UniformBlocks(starts, |images|)
    requires forall b :: 0 <= b < |starts| ==> PermutesImages(starts[b], images)
    requires JoinBlocks(starts, |images|).Success?
    ensures var lists := JoinBlocks(starts, |images|).value;
      && RepeatsImages(lists.left, images, |starts|)
      && RepeatsImages(lists.center, images, |starts|)
      && RepeatsImages(lists.right, images, |starts|)
    ensures var lists := JoinBlocks(starts, |images|).value;
      && BlockwisePermutes(lists.left, images, |starts|)
      && BlockwisePermutes(lists.center, images, |starts|)
      && BlockwisePermutes(lists.right, images, |starts|)
  {
    JoinBlocksBlockwise(starts, images);
    JoinBlocksRepeats(starts, images);
  }

  lemma {:induction false} JoinBlocksRepeats<T(!new)>(starts: seq<Slots<T>>, images: seq<T>)
    requires UniformBlocks(starts, |images|)
    requires forall b :: 0 <= b < |starts| ==> PermutesImages(starts[b], images)
    requires JoinBlocks(starts, |images|).Success?
    ensures var lists := JoinBlocks(starts, |images|).value;
      && RepeatsImages(lists.left, images, |starts|)
      && RepeatsImages(lists.center, images, |starts|)
      && RepeatsImages(lists.right, images, |starts|)
  {
    if |starts| > 0 {
      var pre := starts[..|starts| - 1];
      var last := starts[|starts| - 1];
      var prev := JoinBlocks(pre, |images|).value;
      var blk := ResolveDuplicates(last).value;
      JoinBlocksRepeats(pre, images);
      var lists := JoinBlocks(starts, |images|).value;
      assert lists == Append(prev, blk);
      RepeatsSnoc(prev.left, blk.left, images, |pre|);
      RepeatsSnoc(prev.center, blk.center, images, |pre|);
      RepeatsSnoc(prev.right, blk.right, images, |pre|);
    }
  }

  /** One more permutation of the images adds one to every count. */
  lemma {:induction false} RepeatsSnoc<T(!new)>(xs: seq<T>, ys: seq<T>, images: seq<T>, m: nat)
    requires RepeatsImages(xs, images, m) && multiset(ys) == multiset(images)
    ensures RepeatsImages(xs + ys, images, m + 1)
  {
    assert multiset(xs + ys) == multiset(xs) + multiset(ys);
    forall x
      ensures multiset(xs + ys)[x] == (m + 1) * multiset(images)[x]
    {
      MulSucc(m, multiset(images)[x]);
    }
  }

  lemma {:induction false} JoinBlocksBlockwise<T>(starts: seq<Slots<T>>, images: seq<T>)
    requires UniformBlocks(starts, |images|)
    requires forall b :: 0 <= b < |starts| ==> PermutesImages(starts[b], images)
    requires JoinBlocks(starts, |images|).Success?
    ensures var lists := JoinBlocks(starts, |images|).value;
      && BlockwisePermutes(lists.left, images, |starts|)
      && BlockwisePermutes(lists.center, images, |starts|)
      && BlockwisePermutes(lists.right, images, |starts|)
  {
    if |starts| > 0 {
      var pre := starts[..|starts| - 1];
      var last := starts[|starts| - 1];
      var prev := JoinBlocks(pre, |images|).value;
      var blk := ResolveDuplicates(last).value;
      JoinBlocksBlockwise(pre, images);
      var lists := JoinBlocks(starts, |images|).value;
      assert lists == Append(prev, blk);
      BlockwiseSnoc(prev.left, blk.left, images, |pre|);
      BlockwiseSnoc(prev.center, blk.center, images, |pre|);
      BlockwiseSnoc(prev.right, blk.right, images, |pre|);
    }
  }

  lemma {:induction false} MulSucc(a: nat, c: nat)
    ensures a * c + c == (a + 1) * c
  {
  }

  /** The counting promise of the whole run, from the draws. */
  lemma {:induction false} StimListsCounts<T(!new)>(images: seq<T>, blocks: seq<BlockDraws>)
    requires AllValidBlockDraws(|images|, blocks)
    requires BuildStimLists(images, blocks).Success?
    ensures var lists := BuildStimLists(images, blocks).value;
      && RepeatsImages(lists.left, images, |blocks|)
      && RepeatsImages(lists.center, images, |blocks|)
      && RepeatsImages(lists.right, images, |blocks|)
    ensures var lists := BuildStimLists(images, blocks).value;
      && BlockwisePermutes(lists.left, images, |blocks|)
      && BlockwisePermutes(lists.center, images, |blocks|)
      && BlockwisePermutes(lists.right, images, |blocks|)
  {
    JoinBlocksCounts(StartBlocks(images, blocks), images);
  }

  // ----- the trial list -----

  /** The random draws of one trial: the probe coin, the index `choice` picks
      from the probe words, and the unit-interval sample behind `uniform`. */
  datatype TrialDraw = TrialDraw(probe: bool, wordIndex: nat, unit: real)

  predicate ValidTrialDraw(nWords: nat, d: TrialDraw) {
    && (d.probe && nWords > 0 ==> d.wordIndex < nWords)
    && 0.0 <= d.unit < 1.0
  }

  predicate AllValidTrialDraws(nWords: nat, draws: seq<TrialDraw>) {
    forall k :: 0 <= k < |draws| ==> ValidTrialDraw(nWords, draws[k])
  }

  /** One trial record: the three images, the probe word if any, and the time
      fixation must be held before the images appear. */
  datatype TrialInfo<T> = TrialInfo(stimLeft: T, stimCenter: T, stimRight: T,
                                    probeWord: Option<string>, fixDur: real)

  /** `np.random.uniform(low, high)` from its unit sample. */
  function Uniform(low: real, high: real, unit: real): real {
    low + (high - low) * unit
  }

  /** Trial k as the script builds it, or why it cannot. */
  function MakeTrial<T(==)>(lists: Slots<T>, k: nat, words: seq<string>, d: TrialDraw): (r: Result<TrialInfo<T>, BuildError>)
    requires WellShaped(lists) && k < |lists.left| && ValidTrialDraw(|words|, d)
    ensures r.Failure? <==> d.probe && |words| == 0
    ensures r.Failure? ==> r.error == EmptyProbeList
    ensures r.Success? ==> IsTrial(r.value, lists, k, words, d)
  {
    if d.probe && |words| == 0 then Failure(EmptyProbeList)
    else
      var word := if d.probe then Some(words[d.wordIndex]) else None;
      Success(TrialInfo(lists.left[k], lists.center[k], lists.right[k], word,
                        Uniform(FixDurLow, FixDurHigh, d.unit)))
  }

  /** What the script promises about trial k: its images are the k-th of
      each slot list, it has a probe word exactly when the coin said so, the
      word is one of the probe words, and the hold time lies in [0.5, 1.0). */
  predicate IsTrial<T(==)>(t: TrialInfo<T>, lists: Slots<T>, k: nat, words: seq<string>, d: TrialDraw)
    requires WellShaped(lists) && k < |lists.left|
  {
    && t.stimLeft == lists.left[k] && t.stimCenter == lists.center[k] && t.stimRight == lists.right[k]
    && (t.probeWord.Some? <==> d.probe)
    && (t.probeWord.Some? ==> t.probeWord.value in words)
    && FixDurLow <= t.fixDur < FixDurHigh
  }

  /** The trial list, one trial per position of the slot lists, in order. */
  function MakeTrials<T(==)>(lists: Slots<T>, words: seq<string>, draws: seq<TrialDraw>): (r: Result<seq<TrialInfo<T>>, BuildError>)
    requires WellShaped(lists) && |draws| <= |lists.left| && AllValidTrialDraws(|words|, draws)
    ensures r.Failure? <==> |words| == 0 && exists k :: 0 <= k < |draws| && draws[k].probe
    ensures r.Failure? ==> r.error == EmptyProbeList
    ensures r.Success? ==> |r.value| == |draws|
    ensures r.Success? ==> forall k :: 0 <= k < |draws| ==> IsTrial(r.value[k], lists, k, words, draws[k])
  {
    if |draws| == 0 then Success([])
    else
      var n := |draws| - 1;
      var prev :- MakeTrials(lists, words, draws[..n]);
      var t :- MakeTrial(lists, n, words, draws[n]);
      Success(prev + [t])
  }

  /** The whole construction: the slot lists from the shuffles of
      `NRepsPerLoc` blocks, then one trial per position. */
  function BuildTrials<T(==)>(images: seq<T>, words: seq<string>, blocks: seq<BlockDraws>, draws: seq<TrialDraw>)
    : (r: Result<seq<TrialInfo<T>>, BuildError>)
    requires |blocks| == NRepsPerLoc && AllValidBlockDraws(|images|, blocks)
    requires |draws| == NRepsPerLoc * |images| && AllValidTrialDraws(|words|, draws)
    ensures r.Success? ==> |r.value| == NRepsPerLoc * |images|
    ensures r.Success? ==> forall k :: 0 <= k < |r.value| ==> DistinctImages(r.value[k])
    ensures r.Success? <==> BuildStimLists(images, blocks).Success? && MakeTrials(BuildStimLists(images, blocks).value, words, draws).Success?
    ensures r.Success? ==>
      && BuildStimLists(images, blocks).Success?
      && forall k :: 0 <= k < |r.value| ==> IsTrial(r.value[k], BuildStimLists(images, blocks).value, k, words, draws[k])
    ensures |images| == 0 ==> r == Failure(EmptyImageList)
  {
    var lists :- BuildStimLists(images, blocks);
    var trials :- MakeTrials(lists, words, draws);
    TrialsOfCleanLists(lists, words, draws, trials);
    Success(trials)
  }

  /** Trials taken from duplicate-free slot lists never repeat an image. */
  lemma {:induction false} TrialsOfCleanLists<T>(lists: Slots<T>, words: seq<string>, draws: seq<TrialDraw>, trials: seq<TrialInfo<T>>)
    requires WellShaped(lists) && NoDups(lists) && |draws| == |trials| <= |lists.left|
    requires forall k :: 0 <= k < |trials| ==> IsTrial(trials[k], lists, k, words, draws[k])
    ensures forall k :: 0 <= k < |trials| ==> DistinctImages(trials[k])
  {
    forall k | 0 <= k < |trials|
      ensures DistinctImages(trials[k])
    {
      assert IsTrial(trials[k], lists, k, words, draws[k]);
      assert !IsDup(lists, k);
    }
  }

  /** No trial shows the same image twice. */
  predicate DistinctImages<T(==)>(t: TrialInfo<T>) {
    t.stimLeft != t.stimCenter && t.stimLeft != t.stimRight && t.stimCenter != t.stimRight
  }
}
