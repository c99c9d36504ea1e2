/**
 * binary_search and hanoi of lab03/src/recursion_tasks.py. The printed Hanoi
 * moves become the returned sequence of moves; the file-system walk of the
 * same file is not part of this model.
 */
module RecursionTasks {
  import opened Wrappers
  import opened Recursion

  /** The elements of arr[low..high] (both ends included) are in ascending order. */
  predicate SortedBetween(arr: seq<int>, low: int, high: int)
    requires low <= high ==> 0 <= low && high < |arr|
  {
    forall i, j :: low <= i < j <= high ==> arr[i] <= arr[j]
  }

  /** binary_search(arr, target, low, high): -1 for an empty range, otherwise
      compare with the middle element (Python's floor division, which for the
      positive divisor 2 is Dafny's division) and recurse into one half. The
      source reads only indices within low..high, which must then lie in arr. */
  function BinarySearch(arr: seq<int>, target: int, low: int, high: int): (r: int)
    requires low <= high ==> 0 <= low && high < |arr|
    decreases high - low + 1
    ensures r == -1 || (low <= r <= high && arr[r] == target)
    ensures low > high ==> r == -1
    ensures SortedBetween(arr, low, high) ==>
              (r == -1 <==> forall i :: low <= i <= high ==> arr[i] != target)
  {
    if low > high then -1
    else
      var mid := (low + high) / 2;
      if arr[mid] == target then mid
      else if arr[mid] > target then BinarySearch(arr, target, low, mid - 1)
      else BinarySearch(arr, target, mid + 1, high)
  }

  /** The demonstration call of the source: 7 sits at index 3. */
  lemma BinarySearchDemo()
    ensures BinarySearch([1, 3, 5, 7, 9, 11], 7, 0, 5) == 3
  {
  }

  /** One printed line of hanoi: move disk `disk` from peg `from` to peg `to`. */
  datatype Move<P> = Move(disk: nat, from: P, to: P)

  /** hanoi(n, source, target, auxiliary) as the sequence of moves it prints. */
  function Hanoi<P>(n: nat, source: P, target: P, auxiliary: P): (moves: seq<Move<P>>)
    requires n >= 1
    ensures |moves| == Pow(2, n) - 1
  {
    if n == 1 then [Move(1, source, target)]
    else
      Hanoi(n - 1, source, auxiliary, target) + [Move(n, source, target)]
      + Hanoi(n - 1, auxiliary, target, source)
  }

  /** The demonstration call hanoi(3, "A", "C", "B") prints these seven
      moves; a single disk takes one move. */
  lemma HanoiDemo(s: string, t: string, a: string)
    ensures Hanoi(1, s, t, a) == [Move(1, s, t)]
    ensures Hanoi(3, "A", "C", "B")
         == [Move(1, "A", "C"), Move(2, "A", "B"), Move(1, "C", "B"), Move(3, "A", "C"),
             Move(1, "B", "A"), Move(2, "B", "C"), Move(1, "A", "C")]
  {
  }

  /** The move count obeys m(n) = 2 * m(n - 1) + 1. */
  lemma HanoiCountRecurrence<P>(n: nat, source: P, target: P, auxiliary: P)
    requires n >= 2
    ensures |Hanoi(n, source, target, auxiliary)|
         == 2 * |Hanoi(n - 1, source, auxiliary, target)| + 1
  {
  }

  // Playing the moves on three pegs. A peg is a sequence of disk sizes,
  // bottom first; a move is legal when it takes the named disk from the top
  // of its peg and puts it on an empty peg or on a larger disk.

  type Pegs<P> = map<P, seq<nat>>

  /** The disks n, n - 1, ..., 1, bottom first. */
  function Tower(n: nat): seq<nat>
  {
    if n == 0 then [] else [n] + Tower(n - 1)
  }

  /** Every disk on the peg is larger than n, so disks 1..n may go on top. */
  predicate Above(peg: seq<nat>, n: nat)
  {
    forall i :: 0 <= i < |peg| ==> peg[i] > n
  }

  /** A peg that may take disks 1..n may take any fewer. */
  lemma AboveLower(peg: seq<nat>, n: nat, m: nat)
    requires Above(peg, n) && m <= n
    ensures Above(peg, m)
  {
  }

  /** Putting a disk larger than n on such a peg keeps it so. */
  lemma AboveSnoc(peg: seq<nat>, d: nat, n: nat)
    requires Above(peg, n) && d > n
    ensures Above(peg + [d], n)
  {
    assert forall i :: 0 <= i < |peg| ==> (peg + [d])[i] == peg[i];
  }

  /** Applies one move; None when it is not legal. */
  function Step<P>(pegs: Pegs<P>, m: Move<P>): Option<Pegs<P>>
  {
    if m.from in pegs && m.to in pegs && m.from != m.to
       && pegs[m.from] != [] && pegs[m.from][|pegs[m.from]| - 1] == m.disk
       && (pegs[m.to] == [] || pegs[m.to][|pegs[m.to]| - 1] > m.disk)
    then
      var from := pegs[m.from];
      Some(pegs[m.from := from[..|from| - 1]][m.to := pegs[m.to] + [m.disk]])
    else None
  }

  /** Applies the moves in order; None as soon as one is not legal. */
  function Play<P>(pegs: Pegs<P>, moves: seq<Move<P>>): Option<Pegs<P>>
  {
    if moves == [] then Some(pegs)
    else
      match Step(pegs, moves[0])
      case None => None
      case Some(next) => Play(next, moves[1..])
  }

  /** Playing two move sequences one after the other. */
  lemma {:induction false} PlayConcat<P>(pegs: Pegs<P>, xs: seq<Move<P>>, ys: seq<Move<P>>)
    ensures Play(pegs, xs + ys)
         == match Play(pegs, xs) case None => None case Some(mid) => Play(mid, ys)
  {
    if xs != [] {
      assert (xs + ys)[0] == xs[0];
      assert (xs + ys)[1..] == xs[1..] + ys;
      match Step(pegs, xs[0])
      case None =>
      case Some(next) => PlayConcat(next, xs[1..], ys);
    } else {
      assert xs + ys == ys;
    }
  }

  /** Three move sequences played in a row. */
  lemma PlayThree<P>(pegs: Pegs<P>, xs: seq<Move<P>>, ys: seq<Move<P>>, zs: seq<Move<P>>,
                     mid1: Pegs<P>, mid2: Pegs<P>)
    requires Play(pegs, xs) == Some(mid1) && Play(mid1, ys) == Some(mid2)
    ensures Play(pegs, xs + ys + zs) == Play(mid2, zs)
  {
    PlayConcat(pegs, xs, ys);
    PlayConcat(pegs, xs + ys, zs);
  }

  /** A legal move of the top disk d from peg f onto peg t. */
  lemma StepTop<P>(pegs: Pegs<P>, d: nat, f: P, t: P, rest: seq<nat>)
    requires f != t && f in pegs && t in pegs
    requires pegs[f] == rest + [d] && Above(pegs[t], d)
    ensures Play(pegs, [Move(d, f, t)]) == Some(pegs[f := rest][t := pegs[t] + [d]])
  {
    assert pegs[f][..|pegs[f]| - 1] == rest;
    assert pegs[t] != [] ==> pegs[t][|pegs[t]| - 1] > d;
    assert [Move(d, f, t)][1..] == [];
  }

  /** The pegs after the first two phases of hanoi(n): the n - 1 smaller
      disks sit on auxiliary and disk n on target; the third phase starts
      there and ends with the whole tower on target. */
  lemma MiddlePegs<P>(pegs: Pegs<P>, source: P, target: P, auxiliary: P, base: seq<nat>, n: nat)
    requires n >= 2
    requires source != target && target != auxiliary && auxiliary != source
    requires source in pegs && target in pegs && auxiliary in pegs
    requires Above(base, n) && Above(pegs[target], n)
    ensures var s2 := pegs[source := base + [n]][auxiliary := pegs[auxiliary] + Tower(n - 1)]
                          [source := base][target := pegs[target] + [n]];
      && auxiliary in s2 && target in s2 && source in s2
      && s2[auxiliary] == pegs[auxiliary] + Tower(n - 1)
      && Above(s2[target], n - 1) && Above(s2[source], n - 1)
      && s2[auxiliary := pegs[auxiliary]][target := s2[target] + Tower(n - 1)]
         == pegs[source := base][target := pegs[target] + Tower(n)]
  {
    AboveSnoc(pegs[target], n, n - 1);
    AboveLower(base, n, n - 1);
    assert pegs[target] + [n] + Tower(n - 1) == pegs[target] + Tower(n);
  }

  /** hanoi moves the top n disks from source to target legally: starting from
      any position where source holds the tower n..1 on top of larger disks and
      the other two pegs hold only larger disks, the moves are all legal and
      end with the tower on top of target and every other disk where it was. */
  lemma {:induction false} HanoiSolves<P>(n: nat, source: P, target: P, auxiliary: P,
                                          pegs: Pegs<P>, base: seq<nat>)
    requires n >= 1
    requires source != target && target != auxiliary && auxiliary != source
    requires source in pegs && target in pegs && auxiliary in pegs
    requires pegs[source] == base + Tower(n)
    requires Above(base, n) && Above(pegs[target], n) && Above(pegs[auxiliary], n)
    ensures Play(pegs, Hanoi(n, source, target, auxiliary))
         == Some(pegs[source := base][target := pegs[target] + Tower(n)])
  {
    if n == 1 {
      assert Tower(1) == [1];
      StepTop(pegs, 1, source, target, base);
    } else {
      var first := Hanoi(n - 1, source, auxiliary, target);
      var last := Hanoi(n - 1, auxiliary, target, source);
      var m := Move(n, source, target);
      // Phase 1: the n - 1 smaller disks go from source to auxiliary.
      assert pegs[source] == (base + [n]) + Tower(n - 1);
      AboveSnoc(base, n, n - 1);
      AboveLower(pegs[target], n, n - 1);
      AboveLower(pegs[auxiliary], n, n - 1);
      HanoiSolves(n - 1, source, auxiliary, target, pegs, base + [n]);
      var s1 := pegs[source := base + [n]][auxiliary := pegs[auxiliary] + Tower(n - 1)];
      // Phase 2: disk n goes from source to target.
      StepTop(s1, n, source, target, base);
      var s2 := s1[source := base][target := pegs[target] + [n]];
      // Phase 3: the n - 1 smaller disks go from auxiliary onto disk n.
      MiddlePegs(pegs, source, target, auxiliary, base, n);
      HanoiSolves(n - 1, auxiliary, target, source, s2, pegs[auxiliary]);
      assert Hanoi(n, source, target, auxiliary) == first + [m] + last;
      PlayThree(pegs, first, [m], last, s1, s2);
    }
  }
}
