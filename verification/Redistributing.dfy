/** RedistributeSupernodal: moves the columns so that every rank owns whole supernodes. */
module Redistributing {
  import opened Sequences
  import opened Sorting
  import opened SparseGraphs
  import opened DistGraphs
  import opened Slices
  import opened Redistribution
  import opened Gathering

  function Min(a: nat, b: nat): nat { if a < b then a else b }

  function Max(a: nat, b: nat): nat { if a > b then a else b }

  // ---- Supernodes and their ranks ----

  /** Supernode s (from 1) holds the columns xsuper[s - 1] .. xsuper[s] - 1 (from 1); rank p gets the
      supernodes xsuperdist[p] .. xsuperdist[p + 1] - 1, which may be none. */
  datatype Supernodal = Supernodal(xsuper: seq<nat>, xsuperdist: seq<nat>, supMembership: seq<nat>) {

    ghost predicate Valid(n: nat, np: nat) {
      && np >= 1 && |xsuper| >= 1 && xsuper[0] == 1 && xsuper[|xsuper| - 1] == n + 1
      && (forall i, j :: 0 <= i < j < |xsuper| ==> xsuper[i] < xsuper[j])
      && |xsuperdist| == np + 1 && xsuperdist[0] == 1 && xsuperdist[np] == |xsuper|
      && (forall i, j :: 0 <= i <= j < |xsuperdist| ==> xsuperdist[i] <= xsuperdist[j])
      && |supMembership| == n && forall c :: 0 <= c < n ==> Inside(c)
    }

    ghost predicate Inside(c: nat)
      requires c < |supMembership|
    {
      1 <= supMembership[c] < |xsuper| && xsuper[supMembership[c] - 1] <= c + 1 < xsuper[supMembership[c]]
    }

    /** The first column (from 0) of every rank, and the number of columns. */
    ghost function Split(n: nat, np: nat): (split: seq<nat>)
      requires Valid(n, np)
      ensures |split| == np + 1
    {
      DistInRange(n, np);
      seq(np + 1, p requires 0 <= p < np + 1 => xsuper[xsuperdist[p] - 1] - 1)
    }

    lemma DistInRange(n: nat, np: nat)
      requires Valid(n, np)
      ensures forall p :: 0 <= p <= np ==> 1 <= xsuperdist[p] <= |xsuper|
      ensures forall i :: 0 <= i < |xsuper| ==> xsuper[i] >= 1
    {
    }

    lemma SplitAt(n: nat, np: nat, p: nat)
      requires Valid(n, np) && p <= np
      ensures 1 <= xsuperdist[p] <= |xsuper| && Split(n, np)[p] + 1 == xsuper[xsuperdist[p] - 1]
    {
      DistInRange(n, np);
    }

    lemma SplitShape(n: nat, np: nat)
      requires Valid(n, np)
      ensures SplitsFromZero(Split(n, np), n)
    {
      DistInRange(n, np);
      var split := Split(n, np);
      forall i, j | 0 <= i <= j <= np ensures split[i] <= split[j] {
        assert xsuperdist[i] <= xsuperdist[j];
        assert xsuperdist[i] == xsuperdist[j] || xsuper[xsuperdist[i] - 1] < xsuper[xsuperdist[j] - 1];
      }
    }

    /** The rank that gets the column, found by scanning the ranks. */
    method Destination(col: nat, ghost n: nat, np: nat) returns (pdest: nat)
      requires Valid(n, np) && col < n
      ensures pdest < np && Split(n, np)[pdest] <= col < Split(n, np)[pdest + 1]
    {
      var snode := supMembership[col];
      assert Inside(col);
      pdest := 0;
      while pdest < np && !(xsuperdist[pdest] <= snode < xsuperdist[pdest + 1])
        invariant pdest <= np && xsuperdist[pdest] <= snode
      {
        pdest := pdest + 1;
      }
      DistInRange(n, np);
      var from, to := xsuperdist[pdest] - 1, xsuperdist[pdest + 1] - 1;
      assert from == snode - 1 || xsuper[from] < xsuper[snode - 1];
      assert to == snode || xsuper[snode] < xsuper[to];
    }
  }

  // ---- What stays and what goes ----

  /** The counts the method starts with: columns and rows before and after the part that stays. */
  datatype Plan = Plan(colsBefore: nat, rowsBefore: nat, colsAfter: nat, startColAfter: nat, rowsAfter: nat)

  // ---- Column numbers are unsigned, counts of columns are signed, both of 32 bits ----

  const IDX_COUNT: nat := 0x1_0000_0000
  const INT_LIMIT: nat := 0x8000_0000

  function Before(x: nat): nat { if x == 0 then IDX_COUNT - 1 else x - 1 }

  /** An unsigned difference, stored as a count. */
  function Signed(x: int): int { var u := x % IDX_COUNT; if u < INT_LIMIT then u else u - IDX_COUNT }

  /** How many columns the rank counts before and after its new block supFirst .. supEnd - 1, of the
      columns first .. end - 1 it has now. Either block may be empty. */
  function OwnCounts(first: nat, end: nat, supFirst: nat, supEnd: nat): (counts: (int, int)) {
    var last, supLast := Before(end), Before(supEnd);
    (if supFirst > first then Signed(Min(last, supFirst) - first + if last < supFirst then 1 else 0) else 0,
     if last > supLast then Signed(last - Max(first, supLast) + if first > supLast then 1 else 0) else 0)
  }

  /** A block that ends before the first column is empty, and the other one is empty then too. */
  ghost predicate Alike(first: nat, end: nat, supFirst: nat, supEnd: nat) {
    (end == 0 ==> supEnd == 0) && (supEnd == 0 ==> first == end)
  }

  /** The columns before and after the new block are counted. */
  predicate CountsRight(first: nat, end: nat, supFirst: nat, supEnd: nat)
    requires first <= end && supFirst <= supEnd
  {
    var counts := OwnCounts(first, end, supFirst, supEnd);
    counts.0 == Clamp(supFirst, first, end) - first && counts.1 == end - Clamp(supEnd, first, end)
  }

  /** The counts are right exactly when no empty block at column 0 meets one that is not. */
  lemma CountsAreRight(first: nat, end: nat, supFirst: nat, supEnd: nat)
    requires first <= end < INT_LIMIT && supFirst <= supEnd < INT_LIMIT
    ensures CountsRight(first, end, supFirst, supEnd) <==> Alike(first, end, supFirst, supEnd)
  {
  }

  ghost predicate CountsFit(colptr: seq<nat>, first: nat, supFirst: nat, supEnd: nat) {
    && |colptr| >= 1 && first + |colptr| - 1 < INT_LIMIT && supFirst <= supEnd < INT_LIMIT
    && Alike(first, first + |colptr| - 1, supFirst, supEnd)
  }

  /** The counts of a rank with so many columns from first on. */
  function PlanOf(colptr: seq<nat>, first: nat, supFirst: nat, supEnd: nat): Plan
    requires CountsFit(colptr, first, supFirst, supEnd) && NonDescending(colptr)
  {
    var end := first + |colptr| - 1;
    CountsAreRight(first, end, supFirst, supEnd);
    var last, supLast := Before(end), Before(supEnd);
    var (colsBefore, colsAfter) := OwnCounts(first, end, supFirst, supEnd);
    var rowsBefore := if colsBefore > 0 then colptr[Min(last, supFirst) - first] - colptr[0] else 0;
    var startColAfter := (Max(first, supLast) + if first > supLast then 0 else 1) % IDX_COUNT;
    var rowsAfter := if colsAfter > 0 then colptr[last + 1 - first] - colptr[startColAfter - first] else 0;
    Plan(colsBefore, rowsBefore, colsAfter, startColAfter, rowsAfter)
  }

  /** The column counts of a plan, in terms of the two blocks cut against each other. */
  lemma PlanCounts(colptr: seq<nat>, first: nat, supFirst: nat, supEnd: nat)
    requires CountsFit(colptr, first, supFirst, supEnd) && NonDescending(colptr)
    ensures var plan, end := PlanOf(colptr, first, supFirst, supEnd), first + |colptr| - 1;
      var a, b := Clamp(first, supFirst, supEnd), Clamp(end, supFirst, supEnd);
      && a <= b && plan.colsBefore + (b - a) + plan.colsAfter + 1 == |colptr|
      && (b > a ==> first + plan.colsBefore == a)
      && (plan.colsBefore > 0 ==> first + plan.colsBefore == Min(supFirst, end))
      && (plan.colsBefore == 0 <==> supFirst <= first || first == end)
      && (plan.colsAfter > 0 ==> plan.startColAfter == Max(first, supEnd) && plan.startColAfter + plan.colsAfter == end)
      && (plan.colsAfter == 0 <==> end <= supEnd || first == end)
  {
    CountsAreRight(first, first + |colptr| - 1, supFirst, supEnd);
    hide OwnCounts;
  }

  lemma PlanRowsAfter(colptr: seq<nat>, first: nat, supFirst: nat, supEnd: nat)
    requires CountsFit(colptr, first, supFirst, supEnd) && NonDescending(colptr)
    ensures var plan := PlanOf(colptr, first, supFirst, supEnd);
      && plan.colsAfter < |colptr|
      && plan.rowsAfter == colptr[|colptr| - 1] - colptr[|colptr| - 1 - plan.colsAfter]
  {
    CountsAreRight(first, first + |colptr| - 1, supFirst, supEnd);
    hide OwnCounts;
  }

  /** The rows before the part that stays are counted right, unless the new block starts beyond the old
      one: then all columns go to earlier ranks, and the rows of the last one are not counted. */
  ghost predicate RowsCounted(colptr: seq<nat>, first: nat, supFirst: nat)
    requires |colptr| >= 1
  {
    |colptr| == 1 || supFirst <= first + |colptr| - 2 || colptr[|colptr| - 2] == colptr[|colptr| - 1]
  }

  lemma PlanRows(colptr: seq<nat>, first: nat, supFirst: nat, supEnd: nat)
    requires CountsFit(colptr, first, supFirst, supEnd) && NonDescending(colptr)
    ensures var plan := PlanOf(colptr, first, supFirst, supEnd);
      && plan.rowsBefore <= colptr[plan.colsBefore] - colptr[0]
      && (plan.rowsBefore == colptr[plan.colsBefore] - colptr[0] <==> RowsCounted(colptr, first, supFirst))
  {
    CountsAreRight(first, first + |colptr| - 1, supFirst, supEnd);
    hide OwnCounts;
  }

  // ---- Sending ----

  /** Sizes and displacements for one destination, in entries: columns x .. y - 1 go there, or none. */
  ghost predicate Booked(colptr: seq<nat>, first: nat, x: int, y: int, size: nat, displ: int, sizeR: nat, displR: int)
    requires first <= x && y - first < |colptr| && NonDescending(colptr)
  {
    if x < y then
      size == y - x && displ == x - first && sizeR + colptr[x - first] == colptr[y - first]
        && displR + 1 == colptr[x - first]
    else Unbooked(size, displ, sizeR, displR)
  }

  predicate Unbooked(size: nat, displ: int, sizeR: nat, displR: int) {
    size == 0 && displ == -1 && sizeR == 0 && displR == -1
  }

  /** What has been booked for rank r when the columns a .. b - 1 have been gone through. */
  ghost predicate BookedFor(colptr: seq<nat>, first: nat, split: seq<nat>, a: nat, b: nat, r: nat,
                            size: nat, displ: int, sizeR: nat, displR: int)
    requires first <= a <= b && b - first < |colptr| && NonDescending(colptr) && r + 1 < |split|
  {
    Booked(colptr, first, Max(a, split[r]), Min(b, split[r + 1]), size, displ, sizeR, displR)
  }

  /** One column is booked for its rank. */
  lemma BookOne(colptr: seq<nat>, first: nat, split: seq<nat>, a: nat, col: nat, r: nat, dest: nat,
                size: nat, displ: int, sizeR: nat, displR: int)
    requires first <= a <= col && col + 1 - first < |colptr| && NonDescending(colptr) && colptr[0] >= 1
    requires r + 1 < |split| && dest + 1 < |split| && forall i, j :: 0 <= i <= j < |split| ==> split[i] <= split[j]
    requires split[dest] <= col < split[dest + 1]
    requires BookedFor(colptr, first, split, a, col, r, size, displ, sizeR, displR)
    ensures var l := col - first; var rows := colptr[l + 1] - colptr[l];
      if r == dest then BookedFor(colptr, first, split, a, col + 1, r, size + 1,
        if displ == -1 then l else displ, sizeR + rows, if displR == -1 then colptr[l] - 1 else displR)
      else BookedFor(colptr, first, split, a, col + 1, r, size, displ, sizeR, displR)
  {
    if r < dest {
      assert split[r + 1] <= split[dest];
    } else if r > dest {
      assert split[dest + 1] <= split[r];
    }
  }

  /** The four send arrays, one entry a rank. */
  datatype Booking = Booking(sizes: seq<nat>, displs: seq<int>, sizesR: seq<nat>, displsR: seq<int>) {

    ghost predicate For(np: nat) { |sizes| == |displs| == |sizesR| == |displsR| == np }

    /** One more column, with so many rows, for rank r. */
    function With(r: nat, l: nat, rows: nat, start: int): Booking
      requires r < |sizes| && For(|sizes|)
    {
      Booking(sizes[r := sizes[r] + 1], if displs[r] == -1 then displs[r := l] else displs,
              sizesR[r := sizesR[r] + rows], if displsR[r] == -1 then displsR[r := start] else displsR)
    }
  }

  /** Some of the columns from .. to - 1 go to rank r. */
  ghost predicate Aimed(split: seq<nat>, from: nat, to: nat, r: nat)
    requires r + 1 < |split|
  {
    Max(from, split[r]) < Min(to, split[r + 1])
  }

  /** Rank r after the columns before col: booked, if any of the loop's columns go there, else as before. */
  ghost predicate RankBooked(colptr: seq<nat>, first: nat, split: seq<nat>, from: nat, to: nat, col: nat, was: Booking,
                             b: Booking, r: nat)
    requires first <= from <= col <= to && to - first < |colptr| && NonDescending(colptr) && r + 1 < |split|
    requires was.For(|split| - 1) && b.For(|split| - 1)
  {
    if Aimed(split, from, to, r)
    then BookedFor(colptr, first, split, from, col, r, b.sizes[r], b.displs[r], b.sizesR[r], b.displsR[r])
    else
      && b.sizes[r] == was.sizes[r] && b.displs[r] == was.displs[r]
      && b.sizesR[r] == was.sizesR[r] && b.displsR[r] == was.displsR[r]
  }

  ghost predicate AllBooked(colptr: seq<nat>, first: nat, split: seq<nat>, from: nat, to: nat, col: nat, was: Booking,
                            b: Booking)
    requires first <= from <= col <= to && to - first < |colptr| && NonDescending(colptr)
  {
    && |split| >= 1 && was.For(|split| - 1) && b.For(|split| - 1)
    && forall r :: 0 <= r < |split| - 1 ==> RankBooked(colptr, first, split, from, to, col, was, b, r)
  }

  /** Ranks that the loop's columns go to have nothing booked yet. */
  ghost predicate Free(split: seq<nat>, from: nat, to: nat, b: Booking) {
    && |split| >= 1 && b.For(|split| - 1)
    && forall r :: 0 <= r < |split| - 1 && Aimed(split, from, to, r) ==>
         Unbooked(b.sizes[r], b.displs[r], b.sizesR[r], b.displsR[r])
  }

  lemma NothingBooked(colptr: seq<nat>, first: nat, split: seq<nat>, from: nat, to: nat, b: Booking)
    requires first <= from <= to && to - first < |colptr| && NonDescending(colptr) && Free(split, from, to, b)
    ensures AllBooked(colptr, first, split, from, to, from, b, b)
  {
  }

  lemma BookNext(colptr: seq<nat>, first: nat, split: seq<nat>, from: nat, to: nat, col: nat, was: Booking, b: Booking,
                 dest: nat)
    requires first <= from <= col < to && to - first < |colptr| && NonDescending(colptr) && colptr[0] >= 1
    requires forall i, j :: 0 <= i <= j < |split| ==> split[i] <= split[j]
    requires dest + 1 < |split| && split[dest] <= col < split[dest + 1]
    requires AllBooked(colptr, first, split, from, to, col, was, b)
    ensures 1 <= colptr[col - first] <= colptr[col - first + 1]
    ensures AllBooked(colptr, first, split, from, to, col + 1, was,
      b.With(dest, col - first, colptr[col - first + 1] - colptr[col - first], colptr[col - first] - 1))
  {
    hide BookedFor;
    var l := col - first;
    assert colptr[l] <= colptr[l + 1];
    var b' := b.With(dest, l, colptr[l + 1] - colptr[l], colptr[l] - 1);
    var next := col + 1;
    forall r | 0 <= r < |split| - 1 ensures RankBooked(colptr, first, split, from, to, next, was, b', r) {
      assert RankBooked(colptr, first, split, from, to, col, was, b, r);
      if Aimed(split, from, to, r) {
        BookOne(colptr, first, split, from, col, r, dest, b.sizes[r], b.displs[r], b.sizesR[r], b.displsR[r]);
      } else {
        assert r != dest;
      }
    }
  }

  method BookColumn(colptr: seq<nat>, l: nat, pdest: nat,
                    ssizes: array<nat>, sdispls: array<int>, ssizesR: array<nat>, sdisplsR: array<int>)
    requires l + 1 < |colptr| && 1 <= colptr[l] <= colptr[l + 1] && ssizes != ssizesR && sdispls != sdisplsR
    requires pdest < ssizes.Length == sdispls.Length == ssizesR.Length == sdisplsR.Length
    modifies ssizes, sdispls, ssizesR, sdisplsR
    ensures Booked4(ssizes, sdispls, ssizesR, sdisplsR)
      == old(Booked4(ssizes, sdispls, ssizesR, sdisplsR)).With(pdest, l, colptr[l + 1] - colptr[l], colptr[l] - 1)
  {
    if sdispls[pdest] == -1 {
      sdispls[pdest] := l;
    }
    ssizes[pdest] := ssizes[pdest] + 1;
    var nrows := colptr[l + 1] - colptr[l];
    if sdisplsR[pdest] == -1 {
      sdisplsR[pdest] := colptr[l] - 1;
    }
    ssizesR[pdest] := ssizesR[pdest] + nrows;
  }

  ghost function Booked4(ssizes: array<nat>, sdispls: array<int>, ssizesR: array<nat>, sdisplsR: array<int>): Booking
    reads ssizes, sdispls, ssizesR, sdisplsR
  {
    Booking(ssizes[..], sdispls[..], ssizesR[..], sdisplsR[..])
  }

  /** One turn of the loop. */
  method BookNextColumn(colptr: seq<nat>, first: nat, col: nat, sn: Supernodal, np: nat,
                        ssizes: array<nat>, sdispls: array<int>, ssizesR: array<nat>, sdisplsR: array<int>,
                        ghost n: nat, ghost from: nat, ghost to: nat, ghost was: Booking)
    requires sn.Valid(n, np) && first <= from <= col < to <= n && to - first < |colptr| && NonDescending(colptr)
    requires colptr[0] >= 1
    requires ssizes != ssizesR && sdispls != sdisplsR
    requires AllBooked(colptr, first, sn.Split(n, np), from, to, col, was, Booked4(ssizes, sdispls, ssizesR, sdisplsR))
    modifies ssizes, sdispls, ssizesR, sdisplsR
    ensures AllBooked(colptr, first, sn.Split(n, np), from, to, col + 1, was,
                      Booked4(ssizes, sdispls, ssizesR, sdisplsR))
  {
    hide NonDescending, RankBooked, sn.Valid, sn.Split, Booking.With, SplitsFromZero;
    var pdest := sn.Destination(col, n, np);
    sn.SplitShape(n, np);
    ghost var booked := Booked4(ssizes, sdispls, ssizesR, sdisplsR);
    BookNext(colptr, first, sn.Split(n, np), from, to, col, was, booked, pdest);
    BookColumn(colptr, col - first, pdest, ssizes, sdispls, ssizesR, sdisplsR);
  }

  /** The loop over the columns from .. to - 1: books each for its rank. */
  method BookColumns(colptr: seq<nat>, first: nat, from: nat, to: nat, sn: Supernodal, np: nat, ghost n: nat,
                     ssizes: array<nat>, sdispls: array<int>, ssizesR: array<nat>, sdisplsR: array<int>)
    requires sn.Valid(n, np) && first <= from <= to <= n && to - first < |colptr| && NonDescending(colptr)
    requires colptr[0] >= 1
    requires ssizes != ssizesR && sdispls != sdisplsR
    requires Free(sn.Split(n, np), from, to, Booked4(ssizes, sdispls, ssizesR, sdisplsR))
    modifies ssizes, sdispls, ssizesR, sdisplsR
    ensures AllBooked(colptr, first, sn.Split(n, np), from, to, to,
      old(Booked4(ssizes, sdispls, ssizesR, sdisplsR)), Booked4(ssizes, sdispls, ssizesR, sdisplsR))
  {
    hide NonDescending, AllBooked, Free, sn.Valid, sn.Split, Booking.With, Booked4;
    ghost var was := Booked4(ssizes, sdispls, ssizesR, sdisplsR);
    NothingBooked(colptr, first, sn.Split(n, np), from, to, was);
    for col := from to to
      invariant AllBooked(colptr, first, sn.Split(n, np), from, to, col, was,
                          Booked4(ssizes, sdispls, ssizesR, sdisplsR))
    {
      BookNextColumn(colptr, first, col, sn, np, ssizes, sdispls, ssizesR, sdisplsR, n, from, to, was);
    }
  }

  function Extra(size: nat): nat { if size > 0 then size + 1 else 0 }

  /** One more column pointer for every rank that gets columns. */
  method AddExtra(ssizes: array<nat>)
    modifies ssizes
    ensures forall r :: 0 <= r < ssizes.Length ==> ssizes[r] == Extra(old(ssizes[r]))
  {
    for p := 0 to ssizes.Length
      invariant forall r :: 0 <= r < ssizes.Length ==>
        ssizes[r] == if r < p then Extra(old(ssizes[r])) else old(ssizes[r])
    {
      if ssizes[p] > 0 {
        ssizes[p] := ssizes[p] + 1;
      }
    }
  }

  method AddSizes(ssizes: array<nat>, more: array<nat>)
    requires ssizes != more && ssizes.Length == more.Length
    modifies ssizes
    ensures forall r :: 0 <= r < ssizes.Length ==> ssizes[r] == old(ssizes[r]) + more[r]
  {
    for p := 0 to ssizes.Length
      invariant forall r :: 0 <= r < ssizes.Length ==> ssizes[r] == old(ssizes[r]) + if r < p then more[r] else 0
    {
      ssizes[p] := ssizes[p] + more[p];
    }
  }

  method Filled<T>(n: nat, x: T) returns (a: array<T>)
    ensures fresh(a) && a.Length == n && forall r :: 0 <= r < n ==> a[r] == x
  {
    a := new T[n](_ => x);
  }

  /** What the first loop leaves, over the columns before to. */
  ghost predicate FirstBooked(colptr: seq<nat>, first: nat, split: seq<nat>, to: nat, b0: Booking, b1: Booking)
    requires first <= to && to - first < |colptr| && NonDescending(colptr)
  {
    if to > first then AllBooked(colptr, first, split, first, to, to, b0, b1) else b1 == b0
  }

  /** The columns of a rank, those before and those after the part that stays, both as loops see them. */
  ghost predicate TwoPhases(colptr: seq<nat>, first: nat, split: seq<nat>, me: nat, plan: Plan, b0: Booking,
                            b1: Booking, a1: seq<nat>, b2: Booking)
    requires me + 1 < |split| && CountsFit(colptr, first, split[me], split[me + 1]) && NonDescending(colptr)
    requires plan == PlanOf(colptr, first, split[me], split[me + 1])
  {
    PlanCounts(colptr, first, split[me], split[me + 1]);
    var np := |split| - 1;
    && b0.For(np) && (forall r :: 0 <= r < np ==> Unbooked(b0.sizes[r], b0.displs[r], b0.sizesR[r], b0.displsR[r]))
    && FirstBooked(colptr, first, split, first + plan.colsBefore, b0, b1)
    && |a1| == np && (forall r :: 0 <= r < np ==> a1[r] == 0)
    && var mid := Booking(a1, b1.displs, b1.sizesR, b1.displsR);
      if plan.colsAfter == 0 then b2 == mid else
        var to := plan.startColAfter + plan.colsAfter;
        AllBooked(colptr, first, split, plan.startColAfter, to, to, mid, b2)
  }

  /** After the first loop nothing is booked for the ranks of the second. */
  lemma SecondPhaseFree(colptr: seq<nat>, first: nat, split: seq<nat>, me: nat, plan: Plan, b0: Booking, b1: Booking,
                        a1: seq<nat>)
    requires me + 1 < |split| && CountsFit(colptr, first, split[me], split[me + 1]) && NonDescending(colptr)
    requires forall i, j :: 0 <= i <= j < |split| ==> split[i] <= split[j]
    requires plan == PlanOf(colptr, first, split[me], split[me + 1]) && plan.colsAfter > 0
    requires b0.For(|split| - 1)
    requires (forall r :: 0 <= r < |split| - 1 ==> Unbooked(b0.sizes[r], b0.displs[r], b0.sizesR[r], b0.displsR[r]))
    requires first + plan.colsBefore - first < |colptr|
    requires FirstBooked(colptr, first, split, first + plan.colsBefore, b0, b1)
    requires |a1| == |split| - 1 && (forall r :: 0 <= r < |split| - 1 ==> a1[r] == 0)
    ensures Free(split, plan.startColAfter, plan.startColAfter + plan.colsAfter,
                 Booking(a1, b1.displs, b1.sizesR, b1.displsR))
  {
    PlanCounts(colptr, first, split[me], split[me + 1]);
    hide NonDescending, BookedFor, PlanOf;
    var b := Booking(a1, b1.displs, b1.sizesR, b1.displsR);
    var from, to := plan.startColAfter, plan.startColAfter + plan.colsAfter;
    forall r | 0 <= r < |split| - 1 && Aimed(split, from, to, r)
      ensures Unbooked(b.sizes[r], b.displs[r], b.sizesR[r], b.displsR[r])
    {
      if r <= me {
        assert split[r + 1] <= split[me + 1];
      } else {
        assert split[me] <= split[r];
        if plan.colsBefore > 0 {
          assert RankBooked(colptr, first, split, first, first + plan.colsBefore, first + plan.colsBefore, b0, b1, r);
        }
      }
    }
  }

  /** The bookings for rank r after the first loop. */
  lemma BeforePhase(colptr: seq<nat>, first: nat, split: seq<nat>, me: nat, plan: Plan, b0: Booking, b1: Booking,
                    r: nat)
    requires me + 1 < |split| && CountsFit(colptr, first, split[me], split[me + 1]) && NonDescending(colptr)
    requires forall i, j :: 0 <= i <= j < |split| ==> split[i] <= split[j]
    requires plan == PlanOf(colptr, first, split[me], split[me + 1]) && plan.colsBefore < |colptr|
    requires r + 1 < |split| && b0.For(|split| - 1) && b1.For(|split| - 1)
    requires Unbooked(b0.sizes[r], b0.displs[r], b0.sizesR[r], b0.displsR[r])
    requires FirstBooked(colptr, first, split, first + plan.colsBefore, b0, b1)
    ensures var x, y := Max(first, split[r]), Min(first + |colptr| - 1, split[r + 1]);
      if r < me && x < y then
        && b1.sizes[r] == y - x && b1.displs[r] == x - first && b1.displsR[r] + 1 == colptr[x - first]
        && b1.sizesR[r] + colptr[x - first] == colptr[y - first]
      else Unbooked(b1.sizes[r], b1.displs[r], b1.sizesR[r], b1.displsR[r])
  {
    PlanCounts(colptr, first, split[me], split[me + 1]);
    hide NonDescending, PlanOf;
    if plan.colsBefore > 0 {
      assert RankBooked(colptr, first, split, first, first + plan.colsBefore, first + plan.colsBefore, b0, b1, r);
    }
    if r < me {
      assert split[r + 1] <= split[me];
    } else {
      assert split[me] <= split[r];
    }
  }

  /** The bookings for rank r that the second loop adds. */
  lemma AfterPhase(colptr: seq<nat>, first: nat, split: seq<nat>, me: nat, plan: Plan, mid: Booking, b2: Booking,
                   r: nat)
    requires me + 1 < |split| && CountsFit(colptr, first, split[me], split[me + 1]) && NonDescending(colptr)
    requires forall i, j :: 0 <= i <= j < |split| ==> split[i] <= split[j]
    requires plan == PlanOf(colptr, first, split[me], split[me + 1])
    requires plan.colsAfter > 0 ==>
      first <= plan.startColAfter && plan.startColAfter + plan.colsAfter - first < |colptr|
    requires r + 1 < |split| && mid.For(|split| - 1) && b2.For(|split| - 1)
    requires var to := plan.startColAfter + plan.colsAfter;
      if plan.colsAfter > 0 then AllBooked(colptr, first, split, plan.startColAfter, to, to, mid, b2) else b2 == mid
    ensures var x, y := Max(first, split[r]), Min(first + |colptr| - 1, split[r + 1]);
      if r > me && x < y then
        && b2.sizes[r] == y - x && b2.displs[r] == x - first && b2.displsR[r] + 1 == colptr[x - first]
        && b2.sizesR[r] + colptr[x - first] == colptr[y - first]
      else
        && b2.sizes[r] == mid.sizes[r] && b2.displs[r] == mid.displs[r]
        && b2.sizesR[r] == mid.sizesR[r] && b2.displsR[r] == mid.displsR[r]
  {
    PlanCounts(colptr, first, split[me], split[me + 1]);
    hide NonDescending, PlanOf;
    if plan.colsAfter > 0 {
      var to := plan.startColAfter + plan.colsAfter;
      assert RankBooked(colptr, first, split, plan.startColAfter, to, to, mid, b2, r);
    }
    if r <= me {
      assert split[r + 1] <= split[me + 1];
    } else {
      assert split[me + 1] <= split[r];
    }
  }

  /** The bookings for rank r after both loops: its columns are the rank's, cut to its block. */
  lemma BothPhases(colptr: seq<nat>, first: nat, split: seq<nat>, me: nat, plan: Plan, b0: Booking, b1: Booking,
                   a1: seq<nat>, b2: Booking, r: nat)
    requires me + 1 < |split| && CountsFit(colptr, first, split[me], split[me + 1]) && NonDescending(colptr)
    requires forall i, j :: 0 <= i <= j < |split| ==> split[i] <= split[j]
    requires plan == PlanOf(colptr, first, split[me], split[me + 1])
    requires TwoPhases(colptr, first, split, me, plan, b0, b1, a1, b2)
    requires r + 1 < |split| && b1.For(|split| - 1) && b2.For(|split| - 1)
    ensures var x, y := Max(first, split[r]), Min(first + |colptr| - 1, split[r + 1]);
      var size := Extra(b1.sizes[r]) + Extra(b2.sizes[r]);
      if r != me && x < y then
        && size == y - x + 1 && b2.displs[r] == x - first && b2.displsR[r] + 1 == colptr[x - first]
        && b2.sizesR[r] + colptr[x - first] == colptr[y - first]
      else size == 0 && b2.sizesR[r] == 0
  {
    PlanFits(colptr, first, split[me], split[me + 1], first + |colptr| - 1);
    hide NonDescending, PlanOf, CountsFit, AllBooked;
    BeforePhase(colptr, first, split, me, plan, b0, b1, r);
    AfterPhase(colptr, first, split, me, plan, Booking(a1, b1.displs, b1.sizesR, b1.displsR), b2, r);
  }

  /** What one rank hands to the exchange for rank r. */
  ghost predicate Addressed(s: Csc, first: nat, split: seq<nat>, me: nat, r: nat, ptr: seq<nat>, rows: seq<nat>)
    requires s.Valid() && s.base == 1 && r + 1 < |split|
  {
    var x, y := Max(first, split[r]), Min(first + |s.colptr| - 1, split[r + 1]);
    if r != me && x < y then
      && ptr == s.colptr[x - first..y - first + 1]
      && s.colptr[x - first] <= s.colptr[y - first] <= |s.rowind| + 1 && s.colptr[x - first] >= 1
      && rows == s.rowind[s.colptr[x - first] - 1..s.colptr[y - first] - 1]
    else ptr == [] && rows == []
  }

  /** The part of a send buffer that goes to one rank. */
  function FromBuffer(buf: seq<nat>, displ: int, size: nat): seq<nat>
    requires size > 0 ==> 0 <= displ && displ + size <= |buf|
  {
    if size > 0 then buf[displ..displ + size] else []
  }

  lemma BookedIsAddressed(s: Csc, first: nat, split: seq<nat>, me: nat, plan: Plan, b0: Booking, b1: Booking,
                          a1: seq<nat>, b2: Booking, r: nat)
    requires s.Valid() && s.base == 1 && me + 1 < |split| && CountsFit(s.colptr, first, split[me], split[me + 1])
    requires NonDescending(s.colptr) && forall i, j :: 0 <= i <= j < |split| ==> split[i] <= split[j]
    requires plan == PlanOf(s.colptr, first, split[me], split[me + 1])
    requires TwoPhases(s.colptr, first, split, me, plan, b0, b1, a1, b2)
    requires r + 1 < |split| && b1.For(|split| - 1) && b2.For(|split| - 1)
    ensures var size := Extra(b1.sizes[r]) + Extra(b2.sizes[r]);
      && (size > 0 ==> 0 <= b2.displs[r] && b2.displs[r] + size <= |s.colptr|)
      && (b2.sizesR[r] > 0 ==> 0 <= b2.displsR[r] && b2.displsR[r] + b2.sizesR[r] <= |s.rowind|)
      && Addressed(s, first, split, me, r, FromBuffer(s.colptr, b2.displs[r], size),
                   FromBuffer(s.rowind, b2.displsR[r], b2.sizesR[r]))
  {
    hide PlanOf, TwoPhases, Extra, Csc.Valid, Addressed, FromBuffer, CountsFit, NonDescending;
    BothPhases(s.colptr, first, split, me, plan, b0, b1, a1, b2, r);
    FromBufferIsAddressed(s, first, split, me, r, b2.displs[r], Extra(b1.sizes[r]) + Extra(b2.sizes[r]), b2.displsR[r],
                          b2.sizesR[r]);
  }

  lemma FromBufferIsAddressed(s: Csc, first: nat, split: seq<nat>, me: nat, r: nat, displ: int, size: nat, displR: int,
                              sizeR: nat)
    requires s.Valid() && s.base == 1 && r + 1 < |split|
    requires var x, y := Max(first, split[r]), Min(first + |s.colptr| - 1, split[r + 1]);
      if r != me && x < y then
        && size == y - x + 1 && displ == x - first && displR + 1 == s.colptr[x - first]
        && sizeR + s.colptr[x - first] == s.colptr[y - first]
      else size == 0 && sizeR == 0
    ensures size > 0 ==> 0 <= displ && displ + size <= |s.colptr|
    ensures sizeR > 0 ==> 0 <= displR && displR + sizeR <= |s.rowind|
    ensures Addressed(s, first, split, me, r, FromBuffer(s.colptr, displ, size), FromBuffer(s.rowind, displR, sizeR))
  {
    var x, y := Max(first, split[r]), Min(first + |s.colptr| - 1, split[r + 1]);
    if r != me && x < y {
      assert s.colptr[0] <= s.colptr[x - first] <= s.colptr[y - first] <= s.colptr[|s.colptr| - 1];
    }
  }

  /** Books the columns before the part that stays, with one more pointer for every rank. */
  method BookBefore(colptr: seq<nat>, first: nat, plan: Plan, sn: Supernodal, np: nat, ghost n: nat,
                    ssizes: array<nat>, sdispls: array<int>, ssizesR: array<nat>, sdisplsR: array<int>)
    returns (ghost b1: Booking)
    requires NonDescending(colptr) && sn.Valid(n, np) && colptr != [] && colptr[0] >= 1
    requires plan.colsBefore < |colptr| && first + plan.colsBefore <= n
    requires ssizes != ssizesR && sdispls != sdisplsR && Booked4(ssizes, sdispls, ssizesR, sdisplsR).For(np)
    requires forall r :: 0 <= r < np ==> Unbooked(ssizes[r], sdispls[r], ssizesR[r], sdisplsR[r])
    modifies ssizes, sdispls, ssizesR, sdisplsR
    ensures b1.For(np) && b1.displs == sdispls[..] && b1.sizesR == ssizesR[..] && b1.displsR == sdisplsR[..]
    ensures forall r :: 0 <= r < np ==> ssizes[r] == Extra(b1.sizes[r])
    ensures var b0, to := old(Booked4(ssizes, sdispls, ssizesR, sdisplsR)), first + plan.colsBefore;
      if plan.colsBefore > 0 then AllBooked(colptr, first, sn.Split(n, np), first, to, to, b0, b1) else b1 == b0
  {
    hide NonDescending, sn.Valid, sn.Split, RankBooked;
    if plan.colsBefore > 0 {
      FirstPhaseFree(sn.Split(n, np), first, first + plan.colsBefore, Booked4(ssizes, sdispls, ssizesR, sdisplsR));
      BookColumns(colptr, first, first, first + plan.colsBefore, sn, np, n, ssizes, sdispls, ssizesR, sdisplsR);
      b1 := Booked4(ssizes, sdispls, ssizesR, sdisplsR);
      AddExtra(ssizes);
    } else {
      b1 := Booked4(ssizes, sdispls, ssizesR, sdisplsR);
    }
  }

  /** Books the columns after the part that stays, and adds the sizes up. */
  method BookAfter(colptr: seq<nat>, first: nat, plan: Plan, sn: Supernodal, np: nat, ghost n: nat, ssizes: array<nat>,
                   ssizesAfter: array<nat>, sdispls: array<int>, ssizesR: array<nat>, sdisplsR: array<int>)
    returns (ghost b2: Booking)
    requires NonDescending(colptr) && sn.Valid(n, np) && colptr != [] && colptr[0] >= 1
    requires plan.colsAfter > 0 ==>
      first <= plan.startColAfter && plan.startColAfter + plan.colsAfter - first < |colptr|
    requires plan.colsAfter > 0 ==> plan.startColAfter + plan.colsAfter <= n
    requires ssizes.Length == np && ssizes != ssizesAfter && ssizes != ssizesR && ssizesAfter != ssizesR
    requires sdispls != sdisplsR
    requires Booked4(ssizesAfter, sdispls, ssizesR, sdisplsR).For(np) && forall r :: 0 <= r < np ==> ssizesAfter[r] == 0
    requires plan.colsAfter > 0 ==> Free(sn.Split(n, np), plan.startColAfter, plan.startColAfter + plan.colsAfter,
                                        Booked4(ssizesAfter, sdispls, ssizesR, sdisplsR))
    modifies ssizes, ssizesAfter, sdispls, ssizesR, sdisplsR
    ensures b2.For(np) && b2.displs == sdispls[..] && b2.sizesR == ssizesR[..] && b2.displsR == sdisplsR[..]
    ensures forall r :: 0 <= r < np ==> ssizes[r] == old(ssizes[r]) + Extra(b2.sizes[r])
    ensures var mid, to := old(Booked4(ssizesAfter, sdispls, ssizesR, sdisplsR)), plan.startColAfter + plan.colsAfter;
      if plan.colsAfter > 0 then AllBooked(colptr, first, sn.Split(n, np), plan.startColAfter, to, to, mid, b2)
      else b2 == mid
  {
    hide NonDescending, sn.Valid, sn.Split, RankBooked, Free;
    if plan.colsAfter > 0 {
      ghost var was := ssizes[..];
      BookColumns(colptr, first, plan.startColAfter, plan.startColAfter + plan.colsAfter, sn, np, n, ssizesAfter,
                  sdispls, ssizesR, sdisplsR);
      b2 := Booked4(ssizesAfter, sdispls, ssizesR, sdisplsR);
      AddExtra(ssizesAfter);
      assert ssizes[..] == was;
      AddSizes(ssizes, ssizesAfter);
    } else {
      b2 := Booked4(ssizesAfter, sdispls, ssizesR, sdisplsR);
    }
  }

  /** Both loops with what follows each. */
  method BookPhases(colptr: seq<nat>, first: nat, plan: Plan, sn: Supernodal, np: nat, ghost n: nat, ghost me: nat,
                    ssizes: array<nat>,
                    ssizesAfter: array<nat>, sdispls: array<int>, ssizesR: array<nat>, sdisplsR: array<int>)
    returns (ghost b0: Booking, ghost b1: Booking, ghost a1: seq<nat>, ghost b2: Booking)
    requires NonDescending(colptr) && sn.Valid(n, np) && colptr != [] && colptr[0] >= 1 && me < np
    requires first + |colptr| - 1 <= n
    requires CountsFit(colptr, first, sn.Split(n, np)[me], sn.Split(n, np)[me + 1])
    requires plan == PlanOf(colptr, first, sn.Split(n, np)[me], sn.Split(n, np)[me + 1])
    requires ssizes != ssizesAfter && ssizes != ssizesR && ssizesAfter != ssizesR && sdispls != sdisplsR
    requires ssizes.Length == ssizesAfter.Length == ssizesR.Length == sdispls.Length == sdisplsR.Length == np
    requires forall r :: 0 <= r < np ==> Unbooked(ssizes[r], sdispls[r], ssizesR[r], sdisplsR[r]) && ssizesAfter[r] == 0
    modifies ssizes, ssizesAfter, sdispls, ssizesR, sdisplsR
    ensures TwoPhases(colptr, first, sn.Split(n, np), me, plan, b0, b1, a1, b2) && b1.For(np) && b2.For(np)
    ensures b2.displs == sdispls[..] && b2.sizesR == ssizesR[..] && b2.displsR == sdisplsR[..]
    ensures forall r :: 0 <= r < np ==> ssizes[r] == Extra(b1.sizes[r]) + Extra(b2.sizes[r])
  {
    ghost var split := sn.Split(n, np);
    sn.SplitShape(n, np);
    PlanFits(colptr, first, split[me], split[me + 1], n);
    hide NonDescending, PlanOf, AllBooked, Free, sn.Valid, sn.Split, TwoPhases, Extra, CountsFit;
    b0 := Booked4(ssizes, sdispls, ssizesR, sdisplsR);
    a1 := ssizesAfter[..];
    b1 := BookBefore(colptr, first, plan, sn, np, n, ssizes, sdispls, ssizesR, sdisplsR);
    assert ssizesAfter[..] == a1;
    assert Booked4(ssizesAfter, sdispls, ssizesR, sdisplsR) == Booking(a1, b1.displs, b1.sizesR, b1.displsR);
    if plan.colsAfter > 0 {
      SecondPhaseFree(colptr, first, split, me, plan, b0, b1, a1);
    }
    b2 := BookAfter(colptr, first, plan, sn, np, n, ssizes, ssizesAfter, sdispls, ssizesR, sdisplsR);
    PhasesHold(colptr, first, split, me, plan, b0, b1, a1, b2);
  }

  /** Books and packs what one rank sends. */
  method SendLocal(s: Csc, first: nat, plan: Plan, sn: Supernodal, np: nat, ghost n: nat, ghost me: nat)
    returns (ptrs: seq<seq<nat>>, rows: seq<seq<nat>>)
    requires s.Valid() && s.base == 1 && NonDescending(s.colptr)
    requires sn.Valid(n, np) && me < np && first + |s.colptr| - 1 <= n
    requires CountsFit(s.colptr, first, sn.Split(n, np)[me], sn.Split(n, np)[me + 1])
    requires plan == PlanOf(s.colptr, first, sn.Split(n, np)[me], sn.Split(n, np)[me + 1])
    ensures |ptrs| == |rows| == np
    ensures forall r :: 0 <= r < np ==> Addressed(s, first, sn.Split(n, np), me, r, ptrs[r], rows[r])
  {
    ghost var split := sn.Split(n, np);
    sn.SplitShape(n, np);
    hide NonDescending, PlanOf, sn.Valid, sn.Split, TwoPhases, Addressed, Extra, CountsFit;
    var ssizes := Filled<nat>(np, 0);
    var ssizesAfter := Filled<nat>(np, 0);
    var ssizesR := Filled<nat>(np, 0);
    var sdispls := Filled<int>(np, -1);
    var sdisplsR := Filled<int>(np, -1);
    ghost var b0, b1, a1, b2 :=
      BookPhases(s.colptr, first, plan, sn, np, n, me, ssizes, ssizesAfter, sdispls, ssizesR, sdisplsR);
    ptrs, rows := PackMessages(s, first, plan, np, ssizes, sdispls, ssizesR, sdisplsR, split, me, b0, b1, a1, b2);
  }

  lemma PhasesHold(colptr: seq<nat>, first: nat, split: seq<nat>, me: nat, plan: Plan, b0: Booking, b1: Booking,
                   a1: seq<nat>, b2: Booking)
    requires me + 1 < |split| && CountsFit(colptr, first, split[me], split[me + 1]) && NonDescending(colptr)
    requires plan == PlanOf(colptr, first, split[me], split[me + 1])
    requires b0.For(|split| - 1)
    requires forall r :: 0 <= r < |split| - 1 ==> Unbooked(b0.sizes[r], b0.displs[r], b0.sizesR[r], b0.displsR[r])
    requires plan.colsBefore < |colptr|
    requires plan.colsAfter > 0 ==>
      first <= plan.startColAfter && plan.startColAfter + plan.colsAfter - first < |colptr|
    requires FirstBooked(colptr, first, split, first + plan.colsBefore, b0, b1)
    requires |a1| == |split| - 1 && forall r :: 0 <= r < |split| - 1 ==> a1[r] == 0
    requires var mid, to := Booking(a1, b1.displs, b1.sizesR, b1.displsR), plan.startColAfter + plan.colsAfter;
      if plan.colsAfter > 0 then AllBooked(colptr, first, split, plan.startColAfter, to, to, mid, b2) else b2 == mid
    ensures TwoPhases(colptr, first, split, me, plan, b0, b1, a1, b2)
  {
    hide PlanOf, AllBooked, Unbooked, NonDescending;
  }

  /** The loops stay inside the rank's columns. */
  lemma PlanFits(colptr: seq<nat>, first: nat, supFirst: nat, supEnd: nat, n: nat)
    requires CountsFit(colptr, first, supFirst, supEnd) && NonDescending(colptr) && first + |colptr| - 1 <= n
    ensures var plan := PlanOf(colptr, first, supFirst, supEnd);
      && plan.colsBefore < |colptr| && first + plan.colsBefore <= n
      && (plan.colsAfter > 0 ==>
        first <= plan.startColAfter && plan.startColAfter + plan.colsAfter == first + |colptr| - 1)
  {
    PlanCounts(colptr, first, supFirst, supEnd);
  }

  /** What the exchange takes from the two send buffers. */
  method PackMessages(s: Csc, first: nat, plan: Plan, np: nat, ssizes: array<nat>, sdispls: array<int>,
                      ssizesR: array<nat>, sdisplsR: array<int>,
                      ghost split: seq<nat>, ghost me: nat, ghost b0: Booking, ghost b1: Booking, ghost a1: seq<nat>,
                      ghost b2: Booking)
    returns (ptrs: seq<seq<nat>>, rows: seq<seq<nat>>)
    requires s.Valid() && s.base == 1 && me + 1 < |split| && CountsFit(s.colptr, first, split[me], split[me + 1])
    requires NonDescending(s.colptr) && forall i, j :: 0 <= i <= j < |split| ==> split[i] <= split[j]
    requires plan == PlanOf(s.colptr, first, split[me], split[me + 1])
    requires TwoPhases(s.colptr, first, split, me, plan, b0, b1, a1, b2)
    requires |split| == np + 1 && b1.For(np) && b2.For(np) && ssizes.Length == np
    requires b2.displs == sdispls[..] && b2.sizesR == ssizesR[..] && b2.displsR == sdisplsR[..]
    requires forall r :: 0 <= r < np ==> ssizes[r] == Extra(b1.sizes[r]) + Extra(b2.sizes[r])
    ensures |ptrs| == |rows| == np
    ensures forall r :: 0 <= r < np ==> Addressed(s, first, split, me, r, ptrs[r], rows[r])
  {
    hide NonDescending, PlanOf, TwoPhases, Addressed, Extra;
    ptrs, rows := [], [];
    for r := 0 to np
      invariant |ptrs| == |rows| == r
      invariant forall q :: 0 <= q < r ==> Addressed(s, first, split, me, q, ptrs[q], rows[q])
    {
      BookedIsAddressed(s, first, split, me, plan, b0, b1, a1, b2, r);
      ptrs := ptrs + [FromBuffer(s.colptr, sdispls[r], ssizes[r])];
      rows := rows + [FromBuffer(s.rowind, sdisplsR[r], ssizesR[r])];
    }
  }

  lemma FirstPhaseFree(split: seq<nat>, from: nat, to: nat, b: Booking)
    requires |split| >= 1 && b.For(|split| - 1)
    requires forall r :: 0 <= r < |split| - 1 ==> Unbooked(b.sizes[r], b.displs[r], b.sizesR[r], b.displsR[r])
    ensures Free(split, from, to, b)
  {
  }

  // ---- Receiving ----

  /** What rank q sends to the rank of a target is the slice of q's columns in the target's block. */
  lemma AddressedArrives(g: Csc, t: Target, sup: seq<nat>, q: nat, s: Csc, ptr: seq<nat>, rows: seq<nat>)
    requires t.Valid(g) && q + 1 < |t.split| && q != t.me && |sup| == |t.split|
    requires t.from == sup[t.me] && t.to == sup[t.me + 1]
    requires t.split[q] <= t.split[q + 1] < |g.colptr| && IsSlice(s, g, t.split[q], t.split[q + 1])
    requires s.Valid() && Addressed(s, t.split[q], sup, q, t.me, ptr, rows)
    ensures t.Start(q) <= t.Start(q + 1) && IsPointerMessage(ptr, g, t.Start(q), t.Start(q + 1))
    ensures rows == RowSlice(g, t.Start(q), t.Start(q + 1))
  {
    hide Csc.Valid, IsSlice, Cut, Max, Min, RunsAlong, RowSlice, SplitsFromZero, Addressed;
    var first := t.split[q];
    var x, y := Max(first, sup[t.me]), Min(t.split[q + 1], sup[t.me + 1]);
    SameCut(t.split, t.from, t.to, q);
    SliceShape(s, g, first, t.split[q + 1]);
    EmptyRowSlice(g, t.Start(q));
    AddressedIs(s, first, sup, q, t.me, ptr, rows, x, y);
    if x < y {
      MaxMinInside(first, t.split[q + 1], sup[t.me], sup[t.me + 1]);
      SlicePointers(s, g, first, t.split[q + 1], x, y);
    }
  }

  lemma MaxMinInside(a: nat, b: nat, c: nat, d: nat)
    ensures a <= Max(a, c) && Min(b, d) <= b
  {
  }

  lemma AddressedIs(s: Csc, first: nat, split: seq<nat>, me: nat, r: nat, ptr: seq<nat>, rows: seq<nat>, x: nat, y: nat)
    requires s.Valid() && s.base == 1 && r + 1 < |split| && r != me
    requires x == Max(first, split[r]) && y == Min(first + |s.colptr| - 1, split[r + 1])
    requires Addressed(s, first, split, me, r, ptr, rows)
    ensures x < y ==> ptr == s.colptr[x - first..y - first + 1]
    ensures x < y ==> 1 <= s.colptr[x - first] <= s.colptr[y - first] <= |s.rowind| + 1
    ensures x < y ==> rows == s.rowind[s.colptr[x - first] - 1..s.colptr[y - first] - 1]
    ensures x >= y ==> ptr == [] && rows == []
  {
  }

  lemma EmptyRowSlice(g: Csc, a: nat)
    requires g.Valid() && g.base == 1 && a < |g.colptr|
    ensures RowSlice(g, a, a) == []
  {
  }

  /** Two ways to cut one block by another. */
  lemma SameCut(split: seq<nat>, from: nat, to: nat, q: nat)
    requires from <= to && q + 1 < |split| && split[q] <= split[q + 1]
    ensures var x, y := Max(split[q], from), Min(split[q + 1], to);
      if x < y then Cut(split, from, to, q) == x && Cut(split, from, to, q + 1) == y
      else Cut(split, from, to, q) == Cut(split, from, to, q + 1)
  {
  }

  lemma SlicePointers(s: Csc, g: Csc, first: nat, end: nat, x: nat, y: nat)
    requires IsSlice(s, g, first, end) && first <= x <= y <= end
    ensures s.colptr[x - first] >= 1 && s.colptr[x - first] <= s.colptr[y - first] <= |s.rowind| + 1
    ensures RunsAlong(s.colptr[x - first..y - first + 1], g, x)
    ensures s.rowind[s.colptr[x - first] - 1..s.colptr[y - first] - 1] == RowSlice(g, x, y)
  {
    assert g.colptr[0] <= g.colptr[first] <= g.colptr[x] <= g.colptr[y] <= g.colptr[end] <= g.colptr[|g.colptr| - 1];
    SlicePointer(s, g, first, end, x);
    SlicePointer(s, g, first, end, y);
    SliceOfSlice(g.rowind, g.colptr[first] - 1, g.colptr[end] - 1, s.colptr[x - first] - 1, s.colptr[y - first] - 1);
    var ptr := s.colptr[x - first..y - first + 1];
    forall i | 0 <= i < |ptr| ensures ptr[i] + g.colptr[x] == ptr[0] + g.colptr[x + i] {
      SlicePointer(s, g, first, end, x + i);
      assert ptr[i] == s.colptr[x - first + i] && x + i - first == x - first + i;
    }
  }

  lemma SlicePointer(s: Csc, g: Csc, first: nat, end: nat, x: nat)
    requires IsSlice(s, g, first, end) && first <= x <= end
    ensures s.colptr[x - first] + g.colptr[first] == 1 + g.colptr[x]
  {
    var i := x - first;
    assert first + i == x;
  }

  ghost predicate RowsArrive(g: Csc, t: Target, msgs: seq<seq<nat>>)
    requires t.Valid(g)
  {
    |msgs| + 1 == |t.split| && msgs[t.me] == [] && forall p :: 0 <= p < |msgs| && p != t.me ==>
      RowArrives(g, t, msgs, p)
  }

  ghost predicate RowArrives(g: Csc, t: Target, msgs: seq<seq<nat>>, p: nat)
    requires t.Valid(g) && p < |msgs| < |t.split|
  {
    t.Start(p) <= t.Start(p + 1) && msgs[p] == RowSlice(g, t.Start(p), t.Start(p + 1))
  }

  lemma {:induction false} EarlierRows(g: Csc, t: Target, msgs: seq<seq<nat>>, k: nat)
    requires t.Valid(g) && RowsArrive(g, t, msgs) && k <= t.me
    ensures Concatenated(msgs, k) == RowSlice(g, t.from, t.Start(k))
    decreases k
  {
    TargetEnds(t, g);
    hide Csc.Valid, SplitsFromZero, Cut, RowSlice;
    if k > 0 {
      EarlierRows(g, t, msgs, k - 1);
      assert RowArrives(g, t, msgs, k - 1);
      RowSlicesJoin(g, t.from, t.Start(k - 1), t.Start(k));
    }
  }

  lemma {:induction false} LaterRows(g: Csc, t: Target, msgs: seq<seq<nat>>, k: nat)
    requires t.Valid(g) && RowsArrive(g, t, msgs) && t.me < k <= |msgs|
    ensures t.Start(t.me + 1) <= t.Start(k)
    ensures Between(msgs, t.me + 1, k) == RowSlice(g, t.Start(t.me + 1), t.Start(k))
    decreases k
  {
    hide Csc.Valid, SplitsFromZero, Cut, RowSlice;
    if k > t.me + 1 {
      LaterRows(g, t, msgs, k - 1);
      assert RowArrives(g, t, msgs, k - 1);
      RowSlicesJoin(g, t.Start(t.me + 1), t.Start(k - 1), t.Start(k));
    }
  }

  /** The rows that stay, as the plan counts them. */
  function Staying(s: Csc, plan: Plan): seq<nat>
    requires plan.rowsBefore + plan.rowsAfter <= |s.rowind|
  {
    s.rowind[plan.rowsBefore..|s.rowind| - plan.rowsAfter]
  }

  /** The rows that stay are those of the columns that stay, or too many. */
  lemma StayingRows(g: Csc, t: Target, s: Csc, plan: Plan)
    requires t.Valid(g) && t.split[t.me + 1] < |g.colptr| && CountsFit(s.colptr, t.split[t.me], t.from, t.to)
    requires IsSlice(s, g, t.split[t.me], t.split[t.me + 1]) && NonDescending(s.colptr)
    requires plan == PlanOf(s.colptr, t.split[t.me], t.from, t.to)
    ensures plan.rowsBefore + plan.rowsAfter <= |s.rowind| && t.Start(t.me) <= t.Start(t.me + 1)
    ensures RowsCounted(s.colptr, t.split[t.me], t.from) ==>
      Staying(s, plan) == RowSlice(g, t.Start(t.me), t.Start(t.me + 1))
    ensures !RowsCounted(s.colptr, t.split[t.me], t.from) ==>
      |Staying(s, plan)| > |RowSlice(g, t.Start(t.me), t.Start(t.me + 1))|
  {
    hide *;
    TargetShape(t, g);
    var first, end := t.split[t.me], t.split[t.me + 1];
    SliceColptr(s, g, first, end);
    var a, b := KeptColumns(t, s.colptr, plan);
    PlanRows(s.colptr, first, t.from, t.to);
    SlicePointers(s, g, first, end, a, b);
    SameRowSlice(g, a, b, t.Start(t.me), t.Start(t.me + 1));
    StayingIs(s, plan, s.colptr[a - first], s.colptr[b - first]);
  }

  lemma SameRowSlice(g: Csc, a: nat, b: nat, x: nat, y: nat)
    requires g.Valid() && g.base == 1 && a <= b < |g.colptr| && x <= y < |g.colptr|
    requires if a < b then a == x && b == y else x == y
    ensures RowSlice(g, a, b) == RowSlice(g, x, y)
  {
  }

  /** Dropping the counted rows at both ends leaves a slice, or more. */
  lemma StayingIs(s: Csc, plan: Plan, from: nat, to: nat)
    requires 1 <= from <= to && plan.rowsAfter + to == |s.rowind| + 1 && plan.rowsBefore <= from - 1
    ensures plan.rowsBefore + plan.rowsAfter <= |s.rowind|
    ensures plan.rowsBefore == from - 1 ==> Staying(s, plan) == s.rowind[from - 1..to - 1]
    ensures plan.rowsBefore < from - 1 ==> |Staying(s, plan)| > to - from
  {
  }

  lemma SliceColptr(s: Csc, g: Csc, a: nat, b: nat)
    requires IsSlice(s, g, a, b)
    ensures a <= b && |s.colptr| == b - a + 1 && s.colptr[0] == 1 && s.colptr[b - a] == |s.rowind| + 1
  {
  }

  /** The columns that stay, by the plan and by cutting. */
  lemma KeptColumns(t: Target, colptr: seq<nat>, plan: Plan) returns (a: nat, b: nat)
    requires t.from <= t.to && t.me + 1 < |t.split| && t.split[t.me] <= t.split[t.me + 1]
    requires |colptr| == t.split[t.me + 1] - t.split[t.me] + 1 && NonDescending(colptr)
    requires CountsFit(colptr, t.split[t.me], t.from, t.to)
    requires plan == PlanOf(colptr, t.split[t.me], t.from, t.to)
    ensures a == t.split[t.me] + plan.colsBefore && b == t.split[t.me + 1] - plan.colsAfter
    ensures t.split[t.me] <= a <= b <= t.split[t.me + 1] && t.Start(t.me) <= t.Start(t.me + 1)
    ensures if a < b then a == t.Start(t.me) && b == t.Start(t.me + 1) else t.Start(t.me) == t.Start(t.me + 1)
    ensures plan.rowsAfter + colptr[b - t.split[t.me]] == colptr[|colptr| - 1]
  {
    PlanCounts(colptr, t.split[t.me], t.from, t.to);
    PlanRowsAfter(colptr, t.split[t.me], t.from, t.to);
    a, b := t.split[t.me] + plan.colsBefore, t.split[t.me + 1] - plan.colsAfter;
  }

  /** Merges what arrived into one rank's arrays. The result is the slice of its new columns exactly when
      the rows before the part that stays were counted right. */
  method MergeLocal(s: Csc, plan: Plan, ptrMsgs: seq<seq<nat>>, rowMsgs: seq<seq<nat>>, t: Target, ghost g: Csc)
    returns (s': Csc)
    requires t.Valid(g) && t.split[t.me + 1] < |g.colptr| && CountsFit(s.colptr, t.split[t.me], t.from, t.to)
    requires IsSlice(s, g, t.split[t.me], t.split[t.me + 1]) && NonDescending(s.colptr)
    requires plan == PlanOf(s.colptr, t.split[t.me], t.from, t.to)
    requires t.PointersArrive(g, ptrMsgs) && RowsArrive(g, t, rowMsgs)
    ensures s'.base == 1 && |s'.colptr| == t.to - t.from + 1
    ensures IsSlice(s', g, t.from, t.to) <==> RowsCounted(s.colptr, t.split[t.me], t.from)
    ensures !RowsCounted(s.colptr, t.split[t.me], t.from) ==> |s'.rowind| > |RowSlice(g, t.from, t.to)|
  {
    hide *;
    TargetShape(t, g);
    StayingRows(g, t, s, plan);
    OwnPointers(g, t, s, plan);
    var b := MergePointers(s.colptr, plan.colsBefore, plan.colsAfter, ptrMsgs, t, g);
    var rows := MergeLocalRows(s, plan, rowMsgs, t, g);
    ghost var ptr := b[..];
    b[b.Length - 1] := rows.Length + 1;
    s' := Csc(1, b[..], rows[..]);
    MergedIsSlice(g, t, s', ptr, Staying(s, plan));
    SliceGraph(s', g, t.from, t.to);
  }

  lemma TargetShape(t: Target, g: Csc)
    requires t.Valid(g)
    ensures g.Valid() && g.base == 1 && t.from <= t.to < |g.colptr| && t.me + 1 < |t.split|
  {
  }

  lemma SliceGraph(s: Csc, g: Csc, a: nat, b: nat)
    ensures IsSlice(s, g, a, b) ==> g.Valid() && g.base == 1 && a <= b < |g.colptr| && s.rowind == RowSlice(g, a, b)
  {
  }

  method MergeLocalRows(s: Csc, plan: Plan, rowMsgs: seq<seq<nat>>, t: Target, ghost g: Csc) returns (rows: array<nat>)
    requires t.Valid(g) && RowsArrive(g, t, rowMsgs) && t.Start(t.me) <= t.Start(t.me + 1)
    requires plan.rowsBefore + plan.rowsAfter <= |s.rowind|
    ensures fresh(rows)
    ensures rows[..] == RowSlice(g, t.from, t.Start(t.me)) + Staying(s, plan) + RowSlice(g, t.Start(t.me + 1), t.to)
  {
    RowsOfMe(g, t, rowMsgs);
    EarlierRows(g, t, rowMsgs, t.me);
    LaterRows(g, t, rowMsgs, |rowMsgs|);
    TargetEnds(t, g);
    hide RowsArrive, Cut, Csc.Valid, RowSlice, SplitsFromZero;
    rows := MergeRows(s.rowind, plan.rowsBefore, plan.rowsAfter, rowMsgs, t.me);
  }

  lemma RowsOfMe(g: Csc, t: Target, msgs: seq<seq<nat>>)
    requires t.Valid(g) && RowsArrive(g, t, msgs)
    ensures t.me < |msgs| && msgs[t.me] == [] && |msgs| + 1 == |t.split|
  {
  }

  lemma OwnPointers(g: Csc, t: Target, s: Csc, plan: Plan)
    requires t.Valid(g) && t.split[t.me + 1] < |g.colptr| && CountsFit(s.colptr, t.split[t.me], t.from, t.to)
    requires IsSlice(s, g, t.split[t.me], t.split[t.me + 1]) && NonDescending(s.colptr)
    requires plan == PlanOf(s.colptr, t.split[t.me], t.from, t.to)
    ensures t.Start(t.me) <= t.Start(t.me + 1)
    ensures plan.colsBefore + (t.Start(t.me + 1) - t.Start(t.me)) + plan.colsAfter + 1 == |s.colptr|
    ensures KeepsOwn(s.colptr, plan.colsBefore, t, g)
  {
    var first, end := t.split[t.me], t.split[t.me + 1];
    SliceColptr(s, g, first, end);
    var a, b := KeptColumns(t, s.colptr, plan);
    OwnAreKept(g, t, s, plan, first, end, a, b);
  }

  lemma OwnAreKept(g: Csc, t: Target, s: Csc, plan: Plan, first: nat, end: nat, a: nat, b: nat)
    requires t.Valid(g) && IsSlice(s, g, first, end) && |s.colptr| == end - first + 1
    requires first <= a <= b <= end && a == first + plan.colsBefore && b == end - plan.colsAfter
    requires t.Start(t.me) <= t.Start(t.me + 1)
    requires if a < b then a == t.Start(t.me) && b == t.Start(t.me + 1) else t.Start(t.me) == t.Start(t.me + 1)
    ensures plan.colsBefore + (t.Start(t.me + 1) - t.Start(t.me)) + plan.colsAfter + 1 == |s.colptr|
    ensures KeepsOwn(s.colptr, plan.colsBefore, t, g)
  {
    SlicePointers(s, g, first, end, a, b);
    hide Cut, Csc.Valid, RunsAlong, IsSlice, SplitsFromZero;
  }

  lemma MergedIsSlice(g: Csc, t: Target, s': Csc, ptr: seq<nat>, staying: seq<nat>)
    requires t.Valid(g) && t.Start(t.me) <= t.Start(t.me + 1)
    requires |ptr| == |s'.colptr| == t.to - t.from + 1 && s'.base == 1
    requires forall i :: 0 <= i < t.to - t.from ==> t.Final(g, ptr, i)
    requires s'.colptr == ptr[t.to - t.from := |s'.rowind| + 1]
    requires s'.rowind == RowSlice(g, t.from, t.Start(t.me)) + staying + RowSlice(g, t.Start(t.me + 1), t.to)
    ensures staying == RowSlice(g, t.Start(t.me), t.Start(t.me + 1)) ==> IsSlice(s', g, t.from, t.to)
    ensures |staying| > |RowSlice(g, t.Start(t.me), t.Start(t.me + 1))| ==> |s'.rowind| > |RowSlice(g, t.from, t.to)|
  {
    RowSlicesJoin(g, t.from, t.Start(t.me), t.Start(t.me + 1));
    RowSlicesJoin(g, t.from, t.Start(t.me + 1), t.to);
    hide Cut, Csc.Valid;
    if staying == RowSlice(g, t.Start(t.me), t.Start(t.me + 1)) {
      assert s'.rowind == RowSlice(g, t.from, t.to);
      forall i | 0 <= i <= t.to - t.from ensures s'.colptr[i] + g.colptr[t.from] == 1 + g.colptr[t.from + i] {
        if i < t.to - t.from {
          assert t.Final(g, ptr, i);
        }
      }
    }
  }

  // ---- All ranks ----

  /** The ranks' blocks, columns counted from 0. */
  ghost function OldSplit(d: Dist): (split: seq<nat>)
    requires d.Valid() && d.base == 1
    ensures |split| == |d.vertexDist| && forall p :: 0 <= p < |split| ==> split[p] + 1 == d.vertexDist[p]
    ensures SplitsFromZero(split, d.Size())
  {
    assert forall p :: 0 <= p < |d.vertexDist| ==> d.vertexDist[0] <= d.vertexDist[p];
    seq(|d.vertexDist|, p requires 0 <= p < |d.vertexDist| => d.vertexDist[p] - 1)
  }

  /** A graph numbered from 1, and supernodes for its columns. */
  ghost predicate Given(d: Dist, sn: Supernodal) {
    d.Valid() && d.base == 1 && sn.Valid(d.Size(), |d.ranks|) && d.Size() < INT_LIMIT
  }

  /** The first ranks without columns are the same now and afterwards. */
  ghost predicate SameLeaders(d: Dist, sn: Supernodal)
    requires Given(d, sn)
  {
    forall p :: 0 < p <= |d.ranks| ==> (d.vertexDist[p] == 1 <==> sn.xsuperdist[p] == 1)
  }

  /** What the method needs for its column counts. */
  ghost predicate Redistributable(d: Dist, sn: Supernodal) { Given(d, sn) && SameLeaders(d, sn) }

  ghost predicate RankCountsRight(d: Dist, sn: Supernodal, p: nat)
    requires Given(d, sn) && p < |d.ranks|
  {
    NewSplitShape(d, sn);
    CountsRight(OldSplit(d)[p], OldSplit(d)[p + 1], NewSplit(d, sn)[p], NewSplit(d, sn)[p + 1])
  }

  lemma SplitsStart(d: Dist, sn: Supernodal, p: nat)
    requires Given(d, sn) && p <= |d.ranks|
    ensures |d.vertexDist| == |sn.xsuperdist| == |d.ranks| + 1
    ensures OldSplit(d)[p] == 0 <==> d.vertexDist[p] == 1
    ensures NewSplit(d, sn)[p] == 0 <==> sn.xsuperdist[p] == 1
    ensures OldSplit(d)[0] == 0 == NewSplit(d, sn)[0]
    ensures OldSplit(d)[p] < INT_LIMIT && NewSplit(d, sn)[p] < INT_LIMIT
    ensures p > 0 ==> OldSplit(d)[p - 1] <= OldSplit(d)[p] && NewSplit(d, sn)[p - 1] <= NewSplit(d, sn)[p]
  {
    sn.SplitAt(d.Size(), |d.ranks|, p);
    sn.SplitAt(d.Size(), |d.ranks|, 0);
    sn.SplitShape(d.Size(), |d.ranks|);
    assert sn.xsuperdist[p] == 1 || sn.xsuper[0] < sn.xsuper[sn.xsuperdist[p] - 1];
    assert OldSplit(d)[p] <= OldSplit(d)[|d.ranks|];
  }

  ghost predicate RankAlike(d: Dist, sn: Supernodal, p: nat)
    requires Given(d, sn) && p < |d.ranks|
  {
    Alike(OldSplit(d)[p], OldSplit(d)[p + 1], NewSplit(d, sn)[p], NewSplit(d, sn)[p + 1])
  }

  lemma RightIsAlike(d: Dist, sn: Supernodal, p: nat)
    requires Given(d, sn) && p < |d.ranks|
    ensures RankCountsRight(d, sn, p) <==> RankAlike(d, sn, p)
  {
    NewSplitShape(d, sn);
    SplitsStart(d, sn, p);
    SplitsStart(d, sn, p + 1);
    hide Supernodal.Valid, Dist.Valid, OldSplit, NewSplit, OwnCounts, Clamp;
    CountsAreRight(OldSplit(d)[p], OldSplit(d)[p + 1], NewSplit(d, sn)[p], NewSplit(d, sn)[p + 1]);
  }

  /** Every rank counts its columns right exactly when the first ranks without columns stay the same. */
  lemma CountsRightEverywhere(d: Dist, sn: Supernodal)
    requires Given(d, sn)
    ensures (forall p :: 0 <= p < |d.ranks| ==> RankCountsRight(d, sn, p)) <==> SameLeaders(d, sn)
  {
    SplitsStart(d, sn, 0);
    hide Supernodal.Valid, Dist.Valid, OldSplit, NewSplit, RankCountsRight, CountsRight;
    forall p | 0 <= p < |d.ranks| ensures RankCountsRight(d, sn, p) <==> RankAlike(d, sn, p) {
      RightIsAlike(d, sn, p);
    }
    if forall p :: 0 <= p < |d.ranks| ==> RankAlike(d, sn, p) {
      forall p | 0 < p <= |d.ranks| ensures d.vertexDist[p] == 1 <==> sn.xsuperdist[p] == 1 {
        EmptyLeaders(d, sn, p);
        SplitsStart(d, sn, p);
        assert RankAlike(d, sn, p - 1);
      }
    }
    if SameLeaders(d, sn) {
      forall p | 0 <= p < |d.ranks| ensures RankAlike(d, sn, p) {
        SplitsStart(d, sn, p + 1);
        assert d.vertexDist[p + 1] == 1 <==> sn.xsuperdist[p + 1] == 1;
        assert OldSplit(d)[p] <= OldSplit(d)[p + 1];
      }
    }
  }

  /** A new block that ends before the first column follows old ones that do. */
  lemma {:induction false} EmptyLeaders(d: Dist, sn: Supernodal, p: nat)
    requires Given(d, sn) && p <= |d.ranks| && forall q :: 0 <= q < |d.ranks| ==> RankAlike(d, sn, q)
    ensures NewSplit(d, sn)[p] == 0 ==> OldSplit(d)[p] == 0
  {
    hide Supernodal.Valid, Dist.Valid, OldSplit, NewSplit;
    SplitsStart(d, sn, p);
    if p > 0 {
      EmptyLeaders(d, sn, p - 1);
      assert RankAlike(d, sn, p - 1);
    }
  }

  ghost function NewSplit(d: Dist, sn: Supernodal): (split: seq<nat>)
    requires Given(d, sn)
    ensures |split| == |d.ranks| + 1
  {
    sn.Split(d.Size(), |d.ranks|)
  }

  ghost function TargetOf(d: Dist, sn: Supernodal, p: nat): Target
    requires Redistributable(d, sn) && p < |d.ranks|
  {
    Target(OldSplit(d), NewSplit(d, sn)[p], NewSplit(d, sn)[p + 1], p)
  }

  /** Rank p counts its rows right: its new block starts inside its old one or before it, or its last
      column is empty. */
  ghost predicate Counted(d: Dist, sn: Supernodal, p: nat)
    requires Redistributable(d, sn) && p < |d.ranks|
  {
    |d.ranks[p].colptr| >= 1 && RowsCounted(d.ranks[p].colptr, OldSplit(d)[p], NewSplit(d, sn)[p])
  }

  /** The facts about one rank that the steps of the method need. */
  lemma RankFacts(d: Dist, sn: Supernodal, g: Csc, p: nat)
    requires Redistributable(d, sn) && Gathers(d, g) && p < |d.ranks|
    ensures |g.colptr| == d.Size() + 1 && TargetOf(d, sn, p).Valid(g)
    ensures var t := TargetOf(d, sn, p);
      && t.split[p] <= t.split[p + 1] < |g.colptr|
      && IsSlice(d.ranks[p], g, t.split[p], t.split[p + 1])
      && |d.ranks[p].colptr| == t.split[p + 1] - t.split[p] + 1
      && CountsFit(d.ranks[p].colptr, t.split[p], t.from, t.to)
    ensures d.ranks[p].Valid() && d.ranks[p].base == 1 && NonDescending(d.ranks[p].colptr)
  {
    RanksAreSlices(d, g, p);
    NewSplitShape(d, sn);
    GatheredSize(d, g);
    SplitsStart(d, sn, p + 1);
    assert d.RankValid(p);
    assert d.vertexDist[p + 1] == 1 <==> sn.xsuperdist[p + 1] == 1;
    var split, was := NewSplit(d, sn), OldSplit(d);
    assert split[p + 1] <= split[|d.ranks|] && split[p] <= split[p + 1];
    assert was[p] <= was[p + 1] <= was[|d.ranks|];
    hide Supernodal.Valid, IsSlice, NewSplit, OldSplit, Gathers, IsSplit;
  }

  ghost predicate SentBy(d: Dist, sn: Supernodal, q: nat, ptrs: seq<seq<nat>>, rows: seq<seq<nat>>)
    requires Redistributable(d, sn) && q < |d.ranks|
  {
    && d.ranks[q].Valid() && d.ranks[q].base == 1
    && |ptrs| == |rows| == |d.ranks|
    && forall r :: 0 <= r < |d.ranks| ==> Addressed(d.ranks[q], OldSplit(d)[q], NewSplit(d, sn), q, r, ptrs[r], rows[r])
  }

  lemma SelfIsAddressedNothing(s: Csc, first: nat, split: seq<nat>, me: nat, ptr: seq<nat>, rows: seq<nat>)
    requires s.Valid() && s.base == 1 && me + 1 < |split|
    requires Addressed(s, first, split, me, me, ptr, rows)
    ensures ptr == [] && rows == []
  {
  }

  lemma OneArrives(d: Dist, sn: Supernodal, g: Csc, p: nat, q: nat, ptrs: seq<seq<nat>>, rows: seq<seq<nat>>)
    requires Redistributable(d, sn) && Gathers(d, g) && p < |d.ranks| && q < |d.ranks| && SentBy(d, sn, q, ptrs, rows)
    ensures q == p ==> ptrs[p] == [] && rows[p] == []
    ensures var t := TargetOf(d, sn, p); q != p ==>
      && t.Start(q) <= t.Start(q + 1) < |g.colptr| && g.Valid() && g.base == 1
      && IsPointerMessage(ptrs[p], g, t.Start(q), t.Start(q + 1)) && rows[p] == RowSlice(g, t.Start(q), t.Start(q + 1))
  {
    var t := TargetOf(d, sn, p);
    RankFacts(d, sn, g, p);
    RankFacts(d, sn, g, q);
    TargetIs(d, sn, p);
    TargetIs(d, sn, q);
    SentTo(d, sn, q, p, ptrs, rows);
    hide *;
    if q != p {
      AddressedArrives(g, t, NewSplit(d, sn), q, d.ranks[q], ptrs[p], rows[p]);
    } else {
      SelfIsAddressedNothing(d.ranks[q], OldSplit(d)[q], NewSplit(d, sn), q, ptrs[p], rows[p]);
    }
  }

  lemma SentTo(d: Dist, sn: Supernodal, q: nat, p: nat, ptrs: seq<seq<nat>>, rows: seq<seq<nat>>)
    requires Redistributable(d, sn) && q < |d.ranks| && p < |d.ranks| && SentBy(d, sn, q, ptrs, rows)
    ensures d.ranks[q].Valid() && d.ranks[q].base == 1 && |ptrs| == |rows| == |d.ranks|
    ensures |OldSplit(d)| == |NewSplit(d, sn)| == |d.ranks| + 1
    ensures Addressed(d.ranks[q], OldSplit(d)[q], NewSplit(d, sn), q, p, ptrs[p], rows[p])
  {
  }

  /** What all ranks send to rank p, in rank order, is what rank p expects. */
  lemma AllArrives(d: Dist, sn: Supernodal, g: Csc, p: nat, ptrs: seq<seq<seq<nat>>>, rows: seq<seq<seq<nat>>>)
    requires Redistributable(d, sn) && Gathers(d, g) && p < |d.ranks| && |ptrs| == |rows| == |d.ranks|
    requires forall q :: 0 <= q < |d.ranks| ==> SentBy(d, sn, q, ptrs[q], rows[q])
    ensures TargetOf(d, sn, p).Valid(g)
    ensures forall q :: 0 <= q < |d.ranks| ==> |ptrs[q]| == |rows[q]| == |d.ranks|
    ensures TargetOf(d, sn, p).PointersArrive(g, Column(ptrs, p)) && RowsArrive(g, TargetOf(d, sn, p), Column(rows, p))
  {
    RankFacts(d, sn, g, p);
    forall q | 0 <= q < |d.ranks| ensures |ptrs[q]| == |rows[q]| == |d.ranks| {
      assert SentBy(d, sn, q, ptrs[q], rows[q]);
    }
    var t := TargetOf(d, sn, p);
    assert |t.split| == |d.ranks| + 1;
    hide SentBy, IsSlice, SplitsFromZero, IsPointerMessage, Cut, Redistributable, Gathers, OldSplit;
    forall q | 0 <= q < |d.ranks|
      ensures q != p ==> t.PointerArrives(g, Column(ptrs, p), q) && RowArrives(g, t, Column(rows, p), q)
      ensures q == p ==> ptrs[q][p] == [] && rows[q][p] == []
    {
      OneArrives(d, sn, g, p, q, ptrs[q], rows[q]);
    }
  }

  /** The messages for one rank, by sender. */
  function Column(msgs: seq<seq<seq<nat>>>, p: nat): (c: seq<seq<nat>>)
    requires forall q :: 0 <= q < |msgs| ==> p < |msgs[q]|
    ensures |c| == |msgs| && forall q :: 0 <= q < |msgs| ==> c[q] == msgs[q][p]
  {
    seq(|msgs|, q requires 0 <= q < |msgs| => msgs[q][p])
  }

  /** The new storage of every rank, and whose counting was right. */
  ghost predicate Redistributed(d: Dist, sn: Supernodal, g: Csc, d': Dist)
    requires Redistributable(d, sn)
  {
    && d'.base == 1 && |d'.ranks| == |d.ranks| && |d'.vertexDist| == |d.ranks| + 1
    && (forall p :: 0 <= p <= |d.ranks| ==> d'.vertexDist[p] == NewSplit(d, sn)[p] + 1)
    && forall p :: 0 <= p < |d.ranks| ==> d'.ranks[p].base == 1 && (RankIsSlice(d', g, p) <==> Counted(d, sn, p))
  }

  lemma NewDist(d: Dist, sn: Supernodal, g: Csc, d': Dist)
    requires Redistributable(d, sn) && Gathers(d, g) && Redistributed(d, sn, g, d')
    ensures |d'.ranks| >= 1 && IsSplit(d'.vertexDist, 1, |d'.ranks|)
    ensures g.Valid() && g.base == 1 && |g.colptr| == d'.vertexDist[|d'.ranks|]
  {
    var n, split := d.Size(), NewSplit(d, sn);
    NewSplitShape(d, sn);
    GatheredSize(d, g);
    hide Redistributable, Gathers, RankIsSlice, Counted, SplitsFromZero;
    SplitFrom(split, n, d'.vertexDist);
  }

  lemma NewSplitShape(d: Dist, sn: Supernodal)
    requires Given(d, sn)
    ensures |d.ranks| >= 1 && |NewSplit(d, sn)| == |d.ranks| + 1 && SplitsFromZero(NewSplit(d, sn), d.Size())
  {
    sn.SplitShape(d.Size(), |d.ranks|);
  }

  lemma GatheredSize(d: Dist, g: Csc)
    requires Gathers(d, g)
    ensures g.Valid() && g.base == 1 && |g.colptr| == d.Size() + 1
  {
    assert |g.Columns()| == |d.Gathered()|;
  }

  /** A split counted from 0, and the same counted from 1. */
  lemma SplitFrom(split: seq<nat>, n: nat, vertexDist: seq<nat>)
    requires SplitsFromZero(split, n) && |vertexDist| == |split|
    requires forall p :: 0 <= p < |split| ==> vertexDist[p] == split[p] + 1
    ensures IsSplit(vertexDist, 1, |split| - 1) && vertexDist[|split| - 1] == n + 1
  {
    forall p, q | 0 <= p <= q < |split| ensures vertexDist[p] <= vertexDist[q] {
      assert split[p] <= split[q];
    }
  }

  lemma CountedKeepsGraph(d: Dist, sn: Supernodal, g: Csc, d': Dist)
    requires Redistributable(d, sn) && Gathers(d, g) && Redistributed(d, sn, g, d')
    requires forall p :: 0 <= p < |d.ranks| ==> Counted(d, sn, p)
    ensures d'.Valid() && d'.Gathered() == d.Gathered()
  {
    NewDist(d, sn, g, d');
    hide RankIsSlice, Counted, Redistributable, Csc.Valid, Dist.Valid, IsSlice, NewSplit, IsSplit;
    assert forall p :: 0 <= p < |d'.ranks| ==> Counted(d, sn, p) && RankIsSlice(d', g, p);
    SlicesGather(d', g);
  }

  lemma KeptGraphIsCounted(d: Dist, sn: Supernodal, g: Csc, d': Dist, p: nat)
    requires Redistributable(d, sn) && Gathers(d, g) && Redistributed(d, sn, g, d') && p < |d.ranks|
    requires d'.Valid() && d'.Gathered() == d.Gathered()
    ensures Counted(d, sn, p)
  {
    hide Counted, Redistributable, Csc.Valid, Dist.Valid, IsSlice, NewSplit;
    RanksAreSlices(d', g, p);
    assert RankIsSlice(d', g, p);
  }

  /** The columns stay where they are in the whole graph exactly when every rank counted right. */
  lemma RedistributionPreservesGraph(d: Dist, sn: Supernodal, g: Csc, d': Dist)
    requires Redistributable(d, sn) && Gathers(d, g) && Redistributed(d, sn, g, d')
    ensures d'.Valid() && d'.Gathered() == d.Gathered() <==> forall p :: 0 <= p < |d.ranks| ==> Counted(d, sn, p)
  {
    assert d.Valid();
    hide Counted, Redistributable, Redistributed, Csc.Valid, Dist.Valid, Gathers;
    if forall p :: 0 <= p < |d.ranks| ==> Counted(d, sn, p) {
      CountedKeepsGraph(d, sn, g, d');
    }
    if d'.Valid() && d'.Gathered() == d.Gathered() {
      forall p | 0 <= p < |d.ranks| ensures Counted(d, sn, p) {
        KeptGraphIsCounted(d, sn, g, d', p);
      }
    }
  }

  /** What the method reads for one rank, in terms of the two splits. */
  lemma RankReads(d: Dist, sn: Supernodal, g: Csc, p: nat)
    requires Redistributable(d, sn) && Gathers(d, g) && p < |d.ranks|
    ensures |d.vertexDist| == |sn.xsuperdist| == |d.ranks| + 1 && d.vertexDist[p] == OldSplit(d)[p] + 1
    ensures 1 <= sn.xsuperdist[p] <= sn.xsuperdist[p + 1] <= |sn.xsuper|
    ensures sn.xsuper[sn.xsuperdist[p] - 1] == NewSplit(d, sn)[p] + 1 >= 1
    ensures sn.xsuper[sn.xsuperdist[p + 1] - 1] == NewSplit(d, sn)[p + 1] + 1 >= 1
    ensures d.ranks[p].Valid() && d.ranks[p].base == 1 && NonDescending(d.ranks[p].colptr)
    ensures CountsFit(d.ranks[p].colptr, OldSplit(d)[p], NewSplit(d, sn)[p], NewSplit(d, sn)[p + 1])
    ensures d.vertexDist[p] - 1 + |d.ranks[p].colptr| - 1 <= d.Size()
  {
    RankFacts(d, sn, g, p);
    sn.SplitAt(d.Size(), |d.ranks|, p);
    sn.SplitAt(d.Size(), |d.ranks|, p + 1);
    hide Csc.Valid, SplitsFromZero, NonDescending, IsSlice, Supernodal.Split;
  }

  /** The plan of one rank, from the supernode arrays as the method reads them. */
  method PlanRank(d: Dist, sn: Supernodal, p: nat, ghost g: Csc) returns (plan: Plan)
    requires Redistributable(d, sn) && Gathers(d, g) && p < |d.ranks|
    ensures IsPlan(d, sn, p, plan)
  {
    hide *;
    RankReads(d, sn, g, p);
    IsPlanOf(d, sn, p);
    var nsuperLocal := sn.xsuperdist[p + 1] - sn.xsuperdist[p];
    var firstSnode := sn.xsuperdist[p] - 1;
    var firstCol := d.vertexDist[p] - 1;
    var supLastColumn := sn.xsuper[firstSnode + nsuperLocal] as int - 1 - 1;
    var supFirstColumn := sn.xsuper[firstSnode] - 1;
    plan := PlanOf(d.ranks[p].colptr, firstCol, supFirstColumn, supLastColumn + 1);
  }

  lemma IsPlanOf(d: Dist, sn: Supernodal, p: nat)
    requires Redistributable(d, sn) && p < |d.ranks|
    requires NonDescending(d.ranks[p].colptr)
    requires CountsFit(d.ranks[p].colptr, OldSplit(d)[p], NewSplit(d, sn)[p], NewSplit(d, sn)[p + 1])
    ensures IsPlan(d, sn, p, PlanOf(d.ranks[p].colptr, OldSplit(d)[p], NewSplit(d, sn)[p], NewSplit(d, sn)[p + 1]))
  {
  }

  /** What sending on rank q starts from. */
  lemma SendFacts(d: Dist, sn: Supernodal, g: Csc, q: nat, plan: Plan)
    requires Redistributable(d, sn) && Gathers(d, g) && q < |d.ranks| && IsPlan(d, sn, q, plan)
    ensures |d.vertexDist| == |d.ranks| + 1 && d.vertexDist[q] >= 1 && IsSplit(d.vertexDist, d.base, |d.ranks|)
    ensures q < |OldSplit(d)| && OldSplit(d)[q] == d.vertexDist[q] - 1
    ensures NewSplit(d, sn) == sn.Split(d.Size(), |d.ranks|) && |NewSplit(d, sn)| == |d.ranks| + 1
    ensures d.ranks[q].Valid() && d.ranks[q].base == 1 && NonDescending(d.ranks[q].colptr)
    ensures sn.Valid(d.Size(), |d.ranks|) && d.vertexDist[q] - 1 + |d.ranks[q].colptr| - 1 <= d.Size()
    ensures var split, first := sn.Split(d.Size(), |d.ranks|), d.vertexDist[q] - 1;
      && CountsFit(d.ranks[q].colptr, first, split[q], split[q + 1])
      && plan == PlanOf(d.ranks[q].colptr, first, split[q], split[q + 1])
  {
    RankReads(d, sn, g, q);
    hide Gathers, Csc.Valid, Supernodal.Valid, Supernodal.Split, PlanOf, CountsFit, NonDescending, IsSlice, IsSplit;
  }

  lemma SentIs(d: Dist, sn: Supernodal, q: nat, first: nat, split: seq<nat>, ptrs: seq<seq<nat>>, rows: seq<seq<nat>>)
    requires Redistributable(d, sn) && q < |d.ranks| && q < |OldSplit(d)| && first == OldSplit(d)[q]
    requires split == NewSplit(d, sn) && |split| == |d.ranks| + 1
    requires d.ranks[q].Valid() && d.ranks[q].base == 1 && |ptrs| == |rows| == |d.ranks|
    requires forall r :: 0 <= r < |d.ranks| ==> Addressed(d.ranks[q], first, split, q, r, ptrs[r], rows[r])
    ensures SentBy(d, sn, q, ptrs, rows)
  {
    hide Addressed, Redistributable, OldSplit, NewSplit, Csc.Valid, Dist.Valid, IsSplit, SplitsFromZero;
  }

  method SendRank(d: Dist, sn: Supernodal, ghost g: Csc, q: nat)
    returns (plan: Plan, ptrs: seq<seq<nat>>, rows: seq<seq<nat>>)
    requires Redistributable(d, sn) && Gathers(d, g) && q < |d.ranks|
    ensures SentBy(d, sn, q, ptrs, rows) && IsPlan(d, sn, q, plan)
  {
    hide *;
    plan := PlanRank(d, sn, q, g);
    SendFacts(d, sn, g, q, plan);
    ptrs, rows := SendLocal(d.ranks[q], d.vertexDist[q] - 1, plan, sn, |d.ranks|, d.Size(), q);
    SentIs(d, sn, q, d.vertexDist[q] - 1, sn.Split(d.Size(), |d.ranks|), ptrs, rows);
  }

  /** Every rank books and packs. */
  method SendAll(d: Dist, sn: Supernodal, ghost g: Csc)
    returns (plans: seq<Plan>, ptrs: seq<seq<seq<nat>>>, rows: seq<seq<seq<nat>>>)
    requires Redistributable(d, sn) && Gathers(d, g)
    ensures |plans| == |ptrs| == |rows| == |d.ranks| && AllSent(d, sn, plans, ptrs, rows)
  {
    plans, ptrs, rows := [], [], [];
    for q := 0 to |d.ranks|
      invariant |plans| == |ptrs| == |rows| == q
      invariant forall r :: 0 <= r < q ==> SentBy(d, sn, r, ptrs[r], rows[r]) && IsPlan(d, sn, r, plans[r])
    {
      hide SentBy, IsPlan, Redistributable, Gathers;
      var plan, p, r := SendRank(d, sn, g, q);
      plans, ptrs, rows := plans + [plan], ptrs + [p], rows + [r];
    }
  }

  ghost predicate IsPlan(d: Dist, sn: Supernodal, p: nat, plan: Plan)
    requires Redistributable(d, sn) && p < |d.ranks|
  {
    && NonDescending(d.ranks[p].colptr)
    && CountsFit(d.ranks[p].colptr, OldSplit(d)[p], NewSplit(d, sn)[p], NewSplit(d, sn)[p + 1])
    && plan == PlanOf(d.ranks[p].colptr, OldSplit(d)[p], NewSplit(d, sn)[p], NewSplit(d, sn)[p + 1])
  }

  /** The whole collective call. */
  method RedistributeSupernodal(d: Dist, sn: Supernodal) returns (d': Dist, ghost g: Csc)
    requires Redistributable(d, sn)
    ensures Gathers(d, g) && Redistributed(d, sn, g, d')
    ensures d'.Valid() && d'.Gathered() == d.Gathered() <==> forall p :: 0 <= p < |d.ranks| ==> Counted(d, sn, p)
  {
    var sg := AllGatherStructure(d);
    g := sg;
    assert d.Valid();
    hide Redistributed, SentBy, IsPlan, Counted, Csc.Valid, Dist.Valid, Supernodal.Valid;
    var plans, ptrs, rows := SendAll(d, sn, g);
    d' := MergeAll(d, sn, g, plans, ptrs, rows);
    RedistributionPreservesGraph(d, sn, g, d');
  }

  /** Every rank has booked and packed. */
  ghost predicate AllSent(d: Dist, sn: Supernodal, plans: seq<Plan>, ptrs: seq<seq<seq<nat>>>, rows: seq<seq<seq<nat>>>)
    requires Redistributable(d, sn) && |plans| == |ptrs| == |rows| == |d.ranks|
  {
    forall q :: 0 <= q < |d.ranks| ==> SentBy(d, sn, q, ptrs[q], rows[q]) && IsPlan(d, sn, q, plans[q])
  }

  /** Every rank merges what it received and learns the new split. */
  method MergeAll(d: Dist, sn: Supernodal, ghost g: Csc, plans: seq<Plan>, ptrs: seq<seq<seq<nat>>>,
                  rows: seq<seq<seq<nat>>>)
    returns (d': Dist)
    requires Redistributable(d, sn) && Gathers(d, g) && |plans| == |ptrs| == |rows| == |d.ranks|
    requires AllSent(d, sn, plans, ptrs, rows)
    ensures Redistributed(d, sn, g, d')
  {
    var np := |d.ranks|;
    FirstStart(d, sn);
    ghost var split := NewSplit(d, sn);
    var ranks: seq<Csc> := [];
    var vertexDist: seq<nat> := [d.vertexDist[0]];
    hide *;
    for p := 0 to np
      invariant |ranks| == p && |vertexDist| == p + 1
      invariant forall q :: 0 <= q <= p ==> vertexDist[q] == split[q] + 1
      invariant forall q :: 0 <= q < p ==> RankMerged(d, sn, g, ranks[q], q)
    {
      var s := MergeRank(d, sn, g, p, plans, ptrs, rows);
      NewEnd(d, sn, g, p);
      var supLastColumn := sn.xsuper[sn.xsuperdist[p + 1] - 1] as int - 1 - 1;
      ranks, vertexDist := ranks + [s], vertexDist + [supLastColumn + d.base + 1];
    }
    d' := Dist(d.base, vertexDist, ranks);
    MergedRanks(d, sn, g, d');
  }

  /** Where the new block of rank p ends. */
  lemma NewEnd(d: Dist, sn: Supernodal, g: Csc, p: nat)
    requires Redistributable(d, sn) && Gathers(d, g) && p < |d.ranks|
    ensures p + 1 < |sn.xsuperdist| && 1 <= sn.xsuperdist[p + 1] <= |sn.xsuper| && p + 1 < |NewSplit(d, sn)|
    ensures sn.xsuper[sn.xsuperdist[p + 1] - 1] == NewSplit(d, sn)[p + 1] + 1
  {
    hide *;
    RankReads(d, sn, g, p);
    FirstStart(d, sn);
  }

  lemma FirstStart(d: Dist, sn: Supernodal)
    requires Redistributable(d, sn)
    ensures d.base == 1 && |d.vertexDist| == |d.ranks| + 1 == |NewSplit(d, sn)|
    ensures d.vertexDist[0] == NewSplit(d, sn)[0] + 1
  {
    sn.SplitShape(d.Size(), |d.ranks|);
  }

  ghost predicate RankMerged(d: Dist, sn: Supernodal, g: Csc, s: Csc, p: nat)
    requires Redistributable(d, sn) && p < |d.ranks|
  {
    s.base == 1 && (IsSlice(s, g, NewSplit(d, sn)[p], NewSplit(d, sn)[p + 1]) <==> Counted(d, sn, p))
  }

  method MergeRank(d: Dist, sn: Supernodal, ghost g: Csc, p: nat, plans: seq<Plan>, ptrs: seq<seq<seq<nat>>>,
                   rows: seq<seq<seq<nat>>>)
    returns (s: Csc)
    requires Redistributable(d, sn) && Gathers(d, g) && p < |d.ranks|
    requires |plans| == |ptrs| == |rows| == |d.ranks|
    requires AllSent(d, sn, plans, ptrs, rows)
    ensures RankMerged(d, sn, g, s, p)
  {
    assert IsPlan(d, sn, p, plans[p]);
    hide SentBy, IsPlan;
    AllArrives(d, sn, g, p, ptrs, rows);
    MergeFacts(d, sn, g, p, plans[p]);
    MergeTarget(d, sn, g, p, plans[p]);
    hide *;
    var t := Target(OldSplitOf(d), sn.xsuper[sn.xsuperdist[p] - 1] - 1, sn.xsuper[sn.xsuperdist[p + 1] - 1] - 1, p);
    s := MergeLocal(d.ranks[p], plans[p], Column(ptrs, p), Column(rows, p), t, g);
    MergedOn(d, sn, g, p, s);
  }

  /** What merging on rank p starts from. */
  lemma MergeFacts(d: Dist, sn: Supernodal, g: Csc, p: nat, plan: Plan)
    requires Redistributable(d, sn) && Gathers(d, g) && p < |d.ranks| && IsPlan(d, sn, p, plan)
    ensures forall q :: 0 <= q < |d.vertexDist| ==> d.vertexDist[q] >= 1
    ensures |sn.xsuperdist| == |d.ranks| + 1 && 1 <= sn.xsuperdist[p] <= sn.xsuperdist[p + 1] <= |sn.xsuper|
    ensures sn.xsuper[sn.xsuperdist[p] - 1] >= 1 && sn.xsuper[sn.xsuperdist[p + 1] - 1] >= 1
    ensures TargetOf(d, sn, p) ==
      Target(OldSplitOf(d), sn.xsuper[sn.xsuperdist[p] - 1] - 1, sn.xsuper[sn.xsuperdist[p + 1] - 1] - 1, p)
  {
    assert d.Valid() && d.base == 1;
    hide *;
    RankReads(d, sn, g, p);
    PositiveDist(d);
    SameSplit(d);
    TargetIs(d, sn, p);
  }

  lemma MergeTarget(d: Dist, sn: Supernodal, g: Csc, p: nat, plan: Plan)
    requires Redistributable(d, sn) && Gathers(d, g) && p < |d.ranks| && IsPlan(d, sn, p, plan)
    ensures var t := TargetOf(d, sn, p);
      && t.me == p && t.Valid(g) && t.split[p] <= t.split[p + 1] < |g.colptr|
      && IsSlice(d.ranks[p], g, t.split[p], t.split[p + 1]) && NonDescending(d.ranks[p].colptr)
      && CountsFit(d.ranks[p].colptr, t.split[p], t.from, t.to)
      && plan == PlanOf(d.ranks[p].colptr, t.split[p], t.from, t.to)
  {
    hide *;
    RankFacts(d, sn, g, p);
    TargetIs(d, sn, p);
    PlanIs(d, sn, p, plan);
  }

  lemma TargetIs(d: Dist, sn: Supernodal, p: nat)
    requires Redistributable(d, sn) && p < |d.ranks|
    ensures TargetOf(d, sn, p) == Target(OldSplit(d), NewSplit(d, sn)[p], NewSplit(d, sn)[p + 1], p)
  {
  }

  lemma PlanIs(d: Dist, sn: Supernodal, p: nat, plan: Plan)
    requires Redistributable(d, sn) && p < |d.ranks| && IsPlan(d, sn, p, plan)
    ensures NonDescending(d.ranks[p].colptr)
    ensures CountsFit(d.ranks[p].colptr, OldSplit(d)[p], NewSplit(d, sn)[p], NewSplit(d, sn)[p + 1])
    ensures plan == PlanOf(d.ranks[p].colptr, OldSplit(d)[p], NewSplit(d, sn)[p], NewSplit(d, sn)[p + 1])
  {
  }

  lemma MergedOn(d: Dist, sn: Supernodal, g: Csc, p: nat, s: Csc)
    requires Redistributable(d, sn) && p < |d.ranks| && |d.ranks[p].colptr| >= 1 && s.base == 1
    requires var t := TargetOf(d, sn, p);
      IsSlice(s, g, t.from, t.to) <==> RowsCounted(d.ranks[p].colptr, t.split[p], t.from)
    ensures RankMerged(d, sn, g, s, p)
  {
    hide IsSlice, RowsCounted, Supernodal.Valid, Supernodal.Split, Dist.Valid, OldSplit;
  }

  lemma PositiveDist(d: Dist)
    requires d.Valid() && d.base == 1
    ensures |d.vertexDist| == |d.ranks| + 1 && forall p :: 0 <= p < |d.vertexDist| ==> d.vertexDist[p] >= 1
  {
    assert forall p :: 0 <= p < |d.vertexDist| ==> d.vertexDist[0] <= d.vertexDist[p];
  }

  lemma SameSplit(d: Dist)
    requires d.Valid() && d.base == 1 && forall p :: 0 <= p < |d.vertexDist| ==> d.vertexDist[p] >= 1
    ensures OldSplitOf(d) == OldSplit(d)
  {
  }

  function OldSplitOf(d: Dist): (split: seq<nat>)
    requires forall p :: 0 <= p < |d.vertexDist| ==> d.vertexDist[p] >= 1
  {
    seq(|d.vertexDist|, p requires 0 <= p < |d.vertexDist| => d.vertexDist[p] - 1)
  }

  lemma MergedRanks(d: Dist, sn: Supernodal, g: Csc, d': Dist)
    requires Redistributable(d, sn) && Gathers(d, g)
    requires d'.base == 1 && |d'.ranks| == |d.ranks| && |d'.vertexDist| == |d.ranks| + 1
    requires forall p :: 0 <= p <= |d.ranks| ==> d'.vertexDist[p] == NewSplit(d, sn)[p] + 1
    requires forall p :: 0 <= p < |d.ranks| ==> RankMerged(d, sn, g, d'.ranks[p], p)
    ensures Redistributed(d, sn, g, d')
  {
    hide *;
    forall p | 0 <= p < |d.ranks| ensures d'.ranks[p].base == 1 && (RankIsSlice(d', g, p) <==> Counted(d, sn, p)) {
      MergedRank(d, sn, g, d', p);
    }
    ManyMerged(d, sn, g, d');
  }

  lemma MergedRank(d: Dist, sn: Supernodal, g: Csc, d': Dist, p: nat)
    requires Redistributable(d, sn) && p < |d.ranks| == |d'.ranks| && |d'.vertexDist| == |d.ranks| + 1
    requires d'.vertexDist[p] == NewSplit(d, sn)[p] + 1 && d'.vertexDist[p + 1] == NewSplit(d, sn)[p + 1] + 1
    requires RankMerged(d, sn, g, d'.ranks[p], p)
    ensures d'.ranks[p].base == 1 && (RankIsSlice(d', g, p) <==> Counted(d, sn, p))
  {
    NewSplitShape(d, sn);
    hide Given, SameLeaders, IsSlice, Counted, NewSplit;
    assert NewSplit(d, sn)[p] <= NewSplit(d, sn)[p + 1];
  }

  lemma ManyMerged(d: Dist, sn: Supernodal, g: Csc, d': Dist)
    requires Redistributable(d, sn)
    requires d'.base == 1 && |d'.ranks| == |d.ranks| && |d'.vertexDist| == |d.ranks| + 1
    requires forall p :: 0 <= p <= |d.ranks| ==> d'.vertexDist[p] == NewSplit(d, sn)[p] + 1
    requires forall p :: 0 <= p < |d.ranks| ==>
      d'.ranks[p].base == 1 && (RankIsSlice(d', g, p) <==> Counted(d, sn, p))
    ensures Redistributed(d, sn, g, d')
  {
    hide Redistributable, RankIsSlice, Counted, NewSplit;
  }
}
