// stab_binsearch (sched/kern/kdebug.c): a binary search over the entries of one type among entries
// of many types.
module Kdebug {

  // n_type and n_value of struct Stab.
  datatype Stab = Stab(kind: nat, value: nat)

  datatype Region = Region(left: int, right: int)

  // Addresses that can still be incremented on 32 bits.
  const LIMIT := 0xFFFF_FFFF

  predicate Wanted(stabs: seq<Stab>, kind: nat, i: int) { 0 <= i < |stabs| && stabs[i].kind == kind }

  // The scan to the left: the last wanted stab in [l, m], l - 1 if there is none.
  function Last(stabs: seq<Stab>, kind: nat, l: int, m: int): (k: int)
    requires 0 <= l <= m + 1 <= |stabs|
    ensures l - 1 <= k <= m && (k >= l ==> Wanted(stabs, kind, k))
    ensures forall i :: k < i <= m ==> !Wanted(stabs, kind, i)
    decreases m - l
  {
    if m < l || stabs[m].kind == kind then m else Last(stabs, kind, l, m - 1)
  }

  predicate InRange(stabs: seq<Stab>, kind: nat, l: int, r: int) {
    0 <= l <= r + 1 <= |stabs| && forall i :: l <= i <= r && Wanted(stabs, kind, i) ==> stabs[i].value < LIMIT
  }

  predicate InTable(stabs: seq<Stab>, region: Region) { 0 <= region.left && region.right < |stabs| }

  // The main loop: the region and whether anything of the type was seen.
  function Loop(stabs: seq<Stab>, kind: nat, l: int, r: int, addr: nat, region: Region, seen: bool)
      : (res: (Region, bool))
    requires InRange(stabs, kind, l, r) && addr <= LIMIT && InTable(stabs, region)
    ensures InTable(stabs, res.0)
    decreases r - l + 1, LIMIT - addr
  {
    if l > r then (region, seen)
    else
      var middle := (l + r) / 2;
      var m := Last(stabs, kind, l, middle);
      if m < l then Loop(stabs, kind, middle + 1, r, addr, region, seen)
      else if stabs[m].value < addr then Loop(stabs, kind, middle + 1, r, addr, Region(m, region.right), true)
      else if stabs[m].value > addr then Loop(stabs, kind, l, m - 1, addr, Region(region.left, m - 1), true)
      else Loop(stabs, kind, m, r, addr + 1, Region(m, region.right), true)
  }

  // What follows the loop.
  function Finish(stabs: seq<Stab>, kind: nat, region: Region, seen: bool): Region
    requires InTable(stabs, region)
  {
    if !seen then Region(region.left, region.left - 1)
    else if region.right <= region.left then Region(region.right, region.right)
    else Region(Last(stabs, kind, region.left + 1, region.right), region.right)
  }

  // ---------------------------------------------------------------- what the loop keeps

  ghost predicate Increasing(stabs: seq<Stab>, kind: nat, left: int, right: int) {
    forall i, j :: left <= i < j <= right && Wanted(stabs, kind, i) && Wanted(stabs, kind, j) ==>
      stabs[i].value < stabs[j].value
  }

  // A stab of the type with this value.
  ghost predicate Occurs(stabs: seq<Stab>, kind: nat, left: int, right: int, value: nat) {
    exists i :: left <= i <= right && Wanted(stabs, kind, i) && stabs[i].value == value
  }

  ghost predicate NoneIn(stabs: seq<Stab>, kind: nat, from: int, to: int) {
    forall i :: from <= i < to ==> !Wanted(stabs, kind, i)
  }

  // k is the last wanted stab before l, and lies before now.
  ghost predicate LeftMatches(stabs: seq<Stab>, kind: nat, left: int, right: int, k: int, l: int, now: nat) {
    left <= k <= right && Wanted(stabs, kind, k) && stabs[k].value < now && NoneIn(stabs, kind, k + 1, l)
  }

  // left and right bound the search, addr is what was asked for; now is the address after the
  // increments: every value from addr up to it occurs.
  ghost predicate LoopInv(stabs: seq<Stab>, kind: nat, left: int, right: int, addr: nat,
    l: int, r: int, now: nat, region: Region, seen: bool)
  {
    && 0 <= left <= l <= r + 1 <= right + 1 <= |stabs| && addr <= now <= LIMIT
    && (forall i :: left <= i < l && Wanted(stabs, kind, i) ==> stabs[i].value < now)
    && (forall i :: r < i <= right && Wanted(stabs, kind, i) ==> stabs[i].value >= now && stabs[i].value > addr)
    && (forall v: nat :: addr <= v < now ==> Occurs(stabs, kind, left, right, v))
    && region.right == r && (r == right || Wanted(stabs, kind, r + 1))
    && (LeftMatches(stabs, kind, left, right, region.left, l, now)
      || (region.left == left && NoneIn(stabs, kind, left, l)))
    && (seen || (r == right && region.left == left && NoneIn(stabs, kind, left, l)))
    && (seen ==> !NoneIn(stabs, kind, left, right + 1))
  }

  lemma SkipKeeps(stabs: seq<Stab>, kind: nat, left: int, right: int, addr: nat,
    l: int, r: int, now: nat, region: Region, seen: bool, middle: int)
    requires LoopInv(stabs, kind, left, right, addr, l, r, now, region, seen)
    requires l <= middle <= r && NoneIn(stabs, kind, l, middle + 1)
    ensures LoopInv(stabs, kind, left, right, addr, middle + 1, r, now, region, seen)
  {
    hide Occurs, Wanted;
    assert NoneIn(stabs, kind, left, l) ==> NoneIn(stabs, kind, left, middle + 1);
    assert NoneIn(stabs, kind, region.left + 1, l) ==> NoneIn(stabs, kind, region.left + 1, middle + 1);
  }

  lemma BelowKeeps(stabs: seq<Stab>, kind: nat, left: int, right: int, addr: nat,
    l: int, r: int, now: nat, region: Region, seen: bool, m: int, middle: int)
    requires Increasing(stabs, kind, left, right) && LoopInv(stabs, kind, left, right, addr, l, r, now, region, seen)
    requires l <= m <= middle <= r && NoneIn(stabs, kind, m + 1, middle + 1)
    requires Wanted(stabs, kind, m) && stabs[m].value < now
    ensures LoopInv(stabs, kind, left, right, addr, middle + 1, r, now, Region(m, region.right), true)
  {
    hide Occurs;
    assert LeftMatches(stabs, kind, left, right, m, middle + 1, now);
    assert !NoneIn(stabs, kind, left, right + 1);
  }

  lemma AboveKeeps(stabs: seq<Stab>, kind: nat, left: int, right: int, addr: nat,
    l: int, r: int, now: nat, region: Region, seen: bool, m: int)
    requires Increasing(stabs, kind, left, right) && LoopInv(stabs, kind, left, right, addr, l, r, now, region, seen)
    requires l <= m <= r && Wanted(stabs, kind, m) && stabs[m].value > now
    ensures LoopInv(stabs, kind, left, right, addr, l, m - 1, now, Region(region.left, m - 1), true)
  {
    hide Occurs, LeftMatches;
    assert !NoneIn(stabs, kind, left, right + 1);
    hide NoneIn;
  }

  lemma MatchKeeps(stabs: seq<Stab>, kind: nat, left: int, right: int, addr: nat,
    l: int, r: int, now: nat, region: Region, seen: bool, m: int)
    requires Increasing(stabs, kind, left, right) && LoopInv(stabs, kind, left, right, addr, l, r, now, region, seen)
    requires l <= m <= r && Wanted(stabs, kind, m) && stabs[m].value == now < LIMIT
    ensures LoopInv(stabs, kind, left, right, addr, m, r, now + 1, Region(m, region.right), true)
  {
    assert Occurs(stabs, kind, left, right, now);
    hide Occurs;
    assert LeftMatches(stabs, kind, left, right, m, m, now + 1);
    assert !NoneIn(stabs, kind, left, right + 1);
  }

  // Whatever the loop returns is a state in which nothing is left to search.
  lemma {:induction false} LoopKeeps(stabs: seq<Stab>, kind: nat, left: int, right: int, addr: nat,
    l: int, r: int, now: nat, region: Region, seen: bool) returns (last: nat)
    requires InRange(stabs, kind, left, right) && Increasing(stabs, kind, left, right)
    requires left <= l <= r + 1 <= right + 1 && addr <= now <= LIMIT && region.right == r && InTable(stabs, region)
    requires LoopInv(stabs, kind, left, right, addr, l, r, now, region, seen)
    ensures InRange(stabs, kind, l, r)
    ensures var (region1, seen1) := Loop(stabs, kind, l, r, now, region, seen);
      LoopInv(stabs, kind, left, right, addr, region1.right + 1, region1.right, last, region1, seen1)
    decreases r - l + 1, LIMIT - now
  {
    hide LoopInv, Last, Increasing, Loop;
    if l > r {
      LoopEnd(stabs, kind, l, r, now, region, seen);
      LoopDone(stabs, kind, left, right, addr, l, r, now, region, seen);
      return now;
    }
    LoopStep(stabs, kind, l, r, now, region, seen);
    var middle := (l + r) / 2;
    var m := Last(stabs, kind, l, middle);
    if m < l {
      SkipKeeps(stabs, kind, left, right, addr, l, r, now, region, seen, middle);
      last := LoopKeeps(stabs, kind, left, right, addr, middle + 1, r, now, region, seen);
    } else if stabs[m].value < now {
      BelowKeeps(stabs, kind, left, right, addr, l, r, now, region, seen, m, middle);
      last := LoopKeeps(stabs, kind, left, right, addr, middle + 1, r, now, Region(m, region.right), true);
    } else if stabs[m].value > now {
      AboveKeeps(stabs, kind, left, right, addr, l, r, now, region, seen, m);
      last := LoopKeeps(stabs, kind, left, right, addr, l, m - 1, now, Region(region.left, m - 1), true);
    } else {
      MatchKeeps(stabs, kind, left, right, addr, l, r, now, region, seen, m);
      last := LoopKeeps(stabs, kind, left, right, addr, m, r, now + 1, Region(m, region.right), true);
    }
  }

  lemma LoopDone(stabs: seq<Stab>, kind: nat, left: int, right: int, addr: nat,
    l: int, r: int, now: nat, region: Region, seen: bool)
    requires LoopInv(stabs, kind, left, right, addr, l, r, now, region, seen) && l > r
    ensures LoopInv(stabs, kind, left, right, addr, r + 1, r, now, region, seen)
  {
  }

  // ---------------------------------------------------------------- the whole search

  // A region of the table whose wanted stabs have increasing addresses.
  ghost predicate Sorted(stabs: seq<Stab>, kind: nat, left: int, right: int) {
    InRange(stabs, kind, left, right) && Increasing(stabs, kind, left, right)
  }

  function Search(stabs: seq<Stab>, kind: nat, left: int, right: int, addr: nat): Region
    requires InRange(stabs, kind, left, right) && addr < LIMIT && left < |stabs|
  {
    var (region, seen) := Loop(stabs, kind, left, right, addr, Region(left, right), false);
    Finish(stabs, kind, region, seen)
  }

  // i is the last wanted stab up to k.
  ghost predicate IsLast(stabs: seq<Stab>, kind: nat, left: int, i: int, k: int) {
    left <= i <= k && Wanted(stabs, kind, i) && NoneIn(stabs, kind, i + 1, k + 1)
  }

  // What the search returns, for every sorted region: there is an address `last`, reached from addr
  // through addresses that all occur, such that the region's right end lies just before the first
  // wanted stab at or after it, and its left end is the last wanted stab before it.
  lemma SearchMeaning(stabs: seq<Stab>, kind: nat, left: int, right: int, addr: nat) returns (last: nat)
    requires Sorted(stabs, kind, left, right) && addr < LIMIT && left < |stabs|
    ensures var r := Search(stabs, kind, left, right, addr);
      && (NoneIn(stabs, kind, left, right + 1) ==> r == Region(left, left - 1))
      && (!NoneIn(stabs, kind, left, right + 1) ==> (
        && addr <= last && (forall v: nat :: addr <= v < last ==> Occurs(stabs, kind, left, right, v))
        && (Occurs(stabs, kind, left, right, addr) ==> addr < last)
        && left - 1 <= r.right <= right && (r.right == right || Wanted(stabs, kind, r.right + 1))
        && (forall i :: left <= i <= right && Wanted(stabs, kind, i) ==> (i <= r.right <==> stabs[i].value < last))
        && (if NoneIn(stabs, kind, left, r.right + 1) then r.left == (if r.right < left then r.right else left)
            else IsLast(stabs, kind, left, r.left, r.right))))
  {
    hide Loop, Last, Increasing;
    var start := Region(left, right);
    assert LoopInv(stabs, kind, left, right, addr, left, right, addr, start, false);
    last := LoopKeeps(stabs, kind, left, right, addr, left, right, addr, start, false);
    var (region, seen) := Loop(stabs, kind, left, right, addr, start, false);
    FinishMeaning(stabs, kind, left, right, addr, last, region, seen);
  }

  lemma FinishMeaning(stabs: seq<Stab>, kind: nat, left: int, right: int, addr: nat, last: nat, region: Region,
      seen: bool)
    requires LoopInv(stabs, kind, left, right, addr, region.right + 1, region.right, last, region, seen)
    requires left < |stabs|
    ensures InTable(stabs, region)
    ensures var r := Finish(stabs, kind, region, seen);
      && (NoneIn(stabs, kind, left, right + 1) ==> r == Region(left, left - 1))
      && (!NoneIn(stabs, kind, left, right + 1) ==> (
        && r.right == region.right
        && (Occurs(stabs, kind, left, right, addr) ==> addr < last)
        && (if NoneIn(stabs, kind, left, r.right + 1) then r.left == (if r.right < left then r.right else left)
            else IsLast(stabs, kind, left, r.left, r.right))))
  {
    hide Last;
    if seen && !NoneIn(stabs, kind, left, region.right + 1) {
      assert LeftMatches(stabs, kind, left, right, region.left, region.right + 1, last);
      assert region.left <= region.right;
    }
  }

  // The promise of stab_binsearch: left is the last stab of the type at or before addr, and right
  // is just before the next one of the type.
  ghost predicate IsAnswer(stabs: seq<Stab>, kind: nat, left: int, right: int, addr: nat, r: Region) {
    && left <= r.left <= r.right <= right && Wanted(stabs, kind, r.left) && stabs[r.left].value <= addr
    && (forall i :: left <= i <= right && Wanted(stabs, kind, i) && stabs[i].value <= addr ==> i <= r.left)
    && NoneIn(stabs, kind, r.left + 1, r.right + 1) && (r.right == right || Wanted(stabs, kind, r.right + 1))
  }

  // Does halving the region meet a stab at addr + 1 before it meets one at addr?
  predicate MeetsLaterFirst(stabs: seq<Stab>, kind: nat, l: int, r: int, addr: nat)
    requires 0 <= l <= r + 1 <= |stabs|
    decreases r - l + 1
  {
    if l > r then false
    else
      var middle := (l + r) / 2;
      var m := Last(stabs, kind, l, middle);
      if m < l || stabs[m].value < addr then MeetsLaterFirst(stabs, kind, middle + 1, r, addr)
      else if stabs[m].value > addr + 1 then MeetsLaterFirst(stabs, kind, l, m - 1, addr)
      else stabs[m].value == addr + 1
  }

  lemma {:induction false} RightShrinks(stabs: seq<Stab>, kind: nat, l: int, r: int, addr: nat, region: Region,
      seen: bool)
    requires InRange(stabs, kind, l, r) && addr <= LIMIT && InTable(stabs, region) && region.right == r
    ensures Loop(stabs, kind, l, r, addr, region, seen).0.right <= r
    decreases r - l + 1, LIMIT - addr
  {
    hide Loop, Last;
    if l > r {
      LoopEnd(stabs, kind, l, r, addr, region, seen);
      return;
    }
    LoopStep(stabs, kind, l, r, addr, region, seen);
    var middle := (l + r) / 2;
    var m := Last(stabs, kind, l, middle);
    if m < l {
      RightShrinks(stabs, kind, middle + 1, r, addr, region, seen);
    } else if stabs[m].value < addr {
      RightShrinks(stabs, kind, middle + 1, r, addr, Region(m, region.right), true);
    } else if stabs[m].value > addr {
      RightShrinks(stabs, kind, l, m - 1, addr, Region(region.left, m - 1), true);
    } else {
      RightShrinks(stabs, kind, m, r, addr + 1, Region(m, region.right), true);
    }
  }

  // After the exact match at a, the stab b at the incremented address is never cut off.
  lemma NextStays(stabs: seq<Stab>, kind: nat, left: int, right: int, addr: nat,
    l: int, r: int, region: Region, seen: bool, a: int, b: int)
    requires InRange(stabs, kind, left, right) && Increasing(stabs, kind, left, right)
    requires LoopInv(stabs, kind, left, right, addr, l, r, addr, region, seen) && l <= a < b <= r
    requires Wanted(stabs, kind, a) && Wanted(stabs, kind, b) && stabs[a].value == addr && stabs[b].value == addr + 1
    ensures b <= Loop(stabs, kind, a, r, addr + 1, Region(a, region.right), true).0.right
  {
    hide Loop;
    var next := Region(a, region.right);
    assert LeftMatches(stabs, kind, left, right, a, a, addr + 1);
    assert !NoneIn(stabs, kind, left, right + 1);
    assert LoopInv(stabs, kind, left, right, addr + 1, a, r, addr + 1, next, true);
    var last := LoopKeeps(stabs, kind, left, right, addr + 1, a, r, addr + 1, next, true);
  }

  lemma {:induction false} RightEnd(stabs: seq<Stab>, kind: nat, left: int, right: int, addr: nat,
    l: int, r: int, region: Region, seen: bool, a: int, b: int)
    requires InRange(stabs, kind, left, right) && Increasing(stabs, kind, left, right)
    requires left <= l <= r + 1 <= right + 1 && addr <= LIMIT && region.right == r && InTable(stabs, region)
    requires LoopInv(stabs, kind, left, right, addr, l, r, addr, region, seen) && l <= a < b <= r
    requires Wanted(stabs, kind, a) && Wanted(stabs, kind, b) && stabs[a].value == addr && stabs[b].value == addr + 1
    ensures Loop(stabs, kind, l, r, addr, region, seen).0.right < b <==> MeetsLaterFirst(stabs, kind, l, r, addr)
    decreases r - l + 1
  {
    hide Loop, Last, LoopInv, MeetsLaterFirst;
    LoopStep(stabs, kind, l, r, addr, region, seen);
    MeetsStep(stabs, kind, l, r, addr);
    var middle := (l + r) / 2;
    var m := Last(stabs, kind, l, middle);
    assert m >= l && stabs[m].value == addr ==> m == a;
    assert m >= l && stabs[m].value == addr + 1 ==> m == b;
    if m < l {
      SkipKeeps(stabs, kind, left, right, addr, l, r, addr, region, seen, middle);
      RightEnd(stabs, kind, left, right, addr, middle + 1, r, region, seen, a, b);
    } else if stabs[m].value < addr {
      BelowKeeps(stabs, kind, left, right, addr, l, r, addr, region, seen, m, middle);
      RightEnd(stabs, kind, left, right, addr, middle + 1, r, Region(m, region.right), true, a, b);
    } else if stabs[m].value > addr + 1 {
      AboveKeeps(stabs, kind, left, right, addr, l, r, addr, region, seen, m);
      RightEnd(stabs, kind, left, right, addr, l, m - 1, Region(region.left, m - 1), true, a, b);
    } else if stabs[m].value == addr + 1 {
      RightShrinks(stabs, kind, l, m - 1, addr, Region(region.left, m - 1), true);
    } else {
      NextStays(stabs, kind, left, right, addr, l, r, region, seen, a, b);
    }
  }

  lemma MeetsStep(stabs: seq<Stab>, kind: nat, l: int, r: int, addr: nat)
    requires 0 <= l <= r < |stabs|
    ensures var middle := (l + r) / 2;
      var m := Last(stabs, kind, l, middle);
      MeetsLaterFirst(stabs, kind, l, r, addr) ==
        if m < l || stabs[m].value < addr then MeetsLaterFirst(stabs, kind, middle + 1, r, addr)
        else if stabs[m].value > addr + 1 then MeetsLaterFirst(stabs, kind, l, m - 1, addr)
        else stabs[m].value == addr + 1
  {
    hide Last;
  }

  // The whole search, when stabs at both addresses occur: its right end is before the later one
  // exactly when halving meets that one first.
  lemma SearchRightEnd(stabs: seq<Stab>, kind: nat, left: int, right: int, addr: nat, a: int, b: int)
    requires Sorted(stabs, kind, left, right) && addr < LIMIT && left <= a < b <= right
    requires Wanted(stabs, kind, a) && Wanted(stabs, kind, b) && stabs[a].value == addr && stabs[b].value == addr + 1
    ensures Search(stabs, kind, left, right, addr).right < b <==> MeetsLaterFirst(stabs, kind, left, right, addr)
  {
    hide Loop, Last, Increasing, MeetsLaterFirst;
    var start := Region(left, right);
    assert LoopInv(stabs, kind, left, right, addr, left, right, addr, start, false);
    RightEnd(stabs, kind, left, right, addr, left, right, start, false, a, b);
    var last := LoopKeeps(stabs, kind, left, right, addr, left, right, addr, start, false);
    var (region, seen) := Loop(stabs, kind, left, right, addr, start, false);
    FinishMeaning(stabs, kind, left, right, addr, last, region, seen);
    assert !NoneIn(stabs, kind, left, right + 1);
  }

  // Exactly when the promise is kept, for a region with a stab at or before addr: unless stabs at
  // addr and at addr + 1 both occur and halving meets the one at addr first. The increment of addr
  // then makes the next stab an exact match as well.
  lemma FindsTheStab(stabs: seq<Stab>, kind: nat, left: int, right: int, addr: nat)
    requires Sorted(stabs, kind, left, right) && addr < LIMIT && left < |stabs|
    requires exists i :: left <= i <= right && Wanted(stabs, kind, i) && stabs[i].value <= addr
    ensures IsAnswer(stabs, kind, left, right, addr, Search(stabs, kind, left, right, addr)) <==>
      !(Occurs(stabs, kind, left, right, addr) && Occurs(stabs, kind, left, right, addr + 1))
      || MeetsLaterFirst(stabs, kind, left, right, addr)
  {
    hide InRange, Search, MeetsLaterFirst, Last;
    var last := SearchMeaning(stabs, kind, left, right, addr);
    if Occurs(stabs, kind, left, right, addr) && Occurs(stabs, kind, left, right, addr + 1) {
      var a :| left <= a <= right && Wanted(stabs, kind, a) && stabs[a].value == addr;
      var b :| left <= b <= right && Wanted(stabs, kind, b) && stabs[b].value == addr + 1;
      assert a < b by { assert Increasing(stabs, kind, left, right); }
      SearchRightEnd(stabs, kind, left, right, addr, a, b);
      if b <= Search(stabs, kind, left, right, addr).right {
        PastAnswer(stabs, kind, left, right, addr, Search(stabs, kind, left, right, addr), b);
      } else {
        assert last == addr + 1;
      }
    } else {
      AnswerAlone(stabs, kind, left, right, addr, last);
    }
  }

  lemma PastAnswer(stabs: seq<Stab>, kind: nat, left: int, right: int, addr: nat, r: Region, b: int)
    requires left <= b <= r.right && Wanted(stabs, kind, b) && stabs[b].value > addr
    requires Increasing(stabs, kind, left, right)
    requires IsLast(stabs, kind, left, r.left, r.right) && r.right <= right
    ensures !IsAnswer(stabs, kind, left, right, addr, r)
  {
    assert b <= r.left;
  }

  lemma AnswerAlone(stabs: seq<Stab>, kind: nat, left: int, right: int, addr: nat, last: nat)
    requires !(Occurs(stabs, kind, left, right, addr) && Occurs(stabs, kind, left, right, addr + 1))
    requires addr <= last && (forall v: nat :: addr <= v < last ==> Occurs(stabs, kind, left, right, v))
    requires Occurs(stabs, kind, left, right, addr) ==> addr < last
    ensures forall i :: left <= i <= right && Wanted(stabs, kind, i) ==>
      (stabs[i].value < last <==> stabs[i].value <= addr)
  {
    if Occurs(stabs, kind, left, right, addr) {
      assert last == addr + 1;
    } else {
      assert last > addr ==> Occurs(stabs, kind, left, right, addr);
      assert last == addr;
      assert forall j :: left <= j <= right && Wanted(stabs, kind, j) ==> stabs[j].value != addr;
    }
  }

  // With stabs at addr and addr + 1 the answer can be the later one: the two-stab table, for any addr.
  lemma NextAddressConfuses(kind: nat, addr: nat)
    requires addr + 2 < LIMIT
    ensures var stabs := [Stab(kind, addr), Stab(kind, addr + 1)];
      Sorted(stabs, kind, 0, 1) && Search(stabs, kind, 0, 1, addr) == Region(1, 1)
  {
    var stabs := [Stab(kind, addr), Stab(kind, addr + 1)];
    assert Last(stabs, kind, 0, 0) == 0 && Last(stabs, kind, 1, 1) == 1;
    calc {
      Loop(stabs, kind, 0, 1, addr, Region(0, 1), false);
      Loop(stabs, kind, 0, 1, addr + 1, Region(0, 1), true);
      Loop(stabs, kind, 1, 1, addr + 1, Region(0, 1), true);
      Loop(stabs, kind, 1, 1, addr + 2, Region(1, 1), true);
      Loop(stabs, kind, 2, 1, addr + 2, Region(1, 1), true);
      (Region(1, 1), true);
    }
  }

  // The result is an empty region exactly when the type does not occur at all: stabs of the type
  // that all lie after addr are not reported that way.
  lemma EmptyResult(stabs: seq<Stab>, kind: nat, left: int, right: int, addr: nat)
    requires Sorted(stabs, kind, left, right) && addr < LIMIT && left < |stabs|
    ensures var r := Search(stabs, kind, left, right, addr);
      r.left > r.right <==> NoneIn(stabs, kind, left, right + 1)
  {
    hide Increasing, InRange, Search;
    var last := SearchMeaning(stabs, kind, left, right, addr);
  }

  lemma LoopStep(stabs: seq<Stab>, kind: nat, l: int, r: int, addr: nat, region: Region, seen: bool)
    requires InRange(stabs, kind, l, r) && addr <= LIMIT && InTable(stabs, region) && l <= r
    ensures var middle := (l + r) / 2;
      var m := Last(stabs, kind, l, middle);
      Loop(stabs, kind, l, r, addr, region, seen) ==
        if m < l then Loop(stabs, kind, middle + 1, r, addr, region, seen)
        else if stabs[m].value < addr then Loop(stabs, kind, middle + 1, r, addr, Region(m, region.right), true)
        else if stabs[m].value > addr then Loop(stabs, kind, l, m - 1, addr, Region(region.left, m - 1), true)
        else Loop(stabs, kind, m, r, addr + 1, Region(m, region.right), true)
  {
    hide Last;
  }

  // The two scans to the left, down to a bound.
  method ScanLeft(stabs: seq<Stab>, kind: nat, from: int, bound: int) returns (m: int)
    requires 0 <= bound <= from + 1 <= |stabs|
    ensures m == Last(stabs, kind, bound, from)
  {
    m := from;
    while m >= bound && stabs[m].kind != kind
      invariant bound - 1 <= m <= from
      invariant Last(stabs, kind, bound, from) == Last(stabs, kind, bound, m)
    {
      m := m - 1;
    }
  }

  method StabBinsearch(stabs: seq<Stab>, regionLeft: int, regionRight: int, kind: nat, address: nat)
      returns (left: int, right: int)
    requires Sorted(stabs, kind, regionLeft, regionRight) && address < LIMIT && regionLeft < |stabs|
    ensures Region(left, right) == Search(stabs, kind, regionLeft, regionRight, address)
  {
    hide Increasing, Loop, Last;
    left, right := regionLeft, regionRight;
    var l, r, addr: nat, anyMatches := regionLeft, regionRight, address, false;
    while l <= r
      invariant regionLeft <= l <= r + 1 <= regionRight + 1 && addr <= LIMIT
      invariant regionLeft <= left <= regionRight + 1 && right == r
      invariant Loop(stabs, kind, l, r, addr, Region(left, right), anyMatches)
        == Loop(stabs, kind, regionLeft, regionRight, address, Region(regionLeft, regionRight), false)
      decreases r - l + 1, LIMIT - addr
    {
      LoopStep(stabs, kind, l, r, addr, Region(left, right), anyMatches);
      var middle := (l + r) / 2;
      var m := ScanLeft(stabs, kind, middle, l);
      if m < l {
        l := middle + 1;
        continue;
      }
      anyMatches := true;
      if stabs[m].value < addr {
        left := m;
        l := middle + 1;
      } else if stabs[m].value > addr {
        right := m - 1;
        r := m - 1;
      } else {
        left := m;
        l := m;
        addr := addr + 1;
      }
    }
    LoopEnd(stabs, kind, l, r, addr, Region(left, right), anyMatches);
    if !anyMatches {
      right := left - 1;
    } else if right > left {
      left := ScanLeft(stabs, kind, right, left + 1);
    } else {
      left := right;
    }
  }

  lemma LoopEnd(stabs: seq<Stab>, kind: nat, l: int, r: int, addr: nat, region: Region, seen: bool)
    requires InRange(stabs, kind, l, r) && addr <= LIMIT && InTable(stabs, region) && l > r
    ensures Loop(stabs, kind, l, r, addr, region, seen) == (region, seen)
  {
  }
}
