/** Which flash sectors an erase or protect command works on (flash_fill_sect_ranges and addr_spec of cmd_flash.c). */
module FlashPlan {
  import opened Common

  /** `flash_info_t`: whether the bank was identified, the start of each sector, and the size. */
  datatype Bank = Bank(known: bool, start: seq<word>, size: word)

  /** A bank whose sectors ascend and which ends below the end of the address space; sector numbers fit a short. */
  predicate ValidBank(b: Bank) {
    && 0 < |b.start| <= 0x8000
    && (forall i, j :: 0 <= i < j < |b.start| ==> b.start[i] < b.start[j])
    && b.start[|b.start| - 1] < b.start[0] + b.size < WORD_MOD
  }

  /** The address behind a bank. */
  function Behind(b: Bank): nat
    requires ValidBank(b)
  {
    b.start[0] + b.size
  }

  /** The last address of a sector. */
  function EndOf(b: Bank, s: nat): (e: nat)
    requires ValidBank(b) && s < |b.start|
    ensures b.start[s] <= e < Behind(b)
  {
    if s == |b.start| - 1 then Behind(b) - 1 else
      assert b.start[s] < b.start[s + 1] <= b.start[|b.start| - 1];
      b.start[s + 1] - 1
  }

  /** The known banks are valid and lie one behind the other from address `at` on. */
  predicate Follow(banks: seq<Bank>, at: nat) {
    banks == []
    || if banks[0].known then ValidBank(banks[0]) && banks[0].start[0] == at && Follow(banks[1..], Behind(banks[0]))
       else Follow(banks[1..], at)
  }

  /** The address behind the flash. */
  function FlashBehind(banks: seq<Bank>, at: nat): (r: nat)
    requires Follow(banks, at)
    ensures r >= at
  {
    if banks == [] then at
    else if banks[0].known then FlashBehind(banks[1..], Behind(banks[0]))
    else FlashBehind(banks[1..], at)
  }

  // ---- the planner

  /** A bank's entries of `s_first` and `s_last`. */
  datatype Pick = Pick(first: int, last: int)

  const NO_PICK := Pick(-1, -1)

  function NoPicks(n: nat): (picks: seq<Pick>)
    ensures |picks| == n && forall k :: 0 <= k < n ==> picks[k] == NO_PICK
  {
    if n == 0 then [] else [NO_PICK] + NoPicks(n - 1)
  }

  predicate Meets(b: Bank, s: nat, first: nat, last: nat)
    requires ValidBank(b) && s < |b.start|
  {
    first <= EndOf(b, s) && b.start[s] <= last
  }

  /** `s_first` after looking at the first `n` sectors. */
  function FirstSector(b: Bank, first: nat, last: nat, n: nat): (s: int)
    requires ValidBank(b) && n <= |b.start|
    ensures -1 <= s < n
  {
    if n == 0 then -1
    else if Meets(b, n - 1, first, last) && b.start[n - 1] == first then n - 1
    else FirstSector(b, first, last, n - 1)
  }

  /** `s_last` after looking at the first `n` sectors. */
  function LastSector(b: Bank, first: nat, last: nat, n: nat): (s: int)
    requires ValidBank(b) && n <= |b.start|
    ensures -1 <= s < n
  {
    if n == 0 then -1
    else if Meets(b, n - 1, first, last) && EndOf(b, n - 1) == last then n - 1
    else LastSector(b, first, last, n - 1)
  }

  /** What a known bank contributes, and where the range goes on; `None` is an error. */
  datatype Step = Step(pick: Pick, next: nat)

  function BankStep(b: Bank, first: nat, last: nat): Option<Step>
    requires ValidBank(b)
  {
    var n := |b.start|;
    var sf, sl := FirstSector(b, first, last, n), LastSector(b, first, last, n);
    if sf >= 0 then
      if sl < 0 && last < Behind(b) then None
      else
        var s := if sl < 0 then n - 1 else sl;
        if s < sf then None else Some(Step(Pick(sf, s), EndOf(b, s) + 1))
    else if b.start[0] <= first < Behind(b) - 1 then None
    else if sl >= 0 then None
    else Some(Step(NO_PICK, first))
  }

  function Cons(pick: Pick, picks: Option<seq<Pick>>): Option<seq<Pick>> {
    if picks.None? then None else Some([pick] + picks.value)
  }

  predicate KnownValid(banks: seq<Bank>) {
    forall k :: 0 <= k < |banks| && banks[k].known ==> ValidBank(banks[k])
  }

  /** `flash_fill_sect_ranges`: the picks, or an error. */
  function Fill(banks: seq<Bank>, first: nat, last: nat): (picks: Option<seq<Pick>>)
    requires KnownValid(banks)
    ensures picks.Some? ==> |picks.value| == |banks|
    decreases |banks|
  {
    if banks == [] || first > last then Some(NoPicks(|banks|))
    else if !banks[0].known then Cons(NO_PICK, Fill(banks[1..], first, last))
    else
      var step := BankStep(banks[0], first, last);
      if step.None? then None else Cons(step.value.pick, Fill(banks[1..], step.value.next, last))
  }

  function PickCount(p: Pick): int {
    if p.first >= 0 then p.last - p.first + 1 else 0
  }

  /** `s_count`. */
  function Count(picks: seq<Pick>): int {
    if picks == [] then 0 else PickCount(picks[0]) + Count(picks[1..])
  }

  // ---- one bank

  predicate StartsIn(b: Bank, x: nat) {
    exists s :: 0 <= s < |b.start| && b.start[s] == x
  }

  predicate EndsIn(b: Bank, x: nat)
    requires ValidBank(b)
  {
    exists s :: 0 <= s < |b.start| && EndOf(b, s) == x
  }

  lemma {:induction false} FirstSectorIs(b: Bank, first: nat, last: nat, n: nat)
    requires ValidBank(b) && n <= |b.start| && first <= last
    ensures var sf := FirstSector(b, first, last, n);
            if sf >= 0 then sf < n && b.start[sf] == first
            else forall s :: 0 <= s < n ==> b.start[s] != first
  {
    if n > 0 {
      FirstSectorIs(b, first, last, n - 1);
    }
  }

  lemma {:induction false} LastSectorIs(b: Bank, first: nat, last: nat, n: nat)
    requires ValidBank(b) && n <= |b.start| && first <= last
    ensures var sl := LastSector(b, first, last, n);
            if sl >= 0 then sl < n && EndOf(b, sl) == last
            else forall s :: 0 <= s < n ==> EndOf(b, s) != last
  {
    if n > 0 {
      LastSectorIs(b, first, last, n - 1);
    }
  }

  /** A sector ends where the next one starts, the last one where the bank does; each address of the bank is in one. */
  lemma SectorsTile(b: Bank, s: nat, x: nat)
    requires ValidBank(b) && s < |b.start|
    ensures EndOf(b, s) + 1 == if s + 1 == |b.start| then b.start[0] + b.size else b.start[s + 1]
    ensures EndsIn(b, x) <==> x + 1 == b.start[0] + b.size || exists k :: 0 < k < |b.start| && b.start[k] == x + 1
  {
    if x + 1 == b.start[0] + b.size {
      assert EndOf(b, |b.start| - 1) == x;
    }
    if exists k :: 0 < k < |b.start| && b.start[k] == x + 1 {
      var k :| 0 < k < |b.start| && b.start[k] == x + 1;
      assert EndOf(b, k - 1) == x;
    }
    if EndsIn(b, x) {
      var k :| 0 <= k < |b.start| && EndOf(b, k) == x;
      assert k + 1 < |b.start| ==> b.start[k + 1] == x + 1;
    }
  }

  /** What a bank does with a range, in terms of its sector boundaries alone. */
  lemma BankStepIs(b: Bank, first: nat, last: nat)
    requires ValidBank(b) && first <= last
    ensures var step := BankStep(b, first, last);
            if StartsIn(b, first) then
              if EndsIn(b, last) then
                step.Some? && 0 <= step.value.pick.first <= step.value.pick.last < |b.start|
                && b.start[step.value.pick.first] == first && EndOf(b, step.value.pick.last) == last
                && step.value.next == last + 1
              else if last >= Behind(b) then
                step.Some? && 0 <= step.value.pick.first <= step.value.pick.last == |b.start| - 1
                && b.start[step.value.pick.first] == first && step.value.next == Behind(b)
              else step.None?
            else step.None? || step.value == Step(NO_PICK, first)
  {
    FirstSectorIs(b, first, last, |b.start|);
    LastSectorIs(b, first, last, |b.start|);
  }

  /** A range behind a bank passes it by. */
  lemma BankStepBeyond(b: Bank, first: nat, last: nat)
    requires ValidBank(b) && Behind(b) <= first <= last
    ensures BankStep(b, first, last) == Some(Step(NO_PICK, first)) && !EndsIn(b, last)
  {
    FirstSectorIs(b, first, last, |b.start|);
    LastSectorIs(b, first, last, |b.start|);
    assert forall s :: 0 <= s < |b.start| ==> b.start[s] <= EndOf(b, s) < Behind(b);
  }

  // ---- the whole flash

  predicate Starts(banks: seq<Bank>, x: nat) {
    banks != [] && ((banks[0].known && StartsIn(banks[0], x)) || Starts(banks[1..], x))
  }

  predicate Ends(banks: seq<Bank>, x: nat)
    requires KnownValid(banks)
  {
    banks != [] && ((banks[0].known && EndsIn(banks[0], x)) || Ends(banks[1..], x))
  }

  lemma {:induction false} FollowValid(banks: seq<Bank>, at: nat)
    requires Follow(banks, at)
    ensures KnownValid(banks)
  {
    if banks != [] {
      FollowValid(banks[1..], if banks[0].known then Behind(banks[0]) else at);
    }
  }

  lemma {:induction false} StartsBehind(banks: seq<Bank>, at: nat, x: nat)
    requires Follow(banks, at) && Starts(banks, x)
    ensures at <= x < FlashBehind(banks, at)
  {
    if banks[0].known && StartsIn(banks[0], x) {
      assert x < Behind(banks[0]) <= FlashBehind(banks, at);
    } else {
      StartsBehind(banks[1..], if banks[0].known then Behind(banks[0]) else at, x);
    }
  }

  lemma {:induction false} EndsBehind(banks: seq<Bank>, at: nat, x: nat)
    requires Follow(banks, at) && KnownValid(banks) && Ends(banks, x)
    ensures at <= x < FlashBehind(banks, at)
  {
    if banks[0].known && EndsIn(banks[0], x) {
      assert x < Behind(banks[0]) <= FlashBehind(banks, at);
    } else {
      EndsBehind(banks[1..], if banks[0].known then Behind(banks[0]) else at, x);
    }
  }

  /** The condition a caller can check: the range starts with a sector and ends with one, or behind the flash. */
  predicate Aligned(banks: seq<Bank>, at: nat, first: nat, last: nat)
    requires Follow(banks, at) && KnownValid(banks)
  {
    Starts(banks, first) && (Ends(banks, last) || last >= FlashBehind(banks, at))
  }

  lemma {:induction false} NoPicksCount(n: nat)
    ensures Count(NoPicks(n)) == 0
  {
    if n > 0 {
      NoPicksCount(n - 1);
    }
  }

  lemma CountCons(pick: Pick, picks: seq<Pick>)
    ensures Count([pick] + picks) == PickCount(pick) + Count(picks)
  {
    assert ([pick] + picks)[1..] == picks;
  }

  /** Counts are never negative: a pick is empty or a run of sectors. */
  predicate Proper(picks: seq<Pick>) {
    forall k :: 0 <= k < |picks| ==> picks[k] == NO_PICK || 0 <= picks[k].first <= picks[k].last
  }

  lemma {:induction false} ProperCount(picks: seq<Pick>)
    requires Proper(picks)
    ensures Count(picks) >= 0
  {
    if picks != [] {
      ProperCount(picks[1..]);
    }
  }

  /** A range that starts with no sector is refused or picks nothing. */
  lemma {:induction false} FillMisses(banks: seq<Bank>, at: nat, first: nat, last: nat)
    requires Follow(banks, at) && KnownValid(banks) && !Starts(banks, first)
    ensures var picks := Fill(banks, first, last); picks.Some? ==> Count(picks.value) == 0
    decreases |banks|
  {
    NoPicksCount(|banks|);
    if banks != [] && first <= last {
      var at' := if banks[0].known then Behind(banks[0]) else at;
      FillMisses(banks[1..], at', first, last);
      if banks[0].known {
        BankStepIs(banks[0], first, last);
      }
      if Fill(banks[1..], first, last).Some? {
        CountCons(NO_PICK, Fill(banks[1..], first, last).value);
      }
    }
  }

  // ---- which sectors are picked

  predicate Chosen(p: Pick, s: int) {
    0 <= p.first <= s <= p.last
  }

  predicate InRange(b: Bank, s: nat, first: nat, last: nat)
    requires b.known ==> ValidBank(b)
    requires s < |b.start|
  {
    b.known && Meets(b, s, first, last)
  }

  /** A bank's pick holds exactly its sectors that meet the range. */
  predicate PickExact(b: Bank, p: Pick, first: nat, last: nat)
    requires b.known ==> ValidBank(b)
  {
    && (p == NO_PICK || 0 <= p.first <= p.last < |b.start|)
    && forall s :: 0 <= s < |b.start| ==> (Chosen(p, s) <==> InRange(b, s, first, last))
  }

  predicate Exact(banks: seq<Bank>, picks: seq<Pick>, first: nat, last: nat)
    requires KnownValid(banks)
  {
    |picks| == |banks| && forall k :: 0 <= k < |banks| ==> PickExact(banks[k], picks[k], first, last)
  }

  /** An address in a sector of the pick. */
  predicate PickCovers(b: Bank, p: Pick, x: nat)
    requires b.known ==> ValidBank(b)
  {
    b.known && exists s :: 0 <= s < |b.start| && Chosen(p, s) && b.start[s] <= x <= EndOf(b, s)
  }

  /** An address in a picked sector. */
  predicate Covered(banks: seq<Bank>, picks: seq<Pick>, x: nat)
    requires KnownValid(banks) && |picks| == |banks|
  {
    banks != [] && (PickCovers(banks[0], picks[0], x) || Covered(banks[1..], picks[1..], x))
  }

  lemma {:induction false} SectorOf(b: Bank, first: nat, last: nat, x: nat) returns (s: nat)
    requires ValidBank(b) && first <= last < |b.start| && b.start[first] <= x <= EndOf(b, last)
    ensures first <= s <= last && b.start[s] <= x <= EndOf(b, s)
    decreases last
  {
    if x >= b.start[last] {
      s := last;
    } else {
      s := SectorOf(b, first, last - 1, x);
    }
  }

  lemma PickCoversRun(b: Bank, p: Pick, x: nat)
    requires b.known && ValidBank(b) && 0 <= p.first <= p.last < |b.start|
    ensures PickCovers(b, p, x) <==> b.start[p.first] <= x <= EndOf(b, p.last)
  {
    if PickCovers(b, p, x) {
      var s :| 0 <= s < |b.start| && Chosen(p, s) && b.start[s] <= x <= EndOf(b, s);
      BetweenSectors(b, p.first, s, p.last);
    }
    if b.start[p.first] <= x <= EndOf(b, p.last) {
      var s := SectorOf(b, p.first, p.last, x);
      assert Chosen(p, s);
    }
  }

  lemma BetweenSectors(b: Bank, i: nat, s: nat, j: nat)
    requires ValidBank(b) && i <= s <= j < |b.start|
    ensures b.start[i] <= b.start[s] && EndOf(b, s) <= EndOf(b, j)
  {
    assert s < j ==> EndOf(b, s) < b.start[j];
  }

  /** A pick that starts with the range and ends with it, or with a bank the range goes beyond, is exact. */
  lemma RunExact(b: Bank, p: Pick, first: nat, last: nat)
    requires b.known && ValidBank(b) && 0 <= p.first <= p.last < |b.start| && b.start[p.first] == first
    requires EndOf(b, p.last) == last || (p.last == |b.start| - 1 && last >= Behind(b))
    ensures PickExact(b, p, first, last)
  {
    forall s | 0 <= s < |b.start|
      ensures Chosen(p, s) <==> InRange(b, s, first, last)
    {
      if s < p.first {
        assert EndOf(b, s) < b.start[p.first];
      } else if s > p.last {
        assert EndOf(b, p.last) < b.start[s];
      } else {
        assert b.start[p.first] <= b.start[s];
        assert b.start[s] <= EndOf(b, p.last);
      }
    }
  }

  lemma ExactCons(b: Bank, p: Pick, banks: seq<Bank>, picks: seq<Pick>, first: nat, last: nat)
    requires KnownValid([b] + banks) && KnownValid(banks) && (b.known ==> ValidBank(b))
    requires PickExact(b, p, first, last) && Exact(banks, picks, first, last)
    ensures Exact([b] + banks, [p] + picks, first, last)
  {
    forall k | 0 <= k < |[b] + banks|
      ensures PickExact(([b] + banks)[k], ([p] + picks)[k], first, last)
    {
      if k > 0 {
        assert ([b] + banks)[k] == banks[k - 1] && ([p] + picks)[k] == picks[k - 1];
      }
    }
  }

  lemma CoveredCons(b: Bank, p: Pick, banks: seq<Bank>, picks: seq<Pick>, x: nat)
    requires KnownValid([b] + banks) && KnownValid(banks) && (b.known ==> ValidBank(b)) && |picks| == |banks|
    ensures Covered([b] + banks, [p] + picks, x) <==> PickCovers(b, p, x) || Covered(banks, picks, x)
  {
    assert ([b] + banks)[1..] == banks && ([p] + picks)[1..] == picks;
  }

  /** The sectors of the banks from `at` on meet a range that ends before it nowhere, and do not see where a range begins
      that begins no later. */
  lemma {:induction false} BankBehind(banks: seq<Bank>, at: nat, k: nat, s: nat)
    requires Follow(banks, at) && KnownValid(banks) && k < |banks| && banks[k].known && s < |banks[k].start|
    ensures at <= banks[k].start[s]
    decreases k
  {
    if banks[0].known {
      assert banks[0].start[0] <= Behind(banks[0]);
    }
    if k > 0 {
      BankBehind(banks[1..], if banks[0].known then Behind(banks[0]) else at, k - 1, s);
    }
  }

  lemma {:induction false} NothingBefore(banks: seq<Bank>, at: nat, first: nat, last: nat, x: nat)
    requires Follow(banks, at) && KnownValid(banks) && last < at
    ensures Exact(banks, NoPicks(|banks|), first, last)
    ensures !Covered(banks, NoPicks(|banks|), x)
  {
    if banks != [] {
      var b, rest := banks[0], banks[1..];
      NothingBefore(rest, if b.known then Behind(b) else at, first, last, x);
      assert banks == [b] + rest;
      if b.known {
        assert forall s :: 0 <= s < |b.start| ==> b.start[0] <= b.start[s];
      }
      assert PickExact(b, NO_PICK, first, last);
      ExactCons(b, NO_PICK, rest, NoPicks(|rest|), first, last);
      CoveredCons(b, NO_PICK, rest, NoPicks(|rest|), x);
    }
  }

  lemma ExactEarlier(banks: seq<Bank>, at: nat, picks: seq<Pick>, first: nat, last: nat)
    requires Follow(banks, at) && KnownValid(banks) && first <= at && Exact(banks, picks, at, last)
    ensures Exact(banks, picks, first, last)
  {
    forall k | 0 <= k < |banks|
      ensures PickExact(banks[k], picks[k], first, last)
    {
      forall s | 0 <= s < |banks[k].start|
        ensures Chosen(picks[k], s) <==> InRange(banks[k], s, first, last)
      {
        assert Chosen(picks[k], s) <==> InRange(banks[k], s, at, last);
        if banks[k].known {
          BankBehind(banks, at, k, s);
        }
      }
    }
  }

  /** What the picks from `at` on must be for a range that reaches there. */
  predicate Right(banks: seq<Bank>, at: nat, picks: seq<Pick>, first: nat, last: nat, x: nat)
    requires Follow(banks, at) && KnownValid(banks)
  {
    && Exact(banks, picks, first, last)
    && (Covered(banks, picks, x) <==> Max(at, first) <= x <= last && x < FlashBehind(banks, at))
  }

  /** One known bank whose pick is known, in front of a right rest. */
  lemma RightCons(banks: seq<Bank>, at: nat, p: Pick, picks: seq<Pick>, first: nat, last: nat, x: nat)
    requires Follow(banks, at) && KnownValid(banks) && banks != [] && banks[0].known
    requires at <= first < Behind(banks[0]) && 0 <= p.first <= p.last < |banks[0].start| && banks[0].start[p.first] == first
    requires EndOf(banks[0], p.last) == last || (p.last == |banks[0].start| - 1 && last >= Behind(banks[0]))
    requires KnownValid(banks[1..]) && Right(banks[1..], Behind(banks[0]), picks, first, last, x)
    ensures Right(banks, at, [p] + picks, first, last, x)
  {
    assert banks == [banks[0]] + banks[1..];
    RunExact(banks[0], p, first, last);
    PickCoversRun(banks[0], p, x);
    ExactCons(banks[0], p, banks[1..], picks, first, last);
    CoveredCons(banks[0], p, banks[1..], picks, x);
  }

  /** A bank that has nothing to do with the range, in front of a right rest. */
  lemma RightSkip(banks: seq<Bank>, at: nat, picks: seq<Pick>, first: nat, last: nat, x: nat)
    requires Follow(banks, at) && KnownValid(banks) && banks != [] && KnownValid(banks[1..])
    requires banks[0].known ==> first >= Behind(banks[0])
    requires Right(banks[1..], if banks[0].known then Behind(banks[0]) else at, picks, first, last, x)
    ensures Right(banks, at, [NO_PICK] + picks, first, last, x)
  {
    var b := banks[0];
    assert banks == [b] + banks[1..];
    if b.known {
      assert forall s :: 0 <= s < |b.start| ==> EndOf(b, s) < Behind(b);
    }
    assert PickExact(b, NO_PICK, first, last);
    ExactCons(b, NO_PICK, banks[1..], picks, first, last);
    CoveredCons(b, NO_PICK, banks[1..], picks, x);
  }

  // ---- the theorem

  /** A range that reaches the banks from `at` on: it is planned just when it ends with a sector or behind the flash. */
  lemma {:induction false} FillFrom(banks: seq<Bank>, at: nat, last: nat, x: nat)
    requires Follow(banks, at) && KnownValid(banks)
    ensures var picks := Fill(banks, at, last);
            && (picks.Some? <==> at > last || Ends(banks, last) || last >= FlashBehind(banks, at))
            && (picks.Some? ==> Right(banks, at, picks.value, at, last, x))
    decreases |banks|, 1
  {
    if at > last {
      NothingBefore(banks, at, at, last, x);
    } else if banks != [] {
      var b, rest := banks[0], banks[1..];
      if !b.known {
        FillFrom(rest, at, last, x);
        if Fill(rest, at, last).Some? {
          RightSkip(banks, at, Fill(rest, at, last).value, at, last, x);
        }
      } else {
        assert StartsIn(b, at);
        FillHere(banks, at, at, last, x);
      }
    }
  }

  /** A range that starts with a sector is planned just when it ends with one or behind the flash; then the sectors picked
      are exactly those that meet it, and together they are the range as far as the flash goes. */
  lemma {:induction false} FillExact(banks: seq<Bank>, at: nat, first: nat, last: nat, x: nat)
    requires Follow(banks, at) && KnownValid(banks) && Starts(banks, first) && first <= last
    ensures var picks := Fill(banks, first, last);
            && (picks.Some? <==> Aligned(banks, at, first, last))
            && (picks.Some? ==> Right(banks, at, picks.value, first, last, x))
    decreases |banks|
  {
    var b, rest := banks[0], banks[1..];
    var at' := if b.known then Behind(b) else at;
    if b.known && StartsIn(b, first) {
      FillHere(banks, at, first, last, x);
    } else {
      StartsBehind(rest, at', first);
      FillExact(rest, at', first, last, x);
      if b.known {
        BankStepBeyond(b, first, last);
      }
      if Fill(rest, first, last).Some? {
        RightSkip(banks, at, Fill(rest, first, last).value, first, last, x);
      }
    }
  }

  /** The range starts in the first bank. */
  lemma {:induction false} FillHere(banks: seq<Bank>, at: nat, first: nat, last: nat, x: nat)
    requires Follow(banks, at) && KnownValid(banks) && banks != [] && banks[0].known && StartsIn(banks[0], first)
    requires first <= last && KnownValid(banks[1..])
    ensures var picks := Fill(banks, first, last);
            && (picks.Some? <==> Ends(banks, last) || last >= FlashBehind(banks, at))
            && (picks.Some? ==> Right(banks, at, picks.value, first, last, x))
    decreases |banks|, 0
  {
    var b, rest := banks[0], banks[1..];
    var at', step := Behind(b), BankStep(b, first, last);
    BankStepIs(b, first, last);
    if Ends(rest, last) {
      EndsBehind(rest, at', last);
    }
    FillFrom(rest, at', last, x);
    if EndsIn(b, last) {
      NothingBefore(rest, at', first, last, x);
      RightCons(banks, at, step.value.pick, NoPicks(|rest|), first, last, x);
    } else if last >= at' && Fill(rest, at', last).Some? {
      ExactEarlier(rest, at', Fill(rest, at', last).value, first, last);
      RightCons(banks, at, step.value.pick, Fill(rest, at', last).value, first, last, x);
    }
  }

  lemma {:induction false} CoveredCounts(banks: seq<Bank>, picks: seq<Pick>, first: nat, last: nat, x: nat)
    requires KnownValid(banks) && Exact(banks, picks, first, last) && Covered(banks, picks, x)
    ensures Count(picks) > 0
  {
    var rest := picks[1..];
    assert Exact(banks[1..], rest, first, last) by {
      assert forall k :: 0 <= k < |rest| ==> rest[k] == picks[k + 1] && banks[1..][k] == banks[k + 1]
                                             && PickExact(banks[k + 1], picks[k + 1], first, last);
    }
    assert Proper(rest) by {
      assert forall k :: 0 <= k < |rest| ==> PickExact(banks[1..][k], rest[k], first, last);
    }
    ProperCount(rest);
    assert PickExact(banks[0], picks[0], first, last);
    if !PickCovers(banks[0], picks[0], x) {
      CoveredCounts(banks[1..], rest, first, last, x);
    }
  }

  /** Sectors are planned, and no error reported, exactly for ranges that start with a sector and end with one or behind
      the flash. */
  lemma PlannedIff(banks: seq<Bank>, at: nat, first: nat, last: nat)
    requires Follow(banks, at) && KnownValid(banks)
    ensures var picks := Fill(banks, first, last);
            picks.Some? && Count(picks.value) > 0 <==> first <= last && Aligned(banks, at, first, last)
  {
    if first > last {
      NoPicksCount(|banks|);
    } else if !Starts(banks, first) {
      FillMisses(banks, at, first, last);
    } else {
      FillExact(banks, at, first, last, first);
      StartsBehind(banks, at, first);
      if Fill(banks, first, last).Some? {
        CoveredCounts(banks, Fill(banks, first, last).value, first, last, first);
      }
    }
  }

  // ---- the count

  function RunSet(bank: nat, p: Pick): set<(nat, int)> {
    set s | p.first <= s <= p.last && p.first >= 0 :: (bank, s)
  }

  /** The sectors picked, as pairs of bank and sector; `bank` is the number of the first bank. */
  function PickedSet(picks: seq<Pick>, bank: nat): set<(nat, int)> {
    if picks == [] then {} else RunSet(bank, picks[0]) + PickedSet(picks[1..], bank + 1)
  }

  lemma {:induction false} PickedSetHas(picks: seq<Pick>, bank: nat, k: nat, s: int)
    ensures (k, s) in PickedSet(picks, bank) <==> bank <= k < bank + |picks| && Chosen(picks[k - bank], s)
  {
    if picks != [] {
      PickedSetHas(picks[1..], bank + 1, k, s);
    }
  }

  lemma {:induction false} RunSetSize(bank: nat, p: Pick)
    requires 0 <= p.first <= p.last + 1
    ensures |RunSet(bank, p)| == p.last - p.first + 1
    decreases p.last - p.first + 1
  {
    if p.first <= p.last {
      var front := Pick(p.first, p.last - 1);
      RunSetSize(bank, front);
      assert RunSet(bank, p) == RunSet(bank, front) + {(bank, p.last)};
    } else {
      assert RunSet(bank, p) == {};
    }
  }

  /** The count is the number of sectors picked. */
  lemma {:induction false} CountIsNumber(picks: seq<Pick>, bank: nat)
    requires Proper(picks)
    ensures |PickedSet(picks, bank)| == Count(picks)
  {
    if picks != [] {
      CountIsNumber(picks[1..], bank + 1);
      if picks[0] == NO_PICK {
        assert RunSet(bank, NO_PICK) == {};
      } else {
        RunSetSize(bank, picks[0]);
      }
      forall s | (bank, s) in PickedSet(picks[1..], bank + 1)
        ensures false
      {
        PickedSetHas(picks[1..], bank + 1, bank, s);
      }
      assert RunSet(bank, picks[0]) !! PickedSet(picks[1..], bank + 1);
    }
  }

  // ---- start and length

  /** Banks that were not identified have no sectors. */
  predicate Identified(banks: seq<Bank>) {
    forall k :: 0 <= k < |banks| && !banks[k].known ==> banks[k].start == []
  }

  /** The end of the sector of one bank around an address, from sector `s` on. */
  function EndAround(b: Bank, x: nat, s: nat): Option<nat>
    requires ValidBank(b) && s <= |b.start|
    decreases |b.start| - s
  {
    if s == |b.start| then None
    else if b.start[s] <= x <= EndOf(b, s) then Some(EndOf(b, s))
    else EndAround(b, x, s + 1)
  }

  function SectorEnd(banks: seq<Bank>, x: nat): Option<nat>
    requires KnownValid(banks)
  {
    if banks == [] then None
    else
      var here := if banks[0].known then EndAround(banks[0], x, 0) else None;
      if here.Some? then here else SectorEnd(banks[1..], x)
  }

  /** The last address of the "start +length" form. */
  function LengthEnd(banks: seq<Bank>, first: word, length: word): Option<nat>
    requires KnownValid(banks)
  {
    SectorEnd(banks, (first + length - 1) % WORD_MOD)
  }

  lemma {:induction false} EndAroundIs(b: Bank, x: nat, s: nat)
    requires ValidBank(b) && s <= |b.start|
    ensures var e := EndAround(b, x, s);
            if e.Some? then exists k :: s <= k < |b.start| && b.start[k] <= x <= EndOf(b, k) && e.value == EndOf(b, k)
            else forall k :: s <= k < |b.start| ==> !(b.start[k] <= x <= EndOf(b, k))
    decreases |b.start| - s
  {
    if s < |b.start| {
      EndAroundIs(b, x, s + 1);
    }
  }

  lemma EndAroundBank(b: Bank, x: nat, z: nat)
    requires ValidBank(b)
    ensures EndAround(b, x, 0).Some? <==> b.start[0] <= x < Behind(b)
    ensures EndAround(b, x, 0).Some? ==>
              var e := EndAround(b, x, 0).value; x <= e < Behind(b) && EndsIn(b, e) && (x < z <= e ==> !StartsIn(b, z))
  {
    EndAroundIs(b, x, 0);
    if b.start[0] <= x < Behind(b) {
      var _ := SectorOf(b, 0, |b.start| - 1, x);
    }
    if EndAround(b, x, 0).Some? {
      var k :| 0 <= k < |b.start| && b.start[k] <= x <= EndOf(b, k) && EndAround(b, x, 0).value == EndOf(b, k);
      SectorInside(b, k, x, z);
    }
  }

  /** An address in a sector is in its bank, and no sector starts between it and the sector's end. */
  lemma SectorInside(b: Bank, k: nat, x: nat, z: nat)
    requires ValidBank(b) && k < |b.start| && b.start[k] <= x <= EndOf(b, k)
    ensures b.start[0] <= x <= EndOf(b, k) < Behind(b) && EndsIn(b, EndOf(b, k))
    ensures x < z <= EndOf(b, k) ==> !StartsIn(b, z)
  {
    assert b.start[0] <= b.start[k];
    assert forall s :: k < s < |b.start| ==> EndOf(b, k) < b.start[s];
    assert forall s :: 0 <= s < k ==> b.start[s] < b.start[k];
  }

  /** Inside the flash every address has its sector, which ends where no other one has started. */
  lemma {:induction false} SectorEndIs(banks: seq<Bank>, at: nat, x: nat, z: nat)
    requires Follow(banks, at) && KnownValid(banks) && at <= x
    ensures var e := SectorEnd(banks, x);
            && (e.Some? <==> x < FlashBehind(banks, at))
            && (e.Some? ==> x <= e.value && Ends(banks, e.value) && (x < z <= e.value ==> !Starts(banks, z)))
  {
    if banks != [] {
      var b, rest := banks[0], banks[1..];
      if !b.known {
        SectorEndIs(rest, at, x, z);
      } else {
        EndAroundBank(b, x, z);
        if x < Behind(b) {
          if Starts(rest, z) {
            StartsBehind(rest, Behind(b), z);
          }
        } else {
          SectorEndIs(rest, Behind(b), x, z);
        }
      }
    }
  }

  /** The sector that holds a bank's start. */
  lemma {:induction false} StartsAt(banks: seq<Bank>, k: nat, s: nat)
    requires k < |banks| && banks[k].known && s < |banks[k].start|
    ensures Starts(banks, banks[k].start[s])
  {
    if k > 0 {
      StartsAt(banks[1..], k - 1, s);
    }
  }

  /** A range rounded up to the end of a sector meets no sector that it did not meet before. */
  lemma ExactShorter(banks: seq<Bank>, at: nat, picks: seq<Pick>, first: nat, y: nat)
    requires Follow(banks, at) && KnownValid(banks) && at <= y && SectorEnd(banks, y).Some?
    requires Exact(banks, picks, first, SectorEnd(banks, y).value)
    ensures Exact(banks, picks, first, y)
  {
    var e := SectorEnd(banks, y).value;
    forall k | 0 <= k < |banks|
      ensures PickExact(banks[k], picks[k], first, y)
    {
      forall s | 0 <= s < |banks[k].start|
        ensures Chosen(picks[k], s) <==> InRange(banks[k], s, first, y)
      {
        assert Chosen(picks[k], s) <==> InRange(banks[k], s, first, e);
        if banks[k].known {
          SectorEndIs(banks, at, y, banks[k].start[s]);
          StartsAt(banks, k, s);
        }
      }
    }
  }

  /** The "start +length" form with a start on a sector: it is refused just when it reaches behind the flash; otherwise the
      sectors planned are exactly those that meet the length asked for. */
  lemma LengthExact(banks: seq<Bank>, at: nat, first: word, length: word)
    requires Follow(banks, at) && KnownValid(banks) && Starts(banks, first)
    requires 0 < length && first + length <= WORD_MOD
    ensures LengthEnd(banks, first, length).Some? <==> first + length <= FlashBehind(banks, at)
    ensures LengthEnd(banks, first, length).Some? ==>
              var picks := Fill(banks, first, LengthEnd(banks, first, length).value);
              picks.Some? && Exact(banks, picks.value, first, first + length - 1) && Count(picks.value) > 0
  {
    var y: nat := first + length - 1;
    assert LengthEnd(banks, first, length) == SectorEnd(banks, y);
    StartsBehind(banks, at, first);
    SectorEndIs(banks, at, y, 0);
    if SectorEnd(banks, y).Some? {
      var e := SectorEnd(banks, y).value;
      PlannedIff(banks, at, first, e);
      FillExact(banks, at, first, e, first);
      ExactShorter(banks, at, Fill(banks, first, e).value, first, y);
    }
  }
}
