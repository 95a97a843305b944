/** The planner and the erase command as they run, on the arrays `s_first` and `s_last`. */
module FlashErase {
  import opened Common
  import opened FlashPlan

  /** What has been planned, in front of what the rest will give. */
  function Join(done: seq<Pick>, rest: Option<seq<Pick>>): Option<seq<Pick>> {
    if rest.None? then None else Some(done + rest.value)
  }

  lemma {:induction false} CountConcat(a: seq<Pick>, b: seq<Pick>)
    ensures Count(a + b) == Count(a) + Count(b)
  {
    if a == [] {
      assert a + b == b;
    } else {
      CountConcat(a[1..], b);
      assert a + b == [a[0]] + (a[1..] + b);
      CountCons(a[0], a[1..] + b);
    }
  }

  lemma CountSnoc(a: seq<Pick>, p: Pick)
    ensures Count(a + [p]) == Count(a) + PickCount(p)
  {
    CountConcat(a, [p]);
    CountCons(p, []);
    assert [p] + [] == [p];
  }

  lemma EmptyJoin(rest: Option<seq<Pick>>)
    ensures Join([], rest) == rest
  {
    if rest.Some? {
      assert [] + rest.value == rest.value;
    }
  }

  lemma JoinStep(done: seq<Pick>, p: Pick, rest: Option<seq<Pick>>)
    ensures Join(done, Cons(p, rest)) == Join(done + [p], rest)
  {
    if rest.Some? {
      assert done + ([p] + rest.value) == (done + [p]) + rest.value;
    }
  }

  lemma {:induction false} PickedSetSnoc(picks: seq<Pick>, p: Pick, bank: nat)
    ensures PickedSet(picks + [p], bank) == PickedSet(picks, bank) + RunSet(bank + |picks|, p)
  {
    if picks == [] {
      assert ([] + [p])[1..] == [];
    } else {
      PickedSetSnoc(picks[1..], p, bank + 1);
      assert (picks + [p])[1..] == picks[1..] + [p];
    }
  }

  /** What is planned is empty or a run of sectors in every bank. */
  lemma {:induction false} FillProper(banks: seq<Bank>, first: nat, last: nat)
    requires KnownValid(banks)
    ensures Fill(banks, first, last).Some? ==> Proper(Fill(banks, first, last).value)
    decreases |banks|
  {
    if banks != [] && first <= last {
      FillProper(banks[1..], first, last);
      if banks[0].known && BankStep(banks[0], first, last).Some? {
        FillProper(banks[1..], BankStep(banks[0], first, last).value.next, last);
      }
    }
  }

  class Planner {
    const banks: seq<Bank>
    const sFirst: array<int>
    const sLast: array<int>
    const refusing: set<nat>           // banks whose flash_erase fails
    var erased: set<(nat, int)>

    ghost predicate Valid()
      reads this
    {
      KnownValid(banks) && sFirst.Length == |banks| && sLast.Length == |banks| && sFirst != sLast
    }

    /** The arrays hold these picks, and none behind them. */
    ghost predicate Holds(picks: seq<Pick>)
      requires Valid()
      reads this, sFirst, sLast
    {
      && |picks| <= |banks|
      && (forall k :: 0 <= k < |picks| ==> sFirst[k] == picks[k].first && sLast[k] == picks[k].last)
      && (forall k :: |picks| <= k < |banks| ==> sFirst[k] == -1 && sLast[k] == -1)
    }

    /** Look at the sectors of a bank. */
    method ScanBank(bank: nat, first: nat, last: nat, ghost done: seq<Pick>)
      requires Valid() && bank < |banks| && banks[bank].known && |done| == bank && Holds(done)
      modifies sFirst, sLast
      ensures var b := banks[bank];
              Holds(done + [Pick(FirstSector(b, first, last, |b.start|), LastSector(b, first, last, |b.start|))])
    {
      var b, sect := banks[bank], 0;
      while sect < |b.start|
        invariant 0 <= sect <= |b.start|
        invariant Holds(done + [Pick(FirstSector(b, first, last, sect), LastSector(b, first, last, sect))])
      {
        var end := if sect == |b.start| - 1 then b.start[0] + b.size - 1 else b.start[sect + 1] - 1;
        assert end == EndOf(b, sect);
        ghost var before := Pick(FirstSector(b, first, last, sect), LastSector(b, first, last, sect));
        assert (done + [before])[bank] == before;
        if first <= end && last >= b.start[sect] {
          if first == b.start[sect] { sFirst[bank] := sect; }
          if last == end { sLast[bank] := sect; }
        }
        sect := sect + 1;
      }
    }

    /** One known bank. */
    method PlanBank(bank: nat, first: nat, last: nat, ghost done: seq<Pick>) returns (ok: bool, next: nat, count: int)
      requires Valid() && bank < |banks| && banks[bank].known && |done| == bank && Holds(done)
      modifies sFirst, sLast
      ensures ok <==> BankStep(banks[bank], first, last).Some?
      ensures ok ==> var step := BankStep(banks[bank], first, last).value;
                     Holds(done + [step.pick]) && next == step.next && count == PickCount(step.pick)
    {
      var b := banks[bank];
      ScanBank(bank, first, last, done);
      ghost var found := Pick(FirstSector(b, first, last, |b.start|), LastSector(b, first, last, |b.start|));
      assert (done + [found])[bank] == found;
      var bEnd: int, sEnd := b.start[0] + b.size - 1, |b.start| - 1;
      ok, next, count := true, first, 0;
      if sFirst[bank] >= 0 {
        if sLast[bank] < 0 {
          if last > bEnd {
            sLast[bank] := sEnd;
          } else {
            return false, next, 0;
          }
        }
        if sLast[bank] < sFirst[bank] { return false, next, 0; }
        var sect := sLast[bank];
        next := if sect == sEnd then bEnd + 1 else b.start[sect + 1];
        count := sLast[bank] - sFirst[bank] + 1;
      } else if first >= b.start[0] && first < bEnd {
        return false, next, 0;
      } else if sLast[bank] >= 0 {
        return false, next, 0;
      }
    }

    method ClearPicks()
      requires Valid()
      modifies sFirst, sLast
      ensures Holds([])
    {
      var bank := 0;
      while bank < |banks|
        invariant 0 <= bank <= |banks|
        invariant forall k :: 0 <= k < bank ==> sFirst[k] == -1 && sLast[k] == -1
      {
        sFirst[bank], sLast[bank] := -1, -1;
        bank := bank + 1;
      }
    }

    /** A bank of the loop, known or not. */
    method PlanNext(bank: nat, first: nat, last: nat, ghost done: seq<Pick>)
        returns (ok: bool, next: nat, count: int, ghost pick: Pick)
      requires Valid() && bank < |banks| && |done| == bank && Holds(done) && first <= last
      modifies sFirst, sLast
      ensures !ok ==> Fill(banks[bank..], first, last).None?
      ensures ok ==> Holds(done + [pick]) && count == PickCount(pick)
      ensures ok ==> Join(done, Fill(banks[bank..], first, last)) == Join(done + [pick], Fill(banks[bank + 1..], next, last))
    {
      assert banks[bank..][1..] == banks[bank + 1..] && banks[bank..][0] == banks[bank];
      ok, next, count, pick := true, first, 0, NO_PICK;
      if banks[bank].known {
        ok, next, count := PlanBank(bank, first, last, done);
        if ok {
          pick := BankStep(banks[bank], first, last).value.pick;
        }
      }
      JoinStep(done, pick, Fill(banks[bank + 1..], next, last));
    }

    /** `flash_fill_sect_ranges`. */
    method FillSectRanges(first: nat, last: nat) returns (ok: bool, count: int)
      requires Valid()
      modifies sFirst, sLast
      ensures ok <==> Fill(banks, first, last).Some?
      ensures ok ==> Holds(Fill(banks, first, last).value) && count == Count(Fill(banks, first, last).value)
    {
      ClearPicks();
      ghost var done: seq<Pick>, fill := [], Fill(banks, first, last);
      var bank: nat, from: nat := 0, first;
      count, ok := 0, true;
      assert banks[0..] == banks;
      EmptyJoin(fill);
      while bank < |banks| && from <= last
        invariant 0 <= bank <= |banks| && |done| == bank && Holds(done) && count == Count(done) && ok
        invariant Join(done, Fill(banks[bank..], from, last)) == fill
      {
        ghost var pick;
        var next, n;
        ok, next, n, pick := PlanNext(bank, from, last, done);
        if !ok { return; }
        CountSnoc(done, pick);
        done := done + [pick];
        count := count + n;
        from := next;
        bank := bank + 1;
      }
      RestEmpty(done, bank, from, last);
    }

    /** The loop ended: no more picks. */
    lemma RestEmpty(done: seq<Pick>, bank: nat, first: nat, last: nat)
      requires Valid() && bank == |done| <= |banks| && Holds(done) && (bank == |banks| || first > last)
      ensures var fill := Join(done, Fill(banks[bank..], first, last));
              fill.Some? && Holds(fill.value) && Count(fill.value) == Count(done)
    {
      var rest := NoPicks(|banks| - bank);
      assert Fill(banks[bank..], first, last) == Some(rest);
      NoPicksCount(|banks| - bank);
      CountConcat(done, rest);
    }

    /** Every bank with picked sectors among the first `n` erases. */
    ghost predicate Willing(picks: seq<Pick>, n: nat)
      requires n <= |picks|
    {
      forall k :: 0 <= k < n && picks[k].first >= 0 ==> k !in refusing
    }

    /** The loop of `flash_sect_erase`. */
    method EraseBanks(ghost picks: seq<Pick>) returns (ok: bool)
      requires Valid() && |picks| == |banks| && Holds(picks) && Proper(picks)
      modifies `erased
      ensures ok <==> Willing(picks, |banks|)
      ensures ok ==> erased == old(erased) + PickedSet(picks, 0)
    {
      ok := true;
      var bank := 0;
      while bank < |banks| && ok
        invariant 0 <= bank <= |banks|
        invariant ok ==> Willing(picks, bank) && erased == old(erased) + PickedSet(picks[..bank], 0)
        invariant !ok ==> !Willing(picks, |banks|)
      {
        PickedSetSnoc(picks[..bank], picks[bank], 0);
        assert picks[..bank] + [picks[bank]] == picks[..bank + 1];
        if sFirst[bank] >= 0 {
          if bank in refusing {
            ok := false;
          } else {
            assert RunSet(bank, picks[bank]) == set s | sFirst[bank] <= s <= sLast[bank] :: (bank, s);
            erased := erased + (set s | sFirst[bank] <= s <= sLast[bank] :: (bank, s));
          }
        } else {
          assert RunSet(bank, picks[bank]) == {};
        }
        bank := bank + 1;
      }
      assert picks[..|banks|] == picks;
    }

    /** `flash_sect_erase`: it succeeds just when there is something planned, without an error, in banks that do not
        refuse, and then it has erased exactly what was planned. */
    method SectErase(first: nat, last: nat) returns (ok: bool)
      requires Valid()
      modifies sFirst, sLast, `erased
      ensures var picks := Fill(banks, first, last);
              && (ok <==> picks.Some? && Count(picks.value) > 0 && Willing(picks.value, |banks|))
              && (ok ==> erased == old(erased) + PickedSet(picks.value, 0))
              && (picks.None? ==> erased == old(erased))
    {
      var planned;
      ok, planned := FillSectRanges(first, last);
      if !ok { return; }
      FillProper(banks, first, last);
      ProperCount(Fill(banks, first, last).value);
      if planned == 0 { return false; }
      ok := EraseBanks(Fill(banks, first, last).value);
    }

    /** The end of the "start +length" form: the scan of all banks, identified or not. */
    method AddrSpecLength(first: word, length: word) returns (end: Option<nat>)
      requires Valid() && Identified(banks)
      ensures end == LengthEnd(banks, first, length)
    {
      var addrLast: nat := (first + length - 1) % WORD_MOD;
      end := None;
      var bank := 0;
      assert banks[0..] == banks;
      while bank < |banks| && end.None?
        invariant 0 <= bank <= |banks| && KnownValid(banks[bank..])
        invariant end.None? ==> SectorEnd(banks[bank..], addrLast) == SectorEnd(banks, addrLast)
        invariant end.Some? ==> end == SectorEnd(banks, addrLast)
      {
        var b := banks[bank];
        assert banks[bank..][0] == b && banks[bank..][1..] == banks[bank + 1..];
        var i := 0;
        while i < |b.start| && end.None?
          invariant 0 <= i <= |b.start| && (i < |b.start| ==> b.known)
          invariant b.known && end.None? ==> EndAround(b, addrLast, i) == EndAround(b, addrLast, 0)
          invariant end.Some? ==> b.known && end == EndAround(b, addrLast, 0)
        {
          var sectorEnd: nat := if i == |b.start| - 1 then b.start[0] + b.size - 1 else b.start[i + 1] - 1;
          if addrLast <= sectorEnd && addrLast >= b.start[i] {
            end := Some(sectorEnd);
          }
          i := i + 1;
        }
        bank := bank + 1;
      }
    }
  }
}
