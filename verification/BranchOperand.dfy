/** Branch operands of the PowerPC assembler, disassembler and single-step code (bedbug.c). Words are 32 bits, `long` is
    two's complement. */
module BranchOperand {
  import opened Common
  import opened Arithmetic

  function Pow2(n: nat): (p: nat)
    ensures p > 0
  {
    if n == 0 then 1 else 2 * Pow2(n - 1)
  }

  /** A 32-bit word as a `long`. */
  function Signed(w: word): (s: int)
    ensures -0x8000_0000 <= s < 0x8000_0000
  {
    if w < 0x8000_0000 then w else w - WORD_MOD
  }

  // ---- the field of an address operand; `half` is the weight of its sign bit

  /** The displacement that parse_operand makes of a number, the instruction standing at `memaddr`. */
  function Displacement(number: word, memaddr: word, relative: bool): (data: int)
    ensures -0x8000_0000 <= data < 0x8000_0000
  {
    Signed(if relative then (number - memaddr) % WORD_MOD else number)
  }

  /** parse_operand: the field. */
  function EncodeField(number: word, memaddr: word, relative: bool, half: nat): (field: nat)
    requires half > 0
    ensures field < 2 * half
  {
    var data := Displacement(number, memaddr, relative);
    data / 4 % half + if data < 0 then half else 0
  }

  /** The value of a field in two's complement. */
  function SignExtended(field: nat, half: nat): int {
    if field >= half then field - 2 * half else field
  }

  /** print_operands and find_next_address: the address a field stands for. */
  function DecodeField(field: nat, base: word, relative: bool, half: nat): word {
    (SignExtended(field, half) * 4 + if relative then base else 0) % WORD_MOD
  }

  /** What the operand can hold: a displacement of whole words, within the signed range of the field. */
  predicate Reaches(target: word, memaddr: word, relative: bool, half: nat)
    requires half > 0
  {
    var data := Displacement(target, memaddr, relative);
    data % 4 == 0 && data / 4 + half >= 0 && data / 4 < half
  }

  /** A quotient survives the field when it is in the signed range. */
  lemma RangeMod(q: int, half: nat)
    requires half > 0
    ensures 0 <= q % half < half
    ensures q % half == q <==> 0 <= q < half
    ensures q % half == q + half <==> q + half >= 0 && q < 0
  {
    if 0 <= q < half {
      Remainder(0, q, half);
    } else if q < 0 && q + half >= 0 {
      Remainder(-1, q + half, half);
    }
  }

  lemma SignedInverse(w: word)
    ensures Signed(w) % WORD_MOD == w
  {
  }

  lemma SameWord(x: int, y: int)
    requires -0x8000_0000 <= x < 0x8000_0000 && -0x8000_0000 <= y < 0x8000_0000
    ensures x % WORD_MOD == y % WORD_MOD <==> x == y
  {
  }

  lemma ShiftBase(x: int, y: int, base: int)
    ensures (x + base) % WORD_MOD == (y + base) % WORD_MOD <==> x % WORD_MOD == y % WORD_MOD
  {
    var m, n := x + base, y + base;
    assert m == WORD_MOD * (m / WORD_MOD) + m % WORD_MOD && n == WORD_MOD * (n / WORD_MOD) + n % WORD_MOD;
    assert x == WORD_MOD * (x / WORD_MOD) + x % WORD_MOD && y == WORD_MOD * (y / WORD_MOD) + y % WORD_MOD;
  }

  lemma FieldKeeps(target: word, memaddr: word, relative: bool, half: nat)
    requires 0 < half <= 0x2000_0000
    ensures var s := SignExtended(EncodeField(target, memaddr, relative, half), half);
            && -0x2000_0000 <= s < 0x2000_0000
            && (s * 4 == Displacement(target, memaddr, relative) <==> Reaches(target, memaddr, relative, half))
  {
    RangeMod(Displacement(target, memaddr, relative) / 4, half);
  }

  lemma DisplacementBack(target: word, memaddr: word, relative: bool)
    ensures target == (Displacement(target, memaddr, relative) + if relative then memaddr else 0) % WORD_MOD
  {
    var base: int := if relative then memaddr else 0;
    SignedInverse((target - base) % WORD_MOD);
    ShiftBase(Displacement(target, memaddr, relative), target - base, base);
  }

  /** A target assembled at an address disassembles there to itself exactly when the operand can hold it; any field width
      up to 30 bits. */
  lemma {:induction false} FieldRoundTrip(target: word, memaddr: word, relative: bool, half: nat)
    requires 0 < half <= 0x2000_0000
    ensures DecodeField(EncodeField(target, memaddr, relative, half), memaddr, relative, half) == target
            <==> Reaches(target, memaddr, relative, half)
  {
    var data, s := Displacement(target, memaddr, relative), SignExtended(EncodeField(target, memaddr, relative, half), half);
    FieldKeeps(target, memaddr, relative, half);
    DisplacementBack(target, memaddr, relative);
    SameWord(s * 4, data);
    ShiftBase(s * 4, data, if relative then memaddr else 0);
  }

  // ---- whole instructions

  /** An operand's width, position and kind. */
  datatype Kind = Silent | Address | Number
  datatype Operand = Operand(bits: nat, shift: nat, kind: Kind)

  const O_AA := Operand(1, 1, Silent)
  const O_BD := Operand(14, 2, Address)
  const O_BI := Operand(5, 16, Number)
  const O_BO := Operand(5, 21, Number)
  const O_LI := Operand(24, 2, Address)
  const O_LK := Operand(1, 0, Silent)

  const B_FIELDS := [O_BO, O_BI, O_BD, O_AA, O_LK]
  const I_FIELDS := [O_LI, O_AA, O_LK]

  /** B_OPCODE, I_OPCODE; without their silent operands set. */
  function BranchOpcode(primary: nat, aa: bool, lk: bool): nat {
    primary * 0x400_0000 + (if aa then 2 else 0) + if lk then 1 else 0
  }

  /** parse_operand. */
  function ParseOperand(o: Operand, number: word, memaddr: word, relative: bool): nat
    requires o.kind.Address? ==> o.bits > 0
  {
    (if o.kind.Address? then EncodeField(number, memaddr, relative, Pow2(o.bits - 1)) else number % Pow2(o.bits))
    * Pow2(o.shift)
  }

  predicate ValidFields(fields: seq<Operand>) {
    forall k :: 0 <= k < |fields| && fields[k].kind.Address? ==> fields[k].bits > 0
  }

  /** asmppc, behind the mnemonic: the instruction so far with the operands still to come; the numbers given are taken in
      turn, and too few are an error. The fields do not overlap, so that or-ing them is adding them. */
  function Assembled(instr: nat, fields: seq<Operand>, numbers: seq<word>, memaddr: word, relative: bool): Option<nat>
    requires ValidFields(fields)
    decreases |fields|
  {
    if fields == [] then Some(instr)
    else if fields[0].kind.Silent? then Assembled(instr, fields[1..], numbers, memaddr, relative)
    else if numbers == [] then None
    else
      Assembled(instr + ParseOperand(fields[0], numbers[0], memaddr, relative), fields[1..], numbers[1..], memaddr, relative)
  }

  /** get_operand_value. */
  function FieldOf(o: Operand, instr: word): nat {
    instr / Pow2(o.shift) % Pow2(o.bits)
  }

  method Asmppc(opcode: nat, fields: seq<Operand>, numbers: seq<word>, memaddr: word, relative: bool)
      returns (result: Option<nat>)
    requires ValidFields(fields)
    ensures result == Assembled(opcode, fields, numbers, memaddr, relative)
  {
    var n, taken, instr: nat := 0, 0, opcode;
    assert fields[0..] == fields && numbers[0..] == numbers;
    while n < |fields|
      invariant 0 <= n <= |fields| && 0 <= taken <= |numbers| && ValidFields(fields[n..])
      invariant Assembled(instr, fields[n..], numbers[taken..], memaddr, relative)
             == Assembled(opcode, fields, numbers, memaddr, relative)
    {
      assert fields[n..][1..] == fields[n + 1..] && fields[n..][0] == fields[n];
      if fields[n].kind.Silent? {
        n := n + 1;
        continue;
      }
      if taken == |numbers| { return None; }
      assert numbers[taken..][1..] == numbers[taken + 1..] && numbers[taken..][0] == numbers[taken];
      instr := instr + ParseOperand(fields[n], numbers[taken], memaddr, relative);
      taken := taken + 1;
      n := n + 1;
    }
    result := Some(instr);
  }

  /** A conditional branch from its fields. */
  function BForm(aa: bool, lk: bool, bo: nat, bi: nat, bd: nat): nat {
    BranchOpcode(16, aa, lk) + bo * 0x20_0000 + bi * 0x1_0000 + bd * 4
  }

  function IForm(aa: bool, lk: bool, li: nat): nat {
    BranchOpcode(18, aa, lk) + li * 4
  }

  lemma Powers()
    ensures Pow2(0) == 1 && Pow2(1) == 2 && Pow2(2) == 4 && Pow2(5) == 32
    ensures Pow2(13) == 0x2000 && Pow2(14) == 0x4000 && Pow2(16) == 0x1_0000 && Pow2(21) == 0x20_0000
    ensures Pow2(23) == 0x80_0000 && Pow2(24) == 0x100_0000 && Pow2(26) == 0x400_0000
  {
    assert Pow2(14) == 0x4000;
    assert Pow2(21) == 128 * Pow2(14);
  }

  lemma SilentRest(instr: nat, memaddr: word, relative: bool)
    ensures Assembled(instr, [O_AA, O_LK], [], memaddr, relative) == Some(instr)
  {
    assert [O_AA, O_LK][1..] == [O_LK] && [O_LK][1..] == [];
    assert Assembled(instr, [O_LK], [], memaddr, relative) == Assembled(instr, [], [], memaddr, relative);
  }

  lemma NextOperand(instr: nat, o: Operand, fields: seq<Operand>, number: word, numbers: seq<word>, memaddr: word,
                    relative: bool)
    requires ValidFields([o] + fields) && ValidFields(fields) && !o.kind.Silent? && (o.kind.Address? ==> o.bits > 0)
    ensures Assembled(instr, [o] + fields, [number] + numbers, memaddr, relative)
         == Assembled(instr + ParseOperand(o, number, memaddr, relative), fields, numbers, memaddr, relative)
  {
    assert ([o] + fields)[1..] == fields && ([number] + numbers)[1..] == numbers;
  }

  /** The last operand that takes a number. */
  lemma LastOperand(instr: nat, o: Operand, number: word, memaddr: word, relative: bool)
    requires !o.kind.Silent? && (o.kind.Address? ==> o.bits > 0)
    ensures Assembled(instr, [o] + [O_AA, O_LK], [number], memaddr, relative)
         == Some(instr + ParseOperand(o, number, memaddr, relative))
  {
    assert [number] == [number] + [];
    NextOperand(instr, o, [O_AA, O_LK], number, [], memaddr, relative);
    SilentRest(instr + ParseOperand(o, number, memaddr, relative), memaddr, relative);
  }

  lemma ThreeOperands(instr: nat, o: Operand, o': Operand, o'': Operand, numbers: seq<word>, memaddr: word,
                      relative: bool)
    requires |numbers| == 3 && o.kind.Number? && o'.kind.Number? && o''.kind.Address? && o''.bits > 0
    ensures ValidFields([o, o', o'', O_AA, O_LK])
    ensures Assembled(instr, [o, o', o'', O_AA, O_LK], numbers, memaddr, relative)
         == Some(instr + ParseOperand(o, numbers[0], memaddr, relative) + ParseOperand(o', numbers[1], memaddr, relative)
                 + ParseOperand(o'', numbers[2], memaddr, relative))
  {
    var last := [o''] + [O_AA, O_LK];
    var i1 := instr + ParseOperand(o, numbers[0], memaddr, relative);
    assert [o, o', o'', O_AA, O_LK] == [o] + ([o'] + last) && numbers == [numbers[0]] + ([numbers[1]] + [numbers[2]]);
    NextOperand(instr, o, [o'] + last, numbers[0], [numbers[1]] + [numbers[2]], memaddr, relative);
    NextOperand(i1, o', last, numbers[1], [numbers[2]], memaddr, relative);
    LastOperand(i1 + ParseOperand(o', numbers[1], memaddr, relative), o'', numbers[2], memaddr, relative);
  }

  /** The instruction a conditional branch assembles to. */
  lemma AssembledB(aa: bool, lk: bool, bo: word, bi: word, target: word, memaddr: word, relative: bool)
    ensures Assembled(BranchOpcode(16, aa, lk), B_FIELDS, [bo, bi, target], memaddr, relative)
         == Some(BForm(aa, lk, bo % 32, bi % 32, EncodeField(target, memaddr, relative, 0x2000)))
  {
    Powers();
    ThreeOperands(BranchOpcode(16, aa, lk), O_BO, O_BI, O_BD, [bo, bi, target], memaddr, relative);
  }

  lemma AssembledI(aa: bool, lk: bool, target: word, memaddr: word, relative: bool)
    ensures Assembled(BranchOpcode(18, aa, lk), I_FIELDS, [target], memaddr, relative)
         == Some(IForm(aa, lk, EncodeField(target, memaddr, relative, 0x80_0000)))
  {
    Powers();
    assert I_FIELDS == [O_LI] + [O_AA, O_LK];
    LastOperand(BranchOpcode(18, aa, lk), O_LI, target, memaddr, relative);
  }

  /** Reading a field of `m` values in steps of `d`. */
  lemma FieldIs(o: Operand, instr: nat, d: nat, m: nat, high: nat, value: nat, low: nat)
    requires Pow2(o.shift) == d && Pow2(o.bits) == m && value < m && low < d
    requires instr == (high * m + value) * d + low
    ensures instr / Pow2(o.shift) % Pow2(o.bits) == value
  {
    Remainder(high * m + value, low, d);
    Remainder(high, value, m);
  }

  /** The two lowest bits. */
  lemma SilentFields(instr: word, rest: nat, aa: bool, lk: bool)
    requires instr == rest * 4 + (if aa then 2 else 0) + if lk then 1 else 0
    ensures (FieldOf(O_AA, instr) == 1 <==> aa) && (FieldOf(O_LK, instr) == 1 <==> lk)
  {
    Powers();
    var a, l := if aa then 1 else 0, if lk then 1 else 0;
    FieldIs(O_AA, instr, 2, 2, rest, a, l);
    FieldIs(O_LK, instr, 1, 2, rest * 2 + a, l, 0);
  }

  lemma PrimaryIs(instr: nat, primary: nat, low: nat)
    requires instr == primary * 0x400_0000 + low && low < 0x400_0000 && primary < 64
    ensures instr < WORD_MOD && instr / 0x400_0000 == primary
  {
  }

  /** The fields read back from an instruction are those it was made of. */
  lemma BFieldsRead(aa: bool, lk: bool, bo: nat, bi: nat, bd: nat)
    requires bo < 32 && bi < 32 && bd < 0x4000
    ensures var instr := BForm(aa, lk, bo, bi, bd);
            && instr < WORD_MOD && instr / 0x400_0000 == 16
            && FieldOf(O_BO, instr) == bo && FieldOf(O_BI, instr) == bi && FieldOf(O_BD, instr) == bd
            && (FieldOf(O_AA, instr) == 1 <==> aa) && (FieldOf(O_LK, instr) == 1 <==> lk)
  {
    Powers();
    var instr := BForm(aa, lk, bo, bi, bd);
    var low := (if aa then 2 else 0) + if lk then 1 else 0;
    PrimaryIs(instr, 16, bo * 0x20_0000 + bi * 0x1_0000 + bd * 4 + low);
    FieldIs(O_BO, instr, 0x20_0000, 32, 16, bo, bi * 0x1_0000 + bd * 4 + low);
    FieldIs(O_BI, instr, 0x1_0000, 32, 16 * 32 + bo, bi, bd * 4 + low);
    FieldIs(O_BD, instr, 4, 0x4000, 16 * 0x400 + bo * 32 + bi, bd, low);
    SilentFields(instr, 16 * 0x100_0000 + bo * 0x8_0000 + bi * 0x4000 + bd, aa, lk);
  }

  lemma IFieldsRead(aa: bool, lk: bool, li: nat)
    requires li < 0x100_0000
    ensures var instr := IForm(aa, lk, li);
            && instr < WORD_MOD && instr / 0x400_0000 == 18 && FieldOf(O_LI, instr) == li
            && (FieldOf(O_AA, instr) == 1 <==> aa) && (FieldOf(O_LK, instr) == 1 <==> lk)
  {
    Powers();
    var instr := IForm(aa, lk, li);
    var low := (if aa then 2 else 0) + if lk then 1 else 0;
    PrimaryIs(instr, 18, li * 4 + low);
    FieldIs(O_LI, instr, 4, 0x100_0000, 18, li, low);
    SilentFields(instr, 18 * 0x100_0000 + li, aa, lk);
  }

  // ---- the next address

  /** The registers at the interrupted instruction. */
  datatype Regs = Regs(nip: word, ctr: word, ccr: word, link: word)

  predicate ConditionBit(cr: word, bi: nat)
    requires bi < 32
  {
    cr / Pow2(31 - bi) % 2 == 1
  }

  /** find_next_address's switch over the upper four bits of BO. */
  predicate Taken(bo: nat, bi: nat, cr: word, ctr: word)
    requires bo < 32 && bi < 32
  {
    Branches(bo / 2, ConditionBit(cr, bi), (ctr - 1) % WORD_MOD == 0)
  }

  predicate Branches(upper: nat, condition: bool, zero: bool) {
    match upper
    case 0 => !zero && !condition
    case 1 => zero && !condition
    case 2 => !condition
    case 4 => !zero && condition
    case 5 => zero && condition
    case 6 => condition
    case 8 => !zero
    case 9 => zero
    case 10 => true
    case _ => false
  }

  /** What the bits of BO mean: whether the condition is ignored, its sense, whether the counter is left alone, and whether
      the branch wants it to reach zero. */
  predicate Rule(bo: nat, bi: nat, cr: word, ctr: word)
    requires bo < 32 && bi < 32
  {
    var left := (ctr - 1) % WORD_MOD;
    && (bo / 16 % 2 == 1 || (ConditionBit(cr, bi) <==> bo / 8 % 2 == 1))
    && (bo / 4 % 2 == 1 || (left == 0 <==> bo / 2 % 2 == 1))
  }

  lemma BranchesIsRule(upper: nat, condition: bool, zero: bool)
    requires upper < 16
    ensures var ignore, sense, alone, wanted := upper / 8 == 1, upper / 4 % 2 == 1, upper / 2 % 2 == 1, upper % 2 == 1;
            Branches(upper, condition, zero)
            <==> (ignore || (condition <==> sense)) && (alone || (zero <==> wanted))
                 && !(alone && wanted) && !(ignore && sense)
  {
  }

  lemma UpperBits(bo: nat)
    requires bo < 32
    ensures bo / 2 < 16 && bo / 16 % 2 == bo / 2 / 8 && bo / 8 % 2 == bo / 2 / 4 % 2
    ensures bo / 4 % 2 == bo / 2 / 2 % 2
  {
  }

  /** The switch follows the rule except for encodings whose ignored bits are set: for those it never branches. */
  lemma TakenIsRule(bo: nat, bi: nat, cr: word, ctr: word)
    requires bo < 32 && bi < 32
    ensures var ignoredSet := (bo / 4 % 2 == 1 && bo / 2 % 2 == 1) || (bo / 16 % 2 == 1 && bo / 8 % 2 == 1);
            Taken(bo, bi, cr, ctr) <==> Rule(bo, bi, cr, ctr) && !ignoredSet
  {
    UpperBits(bo);
    BranchesIsRule(bo / 2, ConditionBit(cr, bi), (ctr - 1) % WORD_MOD == 0);
  }

  /** Where a branch goes, and its link bit. */
  datatype Branch = Branch(taken: bool, target: word, lk: bool)

  /** The branch an instruction is, if it is one; the opcode table holds all of them. */
  function BranchOf(instr: word, regs: Regs): Option<Branch>
  {
    Powers();
    var pc, primary, xo := regs.nip / 4 * 4, instr / 0x400_0000, instr / 2 % 1024;
    var aa, lk := FieldOf(O_AA, instr) == 1, FieldOf(O_LK, instr) == 1;
    var taken := Taken(FieldOf(O_BO, instr), FieldOf(O_BI, instr), regs.ccr, regs.ctr);
    if primary == 16 then
      Some(Branch(taken, DecodeField(FieldOf(O_BD, instr), pc, !aa, 0x2000), lk))
    else if primary == 18 then
      Some(Branch(true, DecodeField(FieldOf(O_LI, instr), pc, !aa, 0x80_0000), lk))
    else if primary == 19 && xo == 528 then Some(Branch(taken, regs.ctr, lk))
    else if primary == 19 && xo == 16 then Some(Branch(taken, regs.link, lk))
    else None
  }

  /** find_next_address, given whether the opcode table holds the instruction. */
  function FindNext(instr: word, known: bool, regs: Regs, stepOver: bool): Option<word> {
    var behind: word := (regs.nip / 4 * 4 + 4) % WORD_MOD;
    var branch := BranchOf(instr, regs);
    if !known then None
    else if branch.None? || !branch.value.taken then Some(behind)
    else if stepOver && branch.value.lk then Some(behind)
    else Some(branch.value.target)
  }

  /** A conditional branch assembled at the program counter is stepped to its target when it is taken and can hold it. */
  lemma StepsToTargetB(bo: word, bi: word, target: word, relative: bool, lk: bool, regs: Regs, stepOver: bool)
    requires regs.nip % 4 == 0
    ensures var instr := Assembled(BranchOpcode(16, !relative, lk), B_FIELDS, [bo, bi, target], regs.nip, relative);
            var goes := Taken(bo % 32, bi % 32, regs.ccr, regs.ctr) && !(stepOver && lk);
            && instr.Some? && instr.value < WORD_MOD
            && (!goes ==> FindNext(instr.value, true, regs, stepOver) == Some((regs.nip + 4) % WORD_MOD))
            && (goes ==>
                (FindNext(instr.value, true, regs, stepOver) == Some(target) <==> Reaches(target, regs.nip, relative, 0x2000)))
  {
    AssembledB(!relative, lk, bo, bi, target, regs.nip, relative);
    StepsB(bo % 32, bi % 32, target, relative, lk, regs, stepOver);
  }

  lemma StepsB(bo: nat, bi: nat, target: word, relative: bool, lk: bool, regs: Regs, stepOver: bool)
    requires regs.nip % 4 == 0 && bo < 32 && bi < 32
    ensures var instr := BForm(!relative, lk, bo, bi, EncodeField(target, regs.nip, relative, 0x2000));
            var goes := Taken(bo, bi, regs.ccr, regs.ctr) && !(stepOver && lk);
            && instr < WORD_MOD
            && (!goes ==> FindNext(instr, true, regs, stepOver) == Some((regs.nip + 4) % WORD_MOD))
            && (goes ==>
                (FindNext(instr, true, regs, stepOver) == Some(target) <==> Reaches(target, regs.nip, relative, 0x2000)))
  {
    BFieldsRead(!relative, lk, bo, bi, EncodeField(target, regs.nip, relative, 0x2000));
    FieldRoundTrip(target, regs.nip, relative, 0x2000);
  }

  /** The same of an unconditional branch. */
  lemma StepsToTargetI(target: word, relative: bool, lk: bool, regs: Regs, stepOver: bool)
    requires regs.nip % 4 == 0
    ensures var instr := Assembled(BranchOpcode(18, !relative, lk), I_FIELDS, [target], regs.nip, relative);
            && instr.Some? && instr.value < WORD_MOD
            && (stepOver && lk ==> FindNext(instr.value, true, regs, stepOver) == Some((regs.nip + 4) % WORD_MOD))
            && (!(stepOver && lk) ==>
                (FindNext(instr.value, true, regs, stepOver) == Some(target)
                 <==> Reaches(target, regs.nip, relative, 0x80_0000)))
  {
    AssembledI(!relative, lk, target, regs.nip, relative);
    StepsI(target, relative, lk, regs, stepOver);
  }

  lemma StepsI(target: word, relative: bool, lk: bool, regs: Regs, stepOver: bool)
    requires regs.nip % 4 == 0
    ensures var instr := IForm(!relative, lk, EncodeField(target, regs.nip, relative, 0x80_0000));
            && instr < WORD_MOD
            && (stepOver && lk ==> FindNext(instr, true, regs, stepOver) == Some((regs.nip + 4) % WORD_MOD))
            && (!(stepOver && lk) ==>
                (FindNext(instr, true, regs, stepOver) == Some(target) <==> Reaches(target, regs.nip, relative, 0x80_0000)))
  {
    IFieldsRead(!relative, lk, EncodeField(target, regs.nip, relative, 0x80_0000));
    FieldRoundTrip(target, regs.nip, relative, 0x80_0000);
  }

  // ---- branches to a register

  /** bcctr and bclr with their link forms. */
  function RegisterForm(xo: nat, lk: bool, bo: nat, bi: nat): nat {
    19 * 0x400_0000 + bo * 0x20_0000 + bi * 0x1_0000 + xo * 2 + if lk then 1 else 0
  }

  lemma RegisterFields(xo: nat, lk: bool, bo: nat, bi: nat)
    requires xo < 1024 && bo < 32 && bi < 32
    ensures var instr := RegisterForm(xo, lk, bo, bi);
            && instr < WORD_MOD && instr / 0x400_0000 == 19 && instr / 2 % 1024 == xo
            && FieldOf(O_BO, instr) == bo && FieldOf(O_BI, instr) == bi && (FieldOf(O_LK, instr) == 1 <==> lk)
  {
    Powers();
    var instr := RegisterForm(xo, lk, bo, bi);
    var l := if lk then 1 else 0;
    PrimaryIs(instr, 19, bo * 0x20_0000 + bi * 0x1_0000 + xo * 2 + l);
    FieldIs(O_BO, instr, 0x20_0000, 32, 19, bo, bi * 0x1_0000 + xo * 2 + l);
    FieldIs(O_BI, instr, 0x1_0000, 32, 19 * 32 + bo, bi, xo * 2 + l);
    FieldIs(O_LK, instr, 1, 2, 19 * 0x200_0000 + bo * 0x10_0000 + bi * 0x8000 + xo, l, 0);
    ExtendedIs(instr, 19 * 0x8000 + bo * 0x400 + bi * 0x20, xo, l);
  }

  lemma ExtendedIs(instr: nat, high: nat, xo: nat, low: nat)
    requires instr == (high * 1024 + xo) * 2 + low && low < 2 && xo < 1024
    ensures instr / 2 % 1024 == xo
  {
    Remainder(high * 1024 + xo, low, 2);
    Remainder(high, xo, 1024);
  }

  /** A taken bclr steps to the link register and a taken bcctr to the counter; with the link bit the step over goes to
      the instruction behind, as every branch does that is not taken. */
  lemma StepsToRegister(counter: bool, lk: bool, bo: nat, bi: nat, regs: Regs, stepOver: bool)
    requires bo < 32 && bi < 32
    ensures var instr := 0x4C00_0000 + bo * 0x20_0000 + bi * 0x1_0000 + (if counter then 1056 else 32) + (if lk then 1 else 0);
            && instr < WORD_MOD
            && FindNext(instr, true, regs, stepOver)
               == if !Taken(bo, bi, regs.ccr, regs.ctr) || (stepOver && lk) then Some((regs.nip / 4 * 4 + 4) % WORD_MOD)
                  else if counter then Some(regs.ctr) else Some(regs.link)
  {
    RegisterFields(if counter then 528 else 16, lk, bo, bi);
  }

  /** What is no branch goes on behind it, and what the table does not hold is refused. */
  lemma StepsOn(instr: word, regs: Regs, stepOver: bool)
    requires var primary, xo := instr / 0x400_0000, instr / 2 % 1024;
             primary != 16 && primary != 18 && (primary != 19 || (xo != 16 && xo != 528))
    ensures FindNext(instr, true, regs, stepOver) == Some((regs.nip / 4 * 4 + 4) % WORD_MOD)
    ensures FindNext(instr, false, regs, stepOver) == None
  {
  }

  // ---- the bits of the condition register

  /** The number that bits stand for, the highest first. */
  function FromBits(bits: seq<bool>): nat {
    if bits == [] then 0 else 2 * FromBits(bits[..|bits| - 1]) + if bits[|bits| - 1] then 1 else 0
  }

  lemma HalfOf(n: nat, b: nat, d: nat)
    requires b < 2 && d > 0
    ensures (2 * n + b) / (2 * d) == n / d
  {
    var q, r := n / d, n % d;
    assert n == d * q + r && 2 * n + b == (2 * d) * q + (2 * r + b);
    Remainder(q, 2 * r + b, 2 * d);
  }

  lemma {:induction false} BitOf(bits: seq<bool>, i: nat)
    requires i < |bits|
    ensures FromBits(bits) / Pow2(|bits| - 1 - i) % 2 == 1 <==> bits[i]
  {
    var init, last := bits[..|bits| - 1], if bits[|bits| - 1] then 1 else 0;
    if i == |bits| - 1 {
      Remainder(FromBits(init), last, 2);
    } else {
      BitOf(init, i);
      HalfOf(FromBits(init), last, Pow2(|init| - 1 - i));
    }
  }

  lemma {:induction false} BitsBound(bits: seq<bool>)
    ensures FromBits(bits) < Pow2(|bits|)
  {
    if bits != [] {
      BitsBound(bits[..|bits| - 1]);
    }
  }

  lemma WholeWord()
    ensures Pow2(32) == 0x1_0000_0000
  {
    Powers();
    assert Pow2(32) == 64 * Pow2(26);
  }

  /** A condition is the bit that BI counts from the highest. */
  lemma ConditionIsBit(bits: seq<bool>, bi: nat)
    requires |bits| == 32 && bi < 32
    ensures FromBits(bits) < 0x1_0000_0000 && (ConditionBit(FromBits(bits), bi) <==> bits[bi])
  {
    BitsBound(bits);
    WholeWord();
    BitOf(bits, bi);
  }

  // ---- the words of an instruction

  /** An operand can hold just the whole words at a distance inside the sign bit's range: from the instruction, or from 0
      and around the end of the address space. */
  lemma ReachesIff(target: word, memaddr: word, relative: bool, half: nat, d: int)
    requires 0 < half <= 0x2000_0000
    ensures -4 * half <= d < 4 * half && d % 4 == 0 && target == (d + if relative then memaddr else 0) % WORD_MOD
            ==> Reaches(target, memaddr, relative, half) && Displacement(target, memaddr, relative) == d
    ensures Reaches(target, memaddr, relative, half)
            ==> var d' := Displacement(target, memaddr, relative);
                -4 * half <= d' < 4 * half && d' % 4 == 0
                && target == (d' + if relative then memaddr else 0) % WORD_MOD
  {
    DisplacementBack(target, memaddr, relative);
    if -4 * half <= d < 4 * half && d % 4 == 0 && target == (d + if relative then memaddr else 0) % WORD_MOD {
      var data := Displacement(target, memaddr, relative);
      ShiftBase(data, d, if relative then memaddr else 0);
      SameWord(data, d);
    }
  }

  lemma FieldTimesFour(target: word, memaddr: word, relative: bool, half: nat)
    requires 0 < half <= 0x2000_0000 && Reaches(target, memaddr, relative, half)
    ensures var d := Displacement(target, memaddr, relative);
            EncodeField(target, memaddr, relative, half) * 4 == d + if d < 0 then 8 * half else 0
  {
    RangeMod(Displacement(target, memaddr, relative) / 4, half);
  }

  /** The word of a conditional branch over a distance of `d` bytes. */
  lemma WordOfB(aa: bool, lk: bool, bo: word, bi: word, target: word, memaddr: word, relative: bool, d: int)
    requires bo < 32 && bi < 32 && -0x8000 <= d < 0x8000 && d % 4 == 0
    requires target == (d + if relative then memaddr else 0) % WORD_MOD
    ensures Assembled(BranchOpcode(16, aa, lk), B_FIELDS, [bo, bi, target], memaddr, relative)
         == Some(0x4000_0000 + bo * 0x20_0000 + bi * 0x1_0000 + (if d < 0 then d + 0x1_0000 else d) + (if aa then 2 else 0)
                 + if lk then 1 else 0)
  {
    ReachesIff(target, memaddr, relative, 0x2000, d);
    FieldTimesFour(target, memaddr, relative, 0x2000);
    AssembledB(aa, lk, bo, bi, target, memaddr, relative);
  }

  /** The word of an unconditional one. */
  lemma WordOfI(aa: bool, lk: bool, target: word, memaddr: word, relative: bool, d: int)
    requires -0x200_0000 <= d < 0x200_0000 && d % 4 == 0
    requires target == (d + if relative then memaddr else 0) % WORD_MOD
    ensures Assembled(BranchOpcode(18, aa, lk), I_FIELDS, [target], memaddr, relative)
         == Some(0x4800_0000 + (if d < 0 then d + 0x400_0000 else d) + (if aa then 2 else 0) + if lk then 1 else 0)
  {
    ReachesIff(target, memaddr, relative, 0x80_0000, d);
    FieldTimesFour(target, memaddr, relative, 0x80_0000);
    AssembledI(aa, lk, target, memaddr, relative);
  }
}
