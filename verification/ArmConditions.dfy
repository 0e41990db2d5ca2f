/** The arithmetic of the emulated ARM processor: data-processing operations, the flags they leave in the
    program status register, and the table that answers the condition codes. */
module ArmConditions {
  import opened Sequences

  const TWO_32: int := 0x1_0000_0000
  const TWO_64: int := 0x1_0000_0000_0000_0000

  type Word = x: int | 0 <= x < TWO_32

  const REGISTER_PC := 15
  /** Takes the results of operations that only compare. */
  const REGISTER_NONE := 16

  /** The condition bits of the program status register, and all its other bits. */
  datatype Psr = Psr(n: bool, z: bool, c: bool, v: bool, rest: int)

  datatype Condition = EQ | NE | CS | CC | MI | PL | VS | VC | HI | LS | GE | LT | GT | LE | AL

  /** What a condition asks of the flags (ARM Architecture Reference Manual DDI 0100, section A3.2). */
  predicate Passes(cond: Condition, psr: Psr) {
    match cond
    case EQ => psr.z case NE => !psr.z
    case CS => psr.c case CC => !psr.c
    case MI => psr.n case PL => !psr.n
    case VS => psr.v case VC => !psr.v
    case HI => psr.c && !psr.z case LS => !psr.c || psr.z
    case GE => psr.n == psr.v case LT => psr.n != psr.v
    case GT => !psr.z && psr.n == psr.v case LE => psr.z || psr.n != psr.v
    case AL => true
  }

  function Bit(b: bool): int {
    if b then 1 else 0
  }

  /** The condition bits as a number: V is the lowest. */
  function Nibble(psr: Psr): (k: int)
    ensures 0 <= k < 16
  {
    8 * Bit(psr.n) + 4 * Bit(psr.z) + 2 * Bit(psr.c) + Bit(psr.v)
  }

  /** An entry of the table, the set of the conditions whose bits it has, answers for a status register. */
  ghost predicate Answers(entry: set<Condition>, p: Psr) {
    forall cond: Condition :: cond in entry <==> Passes(cond, p)
  }

  // ---------- Data processing ----------

  datatype Operation = AND | EOR | SUB | RSB | ADD | ADC | SBC | RSC | TST | TEQ | CMP | CMN | ORR | MOV | BIC | MVN

  datatype Result = Result(res: Word, carry: bool, overflow: bool)

  /** Bit 31, the sign of a word read as a two's complement number. */
  predicate Sign(x: Word) {
    x >= 0x8000_0000
  }

  /** x - y, less one if the carry is clear, in 64 bits; the carry comes from the inverted bit 32. */
  function Difference(x: Word, y: Word, carry: bool): Result {
    var res64 := (x - y - Bit(!carry)) % TWO_64;
    var res := res64 % TWO_32;
    Result(res, res64 / TWO_32 % 2 == 0, Sign(x) != Sign(y) && Sign(x) != Sign(res))
  }

  function Sum(x: Word, y: Word, carry: bool): Result {
    var res64 := (y + x + Bit(carry)) % TWO_64;
    var res := res64 % TWO_32;
    Result(res, res64 / TWO_32 % 2 == 1, Sign(x) == Sign(y) && Sign(x) != Sign(res))
  }

  /** Bitwise AND of two numbers. */
  function CommonBits(x: nat, y: nat): (r: nat)
    ensures r <= x && r <= y
  {
    if x == 0 || y == 0 then 0 else 2 * CommonBits(x / 2, y / 2) + x % 2 * (y % 2)
  }

  function And(x: Word, y: Word): Word { CommonBits(x, y) }
  function Not(x: Word): Word { TWO_32 - 1 - x }
  function Or(x: Word, y: Word): Word { Not(And(Not(x), Not(y))) }
  function Xor(x: Word, y: Word): Word { And(Or(x, y), Not(And(x, y))) }

  function Compute(operation: Operation, operand1: Word, operand2: Word, psr: Psr, shifterCarry: bool): Result {
    match operation
    case TST => Result(And(operand1, operand2), shifterCarry, psr.v)
    case AND => Result(And(operand1, operand2), shifterCarry, psr.v)
    case TEQ => Result(Xor(operand1, operand2), shifterCarry, psr.v)
    case EOR => Result(Xor(operand1, operand2), shifterCarry, psr.v)
    case CMP => Difference(operand1, operand2, true)
    case SUB => Difference(operand1, operand2, true)
    case SBC => Difference(operand1, operand2, psr.c)
    case RSB => Difference(operand2, operand1, true)
    case RSC => Difference(operand2, operand1, psr.c)
    case CMN => Sum(operand1, operand2, false)
    case ADD => Sum(operand1, operand2, false)
    case ADC => Sum(operand1, operand2, psr.c)
    case ORR => Result(Or(operand1, operand2), shifterCarry, psr.v)
    case BIC => Result(And(operand1, Not(operand2)), shifterCarry, psr.v)
    case MOV => Result(operand2, shifterCarry, psr.v)
    case MVN => Result(Not(operand2), shifterCarry, psr.v)
  }

  predicate OnlyCompares(operation: Operation) {
    operation in {TST, TEQ, CMP, CMN}
  }

  /** The status register after an operation that sets the flags. */
  function Flagged(psr: Psr, r: Result): Psr {
    Psr(Sign(r.res), r.res == 0, r.carry, r.overflow, psr.rest)
  }

  // ---------- What the results mean ----------

  predicate BitAt(x: nat, k: nat) {
    if k == 0 then x % 2 == 1 else BitAt(x / 2, k - 1)
  }

  lemma {:induction false} CommonBit(x: nat, y: nat, k: nat)
    ensures BitAt(CommonBits(x, y), k) <==> BitAt(x, k) && BitAt(y, k)
  {
    if x == 0 || y == 0 {
      NoBit(k);
    } else if k > 0 {
      CommonBit(x / 2, y / 2, k - 1);
    }
  }

  lemma {:induction false} NoBit(k: nat)
    ensures !BitAt(0, k)
  {
    if k > 0 { NoBit(k - 1); }
  }

  lemma {:induction false} ComplementBit(x: nat, n: nat, k: nat)
    requires x < Pow2(n) && k < n
    ensures BitAt(Pow2(n) - 1 - x, k) <==> !BitAt(x, k)
  {
    if k > 0 {
      assert (Pow2(n) - 1 - x) / 2 == Pow2(n - 1) - 1 - x / 2;
      ComplementBit(x / 2, n - 1, k - 1);
    }
  }

  lemma NotBit(x: Word, k: nat)
    requires k < 32
    ensures BitAt(Not(x), k) <==> !BitAt(x, k)
  {
    assert Pow2(8) == 256;
    assert Pow2(16) == 0x1_0000;
    assert Pow2(24) == 0x100_0000;
    assert Pow2(32) == TWO_32;
    ComplementBit(x, 32, k);
  }

  /** The logical operations work on every bit. */
  lemma LogicalMeaning(x: Word, y: Word, psr: Psr, carry: bool, k: nat)
    requires k < 32
    ensures BitAt(Compute(AND, x, y, psr, carry).res, k) <==> BitAt(x, k) && BitAt(y, k)
    ensures BitAt(Compute(BIC, x, y, psr, carry).res, k) <==> BitAt(x, k) && !BitAt(y, k)
    ensures BitAt(Compute(ORR, x, y, psr, carry).res, k) <==> BitAt(x, k) || BitAt(y, k)
    ensures BitAt(Compute(EOR, x, y, psr, carry).res, k) <==> BitAt(x, k) != BitAt(y, k)
    ensures BitAt(Compute(MVN, x, y, psr, carry).res, k) <==> !BitAt(y, k)
  {
    NotBit(x, k);
    NotBit(y, k);
    CommonBit(x, y, k);
    CommonBit(x, Not(y), k);
    CommonBit(Not(x), Not(y), k);
    NotBit(And(Not(x), Not(y)), k);
    NotBit(And(x, y), k);
    CommonBit(Or(x, y), Not(And(x, y)), k);
  }

  /** Bit k of a number. */
  lemma {:induction false} BitIs(x: nat, k: nat)
    ensures BitAt(x, k) <==> x / Pow2(k) % 2 == 1
  {
    if k > 0 {
      BitIs(x / 2, k - 1);
      HalvedFirst(x, k - 1);
    }
  }

  /** What the logical operations leave, bit by bit; they pass on the carry of the shifter. */
  lemma LogicalResult(operation: Operation, x: Word, y: Word, psr: Psr, shifterCarry: bool)
    ensures var r := Compute(operation, x, y, psr, shifterCarry);
      && (operation in {AND, EOR, ORR, BIC, MOV, MVN, TST, TEQ} ==> r.carry == shifterCarry && r.overflow == psr.v)
      && (operation == MOV ==> r.res == y)
      && forall k :: 0 <= k < 32 ==>
        && (operation in {AND, TST} ==> (BitAt(r.res, k) <==> BitAt(x, k) && BitAt(y, k)))
        && (operation in {EOR, TEQ} ==> (BitAt(r.res, k) <==> BitAt(x, k) != BitAt(y, k)))
        && (operation == ORR ==> (BitAt(r.res, k) <==> BitAt(x, k) || BitAt(y, k)))
        && (operation == BIC ==> (BitAt(r.res, k) <==> BitAt(x, k) && !BitAt(y, k)))
        && (operation == MVN ==> (BitAt(r.res, k) <==> !BitAt(y, k)))
  {
    var r := Compute(operation, x, y, psr, shifterCarry);
    forall k | 0 <= k < 32
      ensures && (operation in {AND, TST} ==> (BitAt(r.res, k) <==> BitAt(x, k) && BitAt(y, k)))
        && (operation in {EOR, TEQ} ==> (BitAt(r.res, k) <==> BitAt(x, k) != BitAt(y, k)))
        && (operation == ORR ==> (BitAt(r.res, k) <==> BitAt(x, k) || BitAt(y, k)))
        && (operation == BIC ==> (BitAt(r.res, k) <==> BitAt(x, k) && !BitAt(y, k)))
        && (operation == MVN ==> (BitAt(r.res, k) <==> !BitAt(y, k)))
    {
      LogicalMeaning(x, y, psr, shifterCarry, k);
    }
  }

  /** The number that a word stands for in two's complement. */
  function Signed(x: Word): int {
    if Sign(x) then x - TWO_32 else x
  }

  /** r is the difference d of two words, whose signed readings differ by signed. */
  ghost predicate IsDifference(r: Result, d: int, signed: int) {
    && r.res == (if d < 0 then d + TWO_32 else d) && (r.carry <==> d >= 0)
    && (Sign(r.res) != r.overflow <==> signed < 0)
  }

  /** r is the sum s of two words, whose signed readings have the sum signed. */
  ghost predicate IsSum(r: Result, s: int, signed: int) {
    && r.res == (if s >= TWO_32 then s - TWO_32 else s) && (r.carry <==> s >= TWO_32)
    && (r.overflow <==> !(-TWO_32 <= 2 * signed < TWO_32))
  }

  lemma DifferenceIs(x: Word, y: Word, carry: bool)
    ensures IsDifference(Difference(x, y, carry), x - y - Bit(!carry), Signed(x) - Signed(y) - Bit(!carry))
  {
    var d := x - y - Bit(!carry);
    assert d % TWO_64 == if d < 0 then d + TWO_64 else d;
  }

  lemma SumIs(x: Word, y: Word, carry: bool)
    ensures IsSum(Sum(x, y, carry), x + y + Bit(carry), Signed(x) + Signed(y) + Bit(carry))
  {
    var s := x + y + Bit(carry);
    assert s % TWO_64 == s;
  }

  /** What the arithmetic operations compute; the carry tells whether a sum does not fit, or a difference is not
      negative, read without a sign, and the overflow that it does not fit read with one. */
  lemma ArithmeticResult(operation: Operation, x: Word, y: Word, psr: Psr, shifterCarry: bool)
    requires operation in {ADD, CMN, ADC, SUB, CMP, SBC, RSB, RSC}
    ensures var r := Compute(operation, x, y, psr, shifterCarry);
      var sx, sy := if x >= 0x8000_0000 then x - 0x1_0000_0000 else x, if y >= 0x8000_0000 then y - 0x1_0000_0000 else y;
      var c := if psr.c then 1 else 0;
      var e := if operation in {ADD, CMN} then x + y else if operation == ADC then x + y + c
               else if operation in {SUB, CMP} then x - y else if operation == SBC then x - y - 1 + c
               else if operation == RSB then y - x else y - x - 1 + c;
      var s := if operation in {ADD, CMN} then sx + sy else if operation == ADC then sx + sy + c
               else if operation in {SUB, CMP} then sx - sy else if operation == SBC then sx - sy - 1 + c
               else if operation == RSB then sy - sx else sy - sx - 1 + c;
      && r.res == (if e >= 0x1_0000_0000 then e - 0x1_0000_0000 else if e < 0 then e + 0x1_0000_0000 else e)
      && (r.carry <==> if operation in {ADD, CMN, ADC} then e >= 0x1_0000_0000 else e >= 0)
      && (r.overflow <==> !(-0x8000_0000 <= s < 0x8000_0000))
  {
    if operation in {ADD, CMN, ADC} {
      SumIs(x, y, operation == ADC && psr.c);
    } else if operation in {SUB, CMP, SBC} {
      DifferenceRange(x, y, operation == SBC ==> psr.c);
    } else {
      DifferenceRange(y, x, operation == RSC ==> psr.c);
    }
  }

  lemma DifferenceRange(x: Word, y: Word, carry: bool)
    ensures var r, d, signed := Difference(x, y, carry), x - y - Bit(!carry), Signed(x) - Signed(y) - Bit(!carry);
      && r.res == (if d < 0 then d + 0x1_0000_0000 else d) && (r.carry <==> d >= 0)
      && (r.overflow <==> !(-0x8000_0000 <= signed < 0x8000_0000))
  {
    DifferenceIs(x, y, carry);
  }

  /** After a comparison every condition tells how the operands compare. */
  lemma CompareMeaning(a: Word, b: Word, psr: Psr, shifterCarry: bool)
    ensures var p := Flagged(psr, Compute(CMP, a, b, psr, shifterCarry));
      && (Passes(EQ, p) <==> a == b) && (Passes(NE, p) <==> a != b)
      && (Passes(CS, p) <==> a >= b) && (Passes(CC, p) <==> a < b)
      && (Passes(HI, p) <==> a > b) && (Passes(LS, p) <==> a <= b)
      && (Passes(GE, p) <==> Signed(a) >= Signed(b)) && (Passes(LT, p) <==> Signed(a) < Signed(b))
      && (Passes(GT, p) <==> Signed(a) > Signed(b)) && (Passes(LE, p) <==> Signed(a) <= Signed(b))
  {
    DifferenceIs(a, b, true);
  }

  /** A 64-bit number in two words. */
  function Pair(high: Word, low: Word): int {
    high * TWO_32 + low
  }

  function Signed64(high: Word, low: Word): int {
    Signed(high) * TWO_32 + low
  }

  /** ADDS and ADCS on the halves add 64-bit numbers, and tell of the overflow in either reading. */
  lemma AddPair(xh: Word, xl: Word, yh: Word, yl: Word, psr: Psr, shifterCarry: bool)
    ensures var low := Compute(ADD, xl, yl, psr, shifterCarry);
      var p := Flagged(psr, low);
      var high := Compute(ADC, xh, yh, p, shifterCarry);
      var sum, signed := Pair(xh, xl) + Pair(yh, yl), Signed64(xh, xl) + Signed64(yh, yl);
      && Pair(high.res, low.res) == (if sum >= TWO_64 then sum - TWO_64 else sum)
      && (Passes(CS, Flagged(p, high)) <==> sum >= TWO_64)
      && (Passes(VS, Flagged(p, high)) <==> !(-TWO_64 <= 2 * signed < TWO_64))
  {
    var low := Sum(xl, yl, false);
    SumIs(xl, yl, false);
    SumIs(xh, yh, low.carry);
    SumOfHalves(xh, xl, yh, yl, low, Sum(xh, yh, low.carry));
  }

  lemma SumOfHalves(xh: Word, xl: Word, yh: Word, yl: Word, low: Result, high: Result)
    requires IsSum(low, xl + yl, Signed(xl) + Signed(yl))
    requires IsSum(high, xh + yh + Bit(low.carry), Signed(xh) + Signed(yh) + Bit(low.carry))
    ensures var sum, signed := Pair(xh, xl) + Pair(yh, yl), Signed64(xh, xl) + Signed64(yh, yl);
      && Pair(high.res, low.res) == (if sum >= TWO_64 then sum - TWO_64 else sum)
      && (high.carry <==> sum >= TWO_64)
      && (high.overflow <==> !(-TWO_64 <= 2 * signed < TWO_64))
  {
  }

  /** SUBS and SBCS on the halves subtract 64-bit numbers, and compare them. */
  lemma SubtractPair(xh: Word, xl: Word, yh: Word, yl: Word, psr: Psr, shifterCarry: bool)
    ensures var low := Compute(SUB, xl, yl, psr, shifterCarry);
      var p := Flagged(psr, low);
      var high := Compute(SBC, xh, yh, p, shifterCarry);
      var d := Pair(xh, xl) - Pair(yh, yl);
      && Pair(high.res, low.res) == (if d < 0 then d + TWO_64 else d)
      && (Passes(CS, Flagged(p, high)) <==> Pair(xh, xl) >= Pair(yh, yl))
      && (Passes(GE, Flagged(p, high)) <==> Signed64(xh, xl) >= Signed64(yh, yl))
  {
    var low := Difference(xl, yl, true);
    DifferenceIs(xl, yl, true);
    DifferenceIs(xh, yh, low.carry);
    DifferenceOfHalves(xh, xl, yh, yl, low, Difference(xh, yh, low.carry));
  }

  lemma DifferenceOfHalves(xh: Word, xl: Word, yh: Word, yl: Word, low: Result, high: Result)
    requires IsDifference(low, xl - yl, Signed(xl) - Signed(yl))
    requires IsDifference(high, xh - yh - Bit(!low.carry), Signed(xh) - Signed(yh) - Bit(!low.carry))
    ensures var d := Pair(xh, xl) - Pair(yh, yl);
      && Pair(high.res, low.res) == (if d < 0 then d + TWO_64 else d)
      && (high.carry <==> d >= 0)
      && (Sign(high.res) == high.overflow <==> Signed64(xh, xl) >= Signed64(yh, yl))
  {
  }

  // ---------- The processor ----------

  /** The conditions on one flag that hold. */
  method FlagConditions(p: Psr) returns (res: set<Condition>)
    ensures forall cond: Condition :: cond in res <==> cond in {EQ, NE, CS, CC, MI, PL, VS, VC} && Passes(cond, p)
  {
    res := {};
    if p.z { res := res + {EQ}; }
    if !p.z { res := res + {NE}; }
    if p.c { res := res + {CS}; }
    if !p.c { res := res + {CC}; }
    if p.n { res := res + {MI}; }
    if !p.n { res := res + {PL}; }
    if p.v { res := res + {VS}; }
    if !p.v { res := res + {VC}; }
  }

  /** The conditions on several flags that hold. */
  method OrderConditions(p: Psr) returns (res: set<Condition>)
    ensures forall cond: Condition :: cond in res <==> cond in {HI, LS, GE, LT, GT, LE} && Passes(cond, p)
  {
    res := {};
    if !p.z && p.c { res := res + {HI}; }
    if p.z || !p.c { res := res + {LS}; }
    if p.n == p.v { res := res + {GE}; }
    if p.n != p.v { res := res + {LT}; }
    if !p.z && p.n == p.v { res := res + {GT}; }
    if p.z || p.n != p.v { res := res + {LE}; }
  }

  /** One entry of the table. */
  method Entry(p: Psr) returns (res: set<Condition>)
    ensures Answers(res, p)
  {
    var flags := FlagConditions(p);
    var orders := OrderConditions(p);
    res := flags + orders + {AL};
  }

  class Processor {
    /** The 17th register is there for operations that write no result. */
    const registers: array<Word>
    var pc: Word
    var psr: Psr
    const lookupConditions: array<set<Condition>>

    ghost predicate Valid()
      reads this, registers, lookupConditions
    {
      && registers.Length == 17 && lookupConditions.Length == 16
      && forall p: Psr :: Answers(lookupConditions[Nibble(p)], p)
    }

    constructor ()
      ensures Valid() && fresh(registers) && fresh(lookupConditions) && pc == 0
    {
      registers := new Word[17](_ => 0);
      lookupConditions := new set<Condition>[16];
      pc, psr := 0, Psr(false, false, false, false, 0xD3);
      new;
      FillTable();
    }

    /** The table that Initialize precomputes. */
    method FillTable()
      requires lookupConditions.Length == 16
      modifies lookupConditions
      ensures forall p: Psr :: Answers(lookupConditions[Nibble(p)], p)
    {
      var value := 0;
      while value < 16
        invariant 0 <= value <= 16
        invariant forall p: Psr :: Nibble(p) < value ==> Answers(lookupConditions[Nibble(p)], p)
      {
        lookupConditions[value] := Entry(Psr(value / 8 % 2 == 1, value / 4 % 2 == 1, value / 2 % 2 == 1, value % 2 == 1, 0));
        value := value + 1;
      }
    }

    /** CheckConditions. */
    method CheckConditions(cond: Condition) returns (r: bool)
      requires Valid()
      ensures r == Passes(cond, psr)
      ensures cond in {MI, PL} ==> r == (psr.n == (cond == MI))
      ensures cond in {VS, VC} ==> r == (psr.v == (cond == VS))
      ensures cond == AL ==> r
    {
      assert Answers(lookupConditions[Nibble(psr)], psr);
      r := cond in lookupConditions[Nibble(psr)];
    }

    /** parse_DataProcessing, once the shifter has made the second operand.  A comparison writes no register. */
    method DataProcessing(operation: Operation, rn: nat, rd: nat, operand2: Word, shifterCarry: bool, setConditions: bool)
      returns (ghost res: Word)
      requires Valid() && rn < 16 && rd < 16
      modifies this`pc, this`psr, registers
      ensures Valid()
      ensures if operation in {TST, TEQ, CMP, CMN} then registers[..16] == old(registers[..16]) && pc == old(pc)
        else registers[..16] == old(registers[..16])[rd := res] && pc == if rd == 15 then res else old(pc)
      ensures operation in {ADD, CMN, ADC, SUB, CMP, SBC, RSB, RSC} ==>
        var x, y := old(registers[rn]), operand2;
        var sx, sy := if x >= 0x8000_0000 then x - 0x1_0000_0000 else x, if y >= 0x8000_0000 then y - 0x1_0000_0000 else y;
        var c := if old(psr.c) then 1 else 0;
        var e := if operation in {ADD, CMN} then x + y else if operation == ADC then x + y + c
                 else if operation in {SUB, CMP} then x - y else if operation == SBC then x - y - 1 + c
                 else if operation == RSB then y - x else y - x - 1 + c;
        var s := if operation in {ADD, CMN} then sx + sy else if operation == ADC then sx + sy + c
                 else if operation in {SUB, CMP} then sx - sy else if operation == SBC then sx - sy - 1 + c
                 else if operation == RSB then sy - sx else sy - sx - 1 + c;
        && res == (if e >= 0x1_0000_0000 then e - 0x1_0000_0000 else if e < 0 then e + 0x1_0000_0000 else e)
        && (setConditions ==> (psr.c <==> if operation in {ADD, CMN, ADC} then e >= 0x1_0000_0000 else e >= 0))
        && (setConditions ==> (psr.v <==> !(-0x8000_0000 <= s < 0x8000_0000)))
      ensures var x, y := old(registers[rn]), operand2;
        && (operation == MOV ==> res == y)
        && (operation in {AND, EOR, ORR, BIC, MOV, MVN, TST, TEQ} && setConditions ==> psr.c == shifterCarry && psr.v == old(psr.v))
        && forall k :: 0 <= k < 32 ==>
          && (operation in {AND, TST} ==> (BitAt(res, k) <==> BitAt(x, k) && BitAt(y, k)))
          && (operation in {EOR, TEQ} ==> (BitAt(res, k) <==> BitAt(x, k) != BitAt(y, k)))
          && (operation == ORR ==> (BitAt(res, k) <==> BitAt(x, k) || BitAt(y, k)))
          && (operation == BIC ==> (BitAt(res, k) <==> BitAt(x, k) && !BitAt(y, k)))
          && (operation == MVN ==> (BitAt(res, k) <==> !BitAt(y, k)))
      ensures if setConditions then (psr.n <==> res >= 0x8000_0000) && (psr.z <==> res == 0) && psr.rest == old(psr.rest)
        else psr == old(psr)
    {
      if operation in {ADD, CMN, ADC, SUB, CMP, SBC, RSB, RSC} {
        res := DoArithmetic(operation, rn, rd, operand2, shifterCarry, setConditions);
      } else {
        res := DoLogical(operation, rn, rd, operand2, shifterCarry, setConditions);
      }
    }

    /** The same for the arithmetic operations. */
    method DoArithmetic(operation: Operation, rn: nat, rd: nat, operand2: Word, shifterCarry: bool, setConditions: bool)
      returns (ghost res: Word)
      requires Valid() && rn < 16 && rd < 16
      requires operation in {ADD, CMN, ADC, SUB, CMP, SBC, RSB, RSC}
      modifies this`pc, this`psr, registers
      ensures Valid()
      ensures if operation in {TST, TEQ, CMP, CMN} then registers[..16] == old(registers[..16]) && pc == old(pc)
        else registers[..16] == old(registers[..16])[rd := res] && pc == if rd == 15 then res else old(pc)
      ensures var x, y := old(registers[rn]), operand2;
        var sx, sy := if x >= 0x8000_0000 then x - 0x1_0000_0000 else x, if y >= 0x8000_0000 then y - 0x1_0000_0000 else y;
        var c := if old(psr.c) then 1 else 0;
        var e := if operation in {ADD, CMN} then x + y else if operation == ADC then x + y + c
                 else if operation in {SUB, CMP} then x - y else if operation == SBC then x - y - 1 + c
                 else if operation == RSB then y - x else y - x - 1 + c;
        var s := if operation in {ADD, CMN} then sx + sy else if operation == ADC then sx + sy + c
                 else if operation in {SUB, CMP} then sx - sy else if operation == SBC then sx - sy - 1 + c
                 else if operation == RSB then sy - sx else sy - sx - 1 + c;
        && res == (if e >= 0x1_0000_0000 then e - 0x1_0000_0000 else if e < 0 then e + 0x1_0000_0000 else e)
        && (setConditions ==> (psr.c <==> if operation in {ADD, CMN, ADC} then e >= 0x1_0000_0000 else e >= 0))
        && (setConditions ==> (psr.v <==> !(-0x8000_0000 <= s < 0x8000_0000)))
      ensures if setConditions then (psr.n <==> res >= 0x8000_0000) && (psr.z <==> res == 0) && psr.rest == old(psr.rest)
        else psr == old(psr)
    {
      ghost var x, p := registers[rn], psr;
      Execute(operation, rn, rd, operand2, shifterCarry, setConditions);
      res := Compute(operation, x, operand2, p, shifterCarry).res;
      ArithmeticResult(operation, x, operand2, p, shifterCarry);
    }

    /** The same for the logical operations. */
    method DoLogical(operation: Operation, rn: nat, rd: nat, operand2: Word, shifterCarry: bool, setConditions: bool)
      returns (ghost res: Word)
      requires Valid() && rn < 16 && rd < 16
      requires operation !in {ADD, CMN, ADC, SUB, CMP, SBC, RSB, RSC}
      modifies this`pc, this`psr, registers
      ensures Valid()
      ensures if operation in {TST, TEQ, CMP, CMN} then registers[..16] == old(registers[..16]) && pc == old(pc)
        else registers[..16] == old(registers[..16])[rd := res] && pc == if rd == 15 then res else old(pc)
      ensures var x, y := old(registers[rn]), operand2;
        && (operation == MOV ==> res == y)
        && (operation in {AND, EOR, ORR, BIC, MOV, MVN, TST, TEQ} && setConditions ==> psr.c == shifterCarry && psr.v == old(psr.v))
        && forall k :: 0 <= k < 32 ==>
          && (operation in {AND, TST} ==> (BitAt(res, k) <==> BitAt(x, k) && BitAt(y, k)))
          && (operation in {EOR, TEQ} ==> (BitAt(res, k) <==> BitAt(x, k) != BitAt(y, k)))
          && (operation == ORR ==> (BitAt(res, k) <==> BitAt(x, k) || BitAt(y, k)))
          && (operation == BIC ==> (BitAt(res, k) <==> BitAt(x, k) && !BitAt(y, k)))
          && (operation == MVN ==> (BitAt(res, k) <==> !BitAt(y, k)))
      ensures if setConditions then (psr.n <==> res >= 0x8000_0000) && (psr.z <==> res == 0) && psr.rest == old(psr.rest)
        else psr == old(psr)
    {
      ghost var x, p := registers[rn], psr;
      Execute(operation, rn, rd, operand2, shifterCarry, setConditions);
      res := Compute(operation, x, operand2, p, shifterCarry).res;
      LogicalResult(operation, x, operand2, p, shifterCarry);
    }

    /** The same in terms of the operations. */
    method Execute(operation: Operation, rn: nat, rd: nat, operand2: Word, shifterCarry: bool, setConditions: bool)
      requires Valid() && rn < 16 && rd < 16
      modifies this`pc, this`psr, registers
      ensures Valid()
      ensures var r := Compute(operation, old(registers[rn]), operand2, old(psr), shifterCarry);
        var dst := if OnlyCompares(operation) then REGISTER_NONE else rd;
        && registers[..] == old(registers[..])[dst := r.res]
        && pc == (if dst == REGISTER_PC then r.res else old(pc))
        && psr == if setConditions then Flagged(old(psr), r) else old(psr)
    {
      var r := Compute(operation, registers[rn], operand2, psr, shifterCarry);
      var dst := if OnlyCompares(operation) then REGISTER_NONE else rd;
      registers[dst] := r.res;
      if dst == REGISTER_PC { pc := r.res; }
      if setConditions { psr := Flagged(psr, r); }
    }
  }
}
