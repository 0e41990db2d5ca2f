/** Block data transfers of the emulated ARM processor: LDM and STM. */
module ArmTransfers {
  import opened ArmConditions

  /** The registers, the program counter, and the words that can be loaded and stored. */
  datatype State = State(registers: seq<Word>, pc: Word, memory: map<Word, Word>)

  function Wrap(x: int): Word {
    x % TWO_32
  }

  function NextWord(a: Word): Word {
    Wrap(a + 4)
  }

  lemma WrapAdd(x: int, y: int)
    ensures Wrap(Wrap(x) + y) == Wrap(x + y)
  {
  }

  /** How many registers a list names. */
  function Count(lst: nat): nat {
    if lst == 0 then 0 else lst % 2 + Count(lst / 2)
  }

  /** Register rd is in the list. */
  predicate Listed(lst: nat, rd: nat) {
    BitAt(lst, rd)
  }

  function FirstAddress(address: Word, num: nat, preIndex: bool, up: bool): Word {
    if up then Wrap(address + if preIndex then 4 else 0)
    else Wrap(address - 4 * num + if preIndex then 0 else 4)
  }

  function WrittenBack(address: Word, num: nat, up: bool): Word {
    Wrap(if up then address + 4 * num else address - 4 * num)
  }

  /** Store the registers in the list, from rd on; a store that fails ends the transfer. */
  function Stored(s: State, next: Word, lst: nat, rd: nat): (r: (State, bool))
    requires rd + Bits(lst) <= |s.registers|
    ensures |r.0.registers| == |s.registers|
    decreases lst
  {
    if lst == 0 then (s, true)
    else if lst % 2 == 0 then Stored(s, next, lst / 2, rd + 1)
    else if next !in s.memory then (s, false)
    else Stored(s.(memory := s.memory[next := s.registers[rd]]), NextWord(next), lst / 2, rd + 1)
  }

  function Loaded(s: State, next: Word, lst: nat, rd: nat): (r: (State, bool))
    requires rd + Bits(lst) <= |s.registers|
    ensures |r.0.registers| == |s.registers|
    decreases lst
  {
    if lst == 0 then (s, true)
    else if lst % 2 == 0 then Loaded(s, next, lst / 2, rd + 1)
    else if next !in s.memory then (s, false)
    else Loaded(LoadedOne(s, next, rd), NextWord(next), lst / 2, rd + 1)
  }

  function LoadedOne(s: State, next: Word, rd: nat): State
    requires rd < |s.registers| && next in s.memory
  {
    State(s.registers[rd := s.memory[next]], if rd == REGISTER_PC then s.memory[next] else s.pc, s.memory)
  }

  /** The number of bits that a number needs. */
  function Bits(lst: nat): nat {
    if lst == 0 then 0 else 1 + Bits(lst / 2)
  }

  /** One block data transfer. */
  function Transfer(s: State, rn: nat, lst: nat, load: bool, preIndex: bool, up: bool, loadPsr: bool,
          writeBack: bool): (r: (State, bool))
    requires |s.registers| == 17 && rn < 16 && Bits(lst) <= 16
    ensures |r.0.registers| == 17
  {
    var address := s.registers[rn];
    var next := FirstAddress(address, Count(lst), preIndex, up);
    var (t, ok) := if load then Loaded(s, next, lst, 0) else Stored(s, next, lst, 0);
    if !ok || loadPsr then (t, false)
    else (if writeBack then t.(registers := t.registers[rn := WrittenBack(address, Count(lst), up)]) else t, true)
  }

  // ---------- Round trips ----------

  /** The memory holds the listed registers, from address next on. */
  ghost predicate Saved(memory: map<Word, Word>, next: Word, registers: seq<Word>, lst: nat, rd: nat)
    requires rd + Bits(lst) <= |registers|
    decreases lst
  {
    lst == 0
    || if lst % 2 == 0 then Saved(memory, next, registers, lst / 2, rd + 1)
       else next in memory && memory[next] == registers[rd] && Saved(memory, NextWord(next), registers, lst / 2, rd + 1)
  }

  lemma {:induction false} CountFits(lst: nat)
    ensures Count(lst) <= Bits(lst)
  {
    if lst != 0 { CountFits(lst / 2); }
  }

  lemma WordBehind(next: Word, back: nat)
    requires 1 <= back <= 32
    ensures Wrap(NextWord(next) - 4 * (back + 1)) == Wrap(next - 4 * back) != next
  {
    WrapAdd(next + 4, -4 * (back + 1));
  }

  /** A transfer does not touch the words before its first one, nor the registers. */
  lemma {:induction false} StoredBefore(s: State, next: Word, lst: nat, rd: nat, back: nat, a: Word)
    requires rd + Bits(lst) <= |s.registers| && 1 <= back && back + Bits(lst) <= 32 && a == Wrap(next - 4 * back)
    ensures var t := Stored(s, next, lst, rd).0;
      && t.registers == s.registers && t.pc == s.pc && t.memory.Keys == s.memory.Keys
      && (a in s.memory ==> t.memory[a] == s.memory[a])
    decreases lst
  {
    if lst != 0 {
      if lst % 2 == 0 {
        StoredBefore(s, next, lst / 2, rd + 1, back, a);
      } else if next in s.memory {
        WordBehind(next, back);
        StoredBefore(s.(memory := s.memory[next := s.registers[rd]]), NextWord(next), lst / 2, rd + 1, back + 1, a);
      }
    }
  }

  lemma {:induction false} StoredIsSaved(s: State, next: Word, lst: nat, rd: nat)
    requires rd + Bits(lst) <= |s.registers| && Bits(lst) <= 16 && Stored(s, next, lst, rd).1
    ensures Saved(Stored(s, next, lst, rd).0.memory, next, s.registers, lst, rd)
    decreases lst
  {
    if lst != 0 {
      if lst % 2 == 0 {
        StoredIsSaved(s, next, lst / 2, rd + 1);
      } else {
        var s' := s.(memory := s.memory[next := s.registers[rd]]);
        StoredIsSaved(s', NextWord(next), lst / 2, rd + 1);
        WrapAdd(next + 4, -4);
        StoredBefore(s', NextWord(next), lst / 2, rd + 1, 1, next);
      }
    }
  }

  /** Loading what was saved brings the listed registers back, and no others. */
  lemma {:induction false} LoadedFromSaved(s: State, next: Word, registers: seq<Word>, lst: nat, rd: nat)
    requires rd + Bits(lst) <= |s.registers| == |registers| == 17 && Saved(s.memory, next, registers, lst, rd)
    ensures var (t, ok) := Loaded(s, next, lst, rd);
      && ok && |t.registers| == |s.registers| && t.memory == s.memory
      && (forall k :: 0 <= k < |registers| ==> t.registers[k] == if rd <= k && Listed(lst, k - rd) then registers[k] else s.registers[k])
      && t.pc == if rd <= REGISTER_PC && Listed(lst, REGISTER_PC - rd) then registers[REGISTER_PC] else s.pc
    decreases lst
  {
    if lst == 0 {
      forall k: nat ensures !Listed(0, k) { NoBit(k); }
    } else if lst % 2 == 0 {
      LoadedFromSaved(s, next, registers, lst / 2, rd + 1);
    } else {
      LoadedFromSaved(LoadedOne(s, next, rd), NextWord(next), registers, lst / 2, rd + 1);
    }
  }

  /** Storing registers with write-back and loading them in the opposite direction, with the opposite
      indexing, restores every listed register and the base, whatever happened to the other registers in
      between. */
  lemma StoreLoadRoundTrip(s: State, s2: State, rn: nat, lst: nat, preIndex: bool, up: bool)
    requires |s.registers| == 17 && rn < 16 && Bits(lst) <= 16
    requires Transfer(s, rn, lst, false, preIndex, up, false, true).1
    requires var s1 := Transfer(s, rn, lst, false, preIndex, up, false, true).0;
      |s2.registers| == 17 && s2.memory == s1.memory && s2.registers[rn] == s1.registers[rn]
    ensures var (t, ok) := Transfer(s2, rn, lst, true, !preIndex, !up, false, true);
      && ok && t.memory == s2.memory && t.registers[rn] == s.registers[rn]
      && forall k :: 0 <= k < 16 && k != rn ==> t.registers[k] == if Listed(lst, k) then s.registers[k] else s2.registers[k]
  {
    var base, num := s.registers[rn], Count(lst);
    var next := FirstAddress(base, num, preIndex, up);
    StoredBefore(s, next, lst, 0, 1, Wrap(next as int - 4));
    StoredIsSaved(s, next, lst, 0);
    CountFits(lst);
    BaseRestored(base, num, preIndex, up);
    LoadedFromSaved(s2, next, s.registers, lst, 0);
  }

  lemma BaseRestored(base: Word, num: nat, preIndex: bool, up: bool)
    ensures var b := WrittenBack(base, num, up);
      WrittenBack(b, num, !up) == base && FirstAddress(b, num, !preIndex, !up) == FirstAddress(base, num, preIndex, up)
  {
    if up {
      WrapAdd(base + 4 * num, -4 * num);
      WrapAdd(base + 4 * num, -4 * num + 4);
    } else {
      WrapAdd(base - 4 * num, 4 * num);
      WrapAdd(base - 4 * num, 0);
      WrapAdd(base - 4 * num, 4);
    }
  }

  // ---------- Which words a transfer touches ----------

  /** How many registers below n a list names. */
  function Rank(lst: nat, n: nat): nat {
    if n == 0 then 0 else lst % 2 + Rank(lst / 2, n - 1)
  }

  lemma {:induction false} RankNext(lst: nat, n: nat)
    ensures Rank(lst, n + 1) == Rank(lst, n) + if BitAt(lst, n) then 1 else 0
  {
    if n > 0 { RankNext(lst / 2, n - 1); }
  }

  lemma {:induction false} RankAll(lst: nat, n: nat)
    requires Bits(lst) <= n
    ensures Rank(lst, n) == Count(lst)
  {
    if n > 0 { RankAll(lst / 2, n - 1); }
  }

  /** The word of register j of a list whose words start at next. */
  function WordAt(next: Word, lst: nat, j: nat): Word {
    Wrap(next + 4 * Rank(lst, j))
  }

  lemma WordAtHalf(next: Word, lst: nat, j: nat)
    ensures WordAt(next, lst, j) == if j == 0 then next else WordAt(if lst % 2 == 1 then NextWord(next) else next, lst / 2, j - 1)
  {
    if j > 0 { WrapAdd(next + 4, 4 * Rank(lst / 2, j - 1)); }
  }

  /** All words of a list are there. */
  ghost predicate There(words: set<Word>, next: Word, lst: nat)
    decreases lst
  {
    lst == 0
    || if lst % 2 == 0 then There(words, next, lst / 2) else next in words && There(words, NextWord(next), lst / 2)
  }

  lemma {:induction false} EndsIff(s: State, next: Word, lst: nat, rd: nat)
    requires rd + Bits(lst) <= |s.registers|
    ensures Stored(s, next, lst, rd).1 <==> There(s.memory.Keys, next, lst)
    ensures Loaded(s, next, lst, rd).1 <==> There(s.memory.Keys, next, lst)
    ensures Loaded(s, next, lst, rd).0.memory == s.memory
    ensures Stored(s, next, lst, rd).0.memory.Keys == s.memory.Keys
    ensures Stored(s, next, lst, rd).0.registers == s.registers && Stored(s, next, lst, rd).0.pc == s.pc
    decreases lst
  {
    if lst != 0 {
      if lst % 2 == 0 {
        EndsIff(s, next, lst / 2, rd + 1);
      } else if next in s.memory {
        var s' := s.(memory := s.memory[next := s.registers[rd]]);
        assert s'.memory.Keys == s.memory.Keys;
        EndsIff(s', NextWord(next), lst / 2, rd + 1);
        EndsIff(LoadedOne(s, next, rd), NextWord(next), lst / 2, rd + 1);
      }
    }
  }

  lemma {:induction false} ThereIff(words: set<Word>, next: Word, lst: nat, n: nat)
    requires Bits(lst) <= n
    ensures There(words, next, lst) <==> forall j :: 0 <= j < n && BitAt(lst, j) ==> WordAt(next, lst, j) in words
    decreases n
  {
    if lst == 0 {
      forall j | 0 <= j < n ensures !BitAt(lst, j) { NoBit(j); }
    } else {
      var next' := if lst % 2 == 1 then NextWord(next) else next;
      ThereIff(words, next', lst / 2, n - 1);
      forall j | 0 <= j < n
        ensures WordAt(next, lst, j) == if j == 0 then next else WordAt(next', lst / 2, j - 1)
      {
        WordAtHalf(next, lst, j);
      }
      if forall j :: 0 <= j < n && BitAt(lst, j) ==> WordAt(next, lst, j) in words {
        forall j | 0 <= j < n - 1 && BitAt(lst / 2, j) ensures WordAt(next', lst / 2, j) in words {
          assert BitAt(lst, j + 1);
        }
        assert lst % 2 == 1 ==> BitAt(lst, 0);
      }
    }
  }

  lemma {:induction false} SavedIff(memory: map<Word, Word>, next: Word, registers: seq<Word>, lst: nat, rd: nat, n: nat)
    requires Bits(lst) <= n && rd + n <= |registers|
    ensures Saved(memory, next, registers, lst, rd) <==>
      forall j :: 0 <= j < n && BitAt(lst, j) ==> WordAt(next, lst, j) in memory && memory[WordAt(next, lst, j)] == registers[rd + j]
    decreases n
  {
    if lst == 0 {
      forall j | 0 <= j < n ensures !BitAt(lst, j) { NoBit(j); }
    } else {
      var next' := if lst % 2 == 1 then NextWord(next) else next;
      SavedIff(memory, next', registers, lst / 2, rd + 1, n - 1);
      forall j | 0 <= j < n
        ensures WordAt(next, lst, j) == if j == 0 then next else WordAt(next', lst / 2, j - 1)
      {
        WordAtHalf(next, lst, j);
      }
      if forall j :: 0 <= j < n && BitAt(lst, j) ==> WordAt(next, lst, j) in memory && memory[WordAt(next, lst, j)] == registers[rd + j] {
        forall j | 0 <= j < n - 1 && BitAt(lst / 2, j)
          ensures WordAt(next', lst / 2, j) in memory && memory[WordAt(next', lst / 2, j)] == registers[rd + 1 + j]
        {
          assert BitAt(lst, j + 1);
        }
        assert lst % 2 == 1 ==> BitAt(lst, 0);
      }
    }
  }

  /** A store leaves all other words alone. */
  lemma {:induction false} StoredElsewhere(s: State, next: Word, lst: nat, rd: nat, a: Word)
    requires rd + Bits(lst) <= |s.registers| && a in s.memory
    requires forall j :: 0 <= j < Bits(lst) && BitAt(lst, j) ==> WordAt(next, lst, j) != a
    ensures var t := Stored(s, next, lst, rd).0; a in t.memory && t.memory[a] == s.memory[a]
    decreases lst
  {
    if lst != 0 && (lst % 2 == 0 || next in s.memory) {
      var next' := if lst % 2 == 1 then NextWord(next) else next;
      forall j | 0 <= j < Bits(lst / 2) && BitAt(lst / 2, j) ensures WordAt(next', lst / 2, j) != a {
        WordAtHalf(next, lst, j + 1);
        assert BitAt(lst, j + 1);
      }
      if lst % 2 == 0 {
        StoredElsewhere(s, next, lst / 2, rd + 1, a);
      } else {
        WordAtHalf(next, lst, 0);
        assert BitAt(lst, 0);
        StoredElsewhere(s.(memory := s.memory[next := s.registers[rd]]), NextWord(next), lst / 2, rd + 1, a);
      }
    }
  }

  /** Each register in the list takes the next word. */
  lemma WordNext(next: Word, lst: nat, j: nat)
    ensures WordAt(next, lst, j + 1) as int == (WordAt(next, lst, j) as int + if BitAt(lst, j) then 4 else 0) % 0x1_0000_0000
  {
    RankNext(lst, j);
    var step := if BitAt(lst, j) then 4 else 0;
    assert 4 * Rank(lst, j + 1) == 4 * Rank(lst, j) + step;
    WrapAdd(next + 4 * Rank(lst, j), step);
  }

  /** With an increment the first word is at the base, or behind it if that is stepped first; with a decrement the
      last one is so. */
  lemma EndWords(base: Word, num: nat, preIndex: bool, up: bool)
    ensures var first := FirstAddress(base, num, preIndex, up);
      && (up ==> first as int == (base as int + if preIndex then 4 else 0) % 0x1_0000_0000)
      && (!up ==> Wrap(first as int + 4 * num) as int == (base as int + if preIndex then 0 else 4) % 0x1_0000_0000)
      && (up ==> WrittenBack(base, num, up) == Wrap(Wrap(first as int + 4 * num) as int - if preIndex then 4 else 0))
      && (!up ==> WrittenBack(base, num, up) == Wrap(first as int - if preIndex then 0 else 4))
  {
    if up {
      var step := if preIndex then 4 else 0;
      WrapAdd(base as int + step, 4 * num);
      WrapAdd(base as int + step + 4 * num, -step);
    } else {
      var step := if preIndex then 0 else 4;
      WrapAdd(base as int - 4 * num + step, 4 * num);
      WrapAdd(base as int - 4 * num + step, -step);
    }
  }

  lemma WordsInOrder(base: Word, lst: nat, preIndex: bool, up: bool, words: seq<Word>)
    requires Bits(lst) <= 16 && |words| == 17
    requires forall j :: 0 <= j <= 16 ==> words[j] == WordAt(FirstAddress(base, Count(lst), preIndex, up), lst, j)
    ensures forall j :: 0 <= j < 16 ==> words[j + 1] as int == (words[j] as int + if BitAt(lst, j) then 4 else 0) % 0x1_0000_0000
    ensures up ==> words[0] as int == (base as int + if preIndex then 4 else 0) % 0x1_0000_0000
    ensures !up ==> words[16] as int == (base as int + if preIndex then 0 else 4) % 0x1_0000_0000
    ensures WrittenBack(base, Count(lst), up) as int ==
      (if up then words[16] as int - (if preIndex then 4 else 0) else words[0] as int - (if preIndex then 0 else 4)) % 0x1_0000_0000
  {
    var first := FirstAddress(base, Count(lst), preIndex, up);
    forall j | 0 <= j < 16
      ensures words[j + 1] as int == (words[j] as int + if BitAt(lst, j) then 4 else 0) % 0x1_0000_0000
    {
      WordNext(first, lst, j);
    }
    RankAll(lst, 16);
    EndWords(base, Count(lst), preIndex, up);
    WordAtHalf(first, lst, 0);
  }

  /** A store or a load ends well exactly if all its words are there. */
  lemma OkIff(s: State, next: Word, lst: nat, words: seq<Word>)
    requires |s.registers| == 17 && Bits(lst) <= 16 && |words| == 17
    requires forall j :: 0 <= j <= 16 ==> words[j] == WordAt(next, lst, j)
    ensures Stored(s, next, lst, 0).1 == Loaded(s, next, lst, 0).1
    ensures Stored(s, next, lst, 0).1 <==> forall j :: 0 <= j < 16 && BitAt(lst, j) ==> words[j] in s.memory
  {
    EndsIff(s, next, lst, 0);
    ThereIff(s.memory.Keys, next, lst, 16);
  }

  /** What a store leaves. */
  lemma StoredWords(s: State, next: Word, lst: nat, words: seq<Word>)
    requires |s.registers| == 17 && Bits(lst) <= 16 && |words| == 17 && Stored(s, next, lst, 0).1
    requires forall j :: 0 <= j <= 16 ==> words[j] == WordAt(next, lst, j)
    ensures var t := Stored(s, next, lst, 0).0;
      && t.registers == s.registers && t.pc == s.pc && t.memory.Keys == s.memory.Keys
      && (forall j :: 0 <= j < 16 && BitAt(lst, j) ==> words[j] in t.memory && t.memory[words[j]] == s.registers[j])
      && (forall a :: a in t.memory && (forall j :: 0 <= j < 16 && BitAt(lst, j) ==> words[j] != a) ==>
            t.memory[a] == s.memory[a])
  {
    var t := Stored(s, next, lst, 0).0;
    EndsIff(s, next, lst, 0);
    StoredIsSaved(s, next, lst, 0);
    SavedIff(t.memory, next, s.registers, lst, 0, 16);
    forall a | a in t.memory && (forall j :: 0 <= j < 16 && BitAt(lst, j) ==> words[j] != a)
      ensures t.memory[a] == s.memory[a]
    {
      forall j | 0 <= j < Bits(lst) && BitAt(lst, j) ensures WordAt(next, lst, j) != a { }
      StoredElsewhere(s, next, lst, 0, a);
    }
  }

  /** What a load brings. */
  lemma LoadedWords(s: State, next: Word, lst: nat, words: seq<Word>)
    requires |s.registers| == 17 && Bits(lst) <= 16 && |words| == 17 && Loaded(s, next, lst, 0).1
    requires forall j :: 0 <= j <= 16 ==> words[j] == WordAt(next, lst, j)
    ensures var t := Loaded(s, next, lst, 0).0;
      && t.memory == s.memory
      && (forall j :: 0 <= j < 16 && BitAt(lst, j) ==> words[j] in s.memory && t.registers[j] == s.memory[words[j]])
      && (forall j :: 0 <= j < 16 && !BitAt(lst, j) ==> t.registers[j] == s.registers[j])
      && (BitAt(lst, 15) ==> t.pc == s.memory[words[15]]) && (!BitAt(lst, 15) ==> t.pc == s.pc)
  {
    OkIff(s, next, lst, words);
    var registers := seq(17, j requires 0 <= j < 17 => if words[j] in s.memory then s.memory[words[j]] else s.registers[j]);
    SavedIff(s.memory, next, registers, lst, 0, 16);
    LoadedFromSaved(s, next, registers, lst, 0);
  }

  /** What a transfer of stores leaves, and what one of loads does. */
  lemma StoreTransferred(s: State, rn: nat, lst: nat, preIndex: bool, up: bool, writeBack: bool, words: seq<Word>)
    requires |s.registers| == 17 && rn < 16 && Bits(lst) <= 16 && |words| == 17
    requires forall j :: 0 <= j <= 16 ==> words[j] == WordAt(FirstAddress(s.registers[rn], Count(lst), preIndex, up), lst, j)
    requires Transfer(s, rn, lst, false, preIndex, up, false, writeBack).1
    ensures var t := Transfer(s, rn, lst, false, preIndex, up, false, writeBack).0;
      && t.memory.Keys == s.memory.Keys && t.pc == s.pc
      && (forall j :: 0 <= j < 16 && BitAt(lst, j) ==> words[j] in t.memory && t.memory[words[j]] == s.registers[j])
      && (forall a :: a in t.memory && (forall j :: 0 <= j < 16 && BitAt(lst, j) ==> words[j] != a) ==>
            t.memory[a] == s.memory[a])
      && (forall j :: 0 <= j < 16 && (j != rn || !writeBack) ==> t.registers[j] == s.registers[j])
      && (writeBack ==> t.registers[rn] == WrittenBack(s.registers[rn], Count(lst), up))
  {
    StoredWords(s, FirstAddress(s.registers[rn], Count(lst), preIndex, up), lst, words);
  }

  lemma LoadTransferred(s: State, rn: nat, lst: nat, preIndex: bool, up: bool, writeBack: bool, words: seq<Word>)
    requires |s.registers| == 17 && rn < 16 && Bits(lst) <= 16 && |words| == 17
    requires forall j :: 0 <= j <= 16 ==> words[j] == WordAt(FirstAddress(s.registers[rn], Count(lst), preIndex, up), lst, j)
    requires Transfer(s, rn, lst, true, preIndex, up, false, writeBack).1
    ensures var t := Transfer(s, rn, lst, true, preIndex, up, false, writeBack).0;
      && t.memory == s.memory
      && (forall j :: 0 <= j < 16 && (j != rn || !writeBack) && BitAt(lst, j) ==>
            words[j] in s.memory && t.registers[j] == s.memory[words[j]])
      && (forall j :: 0 <= j < 16 && (j != rn || !writeBack) && !BitAt(lst, j) ==> t.registers[j] == s.registers[j])
      && (BitAt(lst, 15) ==> words[15] in s.memory && t.pc == s.memory[words[15]])
      && (!BitAt(lst, 15) ==> t.pc == s.pc)
      && (writeBack ==> t.registers[rn] == WrittenBack(s.registers[rn], Count(lst), up))
  {
    LoadedWords(s, FirstAddress(s.registers[rn], Count(lst), preIndex, up), lst, words);
  }

  // ---------- The processor ----------

  class Processor {
    const registers: array<Word>
    var pc: Word
    var memory: map<Word, Word>

    constructor (memory: map<Word, Word>)
      ensures fresh(registers) && registers.Length == 17 && this.memory == memory
    {
      registers := new Word[17](_ => 0);
      pc := 0;
      this.memory := memory;
    }

    function Now(): State
      reads this, registers
    {
      State(registers[..], pc, memory)
    }

    /** parse_BlockDataTransfer.  Register j takes the word at words[j] if it is in the list. */
    method BlockDataTransfer(rn: nat, list: nat, load: bool, preIndex: bool, up: bool, loadPsr: bool,
            writeBack: bool) returns (ok: bool, ghost words: seq<Word>)
      requires registers.Length == 17 && rn < 16 && Bits(list) <= 16
      modifies this, registers
      ensures (Now(), ok) == Transfer(old(Now()), rn, list, load, preIndex, up, loadPsr, writeBack)
      ensures |words| == 17
      ensures forall j :: 0 <= j < 16 ==> words[j + 1] as int == (words[j] as int + if BitAt(list, j) then 4 else 0) % 0x1_0000_0000
      ensures up ==> words[0] as int == (old(registers[rn]) as int + if preIndex then 4 else 0) % 0x1_0000_0000
      ensures !up ==> words[16] as int == (old(registers[rn]) as int + if preIndex then 0 else 4) % 0x1_0000_0000
      ensures ok <==> !loadPsr && forall j :: 0 <= j < 16 && BitAt(list, j) ==> words[j] in old(memory)
      ensures ok && !load ==>
        && memory.Keys == old(memory).Keys
        && (forall j :: 0 <= j < 16 && BitAt(list, j) ==> words[j] in memory && memory[words[j]] == old(registers[j]))
        && (forall a :: a in memory && (forall j :: 0 <= j < 16 && BitAt(list, j) ==> words[j] != a) ==>
              memory[a] == old(memory)[a])
      ensures ok && load ==>
        && memory == old(memory)
        && (forall j :: 0 <= j < 16 && (j != rn || !writeBack) && BitAt(list, j) ==>
              words[j] in memory && registers[j] == memory[words[j]])
        && (BitAt(list, 15) ==> words[15] in memory && pc == memory[words[15]])
      ensures ok ==>
        && (forall j :: 0 <= j < 16 && (j != rn || !writeBack) && (!load || !BitAt(list, j)) ==>
              registers[j] == old(registers[j]))
        && (!load || !BitAt(list, 15) ==> pc == old(pc))
        && (writeBack ==>
              registers[rn] as int == (if up then words[16] as int - (if preIndex then 4 else 0) else words[0] as int - (if preIndex then 0 else 4)) % 0x1_0000_0000)
    {
      ghost var s := Now();
      ghost var next := FirstAddress(registers[rn], Count(list), preIndex, up);
      ok := DoTransfer(rn, list, load, preIndex, up, loadPsr, writeBack);
      words := seq(17, j requires 0 <= j < 17 => WordAt(next, list, j));
      WordsInOrder(s.registers[rn], list, preIndex, up, words);
      OkIff(s, next, list, words);
      if ok {
        if load {
          LoadTransferred(s, rn, list, preIndex, up, writeBack, words);
        } else {
          StoreTransferred(s, rn, list, preIndex, up, writeBack, words);
        }
        assert registers[..] == Now().registers;
      }
    }

    /** The same in terms of one transfer. */
    method DoTransfer(rn: nat, list: nat, load: bool, preIndex: bool, up: bool, loadPsr: bool,
            writeBack: bool) returns (ok: bool)
      requires registers.Length == 17 && rn < 16 && Bits(list) <= 16
      modifies this, registers
      ensures (Now(), ok) == Transfer(old(Now()), rn, list, load, preIndex, up, loadPsr, writeBack)
    {
      var address := registers[rn];
      var num := CountRegisters(list);
      var addressNext: Word;
      if up {
        addressNext := address;
        if preIndex { addressNext := NextWord(addressNext); }
      } else {
        addressNext := Wrap(address - num * 4);
        if !preIndex { addressNext := NextWord(addressNext); }
        WrapAdd(address - num * 4, 4);
      }
      ok := MoveRegisters(list, addressNext, load);
      if !ok || loadPsr { return false; }
      if writeBack {
        registers[rn] := if up then Wrap(address + 4 * num) else Wrap(address - 4 * num);
      }
    }

    method CountRegisters(list: nat) returns (num: nat)
      ensures num == Count(list)
    {
      num := 0;
      var lst := list;
      while lst != 0
        invariant num + Count(lst) == Count(list)
      {
        if lst % 2 == 1 { num := num + 1; }
        lst := lst / 2;
      }
    }

    method MoveRegisters(list: nat, first: Word, load: bool) returns (ok: bool)
      requires registers.Length == 17 && Bits(list) <= 16
      modifies this, registers
      ensures (Now(), ok) == if load then Loaded(old(Now()), first, list, 0) else Stored(old(Now()), first, list, 0)
    {
      var lst, rd, addressNext := list, 0, first;
      while lst != 0
        invariant rd + Bits(lst) <= 16
        invariant (if load then Loaded(Now(), addressNext, lst, rd) else Stored(Now(), addressNext, lst, rd))
          == if load then Loaded(old(Now()), first, list, 0) else Stored(old(Now()), first, list, 0)
      {
        if lst % 2 == 1 {
          if addressNext !in memory { return false; }
          if load {
            registers[rd] := memory[addressNext];
            if rd == REGISTER_PC { pc := registers[rd]; }
          } else {
            memory := memory[addressNext := registers[rd]];
          }
          addressNext := NextWord(addressNext);
        }
        rd := rd + 1;
        lst := lst / 2;
      }
      ok := true;
    }
  }
}
