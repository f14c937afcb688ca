/** `getFaultStates`: the fault word a motor status reports, read as the list
    of fault flags it raises. Bit i of the word stands for the i-th entry of a
    table of sixteen flag names; the list holds the name of every bit that is
    set, lowest bit first.

    The source applies JavaScript's `&` to the word, which reads a number as
    a 32-bit two's-complement integer; for an integral number bit i of that
    integer is bit i of the number itself, so the word is an `int` here and
    its bits are those of its two's-complement form. */
module FaultCodes {
  import opened Bytes

  /** The flag names, indexed by bit. */
  const FAULT_BITS: seq<string> := [
    "overVoltage", "underVoltage", "motorOverTemp", "moduleOverTemp",
    "moduleOverCurrent", "overPeakCurrent", "overLoad", "motorLostPhase",
    "currentUnbalance", "motorStall", "startupFailed", "overSpeed",
    "reserve12", "reserve13", "currentOffset", "voltageOffset"]

  /** The number of flags, and so of bits read. */
  const FLAG_COUNT: nat := 16

  /** Bit `i` of `code` (floor division, so negative words read as their
      two's complement). */
  predicate Bit(code: int, i: nat)
    decreases i
  {
    if i == 0 then code % 2 == 1 else Bit(code / 2, i - 1)
  }

  /** Adding a multiple of 2^k leaves the bits below k as they are. */
  lemma {:induction false} BitBelow(code: int, j: int, k: nat, i: nat)
    requires i < k
    ensures Bit(code + Pow2(k) * j, i) == Bit(code, i)
    decreases i
  {
    var y := Pow2(k - 1) * j;
    assert Pow2(k) * j == 2 * y;
    if i > 0 {
      assert (code + 2 * y) / 2 == code / 2 + y;
      BitBelow(code / 2, j, k - 1, i - 1);
    }
  }

  /** The bits set in `code` below bit `n`, lowest first. */
  function Flags(code: int, n: nat): (ix: seq<nat>)
    requires n <= FLAG_COUNT
    ensures forall k :: 0 <= k < |ix| ==> ix[k] < n
  {
    if n == 0 then [] else Flags(code, n - 1) + (if Bit(code, n - 1) then [n - 1] else [])
  }

  /** Every flag below bit `n` is a set bit. */
  lemma {:induction false} FlagsAreSet(code: int, n: nat)
    requires n <= FLAG_COUNT
    ensures forall k :: 0 <= k < |Flags(code, n)| ==> Bit(code, Flags(code, n)[k])
  {
    if n > 0 {
      FlagsAreSet(code, n - 1);
      var ix := Flags(code, n - 1);
      if Bit(code, n - 1) {
        var iy := ix + [n - 1];
        assert Flags(code, n) == iy;
        assert forall k :: 0 <= k < |ix| ==> iy[k] == ix[k];
      } else {
        assert Flags(code, n) == ix;
      }
    }
  }

  /** Every set bit below bit `n` is a flag. */
  lemma {:induction false} SetBitsAreFlags(code: int, n: nat)
    requires n <= FLAG_COUNT
    ensures forall i :: 0 <= i < n && Bit(code, i) ==> i in Flags(code, n)
  {
    if n > 0 {
      SetBitsAreFlags(code, n - 1);
      var ix := Flags(code, n - 1);
      if Bit(code, n - 1) {
        var iy := ix + [n - 1];
        assert Flags(code, n) == iy;
        forall i | 0 <= i < n && Bit(code, i)
          ensures i in iy
        {
          if i < n - 1 {
            var k :| 0 <= k < |ix| && ix[k] == i;
            assert iy[k] == i;
          } else {
            assert iy[|ix|] == i;
          }
        }
      } else {
        assert Flags(code, n) == ix;
      }
    }
  }

  /** The flags are listed lowest bit first, each once. */
  lemma {:induction false} FlagsAscending(code: int, n: nat)
    requires n <= FLAG_COUNT
    ensures forall j, k :: 0 <= j < k < |Flags(code, n)| ==> Flags(code, n)[j] < Flags(code, n)[k]
  {
    if n > 0 {
      FlagsAscending(code, n - 1);
      var ix := Flags(code, n - 1);
      if Bit(code, n - 1) {
        var iy := ix + [n - 1];
        assert Flags(code, n) == iy;
        assert forall k :: 0 <= k < |ix| ==> iy[k] == ix[k] < n - 1;
        assert iy[|ix|] == n - 1;
      } else {
        assert Flags(code, n) == ix;
      }
    }
  }

  /** The flags of a word are its lowest bit's, then those of the word
      shifted right by one, moved up a place. */
  lemma {:induction false} FlagsCountShift(code: int, n: nat)
    requires 1 <= n <= FLAG_COUNT
    ensures |Flags(code, n)| == code % 2 + |Flags(code / 2, n - 1)|
  {
    if n > 1 {
      FlagsCountShift(code, n - 1);
    }
  }

  /** The number of bits set in a non-negative word. */
  function PopCount(x: nat): nat {
    if x == 0 then 0 else x % 2 + PopCount(x / 2)
  }

  /** Below bit `n`, a word that fits in `n` bits raises as many flags as it
      has bits set. */
  lemma {:induction false} FlagsCount(x: nat, n: nat)
    requires n <= FLAG_COUNT && x < Pow2(n)
    ensures |Flags(x, n)| == PopCount(x)
  {
    if n > 0 {
      FlagsCountShift(x, n);
      FlagsCount(x / 2, n - 1);
    }
  }

  lemma {:induction false} Pow2Add(a: nat, b: nat)
    ensures Pow2(a + b) == Pow2(a) * Pow2(b)
  {
    if a > 0 {
      Pow2Add(a - 1, b);
      assert Pow2(a + b) == 2 * Pow2(a - 1 + b);
    }
  }

  lemma Pow2Sixteen()
    ensures Pow2(FLAG_COUNT) == 0x1_0000
  {
    assert Pow2(4) == 16;
    Pow2Add(4, 4);
    Pow2Add(8, 8);
  }

  /** A table of flag names: one name per bit read. */
  predicate IsTable(table: seq<string>) {
    |table| == FLAG_COUNT
  }

  /** No two bits share a name. */
  predicate Distinct(table: seq<string>) {
    forall i, j :: 0 <= i < j < |table| ==> table[i] != table[j]
  }

  /** The names, in `table`, of bit indices, in the same order. */
  function Names(table: seq<string>, ix: seq<nat>): (names: seq<string>)
    requires forall k :: 0 <= k < |ix| ==> ix[k] < |table|
    ensures |names| == |ix|
  {
    if |ix| == 0 then [] else Names(table, ix[..|ix| - 1]) + [table[ix[|ix| - 1]]]
  }

  /** Each name is the name of the index in the same place. */
  lemma {:induction false} NamesAt(table: seq<string>, ix: seq<nat>)
    requires forall k :: 0 <= k < |ix| ==> ix[k] < |table|
    ensures forall k :: 0 <= k < |ix| ==> Names(table, ix)[k] == table[ix[k]]
  {
    if |ix| > 0 {
      var front := ix[..|ix| - 1];
      NamesAt(table, front);
      assert forall k :: 0 <= k < |front| ==> ix[k] == front[k];
    }
  }

  /** The flag names of the source are sixteen distinct names. */
  lemma FaultBitsTable()
    ensures IsTable(FAULT_BITS) && Distinct(FAULT_BITS)
  {
    forall i, j | 0 <= i < j < |FAULT_BITS|
      ensures FAULT_BITS[i] != FAULT_BITS[j]
    {
      FaultNamesDistinct(i, j);
    }
  }

  lemma FaultNamesDistinct(i: nat, j: nat)
    requires i < j < FLAG_COUNT
    ensures FAULT_BITS[i] != FAULT_BITS[j]
  {
  }

  /** The names of the bits set below bit `n`, as the loop of
      `getFaultStates` builds them. */
  function FaultNames(table: seq<string>, code: int, n: nat): seq<string>
    requires n <= |table|
  {
    if n == 0 then [] else FaultNames(table, code, n - 1) + (if Bit(code, n - 1) then [table[n - 1]] else [])
  }

  /** Naming one more index appends its name. */
  lemma NamesAppend(table: seq<string>, ix: seq<nat>, j: nat)
    requires forall k :: 0 <= k < |ix| ==> ix[k] < |table|
    requires j < |table|
    ensures Names(table, ix + [j]) == Names(table, ix) + [table[j]]
  {
    assert (ix + [j])[..|ix|] == ix;
  }

  /** The names listed are those of the set bits, in bit order. */
  lemma {:induction false} FaultNamesOfFlags(table: seq<string>, code: int, n: nat)
    requires IsTable(table) && n <= FLAG_COUNT
    ensures FaultNames(table, code, n) == Names(table, Flags(code, n))
  {
    if n > 0 {
      FaultNamesOfFlags(table, code, n - 1);
      var ix := Flags(code, n - 1);
      if Bit(code, n - 1) {
        assert Flags(code, n) == ix + [n - 1];
        NamesAppend(table, ix, n - 1);
      } else {
        assert Flags(code, n) == ix;
      }
    }
  }

  /** `getFaultStates(errorCode)`: the name of every set bit among the
      sixteen, in ascending bit order; higher bits are not read. */
  method GetFaultStates(code: int) returns (result: seq<string>)
    ensures result == Names(FAULT_BITS, Flags(code, FLAG_COUNT))
    ensures |result| == PopCount(code % 0x1_0000)
    ensures forall i :: 0 <= i < FLAG_COUNT ==> (FAULT_BITS[i] in result <==> Bit(code, i))
  {
    result := [];
    var i := 0;
    while i < FLAG_COUNT
      invariant 0 <= i <= FLAG_COUNT
      invariant result == FaultNames(FAULT_BITS, code, i)
    {
      if Bit(code, i) {
        result := result + [FAULT_BITS[i]];
      }
      i := i + 1;
    }
    FaultBitsTable();
    FaultNamesOfFlags(FAULT_BITS, code, FLAG_COUNT);
    FaultStatesCount(FAULT_BITS, code);
    NamesOfFlags(FAULT_BITS, code);
  }

  /** The list is as long as the low sixteen bits have bits set. */
  lemma FaultStatesCount(table: seq<string>, code: int)
    requires IsTable(table)
    ensures |Names(table, Flags(code, FLAG_COUNT))| == PopCount(code % 0x1_0000)
  {
    HighBitsIgnored(code);
    Pow2Sixteen();
    FlagsCount(code % 0x1_0000, FLAG_COUNT);
  }

  /** With distinct names, a flag's name is listed exactly when its bit is
      set. */
  lemma NamesOfFlags(table: seq<string>, code: int)
    requires IsTable(table) && Distinct(table)
    ensures forall i :: 0 <= i < FLAG_COUNT ==>
      (table[i] in Names(table, Flags(code, FLAG_COUNT)) <==> Bit(code, i))
  {
    var ix := Flags(code, FLAG_COUNT);
    var names := Names(table, ix);
    FlagsAreSet(code, FLAG_COUNT);
    SetBitsAreFlags(code, FLAG_COUNT);
    NamesAt(table, ix);
    forall i | 0 <= i < FLAG_COUNT
      ensures table[i] in names <==> Bit(code, i)
    {
      if Bit(code, i) {
        assert i in ix;
        var k :| 0 <= k < |ix| && ix[k] == i;
        assert names[k] == table[i];
      }
      if table[i] in names {
        var k :| 0 <= k < |names| && names[k] == table[i];
        assert names[k] == table[ix[k]];
        assert ix[k] == i;
        assert Bit(code, ix[k]);
      }
    }
  }

  /** Bits 16 and above never change the list: a word reads as its low
      sixteen bits. */
  lemma HighBitsIgnored(code: int)
    ensures Flags(code, FLAG_COUNT) == Flags(code % 0x1_0000, FLAG_COUNT)
  {
    Pow2Sixteen();
    var low := code % 0x1_0000;
    assert code == low + Pow2(16) * (code / 0x1_0000);
    forall i | 0 <= i < FLAG_COUNT
      ensures Bit(code, i) == Bit(low, i)
    {
      BitBelow(low, code / 0x1_0000, 16, i);
    }
    FlagsAgree(code, low, FLAG_COUNT);
  }

  /** Words with the same bits below `n` have the same flags there. */
  lemma {:induction false} FlagsAgree(a: int, b: int, n: nat)
    requires n <= FLAG_COUNT
    requires forall i :: 0 <= i < n ==> Bit(a, i) == Bit(b, i)
    ensures Flags(a, n) == Flags(b, n)
  {
    if n > 0 {
      FlagsAgree(a, b, n - 1);
    }
  }

  /** A word with none of the sixteen bits set, 0 in particular, raises no
      flag. */
  lemma NoBitsNoFlags(code: int)
    requires code % 0x1_0000 == 0
    ensures Flags(code, FLAG_COUNT) == []
  {
    HighBitsIgnored(code);
    ZeroHasNoBits(FLAG_COUNT);
  }

  lemma {:induction false} ZeroHasNoBits(n: nat)
    requires n <= FLAG_COUNT
    ensures Flags(0, n) == []
  {
    if n > 0 {
      ZeroHasNoBits(n - 1);
      BitOfZero(n - 1);
    }
  }

  lemma {:induction false} BitOfZero(i: nat)
    ensures !Bit(0, i)
  {
    if i > 0 {
      BitOfZero(i - 1);
    }
  }

  lemma {:induction false} BitOfPow2(i: nat, j: nat)
    ensures Bit(Pow2(i), j) <==> i == j
    decreases i
  {
    if i == 0 {
      if j > 0 {
        BitOfZero(j - 1);
      }
    } else if j > 0 {
      assert Pow2(i) / 2 == Pow2(i - 1);
      BitOfPow2(i - 1, j - 1);
    }
  }

  /** Below bit `n`, the word 2^i has bit `i` alone. */
  lemma {:induction false} FlagsOfPow2(i: nat, n: nat)
    requires n <= FLAG_COUNT
    ensures Flags(Pow2(i), n) == if i < n then [i] else []
  {
    if n > 0 {
      FlagsOfPow2(i, n - 1);
      BitOfPow2(i, n - 1);
    }
  }

  /** A word with the single bit `i` set raises that bit's flag and no
      other. */
  lemma SingleFlag(i: nat)
    requires i < FLAG_COUNT
    ensures Names(FAULT_BITS, Flags(Pow2(i), FLAG_COUNT)) == [FAULT_BITS[i]]
  {
    FlagsOfPow2(i, FLAG_COUNT);
  }
}
