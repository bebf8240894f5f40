/** Sets of printers as sums of powers of two (hw4/src/main.c:675-685, 798-799). */
module PrinterSets {
  import opened Sequences

  function Pow2(n: nat): (r: nat)
    ensures r > 0
  {
    if n == 0 then 1 else 2 * Pow2(n - 1)
  }

  /** Whether set & pow(2, id) is not zero. */
  predicate Bit(n: nat, id: nat) {
    if id == 0 then n % 2 == 1 else Bit(n / 2, id - 1)
  }

  const ANY_PRINTER: nat := 0xffffffff

  /** What line 680 adds up for the named printers. */
  function Mask(ids: seq<nat>): nat {
    if ids == [] then 0 else Mask(ids[..|ids| - 1]) + Pow2(ids[|ids| - 1])
  }

  /** Adding a power of two whose bit is clear sets that bit and no other. */
  lemma {:induction false} AddBit(n: nat, a: nat, id: nat)
    requires !Bit(n, a)
    ensures Bit(n + Pow2(a), id) <==> Bit(n, id) || id == a
    decreases a
  {
    if a == 0 {
      assert (n + 1) % 2 == 1 && (n + 1) / 2 == n / 2;
    } else {
      var p := Pow2(a - 1);
      assert (n + 2 * p) % 2 == n % 2 && (n + 2 * p) / 2 == n / 2 + p;
      if id > 0 {
        AddBit(n / 2, a - 1, id - 1);
      }
    }
  }

  lemma {:induction false} NoBits(id: nat)
    ensures !Bit(0, id)
    decreases id
  {
    if id > 0 {
      NoBits(id - 1);
    }
  }

  /** A sum of different powers has exactly their bits. */
  lemma {:induction false} MaskHasBits(ids: seq<nat>, id: nat)
    requires Distinct(ids)
    ensures Bit(Mask(ids), id) <==> id in ids
    decreases |ids|
  {
    if ids == [] {
      NoBits(id);
    } else {
      var rest, a := ids[..|ids| - 1], ids[|ids| - 1];
      assert ids == rest + [a];
      MaskHasBits(rest, a);
      MaskHasBits(rest, id);
      AddBit(Mask(rest), a, id);
    }
  }

  /** Numbers with the same bits are equal. */
  lemma {:induction false} SameBits(x: nat, y: nat)
    requires forall i: nat :: Bit(x, i) == Bit(y, i)
    ensures x == y
    decreases x + y
  {
    if x + y > 0 {
      assert Bit(x, 0) == Bit(y, 0);
      forall i: nat ensures Bit(x / 2, i) == Bit(y / 2, i) {
        assert Bit(x, i + 1) == Bit(y, i + 1);
      }
      SameBits(x / 2, y / 2);
    }
  }

  ghost function Dedupe(ids: seq<nat>): (d: seq<nat>)
    ensures Distinct(d) && forall id :: id in d <==> id in ids
  {
    if ids == [] then [] else
      var rest, a := ids[..|ids| - 1], ids[|ids| - 1];
      assert ids == rest + [a];
      if a in rest then Dedupe(rest) else Dedupe(rest) + [a]
  }

  lemma {:induction false} DedupeIsLess(ids: seq<nat>)
    ensures Mask(Dedupe(ids)) <= Mask(ids)
    ensures Mask(Dedupe(ids)) == Mask(ids) ==> Distinct(ids)
    decreases |ids|
  {
    if ids != [] {
      var rest, a := ids[..|ids| - 1], ids[|ids| - 1];
      assert ids == rest + [a];
      DedupeIsLess(rest);
      assert (Dedupe(rest) + [a])[..|Dedupe(rest)|] == Dedupe(rest);
    }
  }

  /** The sum stands for the named set exactly when no printer is named twice. */
  lemma MaskIsNamedSet(ids: seq<nat>)
    ensures (forall id: nat :: Bit(Mask(ids), id) <==> id in ids) <==> Distinct(ids)
  {
    if Distinct(ids) {
      forall id: nat ensures Bit(Mask(ids), id) <==> id in ids {
        MaskHasBits(ids, id);
      }
    }
    if forall id: nat :: Bit(Mask(ids), id) <==> id in ids {
      var d := Dedupe(ids);
      forall id: nat ensures Bit(Mask(ids), id) == Bit(Mask(d), id) {
        MaskHasBits(d, id);
      }
      SameBits(Mask(ids), Mask(d));
      DedupeIsLess(ids);
    }
  }

  /** Naming the first printer twice makes the second one eligible instead. */
  lemma NamedTwice()
    ensures Mask([0, 0]) == 2 && !Bit(2, 0) && Bit(2, 1)
  {
    assert [0, 0][..1] == [0] && [0][..0] == [];
    assert Mask([0]) == 1;
    assert Bit(2, 1) == Bit(1, 0);
  }

  lemma {:induction false} AllOnes(k: nat, id: nat)
    requires id < k
    ensures Bit(Pow2(k) - 1, id)
    decreases k
  {
    assert (Pow2(k) - 1) % 2 == 1 && (Pow2(k) - 1) / 2 == Pow2(k - 1) - 1;
    if id > 0 {
      AllOnes(k - 1, id - 1);
    }
  }

  lemma {:induction false} Pow2Plus(a: nat, b: nat)
    ensures Pow2(a + b) == Pow2(a) * Pow2(b)
    decreases b
  {
    if b > 0 {
      Pow2Plus(a, b - 1);
    }
  }

  /** ANY_PRINTER names every printer. */
  lemma AnyPrinter(id: nat)
    requires id < 32
    ensures Bit(ANY_PRINTER, id)
  {
    assert Pow2(4) == 16 by { assert Pow2(2) == 4; }
    Pow2Plus(4, 4);
    Pow2Plus(8, 8);
    Pow2Plus(16, 16);
    AllOnes(32, id);
  }
}
