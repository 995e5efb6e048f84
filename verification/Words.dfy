/** Shared definitions, and bitwise operations on machine words held as natural numbers. */
module Words {
  datatype Option<T> = None | Some(value: T)

  function Min(a: nat, b: nat): nat { if a <= b then a else b }

  const TWO_32: nat := 0x1_0000_0000
  const TWO_40: nat := 0x100_0000_0000
  const TWO_48: nat := 0x1_0000_0000_0000
  const TWO_52: nat := 0x10_0000_0000_0000
  const TWO_64: nat := 0x1_0000_0000_0000_0000

  function Or(a: nat, b: nat): nat {
    if a == 0 then b else if b == 0 then a
    else 2 * Or(a / 2, b / 2) + (if a % 2 == 1 || b % 2 == 1 then 1 else 0)
  }

  function And(a: nat, b: nat): nat {
    if a == 0 || b == 0 then 0
    else 2 * And(a / 2, b / 2) + (if a % 2 == 1 && b % 2 == 1 then 1 else 0)
  }

  function Pow2(k: nat): nat { if k == 0 then 1 else 2 * Pow2(k - 1) }

  lemma {:induction false} OrPlusAnd(a: nat, b: nat)
    ensures Or(a, b) + And(a, b) == a + b
  {
    if a != 0 && b != 0 {
      OrPlusAnd(a / 2, b / 2);
    }
  }

  /** Setting the lowest bit. */
  lemma OrOne(a: nat)
    ensures Or(a, 1) == a + 1 - a % 2
  {
    OrPlusAnd(a, 1);
    assert And(a, 1) == a % 2;
  }

  lemma {:induction false} AndOfMultiple(a: nat, c: nat, n: nat)
    requires a < Pow2(n)
    ensures And(a, Pow2(n) * c) == 0
  {
    var b := Pow2(n) * c;
    if n != 0 && a != 0 && b != 0 {
      assert b == 2 * (Pow2(n - 1) * c);
      AndOfMultiple(a / 2, c, n - 1);
    }
  }

  lemma {:induction false} AndCommutes(a: nat, b: nat)
    ensures And(a, b) == And(b, a)
  {
    if a != 0 && b != 0 {
      AndCommutes(a / 2, b / 2);
    }
  }

  lemma Doubled(x: nat, y: nat)
    ensures (2 * x) * y == 2 * (x * y)
  {
  }

  /** A value confined to bits k..k+n-1 shares no bit with one that is clear there. */
  lemma {:induction false} AndOfField(field: nat, low: nat, high: nat, k: nat, n: nat)
    requires field < Pow2(n) && low < Pow2(k)
    ensures And(Pow2(k) * field, low + Pow2(k) * (Pow2(n) * high)) == 0
    decreases k
  {
    var a := Pow2(k) * field;
    var b := low + Pow2(k) * (Pow2(n) * high);
    if k == 0 {
      AndOfMultiple(field, high, n);
    } else if a != 0 && b != 0 {
      var x, y := Pow2(k - 1) * field, Pow2(k - 1) * (Pow2(n) * high);
      assert a == 2 * x by { Doubled(Pow2(k - 1), field); }
      assert b == low + 2 * y by { Doubled(Pow2(k - 1), Pow2(n) * high); }
      assert a / 2 == x && a % 2 == 0 && b / 2 == low / 2 + y;
      AndOfField(field, low / 2, high, k - 1, n);
    }
  }

  /** A multiple of 4096 and a number below it combine by addition. */
  lemma OrOfLowBits(page: nat, low: nat)
    requires page % 4096 == 0 && low < 4096
    ensures Or(page, low) == page + low
  {
    OrPlusAnd(page, low);
    AndCommutes(page, low);
    assert Pow2(12) == 4096;
    AndOfMultiple(low, page / 4096, 12);
  }

  /** A page address and a word of flags (no bit in 12..51) combine by addition. */
  lemma OrOfPageAndFlags(page: nat, flags: nat)
    requires page % 4096 == 0 && page < TWO_52
    requires flags / 4096 % TWO_40 == 0
    ensures Or(page, flags) == page + flags
  {
    assert Pow2(12) == 4096;
    assert Pow2(20) == 0x10_0000;
    assert Pow2(30) == 0x4000_0000;
    assert Pow2(40) == TWO_40;
    var high := flags / 4096 / TWO_40;
    AndOfField(page / 4096, flags % 4096, high, 12, 40);
    assert flags == flags % 4096 + 4096 * (TWO_40 * high);
    OrPlusAnd(page, flags);
  }
}
