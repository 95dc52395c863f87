/** Environment ids (inc/env.h, kern/env.c): a generation above a slot index, in a 32-bit signed integer. */
module EnvIds {
  import opened Arith

  const NENV: nat := 1024
  const GENERATIONS: nat := 0x7_FFFF  // 2^19 - 1

  function ENVX(id: int): nat { id % 1024 }

  /** Two's-complement wrap of a 32-bit signed addition. */
  function ToInt32(x: int): int {
    (x + 0x8000_0000) % 0x1_0000_0000 - 0x8000_0000
  }

  /** The id that env_alloc gives a slot whose previous id was `id`. */
  function NextId(id: int, slot: nat): int {
    var g := ToInt32(id + 4096);
    var generation := g - g % 1024;
    (if generation <= 0 then 4096 else generation) + slot
  }

  /** The id after k allocations of a slot. */
  function IdAfter(id: int, slot: nat, k: nat): int {
    if k == 0 then id else NextId(IdAfter(id, slot, k - 1), slot)
  }

  /** The id of the k-th allocation of a slot, in closed form. */
  function NthId(slot: nat, k: nat): int
    requires k > 0
  {
    ((k - 1) % GENERATIONS + 1) * 4096 + slot
  }

  /** A slot's id field: 0 before its first use, else a generation and the slot. */
  predicate SlotId(id: int, slot: nat) {
    id == 0 || (4096 <= id < 0x8000_0000 && id % 4096 == slot)
  }

  lemma NextIdUp(id: int, slot: nat)
    requires slot < NENV && 0 <= id < 0x7FFF_F000 && (id == 0 || id % 4096 == slot)
    ensures NextId(id, slot) == (if id == 0 then 4096 else id - slot + 4096) + slot
  {
    SmallInt32(id + 4096);
    var h := (if id == 0 then 0 else id / 4096) + 1;
    assert id + 4096 == 1024 * (4 * h) + if id == 0 then 0 else slot;
    MulMod(4 * h, if id == 0 then 0 else slot, 1024);
  }

  lemma SmallInt32(x: int)
    requires 0 <= x < 0x8000_0000
    ensures ToInt32(x) == x
  {
    assert 0 <= x + 0x8000_0000 < 0x1_0000_0000;
  }

  lemma NextIdWraps(id: int, slot: nat)
    requires slot < NENV && 0x7FFF_F000 <= id < 0x8000_0000 && id % 4096 == slot
    ensures NextId(id, slot) == 4096 + slot
  {
    assert id == 0x7FFF_F000 + slot;
    assert ToInt32(id + 4096) == slot - 0x8000_0000;
  }

  lemma NextIdStep(g: nat, slot: nat)
    requires slot < NENV && g <= GENERATIONS
    ensures NextId(if g == 0 then 0 else g * 4096 + slot, slot) == (if g == GENERATIONS then 1 else g + 1) * 4096 + slot
  {
    if g < GENERATIONS {
      NextIdUp(if g == 0 then 0 else g * 4096 + slot, slot);
    } else {
      NextIdWraps(g * 4096 + slot, slot);
    }
  }

  /** Ids are positive 32-bit integers that carry their slot, over any number of allocations. */
  lemma NextIdOk(id: int, slot: nat)
    requires slot < NENV && SlotId(id, slot)
    ensures SlotId(NextId(id, slot), slot) && 0 < NextId(id, slot) < 0x8000_0000
    ensures ENVX(NextId(id, slot)) == slot
  {
    NextIdStep(if id == 0 then 0 else id / 4096, slot);
  }

  /** The k-th allocation of a slot has generation ((k - 1) mod (2^19 - 1)) + 1. */
  lemma {:induction false} IdAfterIsNth(slot: nat, k: nat)
    requires slot < NENV && k > 0
    ensures IdAfter(0, slot, k) == NthId(slot, k)
  {
    if k == 1 {
      NextIdStep(0, slot);
      assert IdAfter(0, slot, 1) == NextId(IdAfter(0, slot, 0), slot);
    } else {
      IdAfterIsNth(slot, k - 1);
      var g := (k - 2) % GENERATIONS + 1;
      NextIdStep(g, slot);
      ModSuccessor(k - 2, GENERATIONS);
    }
  }

  lemma ModSuccessor(a: nat, m: nat)
    requires m > 1
    ensures (a + 1) % m == if a % m == m - 1 then 0 else a % m + 1
  {
    var q, r := a / m, a % m;
    assert a + 1 == m * q + (r + 1);
    if r == m - 1 {
      assert a + 1 == m * (q + 1);
      MulMod(q + 1, 0, m);
    } else {
      MulMod(q, r + 1, m);
    }
  }

  lemma {:induction false} IdAfterSum(id: int, slot: nat, j: nat, k: nat)
    ensures IdAfter(IdAfter(id, slot, j), slot, k) == IdAfter(id, slot, j + k)
  {
    if k > 0 { IdAfterSum(id, slot, j, k - 1); }
  }

  /** Every non-zero slot id is the id of some allocation of that slot. */
  lemma SlotIdIsNth(id: int, slot: nat) returns (k: nat)
    requires slot < NENV && SlotId(id, slot) && id != 0
    ensures 0 < k <= GENERATIONS && id == NthId(slot, k)
  {
    k := id / 4096;
    assert (k - 1) % GENERATIONS == k - 1;
  }

  /** An id comes back to a slot exactly at every (2^19 - 1)-th further allocation of it. */
  lemma IdRecurs(id: int, slot: nat, n: nat)
    requires slot < NENV && SlotId(id, slot) && id != 0
    ensures IdAfter(id, slot, n) == id <==> n % GENERATIONS == 0
  {
    var k := SlotIdIsNth(id, slot);
    IdAfterIsNth(slot, k);
    IdAfterSum(0, slot, k, n);
    IdAfterIsNth(slot, k + n);
    assert IdAfter(id, slot, n) == NthId(slot, k + n);
    NthIdInjective(slot, k, k + n);
    SameResidue(k - 1, n, GENERATIONS);
    MulMod(0, k - 1, GENERATIONS);
    assert k - 1 + n == k + n - 1;
  }

  lemma NthIdInjective(slot: nat, j: nat, k: nat)
    requires j > 0 && k > 0
    ensures NthId(slot, j) == NthId(slot, k) <==> (j - 1) % GENERATIONS == (k - 1) % GENERATIONS
  {
  }

  lemma SameResidue(a: nat, n: nat, m: nat)
    requires a < m
    ensures (a + n) % m == a <==> n % m == 0
  {
    var q, r := n / m, n % m;
    assert a + n == m * q + (a + r);
    if a + r < m {
      MulMod(q, a + r, m);
    } else {
      assert a + n == m * (q + 1) + (a + r - m);
      MulMod(q + 1, a + r - m, m);
    }
  }

  lemma SlotIdX(id: int, slot: nat)
    requires SlotId(id, slot) && id != 0 && slot < NENV
    ensures ENVX(id) == slot
  {
    assert id == 1024 * (4 * (id / 4096)) + slot;
    MulMod(4 * (id / 4096), slot, 1024);
  }
}
