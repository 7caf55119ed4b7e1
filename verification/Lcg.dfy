/** The benchmark's random numbers: the one-step generator of benchmark/benchmark_carquet.c and the
    vectorised jump-ahead of benchmark/benchmark_pyarrow.py, which must produce the same sequence. */
module Lcg {
  import opened Bytes
  import opened Modulo

  const LCG_A := 1103515245
  const LCG_C := 12345
  const CHUNK_ROWS := 1_000_000

  // ---- the sequence ----

  function Step(x: nat): nat
  {
    (x * LCG_A + LCG_C) % POW32
  }

  /** The state after `k` steps. */
  function Steps(x: nat, k: nat): nat
  {
    if k == 0 then x else Step(Steps(x, k - 1))
  }

  /** Every state is made from the one before it. */
  lemma StepsFrom(x: nat, k: nat)
    ensures Steps(x, 0) == x
    ensures Steps(x, k + 1) == (Steps(x, k) * 1103515245 + 12345) % 0x1_0000_0000
  {
  }

  /** The 15 bits that a state gives out. */
  function Output(x: nat): nat
  {
    x / 0x1_0000 % 0x8000
  }

  /** Bits 16 to 30 of the state. */
  lemma OutputBits(x: nat)
    ensures Output(x) < 0x8000
    ensures Output(x) * 65536 <= x % 0x8000_0000 < (Output(x) + 1) * 65536
  {
  }

  lemma {:induction false} StepsAdd(x: nat, j: nat, k: nat)
    ensures Steps(Steps(x, j), k) == Steps(x, j + k)
    decreases k
  {
    if k > 0 {
      StepsAdd(x, j, k - 1);
    }
  }

  // ---- affine maps modulo 2^32 ----

  datatype Affine = Affine(mul: nat, add: nat)

  function At(f: Affine, x: nat): nat
  {
    (Times(f.mul, x) + f.add) % POW32
  }

  /** `f` after `g`. */
  function Compose(f: Affine, g: Affine): Affine
  {
    Affine(Times(f.mul, g.mul) % POW32, (Times(f.mul, g.add) + f.add) % POW32)
  }

  /** The map that takes `k` steps at once. */
  function Power(k: nat): (f: Affine)
    ensures f.mul < POW32 && f.add < POW32
  {
    if k == 0 then Affine(1, 0) else Compose(Affine(LCG_A, LCG_C), Power(k - 1))
  }

  lemma TimesScale(a: nat, q: nat)
    ensures Times(a, POW32 * q) == POW32 * Times(a, q)
  {
  }

  lemma ModWhole(q: int, x: int)
    ensures (POW32 * q + x) % POW32 == x % POW32
  {
  }

  lemma ModSum(a: int, b: int)
    ensures (a + b % POW32) % POW32 == (a + b) % POW32
  {
  }

  /** Reducing a factor does not change a product modulo 2^32. */
  lemma ModMul(a: nat, b: nat, c: int)
    ensures (Times(a, b % POW32) + c) % POW32 == (Times(a, b) + c) % POW32
    ensures (Times(b % POW32, a) + c) % POW32 == (Times(b, a) + c) % POW32
  {
    hide Times;
    var q: nat, r: nat := b / POW32, b % POW32;
    TimesAdd(a, POW32 * q, r);
    TimesScale(a, q);
    ModWhole(Times(a, q), Times(a, r) + c);
    TimesCommutes(a, b);
    TimesCommutes(a, r);
  }

  lemma ComposeAt(f: Affine, g: Affine, x: nat)
    ensures At(Compose(f, g), x) == At(f, At(g, x))
  {
    hide Times;
    var p, q, m := Times(f.mul, g.mul), Times(f.mul, g.add), Times(g.mul, x);
    TimesNonNegative(f.mul, g.mul);
    TimesNonNegative(g.mul, x);
    ModMul(x, p, (q + f.add) % POW32);
    ModSum(Times(p, x), q + f.add);
    ModMul(f.mul, m + g.add, f.add);
    TimesAdd(f.mul, m, g.add);
    TimesAssociates(f.mul, g.mul, x);
  }

  lemma ComposeAssociative(f: Affine, g: Affine, h: Affine)
    ensures Compose(Compose(f, g), h) == Compose(f, Compose(g, h))
  {
    hide Times, At;
    ComposeAdds(f, g, h);
    var p, q := Times(f.mul, g.mul), Times(g.mul, h.mul);
    TimesNonNegative(f.mul, g.mul);
    TimesNonNegative(g.mul, h.mul);
    ModMul(h.mul, p, 0);
    ModMul(f.mul, q, 0);
    TimesAssociates(f.mul, g.mul, h.mul);
  }

  lemma ComposeAdds(f: Affine, g: Affine, h: Affine)
    ensures Compose(Compose(f, g), h).add == Compose(f, Compose(g, h)).add
  {
    hide Times;
    ComposeAt(f, g, h.add);
  }

  lemma {:induction false} PowerAdd(j: nat, k: nat)
    ensures Compose(Power(j), Power(k)) == Power(j + k)
    decreases j
  {
    if j == 0 {
      ComposeIdentity(Power(k));
    } else {
      PowerAdd(j - 1, k);
      hide Compose;
      ComposeAssociative(Affine(LCG_A, LCG_C), Power(j - 1), Power(k));
    }
  }

  lemma ComposeIdentity(f: Affine)
    requires f.mul < POW32 && f.add < POW32
    ensures Compose(Affine(1, 0), f) == f
  {
    hide Times;
    TimesSmall(f.mul);
    TimesSmall(f.add);
  }

  lemma StepIsAt(x: nat)
    ensures Step(x) == At(Affine(LCG_A, LCG_C), x)
  {
  }

  /** Jumping is stepping. */
  lemma {:induction false} PowerIsSteps(k: nat, x: nat)
    requires x < POW32
    ensures At(Power(k), x) == Steps(x, k)
    decreases k
  {
    hide Times;
    if k == 0 {
      TimesSmall(x);
    } else {
      PowerIsSteps(k - 1, x);
      ComposeAt(Affine(LCG_A, LCG_C), Power(k - 1), x);
      StepIsAt(Steps(x, k - 1));
    }
  }

  // ---- the Python side ----

  /** A product and sum of uint64 values, which must not wrap. */
  function MulAdd64(a: nat, b: nat, c: nat): (r: nat)
    requires Times(a, b) + c < 0x1_0000_0000_0000_0000
    ensures r == a * b + c
  {
    TimesNonNegative(a, b);
    Times(a, b) + c
  }

  lemma NoOverflow(a: nat, b: nat, c: nat)
    requires a < POW32 && b <= POW32 && c < POW32
    ensures b < POW32 || c == 0 ==> Times(a, b) + c < 0x1_0000_0000_0000_0000
  {
    hide Times;
    TimesMonotone(a, POW32 - 1, b);
    TimesLarge(b);
  }

  lemma TimesLarge(b: nat)
    ensures Times(POW32 - 1, b) == (POW32 - 1) * b
  {
  }

  predicate IsPower(mul: nat, add: nat, k: nat)
  {
    Affine(mul, add) == Power(k)
  }

  /** Whether `i` has the bit set that `bit` is the value of. */
  predicate HasBit(i: nat, bit: nat)
    requires bit > 0
  {
    Quotient(i, bit) % 2 == 1
  }

  /** What becomes of one entry, without overflow. */
  lemma AdvanceEntry(mul: nat, add: nat, i: nat, bit: nat, curMul: nat, curAdd: nat)
    requires bit > 0 && IsPower(curMul, curAdd, bit) && IsPower(mul, add, Remainder(i, bit))
    ensures Times(curMul, mul) < 0x1_0000_0000_0000_0000
    ensures Times(curMul, add) + curAdd < 0x1_0000_0000_0000_0000
    ensures if HasBit(i, bit)
            then IsPower(Times(curMul, mul) % POW32, (Times(curMul, add) + curAdd) % POW32, Remainder(i, 2 * bit))
            else IsPower(mul, add, Remainder(i, 2 * bit))
  {
    hide Power, Remainder, Quotient, Times;
    NoOverflow(curMul, mul, 0);
    NoOverflow(curMul, add, curAdd);
    RemainderTwice(i, bit);
    PowerAdd(bit, Remainder(i, bit));
  }

  /** The entries whose index has the bit set are advanced by `bit` more steps. */
  method AdvanceMasked(mul: array<nat>, add: array<nat>, bit: nat, curMul: nat, curAdd: nat)
    requires mul != add && mul.Length == add.Length && bit > 0 && IsPower(curMul, curAdd, bit)
    requires forall i | 0 <= i < mul.Length :: IsPower(mul[i], add[i], Remainder(i, bit))
    modifies mul, add
    ensures forall i | 0 <= i < mul.Length :: IsPower(mul[i], add[i], Remainder(i, 2 * bit))
  {
    hide IsPower, Remainder, HasBit, Times;
    forall i | 0 <= i < mul.Length
      ensures Times(curMul, mul[i]) < 0x1_0000_0000_0000_0000
      ensures Times(curMul, add[i]) + curAdd < 0x1_0000_0000_0000_0000
      ensures if HasBit(i, bit)
              then IsPower(Times(curMul, mul[i]) % POW32, (Times(curMul, add[i]) + curAdd) % POW32,
                           Remainder(i, 2 * bit))
              else IsPower(mul[i], add[i], Remainder(i, 2 * bit))
    {
      AdvanceEntry(mul[i], add[i], i, bit, curMul, curAdd);
    }
    forall i | 0 <= i < mul.Length && HasBit(i, bit) {
      mul[i] := MulAdd64(curMul, mul[i], 0) % POW32;
    }
    forall i | 0 <= i < add.Length && HasBit(i, bit) {
      add[i] := MulAdd64(curMul, add[i], curAdd) % POW32;
    }
  }

  /** Doubling the number of steps, without overflow. */
  lemma PowerDoubles(curMul: nat, curAdd: nat, bit: nat)
    requires IsPower(curMul, curAdd, bit)
    ensures Times(curAdd, curMul + 1) < 0x1_0000_0000_0000_0000
    ensures Times(curMul, curMul) < 0x1_0000_0000_0000_0000
    ensures IsPower(Times(curMul, curMul) % POW32, Times(curAdd, curMul + 1) % POW32, 2 * bit)
  {
    hide Power, Times;
    assert curMul < POW32 && curAdd < POW32;
    NoOverflow(curAdd, curMul + 1, 0);
    NoOverflow(curMul, curMul, 0);
    PowerAdd(bit, bit);
    TimesAdd(curAdd, curMul, 1);
    TimesCommutes(curAdd, curMul);
    TimesSmall(curAdd);
  }

  lemma FirstPowers()
    ensures IsPower(1, 0, 0) && IsPower(LCG_A, LCG_C, 1)
  {
    assert Power(1) == Compose(Affine(LCG_A, LCG_C), Power(0));
  }

  /** _lcg_advance_params: entry i is the map that takes i + 1 steps. */
  method AdvanceParams(count: nat) returns (muls: seq<nat>, adds: seq<nat>)
    ensures |muls| == |adds| == count
    ensures forall i | 0 <= i < count :: IsPower(muls[i], adds[i], i + 1)
  {
    hide IsPower, Remainder, Times;
    FirstPowers();
    var mul := new nat[count + 1](_ => 1);
    var add := new nat[count + 1](_ => 0);
    var curMul: nat, curAdd: nat, bit: nat := LCG_A, LCG_C, 1;
    forall i: nat ensures Remainder(i, 1) == 0 { RemainderOne(i); }
    while bit <= count
      invariant bit > 0 && IsPower(curMul, curAdd, bit)
      invariant forall i | 0 <= i <= count :: IsPower(mul[i], add[i], Remainder(i, bit))
      decreases 2 * count - bit
    {
      AdvanceMasked(mul, add, bit, curMul, curAdd);
      PowerDoubles(curMul, curAdd, bit);
      curAdd := MulAdd64(curAdd, curMul + 1, 0) % POW32;
      curMul := MulAdd64(curMul, curMul, 0) % POW32;
      bit := 2 * bit;
    }
    muls, adds := mul[1..], add[1..];
    forall i | 0 <= i < count ensures IsPower(muls[i], adds[i], i + 1) {
      RemainderSmall(i + 1, bit);
      assert muls[i] == mul[i + 1] && adds[i] == add[i + 1];
    }
  }

  lemma JumpIsSteps(mul: nat, add: nat, k: nat, state: nat)
    requires IsPower(mul, add, k) && state < POW32
    ensures Times(mul, state) + add < 0x1_0000_0000_0000_0000 && (Times(mul, state) + add) % POW32 == Steps(state, k)
  {
    hide Power, Steps, Times;
    assert mul < POW32 && add < POW32;
    NoOverflow(mul, state, add);
    PowerIsSteps(k, state);
  }

  /** _lcg_rand_chunk: the next `count` outputs and the state after them. */
  method RandChunk(state: nat, count: nat) returns (values: seq<nat>, next: nat)
    requires state < POW32
    ensures |values| == count && next == Steps(state, count) < POW32
    ensures forall i | 0 <= i < count :: values[i] == Output(Steps(state, i + 1))
    ensures forall i | 0 <= i < count ::
              values[i] * 65536 <= Steps(state, i + 1) % 0x8000_0000 < (values[i] + 1) * 65536
  {
    hide IsPower, Power, Times, Steps, Output;
    var mul, add := AdvanceParams(count);
    forall i | 0 <= i < count
      ensures Times(mul[i], state) + add[i] < 0x1_0000_0000_0000_0000
      ensures (Times(mul[i], state) + add[i]) % POW32 == Steps(state, i + 1)
    {
      JumpIsSteps(mul[i], add[i], i + 1, state);
    }
    var states := seq(count, i requires 0 <= i < count => MulAdd64(mul[i], state, add[i]) % POW32);
    values := seq(count, i requires 0 <= i < count => Output(states[i]));
    next := if count > 0 then states[count - 1] else state;
    StepsFrom(state, 0);
    forall i | 0 <= i < count
      ensures values[i] * 65536 <= Steps(state, i + 1) % 0x8000_0000 < (values[i] + 1) * 65536
    {
      OutputBits(Steps(state, i + 1));
    }
  }

  // ---- both generators of test data ----

  const SEED := 42

  /** The k-th draw from a seed, counting from one. */
  function Draw(k: nat, seed: nat := SEED): nat
  {
    Output(Steps(seed, k))
  }

  function IdOf(draw: nat): nat
  {
    1_000_000 + draw % 9_000_000
  }

  function CategoryOf(draw: nat): nat
  {
    draw % 100
  }

  /** Row `r` takes four draws: one for the id, two for the value, one for the category. */
  function Id(r: nat): nat
  {
    IdOf(Draw(4 * r + 1))
  }

  function Value(r: nat, boxMuller: (nat, nat) -> real): real
  {
    boxMuller(Draw(4 * r + 2), Draw(4 * r + 3))
  }

  function Category(r: nat): nat
  {
    CategoryOf(Draw(4 * r + 4))
  }

  lemma DrawBits(k: nat, seed: nat)
    ensures Draw(k, seed) < 0x8000
    ensures Draw(k, seed) * 65536 <= Steps(seed, k) % 0x8000_0000 < (Draw(k, seed) + 1) * 65536
  {
    OutputBits(Steps(seed, k));
  }

  lemma SmallId(draw: nat)
    requires draw < 0x8000
    ensures IdOf(draw) == 1_000_000 + draw
  {
  }

  lemma LastTwoDigits(draw: nat)
    ensures CategoryOf(draw) < 100 && (draw - CategoryOf(draw)) % 100 == 0
  {
  }

  /** The row in plain numbers: a draw has fifteen bits, so the id is always one of the first 32768,
      and the category is its last two decimal digits. */
  lemma RowNumbers(r: nat, boxMuller: (nat, nat) -> real)
    ensures Id(r) == 1_000_000 + Draw(4 * r + 1, 42)
    ensures Value(r, boxMuller) == boxMuller(Draw(4 * r + 2, 42), Draw(4 * r + 3, 42))
    ensures Category(r) < 100 && (Draw(4 * r + 4, 42) - Category(r)) % 100 == 0
  {
    hide Draw, IdOf, CategoryOf;
    DrawBits(4 * r + 1, 42);
    SmallId(Draw(4 * r + 1, 42));
    LastTwoDigits(Draw(4 * r + 4, 42));
  }

  /** A state from the one before it, given how often it has wrapped. */
  lemma NextState(k: nat, q: nat, y: nat)
    requires Steps(42, k) * 1103515245 + 12345 == 0x1_0000_0000 * q + y && y < 0x1_0000_0000
    ensures Steps(42, k + 1) == y
  {
    StepsFrom(42, k);
    hide Steps;
    ModWhole(q, y);
    ModSmall(y);
  }

  lemma ModSmall(y: nat)
    requires y < 0x1_0000_0000
    ensures y % 0x1_0000_0000 == y
  {
  }

  /** The first four draws from the seed of the benchmarks. */
  lemma FirstDraws()
    ensures Draw(1, 42) == 19081 && Draw(2, 42) == 17033 && Draw(3, 42) == 15269 && Draw(4, 42) == 25461
  {
    StepsFrom(42, 0);
    hide Steps;
    NextState(0, 10, 3397979675);
    NextState(1, 873050273, 3263785912);
    NextState(2, 838571579, 3148160401);
    NextState(3, 808863666, 3816158454);
  }

  /** The first `n` rows are in the three columns. */
  ghost predicate HasRows(ids: array<nat>, values: array<real>, categories: array<nat>, n: nat,
                          boxMuller: (nat, nat) -> real)
    reads ids, values, categories
  {
    && n <= ids.Length && n <= values.Length && n <= categories.Length
    && (forall r | 0 <= r < n :: ids[r] == Id(r))
    && (forall r | 0 <= r < n :: values[r] == Value(r, boxMuller))
    && (forall r | 0 <= r < n :: categories[r] == Category(r))
  }

  lemma NoRows(ids: array<nat>, values: array<real>, categories: array<nat>, boxMuller: (nat, nat) -> real)
    ensures HasRows(ids, values, categories, 0, boxMuller)
  {
  }

  /** The table in plain numbers. */
  lemma TableNumbers(ids: array<nat>, values: array<real>, categories: array<nat>, numRows: nat,
                     boxMuller: (nat, nat) -> real)
    requires HasRows(ids, values, categories, numRows, boxMuller)
    ensures forall r | 0 <= r < numRows :: ids[r] == 1_000_000 + Draw(4 * r + 1, 42)
    ensures forall r | 0 <= r < numRows :: values[r] == boxMuller(Draw(4 * r + 2, 42), Draw(4 * r + 3, 42))
    ensures forall r | 0 <= r < numRows :: categories[r] < 100 && (Draw(4 * r + 4, 42) - categories[r]) % 100 == 0
  {
    hide Id, Value, Category, Draw;
    forall r | 0 <= r < numRows
      ensures ids[r] == 1_000_000 + Draw(4 * r + 1, 42)
      ensures values[r] == boxMuller(Draw(4 * r + 2, 42), Draw(4 * r + 3, 42))
      ensures categories[r] < 100 && (Draw(4 * r + 4, 42) - categories[r]) % 100 == 0
    {
      RowNumbers(r, boxMuller);
    }
  }

  /** lcg_state and lcg_rand of the C benchmark; `drawn` counts the calls since the seed. */
  class Generator {
    var state: nat
    ghost const seed: nat
    ghost var drawn: nat

    ghost predicate Valid()
      reads this
    {
      state == Steps(seed, drawn)
    }

    constructor (seed: nat)
      ensures Valid() && this.seed == seed && drawn == 0
    {
      state, this.seed, drawn := seed, seed, 0;
    }

    method Rand() returns (r: nat)
      requires Valid()
      modifies this
      ensures Valid() && drawn == old(drawn) + 1 && r == Draw(drawn, seed)
      ensures state == (old(state) * 1103515245 + 12345) % 0x1_0000_0000
      ensures r * 65536 <= state % 0x8000_0000 < (r + 1) * 65536
    {
      state := (state * 1103515245 + 12345) % POW32;
      drawn := drawn + 1;
      r := state / 0x1_0000 % 0x8000;
      OutputBits(state);
    }

    /** lcg_normal, and what test_data_create makes of it: a value from two draws. */
    method Normal(boxMuller: (nat, nat) -> real) returns (r: real)
      requires Valid()
      modifies this
      ensures Valid() && drawn == old(drawn) + 2
      ensures r == boxMuller(Draw(drawn - 1, seed), Draw(drawn, seed))
    {
      var u1 := Rand();
      var u2 := Rand();
      r := boxMuller(u1, u2);
    }
  }

  /** The four draws of a row, one after the other. */
  method DrawRow(lcg: Generator, i: nat, boxMuller: (nat, nat) -> real) returns (id: nat, value: real, category: nat)
    requires lcg.Valid() && lcg.seed == SEED && lcg.drawn == 4 * i
    modifies lcg
    ensures lcg.Valid() && lcg.drawn == 4 * (i + 1)
    ensures id == Id(i) && value == Value(i, boxMuller) && category == Category(i)
    ensures id == 1_000_000 + Draw(4 * i + 1, 42)
    ensures category < 100 && (Draw(4 * i + 4, 42) - category) % 100 == 0
  {
    hide Draw, Steps, IdOf, CategoryOf;
    RowNumbers(i, boxMuller);
    var draw := lcg.Rand();
    id := IdOf(draw);
    value := lcg.Normal(boxMuller);
    draw := lcg.Rand();
    category := CategoryOf(draw);
  }

  method StoreRow(ids: array<nat>, values: array<real>, categories: array<nat>, i: nat, id: nat, value: real,
                  category: nat, ghost boxMuller: (nat, nat) -> real)
    requires ids != categories && i < ids.Length == values.Length == categories.Length
    requires HasRows(ids, values, categories, i, boxMuller)
    requires id == Id(i) && value == Value(i, boxMuller) && category == Category(i)
    modifies ids, values, categories
    ensures HasRows(ids, values, categories, i + 1, boxMuller)
  {
    hide Id, Value, Category;
    ids[i], values[i], categories[i] := id, value, category;
  }

  /** test_data_create. */
  method TestDataCreate(numRows: nat, boxMuller: (nat, nat) -> real)
    returns (ids: array<nat>, values: array<real>, categories: array<nat>)
    ensures ids.Length == values.Length == categories.Length == numRows
    ensures HasRows(ids, values, categories, numRows, boxMuller)
    ensures forall r | 0 <= r < numRows :: ids[r] == 1_000_000 + Draw(4 * r + 1, 42)
    ensures forall r | 0 <= r < numRows :: values[r] == boxMuller(Draw(4 * r + 2, 42), Draw(4 * r + 3, 42))
    ensures forall r | 0 <= r < numRows :: categories[r] < 100 && (Draw(4 * r + 4, 42) - categories[r]) % 100 == 0
  {
    hide Id, Value, Category, HasRows, Draw;
    ids, values, categories := new nat[numRows], new real[numRows], new nat[numRows];
    NoRows(ids, values, categories, boxMuller);
    var lcg := new Generator(SEED);
    for i := 0 to numRows
      invariant lcg.Valid() && lcg.drawn == 4 * i && HasRows(ids, values, categories, i, boxMuller)
    {
      var id, value, category := DrawRow(lcg, i, boxMuller);
      StoreRow(ids, values, categories, i, id, value, category, boxMuller);
    }
    TableNumbers(ids, values, categories, numRows, boxMuller);
  }

  /** The rows of one chunk, from the outputs drawn for it at once. */
  method FillChunk(ids: array<nat>, values: array<real>, categories: array<nat>, offset: nat, chunkRows: nat,
                   rand: seq<nat>, boxMuller: (nat, nat) -> real)
    requires ids != categories && |rand| == 4 * chunkRows
    requires offset + chunkRows <= ids.Length == values.Length == categories.Length
    requires HasRows(ids, values, categories, offset, boxMuller)
    requires forall i | 0 <= i < 4 * chunkRows :: rand[i] == Draw(4 * offset + i + 1)
    modifies ids, values, categories
    ensures HasRows(ids, values, categories, offset + chunkRows, boxMuller)
  {
    hide Draw, IdOf, CategoryOf;
    forall r | offset <= r < offset + chunkRows {
      ids[r] := IdOf(rand[4 * (r - offset)]);
    }
    forall r | offset <= r < offset + chunkRows {
      values[r] := boxMuller(rand[4 * (r - offset) + 1], rand[4 * (r - offset) + 2]);
    }
    forall r | offset <= r < offset + chunkRows {
      categories[r] := CategoryOf(rand[4 * (r - offset) + 3]);
    }
    forall r | offset <= r < offset + chunkRows
      ensures ids[r] == Id(r) && values[r] == Value(r, boxMuller) && categories[r] == Category(r)
    {
      RowDraws(rand, offset, chunkRows, r);
    }
    hide Id, Value, Category;
  }

  lemma RowDraws(rand: seq<nat>, offset: nat, chunkRows: nat, r: nat)
    requires |rand| == 4 * chunkRows && offset <= r < offset + chunkRows
    requires forall i | 0 <= i < 4 * chunkRows :: rand[i] == Draw(4 * offset + i + 1)
    ensures rand[4 * (r - offset)] == Draw(4 * r + 1) && rand[4 * (r - offset) + 1] == Draw(4 * r + 2)
    ensures rand[4 * (r - offset) + 2] == Draw(4 * r + 3) && rand[4 * (r - offset) + 3] == Draw(4 * r + 4)
  {
    hide Draw;
    var i := 4 * (r - offset);
    assert rand[i] == Draw(4 * offset + i + 1) && rand[i + 1] == Draw(4 * offset + (i + 1) + 1);
    assert rand[i + 2] == Draw(4 * offset + (i + 2) + 1) && rand[i + 3] == Draw(4 * offset + (i + 3) + 1);
  }

  /** generate_data: the same rows, a million at a time. */
  method GenerateData(numRows: nat, boxMuller: (nat, nat) -> real)
    returns (ids: array<nat>, values: array<real>, categories: array<nat>)
    ensures ids.Length == values.Length == categories.Length == numRows
    ensures HasRows(ids, values, categories, numRows, boxMuller)
    ensures forall r | 0 <= r < numRows :: ids[r] == 1_000_000 + Draw(4 * r + 1, 42)
    ensures forall r | 0 <= r < numRows :: values[r] == boxMuller(Draw(4 * r + 2, 42), Draw(4 * r + 3, 42))
    ensures forall r | 0 <= r < numRows :: categories[r] < 100 && (Draw(4 * r + 4, 42) - categories[r]) % 100 == 0
  {
    hide Steps, HasRows, Output;
    ids, values, categories := new nat[numRows], new real[numRows], new nat[numRows];
    NoRows(ids, values, categories, boxMuller);
    var state, offset := 42, 0;
    assert Steps(42, 0) == 42 by { StepsNone(); }
    while offset < numRows
      invariant offset <= numRows && state == Steps(42, 4 * offset) < POW32
      invariant HasRows(ids, values, categories, offset, boxMuller)
    {
      var chunkRows := if CHUNK_ROWS < numRows - offset then CHUNK_ROWS else numRows - offset;
      var rand, next := RandChunk(state, chunkRows * 4);
      forall i | 0 <= i < 4 * chunkRows ensures rand[i] == Draw(4 * offset + i + 1) {
        StepsAdd(42, 4 * offset, i + 1);
      }
      StepsAdd(42, 4 * offset, chunkRows * 4);
      FillChunk(ids, values, categories, offset, chunkRows, rand, boxMuller);
      state, offset := next, offset + chunkRows;
    }
    TableNumbers(ids, values, categories, numRows, boxMuller);
  }

  lemma StepsNone()
    ensures Steps(42, 0) == 42
  {
  }

  /** Both benchmarks measure the same table. */
  method SameTestData(numRows: nat, boxMuller: (nat, nat) -> real)
    returns (c: (seq<nat>, seq<real>, seq<nat>), python: (seq<nat>, seq<real>, seq<nat>))
    ensures c == python && |c.0| == |c.1| == |c.2| == numRows
    ensures forall r | 0 <= r < numRows :: c.0[r] == 1_000_000 + Draw(4 * r + 1, 42)
    ensures forall r | 0 <= r < numRows :: c.1[r] == boxMuller(Draw(4 * r + 2, 42), Draw(4 * r + 3, 42))
    ensures forall r | 0 <= r < numRows :: c.2[r] < 100 && (Draw(4 * r + 4, 42) - c.2[r]) % 100 == 0
  {
    hide Id, Value, Category, Draw;
    var ids, values, categories := TestDataCreate(numRows, boxMuller);
    c := (ids[..], values[..], categories[..]);
    var ids', values', categories' := GenerateData(numRows, boxMuller);
    python := (ids'[..], values'[..], categories'[..]);
    assert c.0 == python.0;
    assert c.1 == python.1;
    assert c.2 == python.2;
  }
}
