/** The difference distribution table of the cipher's S-box and the
    greedy differential characteristic built from it
    (differential_cryptanalysis.py).

    The table is indexed by Python integers, so this part works on `int`
    nibbles 0..15, with `^` on them modelled by Xor and the S-box by
    SboxAt, which agrees with SpnCipher.Sbox (SboxAtAgrees). */
module DifferentialTables {
  import opened Polynomial
  import opened SpnCipher

  // ---------------------------------------------------------------------
  // Integer xor and the S-box on integers

  /** Python's `a ^ b` on non-negative integers, bit by bit from the
      lowest. */
  function Xor(a: nat, b: nat): nat
    decreases a + b
  {
    if a == 0 then b
    else if b == 0 then a
    else 2 * Xor(a / 2, b / 2) + (a % 2 + b % 2) % 2
  }

  /** The recursion of Xor holds also when an operand is 0. */
  lemma XorUnfold(a: nat, b: nat)
    ensures Xor(a, b) == 2 * Xor(a / 2, b / 2) + (a % 2 + b % 2) % 2
  {
  }

  lemma {:induction false} XorComm(a: nat, b: nat)
    ensures Xor(a, b) == Xor(b, a)
    decreases a + b
  {
    if a > 0 && b > 0 {
      XorComm(a / 2, b / 2);
    }
  }

  lemma {:induction false} XorSelf(a: nat)
    ensures Xor(a, a) == 0
  {
    if a > 0 {
      XorSelf(a / 2);
    }
  }

  /** Xor with b twice gives back a. */
  lemma {:induction false} XorCancel(a: nat, b: nat)
    ensures Xor(Xor(a, b), b) == a
    decreases a + b
  {
    if a == 0 {
      XorSelf(b);
    } else if b > 0 {
      var h, bit := Xor(a / 2, b / 2), (a % 2 + b % 2) % 2;
      var c := Xor(a, b);
      Halves(c, h, bit);
      XorUnfold(c, b);
      XorCancel(a / 2, b / 2);
      ParityCancel(a, b, bit);
      Reassemble(a, Xor(c, b), Xor(c / 2, b / 2), (c % 2 + b % 2) % 2);
    }
  }

  lemma Halves(c: int, h: int, bit: int)
    requires bit == 0 || bit == 1
    requires c == 2 * h + bit
    ensures c / 2 == h && c % 2 == bit
  {
  }

  lemma ParityCancel(a: nat, b: nat, bit: int)
    requires bit == (a % 2 + b % 2) % 2
    ensures (bit + b % 2) % 2 == a % 2
  {
  }

  lemma Reassemble(a: nat, r: int, h: int, bit: int)
    requires r == 2 * h + bit && h == a / 2 && bit == a % 2
    ensures r == a
  {
  }

  /** Xor with b changes a unless b is 0. */
  lemma XorFixed(a: nat, b: nat)
    requires Xor(a, b) == a
    ensures b == 0
  {
    XorComm(a, b);
    XorCancel(b, a);
    XorSelf(a);
  }

  lemma {:induction false} XorBelow(a: nat, b: nat, m: nat)
    requires a < Pow(2, m) && b < Pow(2, m)
    ensures Xor(a, b) < Pow(2, m)
  {
    if m > 0 && a > 0 && b > 0 {
      XorBelow(a / 2, b / 2, m - 1);
    }
  }

  /** Xor of two nibbles is a nibble. */
  lemma XorNibble(a: nat, b: nat)
    requires a < 16 && b < 16
    ensures Xor(a, b) < 16
  {
    assert Pow(2, 4) == 16;
    XorBelow(a, b, 4);
  }

  /** `SBOX[x]` for an integer x. */
  function SboxAt(x: int): (r: int)
    requires 0 <= x < 16
    ensures 0 <= r < 16
  {
    match x
    case 0 => 0xC case 1 => 5 case 2 => 6 case 3 => 0xB
    case 4 => 9 case 5 => 0 case 6 => 0xA case 7 => 0xD
    case 8 => 3 case 9 => 0xE case 10 => 0xF case 11 => 8
    case 12 => 4 case 13 => 7 case 14 => 1 case _ => 2
  }

  /** The integer table is the cipher's table. */
  lemma SboxAtAgrees(x: bv16)
    requires x < 16
    ensures SboxAt(x as int) == Sbox(x) as int
  {
  }

  // ---------------------------------------------------------------------
  // The difference distribution table

  /** The output difference `SBOX[x] ^ SBOX[dx ^ x]`. */
  function Diff(x: int, dx: int): (r: int)
    requires 0 <= x < 16 && 0 <= dx < 16
    ensures 0 <= r < 16
  {
    XorNibble(dx, x);
    var y := Xor(dx, x);
    XorNibble(SboxAt(x), SboxAt(y));
    Xor(SboxAt(x), SboxAt(y))
  }

  /** Inputs x and x ^ dx have the same output difference. */
  lemma DiffPaired(x: int, dx: int)
    requires 0 <= x < 16 && 0 <= dx < 16
    ensures Xor(x, dx) < 16 && Diff(Xor(x, dx), dx) == Diff(x, dx)
  {
    XorNibble(x, dx);
    var y := Xor(x, dx);
    XorComm(x, dx);
    XorComm(y, dx);
    XorCancel(x, dx);
    assert Xor(dx, y) == x;
    XorComm(SboxAt(y), SboxAt(x));
  }

  /** How many x below n have output difference dy for input difference dx. */
  function Count(dx: int, dy: int, n: int): nat
    requires 0 <= dx < 16 && 0 <= n <= 16
  {
    if n == 0 then 0 else Count(dx, dy, n - 1) + (if Diff(n - 1, dx) == dy then 1 else 0)
  }

  /** Entry (dx, dy) of the table: the number of inputs x, among all
      sixteen, with output difference dy for input difference dx. */
  function Ddt(dx: int, dy: int): nat
    requires 0 <= dx < 16
  {
    Count(dx, dy, 16)
  }

  /** The pairs (x, a) with a below dx that the inner loop of
      `compute_ddt` has already counted in entry (a, b) for this x. */
  function Pending(x: int, a: int, b: int, dx: int): nat
    requires 0 <= x < 16 && 0 <= a < 16
  {
    if a < dx && Diff(x, a) == b then 1 else 0
  }

  lemma PendingStep(x: int, a: int, b: int, dx: int, dy: int)
    requires 0 <= x < 16 && 0 <= a < 16 && 0 <= dx < 16 && dy == Diff(x, dx)
    ensures Pending(x, a, b, dx + 1) == Pending(x, a, b, dx) + (if a == dx && b == dy then 1 else 0)
  {
  }

  lemma CountStep(x: int, a: int, b: int)
    requires 0 <= x < 16 && 0 <= a < 16
    ensures Count(a, b, x + 1) == Count(a, b, x) + Pending(x, a, b, 16)
  {
  }

  /** One pass of the outer loop of `compute_ddt`: for the input x,
      entry [dx][Diff(x, dx)] is incremented once for every dx, which
      extends the counts from the inputs below x to those below x + 1. */
  method VisitInput(ddt: array2<int>, x: int)
    requires ddt.Length0 == 16 && ddt.Length1 == 16 && 0 <= x < 16
    requires forall a, b :: 0 <= a < 16 && 0 <= b < 16 ==> ddt[a, b] == Count(a, b, x)
    modifies ddt
    ensures forall a, b :: 0 <= a < 16 && 0 <= b < 16 ==> ddt[a, b] == Count(a, b, x + 1)
  {
    for dx := 0 to 16
      invariant forall a, b :: 0 <= a < 16 && 0 <= b < 16 ==>
        ddt[a, b] == Count(a, b, x) + Pending(x, a, b, dx)
    {
      var dy := Diff(x, dx);
      label before:
      ddt[dx, dy] := ddt[dx, dy] + 1;
      forall a, b | 0 <= a < 16 && 0 <= b < 16
        ensures ddt[a, b] == Count(a, b, x) + Pending(x, a, b, dx + 1)
      {
        PendingStep(x, a, b, dx, dy);
        if a != dx || b != dy {
          assert ddt[a, b] == old@before(ddt[a, b]);
        }
      }
    }
    forall a, b | 0 <= a < 16 && 0 <= b < 16
      ensures ddt[a, b] == Count(a, b, x + 1)
    {
      CountStep(x, a, b);
    }
  }

  /** `compute_ddt`: a fresh 16 x 16 table of zeros, incremented at
      [dx][dy] once for every pair (x, dx); entry [dx][dy] ends up
      counting the x with `SBOX[x] ^ SBOX[dx ^ x] == dy`. */
  method ComputeDdt() returns (ddt: array2<int>)
    ensures fresh(ddt) && ddt.Length0 == 16 && ddt.Length1 == 16
    ensures forall dx, dy :: 0 <= dx < 16 && 0 <= dy < 16 ==> ddt[dx, dy] == Ddt(dx, dy)
  {
    ddt := new int[16, 16]((_, _) => 0);
    for x := 0 to 16
      invariant forall a, b :: 0 <= a < 16 && 0 <= b < 16 ==> ddt[a, b] == Count(a, b, x)
    {
      VisitInput(ddt, x);
    }
  }

  /** Row dx of the table summed over the columns dy below m, for the
      inputs x below n. */
  function RowTotal(dx: int, n: int, m: int): nat
    requires 0 <= dx < 16 && 0 <= n <= 16 && 0 <= m <= 16
  {
    if m == 0 then 0 else RowTotal(dx, n, m - 1) + Count(dx, m - 1, n)
  }

  lemma {:induction false} RowTotalStep(dx: int, n: int, m: int)
    requires 0 <= dx < 16 && 0 <= n < 16 && 0 <= m <= 16
    ensures RowTotal(dx, n + 1, m) == RowTotal(dx, n, m) + (if Diff(n, dx) < m then 1 else 0)
  {
    if m > 0 {
      RowTotalStep(dx, n, m - 1);
    }
  }

  lemma {:induction false} RowTotalEmpty(dx: int, m: int)
    requires 0 <= dx < 16 && 0 <= m <= 16
    ensures RowTotal(dx, 0, m) == 0
  {
    if m > 0 {
      RowTotalEmpty(dx, m - 1);
    }
  }

  lemma {:induction false} RowTotalAll(dx: int, n: int)
    requires 0 <= dx < 16 && 0 <= n <= 16
    ensures RowTotal(dx, n, 16) == n
  {
    if n > 0 {
      RowTotalAll(dx, n - 1);
      RowTotalStep(dx, n - 1, 16);
    } else {
      RowTotalEmpty(dx, 16);
    }
  }

  /** Every row of the table sums to 16: each input x lands in exactly one
      column. */
  lemma DdtRowSum(dx: int)
    requires 0 <= dx < 16
    ensures RowTotal(dx, 16, 16) == 16
  {
    RowTotalAll(dx, 16);
  }

  lemma {:induction false} CountZeroDifference(dy: int, n: int)
    requires 0 <= n <= 16
    ensures Count(0, dy, n) == if dy == 0 then n else 0
  {
    if n > 0 {
      CountZeroDifference(dy, n - 1);
      XorSelf(SboxAt(n - 1));
    }
  }

  /** Input difference 0 always gives output difference 0: row 0 is 16 at
      column 0 and 0 elsewhere. */
  lemma DdtZeroRow(dy: int)
    ensures Ddt(0, dy) == if dy == 0 then 16 else 0
  {
    CountZeroDifference(dy, 16);
  }

  /** The output differences of inputs 0..15 for input difference dx. */
  function DiffRow(dx: int): (row: seq<int>)
    requires 0 <= dx < 16
    ensures |row| == 16 && forall x :: 0 <= x < 16 ==> row[x] == Diff(x, dx)
  {
    seq(16, x requires 0 <= x < 16 => Diff(x, dx))
  }

  /** The positions below n of a sequence that hold dy. */
  function Hits(row: seq<int>, dy: int, n: int): set<nat>
    requires 0 <= n <= |row|
  {
    if n == 0 then {} else Hits(row, dy, n - 1) + (if row[n - 1] == dy then {n - 1} else {})
  }

  lemma {:induction false} HitsMembers(row: seq<int>, dy: int, n: int, z: nat)
    requires 0 <= n <= |row|
    ensures z in Hits(row, dy, n) <==> z < n && row[z] == dy
  {
    if n > 0 {
      HitsMembers(row, dy, n - 1, z);
    }
  }

  lemma HitsStep(row: seq<int>, dy: int, n: int)
    requires 0 < n <= |row|
    ensures |Hits(row, dy, n)| == |Hits(row, dy, n - 1)| + if row[n - 1] == dy then 1 else 0
  {
    var x: nat := n - 1;
    var before := Hits(row, dy, x);
    HitsMembers(row, dy, x, x);
    if row[x] == dy {
      assert Hits(row, dy, n) == before + {x};
      assert |before + {x}| == |before| + 1;
    } else {
      assert Hits(row, dy, n) == before;
    }
  }

  lemma {:induction false} CountIsHits(dx: int, dy: int, n: int)
    requires 0 <= dx < 16 && 0 <= n <= 16
    ensures Count(dx, dy, n) == |Hits(DiffRow(dx), dy, n)|
  {
    if n > 0 {
      CountIsHits(dx, dy, n - 1);
      HitsStep(DiffRow(dx), dy, n);
    }
  }

  /** A finite set closed under a fixed-point-free involution f splits into
      pairs {x, f(x)} and so has even size. */
  lemma {:induction false} PairedSetEven(s: set<nat>, f: nat -> nat)
    requires forall x :: x in s ==> f(x) in s && f(x) != x && f(f(x)) == x
    ensures |s| % 2 == 0
    decreases |s|
  {
    if s != {} {
      var x :| x in s;
      var y := f(x);
      var rest := s - {x, y};
      assert |rest| == |s| - 2;
      forall z | z in rest
        ensures f(z) in rest && f(z) != z && f(f(z)) == z
      {
      }
      PairedSetEven(rest, f);
    }
  }

  /** The inputs with output difference dy pair up under x |-> x ^ dx. */
  lemma HitsPaired(dx: int, dy: int, x: nat)
    requires 0 < dx < 16 && x in Hits(DiffRow(dx), dy, 16)
    ensures Xor(x, dx) in Hits(DiffRow(dx), dy, 16) && Xor(x, dx) != x && Xor(Xor(x, dx), dx) == x
  {
    var row := DiffRow(dx);
    HitsMembers(row, dy, 16, x);
    DiffPaired(x, dx);
    HitsMembers(row, dy, 16, Xor(x, dx));
    XorCancel(x, dx);
    if Xor(x, dx) == x {
      XorFixed(x, dx);
    }
  }

  /** For dx != 0 the inputs with output difference dy are even in number. */
  lemma HitsEven(dx: int, dy: int)
    requires 0 < dx < 16
    ensures |Hits(DiffRow(dx), dy, 16)| % 2 == 0
  {
    var s := Hits(DiffRow(dx), dy, 16);
    var f := (x: nat) => Xor(x, dx);
    forall x | x in s
      ensures f(x) in s && f(x) != x && f(f(x)) == x
    {
      HitsPaired(dx, dy, x);
    }
    PairedSetEven(s, f);
  }

  /** Every entry of the table is even. */
  lemma DdtEven(dx: int, dy: int)
    requires 0 <= dx < 16
    ensures Ddt(dx, dy) % 2 == 0
  {
    if dx == 0 {
      DdtZeroRow(dy);
      var d := Ddt(0, dy);
      assert d == 0 || d == 16;
    } else {
      CountIsHits(dx, dy, 16);
      HitsEven(dx, dy);
    }
  }

  // ---------------------------------------------------------------------
  // Choosing output differences

  /** `max(row)` over the first m entries of row dx. */
  function RowMax(ddt: array2<int>, dx: int, m: int): (r: int)
    reads ddt
    requires 0 <= dx < ddt.Length0 && 1 <= m <= ddt.Length1
    ensures forall k :: 0 <= k < m ==> ddt[dx, k] <= r
    ensures exists k :: 0 <= k < m && ddt[dx, k] == r
  {
    if m == 1 then ddt[dx, 0]
    else
      var prev := RowMax(ddt, dx, m - 1);
      if ddt[dx, m - 1] > prev then ddt[dx, m - 1] else prev
  }

  /** `row.index(v)` searching from column k: the first column holding v. */
  function IndexFrom(ddt: array2<int>, dx: int, v: int, k: int): (r: int)
    reads ddt
    requires 0 <= dx < ddt.Length0 && 0 <= k <= ddt.Length1
    requires exists j :: k <= j < ddt.Length1 && ddt[dx, j] == v
    ensures k <= r < ddt.Length1 && ddt[dx, r] == v
    ensures forall j :: k <= j < r ==> ddt[dx, j] != v
    decreases ddt.Length1 - k
  {
    if ddt[dx, k] == v then k else IndexFrom(ddt, dx, v, k + 1)
  }

  /** `best_dy`: the first column of row dx holding the row's maximum. A
      row without columns would make Python's `max` raise. */
  function BestDy(dx: int, ddt: array2<int>): (dy: int)
    reads ddt
    requires 0 <= dx < ddt.Length0 && ddt.Length1 >= 1
    ensures 0 <= dy < ddt.Length1
    ensures forall k :: 0 <= k < ddt.Length1 ==> ddt[dx, k] <= ddt[dx, dy]
    ensures forall k :: 0 <= k < dy ==> ddt[dx, k] < ddt[dx, dy]
  {
    IndexFrom(ddt, dx, RowMax(ddt, dx, ddt.Length1), 0)
  }

  // ---------------------------------------------------------------------
  // The differential characteristic

  /** An entry `[r, j + 1, dx, dy]`: in round r, S-box j + 1 (nibble j) has
      input difference dx, and dy is the output difference chosen for it. */
  datatype Entry = Entry(round: int, sbox: int, dx: int, dy: int)

  /** The shape `compute_ddt` returns. */
  predicate IsDdt(ddt: array2<int>)
  {
    ddt.Length0 == 16 && ddt.Length1 == 16
  }

  /** A nibble read as a Python integer. */
  function ToInt(v: bv16): (r: int)
    requires v < 16
    ensures 0 <= r < 16
  {
    match v
    case 0 => 0 case 1 => 1 case 2 => 2 case 3 => 3
    case 4 => 4 case 5 => 5 case 6 => 6 case 7 => 7
    case 8 => 8 case 9 => 9 case 10 => 10 case 11 => 11
    case 12 => 12 case 13 => 13 case 14 => 14 case _ => 15
  }

  /** A Python integer below 16 as a 16-bit value. */
  function ToBits(v: int): (r: bv16)
    requires 0 <= v < 16
    ensures r < 16 && ToInt(r) == v
  {
    match v
    case 0 => 0 case 1 => 1 case 2 => 2 case 3 => 3
    case 4 => 4 case 5 => 5 case 6 => 6 case 7 => 7
    case 8 => 8 case 9 => 9 case 10 => 10 case 11 => 11
    case 12 => 12 case 13 => 13 case 14 => 14 case _ => 15
  }

  /** Nibble j of a state as a Python integer. */
  function NibbleAt(s: bv16, j: bv16): (r: int)
    requires j < 4
    ensures 0 <= r < 16
  {
    ToInt(Nibble(s, j))
  }

  /** A table of chosen output differences, one per input difference. The
      characteristic depends on the DDT only through such a table. */
  predicate IsChoice(choice: seq<int>)
  {
    |choice| == 16 && forall dx :: 0 <= dx < 16 ==> 0 <= choice[dx] < 16
  }

  /** The choices `best_dy` makes for input differences 0..n-1. */
  function ChoicesUpTo(ddt: array2<int>, n: int): (c: seq<int>)
    reads ddt
    requires IsDdt(ddt) && 0 <= n <= 16
    ensures |c| == n && forall dx :: 0 <= dx < n ==> 0 <= c[dx] < 16
  {
    if n == 0 then [] else ChoicesUpTo(ddt, n - 1) + [BestDy(n - 1, ddt)]
  }

  /** The choices `best_dy` makes for every input difference. */
  function Choices(ddt: array2<int>): (c: seq<int>)
    reads ddt
    requires IsDdt(ddt)
    ensures IsChoice(c)
  {
    ChoicesUpTo(ddt, 16)
  }

  lemma {:induction false} ChoicesUpToAt(ddt: array2<int>, n: int, dx: int)
    requires IsDdt(ddt) && 0 <= dx < n <= 16
    ensures ChoicesUpTo(ddt, n)[dx] == BestDy(dx, ddt)
    decreases n
  {
    if dx < n - 1 {
      ChoicesUpToAt(ddt, n - 1, dx);
    }
  }

  /** Entry dx of the table is `best_dy(dx, ddt)`. */
  lemma ChoicesAt(ddt: array2<int>, dx: int)
    requires IsDdt(ddt) && 0 <= dx < 16
    ensures Choices(ddt)[dx] == BestDy(dx, ddt)
  {
    ChoicesUpToAt(ddt, 16, dx);
  }

  /** The output difference put in place of a nibble: the chosen one for an
      active nibble, 0 for an inactive one. */
  function Chosen(dx: int, choice: seq<int>): (dy: int)
    requires IsChoice(choice) && 0 <= dx < 16
    ensures 0 <= dy < 16
  {
    if dx != 0 then choice[dx] else 0
  }

  /** `next_state` after nibbles 0..n-1 of a round's input difference s:
      each active nibble's chosen output difference put in its place. */
  function NextDiff(s: bv16, choice: seq<int>, n: bv16): bv16
    requires IsChoice(choice) && n <= 4
  {
    if n == 0 then 0
    else NextDiff(s, choice, n - 1) | (ToBits(Chosen(NibbleAt(s, n - 1), choice)) << (4 * (n - 1)))
  }

  /** The entry `[r, j + 1, dx, dy]` for nibble j of round r's input
      difference s. */
  function NibbleEntry(s: bv16, r: int, choice: seq<int>, j: bv16): Entry
    requires IsChoice(choice) && j < 4
  {
    Entry(r, ToInt(j) + 1, NibbleAt(s, j), choice[NibbleAt(s, j)])
  }

  /** The entries recorded for nibbles 0..n-1 of round r's input difference. */
  function RoundEntries(s: bv16, r: int, choice: seq<int>, n: bv16): seq<Entry>
    requires IsChoice(choice) && n <= 4
  {
    if n == 0 then []
    else RoundEntries(s, r, choice, n - 1) + if NibbleAt(s, n - 1) != 0 then [NibbleEntry(s, r, choice, n - 1)] else []
  }

  /** The input difference of round r (from 1): `dx0 << 12` for round 1, then
      the chosen output differences passed through the permutation. */
  function RoundInput(dx0: bv16, choice: seq<int>, r: int): bv16
    requires IsChoice(choice) && r >= 1
    decreases r
  {
    if r == 1 then dx0 << 12 else Permuted(NextDiff(RoundInput(dx0, choice, r - 1), choice, 4))
  }

  /** The characteristic of rounds 1..rounds. */
  function Characteristic(dx0: bv16, choice: seq<int>, rounds: int): seq<Entry>
    requires IsChoice(choice)
    decreases rounds
  {
    if rounds <= 0 then []
    else Characteristic(dx0, choice, rounds - 1) + RoundEntries(RoundInput(dx0, choice, rounds), rounds, choice, 4)
  }

  /** Nibble j of s adds its chosen output difference to `next_state`. */
  lemma NextDiffStep(s: bv16, choice: seq<int>, j: bv16)
    requires IsChoice(choice) && j < 4
    ensures NibbleAt(s, j) != 0 ==>
      NextDiff(s, choice, j + 1) == NextDiff(s, choice, j) | (ToBits(choice[NibbleAt(s, j)]) << (4 * j))
    ensures NibbleAt(s, j) == 0 ==> NextDiff(s, choice, j + 1) == NextDiff(s, choice, j)
  {
  }

  /** Nibble j of s adds an entry exactly when it is active. */
  lemma RoundEntriesStep(s: bv16, r: int, choice: seq<int>, j: bv16)
    requires IsChoice(choice) && j < 4
    ensures NibbleAt(s, j) != 0 ==>
      RoundEntries(s, r, choice, j + 1) == RoundEntries(s, r, choice, j) + [NibbleEntry(s, r, choice, j)]
    ensures NibbleAt(s, j) == 0 ==> RoundEntries(s, r, choice, j + 1) == RoundEntries(s, r, choice, j)
  {
    assert j + 1 - 1 == j;
  }

  /** One pass of the outer loop of `build_characteristic` handles round r. */
  lemma RoundStep(dx0: bv16, choice: seq<int>, r: int, s: bv16, next: bv16, entries: seq<Entry>, s1: bv16)
    requires IsChoice(choice) && r >= 1
    requires s == RoundInput(dx0, choice, r) && next == NextDiff(s, choice, 4) && s1 == Permuted(next)
    requires entries == Characteristic(dx0, choice, r - 1) + RoundEntries(s, r, choice, 4)
    ensures s1 == RoundInput(dx0, choice, r + 1) && entries == Characteristic(dx0, choice, r)
  {
  }

  /** The loop of `build_characteristic` stops after round max(rounds, 0). */
  lemma CharacteristicDone(dx0: bv16, choice: seq<int>, rounds: int, last: int, ch: seq<Entry>)
    requires IsChoice(choice) && last == (if rounds >= 1 then rounds else 0)
    requires ch == Characteristic(dx0, choice, last)
    ensures ch == Characteristic(dx0, choice, rounds)
  {
  }

  /** One pass of the inner loop of `build_characteristic`: nibble j of
      the round's input difference, when active, appends its entry and puts
      its chosen output difference into `next_state`. */
  method VisitNibble(state: bv16, r: int, ddt: array2<int>, ghost choice: seq<int>, j: bv16,
                     nextState: bv16, entries: seq<Entry>)
    returns (nextState': bv16, entries': seq<Entry>)
    requires IsDdt(ddt) && choice == Choices(ddt) && j < 4
    requires nextState == NextDiff(state, choice, j) && entries == RoundEntries(state, r, choice, j)
    ensures nextState' == NextDiff(state, choice, j + 1) && entries' == RoundEntries(state, r, choice, j + 1)
  {
    nextState', entries' := nextState, entries;
    var dx := NibbleAt(state, j);
    NextDiffStep(state, choice, j);
    RoundEntriesStep(state, r, choice, j);
    if dx != 0 {
      var dy := BestDy(dx, ddt);
      ChoicesAt(ddt, dx);
      entries' := entries' + [Entry(r, ToInt(j) + 1, dx, dy)];
      nextState' := nextState' | (ToBits(dy) << (4 * j));
    }
  }

  /** The inner loop of `build_characteristic` over the four nibbles of a
      round's input difference: the entries it appends and `next_state`. */
  method RoundOutput(state: bv16, r: int, ddt: array2<int>, ghost choice: seq<int>)
    returns (nextState: bv16, entries: seq<Entry>)
    requires IsDdt(ddt) && choice == Choices(ddt)
    ensures nextState == NextDiff(state, choice, 4)
    ensures entries == RoundEntries(state, r, choice, 4)
  {
    nextState, entries := 0, [];
    var j: bv16 := 0;
    while j < 4
      invariant j <= 4
      invariant nextState == NextDiff(state, choice, j)
      invariant entries == RoundEntries(state, r, choice, j)
      decreases 4 - j
    {
      nextState, entries := VisitNibble(state, r, ddt, choice, j, nextState, entries);
      j := j + 1;
    }
  }

  /** One pass of the outer loop of `build_characteristic`: round r's
      entries are appended and the state moves to round r + 1. */
  method VisitRound(dx0: bv16, ddt: array2<int>, ghost choice: seq<int>, r: int, state: bv16,
                    characteristic: seq<Entry>)
    returns (state': bv16, characteristic': seq<Entry>)
    requires IsDdt(ddt) && choice == Choices(ddt) && r >= 1
    requires state == RoundInput(dx0, choice, r) && characteristic == Characteristic(dx0, choice, r - 1)
    ensures state' == RoundInput(dx0, choice, r + 1) && characteristic' == Characteristic(dx0, choice, r)
  {
    var nextState, entries := RoundOutput(state, r, ddt, choice);
    characteristic' := characteristic + entries;
    state' := Permute(nextState);
    RoundStep(dx0, choice, r, state, nextState, characteristic', state');
  }

  /** `build_characteristic`. The starting difference dx0 is taken modulo
      2^16: no bit above 15 of `dx0 << 12` is ever read. */
  method BuildCharacteristic(dx0: bv16, rounds: int, ddt: array2<int>) returns (characteristic: seq<Entry>)
    requires IsDdt(ddt)
    ensures characteristic == Characteristic(dx0, Choices(ddt), rounds)
  {
    ghost var choice := Choices(ddt);
    var state := dx0 << 12;
    characteristic := [];
    var last := if rounds >= 1 then rounds else 0;
    for r := 1 to last + 1
      invariant state == RoundInput(dx0, choice, r)
      invariant characteristic == Characteristic(dx0, choice, r - 1)
    {
      state, characteristic := VisitRound(dx0, ddt, choice, r, state, characteristic);
    }
    CharacteristicDone(dx0, choice, rounds, last, characteristic);
  }

  // ---------------------------------------------------------------------
  // Properties of the characteristic

  lemma ToIntPred(n: bv16)
    requires 1 <= n <= 4
    ensures ToInt(n - 1) + 1 == ToInt(n)
  {
  }

  /** Entries of round r alone, each for an active nibble (S-box 1..top)
      with the chosen output difference, in increasing S-box order. */
  predicate RoundShaped(es: seq<Entry>, r: int, choice: seq<int>, top: int)
    requires IsChoice(choice)
  {
    (forall i :: 0 <= i < |es| ==>
       es[i].round == r && 1 <= es[i].sbox <= top && 0 < es[i].dx < 16 && es[i].dy == choice[es[i].dx])
    && forall i, k :: 0 <= i < k < |es| ==> es[i].sbox < es[k].sbox
  }

  lemma RoundShapedAppend(prev: seq<Entry>, tail: seq<Entry>, r: int, choice: seq<int>, top: int)
    requires IsChoice(choice) && top >= 1 && RoundShaped(prev, r, choice, top - 1) && |tail| <= 1
    requires forall i :: 0 <= i < |tail| ==>
      tail[i].round == r && tail[i].sbox == top && 0 < tail[i].dx < 16 && tail[i].dy == choice[tail[i].dx]
    ensures RoundShaped(prev + tail, r, choice, top)
  {
    var es := prev + tail;
    forall i | 0 <= i < |es|
      ensures es[i].round == r && 1 <= es[i].sbox <= top && 0 < es[i].dx < 16 && es[i].dy == choice[es[i].dx]
      ensures es[i].sbox < top <==> i < |prev|
    {
      if i < |prev| {
        assert es[i] == prev[i];
      } else {
        assert es[i] == tail[i - |prev|];
      }
    }
    forall i, k | 0 <= i < k < |es|
      ensures es[i].sbox < es[k].sbox
    {
      if k < |prev| {
        assert es[i] == prev[i] && es[k] == prev[k];
      }
    }
  }

  /** e is the entry of one of nibbles 0..n-1 of s. */
  ghost predicate FromNibble(e: Entry, s: bv16, r: int, choice: seq<int>, n: bv16)
    requires IsChoice(choice) && n <= 4
  {
    exists j: bv16 :: j < n && e == NibbleEntry(s, r, choice, j)
  }

  /** The entries of one round have that shape, and each is the entry of
      one of its nibbles. */
  lemma {:induction false} RoundEntriesShape(s: bv16, r: int, choice: seq<int>, n: bv16)
    requires IsChoice(choice) && n <= 4
    ensures RoundShaped(RoundEntries(s, r, choice, n), r, choice, ToInt(n))
    ensures forall i :: 0 <= i < |RoundEntries(s, r, choice, n)| ==>
      FromNibble(RoundEntries(s, r, choice, n)[i], s, r, choice, n)
  {
    if n > 0 {
      var es, prev := RoundEntries(s, r, choice, n), RoundEntries(s, r, choice, n - 1);
      RoundEntriesShape(s, r, choice, n - 1);
      ToIntPred(n);
      var tail := if NibbleAt(s, n - 1) != 0 then [NibbleEntry(s, r, choice, n - 1)] else [];
      assert es == prev + tail;
      RoundShapedAppend(prev, tail, r, choice, ToInt(n));
      forall i | 0 <= i < |es|
        ensures FromNibble(es[i], s, r, choice, n)
      {
        if i < |prev| {
          assert FromNibble(prev[i], s, r, choice, n - 1);
          var j: bv16 :| j < n - 1 && prev[i] == NibbleEntry(s, r, choice, j);
          assert j < n && es[i] == prev[i];
        } else {
          assert n - 1 < n && es[i] == NibbleEntry(s, r, choice, n - 1);
        }
      }
    }
  }

  lemma {:induction false} RoundEntriesPrefix(s: bv16, r: int, choice: seq<int>, m: bv16, n: bv16)
    requires IsChoice(choice) && m <= n <= 4
    ensures RoundEntries(s, r, choice, m) <= RoundEntries(s, r, choice, n)
    decreases n
  {
    if m < n {
      RoundEntriesPrefix(s, r, choice, m, n - 1);
    }
  }

  /** A round records nibble j exactly when that nibble is active. */
  lemma RoundEntriesActive(s: bv16, r: int, choice: seq<int>, j: bv16)
    requires IsChoice(choice) && j < 4
    ensures NibbleEntry(s, r, choice, j) in RoundEntries(s, r, choice, 4) <==> NibbleAt(s, j) != 0
  {
    var es := RoundEntries(s, r, choice, 4);
    if NibbleAt(s, j) != 0 {
      RoundEntriesStep(s, r, choice, j);
      RoundEntriesPrefix(s, r, choice, j + 1, 4);
      var before := RoundEntries(s, r, choice, j + 1);
      assert before[|before| - 1] == NibbleEntry(s, r, choice, j);
      assert es[|before| - 1] == before[|before| - 1];
    } else {
      RoundEntriesShape(s, r, choice, 4);
      forall i | 0 <= i < |es|
        ensures es[i] != NibbleEntry(s, r, choice, j)
      {
        assert es[i].dx != 0;
      }
    }
  }

  /** A characteristic of rounds 1..rounds: every entry is an active S-box
      (1..4) of one of those rounds with its chosen output difference, and
      the entries run in strictly increasing (round, S-box) order. */
  predicate CharacteristicShaped(c: seq<Entry>, choice: seq<int>, rounds: int)
    requires IsChoice(choice)
  {
    (forall i :: 0 <= i < |c| ==>
       1 <= c[i].round <= rounds && 1 <= c[i].sbox <= 4 && 0 < c[i].dx < 16 && c[i].dy == choice[c[i].dx])
    && forall i, k :: 0 <= i < k < |c| ==>
         c[i].round < c[k].round || (c[i].round == c[k].round && c[i].sbox < c[k].sbox)
  }

  /** Appending a round's entries to a characteristic of the rounds before. */
  lemma ShapedAppend(prev: seq<Entry>, es: seq<Entry>, choice: seq<int>, rounds: int)
    requires IsChoice(choice) && rounds >= 1
    requires CharacteristicShaped(prev, choice, rounds - 1) && RoundShaped(es, rounds, choice, 4)
    ensures CharacteristicShaped(prev + es, choice, rounds)
  {
    var c := prev + es;
    forall i | 0 <= i < |c|
      ensures 1 <= c[i].round <= rounds && 1 <= c[i].sbox <= 4 && 0 < c[i].dx < 16 && c[i].dy == choice[c[i].dx]
      ensures c[i].round < rounds <==> i < |prev|
    {
      if i < |prev| {
        assert c[i] == prev[i];
      } else {
        assert c[i] == es[i - |prev|];
      }
    }
    forall i, k | 0 <= i < k < |c|
      ensures c[i].round < c[k].round || (c[i].round == c[k].round && c[i].sbox < c[k].sbox)
    {
      if k < |prev| {
        assert c[i] == prev[i] && c[k] == prev[k];
      } else if |prev| <= i {
        assert c[i] == es[i - |prev|] && c[k] == es[k - |prev|];
      }
    }
  }

  /** The characteristic has the shape above. */
  lemma {:induction false} CharacteristicShape(dx0: bv16, choice: seq<int>, rounds: int)
    requires IsChoice(choice)
    ensures CharacteristicShaped(Characteristic(dx0, choice, rounds), choice, rounds)
    decreases rounds
  {
    if rounds > 0 {
      var s := RoundInput(dx0, choice, rounds);
      CharacteristicShape(dx0, choice, rounds - 1);
      RoundEntriesShape(s, rounds, choice, 4);
      assert ToInt(4) == 4;
      ShapedAppend(Characteristic(dx0, choice, rounds - 1), RoundEntries(s, rounds, choice, 4), choice, rounds);
    }
  }

  lemma InPrefix(a: seq<Entry>, b: seq<Entry>, c: seq<Entry>, e: Entry)
    requires e in b && a + b <= c
    ensures e in c
  {
    var k :| 0 <= k < |b| && b[k] == e;
    assert (a + b)[|a| + k] == e;
    assert c[|a| + k] == e;
  }

  /** Running more rounds only appends entries. */
  lemma {:induction false} CharacteristicPrefix(dx0: bv16, choice: seq<int>, r1: int, r2: int)
    requires IsChoice(choice) && r1 <= r2
    ensures Characteristic(dx0, choice, r1) <= Characteristic(dx0, choice, r2)
    decreases r2 - r1
  {
    if r1 < r2 {
      CharacteristicPrefix(dx0, choice, r1, r2 - 1);
      var a, b := Characteristic(dx0, choice, r1), Characteristic(dx0, choice, r2 - 1);
      if r2 <= 0 {
        assert a == [];
      } else {
        PrefixAppend(a, b, RoundEntries(RoundInput(dx0, choice, r2), r2, choice, 4));
      }
    }
  }

  lemma PrefixAppend(a: seq<Entry>, b: seq<Entry>, tail: seq<Entry>)
    requires a <= b
    ensures a <= b + tail
  {
    assert (b + tail)[..|a|] == b[..|a|];
  }

  /** For each round r of 1..rounds and each nibble j, the characteristic
      holds the entry of nibble j of round r's input difference exactly when
      that nibble is active. */
  lemma CharacteristicActive(dx0: bv16, choice: seq<int>, rounds: int, r: int, j: bv16)
    requires IsChoice(choice) && 1 <= r <= rounds && j < 4
    ensures var s := RoundInput(dx0, choice, r);
      NibbleEntry(s, r, choice, j) in Characteristic(dx0, choice, rounds) <==> NibbleAt(s, j) != 0
  {
    var s := RoundInput(dx0, choice, r);
    var c := Characteristic(dx0, choice, rounds);
    var e := NibbleEntry(s, r, choice, j);
    if NibbleAt(s, j) != 0 {
      RoundEntriesActive(s, r, choice, j);
      CharacteristicPrefix(dx0, choice, r, rounds);
      InPrefix(Characteristic(dx0, choice, r - 1), RoundEntries(s, r, choice, 4), c, e);
    } else {
      CharacteristicShape(dx0, choice, rounds);
      forall k | 0 <= k < |c|
        ensures c[k] != e
      {
        assert c[k].dx != 0;
      }
    }
  }

  lemma {:induction false} NextDiffNibbles(s: bv16, choice: seq<int>, n: bv16)
    requires IsChoice(choice) && n <= 4
    ensures forall i: bv16 :: i < 4 ==>
      Nibble(NextDiff(s, choice, n), i) == if i < n then ToBits(Chosen(NibbleAt(s, i), choice)) else 0
  {
    if n > 0 {
      NextDiffNibbles(s, choice, n - 1);
      var v := ToBits(Chosen(NibbleAt(s, n - 1), choice));
      forall i: bv16 | i < 4
        ensures Nibble(NextDiff(s, choice, n), i) == if i < n then ToBits(Chosen(NibbleAt(s, i), choice)) else 0
      {
        NibbleOfOr(NextDiff(s, choice, n - 1), v << (4 * (n - 1)), i);
        NibbleOfShifted(v, n - 1, i);
      }
    }
  }

  /** Every entry of `build_characteristic` is an active S-box (1..4) of
      a round 1..rounds, its output difference is `best_dy` of its input
      difference, and the rounds never decrease along the list. */
  lemma CharacteristicEntries(dx0: bv16, rounds: int, ddt: array2<int>)
    requires IsDdt(ddt)
    ensures var c := Characteristic(dx0, Choices(ddt), rounds);
      (forall i :: 0 <= i < |c| ==>
         1 <= c[i].round <= rounds && 1 <= c[i].sbox <= 4 && 0 < c[i].dx < 16 && c[i].dy == BestDy(c[i].dx, ddt))
      && forall i, k :: 0 <= i < k < |c| ==> c[i].round <= c[k].round
  {
    var choice := Choices(ddt);
    var c := Characteristic(dx0, choice, rounds);
    CharacteristicShape(dx0, choice, rounds);
    forall i | 0 <= i < |c|
      ensures c[i].dy == BestDy(c[i].dx, ddt)
    {
      ChoicesAt(ddt, c[i].dx);
    }
  }

  /** A zero input difference stays zero in every round. */
  lemma {:induction false} ZeroRoundInput(choice: seq<int>, r: int)
    requires IsChoice(choice) && r >= 1
    ensures RoundInput(0, choice, r) == 0
    decreases r
  {
    if r > 1 {
      ZeroRoundInput(choice, r - 1);
      var next := NextDiff(0, choice, 4);
      NextDiffNibbles(0, choice, 4);
      forall i: bv16 | i < 4
        ensures Nibble(next, i) == Nibble(0, i)
      {
        assert NibbleAt(0, i) == 0;
      }
      NibblesDetermine(next, 0);
      PermutedBits(0);
      BitsDetermine(Permuted(0), 0);
    }
  }

  /** A zero round input difference records no entry. */
  lemma {:induction false} ZeroRoundEntries(r: int, choice: seq<int>, n: bv16)
    requires IsChoice(choice) && n <= 4
    ensures RoundEntries(0, r, choice, n) == []
  {
    if n > 0 {
      ZeroRoundEntries(r, choice, n - 1);
      assert NibbleAt(0, n - 1) == 0;
    }
  }

  /** With no starting difference, no S-box is ever active
      ("if dx=0, then obviously dy=0"). */
  lemma {:induction false} ZeroCharacteristic(choice: seq<int>, rounds: int)
    requires IsChoice(choice)
    ensures Characteristic(0, choice, rounds) == []
    decreases rounds
  {
    if rounds > 0 {
      ZeroCharacteristic(choice, rounds - 1);
      ZeroRoundInput(choice, rounds);
      ZeroRoundEntries(rounds, choice, 4);
    }
  }
}
