# Secret sharing and a toy SPN cipher, modelled in Dafny

This project models the arithmetic core of four small Python scripts and
proves properties of it.

- **vss_basic.py**: Pedersen-style verifiable secret sharing.
  - The dealer evaluates two coefficient lists at x = 1..n modulo the
    subgroup order q.
  - It commits to every coefficient pair as g^a · h^b mod p.
  - Every share is checked against the product of the commitments raised
    to x^j.
  - The secret is rebuilt by Lagrange interpolation at 0.
- **version_1.py** and **project.py**: plain Shamir sharing of one secret,
  and of two secrets at once, over the prime 2^127 − 1.
  - Shares are polynomial values at x = 1..n.
  - Reconstruction interpolates the first t points at 0, with Python's
    `pow(·, -1, p)` inverse.
- **differential_cryptanalysis.py**: a 16-bit substitution-permutation
  cipher.
  - Four rounds of round-key xor, a 4-bit S-box layer and a bit
    permutation.
  - The difference distribution table (DDT) of its S-box.
  - `best_dy`, and the differential characteristic that
    `build_characteristic` builds greedily from the DDT.

## Files and modules

Every file holds one module.

- `modarith.dfy` (`ModArith`): congruence lemmas for `%`.
- `polynomial.dfy` (`Polynomial`): powers, and polynomial values evaluated
  exactly and as the scripts' `sum(coeff * pow(x, i, m)) % m`.
- `inverse.dfy` (`Inverse`): the modular inverse by the extended Euclidean
  algorithm. It is `Some` exactly when an inverse exists.
- `lagrange.dfy` (`Lagrange`): Lagrange interpolation as a specification.
  It proves the interpolation theorem: t points of a polynomial of degree
  below t give back its value modulo q, and at 0 its constant term.
- `vss_basic.dfy` (`VssBasic`), `version_1.dfy` (`ShamirVersion1`) and
  `project.dfy` (`ShamirProject`): the sharing scripts.
- `spn_cipher.dfy` (`SpnCipher`): the cipher, on `bv16` values.
- `differential.dfy` (`DifferentialTables`): Python's `^` on integers, the
  DDT, `best_dy` and the characteristic.

## How the model is built

- **Methods and specifications.** The loops of the scripts are methods
  with loop invariants. Each is proved equal to a specification function
  or predicate, and the scripts' promises are lemmas about those
  functions:
  - `Interpolate` and `Recovered` for reconstruction;
  - `ShareVerifies` for share verification;
  - `Substitute`, `Permuted` and `Rounds` for the cipher;
  - `Ddt` for `compute_ddt`;
  - `Characteristic` for `build_characteristic`.
- **Reductions.** The reconstruction methods reduce exactly where the code
  does. In version_1.py each factor is reduced but `li` is not. In
  vss_basic.py `li` is reduced after every factor. The running total is
  reduced after every term in both. The proofs carry the congruence modulo
  p (or q) through those reductions.
- **Modelled by hand.** Python's `^` on non-negative integers is defined
  bit by bit (`Xor`). Python's `max(row)` and `row.index(v)` are
  `RowMax` and `IndexFrom`.
- **One loop for two scripts.** `lagrange_interpolate` inside project.py's
  `recover_secret` is the same code as version_1.py's `recover_secret`.
  Both are modelled by `ShamirVersion1.RecoverSecret`, which
  `ShamirProject.RecoverSecret` calls once per list.
- **Inputs.** Randomness becomes explicit inputs: the random coefficients,
  the positions `random.sample` picks, and the key and plaintexts. The
  group of vss_basic.py (p, q, g, h) is given. The lemmas that need it
  assume what the parameter search establishes: g^q ≡ 1 and h^q ≡ 1
  (mod p).
- **Where the code and the intended design disagree, the model follows
  the code:**
  - There are no threshold or range errors. A threshold t ≤ 0 gives
    coefficient lists of length 1, because `range(t - 1)` is empty.
  - Secrets are not reduced before sharing.
  - The unused parameter `p` of `generate_shares` is dropped. The modulus
    there is the module-level `q` (vss_basic.py:33,38).
  - The failures the code can raise are preconditions of the members
    that model it, not error results. One is the inverse failure for a
    difference xi − xj with no inverse (`AllInvertible`).
    `DistinctPointsInvertible` shows it always holds for distinct x in
    1..q−1 and a prime q. The others are index errors for lists that are
    too short, and a zero modulus. Every call in the scripts meets these
    preconditions. "## Left out" lists each of them.

## Model

Rows whose third column begins "proof helper:" are single steps or
small facts. They serve the proofs of the rows around them and state
no promise of the code on their own.

| member | source | states |
|---|---|---|
| Polynomial.Evaluate | version_1.py:27 | the share value `sum(coeff * pow(x, power, p)) % p` lies in [0, p) and equals the polynomial's exact value at x reduced modulo p |
| Polynomial.ReducedPowerSumCong | vss_basic.py:38-39 | reducing each power `pow(x, i, q)` before summing leaves the sum's residue modulo q unchanged |
| Polynomial.PolyEvalAtZero | vss_basic.py:33 | a coefficient list evaluated at 0 gives its first coefficient, the secret |
| Polynomial.PowReduceExponent | vss_basic.py:18 | when g^q ≡ 1 (mod p), g^e ≡ g^(e mod q), so share values reduced modulo q keep their commitments |
| Inverse.ModInverse | vss_basic.py:61-62 | the modular inverse that `number.inverse` and `pow(a, -1, p)` compute: a value y in [0, m) with a·y ≡ 1 (mod m) when one exists, and None exactly when no y has that property |
| Inverse.InverseIsUnique | version_1.py:39 | an inverse modulo m in [0, m) is unique, so every way of computing it returns the same value |
| Inverse.PrimeInvertible | version_1.py:39 | modulo a prime, every difference that is not a multiple of the prime has an inverse |
| Inverse.NoInverse | version_1.py:39 | a common factor of a and m other than 1 leaves a without any inverse modulo m (the case where Python raises) |
| Lagrange.InvIsModInverse | version_1.py:39 | the inverse used by the specification is the one the code computes, and d times it is 1 modulo q |
| Lagrange.PartitionOfUnity | vss_basic.py:66-73 | for points with invertible differences, the Lagrange basis values at any z sum to 1 modulo q |
| Lagrange.MonomialIdentity | vss_basic.py:66-75 | for every m below the number of points, the basis values weighted by xi^m sum to z^m modulo q |
| Lagrange.EvalTermsIdentity | vss_basic.py:66-75 | interpolating the values of a polynomial with at most as many coefficients as points gives the polynomial's value at z modulo q |
| Lagrange.InterpolationTheorem | vss_basic.py:60-76 | points whose y agree modulo q with a polynomial of degree below their count interpolate to that polynomial's value at every z |
| Lagrange.InterpolationAtZero | vss_basic.py:60-76 | the same points interpolated at 0 give the constant term modulo q |
| Lagrange.DistinctPointsInvertible | version_1.py:26-27 | distinct x in 1..q−1 modulo a prime q have invertible differences, so reconstruction never hits the inverse failure |
| Lagrange.InterpolateSingle | vss_basic.py:65-76 | a single point interpolates to its own y at every z |
| VssBasic.Commitment | vss_basic.py:27-28 | the commitment lies in [0, p) and equals g^a · h^b reduced modulo p |
| VssBasic.Commitments | vss_basic.py:47 | one commitment per index in `range(t)`: t of them, none for t ≤ 0 |
| VssBasic.GenerateShares | vss_basic.py:32-42 | the coefficient lists are the secrets followed by the random coefficients (length t, or 1 when t ≤ 0); exactly max(n, 0) shares, share i at x = i + 1 with fx and gx in [0, q) equal to the two polynomials at x modulo q |
| VssBasic.VerifyShares | vss_basic.py:46-56 | returns true exactly when every share's commitment equals the product of the rebuilt commitments raised to x^j (the body returns at the first mismatch, which the result does not show) |
| VssBasic.RhsProductValue | vss_basic.py:51-53 | the running product over the first k commitments is congruent to g^f(x) · h^g(x) for the polynomials cut to k coefficients |
| VssBasic.RhsProductBound | vss_basic.py:51-53 | the running product stays in [0, p) |
| VssBasic.CommitmentPower | vss_basic.py:53 | a commitment raised to e commits to a·e and b·e (the homomorphism share verification relies on) |
| VssBasic.VerificationEquation | vss_basic.py:46-56 | when g and h have order dividing q, a share passes exactly when its commitment equals the commitment to the true values f(x) mod q and g(x) mod q |
| VssBasic.HonestSharesVerify | vss_basic.py:32-56 | shares computed from the coefficient lists pass verification with the same lists |
| VssBasic.DealAndVerify | vss_basic.py:91-97 | for t ≥ 1 and g, h in the order-q subgroup, every share dealt is accepted |
| VssBasic.IndependentGeneratorOrder | vss_basic.py:21-23 | h = g^a mod p lies in the order-q subgroup whenever g does |
| VssBasic.ModInverseOfResidue | vss_basic.py:72 | inverting (xi − xj) % q gives the same inverse as inverting xi − xj |
| VssBasic.BasisValue | vss_basic.py:68-73 | the inner loop's `li`, reduced after every factor, agrees modulo q with the Lagrange basis value of point i at 0 |
| VssBasic.LagrangeInterpolateZero | vss_basic.py:60-76 | the result lies in [0, q), equals the interpolation of the points at 0 modulo q, and is ys[0] mod q for a single point |
| VssBasic.RecoverSecretFromShares | vss_basic.py:101-106 | interpolating the first t dealt shares at 0 gives secret_s modulo a prime q above t |
| VssBasic.DealAndReconstruct | vss_basic.py:92-106 | dealing and then interpolating the first t of n shares returns secret_s mod q |
| ShamirVersion1.GeneratePolynomial | version_1.py:23-29 | exactly max(n, 0) shares, share i at x = i + 1 (never 0), with y in [0, p) equal to the polynomial `[secret] + rand` at x modulo p |
| ShamirVersion1.BasisValue | version_1.py:36-40 | the inner loop's `li`, a product of factors each reduced modulo p, agrees modulo p with the basis value of point i at 0 |
| ShamirVersion1.RecoverSecret | version_1.py:31-42 | the result lies in [0, p), equals the interpolation at 0 of the first t shares modulo p, and is shares[0].y mod p for t = 1 |
| ShamirVersion1.RecoveredReadsPrefix | version_1.py:31-42 | reconstruction depends only on shares[0..t) |
| ShamirVersion1.RecoverFromPoints | version_1.py:31-42 | t points of a polynomial with t coefficients, at distinct x in 1..p−1 of a prime p, are reconstructible and recover its constant term mod p |
| ShamirVersion1.Select | version_1.py:60 | the t shares that `random.sample` picks, given as their positions |
| ShamirVersion1.ShareAndRecover | version_1.py:56-64 | a secret below p, shared among n < p parties with threshold t ≥ 1, comes back from any t distinct shares |
| ShamirProject.GeneratePolynomial | project.py:22-32 | two lists, each of max(n, 0) shares at x = 1..n in order, with y in [0, p) equal to the polynomial of secret 1 (respectively 2) at x modulo p |
| ShamirProject.RecoverSecret | project.py:34-50 | output k is the reconstruction of list k alone, in [0, p), and each list's first y mod p for t = 1 |
| ShamirProject.ShareAndRecoverBoth | project.py:89-94 | any t distinct shares picked from each list give back both secrets below p |
| SpnCipher.Sbox | differential_cryptanalysis.py:3-6 | `SBOX[x]` is a nibble |
| SpnCipher.SboxIsPermutation | differential_cryptanalysis.py:3-6 | SBOX is injective on nibbles, hence a permutation of 0..15 |
| SpnCipher.InvSbox | differential_cryptanalysis.py:133-134 | `inv_sbox(v)` is a nibble that SBOX maps to v |
| SpnCipher.InvSboxIsIndex | differential_cryptanalysis.py:133-134 | SBOX[x] == v holds exactly when x == inv_sbox(v), so inv_sbox(SBOX[x]) == x |
| SpnCipher.Perm | differential_cryptanalysis.py:7-10 | `PERM[i]` is a bit position |
| SpnCipher.PermIsTranspose | differential_cryptanalysis.py:7-10 | PERM is the 4 × 4 transpose: it swaps the two 2-bit halves of the position |
| SpnCipher.PermInvolutive | differential_cryptanalysis.py:7-10 | PERM[PERM[i]] == i |
| SpnCipher.NibblesDetermine | differential_cryptanalysis.py:14 | a 16-bit state is determined by its four nibbles `(state >> 4i) & 0xF` |
| SpnCipher.BitsDetermine | differential_cryptanalysis.py:22 | a 16-bit state is determined by its sixteen bits `(state >> i) & 1` |
| SpnCipher.MapNibblesNibble | differential_cryptanalysis.py:12-16 | proof helper: after the first n nibbles are ORed in, nibble i of `new_state` is the box of nibble i of the input for i < n and 0 above |
| SpnCipher.SubstituteNibbles | differential_cryptanalysis.py:11-17 | nibble i of the S-box layer's output is SBOX of nibble i of its input |
| SpnCipher.SBoxLayer | differential_cryptanalysis.py:11-17 | the loop computes the S-box layer: each output nibble is SBOX of the matching input nibble |
| SpnCipher.InvSubstituteSubstitute | differential_cryptanalysis.py:11-17 | the inverse layer built from `inv_sbox` (lines 133-134) undoes the S-box layer |
| SpnCipher.PermuteBitsBit | differential_cryptanalysis.py:21-23 | proof helper: after the first n bits are ORed in, bit i of `new_state` is bit PERM[i] of the input for i < n and 0 above |
| SpnCipher.PermuteBitsStep | differential_cryptanalysis.py:22-23 | proof helper: one pass of `permute`'s loop ORs bit PERM[i] of the state into position i |
| SpnCipher.PermutedBits | differential_cryptanalysis.py:19-24 | bit i of the permuted state is bit PERM[i] of the input |
| SpnCipher.Permute | differential_cryptanalysis.py:19-24 | the loop computes the permutation: bit i of the output is bit PERM[i] of the input |
| SpnCipher.PermuteInvolution | differential_cryptanalysis.py:19-24 | `permute(permute(s)) == s` |
| SpnCipher.RoundKeyRotates | differential_cryptanalysis.py:26-27 | for r < 16, `round_key(key, r)` is key rotated left by r: bit i comes from bit i − r mod 16 |
| SpnCipher.RoundKeyZero | differential_cryptanalysis.py:26-27 | `round_key(key, 0) == key` |
| SpnCipher.EncryptStep | differential_cryptanalysis.py:32-34 | proof helper: one pass of the loop in `encrypt` applies the next round under `round_key(key, r)` |
| SpnCipher.Encrypt | differential_cryptanalysis.py:29-35 | the result is the 16-bit state after four rounds of key xor, S-box layer and permutation |
| SpnCipher.InvRoundRound | differential_cryptanalysis.py:32-34 | one round is undone by permuting again, applying `inv_sbox` to each nibble and xoring the round key |
| SpnCipher.UnroundsRounds | differential_cryptanalysis.py:31-34 | undoing the first n rounds in reverse order gives back the plaintext |
| SpnCipher.DecryptEncrypt | differential_cryptanalysis.py:29-35 | decryption inverts `encrypt` for every key, so `encrypt(·, key)` is a bijection on 16-bit values |
| DifferentialTables.XorUnfold | differential_cryptanalysis.py:42 | proof helper: Python's `^` works bit by bit: the low bit is the parity of the two low bits, and the rest is the xor of the halves |
| DifferentialTables.XorComm | differential_cryptanalysis.py:42 | `a ^ b == b ^ a` |
| DifferentialTables.XorSelf | differential_cryptanalysis.py:42 | `a ^ a == 0` |
| DifferentialTables.XorCancel | differential_cryptanalysis.py:42 | `(a ^ b) ^ b == a` |
| DifferentialTables.XorFixed | differential_cryptanalysis.py:42 | `a ^ b == a` only for b == 0 |
| DifferentialTables.XorBelow | differential_cryptanalysis.py:42 | xor of two values below 2^m is below 2^m |
| DifferentialTables.XorNibble | differential_cryptanalysis.py:42 | xor of two nibbles is a nibble, so `SBOX[dx ^ x]` is in range |
| DifferentialTables.SboxAtAgrees | differential_cryptanalysis.py:3-6 | proof helper: the integer S-box used for the DDT is the cipher's S-box |
| DifferentialTables.DiffPaired | differential_cryptanalysis.py:42 | inputs x and x ^ dx give the same output difference for dx |
| DifferentialTables.PendingStep | differential_cryptanalysis.py:41-43 | proof helper: one pass of the inner loop counts the pair (x, dx) in entry [dx][dy] and in no other entry |
| DifferentialTables.CountStep | differential_cryptanalysis.py:40-43 | proof helper: one pass of the outer loop adds, to every entry, the pairs with input x |
| DifferentialTables.VisitInput | differential_cryptanalysis.py:41-43 | the inner loop for input x turns the counts over inputs below x into the counts over inputs below x + 1 |
| DifferentialTables.ComputeDdt | differential_cryptanalysis.py:38-44 | a fresh 16 × 16 table whose entry [dx][dy] is the number of x with `SBOX[x] ^ SBOX[dx ^ x] == dy` |
| DifferentialTables.RowTotalStep | differential_cryptanalysis.py:40-43 | proof helper: each input x adds exactly one to the row, in the column of its output difference |
| DifferentialTables.RowTotalEmpty | differential_cryptanalysis.py:39 | proof helper: before any input is counted, every row of the table sums to 0 |
| DifferentialTables.RowTotalAll | differential_cryptanalysis.py:38-44 | the row of dx summed over all columns counts the inputs seen so far |
| DifferentialTables.DdtRowSum | differential_cryptanalysis.py:38-44 | every row of the DDT sums to 16 |
| DifferentialTables.CountZeroDifference | differential_cryptanalysis.py:42 | with input difference 0 every x has output difference 0 |
| DifferentialTables.DdtZeroRow | differential_cryptanalysis.py:38-44 | row 0 of the DDT is 16 in column 0 and 0 elsewhere, so `ddt[0][0] == 16` |
| DifferentialTables.HitsMembers | differential_cryptanalysis.py:42 | the inputs counted in an entry are exactly those below n with that output difference |
| DifferentialTables.HitsStep | differential_cryptanalysis.py:43 | proof helper: counting one more input adds one to the entry exactly when the input has that output difference |
| DifferentialTables.CountIsHits | differential_cryptanalysis.py:38-44 | entry [dx][dy] is the size of the set of inputs with output difference dy |
| DifferentialTables.PairedSetEven | differential_cryptanalysis.py:42 | a finite set closed under a fixed-point-free involution has even size |
| DifferentialTables.HitsPaired | differential_cryptanalysis.py:42 | for dx ≠ 0, x ↦ x ^ dx maps the inputs of an entry to other inputs of the same entry and back |
| DifferentialTables.HitsEven | differential_cryptanalysis.py:42 | for dx ≠ 0 the inputs of every entry come in pairs |
| DifferentialTables.DdtEven | differential_cryptanalysis.py:38-44 | every entry of the DDT is even |
| DifferentialTables.RowMax | differential_cryptanalysis.py:51 | `max(row)` is at least every entry of the row and is attained in it |
| DifferentialTables.IndexFrom | differential_cryptanalysis.py:52 | `row.index(v)` is the first column holding v |
| DifferentialTables.BestDy | differential_cryptanalysis.py:49-53 | `best_dy` returns a column whose entry is the row maximum, and every column before it is strictly smaller: the smallest index attaining the maximum |
| DifferentialTables.ToBits | differential_cryptanalysis.py:99 | an output difference below 16 as a 16-bit value, with `ToInt` as its inverse |
| DifferentialTables.ChoicesUpToAt | differential_cryptanalysis.py:97 | proof helper: the table of choices holds `best_dy(dx, ddt)` at every input difference below n |
| DifferentialTables.ChoicesAt | differential_cryptanalysis.py:97 | the table of choices holds `best_dy(dx, ddt)` at every input difference |
| DifferentialTables.NextDiffStep | differential_cryptanalysis.py:95-99 | proof helper: an active nibble ORs its chosen output difference into `next_state` at its place, and an inactive one changes nothing |
| DifferentialTables.RoundEntriesStep | differential_cryptanalysis.py:95-98 | proof helper: an active nibble j appends `[r, j + 1, dx, dy]`, and an inactive one appends nothing |
| DifferentialTables.RoundStep | differential_cryptanalysis.py:91-103 | proof helper: a full round appends that round's entries and moves the state to the permuted `next_state` |
| DifferentialTables.CharacteristicDone | differential_cryptanalysis.py:91 | proof helper: the loop over `range(1, rounds + 1)` has handled every round once it passes round max(rounds, 0) |
| DifferentialTables.VisitNibble | differential_cryptanalysis.py:94-99 | one pass of the inner loop for nibble j of the round's input difference |
| DifferentialTables.RoundOutput | differential_cryptanalysis.py:92-99 | the inner loop's `next_state` and appended entries for one round |
| DifferentialTables.VisitRound | differential_cryptanalysis.py:91-103 | one pass of the outer loop: the round's entries are appended and the state becomes the next round's input difference |
| DifferentialTables.BuildCharacteristic | differential_cryptanalysis.py:87-105 | the result is the characteristic of rounds 1..rounds from `dx0 << 12`, with each active nibble's output difference chosen by `best_dy` |
| DifferentialTables.ToIntPred | differential_cryptanalysis.py:98 | proof helper: the S-box number j + 1 of nibble j grows by one from nibble to nibble |
| DifferentialTables.RoundShapedAppend | differential_cryptanalysis.py:94-98 | proof helper: appending the entry of S-box `top` to a round's entries for S-boxes below `top` keeps them ordered |
| DifferentialTables.RoundEntriesShape | differential_cryptanalysis.py:94-98 | a round's entries all belong to that round, have an S-box in 1..4, a nonzero dx and the chosen dy, and come in increasing S-box order; each is the entry of one of the round's nibbles |
| DifferentialTables.RoundEntriesPrefix | differential_cryptanalysis.py:94-98 | the entries of the first m nibbles are a prefix of those of the first n ≥ m |
| DifferentialTables.RoundEntriesActive | differential_cryptanalysis.py:95-98 | a round records nibble j exactly when that nibble's input difference is nonzero |
| DifferentialTables.ShapedAppend | differential_cryptanalysis.py:91-103 | proof helper: appending round r's entries to the characteristic of rounds below r keeps it ordered |
| DifferentialTables.CharacteristicShape | differential_cryptanalysis.py:87-105 | every entry has a round in 1..rounds, an S-box in 1..4, dx ≠ 0 and the chosen dy, and the entries run in strictly increasing (round, S-box) order |
| DifferentialTables.InPrefix | differential_cryptanalysis.py:98 | proof helper: an entry appended in some round stays in every longer characteristic |
| DifferentialTables.CharacteristicPrefix | differential_cryptanalysis.py:91-105 | more rounds only append entries |
| DifferentialTables.PrefixAppend | differential_cryptanalysis.py:98 | proof helper: appending entries keeps every earlier prefix |
| DifferentialTables.CharacteristicActive | differential_cryptanalysis.py:91-105 | for each round r in 1..rounds and nibble j, the characteristic holds that nibble's entry exactly when the nibble is active |
| DifferentialTables.NextDiffNibbles | differential_cryptanalysis.py:94-99 | nibble i of `next_state` is the chosen output difference of input nibble i (0 for an inactive one) |
| DifferentialTables.CharacteristicEntries | differential_cryptanalysis.py:87-105 | every entry `[r, j, dx, dy]` has 1 ≤ r ≤ rounds, 1 ≤ j ≤ 4, dx ≠ 0 and dy == best_dy(dx, ddt), and r never decreases along the list |
| DifferentialTables.ZeroRoundEntries | differential_cryptanalysis.py:96 | a round whose input difference is 0 records no entry |
| DifferentialTables.ZeroRoundInput | differential_cryptanalysis.py:88-103 | a zero starting difference stays zero in every round |
| DifferentialTables.ZeroCharacteristic | differential_cryptanalysis.py:88-105 | with dx0 = 0 no S-box is ever active and the characteristic is empty |

## Left out

- Safe-prime and generator search (vss_basic.py:8-19): they rely on
  external primality tests and random retries. p, q, g and h are
  parameters. The order facts g^q ≡ 1 and h^q ≡ 1 (mod p) are hypotheses
  of the lemmas that need them.
- `find_independent_generator` (vss_basic.py:21-23): only its output is
  modelled, by `VssBasic.IndependentGeneratorOrder`. The weakness of
  h = g^a, whose logarithm the dealer knows, is a security matter and is
  not modelled.
- All randomness becomes inputs: `secrets.randbelow`, `random.sample`,
  and the key and plaintexts from `random.getrandbits`.
- `generate_pairs` (differential_cryptanalysis.py:114-126): it only draws
  random plaintexts and encrypts them with `encrypt`, which is modelled.
- The analysis script around `build_characteristic` is not modelled. It
  covers candidate ranking (differential_cryptanalysis.py:55-85), the
  choice of the last-round S-boxes (107-112) and subkey counting
  (135-163). Its outcome is statistical.
- Security properties are not modelled: hiding, binding, tamper
  detection, and secrecy with fewer than t shares. They are computational
  or probabilistic, not functional.
- `string_to_int` and `int_to_string` (project.py:12-17,
  version_1.py:12-17): they depend on the UTF-8 codec. Secrets are
  integers here.
- ShamirVersion1.RecoverSecret: `Reconstructible` demands
  `max(t, 0) <= |shares|`. With t above `len(shares)` Python raises
  IndexError at `shares[i]` (version_1.py:34,38), and
  `ShamirProject.RecoverSecret` does the same at project.py:38,42. That
  error path is excluded by precondition and not modelled.
- ShamirProject.RecoverSecret: it demands `|shares| >= 2`. With fewer
  lists, `shares[0]` or `shares[1]` raises IndexError (project.py:48-49).
  That error path is excluded by precondition.
- VssBasic.LagrangeInterpolateZero: it demands `|ys| >= |xs|`. With fewer
  ys, `ys[i]` raises IndexError (vss_basic.py:67). That error path is
  excluded by precondition.
- VssBasic.Commitments and VssBasic.VerifyShares: they demand
  `t <= |coeffs_f|` and `t <= |coeffs_g|`. With a longer t, `coeffs_f[i]`
  raises IndexError (vss_basic.py:47). That error path is excluded by
  precondition.
- Moduli: every member that reduces modulo p or q demands a positive
  modulus. Python's `pow(·, ·, 0)` and `% 0` raise instead. That error
  path is excluded by precondition.
- VssBasic.Commitment: the exponents a and b are `nat`. So are both
  secrets and all coefficients in `VssBasic.GenerateShares`, and the
  share fields of `VssBasic.Share`. Python's three-argument `pow` also
  takes a negative exponent. It then inverts the base modulo p, or
  raises ValueError when the base has no inverse (vss_basic.py:27-28).
  `generate_shares` likewise accepts a negative `secret_s` or
  `secret_t`. Neither behaviour is modelled. Every value the scripts
  pass is non-negative.
- Demo `main` functions and printing are left out. The demos' sequences
  of calls are modelled by the `DealAnd…` and `ShareAndRecover…`
  methods.
- The t = 1 and t = 2 attempts of project.py:67-87 are not modelled as
  failures: the code raises nothing and returns some value. For t = 1 that
  value is stated by `ShamirProject.RecoverSecret`.
- Integer width: Python integers are unbounded, and so are Dafny's `int`
  and `nat`, so no wrap-around is modelled. The default modulus is the
  literal 2^127 − 1. Its primality is not proved. Lemmas that need a
  prime modulus take `Prime(p)` as a hypothesis.
- SpnCipher: cipher states, keys, nibbles and counters are `bv16`.
  Python keeps them as unbounded integers, but every value the code
  produces fits in 16 bits. The exception is `state ^= round_key(key, r)`
  for a plaintext that does not fit in 16 bits, which the model's
  plaintext type excludes.
- DifferentialTables.BuildCharacteristic: the starting difference `dx0`
  is taken modulo 2^16. Bits of `dx0 << 12` above bit 15 are never read
  by the code, so this changes no entry.
- DifferentialTables.BestDy: a row of length 0, where Python's `max`
  raises, and a dx that Python would read as a negative index are
  excluded by its precondition. The code only calls it with a nibble
  below 16 on a 16 × 16 table.
- DifferentialTables.Characteristic: it is stated through the table of
  choices `Choices(ddt)`, which holds `best_dy` of every input
  difference, and not through `best_dy` directly. `ChoicesAt` and
  `CharacteristicEntries` tie the two together.
- The comment "activate S11" at differential_cryptanalysis.py:88 does not
  match the code. `dx0 << 12` puts dx0 in nibble 3, and the code records
  that nibble as S-box j + 1 = 4. The model follows the code.
