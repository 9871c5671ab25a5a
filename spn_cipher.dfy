/** The toy 16-bit substitution-permutation cipher of
    differential_cryptanalysis.py: four rounds of round-key xor, a layer of
    four 4-bit S-boxes and a bit permutation.

    States, keys, nibbles, bit positions and loop counters are all 16-bit
    values (bv16), so that every shift, mask and table lookup stays a
    bit-vector operation; nibble i of a state is bits 4i..4i+3. The two
    constant tables SBOX and PERM are written out as functions of their
    index. */
module SpnCipher {

  /** `SBOX[x]`. */
  function Sbox(x: bv16): (r: bv16)
    requires x < 16
    ensures r < 16
  {
    match x
    case 0 => 0xC case 1 => 5 case 2 => 6 case 3 => 0xB
    case 4 => 9 case 5 => 0 case 6 => 0xA case 7 => 0xD
    case 8 => 3 case 9 => 0xE case 10 => 0xF case 11 => 8
    case 12 => 4 case 13 => 7 case 14 => 1 case _ => 2
  }

  /** `PERM[i]`: output bit i of the permutation layer is input bit PERM[i]. */
  function Perm(i: bv16): (r: bv16)
    requires i < 16
    ensures r < 16
  {
    match i
    case 0 => 0 case 1 => 4 case 2 => 8 case 3 => 12
    case 4 => 1 case 5 => 5 case 6 => 9 case 7 => 13
    case 8 => 2 case 9 => 6 case 10 => 10 case 11 => 14
    case 12 => 3 case 13 => 7 case 14 => 11 case _ => 15
  }

  /** `inv_sbox(v)`, that is `SBOX.index(v)`: the position of v in SBOX. */
  function InvSbox(v: bv16): (r: bv16)
    requires v < 16
    ensures r < 16 && Sbox(r) == v
  {
    match v
    case 0xC => 0 case 5 => 1 case 6 => 2 case 0xB => 3
    case 9 => 4 case 0 => 5 case 0xA => 6 case 0xD => 7
    case 3 => 8 case 0xE => 9 case 0xF => 10 case 8 => 11
    case 4 => 12 case 7 => 13 case 1 => 14 case _ => 15
  }

  // ---------------------------------------------------------------------
  // The tables

  /** SBOX is a permutation of the sixteen nibbles: no two inputs share an
      output. */
  lemma SboxIsPermutation(x: bv16, y: bv16)
    requires x < 16 && y < 16 && Sbox(x) == Sbox(y)
    ensures x == y
  {
    assert InvSbox(Sbox(x)) == x;
  }

  /** inv_sbox finds the one position holding v, so it undoes the S-box in
      both orders. */
  lemma InvSboxIsIndex(v: bv16, x: bv16)
    requires v < 16 && x < 16
    ensures Sbox(x) == v <==> x == InvSbox(v)
  {
    if Sbox(x) == v {
      assert InvSbox(Sbox(x)) == x;
    }
  }

  /** PERM is the transpose of a 4x4 grid of bits: position 4a+b goes to
      4b+a. */
  lemma PermIsTranspose(i: bv16)
    requires i < 16
    ensures Perm(i) == ((i & 3) << 2) | (i >> 2)
  {
  }

  /** Applying PERM twice gives back the position. */
  lemma PermInvolutive(i: bv16)
    requires i < 16
    ensures Perm(Perm(i)) == i
  {
  }

  // ---------------------------------------------------------------------
  // Nibbles and bits

  /** Nibble i of a state: `(state >> (4*i)) & 0xF`. */
  function Nibble(s: bv16, i: bv16): (r: bv16)
    requires i < 4
    ensures r < 16
  {
    (s >> (4 * i)) & 0xF
  }

  /** Bit i of a state: `(state >> i) & 1`. */
  function Bit(s: bv16, i: bv16): (r: bv16)
    requires i < 16
    ensures r < 2
  {
    (s >> i) & 1
  }

  /** A state is determined by its four nibbles. */
  lemma NibblesDetermine(a: bv16, b: bv16)
    requires forall i: bv16 :: i < 4 ==> Nibble(a, i) == Nibble(b, i)
    ensures a == b
  {
    assert Nibble(a, 0) == Nibble(b, 0) && Nibble(a, 1) == Nibble(b, 1);
    assert Nibble(a, 2) == Nibble(b, 2) && Nibble(a, 3) == Nibble(b, 3);
  }

  /** A state is determined by its sixteen bits. */
  lemma BitsDetermine(a: bv16, b: bv16)
    requires forall i: bv16 :: i < 16 ==> Bit(a, i) == Bit(b, i)
    ensures a == b
  {
    assert Bit(a, 0) == Bit(b, 0) && Bit(a, 1) == Bit(b, 1) && Bit(a, 2) == Bit(b, 2) && Bit(a, 3) == Bit(b, 3);
    assert Bit(a, 4) == Bit(b, 4) && Bit(a, 5) == Bit(b, 5) && Bit(a, 6) == Bit(b, 6) && Bit(a, 7) == Bit(b, 7);
    assert Bit(a, 8) == Bit(b, 8) && Bit(a, 9) == Bit(b, 9) && Bit(a, 10) == Bit(b, 10) && Bit(a, 11) == Bit(b, 11);
    assert Bit(a, 12) == Bit(b, 12) && Bit(a, 13) == Bit(b, 13) && Bit(a, 14) == Bit(b, 14) && Bit(a, 15) == Bit(b, 15);
  }

  lemma NibbleOfOr(a: bv16, b: bv16, i: bv16)
    requires i < 4
    ensures Nibble(a | b, i) == Nibble(a, i) | Nibble(b, i)
  {
  }

  lemma NibbleOfShifted(v: bv16, k: bv16, i: bv16)
    requires v < 16 && k < 4 && i < 4
    ensures Nibble(v << (4 * k), i) == if i == k then v else 0
  {
  }

  lemma BitOfOr(a: bv16, b: bv16, i: bv16)
    requires i < 16
    ensures Bit(a | b, i) == Bit(a, i) | Bit(b, i)
  {
  }

  lemma BitOfShifted(v: bv16, k: bv16, i: bv16)
    requires v < 2 && k < 16 && i < 16
    ensures Bit(v << k, i) == if i == k then v else 0
  {
  }

  // ---------------------------------------------------------------------
  // The S-box layer

  /** The S-box, or with `inverse` set the inverse S-box, on one nibble. */
  function Box(inverse: bool, x: bv16): (r: bv16)
    requires x < 16
    ensures r < 16
  {
    if inverse then InvSbox(x) else Sbox(x)
  }

  /** The low n nibbles of s, each passed through the box, the other
      nibbles zero. */
  function MapNibbles(inverse: bool, s: bv16, n: bv16): bv16
    requires n <= 4
  {
    if n == 0 then 0
    else MapNibbles(inverse, s, n - 1) | (Box(inverse, Nibble(s, n - 1)) << (4 * (n - 1)))
  }

  /** Nibble i of MapNibbles(inverse, s, n) is the box applied to nibble i
      of s below n, and zero from n on. */
  lemma {:induction false} MapNibblesNibble(inverse: bool, s: bv16, n: bv16, i: bv16)
    requires n <= 4 && i < 4
    ensures Nibble(MapNibbles(inverse, s, n), i) == if i < n then Box(inverse, Nibble(s, i)) else 0
  {
    if n > 0 {
      MapNibblesNibble(inverse, s, n - 1, i);
      var v := Box(inverse, Nibble(s, n - 1));
      NibbleOfOr(MapNibbles(inverse, s, n - 1), v << (4 * (n - 1)), i);
      NibbleOfShifted(v, n - 1, i);
    }
  }

  /** What the S-box layer computes. */
  function Substitute(s: bv16): bv16
  {
    MapNibbles(false, s, 4)
  }

  /** Nibble i of the layer's output is SBOX[nibble i of the input]. */
  lemma SubstituteNibbles(s: bv16)
    ensures forall i: bv16 :: i < 4 ==> Nibble(Substitute(s), i) == Sbox(Nibble(s, i))
  {
    forall i: bv16 | i < 4
      ensures Nibble(Substitute(s), i) == Sbox(Nibble(s, i))
    {
      MapNibblesNibble(false, s, 4, i);
    }
  }

  /** `S_box_layer`: substitutes the four nibbles one at a time, OR-ing each
      result into place. */
  method SBoxLayer(state: bv16) returns (newState: bv16)
    ensures newState == Substitute(state)
    ensures forall i: bv16 :: i < 4 ==> Nibble(newState, i) == Sbox(Nibble(state, i))
  {
    newState := 0;
    var i: bv16 := 0;
    while i < 4
      invariant i <= 4
      invariant newState == MapNibbles(false, state, i)
      decreases 4 - i
    {
      var nibble := (state >> (4 * i)) & 0xF;
      var substitutedNibble := Sbox(nibble);
      newState := newState | (substitutedNibble << (4 * i));
      i := i + 1;
    }
    SubstituteNibbles(state);
  }

  /** The inverse layer: inv_sbox on every nibble. */
  function InvSubstitute(s: bv16): bv16
  {
    MapNibbles(true, s, 4)
  }

  lemma InvSubstituteSubstitute(s: bv16)
    ensures InvSubstitute(Substitute(s)) == s
  {
    var t := Substitute(s);
    forall i: bv16 | i < 4
      ensures Nibble(InvSubstitute(t), i) == Nibble(s, i)
    {
      MapNibblesNibble(false, s, 4, i);
      MapNibblesNibble(true, t, 4, i);
      InvSboxIsIndex(Sbox(Nibble(s, i)), Nibble(s, i));
    }
    NibblesDetermine(InvSubstitute(t), s);
  }

  // ---------------------------------------------------------------------
  // The permutation layer

  /** The low n bits of the permuted state: bit i is bit PERM[i] of s. */
  function PermuteBits(s: bv16, n: bv16): bv16
    requires n <= 16
  {
    if n == 0 then 0
    else PermuteBits(s, n - 1) | (Bit(s, Perm(n - 1)) << (n - 1))
  }

  lemma {:induction false} PermuteBitsBit(s: bv16, n: bv16, i: bv16)
    requires n <= 16 && i < 16
    ensures Bit(PermuteBits(s, n), i) == if i < n then Bit(s, Perm(i)) else 0
  {
    if n > 0 {
      PermuteBitsBit(s, n - 1, i);
      var v := Bit(s, Perm(n - 1));
      BitOfOr(PermuteBits(s, n - 1), v << (n - 1), i);
      BitOfShifted(v, n - 1, i);
    }
  }

  lemma PermuteBitsStep(s: bv16, i: bv16)
    requires i < 16
    ensures PermuteBits(s, i + 1) == PermuteBits(s, i) | (((s >> Perm(i)) & 1) << i)
  {
  }

  /** What the permutation layer computes. */
  function Permuted(s: bv16): bv16
  {
    PermuteBits(s, 16)
  }

  /** Bit i of the permuted state is bit PERM[i] of the input. */
  lemma PermutedBits(s: bv16)
    ensures forall i: bv16 :: i < 16 ==> Bit(Permuted(s), i) == Bit(s, Perm(i))
  {
    forall i: bv16 | i < 16
      ensures Bit(Permuted(s), i) == Bit(s, Perm(i))
    {
      PermuteBitsBit(s, 16, i);
    }
  }

  /** `permute`: moves the sixteen bits one at a time. */
  method Permute(state: bv16) returns (newState: bv16)
    ensures newState == Permuted(state)
    ensures forall i: bv16 :: i < 16 ==> Bit(newState, i) == Bit(state, Perm(i))
  {
    newState := 0;
    var i: bv16 := 0;
    while i < 16
      invariant i <= 16
      invariant newState == PermuteBits(state, i)
      decreases 16 - i
    {
      var bit := (state >> Perm(i)) & 1;
      PermuteBitsStep(state, i);
      newState := newState | (bit << i);
      i := i + 1;
    }
    PermutedBits(state);
  }

  /** The permutation layer is its own inverse. */
  lemma PermuteInvolution(s: bv16)
    ensures Permuted(Permuted(s)) == s
  {
    PermutedBits(s);
    PermutedBits(Permuted(s));
    forall i: bv16 | i < 16
      ensures Bit(Permuted(Permuted(s)), i) == Bit(s, i)
    {
      PermInvolutive(i);
    }
    BitsDetermine(Permuted(Permuted(s)), s);
  }

  // ---------------------------------------------------------------------
  // Round keys

  /** `round_key`: `((key << r) | (key >> (16 - r))) & 0xFFFF`; the mask is
      the 16-bit width. A shift count 16 - r below zero raises in Python,
      hence r <= 16. */
  function RoundKey(key: bv16, r: bv16): bv16
    requires r <= 16
  {
    (key << r) | (key >> (16 - r))
  }

  /** For r < 16 the round key is key rotated left by r: bit i comes from
      bit i - r (mod 16). */
  lemma RoundKeyRotates(key: bv16, r: bv16)
    requires r < 16
    ensures forall i: bv16 :: i < 16 ==> Bit(RoundKey(key, r), i) == Bit(key, (i - r) & 15)
  {
  }

  lemma RoundKeyZero(key: bv16)
    ensures RoundKey(key, 0) == key
  {
  }

  // ---------------------------------------------------------------------
  // Encryption and its inverse

  /** One round under round key k: key xor, S-box layer, permutation. */
  function Round(s: bv16, k: bv16): bv16
  {
    Permuted(Substitute(s ^ k))
  }

  /** The state after the first n rounds; round r uses `round_key(key, r)`. */
  function Rounds(plaintext: bv16, key: bv16, n: bv16): bv16
    requires n <= 4
  {
    if n == 0 then plaintext else Round(Rounds(plaintext, key, n - 1), RoundKey(key, n - 1))
  }

  /** One pass of the loop in `encrypt` is one more round. */
  lemma EncryptStep(p: bv16, key: bv16, r: bv16, s0: bv16, s1: bv16)
    requires r < 4 && s0 == Rounds(p, key, r) && s1 == Round(s0, RoundKey(key, r))
    ensures s1 == Rounds(p, key, r + 1)
  {
  }

  /** `encrypt`: four rounds applied to the state in turn. */
  method Encrypt(plaintext: bv16, key: bv16) returns (state: bv16)
    ensures state == Rounds(plaintext, key, 4)
  {
    state := plaintext;
    var r: bv16 := 0;
    while r < 4
      invariant r <= 4
      invariant state == Rounds(plaintext, key, r)
      decreases 4 - r
    {
      ghost var s0 := state;
      state := state ^ RoundKey(key, r);
      state := SBoxLayer(state);
      state := Permute(state);
      EncryptStep(plaintext, key, r, s0, state);
      r := r + 1;
    }
  }

  /** One round undone: permutation (its own inverse), inverse S-box layer,
      key xor. */
  function InvRound(s: bv16, k: bv16): bv16
  {
    InvSubstitute(Permuted(s)) ^ k
  }

  /** The last n rounds undone, from round n - 1 down to round 0. */
  function Unrounds(c: bv16, key: bv16, n: bv16): bv16
    requires n <= 4
    decreases n
  {
    if n == 0 then c else Unrounds(InvRound(c, RoundKey(key, n - 1)), key, n - 1)
  }

  /** Decryption, the partner of `encrypt`. */
  function Decrypt(c: bv16, key: bv16): bv16
  {
    Unrounds(c, key, 4)
  }

  lemma InvRoundRound(s: bv16, k: bv16)
    ensures InvRound(Round(s, k), k) == s
  {
    PermuteInvolution(Substitute(s ^ k));
    InvSubstituteSubstitute(s ^ k);
  }

  lemma {:induction false} UnroundsRounds(p: bv16, key: bv16, n: bv16)
    requires n <= 4
    ensures Unrounds(Rounds(p, key, n), key, n) == p
  {
    if n > 0 {
      InvRoundRound(Rounds(p, key, n - 1), RoundKey(key, n - 1));
      UnroundsRounds(p, key, n - 1);
    }
  }

  /** Decryption undoes encryption for every key, so encryption under a
      fixed key is injective. */
  lemma DecryptEncrypt(p: bv16, key: bv16)
    ensures Decrypt(Rounds(p, key, 4), key) == p
  {
    UnroundsRounds(p, key, 4);
  }
}
