/**
 The receive window of src/reliability/arq.rs: a base and a 64-bit bitmap (`mark_received`),
 the selective-ack test (`acked`), and the set of sequence numbers both stand for.

 A u64 word is a natural number below 2^64; its shifts and single-bit operations are written
 on its binary digits.
*/
module Window {
  import opened Words

  const WINDOW_BITS := 64
  const BEHIND_LIMIT := 1_000_000

  // (w >> i) & 1 == 1
  predicate Bit(w: nat, i: nat) {
    if i == 0 then w % 2 == 1 else Bit(w / 2, i - 1)
  }

  // w | (1 << i)
  function SetBit(w: nat, i: nat): nat {
    if i == 0 then w - w % 2 + 1 else 2 * SetBit(w / 2, i - 1) + w % 2
  }

  function Pow2(n: nat): (p: nat)
    ensures p >= 1
  {
    if n == 0 then 1 else 2 * Pow2(n - 1)
  }

  lemma {:induction false} BitSetBit(w: nat, i: nat, j: nat)
    ensures Bit(SetBit(w, i), j) <==> Bit(w, j) || j == i
  {
    if i > 0 && j > 0 {
      assert SetBit(w, i) / 2 == SetBit(w / 2, i - 1);
      BitSetBit(w / 2, i - 1, j - 1);
    } else if j > 0 {
      assert SetBit(w, i) / 2 == w / 2;
    }
  }

  lemma {:induction false} SetBitBound(w: nat, i: nat, n: nat)
    requires w < Pow2(n) && i < n
    ensures SetBit(w, i) < Pow2(n)
  {
    if i > 0 {
      assert w / 2 < Pow2(n - 1);
      SetBitBound(w / 2, i - 1, n - 1);
    }
  }

  lemma Pow2Squared(n: nat, x: nat)
    requires Pow2(n) == x
    ensures Pow2(n + n) == x * x
  {
    Pow2Add(n, n);
  }

  lemma Pow2At64()
    ensures Pow2(64) == U64_MOD
  {
    assert Pow2(2) == 4;
    hide Pow2;
    Pow2Squared(2, 4);
    Pow2Squared(4, 0x10);
    Pow2Squared(8, 0x100);
    Pow2Squared(16, 0x1_0000);
    Pow2Squared(32, 0x1_0000_0000);
  }

  lemma {:induction false} Pow2Add(a: nat, b: nat)
    ensures Pow2(a + b) == Pow2(a) * Pow2(b)
  {
    if a > 0 { Pow2Add(a - 1, b); }
  }

  // The empty bitmap has no bit set.
  lemma ZeroBits(i: nat)
    ensures !Bit(0, i)
  {}

  function MarkBit(w: u64, i: nat): (v: u64)
    requires i < WINDOW_BITS
  {
    Pow2At64();
    SetBitBound(w, i, 64);
    SetBit(w, i)
  }

  // The loop of `mark_received`: slide the base over the leading run of received numbers.
  function Slide(base: u32, bits: u64): (r: (u32, u64))
    ensures r.1 % 2 == 0
    decreases bits
  {
    if bits % 2 == 1 then Slide(WrappingAdd(base, 1), bits / 2) else (base, bits)
  }

  predicate Accepts(base: u32, bits: u64, seqno: u32) {
    var ahead := WrappingSub(seqno, base);
    ahead < WINDOW_BITS && !Bit(bits, ahead)
  }

  // `mark_received`: the new base and bitmap.
  function Mark(base: u32, bits: u64, seqno: u32): (u32, u64) {
    if Accepts(base, bits, seqno) then Slide(base, MarkBit(bits, WrappingSub(seqno, base))) else (base, bits)
  }

  // `acked`: does an ACK frame (base, bitmap) acknowledge seqno?
  predicate Acked(base: u32, bitmap: u64, seqno: u32) {
    var ahead := WrappingSub(seqno, base);
    if ahead < WINDOW_BITS then Bit(bitmap, ahead)
    else
      var behind := WrappingSub(base, seqno);
      0 < behind < BEHIND_LIMIT
  }

  /** The set a base and bitmap stand for, over unwrapped numbers. */
  ghost function Got(base: nat, bits: nat): set<nat> {
    set s: nat | 0 <= s < base + WINDOW_BITS && Has(base, bits, s)
  }

  predicate Has(base: nat, bits: nat, s: nat) {
    s < base || (s < base + WINDOW_BITS && Bit(bits, s - base))
  }

  // One step of the slide drops a received number from the bitmap and covers it by the base.
  lemma HasShift(B: nat, bits: nat, n: nat)
    requires bits % 2 == 1 && bits < Pow2(n) && 1 <= n <= WINDOW_BITS
    ensures Got(B + 1, bits / 2) == Got(B, bits)
  {
    TopBitClear(bits / 2, n - 1, 63);
    forall s: nat ensures Has(B + 1, bits / 2, s) <==> Has(B, bits, s) {
      if s > B { assert Bit(bits, s - B) == Bit(bits / 2, s - B - 1); }
    }
  }

  // Sliding changes the representation, not the set; it stops at the first missing number.
  lemma {:induction false} SlideKeepsSet(B: nat, bits: u64, n: nat) returns (B': nat)
    requires bits < Pow2(n) && n <= WINDOW_BITS
    ensures B <= B' <= B + n
    ensures Slide(B % U32_MOD, bits).0 == B' % U32_MOD
    ensures Got(B', Slide(B % U32_MOD, bits).1) == Got(B, bits)
    ensures B' !in Got(B', Slide(B % U32_MOD, bits).1)
    decreases bits
  {
    if bits % 2 == 1 {
      assert WrappingAdd(B % U32_MOD, 1) == (B + 1) % U32_MOD;
      HasShift(B, bits, n);
      B' := SlideKeepsSet(B + 1, bits / 2, n - 1);
    } else {
      B' := B;
    }
  }

  lemma {:induction false} TopBitClear(w: nat, n: nat, i: nat)
    requires w < Pow2(n) && n <= i
    ensures !Bit(w, i)
  {
    if i == 0 {
    } else if n == 0 {
      ZeroBits(i);
    } else {
      TopBitClear(w / 2, n - 1, i - 1);
    }
  }

  /**
   `mark_received` refines insertion into the set, also across wrap-around of both numbers:
   for a true number S whose distance from the true base B is less than a full turn, it accepts
   S exactly when S is in the 64-wide window and not in the set, and then adds exactly S.
   */
  lemma MarkRefinesInsert(B: nat, bits: u64, S: nat) returns (B': nat)
    requires B - (U32_MOD - WINDOW_BITS) <= S < B + U32_MOD
    ensures Accepts(B % U32_MOD, bits, S % U32_MOD) <==> B <= S < B + WINDOW_BITS && S !in Got(B, bits)
    ensures var m := Mark(B % U32_MOD, bits, S % U32_MOD);
            if Accepts(B % U32_MOD, bits, S % U32_MOD)
            then m.0 == B' % U32_MOD && B <= B' <= B + WINDOW_BITS
                 && Got(B', m.1) == Got(B, bits) + {S} && B' !in Got(B', m.1)
            else B' == B && m == (B % U32_MOD, bits)
  {
    WrapGap(S, B);
    B' := B;
    if Accepts(B % U32_MOD, bits, S % U32_MOD) {
      var w := MarkBit(bits, S - B);
      Pow2At64();
      B' := SlideKeepsSet(B, w, 64);
      forall s: nat | s < B + WINDOW_BITS
        ensures Has(B, w, s) <==> Has(B, bits, s) || s == S
      {
        if s >= B { BitSetBit(bits, S - B, s - B); }
      }
      assert Got(B, w) == Got(B, bits) + {S};
    }
  }

  // The same for numbers that have not wrapped.
  lemma MarkUnwrapped(base: u32, bits: u64, s: u32) returns (base': nat)
    requires base <= U32_MOD - WINDOW_BITS
    ensures Accepts(base, bits, s) <==> base <= s < base + WINDOW_BITS && s !in Got(base, bits)
    ensures Accepts(base, bits, s) ==>
              && Got(base', Mark(base, bits, s).1) == Got(base, bits) + {s}
              && base' !in Got(base', Mark(base, bits, s).1)
              && (base' < U32_MOD ==> Mark(base, bits, s).0 == base')
    ensures !Accepts(base, bits, s) ==> Mark(base, bits, s) == (base, bits)
  {
    hide Got, Accepts, Mark;
    assert base % U32_MOD == base && s % U32_MOD == s;
    base' := MarkRefinesInsert(base, bits, s);
  }

  // Modular subtraction of two unwrapped numbers.
  lemma WrapGap(S: nat, B: nat)
    requires B - U32_MOD <= S < B + U32_MOD
    ensures WrappingSub(S % U32_MOD, B % U32_MOD)
         == if S >= B then S - B else if S == B - U32_MOD then 0 else S - B + U32_MOD
  {
    assert (S % U32_MOD - B % U32_MOD) % U32_MOD == (S - B) % U32_MOD by {
      assert S == U32_MOD * (S / U32_MOD) + S % U32_MOD;
      assert B == U32_MOD * (B / U32_MOD) + B % U32_MOD;
      assert S % U32_MOD - B % U32_MOD == (S - B) - U32_MOD * (S / U32_MOD - B / U32_MOD);
      ModShift(S - B, S / U32_MOD - B / U32_MOD);
    }
  }

  lemma ModShift(a: int, k: int)
    ensures (a - U32_MOD * k) % U32_MOD == a % U32_MOD
  {}

  /**
   The modular ack test agrees with the set the ACK stands for while the distance of the tested number
   from the ACK's base lies in (-1_000_000, 2^32 - 1_000_000]. Elsewhere within a full turn it is wrong,
   except for the 63 numbers most behind, for which it reads a bit meant for a number ahead and is right
   exactly if that bit is set.
   */
  lemma AckedExactly(B: nat, bitmap: u64, S: nat)
    requires B - U32_MOD < S < B + U32_MOD
    ensures -BEHIND_LIMIT < S - B <= U32_MOD - BEHIND_LIMIT
            ==> (Acked(B % U32_MOD, bitmap, S % U32_MOD) <==> S in Got(B, bitmap))
    ensures S - B > U32_MOD - BEHIND_LIMIT
            ==> Acked(B % U32_MOD, bitmap, S % U32_MOD) && S !in Got(B, bitmap)
    ensures WINDOW_BITS - U32_MOD <= S - B <= -BEHIND_LIMIT
            ==> !Acked(B % U32_MOD, bitmap, S % U32_MOD) && S in Got(B, bitmap)
    ensures S - B < WINDOW_BITS - U32_MOD
            ==> (Acked(B % U32_MOD, bitmap, S % U32_MOD) <==> Bit(bitmap, S - B + U32_MOD)) && S in Got(B, bitmap)
  {
    WrapGap(S, B);
    WrapGap(B, S);
  }
}
