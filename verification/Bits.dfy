/** 64-bit words as the sets of the positions of their one bits. */
module Bits {

  type Word = w: set<int> | forall i | i in w :: 0 <= i < 64

  const ALL_BITS: Word := set i | 0 <= i < 64

  /** Bit 63 of a cron field records that the field held a star. */
  const STAR_BIT: Word := {63}

  function Or(a: Word, b: Word): Word { a + b }
  function And(a: Word, b: Word): Word { a * b }
  function Not(a: Word): Word { ALL_BITS - a }

  /** Go's left shift: bits that leave the word are lost, whatever the amount. */
  function Shl(a: Word, k: nat): Word {
    set i | i in ALL_BITS && i - k in a
  }

  /** The test `1<<i & bits != 0`. */
  predicate Has(bits: Word, i: int) {
    i >= 0 && And(Shl({0}, i), bits) != {}
  }

  predicate HasStar(bits: Word) {
    And(bits, STAR_BIT) != {}
  }

  lemma HasIs(bits: Word, i: int)
    ensures Has(bits, i) <==> i in bits
  {
    if i in bits {
      assert i in And(Shl({0}, i), bits);
    }
  }

  lemma HasStarIs(bits: Word)
    ensures HasStar(bits) <==> 63 in bits
  {
    if 63 in bits {
      assert 63 in And(bits, STAR_BIT);
    }
  }
}
