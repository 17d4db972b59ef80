/** The bitset of REQUIRED fields in pb_decode_noinit. */
module FieldsSeen {
  import opened Bits
  import opened Descriptor

  const ALL_BITS: nat := 0xFFFF_FFFF

  /** C's `x >> k`. */
  function Shr(x: nat, k: nat): nat {
    if k == 0 then x else Shr(x / 2, k - 1)
  }

  lemma {:induction false} ShrOfOnes(a: nat, b: nat)
    ensures Shl(1, a) > 0 && Shl(1, a + b) > 0
    ensures Shr(Shl(1, a + b) - 1, b) == Shl(1, a) - 1
  {
    ShlFarther(1, 0, a);
    ShlFarther(1, 0, a + b);
    if b > 0 {
      assert (Shl(1, a + b) - 1) / 2 == Shl(1, a + b - 1) - 1;
      ShrOfOnes(a, b - 1);
    }
  }

  /** The first `n` fields are marked, as far as they are tracked. */
  ghost predicate Complete(marks: set<nat>, n: nat) {
    forall i: nat | i < n && i < 64 :: i in marks
  }

  class FieldsSeen {
    const words: array<nat>

    ghost predicate Valid()
      reads this, words
    {
      words.Length == 2 && words[0] < Shl(1, 32) && words[1] < Shl(1, 32)
    }

    ghost predicate Marked(w: nat, j: nat)
      requires Valid() && w < 2
      reads this, words
    {
      IsSet(words[w], j)
    }

    /** The REQUIRED field with this index has been marked. */
    ghost predicate Has(index: nat)
      requires Valid() && index < 64
      reads this, words
    {
      Marked(index / 32, index % 32)
    }

    /** The indices of the marked fields. */
    ghost function Marks(): set<nat>
      requires Valid()
      reads this, words
    {
      set i: nat | i < 64 && Has(i)
    }

    constructor ()
      ensures Valid() && fresh(words)
      ensures Marks() == {}
    {
      words := new nat[2] (_ => 0);
      new;
      ShlBy32(1);
      forall i: nat | i < 64 ensures !Has(i) {
        BitZero(i % 32);
      }
    }

    /** Marks a field; fields beyond the capacity are not tracked. */
    method Mark(index: nat)
      requires Valid()
      modifies words
      ensures Valid()
      ensures Marks() == old(Marks()) + (if index < 64 then {index} else {})
    {
      if index < MAX_REQUIRED_FIELDS {
        var w, k := index / 32, index % 32;
        var tmp := Shl(1, k);
        assert tmp < Shl(1, 32) by { ShlFarther(1, k + 1, 32); }
        BitOrBound(words[w], tmp, 32);
        forall i: nat | i < 64
          ensures Bit(BitOr(words[i / 32], tmp), i % 32) == (Bit(words[i / 32], i % 32) || i % 32 == k)
        {
          BitOrBit(words[i / 32], tmp, i % 32);
          BitOfShifted(k, i % 32);
        }
        words[w] := BitOr(words[w], tmp);
        assert forall i: nat | i < 64 :: Has(i) == (old(Has(i)) || i == index);
      }
    }

    /** The fields of the `k` lowest digits of word `w` are marked. */
    ghost predicate MarkedBelow(w: nat, k: nat)
      requires Valid() && w < 2
      reads this, words
    {
      forall j: nat | j < k :: Marked(w, j)
    }

    /** If no other field of the word is marked, it equals the mask exactly if these are. */
    lemma WordIsFull(w: nat, k: nat)
      requires Valid() && w < 2 && k <= 32
      requires forall j: nat | k <= j < 32 :: !Marked(w, j)
      ensures words[w] == Shl(1, k) - 1 <==> MarkedBelow(w, k)
    {
      forall j: nat | k <= j < 32 ensures !IsSet(words[w], j) {
        assert !Marked(w, j);
      }
      AllOnes(words[w], k, 32);
      assert MarkedBelow(w, k) <==> forall j: nat | j < k :: IsSet(words[w], j) by {
        assert forall j: nat | j < k :: Marked(w, j) == IsSet(words[w], j);
      }
    }

    /** Going through the fields word by word. */
    lemma WordByWord(count: nat)
      requires Valid() && count <= 64
      ensures (forall i: nat | i < count :: Has(i)) <==>
        (forall w: nat | w < count / 32 :: MarkedBelow(w, 32))
        && (count % 32 != 0 ==> MarkedBelow(count / 32, count % 32))
    {
      if forall i: nat | i < count :: Has(i) {
        forall w: nat, j: nat | w < 2 && j < 32 && 32 * w + j < count ensures Marked(w, j) {
          InWord(w, j);
          assert Has(32 * w + j);
        }
      }
      if (forall w: nat | w < count / 32 :: MarkedBelow(w, 32))
         && (count % 32 != 0 ==> MarkedBelow(count / 32, count % 32)) {
        forall i: nat | i < count ensures Has(i) {
          var w, j := i / 32, i % 32;
          assert Marked(w, j) by {
            assert MarkedBelow(w, if w < count / 32 then 32 else count % 32);
          }
        }
      }
    }

    lemma InWord(w: nat, j: nat)
      requires j < 32
      ensures (32 * w + j) / 32 == w && (32 * w + j) % 32 == j
    {
    }

    /** Counting no further than the capacity loses nothing. */
    lemma MarksUpTo(n: nat, count: nat)
      requires Valid() && count == if n > 64 then 64 else n
      ensures Complete(Marks(), n) == (forall i: nat | i < count :: Has(i))
      ensures (forall i | i in Marks() :: i < n) <==> (forall i: nat | count <= i < 64 :: !Has(i))
    {
      assert forall i: nat | i < 64 :: i in Marks() <==> Has(i);
      if Complete(Marks(), n) {
        forall i: nat | i < count ensures Has(i) {
          assert i in Marks();
        }
      }
      if forall i | i in Marks() :: i < n {
        forall i: nat | count <= i < 64 ensures !Has(i) {
          assert i !in Marks();
        }
      }
    }

    /** No field from `count` on is marked. */
    lemma RestOfWord(w: nat, k: nat, count: nat)
      requires Valid() && w < 2 && k <= 32 && count <= 32 * w + k
      requires forall i: nat | count <= i < 64 :: !Has(i)
      ensures forall j: nat | k <= j < 32 :: !Marked(w, j)
    {
      forall j: nat | k <= j < 32 ensures !Marked(w, j) {
        InWord(w, j);
        assert !Has(32 * w + j);
      }
    }

    /**
     * The test at the end of pb_decode_noinit, whole words first: it passes exactly if every REQUIRED field
     * that is tracked has been marked, given that only such fields were.
     */
    method AllSeen(requiredFieldCount: nat) returns (ok: bool)
      requires Valid()
      requires requiredFieldCount > 0 ==> forall i | i in Marks() :: i < requiredFieldCount
      ensures ok == Complete(Marks(), requiredFieldCount)
    {
      var count := if requiredFieldCount > MAX_REQUIRED_FIELDS then MAX_REQUIRED_FIELDS else requiredFieldCount;
      MarksUpTo(requiredFieldCount, count);
      if count > 0 {
        var i := 0;
        while i < count / 32
          invariant i <= count / 32
          invariant forall w: nat | w < i :: MarkedBelow(w, 32)
        {
          WordIsFull(i, 32);
          ShlBy32(1);
          if words[i] != ALL_BITS {
            WordByWord(count);
            assert !(forall i: nat | i < count :: Has(i));
            return false;
          }
          i := i + 1;
        }
        if count % 32 != 0 {
          RestOfWord(count / 32, count % 32, count);
          WordIsFull(count / 32, count % 32);
          ShlBy32(1);
          ShrOfOnes(count % 32, 32 - count % 32);
          if words[count / 32] != Shr(ALL_BITS, 32 - count % 32) {
            assert !MarkedBelow(count / 32, count % 32);
            WordByWord(count);
            assert !(forall i: nat | i < count :: Has(i));
            return false;
          }
        }
        WordByWord(count);
      }
      ok := true;
    }
  }
}
