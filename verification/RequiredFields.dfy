/** The bitmap in which the decoder notes the required fields it has come across, and
    the check made with it at the end. */
module RequiredFields {
  import opened Bits
  import opened Wire
  import opened Descriptor
  import opened Decoding

  const ALL_BITS: uint32 := 0xFFFF_FFFF

  /** Index of the k-th required field from `from` on, |fields| when there are fewer. */
  function Nth(fields: seq<Field>, k: nat, from: nat): (i: nat)
    requires from <= |fields|
    ensures i <= |fields|
    decreases |fields| - from
  {
    if from == |fields| then |fields|
    else if !fields[from].htype.Required? then Nth(fields, k, from + 1)
    else if k == 0 then from
    else Nth(fields, k - 1, from + 1)
  }

  lemma {:induction false} NthOfOrdinal(fields: seq<Field>, i: nat, from: nat)
    requires from <= i < |fields| && fields[i].htype.Required?
    ensures Ordinal(fields, from) <= Ordinal(fields, i)
    ensures Nth(fields, Ordinal(fields, i) - Ordinal(fields, from), from) == i
    decreases i - from
  {
    if from < i { NthOfOrdinal(fields, i, from + 1); }
  }

  lemma {:induction false} NthIsRequired(fields: seq<Field>, k: nat, from: nat)
    requires from <= |fields|
    ensures var i := Nth(fields, k, from);
            if i == |fields| then Ordinal(fields, i) <= Ordinal(fields, from) + k
            else fields[i].htype.Required? && Ordinal(fields, i) == Ordinal(fields, from) + k && i >= from
    decreases |fields| - from
  {
    if from < |fields| {
      NthIsRequired(fields, if fields[from].htype.Required? && k > 0 then k - 1 else k, from + 1);
    }
  }

  lemma {:induction false} OrdinalGrows(fields: seq<Field>, i: nat, j: nat)
    requires i <= j <= |fields|
    ensures Ordinal(fields, i) <= Ordinal(fields, j)
  {
    if i < j { OrdinalGrows(fields, i, j - 1); }
  }

  /** The k-th required field exists and its tag has been seen. */
  predicate NthSeen(fields: seq<Field>, seen: set<nat>, k: nat) {
    var i := Nth(fields, k, 0);
    i < |fields| && fields[i].tag in seen
  }

  predicate BitOf(words: seq<uint32>, k: nat)
    requires |words| == 2 && k < 64
  {
    Bit(words[k / 32], k % 32)
  }

  /** The bitmap has a bit for each of the first 64 required fields, set when it has been
      seen, and no other bits. That of an empty descriptor is never looked at: its bit 0
      stands for the terminator, which reads as a required field. */
  ghost predicate Marks(words: seq<uint32>, fields: seq<Field>, seen: set<nat>) {
    |words| == 2
      && (fields != [] ==>
            forall k {:trigger NthSeen(fields, seen, k)} | 0 <= k < 64 :: BitOf(words, k) == NthSeen(fields, seen, k))
  }

  lemma {:induction false} NothingMarked(fields: seq<Field>)
    ensures Marks([0, 0], fields, {})
  {
    forall k | 0 <= k < 64
      ensures !BitOf([0, 0], k)
    {
      BitOfZero(k % 32);
    }
  }

  /** `words[index >> 5] | 1 << (index & 31)` */
  function Marked(words: seq<uint32>, index: nat): (r: seq<uint32>)
    requires |words| == 2 && index < 64
    ensures |r| == 2
  {
    words[index / 32 := OrBit(words[index / 32], index % 32)]
  }

  function OrBit(w: uint32, n: nat): uint32
    requires n < 32
  {
    OrBitStays(w, n);
    BitOr(w, Pow2(n))
  }

  lemma {:induction false} OrBitStays(w: uint32, n: nat)
    requires n < 32
    ensures BitOr(w, Pow2(n)) < TWO32
  {
    Words();
    Pow2Grows(n, 32);
    OrStaysBelow(w, Pow2(n), 32);
  }

  lemma {:induction false} Pow2Grows(m: nat, n: nat)
    requires m < n
    ensures Pow2(m) < Pow2(n)
  {
    if m + 1 < n { Pow2Grows(m, n - 1); }
  }

  lemma {:induction false} MarkedBit(words: seq<uint32>, index: nat, k: nat)
    requires |words| == 2 && index < 64 && k < 64
    ensures BitOf(Marked(words, index), k) == (BitOf(words, k) || k == index)
  {
    if k / 32 == index / 32 {
      BitOfOr(words[index / 32], Pow2(index % 32), k % 32);
      BitOfPow2(index % 32, k % 32);
      assert k % 32 == index % 32 ==> k == index;
    }
  }

  /** Marking a required field that has been met keeps the bitmap exact. */
  lemma {:induction false} MarkField(words: seq<uint32>, fields: seq<Field>, seen: set<nat>, i: nat)
    requires Marks(words, fields, seen) && WellFormed(fields) && i < |fields|
    ensures var n := Ordinal(fields, i);
            if fields[i].htype.Required? && n < PB_MAX_REQUIRED_FIELDS
            then Marks(Marked(words, n), fields, seen + {fields[i].tag})
            else Marks(words, fields, seen + {fields[i].tag})
  {
    var n, tag := Ordinal(fields, i), fields[i].tag;
    forall k | 0 <= k < 64
      ensures NthSeen(fields, seen + {tag}, k) == (NthSeen(fields, seen, k) || (fields[i].htype.Required? && k == n))
    {
      SeenAfter(fields, seen, i, k);
    }
    if fields[i].htype.Required? && n < PB_MAX_REQUIRED_FIELDS {
      forall k | 0 <= k < 64
        ensures BitOf(Marked(words, n), k) == (BitOf(words, k) || k == n)
      {
        MarkedBit(words, n, k);
      }
    }
  }

  lemma {:induction false} SeenAfter(fields: seq<Field>, seen: set<nat>, i: nat, k: nat)
    requires WellFormed(fields) && i < |fields|
    ensures NthSeen(fields, seen + {fields[i].tag}, k)
         == (NthSeen(fields, seen, k) || (fields[i].htype.Required? && k == Ordinal(fields, i)))
  {
    var j := Nth(fields, k, 0);
    NthIsRequired(fields, k, 0);
    assert WellFormedField(fields, i);
    if j < |fields| { assert WellFormedField(fields, j); }
    if fields[i].htype.Required? { NthOfOrdinal(fields, i, 0); }
  }

  /** A tag no field has leaves the bitmap as it is. */
  lemma {:induction false} MarkNothing(words: seq<uint32>, fields: seq<Field>, seen: set<nat>, tag: nat)
    requires Marks(words, fields, seen) && IndexOf(fields, tag) == |fields|
    ensures Marks(words, fields, seen + {tag})
  {
    forall k | 0 <= k < 64
      ensures NthSeen(fields, seen + {tag}, k) == NthSeen(fields, seen, k)
    {
      var i := Nth(fields, k, 0);
      if i < |fields| { IndexOfIsFirst(fields, tag, i); }
    }
  }

  // ---------------------------------------------------------------- the check

  /** The first `count` bits are set. */
  ghost predicate AllSet(words: seq<uint32>, count: nat)
    requires |words| == 2 && count <= 64
  {
    forall k | 0 <= k < count :: BitOf(words, k)
  }

  /** No bits are set from `count` on. */
  ghost predicate NoneBeyond(words: seq<uint32>, count: nat)
    requires |words| == 2
  {
    forall k | count <= k < 64 :: !BitOf(words, k)
  }

  ghost predicate LowSet(w: nat, n: nat) {
    forall k: nat | k < n :: Bit(w, k)
  }

  ghost predicate HighClear(w: nat, n: nat) {
    forall k: nat | n <= k < 32 :: !Bit(w, k)
  }

  lemma {:induction false} FullWord(w: uint32, n: nat)
    requires n <= 32 && HighClear(w, n)
    ensures w == Pow2(n) - 1 <==> LowSet(w, n)
  {
    Words();
    if n < 32 { Pow2Grows(n, 32); }
    var mask := Pow2(n) - 1;
    forall k: nat | k < 32
      ensures Bit(mask, k) <==> k < n
    {
      BitOfMask(n, k);
    }
    if LowSet(w, n) { SameBits(w, mask, 32); }
  }

  lemma {:induction false} BitWithinWord(words: seq<uint32>, i: nat, k: nat)
    requires |words| == 2 && i < 2 && k < 32
    ensures BitOf(words, 32 * i + k) == Bit(words[i], k)
  {
    assert (32 * i + k) / 32 == i && (32 * i + k) % 32 == k;
  }

  /** The bits asked for up to the n-th of word i are those of the words before it and
      the low ones of its own. */
  lemma {:induction false} WordByWord(words: seq<uint32>, i: nat, n: nat)
    requires |words| == 2 && i < 2 && n <= 32
    ensures AllSet(words, 32 * i + n) <==> AllSet(words, 32 * i) && LowSet(words[i], n)
    ensures NoneBeyond(words, 32 * i + n) ==> HighClear(words[i], n)
  {
    if AllSet(words, 32 * i) && LowSet(words[i], n) {
      forall k | 0 <= k < 32 * i + n
        ensures BitOf(words, k)
      {
        if k >= 32 * i { BitWithinWord(words, i, k - 32 * i); }
      }
    }
    if AllSet(words, 32 * i + n) {
      forall k: nat | k < n
        ensures Bit(words[i], k)
      {
        BitWithinWord(words, i, k);
      }
    }
    if NoneBeyond(words, 32 * i + n) {
      forall k: nat | n <= k < 32
        ensures !Bit(words[i], k)
      {
        BitWithinWord(words, i, k);
      }
    }
  }

  lemma {:induction false} WordCheck(words: seq<uint32>, i: nat, n: nat)
    requires |words| == 2 && i < 2 && n <= 32 && (n < 32 ==> NoneBeyond(words, 32 * i + n)) && AllSet(words, 32 * i)
    ensures words[i] == Pow2(n) - 1 <==> AllSet(words, 32 * i + n)
  {
    WordByWord(words, i, n);
    FullWord(words[i], n);
  }

  /** Whole words must be all ones; of the last word only the bits asked for may be. */
  method CheckBits(words: array<uint32>, count: nat) returns (ok: bool)
    requires words.Length == 2 && count <= 64 && (count > 0 ==> NoneBeyond(words[..], count))
    ensures ok <==> AllSet(words[..], count)
  {
    if count > 0 {
      for i := 0 to count / 32
        invariant AllSet(words[..], 32 * i)
      {
        WordCheck(words[..], i, 32);
        AllOnes();
        if words[i] != ALL_BITS {
          return false;
        }
      }
      if count % 32 != 0 {
        WordCheck(words[..], count / 32, count % 32);
        LowOnes(count % 32);
        if words[count / 32] != ALL_BITS / Pow2(32 - count % 32) { return false; }
      }
    }
    return true;
  }

  lemma {:induction false} AllOnes()
    ensures ALL_BITS == Pow2(32) - 1
  {
    Words();
  }

  /** `allbits >> (32 - n)` */
  lemma {:induction false} LowOnes(n: nat)
    requires 0 < n < 32
    ensures ALL_BITS / Pow2(32 - n) == Pow2(n) - 1
  {
    Words();
    Pow2Adds(n, 32 - n);
    Quotient(Pow2(n), Pow2(32 - n));
  }

  lemma {:induction false} Quotient(a: nat, b: nat)
    requires a >= 1 && b >= 1 && a * b == TWO32
    ensures ALL_BITS / b == a - 1
  {
    assert ALL_BITS == (a - 1) * b + (b - 1);
    QuotientIs(ALL_BITS, a - 1, b, b - 1);
  }

  lemma {:induction false} QuotientIs(n: nat, q: nat, b: nat, r: nat)
    requires b >= 1 && r < b && n == q * b + r
    ensures n / b == q
  {
    var d, m := n / b, n % b;
    assert n == d * b + m;
    assert (d - q) * b == r - m;
    if d > q { AtLeastOne(d - q, b); }
    assert (q - d) * b == m - r;
    if d < q { AtLeastOne(q - d, b); }
  }

  lemma {:induction false} AtLeastOne(k: nat, b: nat)
    requires k >= 1
    ensures k * b >= b
  {}

  /** How many required fields the check asks for. */
  function Capped(fields: seq<Field>): (n: nat)
    ensures n <= 64
  {
    var n := Ordinal(fields, |fields|);
    if n > PB_MAX_REQUIRED_FIELDS then PB_MAX_REQUIRED_FIELDS else n
  }

  /** The bitmap check decides exactly whether each of the first 64 required fields has
      occurred. */
  lemma {:induction false} BitmapIsExact(words: seq<uint32>, fields: seq<Field>, seen: set<nat>)
    requires Marks(words, fields, seen)
    ensures Capped(fields) > 0 ==> NoneBeyond(words, Capped(fields))
    ensures AllSet(words, Capped(fields)) <==> RequiredSeen(fields, seen)
  {
    forall k | fields != [] && Capped(fields) <= k < 64
      ensures !BitOf(words, k)
    {
      NthIsRequired(fields, k, 0);
      var i := Nth(fields, k, 0);
      if i < |fields| { OrdinalGrows(fields, i + 1, |fields|); }
      assert !NthSeen(fields, seen, k);
    }
    if AllSet(words, Capped(fields)) {
      forall i | 0 <= i < |fields| && fields[i].htype.Required? && Ordinal(fields, i) < PB_MAX_REQUIRED_FIELDS
        ensures fields[i].tag in seen
      {
        NthOfOrdinal(fields, i, 0);
        OrdinalGrows(fields, i + 1, |fields|);
        assert BitOf(words, Ordinal(fields, i));
        assert NthSeen(fields, seen, Ordinal(fields, i));
      }
    }
    if RequiredSeen(fields, seen) {
      forall k | 0 <= k < Capped(fields)
        ensures BitOf(words, k)
      {
        NthIsRequired(fields, k, 0);
        assert NthSeen(fields, seen, k);
      }
    }
  }
}
