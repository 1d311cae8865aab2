/**
 The bit queue as 64-bit words: the draining loop of ip_country/src/ip_country.rs
 (`generate_country_block_code`, `write_value`; the numbers, not their text) and the
 loading loop of country_block_serde.rs (`bit_queue_from_country_data`).
 */
module WordPacking {
  import opened Words
  import opened BitQueues
  import Seqs

  const WORD_BITS: nat := 64

  /** The words it takes to hold that many bits. */
  function WordsFor(bitCount: nat): nat { (bitCount + 63) / 64 }

  /** The bits that words hold when `bitCount` of them count. */
  function WordBits(words: seq<u64>, bitCount: nat): (b: seq<bool>)
    requires WordsFor(bitCount) <= |words|
    ensures |b| == bitCount
    decreases bitCount
  {
    if bitCount == 0 then []
    else if bitCount < WORD_BITS then Bits(words[0], bitCount)
    else Bits(words[0], WORD_BITS) + WordBits(words[1..], bitCount - WORD_BITS)
  }

  lemma {:induction false} WordBitsAppend(words: seq<u64>, w: u64, n: nat)
    requires n <= WORD_BITS
    requires WordsFor(64 * |words|) <= |words|
    ensures n > 0 ==> WordsFor(64 * |words| + n) <= |words + [w]|
    ensures n > 0 ==> WordBits(words + [w], 64 * |words| + n) == WordBits(words, 64 * |words|) + Bits(w, n)
    decreases |words|
  {
    if n > 0 {
      if words == [] {
        Seqs.EmptyLeft([w]);
        Seqs.EmptyLeft(Bits(w, n));
        Seqs.EmptyRight(Bits(w, n));
      } else {
        WordBitsAppend(words[1..], w, n);
        Seqs.TailOfConcat(words, [w]);
        Seqs.Assoc(Bits(words[0], WORD_BITS), WordBits(words[1..], 64 * |words| - 64), Bits(w, n));
      }
    }
  }

  lemma WordsOf(k: nat, rest: nat)
    requires 0 < rest <= WORD_BITS
    ensures WordsFor(64 * k) == k && WordsFor(64 * k + rest) == k + 1
  {
  }

  lemma NoWords()
    ensures WordsFor(0) == 0 && WordBits([], 0) == []
  {
  }

  lemma OneWordLess(left: nat)
    requires left >= WORD_BITS
    ensures WordsFor(left) == WordsFor(left - WORD_BITS) + 1
  {
  }

  /** Drains a queue into words. They hold its bits and are as few as can be. */
  method Drain(q: BitQueue) returns (words: seq<u64>, bitCount: nat)
    requires q.Valid()
    modifies q
    ensures bitCount == old(|q.contents|)
    ensures |words| == WordsFor(bitCount)
    ensures WordBits(words, bitCount) == old(q.contents)
    ensures q.Valid() && q.contents == []
  {
    hide WordsFor, WordBits, BitQueue.Valid;
    bitCount := q.Len();
    ghost var all := q.contents;
    words := [];
    Seqs.EmptyLeft(all);
    NoWords();
    while q.Len() >= WORD_BITS
      invariant q.Valid() && WordsFor(64 * |words|) == |words|
      invariant 64 * |words| + |q.contents| == bitCount
      invariant WordBits(words, 64 * |words|) + q.contents == all
      decreases q.Len()
    {
      WordsOf(|words|, WORD_BITS);
      words := WriteValue(q, WORD_BITS, words, all);
    }
    if !q.IsEmpty() {
      WordsOf(|words|, q.Len());
      words := WriteValue(q, q.Len(), words, all);
    }
    Seqs.EmptyRight(all);
    Seqs.EmptyRight(WordBits(words, bitCount));
  }

  /** Moves the next bits of the queue to a further word. */
  method WriteValue(q: BitQueue, n: nat, words: seq<u64>, ghost all: seq<bool>) returns (more: seq<u64>)
    requires q.Valid() && 0 < n <= WORD_BITS && n <= |q.contents|
    requires WordsFor(64 * |words|) <= |words|
    requires WordBits(words, 64 * |words|) + q.contents == all
    modifies q
    ensures q.Valid() && q.contents == old(q.contents)[n..]
    ensures |more| == |words| + 1 && WordsFor(64 * |words| + n) <= |more|
    ensures WordBits(more, 64 * |words| + n) + q.contents == all
  {
    hide WordsFor, BitQueue.Valid;
    ghost var before := q.contents;
    var value := q.TakeBits(n);
    more := words + [value.value];
    BitsOfVal(before[..n]);
    WordBitsAppend(words, value.value, n);
    Seqs.Split(before, n);
    Seqs.Assoc(WordBits(words, 64 * |words|), before[..n], before[n..]);
  }

  /** Loads words into a fresh queue; a missing word panics. */
  method Load(words: seq<u64>, bitCount: nat) returns (q: BitQueue)
    requires WordsFor(bitCount) <= |words|
    ensures fresh(q) && q.Valid()
    ensures q.contents == WordBits(words, bitCount)
  {
    hide WordsFor, BitQueue.Valid, Or, Val, Shr;
    q := new BitQueue();
    var data, left: nat := words, bitCount;
    Seqs.EmptyLeft(WordBits(words, bitCount));
    while left >= WORD_BITS
      invariant fresh(q) && q.Valid() && q.Clean()
      invariant WordsFor(left) <= |data|
      invariant q.contents + WordBits(data, left) == WordBits(words, bitCount)
      decreases left
    {
      WordSizes();
      OneWordLess(left);
      Seqs.Assoc(q.contents, Bits(data[0], WORD_BITS), WordBits(data[1..], left - WORD_BITS));
      q.AddBits(data[0], WORD_BITS);
      ResidueIsZero(data[0], WORD_BITS, q.backBlank);
      data, left := data[1..], left - WORD_BITS;
    }
    if left > 0 {
      WordsOf(0, left);
      q.AddBits(data[0], left);
    } else {
      Seqs.EmptyRight(q.contents);
    }
  }
}
