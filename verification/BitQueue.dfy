/**
 ip_country/src/bit_queue.rs: a deque of bytes whose front and back bytes may be
 partly used. In both of them the live bits are the low-order ones. The class is
 proved to be a first-in first-out queue of bits.
 */
module BitQueues {
  import opened Words
  import opened Wrappers
  import Seqs

  function Min(a: nat, b: nat): nat { if a <= b then a else b }

  // ----------------------------------------------------------- the byte layout

  /** All bits of whole bytes, in queue order. */
  ghost function AllBits(bytes: seq<u8>): (b: seq<bool>)
    ensures |b| == 8 * |bytes|
  {
    if bytes == [] then [] else Bits(bytes[0], 8) + AllBits(bytes[1..])
  }

  lemma {:induction false} AllBitsAppend(a: seq<u8>, b: seq<u8>)
    ensures AllBits(a + b) == AllBits(a) + AllBits(b)
  {
    if a == [] {
      Seqs.EmptyLeft(b);
      Seqs.EmptyLeft(AllBits(b));
    } else {
      AllBitsAppend(a[1..], b);
      Seqs.TailOfConcat(a, b);
      Seqs.Assoc(Bits(a[0], 8), AllBits(a[1..]), AllBits(b));
    }
  }

  lemma AllBitsOne(x: u8)
    ensures AllBits([x]) == Bits(x, 8)
  {
    Seqs.EmptyRight(Bits(x, 8));
  }

  lemma AllBitsSnoc(a: seq<u8>, x: u8)
    ensures AllBits(a + [x]) == AllBits(a) + Bits(x, 8)
  {
    AllBitsAppend(a, [x]);
    AllBitsOne(x);
  }

  /**
   A queue has at least two bytes, except that taking whole bytes may drain it to
   one: a front byte that holds nothing and counts as a back byte without blanks.
   */
  ghost predicate Shape(bytes: seq<u8>, front: nat, back: nat) {
    && front <= 8 && back <= 8
    && |bytes| >= 1
    && (|bytes| == 1 ==> front == 8 && back == 0)
  }

  /** The bits the queue holds, oldest first. */
  ghost function Live(bytes: seq<u8>, front: nat, back: nat): (b: seq<bool>)
    requires Shape(bytes, front, back)
    ensures |b| == 8 * |bytes| - front - back
  {
    var n := |bytes|;
    if n == 1 then []
    else Bits(bytes[0], 8 - front) + (AllBits(bytes[1..n - 1]) + Bits(bytes[n - 1], 8 - back))
  }

  /** What lies in the blank bits of the back byte. */
  ghost function Blank(bytes: seq<u8>, back: nat): (b: seq<bool>)
    requires |bytes| >= 1 && back <= 8
    ensures |b| == back
  {
    Bits(Shr(bytes[|bytes| - 1], 8 - back), back)
  }

  lemma LiveFullBack(bytes: seq<u8>, front: nat)
    requires Shape(bytes, front, 0) && |bytes| >= 2
    ensures Live(bytes, front, 0) == Bits(bytes[0], 8 - front) + AllBits(bytes[1..])
  {
    var n := |bytes|;
    AllBitsSnoc(bytes[1..n - 1], bytes[n - 1]);
    Seqs.Unsnoc(bytes[1..]);
    assert bytes[1..][..n - 2] == bytes[1..n - 1];
  }

  lemma LiveEmptyBack(bytes: seq<u8>, front: nat)
    requires Shape(bytes, front, 8)
    ensures Live(bytes, front, 8) == Bits(bytes[0], 8 - front) + AllBits(bytes[1..|bytes| - 1])
  {
    Seqs.EmptyRight(AllBits(bytes[1..|bytes| - 1]));
  }

  /** A full back byte may as well be followed by an empty one. */
  lemma LiveGrowBack(bytes: seq<u8>, front: nat, x: u8)
    requires Shape(bytes, front, 0)
    ensures Live(bytes + [x], front, 8) == Live(bytes, front, 0)
  {
    LiveEmptyBack(bytes + [x], front);
    assert (bytes + [x])[1..|bytes|] == bytes[1..];
    if |bytes| >= 2 { LiveFullBack(bytes, front); }
  }

  lemma LiveFullFront(bytes: seq<u8>, back: nat)
    requires Shape(bytes, 0, back)
    ensures Live(bytes, 0, back) == AllBits(bytes[..|bytes| - 1]) + Bits(bytes[|bytes| - 1], 8 - back)
  {
    var n := |bytes|;
    assert bytes[..n - 1][1..] == bytes[1..n - 1];
    Seqs.Assoc(Bits(bytes[0], 8), AllBits(bytes[1..n - 1]), Bits(bytes[n - 1], 8 - back));
  }

  lemma LiveEmptyFront(bytes: seq<u8>, back: nat)
    requires Shape(bytes, 8, back) && |bytes| >= 2
    ensures Live(bytes, 8, back) == AllBits(bytes[1..|bytes| - 1]) + Bits(bytes[|bytes| - 1], 8 - back)
  {
    Seqs.EmptyLeft(AllBits(bytes[1..|bytes| - 1]) + Bits(bytes[|bytes| - 1], 8 - back));
  }

  /** An empty front byte before a byte that is not the back one can be dropped. */
  lemma LiveDropFront(bytes: seq<u8>, back: nat)
    requires Shape(bytes, 8, back) && |bytes| > 2
    ensures Live(bytes[1..], 0, back) == Live(bytes, 8, back)
  {
    LiveEmptyFront(bytes, back);
    LiveFullFront(bytes[1..], back);
    assert bytes[1..][..|bytes| - 2] == bytes[1..|bytes| - 1];
  }

  /** Changing the back byte appends what its live bits gain. */
  lemma LiveSetBack(bytes: seq<u8>, front: nat, back: nat, x: u8, back': nat, more: seq<bool>)
    requires Shape(bytes, front, back) && |bytes| >= 2 && back' <= 8
    requires Bits(x, 8 - back') == Bits(bytes[|bytes| - 1], 8 - back) + more
    ensures Live(bytes[|bytes| - 1 := x], front, back') == Live(bytes, front, back) + more
  {
    var n := |bytes|;
    assert bytes[n - 1 := x][1..n - 1] == bytes[1..n - 1];
    var a, b, c := Bits(bytes[0], 8 - front), AllBits(bytes[1..n - 1]), Bits(bytes[n - 1], 8 - back);
    Seqs.Assoc(b, c, more);
    Seqs.Assoc(a, b + c, more);
  }

  /** Data ored in above the live bits of the back byte: some become live, the rest is residue. */
  lemma LiveOrBack(bytes: seq<u8>, front: nat, back: nat, x: u8, data: u64, added: nat)
    requires Shape(bytes, front, back) && |bytes| >= 2 && added <= back
    requires Bits(x, 8) == Bits(bytes[|bytes| - 1], 8 - back) + Bits(data, back)
    ensures Live(bytes[|bytes| - 1 := x], front, back - added) == Live(bytes, front, back) + Bits(data, added)
    ensures Blank(bytes[|bytes| - 1 := x], back - added) == Bits(Shr(data, added), back - added)
  {
    var n := |bytes|;
    SplitByte(x, bytes[n - 1], data, 8 - back, added);
    LiveSetBack(bytes, front, back, x, back - added, Bits(data, added));
  }

  /** Taking low bits of the front byte takes the oldest bits of the queue. */
  lemma LiveTakeFront(bytes: seq<u8>, front: nat, back: nat, x: u8, taken: nat)
    requires Shape(bytes, front, back) && 0 < taken <= 8 - front
    requires x == Shr(bytes[0], taken) || taken == 8
    ensures Live(bytes, front, back) == Bits(bytes[0], taken) + Live(bytes[0 := x], front + taken, back)
    ensures Blank(bytes[0 := x], back) == Blank(bytes, back)
  {
    var n := |bytes|;
    assert bytes[0 := x][1..n - 1] == bytes[1..n - 1];
    BitsSplit(bytes[0], taken, 8 - front - taken);
    assert Bits(x, 8 - front - taken) == Bits(Shr(bytes[0], taken), 8 - front - taken);
    Seqs.Assoc(Bits(bytes[0], taken), Bits(x, 8 - front - taken),
               AllBits(bytes[1..n - 1]) + Bits(bytes[n - 1], 8 - back));
  }

  lemma LiveOnlyBack(bytes: seq<u8>, back: nat)
    requires Shape(bytes, 8, back) && |bytes| == 2
    ensures Live(bytes, 8, back) == Bits(bytes[1], 8 - back)
  {
    LiveEmptyFront(bytes, back);
    Seqs.EmptyLeft(Bits(bytes[1], 8 - back));
  }

  /** Once the front byte is empty and nothing lies between, the back byte is the queue. */
  lemma LiveTakeBack(bytes: seq<u8>, front: nat, back: nat, x: u8, taken: nat)
    requires Shape(bytes, front, back) && taken + back <= 8
    requires taken == 0 || (front == 8 && |bytes| == 2)
    requires x == Shr(bytes[|bytes| - 1], taken)
    ensures Live(bytes, front, back)
         == Bits(bytes[|bytes| - 1], taken) + Live(bytes[|bytes| - 1 := x], front, back + taken)
    ensures Blank(bytes[|bytes| - 1 := x], back + taken) == Blank(bytes, back) + Zeros(taken)
  {
    if taken == 0 {
      assert bytes[|bytes| - 1 := x] == bytes;
      Seqs.EmptyLeft(Live(bytes, front, back));
      Seqs.EmptyRight(Blank(bytes, back));
    } else {
      BitsSplit(bytes[1], taken, 8 - back - taken);
      LiveOnlyBack(bytes, back);
      LiveOnlyBack(bytes[1 := x], back + taken);
      BitsAboveByte(bytes[1], taken, 8 - back - taken, back);
    }
  }

  /** Whole bytes pushed behind a full back byte. */
  lemma LiveWithPushed(base: seq<u8>, pushed: seq<u8>, front: nat)
    requires |base| >= 1 && |pushed| >= 1 && front <= 8
    ensures Live(base + pushed, front, 0) == Bits(base[0], 8 - front) + AllBits(base[1..]) + AllBits(pushed)
  {
    LiveFullBack(base + pushed, front);
    Seqs.TailOfConcat(base, pushed);
    AllBitsAppend(base[1..], pushed);
    Seqs.Assoc(Bits(base[0], 8 - front), AllBits(base[1..]), AllBits(pushed));
  }

  /** With the front byte whole or empty, the queue is whole bytes and then the back byte. */
  lemma FrontBytesLive(bytes: seq<u8>, front: nat, back: nat)
    requires Shape(bytes, front, back) && |bytes| >= 2
    requires front == 0 || (front == 8 && |bytes| == 2)
    ensures var all := if front == 8 then bytes[1..] else bytes;
            && Live(bytes, front, back) == AllBits(all[..|all| - 1]) + Bits(all[|all| - 1], 8 - back)
            && Blank(bytes, back) == Blank(all, back)
  {
    if front == 8 {
      LiveOnlyBack(bytes, back);
      Seqs.EmptyLeft(Bits(bytes[1], 8 - back));
    } else {
      LiveFullFront(bytes, back);
    }
  }

  /** The deque after popping whole bytes: an empty front byte is put back before fewer than two. */
  function Refilled(rest: seq<u8>): (seq<u8>, nat)
  {
    if |rest| < 2 then ([0] + rest, 8) else (rest, 0)
  }

  lemma DrainedSplit(all: seq<u8>, back: nat, k: nat)
    requires k < |all| && back <= 8
    ensures var n, last := |all|, Bits(all[|all| - 1], 8 - back);
      AllBits(all[..n - 1]) + last == AllBits(all[..k]) + (AllBits(all[k..n - 1]) + last)
  {
    hide Bits;
    var n, last := |all|, Bits(all[|all| - 1], 8 - back);
    AllBitsAppend(all[..k], all[k..n - 1]);
    Seqs.Split(all[..n - 1], k);
    assert all[..n - 1][..k] == all[..k] && all[..n - 1][k..] == all[k..n - 1];
    Seqs.Assoc(AllBits(all[..k]), AllBits(all[k..n - 1]), last);
  }

  /** Taking the first `k` whole bytes of a queue without front blanks. */
  lemma LiveDrained(all: seq<u8>, back: nat, before: seq<bool>, k: nat)
    requires |all| >= 1 && back <= 8
    requires before == AllBits(all[..|all| - 1]) + Bits(all[|all| - 1], 8 - back)
    requires k <= |all| && 8 * k <= |before|
    ensures var (bytes, front) := Refilled(all[k..]);
            && Shape(bytes, front, back)
            && before == AllBits(all[..k]) + Live(bytes, front, back)
            && Blank(bytes, back) == Blank(all, back)
  {
    var n := |all|;
    if k < n {
      DrainedSplit(all, back, k);
      if n - k >= 2 {
        hide Bits;
        LiveFullFront(all[k..], back);
        assert all[k..][..n - k - 1] == all[k..n - 1];
      } else {
        hide Bits;
        assert all[k..n - 1] == [];
        Seqs.EmptyLeft(Bits(all[n - 1], 8 - back));
        LiveOnlyBack([0] + all[k..], back);
      }
    } else {
      hide Bits;
      AllBitsSnoc(all[..n - 1], all[n - 1]);
      Seqs.Unsnoc(all);
      assert all[..n] == all;
      Seqs.EmptyRight(AllBits(all));
    }
  }

  // ------------------------------------------------------------ steps on words

  function ShiftRight(x: u64, n: nat): (r: u64)
    requires n < 64
    ensures r == Shr(x, n)
  {
    ShrShrinks(x, n);
    Shr(x, n)
  }

  function ShiftRightByte(x: u8, n: nat): (r: u8)
    requires n < 8
    ensures r == Shr(x, n)
  {
    ShrShrinks(x, n);
    Shr(x, n)
  }

  /** The low `k` bits of a byte, under the source's mask. */
  method MaskLow(x: u8, k: nat) returns (r: u64)
    requires k <= 8
    ensures r == Val(Bits(x, k))
  {
    hide And, Bits, Val;
    var ones := LowOrderOnes(k);
    WordSizes();
    Pow2Monotone(k, 8);
    AndOnes(x, ones, k);
    BitsOfVal(Bits(x, k));
    Pow2Monotone(k, 64);
    var mask: u8 := ones % 0x100;
    r := And(x, mask);
  }

  /** The low byte of a word, under the source's mask. */
  method LowByte(x: u64) returns (r: u8)
    ensures Bits(r, 8) == Bits(x, 8)
  {
    var ones := LowOrderOnes(8);
    WordSizes();
    AndOnes(x, ones, 8);
    BitsOfVal(Bits(x, 8));
    r := And(x, ones);
  }

  /** Oring `data`, shifted to bit `full` and cut to a byte, keeps the bits below and ors those above. */
  method OrIntoByte(x: u8, data: u64, full: nat) returns (r: u8)
    requires full <= 8
    ensures Bits(r, 8) == Bits(x, full) + OrBits(Bits(Shr(x, full), 8 - full), Bits(data, 8 - full))
  {
    var shifted := Shl64(data, full);
    var y: u8 := shifted % 0x100;
    ShiftedByte(data, full, y);
    WordSizes();
    OrFits(x, y, 8);
    BitsOfOr(x, y, 8);
    BitsSplit(x, full, 8 - full);
    r := Or(x, y);
  }

  lemma ShiftedByte(data: u64, full: nat, y: u8)
    requires full <= 8 && y == Shl64(data, full) % 0x100
    ensures Bits(y, 8) == Zeros(full) + Bits(data, 8 - full)
  {
    WordSizes();
    BitsOfMod(data * Pow2(full), 64, 8);
    BitsOfMod(Shl64(data, full), 8, 8);
    BitsOfShifted(data, full, 8);
  }

  /** Oring newly taken bits in above the ones already taken concatenates them. */
  method Merge(acc: u64, data: u64, position: nat, ghost a: seq<bool>, ghost b: seq<bool>) returns (r: u64)
    requires |a| == position < 64 && position + |b| <= 64
    requires acc == Val(a) && data == Val(b)
    ensures r == Val(a + b)
  {
    BitsOfVal(a);
    BitsOfVal(b);
    Shl64Fits(data, |b|, position);
    OrDisjoint(acc, data, position);
    ValAppend(a, b);
    BitsOfVal(a + b);
    WordSizes();
    Pow2Monotone(|a| + |b|, 64);
    r := Or(acc, Shl64(data, position));
  }

  /** Data that fits its count leaves no residue; data that does not leaves exactly its higher bits. */
  lemma ResidueIsZero(data: u64, count: nat, blank: nat)
    ensures Bits(Shr(data, count), blank) == Zeros(blank) <==> (data / Pow2(count)) % Pow2(blank) == 0
    ensures data < Pow2(count) ==> Bits(Shr(data, count), blank) == Zeros(blank)
  {
    ShrIsDiv(data, count);
    ZeroBitsIffZero(Shr(data, count), blank);
    if data < Pow2(count) {
      Quotient(data, Pow2(count), 0, data);
      BitsOfZero(blank);
    }
  }

  lemma ZeroByteClean()
    ensures Bits(Shr(0, 0), 8) == Zeros(8)
  {
    BitsOfZero(8);
  }

  lemma SplitByte(r: u8, x: u8, data: u64, full: nat, added: nat)
    requires full + added <= 8
    requires Bits(r, 8) == Bits(x, full) + Bits(data, 8 - full)
    ensures Bits(r, full + added) == Bits(x, full) + Bits(data, added)
    ensures Bits(Shr(r, full + added), 8 - full - added) == Bits(Shr(data, added), 8 - full - added)
  {
    BitsPrefix(r, full + added, 8);
    BitsPrefix(data, added, 8 - full);
    var d := Bits(data, 8 - full);
    assert Bits(r, 8)[..full + added] == Bits(x, full) + d[..added];
    assert Bits(r, 8)[full + added..] == d[added..];
  }

  /** Shifting taken bits out of a byte puts zeros above its residue. */
  lemma BitsAboveByte(x: u8, taken: nat, remaining: nat, blank: nat)
    requires taken + remaining + blank == 8
    ensures Bits(Shr(Shr(x, taken), remaining), blank + taken)
         == Bits(Shr(x, taken + remaining), blank) + Zeros(taken)
  {
    ShrShr(x, taken, remaining);
    BitsSplit(Shr(x, taken + remaining), blank, taken);
    ShrShr(x, taken + remaining, blank);
    WordSizes();
    ShrIsDiv(x, 8);
    BitsOfZero(taken);
  }

  lemma ByteJoins(all: seq<u8>, k: nat)
    requires k < |all|
    ensures AllBits(all[..k + 1]) == AllBits(all[..k]) + Bits(all[k], 8)
    ensures Val(Bits(all[k], 8)) == all[k]
  {
    AllBitsSnoc(all[..k], all[k]);
    Seqs.TakeOneMore(all, k);
    WordSizes();
    ValOfSmall(all[k], 8);
  }

  /** One more whole byte of `data` behind the ones already pushed. */
  lemma PushByte(data: u64, pushed: seq<u8>, next: u8)
    requires AllBits(pushed) == Bits(data, 8 * |pushed|)
    requires Bits(next, 8) == Bits(Shr(data, 8 * |pushed|), 8)
    ensures AllBits(pushed + [next]) == Bits(data, 8 * |pushed + [next]|)
    ensures Shr(Shr(data, 8 * |pushed|), 8) == Shr(data, 8 * |pushed + [next]|)
  {
    AllBitsSnoc(pushed, next);
    BitsSplit(data, 8 * |pushed|, 8);
    ShrShr(data, 8 * |pushed|, 8);
  }

  /** The parts of an addition join up. */
  lemma AddedInParts(before: seq<bool>, data: u64, a: nat, b: nat, total: nat)
    requires total == a + b
    ensures before + Bits(data, a) + Bits(Shr(data, a), b) == before + Bits(data, total)
    ensures Shr(Shr(data, a), b) == Shr(data, total)
  {
    BitsSplit(data, a, b);
    Seqs.Assoc(before, Bits(data, a), Bits(Shr(data, a), b));
    ShrShr(data, a, b);
  }

  /** Data with what is in the blank bits ored onto it. */
  ghost function Blended(data: u64, low: seq<bool>): u64
    requires |low| <= 8
  {
    BitsOfVal(low);
    Pow2Monotone(|low|, 64);
    WordSizes();
    OrFits(data, Val(low), 64);
    Or(data, Val(low))
  }

  lemma OrOntoZeros(b: seq<bool>)
    ensures OrBits(Zeros(|b|), b) == b
  {
  }

  lemma BlendedWithNothing(data: u64, n: nat)
    requires n <= 8
    ensures Blended(data, Zeros(n)) == data
  {
    BitsOfZero(n);
    ValOfSmall(0, n);
    OrCommutes(data, 0);
    OrZero(data);
  }

  lemma BlendFirst(data: u64, low: seq<bool>)
    requires |low| <= 8
    ensures low == [] ==> Blended(data, low) == data
    ensures OrBits(low, Bits(data, |low|)) == Bits(Blended(data, low), |low|)
  {
    OrLow(data, low);
    if low == [] { BlendedWithNothing(data, 0); }
  }

  ghost function ShrOfWord(x: u64, n: nat): (r: u64)
    ensures r == Shr(x, n)
  {
    ShrShrinks(x, n);
    Shr(x, n)
  }

  /** What is added before the last step: past the blank bits it is the data itself. */
  lemma AddedSoFar(before: seq<bool>, data: u64, low: seq<bool>, a: nat, b: nat, count: nat)
    requires |low| <= 8 && a <= count && (a < |low| ==> a == count && b == 0)
    ensures var blended := Blended(data, low);
      && before + Bits(blended, a) + Bits(Shr(data, a), b) == before + Bits(blended, a + b)
      && (a >= |low| ==> Shr(Shr(data, a), b) == Shr(blended, a + b))
  {
    hide Bits, OrBits, Val, Or, Shr;
    var blended := Blended(data, low);
    OrLow(data, low);
    if a >= |low| {
      AddedInParts(before, blended, a, b, a + b);
    } else {
      Seqs.EmptyRight(before + Bits(blended, a));
    }
  }

  /** The room for bits in the back byte, a fresh one if there is none. */
  function Room(blank: nat): nat { if blank == 0 then 8 else blank }

  // ------------------------------------------------------------------ the class

  class BitQueue {
    var backBlank: nat
    var bytes: seq<u8>
    var frontBlank: nat
    ghost var contents: seq<bool>  // the bits held, oldest first
    ghost var residue: seq<bool>   // the blank bits of the back byte

    ghost predicate Valid()
      reads this
    {
      && Shape(bytes, frontBlank, backBlank)
      && contents == Live(bytes, frontBlank, backBlank)
      && residue == Blank(bytes, backBlank)
    }

    /** The front byte is either whole or empty, and empty only when the back byte alone follows. */
    ghost predicate FrontSettled()
      reads this
    {
      if |bytes| >= 2 && frontBlank == 0 then true else frontBlank == 8 && |bytes| <= 2
    }

    /** Nothing lies in the blank bits of the back byte, so that adding ors onto zeros. */
    ghost predicate Clean()
      reads this
    {
      residue == Zeros(backBlank)
    }

    constructor ()
      ensures Valid() && Clean() && contents == []
    {
      backBlank, bytes, frontBlank := 8, [0, 0], 8;
      contents, residue := [], Zeros(8);
      LiveEmptyBack([0, 0], 8);
      ZeroByteClean();
    }

    function Len(): (n: nat)
      requires Valid()
      reads this
      ensures n == |contents|
    {
      8 * |bytes| - backBlank - frontBlank
    }

    predicate IsEmpty()
      requires Valid()
      reads this
      ensures IsEmpty() <==> contents == []
    {
      Len() == 0
    }

    /**
     Appends the low `count` bits of `data`. Bits of `data` above `count` are not
     masked: they land in the blank bits of the back byte, and what is there already
     is ored with what is added.
     */
    method AddBits(data: u64, count: nat)
      requires Valid()
      requires count <= 64
      modifies this
      ensures Valid()
      ensures contents == old(contents) + Bits(Or(data, Val(old(residue))), count)
      ensures residue == Bits(Shr(Or(data, Val(old(residue))), count), backBlank)
      ensures backBlank > 0
      ensures old(Clean()) ==>
                contents == old(contents) + Bits(data, count) && residue == Bits(Shr(data, count), backBlank)
    {
      hide Bits, Valid, Blends;
      ghost var before := contents;
      BlankSize();
      ghost var blended: u64 := Blended(data, residue);
      if Clean() { BlendedWithNothing(data, backBlank); }
      var bitData, bitCount, rest := AddFirst(data, count, blended);
      var final := AddSomeBackBits(bitData, bitCount, rest);
      AddedInParts(before, blended, count - bitCount, final, count);
      bitData, bitCount := ShiftRight(bitData, final), bitCount - final;
      assert bitCount == 0;  // "Didn't add all the bits" is out of reach
    }

    lemma BlankSize()
      requires Valid()
      ensures |residue| == backBlank <= 8
    {
    }

    /** The first two steps of adding: what the back byte has room for, then whole bytes. */
    method AddFirst(data: u64, count: nat, ghost blended: u64) returns (bitData: u64, bitCount: nat, ghost rest: u64)
      requires Valid() && count <= 64
      requires |residue| <= 8 && blended == Blended(data, residue)
      modifies this
      ensures Valid() && bitCount <= count && bitCount < 8 && bitCount < Room(backBlank)
      ensures contents == old(contents) + Bits(blended, count - bitCount)
      ensures rest == Shr(blended, count - bitCount) && Blends(bitData, rest)
    {
      hide Bits, Valid;
      ghost var before, low := contents, residue;
      BlankSize();
      BlendFirst(data, low);
      bitData, bitCount := data, count;
      var initial := AddSomeBackBits(bitData, bitCount, blended);
      bitData, bitCount := ShiftRight(bitData, initial), bitCount - initial;
      ghost var left := backBlank;
      BlankSize();
      var whole := AddBackBytes(bitData, bitCount);
      AddedSoFar(before, data, low, initial, whole, count);
      bitData, bitCount := ShiftRight(bitData, whole), bitCount - whole;
      rest := ShrOfWord(blended, initial + whole);
      OrOntoZeros(Bits(bitData, 8));
      OrAgain(data, low, initial, left);
    }

    /**
     Takes `count` bits off the front, the oldest as the least significant, or
     nothing at all when there are not that many.
     */
    method TakeBits(count: nat) returns (r: Option<u64>)
      requires Valid()
      requires count <= 64
      modifies this
      ensures Valid()
      ensures r.None? <==> count > old(|contents|)
      ensures r.None? ==> unchanged(this)
      ensures r.Some? ==> contents == old(contents)[count..]
      ensures r.Some? ==> r.value == Val(old(contents)[..count])
      ensures old(Clean()) ==> Clean()
    {
      if count > Len() { return None; }
      var bitData, position, got := TakeFromFront(count);
      ghost var finalGot;
      bitData, position, finalGot := TakeRemainder(bitData, position, count - position, got);
      Seqs.Assoc(got, finalGot, contents);
      assert position == count;  // "Wanted ... bits" is out of reach
      Seqs.Parts(got + finalGot, contents);
      r := Some(bitData);
    }

    // ------------------------------------------------------- the private helpers

    /** The first half of taking: what is left of the front byte, then whole bytes. */
    method TakeFromFront(count: nat) returns (data: u64, taken: nat, ghost got: seq<bool>)
      requires Valid() && count <= 64 && count <= |contents|
      modifies this
      ensures Valid()
      ensures taken <= count < taken + 8
      ensures taken < count ==> FrontSettled()
      ensures old(contents) == got + contents
      ensures taken == |got| && data == Val(got)
      ensures backBlank == old(backBlank) && residue == old(residue)
    {
      var initialData, initialCount, initial := TakeSomeFrontBits(count);
      data := Merge(0, initialData, 0, [], initial);
      Seqs.EmptyLeft(initial);
      var bytesData, bytesCount, whole := TakeFrontBytes(count - initialCount);
      data := Merge(data, bytesData, initialCount, initial, whole);
      Seqs.Assoc(initial, whole, contents);
      taken, got := initialCount + bytesCount, initial + whole;
    }

    /** The second half: fewer than eight bits, from the front byte or else from the back byte. */
    method TakeRemainder(acc: u64, position: nat, count: nat, ghost before: seq<bool>)
        returns (data: u64, end: nat, ghost got: seq<bool>)
      requires Valid() && count < 8 && count <= |contents|
      requires count > 0 ==> FrontSettled()
      requires |before| == position && position + count <= 64 && acc == Val(before)
      modifies this
      ensures Valid()
      ensures end == position + count
      ensures old(contents) == got + contents
      ensures |got| == count && data == Val(before + got)
      ensures old(Clean()) ==> Clean()
    {
      var frontData, frontCount, front := TakeSomeFrontBits(count);
      data, end := acc, position;
      if frontCount > 0 {
        data := Merge(data, frontData, end, before, front);
        end := end + frontCount;
      } else {
        Seqs.EmptyRight(before);
      }
      var backData, backCount, back := TakeSomeBackBits(count - frontCount);
      if backCount > 0 {
        data := Merge(data, backData, end, before + front, back);
        end := end + backCount;
      } else {
        Seqs.EmptyRight(before + front);
      }
      Seqs.Assoc(before, front, back);
      Seqs.Assoc(front, back, contents);
      got := front + back;
    }

    /** Puts an empty byte behind a back byte that is full. */
    method GrowBack()
      requires Valid() && backBlank == 0
      modifies this
      ensures Valid() && Clean()
      ensures bytes == old(bytes) + [0] && backBlank == 8
      ensures contents == old(contents) && frontBlank == old(frontBlank)
    {
      LiveGrowBack(bytes, frontBlank, 0);
      ZeroByteClean();
      bytes, backBlank, residue := bytes + [0], 8, Zeros(8);
    }

    /** What the blank bits of the back byte become when data is ored onto them. */
    ghost predicate Blends(data: u64, blended: u64)
      reads this
    {
      if backBlank == 0 then blended == data
      else |residue| == backBlank && OrBits(residue, Bits(data, backBlank)) == Bits(blended, backBlank)
    }

    /** Ors data into a back byte that has room. */
    method OrIntoBack(data: u64, added: nat, ghost blended: u64)
      requires Valid() && |bytes| >= 2 && added <= backBlank
      requires OrBits(residue, Bits(data, backBlank)) == Bits(blended, backBlank)
      modifies this
      ensures Valid() && |bytes| == old(|bytes|)
      ensures backBlank == old(backBlank) - added
      ensures residue == Bits(Shr(blended, added), backBlank)
      ensures contents == old(contents) + Bits(blended, added)
    {
      var full := 8 - backBlank;
      var n := |bytes|;
      var back := OrIntoByte(bytes[n - 1], data, full);
      LiveOrBack(bytes, frontBlank, backBlank, back, blended, added);
      bytes := bytes[n - 1 := back];
      backBlank := backBlank - added;
      contents, residue := contents + Bits(blended, added), Bits(Shr(blended, added), backBlank);
    }

    method AddSomeBackBits(data: u64, count: nat, ghost blended: u64) returns (added: nat)
      requires Valid() && Blends(data, blended)
      modifies this
      ensures Valid() && |bytes| >= 2
      ensures added == Min(count, Room(old(backBlank)))
      ensures added == Room(old(backBlank)) ==> backBlank == 8 && Clean()
      ensures added < Room(old(backBlank)) ==>
                backBlank == Room(old(backBlank)) - added && residue == Bits(Shr(blended, added), backBlank)
      ensures contents == old(contents) + Bits(blended, added)
    {
      if backBlank == 0 {
        GrowBack();
        OrOntoZeros(Bits(data, 8));
      }
      added := Min(count, backBlank);
      OrIntoBack(data, added, blended);
      if backBlank == 0 { GrowBack(); }
    }

    method AddBackBytes(data: u64, count: nat) returns (added: nat)
      requires Valid() && |bytes| >= 2
      requires count <= 64
      requires count >= 8 ==> backBlank == 8
      modifies this
      ensures Valid()
      ensures added == 8 * (count / 8)
      ensures count < 8 ==> unchanged(this)
      ensures count >= 8 ==> backBlank == 0 && Clean()
      ensures contents == old(contents) + Bits(data, added)
    {
      if count < 8 {
        Seqs.EmptyRight(contents);
        return 0;
      }
      LiveEmptyBack(bytes, frontBlank);
      if backBlank == 8 {
        bytes := bytes[..|bytes| - 1];
        backBlank := 0;
      }
      assert backBlank == 0;  // "only works when there are no back blank bits" is out of reach
      ghost var base := bytes;
      assert base[1..] == old(bytes)[1..|old(bytes)| - 1];
      ghost var pushed;
      added, pushed := PushBytes(data, count);
      LiveWithPushed(base, pushed, frontBlank);
      contents, residue := contents + Bits(data, added), [];
    }

    /** The pushing loop of `AddBackBytes`. */
    method PushBytes(data: u64, count: nat) returns (added: nat, ghost pushed: seq<u8>)
      requires count <= 64
      modifies this`bytes
      ensures bytes == old(bytes) + pushed
      ensures added == 8 * |pushed| == 8 * (count / 8)
      ensures AllBits(pushed) == Bits(data, added)
    {
      pushed := [];
      var bitData, bitCount: nat := data, count;
      while bitCount >= 8
        invariant count == bitCount + 8 * |pushed|
        invariant bytes == old(bytes) + pushed
        invariant bitData == Shr(data, 8 * |pushed|)
        invariant AllBits(pushed) == Bits(data, 8 * |pushed|)
        decreases bitCount
      {
        var next := LowByte(bitData);
        PushByte(data, pushed, next);
        Seqs.Assoc(old(bytes), pushed, [next]);
        bytes, pushed := bytes + [next], pushed + [next];
        bitData := ShiftRight(bitData, 8);
        bitCount := bitCount - 8;
      }
      added := count - bitCount;
    }

    /** Drops a front byte that is empty when more than the back byte follows. */
    method DropFront()
      requires Valid() && frontBlank == 8 && |bytes| > 2
      modifies this
      ensures Valid() && frontBlank == 0 && bytes == old(bytes)[1..]
      ensures contents == old(contents) && backBlank == old(backBlank) && residue == old(residue)
    {
      LiveDropFront(bytes, backBlank);
      bytes, frontBlank := bytes[1..], 0;
    }

    method TakeSomeFrontBits(count: nat) returns (data: u64, taken: nat, ghost got: seq<bool>)
      requires Valid()
      modifies this
      ensures Valid()
      ensures taken <= count && taken <= 8
      ensures taken < count ==> FrontSettled()
      ensures old(FrontSettled()) && taken < count < 8 ==> frontBlank == 8
      ensures old(contents) == got + contents
      ensures taken == |got| && data == Val(got)
      ensures backBlank == old(backBlank) && residue == old(residue)
    {
      if 8 - frontBlank == 0 && |bytes| > 2 { DropFront(); }
      taken := Min(count, 8 - frontBlank);
      if taken == 0 {
        Seqs.EmptyLeft(contents);
        return 0, 0, [];
      }
      var front := bytes[0];
      data := MaskLow(front, taken);
      var rest: u8 := if taken < 8 then ShiftRightByte(front, taken) else 0;
      got := Bits(front, taken);
      LiveTakeFront(bytes, frontBlank, backBlank, rest, taken);
      bytes := bytes[0 := rest];
      frontBlank := frontBlank + taken;
      contents := Live(bytes, frontBlank, backBlank);
      if frontBlank == 8 && |bytes| > 2 { DropFront(); }
    }

    method TakeFrontBytes(count: nat) returns (data: u64, taken: nat, ghost got: seq<bool>)
      requires Valid()
      requires count <= 64 && count <= |contents|
      requires count > 0 ==> FrontSettled()
      modifies this
      ensures Valid()
      ensures taken <= count < taken + 8
      ensures count > 0 ==> FrontSettled()
      ensures old(contents) == got + contents
      ensures taken == |got| && data == Val(got)
      ensures backBlank == old(backBlank) && residue == old(residue)
    {
      if count < 8 {
        Seqs.EmptyLeft(contents);
        return 0, 0, [];
      }
      FrontBytesLive(bytes, frontBlank, backBlank);
      if frontBlank == 8 {
        bytes := bytes[1..];
        frontBlank := 0;
      }
      assert frontBlank == 0;  // "only works when there are no front blank bits" is out of reach
      ghost var all := bytes;
      ghost var k;
      data, taken, k := PopBytes(count);
      got := AllBits(all[..k]);
      LiveDrained(all, backBlank, contents, k);
      if |bytes| < 2 {
        bytes := [0] + bytes;
        frontBlank := 8;
      }
      contents := Live(bytes, frontBlank, backBlank);
    }

    /** The popping loop of `TakeFrontBytes`. */
    method PopBytes(count: nat) returns (data: u64, taken: nat, ghost k: nat)
      requires count <= 64 && count <= 8 * |bytes|
      modifies this`bytes
      ensures taken == 8 * k <= count < taken + 8
      ensures k <= old(|bytes|) && bytes == old(bytes)[k..]
      ensures data == Val(AllBits(old(bytes)[..k]))
    {
      data, k := 0, 0;
      var bitCount: nat := count;
      while bitCount >= 8
        invariant count == bitCount + 8 * k && k <= old(|bytes|)
        invariant bytes == old(bytes)[k..]
        invariant data == Val(AllBits(old(bytes)[..k]))
        decreases bitCount
      {
        var byte := bytes[0];  // "Demanded too many bytes" is out of reach
        bytes := bytes[1..];
        ByteJoins(old(bytes), k);
        data := Merge(data, byte, count - bitCount, AllBits(old(bytes)[..k]), Bits(byte, 8));
        bitCount, k := bitCount - 8, k + 1;
      }
      taken := count - bitCount;
    }

    /** Drops a back byte that is empty when more than the front byte precedes it. */
    method DropBack()
      requires Valid() && backBlank == 8 && |bytes| > 2
      modifies this
      ensures Valid() && Clean()
      ensures contents == old(contents)
    {
      var n := |bytes|;
      LiveGrowBack(bytes[..n - 1], frontBlank, bytes[n - 1]);
      Seqs.Unsnoc(bytes);
      bytes, backBlank, residue := bytes[..n - 1], 0, [];
    }

    method TakeSomeBackBits(count: nat) returns (data: u64, taken: nat, ghost got: seq<bool>)
      requires Valid()
      requires count < 8 && count <= |contents|
      requires count > 0 ==> FrontSettled() && frontBlank == 8
      modifies this
      ensures Valid()
      ensures taken == count
      ensures old(contents) == got + contents
      ensures taken == |got| && data == Val(got)
      ensures old(Clean()) ==> Clean()
    {
      taken := Min(count, 8 - backBlank);
      assert taken == count;
      data, got := ShiftBack(taken);
      if backBlank == 8 && |bytes| > 2 { DropBack(); }
    }

    /** Shifts bits out of the back byte. */
    method ShiftBack(taken: nat) returns (data: u64, ghost got: seq<bool>)
      requires Valid()
      requires taken < 8 && taken <= 8 - backBlank
      requires taken == 0 || (frontBlank == 8 && |bytes| == 2)
      modifies this
      ensures Valid()
      ensures old(contents) == got + contents
      ensures taken == |got| && data == Val(got)
      ensures backBlank == old(backBlank) + taken
      ensures residue == old(residue) + Zeros(taken)
    {
      var n := |bytes|;
      var remaining := 8 - backBlank - taken;
      var back := bytes[n - 1];
      data := 0;
      if remaining < 8 { data := MaskLow(back, taken); }
      got := Bits(back, taken);
      var rest: u8 := ShiftRightByte(back, taken);
      LiveTakeBack(bytes, frontBlank, backBlank, rest, taken);
      bytes := bytes[n - 1 := rest];
      backBlank := backBlank + taken;
      contents, residue := Live(bytes, frontBlank, backBlank), residue + Zeros(taken);
    }
  }

  // -------------------------------------------------------------- whole histories

  datatype Call = Add(data: u64, count: nat) | Take(count: nat)

  /** What the callers promise: at most 64 bits a call, and data that fits its count. */
  predicate Legal(c: Call) {
    c.count <= 64 && (c.Add? ==> c.data < Pow2(c.count))
  }

  /** One call on a plain first-in first-out queue of bits. */
  function After(held: seq<bool>, call: Call): seq<bool>
  {
    match call
    case Add(data, count) => held + Bits(data, count)
    case Take(count) => if count > |held| then held else held[count..]
  }

  function Answer(held: seq<bool>, call: Call): Option<nat>
  {
    if call.Add? || call.count > |held| then None else Some(Val(held[..call.count]))
  }

  /** What the plain queue answers to a history of calls. */
  function Answers(held: seq<bool>, calls: seq<Call>): seq<Option<nat>>
    decreases |calls|
  {
    if calls == [] then [] else [Answer(held, calls[0])] + Answers(After(held, calls[0]), calls[1..])
  }

  method Perform(q: BitQueue, call: Call) returns (answer: Option<nat>)
    requires q.Valid() && q.Clean() && Legal(call)
    modifies q
    ensures q.Valid() && q.Clean()
    ensures q.contents == After(old(q.contents), call)
    ensures answer == Answer(old(q.contents), call)
  {
    match call {
      case Add(data, count) =>
        q.AddBits(data, count);
        ResidueIsZero(data, count, q.backBlank);
        answer := None;
      case Take(count) =>
        answer := q.TakeBits(count);
    }
  }

  /** Whatever is asked of it, in whatever order, the queue answers as that plain queue does. */
  method Replay(calls: seq<Call>) returns (answers: seq<Option<nat>>)
    requires forall i | 0 <= i < |calls| :: Legal(calls[i])
    ensures answers == Answers([], calls)
  {
    var q := new BitQueue();
    answers := [];
    Seqs.EmptyLeft(Answers([], calls));
    assert calls[0..] == calls;
    for n := 0 to |calls|
      invariant q.Valid() && q.Clean()
      invariant answers + Answers(q.contents, calls[n..]) == Answers([], calls)
    {
      ghost var held := q.contents;
      assert calls[n..][1..] == calls[n + 1..];
      var answer := Perform(q, calls[n]);
      Seqs.Assoc(answers, [answer], Answers(q.contents, calls[n + 1..]));
      answers := answers + [answer];
    }
    Seqs.EmptyRight(answers);
  }
}
