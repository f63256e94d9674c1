/** Packing bit fields into a buffer of 64-bit words, against concatenation. Numbers are sequences of bits,
    the least significant first, as a little-endian memory holds them. */
module BinAssemble {
  import opened Arithmetic

  const BIN_WORD_SIZE: nat := 64
  const BITS_PER_BYTE: nat := 8

  type Bits = seq<bool>

  function Zeros(n: nat): (z: Bits)
    ensures |z| == n && forall k :: 0 <= k < n ==> !z[k]
  {
    seq(n, k => false)
  }

  predicate IsWord(w: Bits) {
    |w| == BIN_WORD_SIZE
  }

  /** w << n, cut off to a word. */
  function ShiftLeft(w: Bits, n: nat): (r: Bits)
    requires IsWord(w) && n <= BIN_WORD_SIZE
    ensures IsWord(r) && forall k :: 0 <= k < BIN_WORD_SIZE ==> r[k] == (k >= n && w[k - n])
  {
    Zeros(n) + w[..BIN_WORD_SIZE - n]
  }

  /** w >> n, unsigned. */
  function ShiftRight(w: Bits, n: nat): (r: Bits)
    requires IsWord(w) && n <= BIN_WORD_SIZE
    ensures IsWord(r) && forall k :: 0 <= k < BIN_WORD_SIZE ==> r[k] == (k + n < BIN_WORD_SIZE && w[k + n])
  {
    w[n..] + Zeros(n)
  }

  function Or(a: Bits, b: Bits): (r: Bits)
    requires |a| == |b|
    ensures |r| == |a| && forall k :: 0 <= k < |a| ==> r[k] == (a[k] || b[k])
  {
    seq(|a|, k requires 0 <= k < |a| => a[k] || b[k])
  }

  function Ceiling(n: nat, d: nat): nat
    requires d > 0
  {
    (n + d - 1) / d
  }

  /** The bits of n that make up whole words. */
  function WholeWords(n: nat): (m: nat)
    ensures m <= n
  {
    n - n % BIN_WORD_SIZE
  }

  /** Some bit from bitsize on is set. */
  predicate IsImpure(w: Bits, bitsize: nat)
    requires IsWord(w)
  {
    if bitsize >= BIN_WORD_SIZE then false
    else ShiftRight(w, bitsize) != Zeros(BIN_WORD_SIZE)
  }

  lemma ImpureIff(w: Bits, bitsize: nat)
    requires IsWord(w)
    ensures IsImpure(w, bitsize) <==> exists k :: bitsize <= k < BIN_WORD_SIZE && w[k]
  {
    if bitsize < BIN_WORD_SIZE {
      var r := ShiftRight(w, bitsize);
      if r == Zeros(BIN_WORD_SIZE) {
        forall k | bitsize <= k < BIN_WORD_SIZE
          ensures !w[k]
        {
          assert r[k - bitsize] == Zeros(BIN_WORD_SIZE)[k - bitsize];
        }
      } else {
        var k :| 0 <= k < BIN_WORD_SIZE && r[k] != Zeros(BIN_WORD_SIZE)[k];
        assert w[k + bitsize];
      }
    }
  }

  /** The lowest bitsize bits. */
  function FilterImpurity(w: Bits, bitsize: nat): (r: Bits)
    requires IsWord(w) && bitsize < BIN_WORD_SIZE
    ensures IsWord(r) && r[..bitsize] == w[..bitsize] && !IsImpure(r, bitsize)
  {
    var r := ShiftRight(ShiftLeft(w, BIN_WORD_SIZE - bitsize), BIN_WORD_SIZE - bitsize);
    ImpureIff(r, bitsize);
    r
  }

  // ---- Fields ----

  /** A field: one word with at most 64 bits of value, or a buffer with more. */
  datatype AssembleBinDesc = WordDesc(bitsize: nat, word: Bits) | BufDesc(bitsize: nat, buf: Bits) {
    predicate Valid() {
      match this
      case WordDesc(n, w) => n <= BIN_WORD_SIZE && IsWord(w) && !IsImpure(w, n)
      case BufDesc(n, b) => BIN_WORD_SIZE < n <= WholeWords(|b|)
    }

    /** The bits the field stands for. */
    function Field(): (f: Bits)
      requires Valid()
      ensures |f| == bitsize
    {
      match this
      case WordDesc(n, w) => w[..n]
      case BufDesc(n, b) => b[..n]
    }

    /** How far writing the field at offset o touches the buffer. */
    function Touches(o: nat): nat {
      match this
      case WordDesc(n, w) => Touched(o, n)
      case BufDesc(n, b) => TouchedByBuf(o, n)
    }
  }

  predicate AllValid(ds: seq<AssembleBinDesc>) {
    forall i :: 0 <= i < |ds| ==> ds[i].Valid()
  }

  /** The number of bits of the first n fields. */
  ghost function TotalBitSize(ds: seq<AssembleBinDesc>, n: nat): nat
    requires n <= |ds|
  {
    if n == 0 then 0 else TotalBitSize(ds, n - 1) + ds[n - 1].bitsize
  }

  /** The first n fields in order. */
  ghost function Concat(ds: seq<AssembleBinDesc>, n: nat): (b: Bits)
    requires AllValid(ds) && n <= |ds|
    ensures |b| == TotalBitSize(ds, n)
  {
    if n == 0 then [] else Concat(ds, n - 1) + ds[n - 1].Field()
  }

  lemma {:induction false} TotalMonotone(ds: seq<AssembleBinDesc>, i: nat, n: nat)
    requires i <= n <= |ds|
    ensures TotalBitSize(ds, i) <= TotalBitSize(ds, n)
    decreases n
  {
    if i < n {
      TotalMonotone(ds, i, n - 1);
    }
  }

  /** Every field can be read back at its offset. */
  lemma {:induction false} FieldAt(ds: seq<AssembleBinDesc>, i: nat, n: nat)
    requires AllValid(ds) && i < n <= |ds|
    ensures TotalBitSize(ds, i + 1) <= TotalBitSize(ds, n)
    ensures Concat(ds, n)[TotalBitSize(ds, i)..TotalBitSize(ds, i + 1)] == ds[i].Field()
    decreases n
  {
    var c, f, x, y := Concat(ds, n - 1), ds[n - 1].Field(), TotalBitSize(ds, i), TotalBitSize(ds, i + 1);
    if i < n - 1 {
      FieldAt(ds, i, n - 1);
      SliceOfPrefix(c, f, x, y);
    } else {
      SliceOfSuffix(c, f);
    }
    assert Concat(ds, n) == c + f;
    assert (c + f)[x..y] == ds[i].Field();
  }

  lemma SliceOfSuffix(a: Bits, b: Bits)
    ensures (a + b)[|a|..|a| + |b|] == b
  {
  }

  lemma SliceOfPrefix(a: Bits, b: Bits, i: nat, j: nat)
    requires i <= j <= |a|
    ensures (a + b)[i..j] == a[i..j]
  {
  }

  // ---- The buffer ----

  /** Writing the lowest n bits of a word behind startBit bits of word number w touches the buffer up to this
      bit: some bytes at a word boundary; elsewhere the whole word that is or-ed into, and some bytes of the
      next one. */
  function TouchedInWord(w: nat, startBit: nat, n: nat): nat {
    if startBit == 0 then BIN_WORD_SIZE * w + BITS_PER_BYTE * Ceiling(n, BITS_PER_BYTE)
    else if startBit + n <= BIN_WORD_SIZE then BIN_WORD_SIZE * (w + 1)
    else BIN_WORD_SIZE * (w + 1) + BITS_PER_BYTE * Ceiling(startBit, BITS_PER_BYTE)
  }

  function Touched(o: nat, n: nat): nat {
    TouchedInWord(o / BIN_WORD_SIZE, o % BIN_WORD_SIZE, n)
  }

  /** The same for the first n bits of a buffer: its whole words at once or one by one, and what remains. */
  function TouchedByBuf(o: nat, n: nat): nat {
    if n % BIN_WORD_SIZE != 0 then Touched(o + WholeWords(n), n % BIN_WORD_SIZE)
    else if o % BIN_WORD_SIZE == 0 || n == 0 then o + n
    else Touched(o + n - BIN_WORD_SIZE, BIN_WORD_SIZE)
  }

  lemma BytesOf(n: nat)
    ensures n <= BITS_PER_BYTE * Ceiling(n, BITS_PER_BYTE) < n + BITS_PER_BYTE
    ensures n <= BIN_WORD_SIZE ==> BITS_PER_BYTE * Ceiling(n, BITS_PER_BYTE) <= BIN_WORD_SIZE
  {
  }

  lemma WordsOf(o: nat)
    ensures o == BIN_WORD_SIZE * (o / BIN_WORD_SIZE) + o % BIN_WORD_SIZE
    ensures o % BIN_WORD_SIZE < BIN_WORD_SIZE
  {
  }

  lemma {:induction false} SkipWords(o: nat, i: nat)
    ensures (o + i * BIN_WORD_SIZE) / BIN_WORD_SIZE == o / BIN_WORD_SIZE + i
    ensures (o + i * BIN_WORD_SIZE) % BIN_WORD_SIZE == o % BIN_WORD_SIZE
  {
    if i > 0 {
      SkipWords(o, i - 1);
    }
  }

  /** All bits written are touched, and nothing beyond the words they lie in. */
  lemma TouchedBounds(o: nat, n: nat, k: nat)
    requires n <= BIN_WORD_SIZE
    ensures o + n <= Touched(o, n)
    ensures o + n <= BIN_WORD_SIZE * k ==> Touched(o, n) <= BIN_WORD_SIZE * k
  {
    WordsOf(o);
    BytesOf(n);
    BytesOf(o % BIN_WORD_SIZE);
  }

  /** The whole words of a buffer are touched in order, and what remains comes last. */
  lemma TouchedGrows(o: nat, i: nat, n: nat)
    requires o % BIN_WORD_SIZE != 0 && i < n / BIN_WORD_SIZE
    ensures Touched(o + i * BIN_WORD_SIZE, BIN_WORD_SIZE) <= TouchedByBuf(o, n)
  {
    var m := n / BIN_WORD_SIZE;
    WordsOf(n);
    SkipWords(o, i);
    SkipWords(o, m);
    SkipWords(o, m - 1);
    BytesOf(o % BIN_WORD_SIZE);
    assert WholeWords(n) == m * BIN_WORD_SIZE;
    assert n % BIN_WORD_SIZE == 0 ==> o + n - BIN_WORD_SIZE == o + (m - 1) * BIN_WORD_SIZE;
  }

  lemma TouchedByBufBounds(o: nat, n: nat, k: nat)
    ensures o + n <= TouchedByBuf(o, n)
    ensures o + n <= BIN_WORD_SIZE * k ==> TouchedByBuf(o, n) <= BIN_WORD_SIZE * k
  {
    if n % BIN_WORD_SIZE != 0 {
      TouchedBounds(o + WholeWords(n), n % BIN_WORD_SIZE, k);
    } else if o % BIN_WORD_SIZE != 0 && n > 0 {
      TouchedBounds(o + n - BIN_WORD_SIZE, BIN_WORD_SIZE, k);
    }
  }

  /** All bytes that the fields touch are in a buffer of len bits. */
  ghost predicate FieldsInside(ds: seq<AssembleBinDesc>, len: nat)
    requires AllValid(ds)
  {
    forall i :: 0 <= i < |ds| ==> ds[i].Touches(TotalBitSize(ds, i)) <= len
  }

  /** The test of the source: enough bytes for all bits. */
  ghost predicate IsBufBigEnough(ds: seq<AssembleBinDesc>, len: nat) {
    BITS_PER_BYTE * Ceiling(TotalBitSize(ds, |ds|), BITS_PER_BYTE) <= len
  }

  lemma Aligned(c: nat)
    requires c % BIN_WORD_SIZE == 0
    ensures BITS_PER_BYTE * (c / BITS_PER_BYTE) == c && BIN_WORD_SIZE * (c / BIN_WORD_SIZE) == c
  {
    var q := c / BIN_WORD_SIZE;
    assert c == 64 * q;
    assert c == 8 * (8 * q) + 0;
    assert c / 8 == 8 * q;
  }

  /** Where a field is written inside a buffer of bytes that has room for its bits: at a word boundary in any
      case; elsewhere only if it starts in a whole word, and does not touch more bytes of the next word than
      there are. */
  lemma InsideIff(o: nat, n: nat, len: nat)
    requires n <= BIN_WORD_SIZE && len % BITS_PER_BYTE == 0 && o + n <= len
    ensures Touched(o, n) <= len <==>
              || o % BIN_WORD_SIZE == 0
              || (o < WholeWords(len)
                  && (o % BIN_WORD_SIZE + n <= BIN_WORD_SIZE
                      || BIN_WORD_SIZE * (o / BIN_WORD_SIZE + 1)
                         + BITS_PER_BYTE * Ceiling(o % BIN_WORD_SIZE, BITS_PER_BYTE) <= len))
  {
    StartsInWhole(o, len);
    WordsOf(len);
    RestInBytes(len / BIN_WORD_SIZE, len % BIN_WORD_SIZE, len);
    InsideWords(o / BIN_WORD_SIZE, o % BIN_WORD_SIZE, n, len / BIN_WORD_SIZE, len % BIN_WORD_SIZE);
  }

  lemma StartsInWhole(o: nat, len: nat)
    ensures o < WholeWords(len) <==> o / BIN_WORD_SIZE < len / BIN_WORD_SIZE
    ensures o == BIN_WORD_SIZE * (o / BIN_WORD_SIZE) + o % BIN_WORD_SIZE
  {
    WordsOf(o);
    WordsOf(len);
  }

  lemma RestInBytes(words: nat, rest: nat, len: nat)
    requires len == BIN_WORD_SIZE * words + rest && len % BITS_PER_BYTE == 0
    ensures rest % BITS_PER_BYTE == 0
  {
    var bytes := len / BITS_PER_BYTE;
    assert len == BITS_PER_BYTE * bytes;
    DivModUnique(rest, BITS_PER_BYTE, bytes - 8 * words, 0);
  }

  lemma InsideWords(w: nat, startBit: nat, n: nat, words: nat, rest: nat)
    requires n <= BIN_WORD_SIZE && startBit < BIN_WORD_SIZE && rest < BIN_WORD_SIZE && rest % BITS_PER_BYTE == 0
    requires BIN_WORD_SIZE * w + startBit + n <= BIN_WORD_SIZE * words + rest
    ensures TouchedInWord(w, startBit, n) <= BIN_WORD_SIZE * words + rest <==>
              || startBit == 0
              || (w < words
                  && (startBit + n <= BIN_WORD_SIZE
                      || BIN_WORD_SIZE * (w + 1) + BITS_PER_BYTE * Ceiling(startBit, BITS_PER_BYTE)
                         <= BIN_WORD_SIZE * words + rest))
  {
    if startBit == 0 {
      WholeBytes(n, BIN_WORD_SIZE * words + rest - BIN_WORD_SIZE * w);
    }
  }

  lemma WholeBytes(n: nat, len: nat)
    requires n <= len && len % BITS_PER_BYTE == 0
    ensures BITS_PER_BYTE * Ceiling(n, BITS_PER_BYTE) <= len
  {
    BytesOf(n);
  }

  /** Whole words for all fields are enough. */
  lemma WholeWordsAreEnough(ds: seq<AssembleBinDesc>, len: nat)
    requires AllValid(ds) && TotalBitSize(ds, |ds|) <= WholeWords(len)
    ensures FieldsInside(ds, len) && IsBufBigEnough(ds, len)
  {
    var k := len / BIN_WORD_SIZE;
    WordsOf(len);
    assert WholeWords(len) == BIN_WORD_SIZE * k;
    forall i | 0 <= i < |ds|
      ensures ds[i].Touches(TotalBitSize(ds, i)) <= len
    {
      FieldWithin(ds, i, k);
    }
    BytesWithin(TotalBitSize(ds, |ds|), k);
  }

  lemma FieldWithin(ds: seq<AssembleBinDesc>, i: nat, k: nat)
    requires i < |ds| && (ds[i].WordDesc? ==> ds[i].bitsize <= BIN_WORD_SIZE)
    requires TotalBitSize(ds, |ds|) <= BIN_WORD_SIZE * k
    ensures ds[i].Touches(TotalBitSize(ds, i)) <= BIN_WORD_SIZE * k
  {
    TotalMonotone(ds, i + 1, |ds|);
    FieldEnds(ds[i], TotalBitSize(ds, i), TotalBitSize(ds, i + 1), k);
  }

  lemma FieldEnds(d: AssembleBinDesc, o: nat, e: nat, k: nat)
    requires (d.WordDesc? ==> d.bitsize <= BIN_WORD_SIZE) && e == o + d.bitsize && e <= BIN_WORD_SIZE * k
    ensures d.Touches(o) <= BIN_WORD_SIZE * k
  {
    FieldBounds(d, o, k);
  }

  lemma FieldBounds(d: AssembleBinDesc, o: nat, k: nat)
    requires d.WordDesc? ==> d.bitsize <= BIN_WORD_SIZE
    ensures o + d.bitsize <= d.Touches(o)
    ensures o + d.bitsize <= BIN_WORD_SIZE * k ==> d.Touches(o) <= BIN_WORD_SIZE * k
  {
    if d.WordDesc? {
      TouchedBounds(o, d.bitsize, k);
    } else {
      TouchedByBufBounds(o, d.bitsize, k);
    }
  }

  lemma BytesWithin(n: nat, k: nat)
    requires n <= BIN_WORD_SIZE * k
    ensures BITS_PER_BYTE * Ceiling(n, BITS_PER_BYTE) <= BIN_WORD_SIZE * k
  {
    BytesOf(n);
    RoundedUp(Ceiling(n, BITS_PER_BYTE), n, 8 * k);
  }

  lemma RoundedUp(bytes: nat, n: nat, k: nat)
    requires BITS_PER_BYTE * bytes < n + BITS_PER_BYTE && n <= BITS_PER_BYTE * k
    ensures BITS_PER_BYTE * bytes <= BITS_PER_BYTE * k
  {
  }

  /** But enough bytes for all bits are not: a second field in the first byte of a buffer of one byte is or-ed
      in as a word of eight. */
  lemma BytesAreNotEnough()
    ensures var ds := [WordDesc(4, Zeros(64)), WordDesc(4, Zeros(64))];
      AllValid(ds) && IsBufBigEnough(ds, 8) && !FieldsInside(ds, 8) && FieldsInside(ds, 64)
  {
    var d := WordDesc(4, Zeros(64));
    ImpureIff(Zeros(64), 4);
    assert TotalBitSize([d, d], 1) == 4 && TotalBitSize([d, d], 2) == 8;
    assert [d, d][0].Touches(0) == 8 && [d, d][1].Touches(4) == 64;
  }

  /** A word holds fields of up to 64 bits, a buffer larger ones that its whole words have room for. */
  lemma FieldSizes(n: nat, w: Bits, b: Bits)
    requires |w| == 64 && forall k :: n <= k < 64 ==> !w[k]
    ensures WordDesc(n, w).Valid() <==> n <= 64
    ensures BufDesc(n, b).Valid() <==> 64 < n <= |b| / 64 * 64
  {
    if n <= 64 {
      ImpureIff(w, n);
    }
  }

  /** Or-ing a shifted word into one that is zero from there on. */
  lemma Merged(last: Bits, word: Bits, startBit: nat)
    requires IsWord(last) && IsWord(word) && startBit <= BIN_WORD_SIZE
    requires forall k :: startBit <= k < BIN_WORD_SIZE ==> !last[k]
    ensures Or(last, ShiftLeft(word, startBit)) == last[..startBit] + word[..BIN_WORD_SIZE - startBit]
  {
  }

  /** What the whole words of a buffer leave over. */
  lemma Rejoin(before: Bits, src: Bits, i: nat, n: nat)
    requires i <= n <= |src|
    ensures before + src[..i] + src[i..n] == before + src[..n]
  {
    assert src[..n] == src[..i] + src[i..n];
  }

  lemma RestOf(o: nat, n: nat, size: nat, wordNum: nat)
    requires n <= WholeWords(size) && wordNum == n / BIN_WORD_SIZE
    ensures var done := wordNum * BIN_WORD_SIZE;
      && done <= n < done + BIN_WORD_SIZE
      && (n > done ==> done + BIN_WORD_SIZE <= size && Touched(o + done, n - done) == TouchedByBuf(o, n))
  {
    WordsOf(n);
    WordsOf(size);
  }

  class AssembleBinBuf {
    const bytebuf: array<bool>
    var curBitOfst: nat
    /** The bits written so far. */
    ghost var content: Bits

    /** Everything behind the bits written is still zero. */
    ghost predicate Valid()
      reads this, bytebuf
    {
      && curBitOfst == |content| <= bytebuf.Length
      && (forall k :: 0 <= k < |content| ==> bytebuf[k] == content[k])
      && (forall k :: |content| <= k < bytebuf.Length ==> !bytebuf[k])
    }

    /** memcpy of some bytes to a byte offset. */
    method CopyBytes(byteOfst: nat, src: Bits, bytes: nat)
      requires BITS_PER_BYTE * bytes <= |src| && BITS_PER_BYTE * (byteOfst + bytes) <= bytebuf.Length
      modifies bytebuf
      ensures forall k :: 0 <= k < bytebuf.Length ==>
                bytebuf[k] == var o := BITS_PER_BYTE * byteOfst;
                  if o <= k < o + BITS_PER_BYTE * bytes then src[k - o] else old(bytebuf[k])
    {
      var o := BITS_PER_BYTE * byteOfst;
      forall k | o <= k < o + BITS_PER_BYTE * bytes {
        bytebuf[k] := src[k - o];
      }
    }

    method LoadWord(wordOfst: nat) returns (w: Bits)
      requires BIN_WORD_SIZE * (wordOfst + 1) <= bytebuf.Length
      ensures IsWord(w) && w == bytebuf[BIN_WORD_SIZE * wordOfst..BIN_WORD_SIZE * (wordOfst + 1)]
    {
      w := bytebuf[BIN_WORD_SIZE * wordOfst..BIN_WORD_SIZE * (wordOfst + 1)];
    }

    /** Appends the lowest bitsize bits of a word. */
    method WriteWord(word: Bits, bitsize: nat)
      requires Valid() && IsWord(word) && bitsize <= BIN_WORD_SIZE && !IsImpure(word, bitsize)
      requires Touched(curBitOfst, bitsize) <= bytebuf.Length
      modifies this`curBitOfst, this`content, bytebuf
      ensures Valid() && content == old(content) + word[..bitsize]
    {
      ImpureIff(word, bitsize);
      var startBit, wordOfst := curBitOfst % BIN_WORD_SIZE, curBitOfst / BIN_WORD_SIZE;
      if startBit == 0 {
        Aligned(curBitOfst);
        assert BITS_PER_BYTE * (8 * wordOfst) == |content|;
        CopyBytes(8 * wordOfst, word, Ceiling(bitsize, BITS_PER_BYTE));
        curBitOfst := curBitOfst + bitsize;
        content := content + word[..bitsize];
        return;
      }
      WriteAcross(word, bitsize);
    }

    /** Before bit upto, the content and then the bits of word are there. */
    ghost predicate HoldsPart(word: Bits, upto: nat)
      reads this, bytebuf
    {
      && |content| <= upto <= bytebuf.Length && IsWord(word)
      && (forall k :: 0 <= k < |content| ==> bytebuf[k] == content[k])
      && (forall k :: |content| <= k < upto ==>
            bytebuf[k] == (k - |content| < BIN_WORD_SIZE && word[k - |content|]))
      && (forall k :: upto <= k < bytebuf.Length ==> !bytebuf[k])
    }

    /** A word at an offset inside a word, and maybe into the next one. */
    method WriteAcross(word: Bits, bitsize: nat)
      requires Valid() && IsWord(word) && bitsize <= BIN_WORD_SIZE
      requires forall k :: bitsize <= k < BIN_WORD_SIZE ==> !word[k]
      requires Touched(curBitOfst, bitsize) <= bytebuf.Length && curBitOfst % BIN_WORD_SIZE != 0
      modifies this`curBitOfst, this`content, bytebuf
      ensures Valid() && content == old(content) + word[..bitsize]
    {
      var startBit, wordOfst := curBitOfst % BIN_WORD_SIZE, curBitOfst / BIN_WORD_SIZE;
      OrIntoWord(word, startBit, wordOfst);
      curBitOfst := curBitOfst + bitsize;
      if startBit + bitsize <= BIN_WORD_SIZE {
        content := content + word[..bitsize];
        return;
      }
      SpillOver(word, startBit, wordOfst);
      content := content + word[..bitsize];
    }

    /** The bits that still fit into the word. */
    method OrIntoWord(word: Bits, startBit: nat, wordOfst: nat)
      requires Valid() && IsWord(word)
      requires startBit == curBitOfst % BIN_WORD_SIZE != 0 && wordOfst == curBitOfst / BIN_WORD_SIZE
      requires BIN_WORD_SIZE * (wordOfst + 1) <= bytebuf.Length
      modifies bytebuf
      ensures HoldsPart(word, BIN_WORD_SIZE * (wordOfst + 1))
    {
      ghost var o := BIN_WORD_SIZE * wordOfst;
      assert o + startBit == |content|;
      var lastBinWord := LoadWord(wordOfst);
      var part1 := ShiftLeft(word, startBit);
      Merged(lastBinWord, word, startBit);
      StoreMerged(wordOfst, Or(lastBinWord, part1), word, startBit, o);
    }

    /** Stores a word of which the first bits are what was there. */
    method StoreMerged(wordOfst: nat, merged: Bits, ghost word: Bits, ghost startBit: nat, ghost o: nat)
      requires Valid() && IsWord(word) && IsWord(merged) && startBit < BIN_WORD_SIZE
      requires o == BIN_WORD_SIZE * wordOfst && o + startBit == |content| && o + BIN_WORD_SIZE <= bytebuf.Length
      requires forall k :: 0 <= k < startBit ==> merged[k] == bytebuf[o + k]
      requires forall k :: startBit <= k < BIN_WORD_SIZE ==> merged[k] == word[k - startBit]
      modifies bytebuf
      ensures HoldsPart(word, BIN_WORD_SIZE * (wordOfst + 1))
    {
      StoreWord(wordOfst, merged, o);
    }

    method StoreWord(wordOfst: nat, w: Bits, ghost o: nat)
      requires IsWord(w) && o == BIN_WORD_SIZE * wordOfst && o + BIN_WORD_SIZE <= bytebuf.Length
      modifies bytebuf
      ensures forall k :: 0 <= k < o || o + BIN_WORD_SIZE <= k < bytebuf.Length ==> bytebuf[k] == old(bytebuf[k])
      ensures forall k :: o <= k < o + BIN_WORD_SIZE ==> bytebuf[k] == w[k - o]
    {
      CopyBytes(8 * wordOfst, w, 8);
    }

    /** The bits that go into the next word. */
    method SpillOver(word: Bits, startBit: nat, wordOfst: nat)
      requires IsWord(word) && 0 < startBit < BIN_WORD_SIZE && |content| == BIN_WORD_SIZE * wordOfst + startBit
      requires HoldsPart(word, BIN_WORD_SIZE * (wordOfst + 1))
      requires BIN_WORD_SIZE * (wordOfst + 1) + BITS_PER_BYTE * Ceiling(startBit, BITS_PER_BYTE) <= bytebuf.Length
      modifies bytebuf
      ensures HoldsPart(word, BIN_WORD_SIZE * (wordOfst + 1) + BITS_PER_BYTE * Ceiling(startBit, BITS_PER_BYTE))
    {
      var part2 := ShiftRight(word, BIN_WORD_SIZE - startBit);
      CopyBytes(8 * (wordOfst + 1), part2, Ceiling(startBit, BITS_PER_BYTE));
    }

    /** Appends the first bitsize bits of a buffer. */
    method WriteBuf(src: Bits, bitsize: nat)
      requires Valid() && bitsize <= WholeWords(|src|)
      requires TouchedByBuf(curBitOfst, bitsize) <= bytebuf.Length
      modifies this`curBitOfst, this`content, bytebuf
      ensures Valid() && content == old(content) + src[..bitsize]
    {
      var lastRemained, wordNum := curBitOfst % BIN_WORD_SIZE, bitsize / BIN_WORD_SIZE;
      RestOf(curBitOfst, bitsize, |src|, wordNum);
      if lastRemained != 0 {
        WriteWords(src, bitsize, wordNum);
      } else {
        CopyWords(src, bitsize, wordNum);
      }
      WriteRest(src, bitsize, wordNum * BIN_WORD_SIZE);
      Rejoin(old(content), src, wordNum * BIN_WORD_SIZE, bitsize);
    }

    /** What remains of a buffer behind its whole words. */
    method WriteRest(src: Bits, bitsize: nat, done: nat)
      requires Valid() && done <= bitsize < done + BIN_WORD_SIZE && bitsize <= |src|
      requires bitsize > done ==>
                 done + BIN_WORD_SIZE <= |src| && Touched(curBitOfst, bitsize - done) <= bytebuf.Length
      modifies this`curBitOfst, this`content, bytebuf
      ensures Valid() && content == old(content) + src[done..bitsize]
    {
      var remained := bitsize - done;
      if remained != 0 {
        var word := src[done..done + BIN_WORD_SIZE];
        word := FilterImpurity(word, remained);
        WriteWord(word, remained);
        assert word[..remained] == src[done..bitsize];
      } else {
        assert src[done..bitsize] == [];
        assert content + [] == content;
      }
    }

    /** The whole words of src, one by one. */
    method WriteWords(src: Bits, bitsize: nat, wordNum: nat)
      requires Valid() && wordNum == bitsize / BIN_WORD_SIZE && bitsize <= |src|
      requires curBitOfst % BIN_WORD_SIZE != 0 && TouchedByBuf(curBitOfst, bitsize) <= bytebuf.Length
      modifies this`curBitOfst, this`content, bytebuf
      ensures Valid() && content == old(content) + src[..wordNum * BIN_WORD_SIZE]
    {
      ghost var before := content;
      assert before + src[..0] == before;
      for i := 0 to wordNum
        invariant Valid() && content == before + src[..i * BIN_WORD_SIZE]
      {
        var word := src[i * BIN_WORD_SIZE..(i + 1) * BIN_WORD_SIZE];
        TouchedGrows(|before|, i, bitsize);
        WriteWord(word, BIN_WORD_SIZE);
        assert before + src[..i * BIN_WORD_SIZE] + word[..BIN_WORD_SIZE]
            == before + src[..(i + 1) * BIN_WORD_SIZE];
      }
    }

    /** The whole words of src, copied at once to a word boundary. */
    method CopyWords(src: Bits, bitsize: nat, wordNum: nat)
      requires Valid() && wordNum * BIN_WORD_SIZE <= bitsize <= |src|
      requires curBitOfst + bitsize <= bytebuf.Length && curBitOfst % BIN_WORD_SIZE == 0
      modifies this`curBitOfst, this`content, bytebuf
      ensures Valid() && content == old(content) + src[..wordNum * BIN_WORD_SIZE]
    {
      var byteOfst := curBitOfst / BITS_PER_BYTE;
      Aligned(curBitOfst);
      assert BITS_PER_BYTE * byteOfst == |content|;
      CopyBytes(byteOfst, src, wordNum * 8);
      curBitOfst := curBitOfst + wordNum * BIN_WORD_SIZE;
      content := content + src[..wordNum * BIN_WORD_SIZE];
    }

    method WriteField(d: AssembleBinDesc)
      requires Valid() && d.Valid() && d.Touches(curBitOfst) <= bytebuf.Length
      modifies this`curBitOfst, this`content, bytebuf
      ensures Valid() && content == old(content) + d.Field()
    {
      if d.WordDesc? {
        WriteWord(d.word, d.bitsize);
      } else {
        WriteBuf(d.buf, d.bitsize);
      }
    }

    /** Writes all fields one behind the other into a zeroed buffer that holds all the bytes they touch. */
    constructor (buf: array<bool>, ds: seq<AssembleBinDesc>)
      requires forall k :: 0 <= k < buf.Length ==> !buf[k]
      requires AllValid(ds) && FieldsInside(ds, buf.Length)
      modifies buf
      ensures bytebuf == buf && Valid() && content == Concat(ds, |ds|)
      ensures buf[..] == Concat(ds, |ds|) + Zeros(buf.Length - TotalBitSize(ds, |ds|))
    {
      bytebuf, curBitOfst, content := buf, 0, [];
      new;
      WriteFields(ds);
      WholeBuffer();
    }

    method WriteFields(ds: seq<AssembleBinDesc>)
      requires Valid() && content == [] && AllValid(ds) && FieldsInside(ds, bytebuf.Length)
      modifies this`curBitOfst, this`content, bytebuf
      ensures Valid() && content == Concat(ds, |ds|)
    {
      for i := 0 to |ds|
        invariant Valid() && content == Concat(ds, i)
      {
        WriteField(ds[i]);
      }
    }

    lemma WholeBuffer()
      requires Valid()
      ensures bytebuf[..] == content + Zeros(bytebuf.Length - |content|)
    {
    }
  }
}
