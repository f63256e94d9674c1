/** Integers of several 32-bit words, in two's complement, against the integers. */
module BigInts {
  import opened Arithmetic

  const BASE: nat := 0x1_0000_0000
  const HALF: nat := 0x8000_0000

  type Words = seq<nat>

  /** BASE to the power n. */
  function Pow(n: nat): (p: nat)
    ensures p > 0
  {
    if n == 0 then 1 else BASE * Pow(n - 1)
  }

  ghost predicate IsWords(w: Words) {
    forall k :: 0 <= k < |w| ==> w[k] < BASE
  }

  /** The number the first n words stand for, the lowest word first. */
  ghost function Val(w: Words, n: nat): nat
    requires n <= |w|
  {
    if n == 0 then 0 else Val(w, n - 1) + w[n - 1] * Pow(n - 1)
  }

  lemma {:induction false} ValSame(w: Words, w': Words, n: nat)
    requires n <= |w| && n <= |w'| && forall k :: 0 <= k < n ==> w[k] == w'[k]
    ensures Val(w, n) == Val(w', n)
  {
    if n > 0 {
      ValSame(w, w', n - 1);
    }
  }

  lemma {:induction false} ValBound(w: Words, n: nat)
    requires n <= |w| && IsWords(w)
    ensures Val(w, n) < Pow(n)
  {
    if n > 0 {
      ValBound(w, n - 1);
      WordBelow(w[n - 1], Pow(n - 1));
    }
  }

  lemma WordBelow(w: nat, p: nat)
    requires w < BASE
    ensures w * p + p <= BASE * p
  {
    Scale(w + 1, BASE, p);
    assert (w + 1) * p == w * p + p;
  }

  /** Adding a word and handing on the carry. */
  lemma CarryOver(v: nat, p: nat)
    ensures (v % BASE) * p + (v / BASE) * (BASE * p) == v * p
  {
    var lo, hi := v % BASE, v / BASE;
    assert v == lo + hi * BASE;
    assert (lo + hi * BASE) * p == lo * p + hi * (BASE * p);
  }

  // ---- Two's complement ----

  /** The negative of a number of n words. */
  function Negated(v: nat, n: nat): nat {
    if v == 0 || v > Pow(n) then v else Pow(n) - v
  }

  /** The signed number that v, of n words, stands for. */
  function Signed(v: nat, n: nat): int {
    if 2 * v < Pow(n) then v else v - Pow(n)
  }

  lemma NegatedTwice(v: nat, n: nat)
    requires v < Pow(n)
    ensures Negated(v, n) < Pow(n) && Negated(Negated(v, n), n) == v
  {
  }

  /** Negation changes the sign of every number but the least one. */
  lemma NegatedIsMinus(v: nat, n: nat)
    requires v < Pow(n)
    ensures Signed(Negated(v, n), n) == -Signed(v, n) <==> 2 * v != Pow(n)
  {
  }

  /** The top bit of the top word is the sign. */
  lemma TopBit(w: Words, n: nat)
    requires 0 < n <= |w| && IsWords(w)
    ensures w[n - 1] >= HALF <==> 2 * Val(w, n) >= Pow(n)
  {
    var p := Pow(n - 1);
    ValBound(w, n - 1);
    TopWord(w[n - 1], Val(w, n - 1), p);
  }

  lemma TopWord(w: nat, low: nat, p: nat)
    requires low < p
    ensures w >= HALF <==> 2 * (low + w * p) >= BASE * p
  {
    var hp := HALF * p;
    assert BASE * p == 2 * hp;
    if w >= HALF {
      Scale(HALF, w, p);
    } else {
      Scale(w + 1, HALF, p);
      assert (w + 1) * p == w * p + p;
    }
  }

  lemma Scale(a: nat, b: nat, p: nat)
    requires a <= b
    ensures a * p <= b * p
  {
  }

  // ---- The class ----

  class BigInt {
    var words: Words
    var sigPos: int

    ghost predicate Valid()
      reads this
    {
      IsWords(words) && -1 <= sigPos < |words|
    }

    /** The number of significant words. */
    ghost function Len(): nat
      requires Valid()
      reads this
    {
      sigPos + 1
    }

    ghost function Value(): nat
      requires Valid()
      reads this
    {
      Val(words, sigPos + 1)
    }

    constructor ()
      ensures Valid() && sigPos == -1 && fresh(this)
    {
      words, sigPos := [], -1;
    }

    constructor OfWord(w: nat)
      requires w < BASE
      ensures Valid() && sigPos == 0 && Value() == w
    {
      words, sigPos := [w], 0;
      new;
      assert Val(words, 1) == Val(words, 0) + w * Pow(0);
    }

    /** Vector::set: writes word i, which may lie past the end. */
    method Set(i: nat, w: nat)
      requires w < BASE && IsWords(words)
      modifies this`words
      ensures IsWords(words) && |words| == if i < |old(words)| then |old(words)| else i + 1
      ensures words[i] == w
      ensures forall k :: 0 <= k < |words| && k != i ==> words[k] == if k < |old(words)| then old(words)[k] else 0
    {
      if i >= |words| {
        words := words + seq(i + 1 - |words|, k => 0);
      }
      words := words[i := w];
    }

    method SetSigPos(pos: int)
      modifies this`sigPos
      ensures sigPos == pos
    {
      sigPos := pos;
    }

    method SetEqualTo(w: nat)
      requires w < BASE && IsWords(words)
      modifies this
      ensures Valid() && sigPos == 0 && Value() == w
    {
      Set(0, w);
      SetSigPos(0);
      assert Val(words, 1) == Val(words, 0) + w * Pow(0);
    }

    /** Vector::clean: no elements are left; the significant position stays. */
    method Clean()
      modifies this`words
      ensures words == []
    {
      words := [];
    }

    method Copy(src: BigInt)
      requires src.Valid()
      modifies this
      ensures Valid() && words == old(src.words) && sigPos == old(src.sigPos)
    {
      words, sigPos := src.words, src.sigPos;
    }

    method IsZero() returns (zero: bool)
      requires Valid()
      ensures zero <==> Value() == 0
    {
      ghost var n := sigPos + 1;
      for i := 0 to sigPos + 1
        invariant Val(words, i) == 0
      {
        if words[i] != 0 {
          NonZero(words, i, n);
          return false;
        }
      }
      return true;
    }
  }

  lemma {:induction false} NonZero(w: Words, i: nat, n: nat)
    requires i < n <= |w| && w[i] > 0
    ensures Val(w, n) > 0
    decreases n
  {
    if i < n - 1 {
      NonZero(w, i, n - 1);
    } else {
      Scale(1, w[i], Pow(i));
    }
  }

  // ---- Addition ----

  /** A result word r at position i with carry c' for what came to v = s + l + c. */
  lemma WordAdded(r: Words, r': Words, i: nat, s: nat, l: nat, c: nat, c': nat)
    requires i <= |r| && i < |r'| && forall k :: 0 <= k < i ==> r'[k] == r[k]
    requires r'[i] == (s + l + c) % BASE && c' == (s + l + c) / BASE
    ensures WithCarry(r', c', i + 1) == WithCarry(r, c, i) + s * Pow(i) + l * Pow(i)
  {
    ValSame(r, r', i);
    CarryOver(s + l + c, Pow(i));
    assert (s + l + c) * Pow(i) == s * Pow(i) + l * Pow(i) + c * Pow(i);
  }

  /** The first i words with a carry. */
  ghost function WithCarry(r: Words, carry: nat, i: nat): nat
    requires i <= |r|
  {
    Val(r, i) + carry * Pow(i)
  }

  /** The sum is complete up to word i: s has n words, l at least as many. */
  ghost predicate Added(r: Words, carry: nat, i: nat, s: Words, n: nat, l: Words) {
    && i <= |r| && n <= |s| && i <= |l| && carry <= 1
    && WithCarry(r, carry, i) == Val(s, if i < n then i else n) + Val(l, i)
  }

  /** From word i on, w still holds the words of l. */
  ghost predicate Rest(w: Words, l: Words, i: nat) {
    |l| <= |w| && forall k :: i <= k < |l| ==> w[k] == l[k]
  }

  lemma AddedBoth(r: Words, r': Words, c: nat, c': nat, i: nat, s: Words, n: nat, l: Words)
    requires Added(r, c, i, s, n, l) && i < n && i < |l| && s[i] < BASE && l[i] < BASE
    requires i < |r'| && forall k :: 0 <= k < i ==> r'[k] == r[k]
    requires r'[i] == (s[i] + l[i] + c) % BASE && c' == (s[i] + l[i] + c) / BASE
    ensures Added(r', c', i + 1, s, n, l)
  {
    WordAdded(r, r', i, s[i], l[i], c, c');
  }

  lemma AddedRest(r: Words, r': Words, c: nat, c': nat, i: nat, s: Words, n: nat, l: Words)
    requires Added(r, c, i, s, n, l) && n <= i < |l| && l[i] < BASE
    requires i < |r'| && forall k :: 0 <= k < i ==> r'[k] == r[k]
    requires r'[i] == (l[i] + c) % BASE && c' == (l[i] + c) / BASE
    ensures Added(r', c', i + 1, s, n, l)
  {
    WordAdded(r, r', i, 0, l[i], c, c');
  }

  /** res := a + b, unsigned; res may be a or b. */
  method BiuAdd(a: BigInt, b: BigInt, res: BigInt)
    requires a.Valid() && b.Valid() && IsWords(res.words) && a.sigPos >= 0 && b.sigPos >= 0
    modifies res
    ensures res.Valid() && res.Value() == old(a.Value()) + old(b.Value())
    ensures res.sigPos == Max(old(a.sigPos), old(b.sigPos)) +
              if old(a.Value()) + old(b.Value()) < Pow(Max(old(a.sigPos), old(b.sigPos)) + 1) then 0 else 1
  {
    var longer, shorter := a, b;
    if b.sigPos > a.sigPos {
      longer, shorter := b, a;
    }
    AddWords(shorter, longer, res);
  }

  method AddWords(shorter: BigInt, longer: BigInt, res: BigInt)
    requires shorter.Valid() && longer.Valid() && IsWords(res.words) && 0 <= shorter.sigPos <= longer.sigPos
    modifies res
    ensures res.Valid() && res.Value() == old(shorter.Value()) + old(longer.Value())
    ensures res.sigPos == old(longer.sigPos) +
              if old(shorter.Value()) + old(longer.Value()) < Pow(old(longer.sigPos) + 1) then 0 else 1
  {
    ghost var s, l, n, m := shorter.words, longer.words, shorter.sigPos + 1, longer.sigPos + 1;
    var i, carry := AddShorter(shorter, longer, res, s, l);
    carry := AddLonger(longer, res, i, carry, s, l);
    i := longer.sigPos + 1;
    ValBound(res.words, m);
    if carry != 0 {
      ghost var r := res.words;
      res.Set(i, carry);
      ValSame(r, res.words, i);
      res.SetSigPos(i);
    } else {
      res.SetSigPos(i - 1);
    }
  }

  /** The words that both numbers have. */
  method AddShorter(shorter: BigInt, longer: BigInt, res: BigInt, ghost s: Words, ghost l: Words)
    returns (i: nat, carry: nat)
    requires shorter.Valid() && longer.Valid() && IsWords(res.words) && 0 <= shorter.sigPos <= longer.sigPos
    requires s == shorter.words && l == longer.words
    modifies res`words
    ensures IsWords(res.words) && i == shorter.sigPos + 1 && Added(res.words, carry, i, s, i, l)
    ensures Rest(longer.words, l, i)
  {
    i, carry := 0, 0;
    while i <= shorter.sigPos
      invariant i <= shorter.sigPos + 1 && IsWords(res.words)
      invariant Added(res.words, carry, i, s, shorter.sigPos + 1, l)
      invariant Rest(shorter.words, s, i)
      invariant Rest(longer.words, l, i)
    {
      i, carry := AddBothWords(shorter.words[i], longer.words[i], res, i, carry, s, shorter.sigPos + 1, l);
    }
  }

  method AddBothWords(v1: nat, v2: nat, res: BigInt, i: nat, carry: nat, ghost s: Words, ghost n: nat, ghost l: Words)
    returns (i': nat, carry': nat)
    requires IsWords(res.words) && IsWords(s) && IsWords(l) && Added(res.words, carry, i, s, n, l)
    requires i < n && i < |l| && v1 == s[i] && v2 == l[i]
    modifies res`words
    ensures i' == i + 1 && IsWords(res.words) && Added(res.words, carry', i', s, n, l)
    ensures Rest(res.words, old(res.words), i')
  {
    var v3 := v1 + v2 + carry;
    ghost var r := res.words;
    i', carry' := i + 1, v3 / BASE;
    res.Set(i, v3 % BASE);
    AddedBoth(r, res.words, carry, carry', i, s, n, l);
  }

  method AddCarry(v2: nat, res: BigInt, i: nat, carry: nat, ghost s: Words, ghost n: nat, ghost l: Words)
    returns (i': nat, carry': nat)
    requires IsWords(res.words) && IsWords(l) && Added(res.words, carry, i, s, n, l)
    requires n <= i < |l| && v2 == l[i]
    modifies res`words
    ensures i' == i + 1 && IsWords(res.words) && Added(res.words, carry', i', s, n, l)
    ensures Rest(res.words, old(res.words), i')
  {
    var v3 := v2 + carry;
    ghost var r := res.words;
    i', carry' := i + 1, v3 / BASE;
    res.Set(i, v3 % BASE);
    AddedRest(r, res.words, carry, carry', i, s, n, l);
  }

  /** The remaining words of the longer number. */
  method AddLonger(longer: BigInt, res: BigInt, from: nat, carryIn: nat, ghost s: Words, ghost l: Words)
    returns (carry: nat)
    requires IsWords(res.words) && IsWords(l) && longer.sigPos + 1 >= 0 && from <= longer.sigPos + 1 <= |l|
    requires Added(res.words, carryIn, from, s, from, l)
    requires Rest(longer.words, l, from)
    modifies res`words
    ensures IsWords(res.words) && Added(res.words, carry, longer.sigPos + 1, s, from, l)
  {
    var i := from;
    carry := carryIn;
    while i <= longer.sigPos
      invariant from <= i <= longer.sigPos + 1 && IsWords(res.words)
      invariant Added(res.words, carry, i, s, from, l)
      invariant Rest(longer.words, l, i)
    {
      i, carry := AddCarry(longer.words[i], res, i, carry, s, from, l);
    }
  }

  // ---- Negation and subtraction ----

  /** The words from 0 to n are complemented. */
  lemma {:induction false} ValComplement(w: Words, w': Words, n: nat)
    requires n <= |w| && n <= |w'| && IsWords(w)
    requires forall k :: 0 <= k < n ==> w'[k] == BASE - 1 - w[k]
    ensures Val(w', n) == Pow(n) - 1 - Val(w, n)
  {
    if n > 0 {
      ValComplement(w, w', n - 1);
      var p := Pow(n - 1);
      assert (BASE - 1 - w[n - 1]) * p + w[n - 1] * p == (BASE - 1) * p;
      assert (BASE - 1) * p + p == BASE * p;
    }
  }

  /** Negates a number in place. */
  method Neg(x: BigInt)
    requires x.Valid() && x.sigPos >= 0
    modifies x
    ensures x.Valid() && x.sigPos == old(x.sigPos)
    ensures x.Value() == Negated(old(x.Value()), old(x.Len()))
  {
    ghost var w, n := x.words, x.sigPos + 1;
    ValBound(w, n);
    var zero := x.IsZero();
    if zero {
      return;
    }
    for i := 0 to x.sigPos + 1
      invariant x.Valid() && x.sigPos == n - 1 && |x.words| == |w|
      invariant forall k :: 0 <= k < n ==> x.words[k] == if k < i then BASE - 1 - w[k] else w[k]
    {
      x.Set(i, BASE - 1 - x.words[i]);
    }
    ValComplement(w, x.words, n);
    var addend := new BigInt.OfWord(1);
    BiuAdd(x, addend, x);
  }

  /** The magnitude of a signed number, as an unsigned one. */
  method Abs(x: BigInt)
    requires x.Valid() && x.sigPos >= 0
    modifies x
    ensures x.Valid() && x.sigPos == old(x.sigPos)
    ensures x.Value() == Magnitude(Signed(old(x.Value()), old(x.Len())))
  {
    TopBit(x.words, x.sigPos + 1);
    ValBound(x.words, x.sigPos + 1);
    if x.words[x.sigPos] >= HALF {
      Neg(x);
    }
  }

  function Magnitude(i: int): nat {
    if i < 0 then -i else i
  }

  /** The first i words are the complement of b, of n words, padded with zeros. */
  ghost predicate Complemented(r: Words, i: nat, b: Words, n: nat) {
    i <= |r| && n <= |b| && Val(r, i) + Val(b, if i < n then i else n) + 1 == Pow(i)
  }

  lemma ComplementStep(r: Words, r': Words, i: nat, b: Words, n: nat)
    requires Complemented(r, i, b, n) && IsWords(b)
    requires i < |r'| && forall k :: 0 <= k < i ==> r'[k] == r[k]
    requires r'[i] == BASE - 1 - if i < n then b[i] else 0
    ensures Complemented(r', i + 1, b, n)
  {
    ValSame(r, r', i);
    var p, w := Pow(i), if i < n then b[i] else 0;
    assert (BASE - 1 - w) * p + w * p + p == BASE * p;
    assert 0 * p == 0;
  }

  /** Cutting off the words from n on. */
  lemma Truncated(w: Words, n: nat)
    requires n < |w| && IsWords(w)
    ensures Val(w, n + 1) % Pow(n) == Val(w, n)
  {
    ValBound(w, n);
    RemainderOf(Val(w, n), w[n], Pow(n));
  }

  lemma RemainderOf(v: nat, w: nat, p: nat)
    requires v < p
    ensures (v + w * p) % p == v
  {
    DivModUnique(v + w * p, p, w, v);
  }

  /** res := a - b modulo BASE to the power of the longer length. */
  method BiSub(a: BigInt, b: BigInt, res: BigInt)
    requires a.Valid() && b.Valid() && IsWords(res.words) && a.sigPos >= 0 && b.sigPos >= 0
    requires res != a && res != b
    modifies res
    ensures res.Valid() && res.sigPos == Max(a.sigPos, b.sigPos)
    ensures res.Value() == (a.Value() - b.Value()) % Pow(res.Len())
  {
    var longerPos := if a.sigPos > b.sigPos then a.sigPos else b.sigPos;
    ghost var n, bn := longerPos + 1, b.sigPos + 1;
    ComplementInto(b, longerPos, res);
    var addend := new BigInt.OfWord(1);
    BiuAdd(res, addend, res);
    ghost var total := a.Value() + res.Value();
    AddTo(a, res, n);
    CutOff(res, n, total);
    DifferenceMod(a.Value(), b.Value(), total, Pow(n));
    res.SetSigPos(longerPos);
  }

  /** Adding a number of at most n words to one of value at most Pow(n) gives at most one word more. */
  method AddTo(a: BigInt, res: BigInt, ghost n: nat)
    requires a.Valid() && res.Valid() && res != a && 0 <= a.sigPos < n && n - 1 <= res.sigPos <= n
    requires res.Value() <= Pow(n) && (res.sigPos == n ==> res.Value() == Pow(n))
    modifies res
    ensures res.Valid() && n - 1 <= res.sigPos <= n && res.Value() == old(a.Value() + res.Value())
  {
    ValBound(a.words, a.sigPos + 1);
    PowMonotone(a.sigPos + 1, n);
    assert Pow(n + 1) >= Pow(n) + Pow(n);
    BiuAdd(a, res, res);
  }

  lemma {:induction false} PowMonotone(m: nat, n: nat)
    requires m <= n
    ensures Pow(m) <= Pow(n)
    decreases n
  {
    if m < n {
      PowMonotone(m, n - 1);
      Scale(1, BASE, Pow(n - 1));
    }
  }

  lemma DifferenceMod(a: int, b: int, total: int, p: int)
    requires p > 0 && total == a - b + p
    ensures total % p == (a - b) % p
  {
    var k, r := (a - b) / p, (a - b) % p;
    assert a - b == p * k + r;
    assert total == p * (k + 1) + r by {
      assert p * (k + 1) == p * k + p;
    }
    DivModUnique(total, p, k + 1, r);
  }

  /** The first n words hold the value modulo Pow(n), if there is at most one word more. */
  lemma CutOff(x: BigInt, n: nat, total: nat)
    requires x.Valid() && x.Value() == total && n - 1 <= x.sigPos <= n
    ensures n <= |x.words| && Val(x.words, n) == total % Pow(n)
  {
    ValBound(x.words, n);
    if x.sigPos == n {
      Truncated(x.words, n);
    } else {
      DivModUnique(total, Pow(n), 0, total);
    }
  }

  /** The complement of b with longerPos + 1 words. */
  method ComplementInto(b: BigInt, longerPos: int, res: BigInt)
    requires b.Valid() && IsWords(res.words) && res != b && 0 <= b.sigPos <= longerPos
    modifies res
    ensures res.Valid() && res.sigPos == longerPos
    ensures res.Value() + b.Value() + 1 == Pow(longerPos + 1)
  {
    var i := ComplementWords(b, res);
    while i <= longerPos
      invariant b.sigPos + 1 <= i <= longerPos + 1 && IsWords(res.words)
      invariant Complemented(res.words, i, b.words, b.sigPos + 1)
    {
      i := PutComplement(res, i, 0, b.words, b.sigPos + 1);
    }
    res.SetSigPos(i - 1);
  }

  method ComplementWords(b: BigInt, res: BigInt) returns (i: nat)
    requires b.Valid() && IsWords(res.words) && res != b && 0 <= b.sigPos
    modifies res`words
    ensures i == b.sigPos + 1 && IsWords(res.words) && Complemented(res.words, i, b.words, i)
  {
    i := 0;
    while i <= b.sigPos
      invariant i <= b.sigPos + 1 && IsWords(res.words) && Complemented(res.words, i, b.words, b.sigPos + 1)
    {
      i := PutComplement(res, i, b.words[i], b.words, b.sigPos + 1);
    }
  }

  /** Writes the complement of one word. */
  method PutComplement(res: BigInt, i: nat, w: nat, ghost b: Words, ghost n: nat) returns (i': nat)
    requires IsWords(res.words) && IsWords(b) && Complemented(res.words, i, b, n)
    requires w == if i < n then b[i] else 0
    modifies res`words
    ensures i' == i + 1 && IsWords(res.words) && Complemented(res.words, i', b, n)
  {
    ghost var r := res.words;
    res.Set(i, BASE - 1 - w);
    ComplementStep(r, res.words, i, b, n);
    i' := i + 1;
  }

  // ---- Multiplication ----

  lemma {:induction false} PowAdd(i: nat, j: nat)
    ensures Pow(i + j) == Pow(i) * Pow(j)
  {
    if i > 0 {
      PowAdd(i - 1, j);
      assert BASE * (Pow(i - 1) * Pow(j)) == (BASE * Pow(i - 1)) * Pow(j);
    }
  }

  /** The first i words of a times w, shifted by some words. */
  ghost function Row(a: Words, i: nat, w: nat, shift: nat): nat
    requires i <= |a|
  {
    (Val(a, i) * w) * Pow(shift)
  }

  lemma RowWordStep(a: Words, i: nat, w: nat, shift: nat, r: Words, r': Words, c: nat, c': nat)
    requires i < |a| && i + shift <= |r| && WithCarry(r, c, i + shift) == Row(a, i, w, shift)
    requires i + shift < |r'| && forall k :: 0 <= k < i + shift ==> r'[k] == r[k]
    requires r'[i + shift] == (a[i] * w + c) % BASE && c' == (a[i] * w + c) / BASE
    ensures WithCarry(r', c', i + 1 + shift) == Row(a, i + 1, w, shift)
  {
    var x := a[i] * w;
    WordAdded(r, r', i + shift, x, 0, c, c');
    PowAdd(i, shift);
    RowTerm(Val(a, i), a[i], w, Pow(i), Pow(shift));
    assert 0 * Pow(i + shift) == 0;
  }

  lemma RowTerm(v: nat, x: nat, w: nat, pi: nat, ps: nat)
    ensures ((v + x * pi) * w) * ps == (v * w) * ps + (x * w) * (pi * ps)
  {
    assert (v + x * pi) * w == v * w + (x * pi) * w;
    assert ((x * pi) * w) * ps == (x * w) * (pi * ps);
  }

  /** The carry of a word product is a word. */
  lemma ProductCarry(x: nat, w: nat, c: nat)
    requires x < BASE && w < BASE && c < BASE
    ensures (x * w + c) / BASE < BASE
  {
    Scale(x, BASE - 1, w);
    assert x * w + c < BASE * BASE;
  }

  /** 1 if v needs more than n words. */
  function Overflow(v: nat, n: nat): int {
    if v < Pow(n) then 0 else 1
  }

  /** tmpres := a * w, shifted by some words; one word more exactly if it is needed. */
  method MulRow(a: BigInt, w: nat, shift: nat, tmpres: BigInt)
    requires a.Valid() && a.sigPos >= 0 && w < BASE && tmpres != a && IsWords(tmpres.words)
    modifies tmpres
    ensures tmpres.Valid() && tmpres.Value() == Row(a.words, a.sigPos + 1, w, shift)
    ensures tmpres.sigPos == a.sigPos + shift + Overflow(tmpres.Value(), a.sigPos + 1 + shift)
  {
    tmpres.Clean();
    tmpres.SetEqualTo(0);
    ClearLow(tmpres, shift);
    var carry: nat, i: nat := 0, 0;
    assert Row(a.words, 0, w, shift) == 0;
    while i <= a.sigPos
      invariant i <= a.sigPos + 1 && IsWords(tmpres.words) && i + shift <= |tmpres.words| && carry < BASE
      invariant WithCarry(tmpres.words, carry, i + shift) == Row(a.words, i, w, shift)
    {
      i, carry := MulWord(a, i, w, shift, tmpres, carry);
    }
    ValBound(tmpres.words, i + shift);
    if carry != 0 {
      ghost var r := tmpres.words;
      Scale(1, carry, Pow(i + shift));
      tmpres.Set(i + shift, carry);
      ValSame(r, tmpres.words, i + shift);
      tmpres.SetSigPos(i + shift);
    } else {
      tmpres.SetSigPos(i + shift - 1);
    }
  }

  /** The low words of a shifted row. */
  method ClearLow(tmpres: BigInt, shift: nat)
    requires tmpres.Valid()
    modifies tmpres
    ensures IsWords(tmpres.words) && shift <= |tmpres.words| && WithCarry(tmpres.words, 0, shift) == 0
  {
    if shift != 0 {
      var k: nat := 0;
      while k < shift
        invariant k <= shift && IsWords(tmpres.words) && k <= |tmpres.words| && Val(tmpres.words, k) == 0
      {
        ghost var r := tmpres.words;
        tmpres.Set(k, 0);
        ValSame(r, tmpres.words, k);
        assert Val(tmpres.words, k + 1) == 0 + 0 * Pow(k);
        k := k + 1;
      }
      tmpres.SetSigPos(k);
    }
  }

  method MulWord(a: BigInt, i: nat, w: nat, shift: nat, tmpres: BigInt, carry: nat) returns (i': nat, carry': nat)
    requires a.Valid() && i <= a.sigPos && w < BASE && tmpres != a && IsWords(tmpres.words)
    requires i + shift <= |tmpres.words| && carry < BASE
    requires WithCarry(tmpres.words, carry, i + shift) == Row(a.words, i, w, shift)
    modifies tmpres`words
    ensures i' == i + 1 && IsWords(tmpres.words) && i' + shift <= |tmpres.words| && carry' < BASE
    ensures WithCarry(tmpres.words, carry', i' + shift) == Row(a.words, i', w, shift)
  {
    var v3 := a.words[i] * w + carry;
    ghost var r := tmpres.words;
    ProductCarry(a.words[i], w, carry);
    i', carry' := i + 1, v3 / BASE;
    tmpres.Set(i + shift, v3 % BASE);
    RowWordStep(a.words, i, w, shift, r, tmpres.words, carry, carry');
  }

  lemma ProductBound(a: nat, b: nat, m: nat, n: nat)
    requires a < Pow(m) && b < Pow(n)
    ensures Times(a, b) < Pow(m + n)
  {
    PowAdd(m, n);
    Scale(a, Pow(m) - 1, b);
    Scale(b, Pow(n) - 1, Pow(m) - 1);
    assert (Pow(m) - 1) * b == b * (Pow(m) - 1);
    assert (Pow(n) - 1) * (Pow(m) - 1) < Pow(n) * Pow(m);
  }

  /** The words of the sum of the rows so far and the next row. */
  lemma RowsLength(pos: int, rowPos: int, sumPos: int, top: nat, row: nat, sum: nat)
    requires pos <= top <= rowPos && rowPos == top + Overflow(row, top + 1)
    requires row <= sum < Pow(top + 2)
    requires sumPos == Max(if pos < 0 then 0 else pos, rowPos) + Overflow(sum, rowPos + 1)
    ensures sumPos == top + Overflow(sum, top + 1)
  {
  }

  /** res := a * b, unsigned; one word more than the lengths suggest exactly if it is needed. */
  method BiuMul(a: BigInt, b: BigInt, res: BigInt)
    requires a.Valid() && b.Valid() && IsWords(res.words) && a.sigPos >= 0 && b.sigPos >= 0
    requires res != a && res != b
    modifies res
    ensures res.Valid() && res.Value() == a.Value() * b.Value()
    ensures res.sigPos == a.sigPos + b.sigPos + Overflow(a.Value() * b.Value(), a.sigPos + b.sigPos + 1)
  {
    var tmpres := new BigInt();
    res.SetEqualTo(0);
    var shift: nat := 0;
    assert a.Value() * Val(b.words, 0) == 0;
    while shift <= b.sigPos
      invariant shift <= b.sigPos + 1 && res.Valid() && IsWords(tmpres.words)
      invariant res.Value() == Times(a.Value(), Val(b.words, shift))
      invariant res.sigPos ==
                  if shift == 0 then 0 else a.sigPos + shift - 1 + Overflow(res.Value(), a.sigPos + shift)
    {
      shift := AddProductRow(a, b, shift, tmpres, res);
    }
  }

  /** Adds one row of the product. */
  method AddProductRow(a: BigInt, b: BigInt, shift: nat, tmpres: BigInt, res: BigInt) returns (next: nat)
    requires a.Valid() && b.Valid() && a.sigPos >= 0 && shift <= b.sigPos
    requires res.Valid() && IsWords(tmpres.words) && tmpres !in {a, b, res} && res !in {a, b}
    requires res.Value() == Times(a.Value(), Val(b.words, shift)) && 0 <= res.sigPos <= a.sigPos + shift
    modifies tmpres, res
    ensures next == shift + 1 && res.Valid() && IsWords(tmpres.words)
    ensures res.Value() == Times(a.Value(), Val(b.words, next))
    ensures res.sigPos == a.sigPos + shift + Overflow(res.Value(), a.sigPos + next)
  {
    next := shift + 1;
    ghost var pos := res.sigPos;
    MulRow(a, b.words[shift], shift, tmpres);
    ghost var row, rowPos := tmpres.Value(), tmpres.sigPos;
    BiuAdd(res, tmpres, res);
    TimesStep(a.Value(), Val(b.words, shift), b.words[shift], Pow(shift));
    ValBound(a.words, a.sigPos + 1);
    ValBound(b.words, next);
    ProductBound(a.Value(), Val(b.words, next), a.sigPos + 1, next);
    RowsLength(pos, rowPos, res.sigPos, a.sigPos + shift, row, res.Value());
  }

  function Times(a: nat, b: nat): nat {
    a * b
  }

  lemma TimesStep(a: nat, v: nat, w: nat, p: nat)
    ensures Times(a, v + w * p) == Times(a, v) + (a * w) * p
  {
    assert a * (v + w * p) == a * v + a * (w * p);
    assert a * (w * p) == (a * w) * p;
  }

  // ---- Signed multiplication ----

  /** The number r of n words is congruent to x * y, and equal to it exactly if x * y can be written with
      n words. */
  ghost predicate IsSignedProduct(r: nat, n: nat, x: int, y: int) {
    && (r - x * y) % Pow(n) == 0
    && (Signed(r, n) == x * y <==>
          2 * Magnitude(x * y) < Pow(n) || (x * y < 0 && 2 * Magnitude(x * y) == Pow(n)))
  }

  /** What neg makes of an unsigned magnitude, against the signed product. */
  lemma SignedProduct(x: int, y: int, v: nat, r: nat, n: nat)
    requires v == Magnitude(x) * Magnitude(y) && v < Pow(n)
    requires r == if (x < 0) != (y < 0) then Negated(v, n) else v
    ensures IsSignedProduct(r, n, x, y)
  {
    SignRule(x, y);
    if (x < 0) != (y < 0) && v > 0 {
      DivModUnique(r - x * y, Pow(n), 1, 0);
    } else {
      DivModUnique(r - x * y, Pow(n), 0, 0);
    }
  }

  lemma SignRule(x: int, y: int)
    ensures x * y == if (x < 0) != (y < 0) then -(Magnitude(x) * Magnitude(y)) else Magnitude(x) * Magnitude(y)
  {
    assert (-x) * y == -(x * y) && x * (-y) == -(x * y) && (-x) * (-y) == x * y;
  }

  /** The number itself, or a negated copy if it is negative. */
  method AbsCopy(a: BigInt) returns (pa: BigInt, negative: bool)
    requires a.Valid() && a.sigPos >= 0
    ensures pa == a || fresh(pa)
    ensures pa.Valid() && pa.sigPos == a.sigPos && pa.Value() == Magnitude(Signed(a.Value(), a.Len()))
    ensures negative <==> Signed(a.Value(), a.Len()) < 0
  {
    pa, negative := a, false;
    TopBit(a.words, a.sigPos + 1);
    ValBound(a.words, a.sigPos + 1);
    if a.words[a.sigPos] >= HALF {
      pa := new BigInt();
      pa.Copy(a);
      Neg(pa);
      negative := true;
    }
  }

  /** The product z comes out right when the factors have n + 1 words together: it is small enough for
      n words with its sign, or it needs one word more, which the result then has. */
  ghost predicate Representable(z: int, n: nat) {
    || 2 * Magnitude(z) < Pow(n)
    || Magnitude(z) >= Pow(n)
    || (z < 0 && 2 * Magnitude(z) == Pow(n))
  }

  /** r, of len words, is what the product z comes to: the length is exact, r is congruent to z, and equal
      to it exactly if that is representable. */
  ghost predicate SignedProductOf(r: nat, len: nat, z: int, n: nat) {
    && len == n + Overflow(Magnitude(z), n)
    && (r - z) % Pow(len) == 0
    && (Signed(r, len) == z <==> Representable(z, n))
  }

  /** res := a * b, signed. */
  method BisMul(a: BigInt, b: BigInt, res: BigInt)
    requires a.Valid() && b.Valid() && IsWords(res.words) && a.sigPos >= 0 && b.sigPos >= 0
    requires res != a && res != b
    modifies res
    ensures res.Valid()
    ensures SignedProductOf(res.Value(), res.Len(), Signed(a.Value(), a.Len()) * Signed(b.Value(), b.Len()),
                            a.Len() + b.Len() - 1)
  {
    var pa, negA := AbsCopy(a);
    var pb, negB := AbsCopy(b);
    BiuMul(pa, pb, res);
    ghost var v := res.Value();
    ApplySign(res, negA != negB);
    ProductRead(a.words, a.sigPos + 1, b.words, b.sigPos + 1, v, negA != negB, res.Value(), res.sigPos + 1);
  }

  /** Negates a product that is not zero, if one factor was negative. */
  method ApplySign(res: BigInt, negate: bool)
    requires res.Valid() && res.sigPos >= 0
    modifies res
    ensures res.Valid() && res.sigPos == old(res.sigPos) && old(res.Value()) < Pow(res.Len())
    ensures res.Value() == if negate then Negated(old(res.Value()), res.Len()) else old(res.Value())
  {
    ValBound(res.words, res.sigPos + 1);
    if negate {
      var zero := res.IsZero();
      if !zero {
        Neg(res);
      }
    }
  }

  lemma ProductRead(a: Words, m: nat, b: Words, n: nat, v: nat, negate: bool, r: nat, len: nat)
    requires IsWords(a) && IsWords(b) && 0 < m <= |a| && 0 < n <= |b|
    requires v == Magnitude(Signed(Val(a, m), m)) * Magnitude(Signed(Val(b, n), n))
    requires negate == ((Signed(Val(a, m), m) < 0) != (Signed(Val(b, n), n) < 0))
    requires v < Pow(len) && len == m + n - 1 + Overflow(v, m + n - 1)
    requires r == if negate then Negated(v, len) else v
    ensures SignedProductOf(r, len, Signed(Val(a, m), m) * Signed(Val(b, n), n), m + n - 1)
  {
    ValBound(a, m);
    ValBound(b, n);
    LongProductFits(Val(a, m), Val(b, n), m, n);
    SignsRead(Signed(Val(a, m), m), Signed(Val(b, n), n), v, r, m + n - 1, len);
  }

  lemma SignsRead(x: int, y: int, v: nat, r: nat, n: nat, len: nat)
    requires v == Magnitude(x) * Magnitude(y) && v < Pow(len) && len == n + Overflow(v, n)
    requires r == if (x < 0) != (y < 0) then Negated(v, len) else v
    requires 2 * v < Pow(n + 1)
    ensures SignedProductOf(r, len, x * y, n)
  {
    SignedProduct(x, y, v, r, len);
    SignRule(x, y);
    assert Magnitude(x * y) == v;
  }

  /** A signed number of n words is at most half of what n words can hold. */
  lemma HalfRange(v: nat, n: nat)
    requires v < Pow(n)
    ensures 2 * Magnitude(Signed(v, n)) <= Pow(n)
  {
  }

  /** A product that needs all words of both factors leaves the top bit of them clear. */
  lemma LongProductFits(a: nat, b: nat, m: nat, n: nat)
    requires a < Pow(m) && b < Pow(n)
    ensures 2 * (Magnitude(Signed(a, m)) * Magnitude(Signed(b, n))) < Pow(m + n)
  {
    HalfRange(a, m);
    HalfRange(b, n);
    PowAdd(m, n);
    HalvesProduct(Magnitude(Signed(a, m)), Magnitude(Signed(b, n)), Pow(m), Pow(n));
  }

  lemma HalvesProduct(x: nat, y: nat, p: nat, q: nat)
    requires 2 * x <= p && 2 * y <= q && p > 0 && q > 0
    ensures 2 * (x * y) < p * q
  {
    Scale(2 * x, p, 2 * y);
    Scale(2 * y, q, p);
    assert (2 * x) * (2 * y) == 4 * (x * y);
    assert (2 * y) * p == p * (2 * y) && q * p == p * q;
    if x * y == 0 {
      Scale(1, p, q);
    }
  }

  /** One word each is not always enough: 0x10000 times 0x8000 reads as the least number. */
  lemma OneWordOverflows()
    ensures Signed(0x1_0000, 1) == 0x1_0000 && Signed(0x8000, 1) == 0x8000
    ensures !Representable(0x1_0000 * 0x8000, 1)
    ensures Signed(0x1_0000 * 0x8000, 1) == -0x8000_0000
  {
    assert Pow(1) == BASE * Pow(0);
  }
}
