/** A machine word as its sequence of bits, least significant first, and the word operators the
    bitmap uses. */
module Words {

  const WIDTH: nat := 64

  type Word = w: seq<bool> | |w| == WIDTH witness seq(WIDTH, _ => false)

  function Zero(): Word { seq(WIDTH, _ => false) }

  function AllOnes(): Word { seq(WIDTH, _ => true) }

  function And(a: Word, b: Word): Word { seq(WIDTH, i requires 0 <= i < WIDTH => a[i] && b[i]) }

  function Or(a: Word, b: Word): Word { seq(WIDTH, i requires 0 <= i < WIDTH => a[i] || b[i]) }

  function Not(a: Word): Word { seq(WIDTH, i requires 0 <= i < WIDTH => !a[i]) }

  function ShiftLeft(a: Word, n: nat): Word {
    seq(WIDTH, i requires 0 <= i < WIDTH => i >= n && a[i - n])
  }

  function ShiftRight(a: Word, n: nat): Word {
    seq(WIDTH, i requires 0 <= i < WIDTH => i + n < WIDTH && a[i + n])
  }

  /** The low `n` bits set, all of them from `WIDTH` upwards. */
  function Mask(n: nat): Word { seq(WIDTH, i => i < n) }

  function Popcount(a: seq<bool>): nat {
    if a == [] then 0 else Popcount(a[..|a| - 1]) + (if a[|a| - 1] then 1 else 0)
  }

  /** Index of the lowest set bit. */
  function TrailingZeros(a: Word): (n: nat)
    ensures n <= WIDTH && (forall i :: 0 <= i < n ==> !a[i])
    ensures n < WIDTH ==> a[n]
  {
    ZerosFrom(a, 0)
  }

  function ZerosFrom(a: Word, from: nat): (n: nat)
    requires from <= WIDTH
    ensures from <= n <= WIDTH && (forall i :: from <= i < n ==> !a[i])
    ensures n < WIDTH ==> a[n]
    decreases WIDTH - from
  {
    if from == WIDTH || a[from] then from else ZerosFrom(a, from + 1)
  }

  function Pow2(n: nat): (p: nat)
    ensures p >= 1
  {
    if n == 0 then 1 else 2 * Pow2(n - 1)
  }

  /** Numeric value of the low `n` bits. */
  function Value(a: seq<bool>, n: nat): nat
    requires n <= |a|
  {
    if n == 0 then 0 else Value(a, n - 1) + (if a[n - 1] then Pow2(n - 1) else 0)
  }

  /** The mask is the number `(1 << n) - 1`, and every bit for a count of `WIDTH` or more. */
  lemma {:induction false} MaskIsPowerMinusOne(n: nat, k: nat)
    requires k <= WIDTH
    ensures Value(Mask(n), k) == Pow2(if n < k then n else k) - 1
  {
    if k > 0 {
      MaskIsPowerMinusOne(n, k - 1);
    }
  }
}

/** A fixed-size set of indices packed into words. Every operation is specified on the set of
    member indices. */
module Bitmap {
  import opened Words

  const NPOS: nat := 0xFFFF_FFFF_FFFF_FFFF

  function Bit(words: seq<Word>, i: nat): bool {
    i / WIDTH < |words| && words[i / WIDTH][i % WIDTH]
  }

  /** The members in `[lo, hi)`. */
  ghost function Range(words: seq<Word>, lo: nat, hi: nat): set<nat> {
    set i: nat | lo <= i < hi && Bit(words, i)
  }

  ghost predicate IsLeast(words: seq<Word>, lo: nat, hi: nat, r: nat) {
    if r == NPOS then Range(words, lo, hi) == {}
    else lo <= r < hi && Bit(words, r) && forall i :: lo <= i < r ==> !Bit(words, i)
  }

  /** The bits of word `j` are the members `64 * j + b`. */
  lemma BitOfWord(words: seq<Word>, j: nat, b: nat)
    requires j < |words| && b < WIDTH
    ensures Bit(words, j * WIDTH + b) == words[j][b]
  {
    assert (j * WIDTH + b) / WIDTH == j && (j * WIDTH + b) % WIDTH == b;
  }

  lemma {:induction false} PopcountIsCardinality(words: seq<Word>, j: nat, n: nat)
    requires j < |words| && n <= WIDTH
    ensures |Range(words, j * WIDTH, j * WIDTH + n)| == Popcount(words[j][..n])
  {
    if n > 0 {
      PopcountIsCardinality(words, j, n - 1);
      BitOfWord(words, j, n - 1);
      assert words[j][..n][..n - 1] == words[j][..n - 1];
      RangeGrows(words, j * WIDTH, j * WIDTH + n - 1);
    } else {
      assert Range(words, j * WIDTH, j * WIDTH + n) == {};
    }
  }

  lemma RangeGrows(words: seq<Word>, lo: nat, hi: nat)
    requires lo <= hi
    ensures |Range(words, lo, hi + 1)| == |Range(words, lo, hi)| + (if Bit(words, hi) then 1 else 0)
  {
    var r := Range(words, lo, hi);
    assert Range(words, lo, hi + 1) == if Bit(words, hi) then r + {hi} else r;
  }

  lemma RangeSplits(words: seq<Word>, lo: nat, mid: nat, hi: nat)
    requires lo <= mid <= hi
    ensures |Range(words, lo, hi)| == |Range(words, lo, mid)| + |Range(words, mid, hi)|
  {
    var a, b := Range(words, lo, mid), Range(words, mid, hi);
    assert Range(words, lo, hi) == a + b && a !! b;
  }

  class Bits {
    const words: array<Word>

    constructor (wordCount: nat)
      ensures words.Length == wordCount && fresh(words)
      ensures forall i :: 0 <= i < wordCount * WIDTH ==> !Bit(words[..], i)
    {
      words := new Word[wordCount](_ => Zero());
    }

    function Size(): nat { words.Length * WIDTH }

    /** Set or clear the selected bits of one word. */
    method ApplyWord(word: nat, selected: Word, value: bool)
      requires word < words.Length
      modifies words
      ensures forall j :: 0 <= j < words.Length && j != word ==> words[j] == old(words[j])
      ensures forall b :: 0 <= b < WIDTH ==> words[word][b] == if selected[b] then value else old(words[word][b])
    {
      if value {
        words[word] := Or(words[word], selected);
      } else {
        words[word] := And(words[word], Not(selected));
      }
    }

    /** Give every index in `[first, first + count)` the value, and no other index. */
    method Apply(first: nat, count: nat, value: bool)
      requires first + count <= Size()
      modifies words
      ensures forall i :: 0 <= i < Size() ==>
                Bit(words[..], i) == if first <= i < first + count then value else old(Bit(words[..], i))
    {
      if count == 0 { return; }
      var last := first + count - 1;
      var firstWord, lastWord := first / WIDTH, last / WIDTH;
      var fromFirst, uptoLast := Not(Mask(first % WIDTH)), Mask(last % WIDTH + 1);
      if firstWord == lastWord {
        ApplyWord(firstWord, And(fromFirst, uptoLast), value);
        return;
      }
      ApplyWord(firstWord, fromFirst, value);
      for word := firstWord + 1 to lastWord
        invariant forall j :: 0 <= j < firstWord || word <= j < words.Length ==> words[j] == old(words[j])
        invariant forall b :: 0 <= b < WIDTH ==>
                    words[firstWord][b] == if b >= first % WIDTH then value else old(words[firstWord][b])
        invariant forall j, b :: firstWord < j < word && 0 <= b < WIDTH ==> words[j][b] == value
      {
        words[word] := if value then AllOnes() else Zero();
      }
      ApplyWord(lastWord, uptoLast, value);
    }

    method SetRange(first: nat, count: nat)
      requires first + count <= Size()
      modifies words
      ensures forall i :: 0 <= i < Size() ==>
                (Bit(words[..], i) <==> first <= i < first + count || old(Bit(words[..], i)))
    {
      Apply(first, count, true);
    }

    method ClearRange(first: nat, count: nat)
      requires first + count <= Size()
      modifies words
      ensures forall i :: 0 <= i < Size() ==>
                (Bit(words[..], i) <==> !(first <= i < first + count) && old(Bit(words[..], i)))
    {
      Apply(first, count, false);
    }

    /** Clear one index. */
    method Clear(index: nat)
      requires index < Size()
      modifies words
      ensures forall i :: 0 <= i < Size() ==> (Bit(words[..], i) <==> i != index && old(Bit(words[..], i)))
    {
      var word := index / WIDTH;
      words[word] := And(words[word], Not(ShiftLeft(Mask(1), index % WIDTH)));
    }

    /** The least member in a run of whole words, or NPOS. */
    method FindSet(firstWord: nat, count: nat) returns (r: nat)
      requires firstWord + count <= words.Length && Size() <= NPOS
      ensures IsLeast(words[..], firstWord * WIDTH, (firstWord + count) * WIDTH, r)
    {
      for i := 0 to count
        invariant forall n :: firstWord * WIDTH <= n < (firstWord + i) * WIDTH ==> !Bit(words[..], n)
      {
        var word := firstWord + i;
        r := FindInWord(word, words[word], word * WIDTH, (word + 1) * WIDTH);
        if r != NPOS { return; }
      }
      r := NPOS;
    }

    /** The index of the lowest selected bit of a word, where the selection is the word's members
        in `[lo, hi)`. */
    method FindInWord(word: nat, selected: Word, lo: nat, hi: nat) returns (r: nat)
      requires word < words.Length && Size() <= NPOS && word * WIDTH <= lo && hi <= (word + 1) * WIDTH
      requires forall b :: 0 <= b < WIDTH ==> (selected[b] <==> words[word][b] && lo <= word * WIDTH + b < hi)
      ensures IsLeast(words[..], lo, hi, r)
      ensures r == NPOS ==> forall n :: lo <= n < hi ==> !Bit(words[..], n)
    {
      assert forall n :: lo <= n < hi ==> Bit(words[..], n) == selected[n - word * WIDTH];
      if selected == Zero() { return NPOS; }
      var n := TrailingZeros(selected);
      assert n == WIDTH ==> selected == Zero();
      r := word * WIDTH + n;
    }

    /** The least member in `[first, first + count)`, or NPOS. */
    method FindSetIn(first: nat, count: nat) returns (r: nat)
      requires first + count <= Size() && Size() <= NPOS
      ensures IsLeast(words[..], first, first + count, r)
    {
      if count == 0 { return NPOS; }
      var last := first + count - 1;
      var firstWord, lastWord := first / WIDTH, last / WIDTH;
      var fromFirst, uptoLast := Not(Mask(first % WIDTH)), Mask(last % WIDTH + 1);
      if firstWord == lastWord {
        r := FindInWord(firstWord, And(And(words[firstWord], fromFirst), uptoLast), first, first + count);
        return;
      }
      r := FindInWord(firstWord, And(words[firstWord], fromFirst), first, (firstWord + 1) * WIDTH);
      if r != NPOS { return; }
      for word := firstWord + 1 to lastWord
        invariant forall n :: first <= n < word * WIDTH ==> !Bit(words[..], n)
      {
        r := FindInWord(word, words[word], word * WIDTH, (word + 1) * WIDTH);
        if r != NPOS { return; }
      }
      r := FindInWord(lastWord, And(words[lastWord], uptoLast), lastWord * WIDTH, first + count);
    }

    /** Number of members in a run of whole words. */
    method CountSet(firstWord: nat, count: nat) returns (total: nat)
      requires firstWord + count <= words.Length
      ensures total == |Range(words[..], firstWord * WIDTH, (firstWord + count) * WIDTH)|
    {
      total := 0;
      assert Range(words[..], firstWord * WIDTH, firstWord * WIDTH) == {};
      for i := 0 to count
        invariant total == |Range(words[..], firstWord * WIDTH, (firstWord + i) * WIDTH)|
      {
        var word := firstWord + i;
        PopcountIsCardinality(words[..], word, WIDTH);
        assert words[word][..WIDTH] == words[word];
        RangeSplits(words[..], firstWord * WIDTH, word * WIDTH, (word + 1) * WIDTH);
        total := total + Popcount(words[word]);
      }
    }

    /** Number of members in `[first, first + count)`. */
    method CountSetIn(first: nat, count: nat) returns (total: nat)
      requires first + count <= Size()
      ensures total == |Range(words[..], first, first + count)|
    {
      if count == 0 {
        assert Range(words[..], first, first + count) == {};
        return 0;
      }
      var last := first + count - 1;
      var firstWord, lastWord := first / WIDTH, last / WIDTH;
      var fromFirst, uptoLast := Not(Mask(first % WIDTH)), Mask(last % WIDTH + 1);
      if firstWord == lastWord {
        total := CountInWord(firstWord, And(And(words[firstWord], fromFirst), uptoLast), first, first + count);
        return;
      }
      total := CountInWord(firstWord, And(words[firstWord], fromFirst), first, (firstWord + 1) * WIDTH);
      for word := firstWord + 1 to lastWord
        invariant total == |Range(words[..], first, word * WIDTH)|
      {
        var n := CountInWord(word, words[word], word * WIDTH, (word + 1) * WIDTH);
        RangeSplits(words[..], first, word * WIDTH, (word + 1) * WIDTH);
        total := total + n;
      }
      var n := CountInWord(lastWord, And(words[lastWord], uptoLast), lastWord * WIDTH, first + count);
      RangeSplits(words[..], first, lastWord * WIDTH, first + count);
      total := total + n;
    }

    /** The population count of a word's members in `[lo, hi)`. */
    method CountInWord(word: nat, selected: Word, lo: nat, hi: nat) returns (n: nat)
      requires word < words.Length && word * WIDTH <= lo && hi <= (word + 1) * WIDTH
      requires forall b :: 0 <= b < WIDTH ==> (selected[b] <==> words[word][b] && lo <= word * WIDTH + b < hi)
      ensures n == |Range(words[..], lo, hi)|
    {
      ghost var only := words[..][word := selected];
      PopcountIsCardinality(only, word, WIDTH);
      assert selected[..WIDTH] == selected;
      assert Range(only, word * WIDTH, word * WIDTH + WIDTH) == Range(words[..], lo, hi) by {
        forall i: nat | word * WIDTH <= i < word * WIDTH + WIDTH
          ensures Bit(only, i) <==> lo <= i < hi && Bit(words[..], i)
        {
          assert i / WIDTH == word && i == word * WIDTH + i % WIDTH;
        }
      }
      n := Popcount(selected);
    }

    method Reset()
      modifies words
      ensures forall i :: 0 <= i < Size() ==> !Bit(words[..], i)
    {
      for word := 0 to words.Length
        invariant forall j :: 0 <= j < word ==> words[j] == Zero()
      {
        words[word] := Zero();
      }
    }

    /** Move every member up by `count`, dropping what leaves the bitmap. */
    method ShiftUp(count: nat)
      modifies words
      ensures forall i :: 0 <= i < Size() ==>
                (Bit(words[..], i) <==> i >= count && old(Bit(words[..], i - count)))
    {
      if count == 0 { return; }
      if count >= Size() { Reset(); return; }
      var wordShift, bitShift := count / WIDTH, count % WIDTH;
      ghost var before := words[..];
      MovedUp(before, count);
      hide *;
      var destination := words.Length;
      while destination > 0
        invariant 0 <= destination <= words.Length
        invariant forall j :: 0 <= j < destination ==> words[j] == before[j]
        invariant forall j :: destination <= j < words.Length ==> words[j] == WordUp(before, wordShift, bitShift, j)
      {
        destination := destination - 1;
        words[destination] := WordUp(words[..], wordShift, bitShift, destination);
      }
      assert words[..] == AllUp(before, count) by { AllUpIs(before, count, words[..]); }
    }

    /** Move every member down by `count`, dropping what leaves the bitmap. */
    method ShiftDown(count: nat)
      modifies words
      ensures forall i :: 0 <= i < Size() ==>
                (Bit(words[..], i) <==> i + count < Size() && old(Bit(words[..], i + count)))
    {
      if count == 0 { return; }
      if count >= Size() { Reset(); return; }
      var wordShift, bitShift := count / WIDTH, count % WIDTH;
      ghost var before := words[..];
      MovedDown(before, count);
      hide *;
      for destination := 0 to words.Length
        invariant forall j :: destination <= j < words.Length ==> words[j] == before[j]
        invariant forall j :: 0 <= j < destination ==> words[j] == WordDown(before, wordShift, bitShift, j)
      {
        words[destination] := WordDown(words[..], wordShift, bitShift, destination);
      }
      assert words[..] == AllDown(before, count) by { AllDownIs(before, count, words[..]); }
    }
  }

  /** The whole bitmap moved. */
  ghost function AllUp(words: seq<Word>, count: nat): seq<Word> {
    seq(|words|, j requires 0 <= j < |words| => WordUp(words, count / WIDTH, count % WIDTH, j))
  }

  ghost function AllDown(words: seq<Word>, count: nat): seq<Word> {
    seq(|words|, j requires 0 <= j < |words| => WordDown(words, count / WIDTH, count % WIDTH, j))
  }

  lemma AllUpIs(words: seq<Word>, count: nat, after: seq<Word>)
    requires |after| == |words|
    requires forall j :: 0 <= j < |words| ==> after[j] == WordUp(words, count / WIDTH, count % WIDTH, j)
    ensures after == AllUp(words, count)
  {
  }

  lemma AllDownIs(words: seq<Word>, count: nat, after: seq<Word>)
    requires |after| == |words|
    requires forall j :: 0 <= j < |words| ==> after[j] == WordDown(words, count / WIDTH, count % WIDTH, j)
    ensures after == AllDown(words, count)
  {
  }

  /** Moving up takes every member `i` to `i + count`. */
  lemma MovedUp(words: seq<Word>, count: nat)
    ensures forall i :: 0 <= i < |words| * WIDTH ==>
            (Bit(AllUp(words, count), i) <==> i >= count && Bit(words, i - count))
  {
    forall i | 0 <= i < |words| * WIDTH ensures Bit(AllUp(words, count), i) <==> i >= count && Bit(words, i - count) {
      WordUpBit(words, count / WIDTH, count % WIDTH, i / WIDTH, i % WIDTH, i - count);
    }
  }

  /** Moving down takes every member `i + count` to `i`. */
  lemma MovedDown(words: seq<Word>, count: nat)
    ensures forall i :: 0 <= i < |words| * WIDTH ==>
            (Bit(AllDown(words, count), i) <==> i + count < |words| * WIDTH && Bit(words, i + count))
  {
    forall i | 0 <= i < |words| * WIDTH
      ensures Bit(AllDown(words, count), i) <==> i + count < |words| * WIDTH && Bit(words, i + count)
    {
      WordDownBit(words, count / WIDTH, count % WIDTH, i / WIDTH, i % WIDTH, i + count);
    }
  }

  /** Word `d` of the bitmap moved up: the source word, joined with the top of the one below it. */
  function WordUp(words: seq<Word>, wordShift: nat, bitShift: nat, d: nat): Word
    requires d < |words| && bitShift < WIDTH
  {
    if d < wordShift then Zero() else
    var source := d - wordShift;
    var value := ShiftLeft(words[source], bitShift);
    if bitShift != 0 && source != 0 then Or(value, ShiftRight(words[source - 1], WIDTH - bitShift)) else value
  }

  /** Word `d` of the bitmap moved down: the source word, joined with the bottom of the one above. */
  function WordDown(words: seq<Word>, wordShift: nat, bitShift: nat, d: nat): Word
    requires d < |words| && bitShift < WIDTH
  {
    var source := d + wordShift;
    if source >= |words| then Zero() else
    var value := ShiftRight(words[source], bitShift);
    if bitShift != 0 && source + 1 < |words| then Or(value, ShiftLeft(words[source + 1], WIDTH - bitShift)) else value
  }

  /** The bit `b` of a word that moved up comes from bit `n` of word `s`. */
  ghost predicate ComesFrom(j: int, b: int, wordShift: int, bitShift: int, s: int, n: int) {
    if b >= bitShift then s == j - wordShift && n == b - bitShift
        else s == j - wordShift - 1 && n == b - bitShift + WIDTH
  }

  lemma ShiftedBits(w: Word, n: nat, b: nat)
    requires b < WIDTH
    ensures ShiftLeft(w, n)[b] <==> b >= n && w[b - n]
    ensures ShiftRight(w, n)[b] <==> b + n < WIDTH && w[b + n]
  {
  }

  lemma OrBit(v: Word, w: Word, b: nat)
    requires b < WIDTH
    ensures Or(v, w)[b] <==> v[b] || w[b]
  {
  }

  lemma ZeroBit(b: nat)
    requires b < WIDTH
    ensures !Zero()[b]
  {
  }

  lemma WordUpParts(words: seq<Word>, wordShift: nat, bitShift: nat, j: nat, b: nat, s: int, n: int)
    requires j < |words| && b < WIDTH && bitShift < WIDTH && ComesFrom(j, b, wordShift, bitShift, s, n)
    ensures 0 <= n < WIDTH && s < |words|
    ensures WordUp(words, wordShift, bitShift, j)[b] <==> s >= 0 && words[s][n]
  {
    hide ShiftLeft, ShiftRight, Or, Zero;
    ZeroBit(b);
    if j >= wordShift {
      var low, d := words[j - wordShift], bitShift;
      ShiftedBits(low, d, b);
      if d != 0 && j - wordShift != 0 {
        var below := words[j - wordShift - 1];
        ShiftedBits(below, WIDTH - d, b);
        OrBit(ShiftLeft(low, d), ShiftRight(below, WIDTH - d), b);
      }
    }
  }

  lemma WordDownParts(words: seq<Word>, wordShift: nat, bitShift: nat, j: nat, b: nat, s: int, n: int)
    requires j < |words| && b < WIDTH && bitShift < WIDTH && ComesFrom(j, b, 0 - wordShift - 1, WIDTH - bitShift, s, n)
    ensures 0 <= n < WIDTH && s >= 0
    ensures WordDown(words, wordShift, bitShift, j)[b] <==> s < |words| && words[s][n]
  {
    hide ShiftLeft, ShiftRight, Or, Zero;
    ZeroBit(b);
    if j + wordShift < |words| {
      var high, d := words[j + wordShift], bitShift;
      ShiftedBits(high, d, b);
      if d != 0 && j + wordShift + 1 < |words| {
        var above := words[j + wordShift + 1];
        ShiftedBits(above, WIDTH - d, b);
        OrBit(ShiftRight(high, d), ShiftLeft(above, WIDTH - d), b);
      }
    }
  }

  lemma BitAt(words: seq<Word>, s: int, n: nat, i: int)
    requires n < WIDTH && i == s * WIDTH + n
    ensures i >= 0 <==> s >= 0
    ensures s >= 0 ==> (Bit(words, i) <==> s < |words| && words[s][n])
  {
    if s >= 0 {
      assert i / WIDTH == s && i % WIDTH == n;
    }
  }

  /** Bit `b` of a word that moved up is the member that many places below. */
  lemma WordUpBit(words: seq<Word>, wordShift: nat, bitShift: nat, j: nat, b: nat, from: int)
    requires j < |words| && b < WIDTH && bitShift < WIDTH && from == j * WIDTH + b - wordShift * WIDTH - bitShift
    ensures WordUp(words, wordShift, bitShift, j)[b] <==> from >= 0 && Bit(words, from)
  {
    var s, n := if b >= bitShift then j - wordShift else j - wordShift - 1, if b >= bitShift then b - bitShift
        else b - bitShift + WIDTH;
    assert ComesFrom(j, b, wordShift, bitShift, s, n);
    hide *;
    WordUpParts(words, wordShift, bitShift, j, b, s, n);
    BitAt(words, s, n, from);
  }

  /** Bit `b` of a word that moved down is the member that many places above. */
  lemma WordDownBit(words: seq<Word>, wordShift: nat, bitShift: nat, j: nat, b: nat, from: nat)
    requires j < |words| && b < WIDTH && bitShift < WIDTH && from == j * WIDTH + b + wordShift * WIDTH + bitShift
    ensures WordDown(words, wordShift, bitShift, j)[b] <==> Bit(words, from)
  {
    var s, n := if b >= WIDTH - bitShift then j + wordShift + 1
        else j + wordShift, if b >= WIDTH - bitShift then b + bitShift - WIDTH else b + bitShift;
    assert ComesFrom(j, b, 0 - wordShift - 1, WIDTH - bitShift, s, n);
    assert from == j * WIDTH + b - (0 - wordShift - 1) * WIDTH - (WIDTH - bitShift);
    hide *;
    WordDownParts(words, wordShift, bitShift, j, b, s, n);
    BitAt(words, s, n, from);
  }
}
