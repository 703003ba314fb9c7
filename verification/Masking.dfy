/**
 Payload masking (section 5.3 of RFC 6455): the byte loop of ws/mask_safe.go
 and the word-at-a-time form of ws/mask.go, both proved against Masked.
 A slice b of the source is the part lo..hi of an array.
 */
module Masking {
  import opened Bytes
  import opened Sequences

  type Key = k: bytes | |k| == 4 witness [0, 0, 0, 0]

  /** s masked with key, its first byte being at offset pos of the frame's payload. */
  function Masked(key: Key, pos: nat, s: bytes): (r: bytes)
    ensures |r| == |s|
    decreases |s|
  {
    if s == [] then [] else [XorByte(s[0], key[pos % 4])] + Masked(key, pos + 1, s[1..])
  }

  /** Byte i is masked with byte (pos + i) mod 4 of the key, whatever is around it. */
  lemma {:induction false} MaskedAt(key: Key, pos: nat, s: bytes, i: nat)
    requires i < |s|
    ensures Masked(key, pos, s)[i] == XorByte(s[i], key[(pos + i) % 4])
    decreases i
  {
    if i > 0 {
      MaskedAt(key, pos + 1, s[1..], i - 1);
    }
  }

  /** t is s with exactly the part lo..hi masked, from position pos of the payload on. */
  ghost predicate MasksRange(key: Key, pos: nat, s: bytes, t: bytes, lo: nat, hi: nat)
  {
    && lo <= hi <= |s| == |t|
    && (forall j :: 0 <= j < lo || hi <= j < |s| ==> t[j] == s[j])
    && (forall j :: lo <= j < hi ==> t[j] == XorByte(s[j], key[(pos + (j - lo)) % 4]))
  }

  lemma MasksRangeIsMasked(key: Key, pos: nat, s: bytes, t: bytes, lo: nat, hi: nat)
    requires MasksRange(key, pos, s, t, lo, hi)
    ensures t == s[..lo] + Masked(key, pos, s[lo..hi]) + s[hi..]
  {
    MaskedIs(key, pos, s[lo..hi], t[lo..hi]);
    assert t[..lo] == s[..lo] && t[hi..] == s[hi..];
    assert t == t[..lo] + t[lo..hi] + t[hi..];
  }

  /** Ranges masked one after the other make one masked range; offsets matter modulo 4. */
  lemma MasksRangeSplit(key: Key, pos: nat, pos': nat, s: bytes, t: bytes, u: bytes, lo: nat, mid: nat, hi: nat)
    requires MasksRange(key, pos, s, t, lo, mid)
    requires MasksRange(key, pos', t, u, mid, hi)
    requires pos' % 4 == (pos + (mid - lo)) % 4
    ensures MasksRange(key, pos, s, u, lo, hi)
  {
    forall j | mid <= j < hi
      ensures u[j] == XorByte(s[j], key[(pos + (j - lo)) % 4])
    {
      ModShift(pos', j - mid);
      ModShift(pos + (mid - lo), j - mid);
    }
  }

  lemma MaskedIs(key: Key, pos: nat, s: bytes, t: bytes)
    requires |s| == |t|
    requires forall i :: 0 <= i < |s| ==> t[i] == XorByte(s[i], key[(pos + i) % 4])
    ensures t == Masked(key, pos, s)
  {
    forall i | 0 <= i < |s|
      ensures t[i] == Masked(key, pos, s)[i]
    {
      MaskedAt(key, pos, s, i);
    }
  }

  /** Masking twice restores the payload. */
  lemma {:induction false} MaskedTwice(key: Key, pos: nat, s: bytes)
    ensures Masked(key, pos, Masked(key, pos, s)) == s
    decreases |s|
  {
    if s != [] {
      XorInvolutive(s[0], key[pos % 4]);
      MaskedTwice(key, pos + 1, s[1..]);
      assert Masked(key, pos, s)[1..] == Masked(key, pos + 1, s[1..]);
    }
  }

  /** Only the position modulo the length of the key matters. */
  lemma {:induction false} MaskedModulo(key: Key, pos: nat, s: bytes)
    ensures Masked(key, pos % 4, s) == Masked(key, pos, s)
  {
    forall i | 0 <= i < |s|
      ensures Masked(key, pos % 4, s)[i] == Masked(key, pos, s)[i]
    {
      MaskedAt(key, pos % 4, s, i);
      MaskedAt(key, pos, s, i);
      ModShift(pos, i);
    }
  }

  /** Masking a payload in pieces, carrying the offset, equals masking it whole. */
  lemma {:induction false} MaskedPieces(key: Key, pos: nat, s: bytes, t: bytes)
    ensures Masked(key, pos, s + t) == Masked(key, pos, s) + Masked(key, pos + |s|, t)
    decreases |s|
  {
    if s == [] {
      assert s + t == t;
    } else {
      assert (s + t)[1..] == s[1..] + t;
      MaskedPieces(key, pos + 1, s[1..], t);
      Assoc([XorByte(s[0], key[pos % 4])], Masked(key, pos + 1, s[1..]), Masked(key, pos + |s|, t));
    }
  }

  lemma ModShift(a: nat, i: nat)
    ensures (a % 4 + i) % 4 == (a + i) % 4
  {
  }

  lemma ModSkip(a: nat, i: nat)
    requires i % 4 == 0
    ensures (a + i) % 4 == a % 4
  {
  }

  /** ws/mask_safe.go, and the byte loops inside ws/mask.go. */
  method MaskByByte(key: Key, pos0: nat, b: array<byte>, lo: nat, hi: nat) returns (pos: nat)
    requires lo <= hi <= b.Length
    modifies b
    ensures MasksRange(key, pos0, old(b[..]), b[..], lo, hi)
    ensures pos == (pos0 + (hi - lo)) % 4
  {
    pos := pos0;
    for i := lo to hi
      invariant pos == pos0 + (i - lo)
      invariant forall j :: lo <= j < i ==> b[j] == XorByte(old(b[j]), key[(pos0 + (j - lo)) % 4])
      invariant forall j :: 0 <= j < lo || i <= j < b.Length ==> b[j] == old(b[j])
    {
      b[i] := XorByte(b[i], key[pos % 4]);
      pos := pos + 1;
    }
    pos := pos % 4;
  }

  /** The number a little-endian machine loads from the bytes s. */
  function LoadWord(s: bytes): nat {
    if s == [] then 0 else s[0] + 256 * LoadWord(s[1..])
  }

  /** The `size` bytes a little-endian machine stores for the number n. */
  function StoreWord(size: nat, n: nat): (s: bytes)
    ensures |s| == size
  {
    if size == 0 then [] else [n % 256] + StoreWord(size - 1, n / 256)
  }

  function XorAll(s: bytes, k: bytes): (r: bytes)
    requires |s| == |k|
    ensures |r| == |s|
  {
    seq(|s|, i requires 0 <= i < |s| => XorByte(s[i], k[i]))
  }

  /** One exclusive-or of two machine words is the exclusive-or of their bytes. */
  lemma {:induction false} WordXor(s: bytes, k: bytes)
    requires |s| == |k|
    ensures StoreWord(|s|, Xor(LoadWord(s), LoadWord(k))) == XorAll(s, k)
  {
    if s != [] {
      var head := XorByte(s[0], k[0]);
      XorLow(s[0], k[0], LoadWord(s[1..]), LoadWord(k[1..]));
      StoreLow(|s| - 1, head, Xor(LoadWord(s[1..]), LoadWord(k[1..])));
      WordXor(s[1..], k[1..]);
      assert XorAll(s, k) == [head] + XorAll(s[1..], k[1..]);
    }
  }

  lemma XorLow(a: byte, b: byte, high: nat, high': nat)
    ensures Xor(a + 256 * high, b + 256 * high') == XorByte(a, b) + 256 * Xor(high, high')
  {
    assert Pow2(8) == 256 by {
      assert Pow2(4) == 16;
    }
    XorSplit(8, a, b, high, high');
  }

  lemma StoreLow(size: nat, low: byte, high: nat)
    ensures StoreWord(size + 1, low + 256 * high) == [low] + StoreWord(size, high)
  {
    assert (low + 256 * high) % 256 == low && (low + 256 * high) / 256 == high;
  }

  predicate IsWordSize(n: nat) {
    n == 4 || n == 8
  }

  /** n % wordSize == 0 */
  predicate Aligned(n: nat, wordSize: nat) {
    if wordSize == 4 then n % 4 == 0 else n % 8 == 0
  }

  /** `*(*uintptr)(&b[i]) ^= kw` */
  method XorWordAt(b: array<byte>, i: nat, size: nat, kw: nat, ghost k: bytes)
    requires i + size <= b.Length && |k| == size && kw == LoadWord(k)
    modifies b
    ensures forall j :: 0 <= j < i || i + size <= j < b.Length ==> b[j] == old(b[j])
    ensures forall j :: i <= j < i + size ==> b[j] == XorByte(old(b[j]), k[j - i])
  {
    var word := StoreWord(size, Xor(LoadWord(b[i..i + size]), kw));
    WordXor(b[i..i + size], k);
    forall j | i <= j < i + size {
      b[j] := word[j - i];
    }
  }

  /** The loop over whole words: k is the key rotated to position pos of the payload. */
  method MaskWords(key: Key, ghost pos: nat, k: bytes, b: array<byte>, start: nat, words: nat, wordSize: nat)
    requires IsWordSize(wordSize)
    requires Aligned(words, wordSize) && start + words <= b.Length
    requires |k| == wordSize && forall j :: 0 <= j < wordSize ==> k[j] == key[(pos + j) % 4]
    modifies b
    ensures MasksRange(key, pos, old(b[..]), b[..], start, start + words)
  {
    var kw := LoadWord(k);
    var i := 0;
    while i < words
      invariant 0 <= i <= words && Aligned(i, wordSize)
      invariant forall j :: start <= j < start + i ==> b[j] == XorByte(old(b[j]), key[(pos + (j - start)) % 4])
      invariant forall j :: 0 <= j < start || start + i <= j < b.Length ==> b[j] == old(b[j])
    {
      RotatedKey(key, k, pos, i, wordSize);
      NextWord(i, words, wordSize);
      XorWordAt(b, start + i, wordSize, kw, k);
      i := i + wordSize;
    }
  }

  lemma NextWord(i: nat, words: nat, wordSize: nat)
    requires IsWordSize(wordSize)
    requires i < words && Aligned(i, wordSize) && Aligned(words, wordSize)
    ensures i + wordSize <= words && Aligned(i + wordSize, wordSize)
  {
  }

  /** After a whole number of words the key has come round to the same rotation. */
  lemma RotatedKey(key: Key, k: bytes, pos: nat, i: nat, wordSize: nat)
    requires IsWordSize(wordSize)
    requires Aligned(i, wordSize)
    requires |k| == wordSize && forall j :: 0 <= j < wordSize ==> k[j] == key[(pos + j) % 4]
    ensures forall j :: 0 <= j < wordSize ==> k[j] == key[(pos + (i + j)) % 4]
  {
    assert i % 4 == 0;
    forall j | 0 <= j < wordSize
      ensures k[j] == key[(pos + (i + j)) % 4]
    {
      ModSkip(pos + j, i);
    }
  }

  /**
   ws/mask.go: bytes up to a word boundary, then whole words, then the rest.
   wordSize is the size of a machine word and address that of b[0].
   */
  method MaskByWord(key: Key, pos0: nat, b: array<byte>, lo: nat, hi: nat, wordSize: nat, address: nat)
    returns (pos: nat)
    requires lo <= hi <= b.Length
    requires IsWordSize(wordSize)
    modifies b
    ensures MasksRange(key, pos0, old(b[..]), b[..], lo, hi)
    ensures pos == (pos0 + (hi - lo)) % 4
  {
    if hi - lo < 2 * wordSize {
      pos := MaskByByte(key, pos0, b, lo, hi);
      return;
    }

    // One byte at a time to a word boundary.
    var start := lo;
    var n := WordOffset(address + lo, wordSize);
    if n != 0 {
      start := lo + (wordSize - n);
    }
    pos := MaskByByte(key, pos0, b, lo, start);
    ghost var aligned := b[..];

    // The key rotated to the current position, as a word.
    var rotation := pos;
    var k := seq(wordSize, i => key[(rotation + i) % 4]);
    var words := WholeWords(hi - start, wordSize);
    var end := start + words;
    MaskWords(key, pos, k, b, start, words, wordSize);
    MasksRangeSplit(key, pos0, pos, old(b[..]), aligned, b[..], lo, start, end);
    ghost var masked := b[..];

    // One byte at a time for what remains; whole words leave the position as it was.
    pos := MaskByByte(key, rotation, b, end, hi);
    ModSkip(pos0 + (start - lo), words);
    MasksRangeSplit(key, pos0, rotation, old(b[..]), masked, b[..], lo, end, hi);
    ModShift(pos0 + (start - lo), hi - end);
    ModSkip(pos0 + (start - lo) + (hi - end), words);
  }

  lemma SplitAt(s: bytes, lo: nat, mid: nat, hi: nat)
    requires lo <= mid <= hi <= |s|
    ensures s[lo..hi] == s[lo..mid] + s[mid..hi]
  {
  }

  /** (n / wordSize) * wordSize */
  function WholeWords(n: nat, wordSize: nat): (words: nat)
    requires IsWordSize(wordSize)
    ensures words <= n && Aligned(words, wordSize) && words % 4 == 0
  {
    Multiples(n / 4);
    Multiples(n / 8);
    if wordSize == 4 then 4 * (n / 4) else 8 * (n / 8)
  }

  lemma Multiples(k: nat)
    ensures (4 * k) % 4 == 0 && (8 * k) % 8 == 0 && (8 * k) % 4 == 0
  {
    ModUnique(4 * k, 4, k, 0);
    ModUnique(8 * k, 8, k, 0);
    ModUnique(8 * k, 4, 2 * k, 0);
  }

  /** address % wordSize */
  function WordOffset(address: nat, wordSize: nat): (offset: nat)
    requires IsWordSize(wordSize)
    ensures offset < wordSize
  {
    if wordSize == 4 then address % 4 else address % 8
  }
}
