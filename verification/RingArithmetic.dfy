/** The index arithmetic of the message ring of ksps/batch.go: 64-bit unsigned, masked with size - 1. */
module RingArithmetic {
  import opened Bytes

  const UINT32_LIMIT: int := 0x1_0000_0000
  const DEFAULT_RING_SIZE: int := 16384

  /** A uint64 register holding x. */
  function U64(x: int): (r: nat)
    ensures r < UINT64_LIMIT
  {
    x % UINT64_LIMIT
  }

  /** bits.Len32: how many bits x needs. */
  function Len32(x: nat): nat {
    if x == 0 then 0 else 1 + Len32(x / 2)
  }

  /** The number of slots made for a requested ring size, after the truncation to 32 bits. */
  function RingSize(request: int): nat {
    Pow2(Len32(((if request <= 0 then DEFAULT_RING_SIZE else request) - 1) % UINT32_LIMIT))
  }

  // ----- The size -----

  lemma {:induction false} Len32Least(x: nat)
    ensures x < Pow2(Len32(x))
    ensures forall j: nat :: x < Pow2(j) ==> Len32(x) <= j
  {
    if x != 0 {
      Len32Least(x / 2);
      forall j: nat | x < Pow2(j)
        ensures Len32(x) <= j
      {
        if j > 0 {
          assert x / 2 < Pow2(j - 1);
        }
      }
    }
  }

  lemma {:induction false} Pow2Monotone(i: nat, j: nat)
    requires i <= j
    ensures Pow2(i) <= Pow2(j)
  {
    if i < j {
      Pow2Monotone(i, j - 1);
    }
  }

  lemma {:induction false} Pow2Add(i: nat, j: nat)
    ensures Pow2(i + j) == Pow2(i) * Pow2(j)
  {
    if i > 0 {
      Pow2Add(i - 1, j);
      Double(Pow2(i - 1), Pow2(j));
    }
  }

  lemma Pow2Constants()
    ensures Pow2(14) == 16384 && Pow2(32) == UINT32_LIMIT && Pow2(64) == UINT64_LIMIT
  {
    assert Pow2(7) == 128 && Pow2(8) == 256;
    hide Pow2;
    Pow2Add(7, 7);
    Pow2Add(8, 8);
    Pow2Add(16, 16);
    Pow2Add(32, 32);
  }

  /** The ring has a power of two slots, at most 2^32. */
  lemma RingSizePower(request: int) returns (k: nat)
    ensures k <= 32 && RingSize(request) == Pow2(k)
  {
    hide Pow2, Len32;
    var x := ((if request <= 0 then DEFAULT_RING_SIZE else request) - 1) % UINT32_LIMIT;
    k := Len32(x);
    Pow2Constants();
    Len32Least(x);
    assert x < Pow2(32);
  }

  /** The ring is as large as requested exactly when the request fits 32 bits, and then it is the smallest such power of two. */
  lemma RingSizeLeast(request: int)
    requires request >= 1
    ensures RingSize(request) >= request <==> request <= UINT32_LIMIT
    ensures request <= UINT32_LIMIT ==> forall j: nat :: Pow2(j) >= request ==> RingSize(request) <= Pow2(j)
  {
    hide Pow2, Len32;
    var k := RingSizePower(request);
    Pow2Constants();
    Pow2Monotone(k, 32);
    if request <= UINT32_LIMIT {
      var x := request - 1;
      assert x % UINT32_LIMIT == x;
      Len32Least(x);
      forall j: nat | Pow2(j) >= request
        ensures RingSize(request) <= Pow2(j)
      {
        Pow2Monotone(Len32(x), j);
      }
    }
  }

  lemma RingSizeDefault(request: int)
    requires request <= 0
    ensures RingSize(request) == DEFAULT_RING_SIZE
  {
    RingSizeLeast(DEFAULT_RING_SIZE);
    Pow2Constants();
    assert RingSize(request) == RingSize(DEFAULT_RING_SIZE);
    assert RingSize(DEFAULT_RING_SIZE) <= Pow2(14);
  }

  // ----- Indices -----

  /** The place i behind x, going round. */
  function Place(x: nat, i: nat, size: nat): (r: nat)
    requires x < size && i <= size
    ensures r < size
  {
    if x + i < size then x + i else x + i - size
  }

  /** How many places head is ahead of tail, going round. */
  function Distance(head: nat, tail: nat, size: nat): (r: nat)
    requires head < size && tail < size
    ensures r < size
    ensures Place(tail, r, size) == head
  {
    if head >= tail then head - tail else head + size - tail
  }

  /** size is a power of two, and mask is size - 1. */
  ghost predicate Masks(mask: nat, size: nat) {
    exists k: nat :: k <= 32 && size == Pow2(k) && mask == size - 1
  }

  lemma MaskIsRemainder(x: int, mask: nat, size: nat)
    requires Masks(mask, size)
    ensures size >= 1 && And(U64(x), mask) == x % size
  {
    var k: nat :| k <= 32 && size == Pow2(k) && mask == size - 1;
    AndLowBits(k, U64(x));
    Pow2Constants();
    Pow2Add(k, 64 - k);
    RemainderTwice(x, size, Pow2(64 - k));
  }

  lemma RemainderTwice(x: int, m: nat, c: nat)
    requires m >= 1 && c >= 1 && m * c >= 1
    ensures (x % (m * c)) % m == x % m
  {
    var q, r := x / (m * c), x % (m * c);
    assert x == m * c * q + r;
    assert m * c * q == m * (c * q);
    assert r == m * (r / m) + r % m;
    assert m * (c * q) + m * (r / m) == m * (c * q + r / m);
    ModUnique(x, m, c * q + r / m, r % m);
  }

  lemma RemainderPlace(x: nat, i: nat, size: nat)
    requires x < size && i <= size
    ensures (x + i) % size == Place(x, i, size)
  {
    if x + i < size {
      ModUnique(x + i, size, 0, x + i);
    } else {
      ModUnique(x + i, size, 1, x + i - size);
    }
  }

  /** (x + i) & mask is the place i behind x. */
  lemma MaskedPlace(x: nat, i: nat, mask: nat, size: nat)
    requires Masks(mask, size) && x < size && i <= size
    ensures And(U64(x + i), mask) == Place(x, i, size)
  {
    MaskIsRemainder(x + i, mask, size);
    RemainderPlace(x, i, size);
  }

  /** (head - tail) & mask, for all the wrap-around of the subtraction, is the distance; so is the sum used when head < tail. */
  lemma MaskedDistance(head: nat, tail: nat, mask: nat, size: nat)
    requires Masks(mask, size) && head < size && tail < size
    ensures And(U64(head - tail), mask) == Distance(head, tail, size)
    ensures head < tail ==> U64(U64(U64(mask + 1) - tail) + head) == Distance(head, tail, size)
  {
    hide And, Masks, U64;
    MaskIsRemainder(head - tail, mask, size);
    SizeBound(mask, size);
    DistanceIsRemainder(head, tail, size);
    if head < tail {
      Register(mask + 1);
      Register(size - tail);
      Register(size - tail + head);
    }
  }

  lemma Register(x: nat)
    ensures x < UINT64_LIMIT ==> U64(x) == x
  {
  }

  lemma DistanceIsRemainder(head: nat, tail: nat, size: nat)
    requires head < size && tail < size
    ensures (head - tail) % size == Distance(head, tail, size)
  {
    if head >= tail {
      ModUnique(head - tail, size, 0, head - tail);
    } else {
      ModUnique(head - tail, size, -1, head + size - tail);
    }
  }

  lemma SizeBound(mask: nat, size: nat)
    requires Masks(mask, size)
    ensures 1 <= size <= UINT32_LIMIT && mask == size - 1
  {
    var k: nat :| k <= 32 && size == Pow2(k) && mask == size - 1;
    Pow2Constants();
    Pow2Monotone(k, 32);
  }
}
