/** The packed bit array and the Bloom filter built on it. */
module Bloom {
  import opened Hashes

  // ------------------------------------------------------------------ bits

  function Mask(bit: nat): bv8
    requires bit < 8
  {
    1 << bit
  }

  predicate HasBit(b: bv8, bit: nat)
    requires bit < 8
  {
    b & Mask(bit) != 0
  }

  function WithBit(b: bv8, bit: nat): bv8
    requires bit < 8
  {
    b | Mask(bit)
  }

  function WithoutBit(b: bv8, bit: nat): bv8
    requires bit < 8
  {
    b & !Mask(bit)
  }

  /** Bit `x` of a packed array. */
  predicate Bit(bytes: seq<bv8>, x: nat) {
    x / 8 < |bytes| && HasBit(bytes[x / 8], x % 8)
  }

  /** The set of indices a packed array stands for. */
  function Members(bytes: seq<bv8>): set<nat> {
    set x: nat | x < 8 * |bytes| && Bit(bytes, x)
  }

  /** Index 0 is the lowest bit of a byte. */
  lemma LowestBitFirst()
    ensures WithBit(0, 0) == 0x01 && WithBit(0, 1) == 0x02 && WithBit(0, 2) == 0x04 && WithBit(0, 3) == 0x08
    ensures WithBit(0, 4) == 0x10 && WithBit(0, 5) == 0x20 && WithBit(0, 6) == 0x40 && WithBit(0, 7) == 0x80
  {
  }

  lemma MaskOr(b: bv8, j: nat, k: nat)
    requires j < 8 && k < 8
    ensures HasBit(WithBit(b, j), k) <==> j == k || HasBit(b, k)
  {
  }

  lemma MaskAndNot(b: bv8, j: nat, k: nat)
    requires j < 8 && k < 8
    ensures HasBit(WithoutBit(b, j), k) <==> j != k && HasBit(b, k)
  {
  }

  /** Two indices name the same bit only if they are equal. */
  lemma SameBit(x: nat, y: nat)
    ensures x / 8 == y / 8 && x % 8 == y % 8 <==> x == y
  {
  }

  lemma SetMembers(bytes: seq<bv8>, x: nat)
    requires x < 8 * |bytes|
    ensures Members(bytes[x / 8 := WithBit(bytes[x / 8], x % 8)]) == Members(bytes) + {x}
  {
    var after := bytes[x / 8 := WithBit(bytes[x / 8], x % 8)];
    forall y: nat | y < 8 * |bytes|
      ensures Bit(after, y) <==> y == x || Bit(bytes, y)
    {
      MaskOr(bytes[x / 8], x % 8, y % 8);
      SameBit(x, y);
    }
  }

  lemma ResetMembers(bytes: seq<bv8>, x: nat)
    requires x < 8 * |bytes|
    ensures Members(bytes[x / 8 := WithoutBit(bytes[x / 8], x % 8)]) == Members(bytes) - {x}
  {
    var after := bytes[x / 8 := WithoutBit(bytes[x / 8], x % 8)];
    forall y: nat | y < 8 * |bytes|
      ensures Bit(after, y) <==> y != x && Bit(bytes, y)
    {
      MaskAndNot(bytes[x / 8], x % 8, y % 8);
      SameBit(x, y);
    }
  }

  /** A byte is zero exactly when none of its bits is set. */
  lemma ZeroByte(b: bv8)
    ensures b == 0 <==> forall k: nat :: k < 8 ==> !HasBit(b, k)
  {
    if b != 0 {
      assert HasBit(b, 0) || HasBit(b, 1) || HasBit(b, 2) || HasBit(b, 3)
          || HasBit(b, 4) || HasBit(b, 5) || HasBit(b, 6) || HasBit(b, 7);
    }
  }

  lemma NonzeroByte(bytes: seq<bv8>, i: nat)
    requires i < |bytes|
    ensures bytes[i] != 0 <==> exists x: nat :: 8 * i <= x < 8 * i + 8 && x in Members(bytes)
  {
    ZeroByte(bytes[i]);
    if bytes[i] != 0 {
      var k: nat :| k < 8 && HasBit(bytes[i], k);
      var x := 8 * i + k;
      assert x / 8 == i && x % 8 == k;
      assert x in Members(bytes);
    }
  }

  class BitSet {
    const n: nat
    const bitArr: array<bv8>
    var count: nat

    ghost function Bits(): set<nat>
      reads bitArr
    {
      Members(bitArr[..])
    }

    ghost predicate Valid() {
      bitArr.Length == if n % 8 == 0 then n / 8 else n / 8 + 1
    }

    /** The array is not cleared, so the initial set is arbitrary. */
    constructor (n: nat)
      ensures Valid() && this.n == n && fresh(bitArr) && count == 0
    {
      this.n := n;
      count := 0;
      bitArr := new bv8[if n % 8 == 0 then n / 8 else n / 8 + 1];
    }

    /** Every index below `n` has a bit; at most seven padding bits follow. */
    lemma Covers()
      requires Valid()
      ensures n <= 8 * bitArr.Length < n + 8
    {
    }

    method Set(x: nat)
      requires Valid() && x < 8 * bitArr.Length
      modifies bitArr, this`count
      ensures Bits() == old(Bits()) + {x}
      ensures count == (old(count) + 1) % WORD
    {
      SetMembers(bitArr[..], x);
      bitArr[x / 8] := WithBit(bitArr[x / 8], x % 8);
      assert bitArr[..] == old(bitArr[..])[x / 8 := WithBit(old(bitArr[..])[x / 8], x % 8)];
      count := (count + 1) % WORD;
    }

    method Reset(x: nat)
      requires Valid() && x < 8 * bitArr.Length
      modifies bitArr, this`count
      ensures Bits() == old(Bits()) - {x}
      ensures count == (old(count) + WORD - 1) % WORD
    {
      ResetMembers(bitArr[..], x);
      bitArr[x / 8] := WithoutBit(bitArr[x / 8], x % 8);
      assert bitArr[..] == old(bitArr[..])[x / 8 := WithoutBit(old(bitArr[..])[x / 8], x % 8)];
      count := (count + WORD - 1) % WORD;
    }

    method Test(x: nat) returns (r: bool)
      requires Valid() && x < 8 * bitArr.Length
      ensures r <==> x in Bits()
    {
      r := HasBit(bitArr[x / 8], x % 8);
    }

    /** Also sees the padding bits above `n`; without those it is the non-emptiness of the set. */
    method Some() returns (r: bool)
      requires Valid()
      ensures r <==> Bits() != {}
      ensures (forall x :: x in Bits() ==> x < n) ==> (r <==> exists x: nat :: x < n && x in Bits())
    {
      for i := 0 to bitArr.Length
        invariant forall x: nat :: x < 8 * i ==> x !in Bits()
      {
        NonzeroByte(bitArr[..], i);
        if bitArr[i] != 0 {
          return true;
        }
      }
      return false;
    }
  }

  // ------------------------------------------------------------------ the filter

  /** The three positions of a key. */
  function Indices(n: nat, s: Str): set<nat>
    requires n > 0
  {
    {BKDR(s) % n, (AP(s) as int) % n, DJB(s) % n}
  }

  /** Some key of a history hits position `x`, with one of its three hashes. */
  ghost predicate Hit(n: nat, keys: seq<Str>, x: nat)
    requires n > 0
  {
    exists i :: 0 <= i < |keys| &&
      (x == BKDR(keys[i]) % n || x == (AP(keys[i]) as int) % n || x == DJB(keys[i]) % n)
  }

  /** The set of bits after a history of `set` calls. */
  function AfterSets(n: nat, initial: set<nat>, keys: seq<Str>): set<nat>
    requires n > 0
  {
    if keys == [] then initial
    else AfterSets(n, initial, keys[..|keys| - 1]) + Indices(n, keys[|keys| - 1])
  }

  lemma HitSnoc(n: nat, keys: seq<Str>, key: Str, x: nat)
    requires n > 0
    ensures Hit(n, keys + [key], x) <==> Hit(n, keys, x) || x in Indices(n, key)
  {
    var all := keys + [key];
    assert all[|keys|] == key;
    if Hit(n, keys, x) {
      var i :| 0 <= i < |keys| &&
        (x == BKDR(keys[i]) % n || x == (AP(keys[i]) as int) % n || x == DJB(keys[i]) % n);
      assert all[i] == keys[i];
    }
  }

  /** A bit is set after a history exactly if it was set before or some key of the history hit it. */
  lemma {:induction false} AfterSetsExact(n: nat, initial: set<nat>, keys: seq<Str>, x: nat)
    requires n > 0
    ensures x in AfterSets(n, initial, keys) <==> x in initial || Hit(n, keys, x)
  {
    if keys != [] {
      var last := |keys| - 1;
      AfterSetsExact(n, initial, keys[..last], x);
      HitSnoc(n, keys[..last], keys[last], x);
      assert keys == keys[..last] + [keys[last]];
    }
  }

  class BloomFilter {
    const n: nat
    const bitSet: BitSet
    ghost const initial: set<nat>
    ghost var history: seq<Str>

    /** The bits are exactly those the history explains. */
    ghost predicate Valid()
      reads this, bitSet.bitArr
    {
      && n > 0 && bitSet.n == n && bitSet.Valid()
      && bitSet.Bits() == AfterSets(n, initial, history)
    }

    constructor (n: nat)
      requires n > 0
      ensures Valid() && this.n == n && history == [] && fresh(bitSet) && fresh(bitSet.bitArr)
      ensures initial == bitSet.Bits()
    {
      this.n := n;
      var b := new BitSet(n);
      bitSet, initial, history := b, b.Bits(), [];
    }

    method Set(s: Str)
      requires Valid()
      modifies this, bitSet`count, bitSet.bitArr
      ensures Valid() && history == old(history) + [s]
      ensures bitSet.Bits() == old(bitSet.Bits()) + {BKDR(s) % n, (AP(s) as int) % n, DJB(s) % n}
    {
      var h1 := HashBKDR(s);
      var h2 := HashAP(s);
      var h3 := HashDJB(s);
      SetAll(h1 % n, (h2 as int) % n, h3 % n);
      history := history + [s];
    }

    method SetAll(x: nat, y: nat, z: nat)
      requires bitSet.Valid() && bitSet.n == n && x < n && y < n && z < n
      modifies bitSet`count, bitSet.bitArr
      ensures bitSet.Bits() == old(bitSet.Bits()) + {x, y, z}
    {
      bitSet.Covers();
      bitSet.Set(x);
      bitSet.Set(y);
      bitSet.Set(z);
    }

    /** Whether each of the three positions is set, that is, was set initially or hit by a key of the history. */
    method Test(s: Str) returns (r: bool)
      requires Valid()
      ensures r <==>
        BKDR(s) % n in bitSet.Bits() && (AP(s) as int) % n in bitSet.Bits() && DJB(s) % n in bitSet.Bits()
      ensures r <==>
        && (BKDR(s) % n in initial || Hit(n, history, BKDR(s) % n))
        && ((AP(s) as int) % n in initial || Hit(n, history, (AP(s) as int) % n))
        && (DJB(s) % n in initial || Hit(n, history, DJB(s) % n))
      ensures s in history ==> r
    {
      AfterSetsExact(n, initial, history, BKDR(s) % n);
      AfterSetsExact(n, initial, history, (AP(s) as int) % n);
      AfterSetsExact(n, initial, history, DJB(s) % n);
      bitSet.Covers();
      var b := HashBKDR(s);
      var bit := bitSet.Test(b % n);
      if !bit {
        return false;
      }
      var a := HashAP(s);
      bit := bitSet.Test((a as int) % n);
      if !bit {
        return false;
      }
      var d := HashDJB(s);
      bit := bitSet.Test(d % n);
      if !bit {
        return false;
      }
      return true;
    }
  }

  /** Storing one known key in a filter of 10000 bits sets the bits 947, 2510 and 636. */
  method StoreKey(filter: BloomFilter)
    requires filter.Valid() && filter.n == 10000
    modifies filter, filter.bitSet`count, filter.bitSet.bitArr
    ensures filter.Valid() && filter.bitSet.Bits() == old(filter.bitSet.Bits()) + {947, 2510, 636}
  {
    KeyHashes();
    filter.Set(KEY);
  }
}
