/**
  The growable character buffer the encoder writes its code into.

  The buffer is an array of `capacity` characters whose first `length` cells
  hold the appended characters, followed by a NUL terminator. It starts at 64
  cells and, when more room is needed, doubles until the request fits, so its
  capacity is always 64 times a power of two.
 */
module Builder {

  const InitialCapacity: nat := 64

  /** The terminator kept after the content. */
  const Nul: char := '\0'

  function Pow2(k: nat): (p: nat)
    ensures p >= 1
  {
    if k == 0 then 1 else 2 * Pow2(k - 1)
  }

  /**
    Moves a block into a larger one: the new block starts with the old block's
    cells, and the cells past them are unspecified.
   */
  method Realloc(block: array<char>, size: nat) returns (moved: array<char>)
    requires block.Length <= size
    ensures fresh(moved) && moved.Length == size
    ensures moved[..block.Length] == block[..]
  {
    moved := new char[size];
    var k := 0;
    while k < block.Length
      invariant 0 <= k <= block.Length
      invariant forall m | 0 <= m < k :: moved[m] == block[m]
    {
      moved[k] := block[k];
      k := k + 1;
    }
  }

  class StringBuilder {
    var data: array<char>
    var length: nat
    var capacity: nat
    /** How many times the capacity has doubled since creation. */
    ghost var doublings: nat

    ghost predicate Valid()
      reads this, data
    {
      data.Length == capacity &&
      length < capacity &&
      data[length] == Nul &&
      capacity == InitialCapacity * Pow2(doublings)
    }

    /** The characters appended so far, in append order. */
    ghost function Contents(): seq<char>
      reads this, data
      requires Valid()
    {
      data[..length]
    }

    /** An empty buffer of the initial capacity holding only the terminator. */
    constructor ()
      ensures Valid() && fresh(data)
      ensures length == 0 && capacity == InitialCapacity && data[0] == Nul
      ensures Contents() == []
    {
      var block := new char[InitialCapacity];
      block[0] := Nul;
      data := block;
      length := 0;
      capacity := InitialCapacity;
      doublings := 0;
    }

    /**
      Makes `capacity` exceed `needed` by doubling it as often as necessary, then
      moves the content into a block of the new capacity. Nothing changes when
      `needed` is already below the capacity.
     */
    method Resize(needed: int)
      requires Valid()
      modifies this
      ensures Valid() && length == old(length)
      ensures needed < capacity
      ensures old(capacity) <= capacity && old(doublings) <= doublings
      ensures needed < old(capacity) ==> capacity == old(capacity) && data == old(data)
      ensures old(capacity) <= needed ==> capacity <= 2 * needed && fresh(data)
      ensures data[..old(capacity)] == old(data[..])
      ensures Contents() == old(Contents())
    {
      if needed >= capacity {
        while needed >= capacity
          invariant old(capacity) <= capacity <= 2 * needed
          invariant old(doublings) <= doublings
          invariant data == old(data) && length == old(length)
          invariant capacity == InitialCapacity * Pow2(doublings)
          decreases needed - capacity
        {
          capacity := capacity * 2;
          doublings := doublings + 1;
        }
        data := Realloc(data, capacity);
        assert data[length] == data[..old(capacity)][length];
      }
    }

    /** Appends `c` and moves the terminator one cell on. */
    method AppendChar(c: char)
      requires Valid()
      modifies this, data
      ensures Valid()
      ensures length == old(length) + 1
      ensures data[old(length)] == c && data[length] == Nul
      ensures data[..old(length)] == old(data[..length])
      ensures Contents() == old(Contents()) + [c]
      ensures old(capacity) <= capacity && length + 1 < capacity
      ensures old(length) + 2 < old(capacity) ==> capacity == old(capacity) && data == old(data)
      ensures old(capacity) <= old(length) + 2 ==> capacity <= 2 * (old(length) + 2) && fresh(data)
      ensures data == old(data) || fresh(data)
    {
      Resize(length + 2);
      data[length] := c;
      length := length + 1;
      data[length] := Nul;
    }

    /** The appended characters in append order, followed by the terminator. */
    method ToString() returns (s: seq<char>)
      requires Valid()
      ensures s == Contents() + [Nul]
      ensures |s| == length + 1 && s[length] == Nul
    {
      s := data[..length + 1];
    }
  }
}
