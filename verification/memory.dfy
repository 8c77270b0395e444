/** The byte-addressable memory and its little-endian word accessors. */
module Memory {
  import opened Bits

  /** `MEM_SIZE`: one mebibyte. */
  const MEM_SIZE: nat := 1024 * 1024

  /** The four bytes `addr .. addr + 3` exist. */
  predicate WordInBounds(mem: seq<bv8>, addr: int)
  {
    0 <= addr && addr + 3 < |mem|
  }

  /** The `k`-th least significant byte of `w`. */
  function ByteOf(w: bv32, k: nat): (b: bv8)
    requires k < 4
  {
    if k == 0 then (w & 0xFF) as bv8
    else if k == 1 then ((w >> 8) & 0xFF) as bv8
    else if k == 2 then ((w >> 16) & 0xFF) as bv8
    else (w >> 24) as bv8
  }

  /** `load_word`: the byte at the lowest address is the least significant one. */
  function LoadWord(mem: seq<bv8>, addr: Address): (w: bv32)
    requires WordInBounds(mem, addr)
    ensures ByteOf(w, 0) == mem[addr]
    ensures ByteOf(w, 1) == mem[addr + 1]
    ensures ByteOf(w, 2) == mem[addr + 2]
    ensures ByteOf(w, 3) == mem[addr + 3]
  {
    (mem[addr] as bv32)
    | (mem[addr + 1] as bv32 << 8)
    | (mem[addr + 2] as bv32 << 16)
    | (mem[addr + 3] as bv32 << 24)
  }

  /** A word is determined by its four bytes. */
  lemma BytesDetermineWord(v: bv32, w: bv32)
    requires forall k :: 0 <= k < 4 ==> ByteOf(v, k) == ByteOf(w, k)
    ensures v == w
  {
    assert ByteOf(v, 0) == ByteOf(w, 0);
    assert ByteOf(v, 1) == ByteOf(w, 1);
    assert ByteOf(v, 2) == ByteOf(w, 2);
    assert ByteOf(v, 3) == ByteOf(w, 3);
  }

  /**
   * `store_word`: writes the four bytes of `val`, low byte first. Loading the word back
   * returns `val`, and no byte outside `addr .. addr + 3` changes.
   */
  function StoreWord(mem: seq<bv8>, addr: Address, val: bv32): (r: seq<bv8>)
    requires WordInBounds(mem, addr)
    ensures |r| == |mem|
    ensures r[addr] == ByteOf(val, 0)
    ensures LoadWord(r, addr) == val
    ensures forall i :: 0 <= i < |mem| && !(addr <= i < addr + 4) ==> r[i] == mem[i]
  {
    var r := mem[addr := (val & 0xFF) as bv8]
                [addr + 1 := ((val >> 8) & 0xFF) as bv8]
                [addr + 2 := ((val >> 16) & 0xFF) as bv8]
                [addr + 3 := ((val >> 24) & 0xFF) as bv8];
    BytesDetermineWord(LoadWord(r, addr), val);
    r
  }

  /** A store leaves every word that does not overlap it readable as before. */
  lemma LoadStoreDisjoint(mem: seq<bv8>, a: Address, val: bv32, b: Address)
    requires WordInBounds(mem, a) && WordInBounds(mem, b)
    requires b + 4 <= a || a + 4 <= b
    ensures LoadWord(StoreWord(mem, a, val), b) == LoadWord(mem, b)
  {
    var r := StoreWord(mem, a, val);
    assert r[b] == mem[b] && r[b + 1] == mem[b + 1] && r[b + 2] == mem[b + 2] && r[b + 3] == mem[b + 3];
    BytesDetermineWord(LoadWord(r, b), LoadWord(mem, b));
  }

  /** Storing a word that is already there changes nothing. */
  lemma StoreLoadIdentity(mem: seq<bv8>, a: Address)
    requires WordInBounds(mem, a)
    ensures StoreWord(mem, a, LoadWord(mem, a)) == mem
  {
    var r := StoreWord(mem, a, LoadWord(mem, a));
    var w := LoadWord(mem, a);
    assert r[a + 1] == mem[a + 1] && r[a + 2] == mem[a + 2] && r[a + 3] == mem[a + 3] by {
      assert ByteOf(LoadWord(r, a), 1) == ByteOf(w, 1);
      assert ByteOf(LoadWord(r, a), 2) == ByteOf(w, 2);
      assert ByteOf(LoadWord(r, a), 3) == ByteOf(w, 3);
    }
    assert forall i :: 0 <= i < |mem| ==> r[i] == mem[i];
  }
}
