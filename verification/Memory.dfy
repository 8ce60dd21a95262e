/** The byte array of a loaded program and the checked accesses to it.
    An address va denotes mem[va - base]; None stands for the error AddressOutOfRange. */
module Memory {
  import opened Words

  function VaToIndex(base: u64, len: nat, va: u64): (i: Option<nat>)
    ensures i == if base <= va < base + len then Some(va - base) else None
  {
    if va < base then None
    else if va - base >= len then None
    else Some(va - base)
  }

  function ReadU8(base: u64, mem: bytes, va: u64): Option<byte> {
    match VaToIndex(base, |mem|, va)
    case None => None
    case Some(i) => Some(mem[i])
  }

  /** The n-byte little-endian word at va. */
  function ReadWord(base: u64, mem: bytes, va: u64, n: nat): (w: Option<nat>)
    ensures w.Some? ==> w.value < Power256(n)
  {
    match VaToIndex(base, |mem|, va)
    case None => None
    case Some(i) => if i + n > |mem| then None else Some(LeValue(mem[i..i + n]))
  }

  function ReadU64(base: u64, mem: bytes, va: u64): Option<u64> {
    Powers();
    match ReadWord(base, mem, va, 8)
    case None => None
    case Some(w) => Some(w)
  }

  function ReadU32(base: u64, mem: bytes, va: u64): Option<u32> {
    Powers();
    match ReadWord(base, mem, va, 4)
    case None => None
    case Some(w) => Some(w)
  }

  /** The memory after storing the n low bytes of v at va. */
  function WriteWord(base: u64, mem: bytes, va: u64, n: nat, v: nat): Option<bytes> {
    match VaToIndex(base, |mem|, va)
    case None => None
    case Some(i) => if i + n > |mem| then None else Some(Splice(mem, i, LeBytes(n, v)))
  }

  /** A store is read back as the stored value, cut to its width. */
  lemma {:induction false} WriteThenRead(base: u64, mem: bytes, va: u64, n: nat, v: nat)
    requires WriteWord(base, mem, va, n, v).Some?
    ensures ReadWord(base, WriteWord(base, mem, va, n, v).value, va, n) == Some(v % Power256(n))
  {
    LeRoundTrip(n, v);
    var i, b := va - base, LeBytes(n, v);
    assert Splice(mem, i, b)[i..i + n] == b;
  }

  /** A store changes no word outside its own window. */
  lemma {:induction false} WriteKeepsOthers(base: u64, mem: bytes, va: u64, n: nat, v: nat, va': u64, n': nat)
    requires WriteWord(base, mem, va, n, v).Some?
    requires va' + n' <= va || va + n <= va'
    ensures ReadWord(base, WriteWord(base, mem, va, n, v).value, va', n') == ReadWord(base, mem, va', n')
  {
    var i, b := va - base, LeBytes(n, v);
    if base <= va' && va' - base + n' <= |mem| {
      var j := va' - base;
      SpliceKeeps(mem, i, b, j, mem[j..j + n']);
    }
  }

  /** An access is mapped exactly when all its bytes are; what it reads is the number of those bytes in
      little-endian order, and what it writes are the digits of the value. */
  lemma {:induction false} AccessMeaning(base: u64, mem: bytes, va: u64, n: nat, v: nat)
    requires 0 < n
    ensures var inside := base <= va && va + n <= base + |mem|;
            && (ReadWord(base, mem, va, n).Some? <==> inside) && (WriteWord(base, mem, va, n, v).Some? <==> inside)
            && (inside ==>
                  var i, m := va - base, WriteWord(base, mem, va, n, v).value;
                  && |m| == |mem| && (forall j :: 0 <= j < |mem| && !(i <= j < i + n) ==> m[j] == mem[j])
                  && (forall k :: 0 <= k < n ==> m[i + k] == v / Power256(k) % 256)
                  && (forall k :: 0 <= k < n ==> mem[i + k] == ReadWord(base, mem, va, n).value / Power256(k) % 256))
    ensures ReadU8(base, mem, va) == if base <= va < base + |mem| then Some(mem[va - base]) else None
  {
    hide LeBytes, LeValue, Power256;
    if base <= va && va + n <= base + |mem| {
      var i := va - base;
      forall k | 0 <= k < n
        ensures LeBytes(n, v)[k] == v / Power256(k) % 256
        ensures mem[i + k] == LeValue(mem[i..i + n]) / Power256(k) % 256
      {
        LeDigit(n, v, k);
        LeDigit(n, LeValue(mem[i..i + n]), k);
        LeValueUnique(mem[i..i + n]);
      }
    }
  }

  method ReadByte(base: u64, mem: array<byte>, va: u64) returns (r: Option<byte>)
    ensures r == ReadU8(base, mem[..], va)
  {
    var i := VaToIndex(base, mem.Length, va);
    if i == None {
      return None;
    }
    return Some(mem[i.value]);
  }

  method Read4(base: u64, mem: array<byte>, va: u64) returns (r: Option<u32>)
    ensures r == ReadU32(base, mem[..], va)
  {
    var i := VaToIndex(base, mem.Length, va);
    if i == None || i.value + 4 > mem.Length {
      return None;
    }
    Powers();
    assert mem[i.value..i.value + 4] == mem[..][i.value..i.value + 4];
    return Some(LeValue(mem[i.value..i.value + 4]));
  }

  method Read8(base: u64, mem: array<byte>, va: u64) returns (r: Option<u64>)
    ensures r == ReadU64(base, mem[..], va)
  {
    var i := VaToIndex(base, mem.Length, va);
    if i == None || i.value + 8 > mem.Length {
      return None;
    }
    Powers();
    assert mem[i.value..i.value + 8] == mem[..][i.value..i.value + 8];
    return Some(LeValue(mem[i.value..i.value + 8]));
  }

  /** `write_u32` (n == 4) and `write_u64` (n == 8). */
  method Write(base: u64, mem: array<byte>, va: u64, n: nat, v: nat) returns (ok: bool)
    modifies mem
    ensures ok == WriteWord(base, old(mem[..]), va, n, v).Some?
    ensures mem[..] == if ok then WriteWord(base, old(mem[..]), va, n, v).value else old(mem[..])
  {
    var i := VaToIndex(base, mem.Length, va);
    if i == None || i.value + n > mem.Length {
      return false;
    }
    CopyInto(mem, i.value, LeBytes(n, v));
    return true;
  }
}
