/** The flat memory: `Size` cells addressed 0 .. Size-1, reached only through
    the bounds-checked `LoadByte` and `StoreByte`, except by `ClearMemory`
    (conversions.py:2-44). */
module ByteStore {
  import opened Outcomes

  /** Number of addressable cells. */
  const Size: int := 32

  /** The memory: always exactly `Size` cells. A cell holds whatever integer was
      last stored into it; only the typed stores keep cells within 0 .. 255. */
  type Mem = m: seq<int> | |m| == Size witness seq(32, _ => 0)

  predicate InBounds(address: int) {
    0 <= address < Size
  }

  predicate IsByte(x: int) {
    0 <= x < 256
  }

  /** Every cell holds a value a physical byte could hold. */
  predicate AllBytes(m: Mem) {
    forall i :: 0 <= i < Size ==> IsByte(m[i])
  }

  /** Result of a store: the new memory and whether a "Seg fault" was reported,
      i.e. whether some byte of the store was refused. */
  datatype Stored = Stored(mem: Mem, segFault: bool)

  /** Reads one cell; an address outside the memory yields `None`. */
  function LoadByte(m: Mem, address: int): (r: Ret<int>)
    ensures r.Null? <==> !InBounds(address)
    ensures !r.Raised?
    ensures InBounds(address) ==> r == Value(m[address])
  {
    if address >= Size || address < 0 then Null else Value(m[address])
  }

  /** Writes one cell with the value exactly as given (no reduction modulo 256);
      an address outside the memory is refused and nothing changes. */
  function StoreByte(m: Mem, byte: int, address: int): (r: Stored)
    ensures r.segFault <==> !InBounds(address)
    ensures r.segFault ==> r.mem == m
    ensures InBounds(address) ==> r.mem[address] == byte
    ensures forall i :: 0 <= i < Size && i != address ==> r.mem[i] == m[i]
  {
    if address >= Size || address < 0 then Stored(m, true) else Stored(m[address := byte], false)
  }

  /** Read-over-write: a load sees the stored value at the stored address and
      the old contents everywhere else; a refused store is invisible. */
  lemma LoadAfterStoreByte(m: Mem, byte: int, a: int, b: int)
    ensures LoadByte(StoreByte(m, byte, a).mem, b)
         == (if a == b && InBounds(a) then Value(byte) else LoadByte(m, b))
  {
  }

  /** Resets every cell to zero, one address after the other. */
  method ClearMemory(m: Mem) returns (r: Mem)
    ensures forall i :: 0 <= i < Size ==> r[i] == 0
    ensures AllBytes(r)
  {
    r := m;
    var i := 0;
    while i < |r|
      invariant 0 <= i <= Size
      invariant forall j :: 0 <= j < i ==> r[j] == 0
    {
      r := r[i := 0];
      i := i + 1;
    }
  }
}
