# Typed memory of `conversions.py`, modelled in Dafny

`conversions.py` is a teaching tool for integer representation. It has a flat
memory of `Size` = 32 cells. Bounds-checked byte access sits on top of it, and on
that four typed accessors: unsigned 8-bit, two's-complement signed 8-bit, and
big-endian unsigned and signed 16-bit. A small variable layer binds names to an
address and a type name. Its instructions (`copy_var`, `add`, `less_than`,
`less_than_or_equal`) read values through the typed loads and write them back
through the typed stores, so the results wrap silently to the destination's
width.

The model is functional. Memory is a value `Mem` (a `seq<int>` of length 32),
and the registry is a `map<string, Binding>`. Both are passed explicitly instead
of living in module globals. Each operation returns its result:

- Loads return `Ret<int>`, which has three cases, as the Python code does:
  - `Value(v)`: the load produced a value.
  - `Null`: the function returned `None`. This happens for `load_byte` and
    `load_uint8` at a bad address, and for `get_var` of an unknown name or type name.
  - `Raised`: the `TypeError` Python raises when that `None` reaches `>`, `*`,
    `+` or `<`. This happens in `load_sint8`, `load_uint16`, `load_sint16`, `add`
    and the comparisons.
- Stores return `Stored(mem, segFault)`. `segFault` says whether some byte store
  was refused. In the source, a refused store only prints "Seg fault".
- Writing instructions return `Exec`: `Ran(mem, segFault)`, or `Crashed` for an
  uncaught `TypeError`. On every crashing path the exception is raised before
  anything is written, so `Crashed` carries no memory.

Modules:

- `Outcomes`: the `Ret` type.
- `ByteStore`: `LoadByte`, `StoreByte` and `ClearMemory`.
- `Codec`: the eight typed loads and stores, the reference wrap `SignedWrap`, and
  the round-trip and boundary laws.
- `Variables`: `Declare` (`var`), `GetVar`, `SetVar`, the reference wrap
  `WrapTo`, and the set/get, frame and aliasing laws.
- `Instructions`: `CopyVar`, `Add`, `LessThan` and `LessThanOrEqual`, with their laws.

Python's `//` and `%` round toward negative infinity. Dafny's `/` and `%` are
Euclidean. For the positive divisors used here (256 and 65536) the two agree, so
the arithmetic carries over unchanged. Integers are unbounded in both languages.

Points where the code behaves differently from what a reader might expect (the
model follows the code):

- `store_byte` stores its value as given. It does not reduce it modulo 256.
  Only the typed stores reduce. A cell can therefore hold any integer, and the
  typed loads decode whatever is there. `AllBytes` is the invariant the typed
  stores keep (`TypedStoresKeepBytes`, `SetVar`).
- Variables are named entries in one registry.
- `add` takes three operands: `add(src1, src2, dest)`. Its second source may be
  an integer literal.
- A 16-bit store that straddles an end of memory is not all-or-nothing. At
  address `Size - 1` it writes the high byte. At address `-1` it writes the low
  byte into cell 0.

## Model

| member | source | states |
|---|---|---|
| ByteStore.LoadByte | conversions.py:31-36 | yields `None` exactly when the address is outside [0, Size); never raises; otherwise yields the cell's content |
| ByteStore.StoreByte | conversions.py:39-44 | reports a fault exactly when the address is outside [0, Size), and then memory is unchanged; otherwise the cell holds the value exactly as given (no reduction modulo 256), and every other cell is unchanged |
| ByteStore.LoadAfterStoreByte | conversions.py:31-44 | read-over-write: after a store, a load at the stored in-range address sees the stored value; a load anywhere else, or after a refused store, sees the old contents |
| ByteStore.ClearMemory | conversions.py:7-9 | afterwards every one of the Size cells is 0 (so all cells are bytes) |
| Codec.SignedWrap | conversions.py:57-63 | two's-complement reading: the result lies in [-modulus/2, modulus/2), is congruent to the input modulo the field size, and equals the input when the input is already in that range |
| Codec.LoadUint8 | conversions.py:47-49 | same outcome as the byte load: `None` exactly for a bad address, never raises, otherwise the cell; when every cell is a byte, the result is in [0, 255] |
| Codec.StoreUint8 | conversions.py:52-54 | faults exactly for a bad address, and then memory is unchanged; otherwise the cell becomes the one byte congruent to the value modulo 256; other cells are unchanged |
| Codec.LoadSint8 | conversions.py:57-63 | raises exactly for a bad address and never yields `None`; for a byte cell it yields that byte's two's-complement reading; when every cell is a byte, the result is in [-128, 127] |
| Codec.StoreSint8 | conversions.py:66-71 | biasing a negative value by 256 is absorbed by the reduction: the outcome is identical to the unsigned 8-bit store of the same value |
| Codec.LoadUint16 | conversions.py:74-78 | raises exactly when the address or the address after it is out of bounds (so it raises at Size-1), never yields `None`; otherwise yields high cell * 256 + low cell; when every cell is a byte, the result is in [0, 65535] |
| Codec.StoreUint16 | conversions.py:81-85 | faults exactly when either byte address is out of bounds; only cells a and a+1 may change; the in-range one(s) of them get the high byte (v div 256) mod 256 at a and the low byte v mod 256 at a+1; when both are in range they are bytes that join big-end-first to v mod 65536 |
| Codec.LoadSint16 | conversions.py:88-94 | raises exactly when the unsigned 16-bit load does; on a value in [0, 65535] it yields that value's two's-complement reading; when every cell is a byte, the result is in [-32768, 32767] |
| Codec.StoreSint16 | conversions.py:97-102 | biasing a negative value by 65536 is absorbed: the outcome, including partial writes and faults, is identical to the unsigned 16-bit store of the same value |
| Codec.Uint8RoundTrip | conversions.py:47-54 | for every integer v and valid address, load_uint8 after store_uint8 gives v mod 256, and every other cell reads as before |
| Codec.Sint8RoundTrip | conversions.py:57-71 | load_sint8 after store_sint8 gives ((v+128) mod 256) - 128, which is v itself for v in [-128, 127] |
| Codec.Uint8ReadAsSint8 | conversions.py:52-63 | a cell written by store_uint8 and read by load_sint8 shows the signed reading of the same bits; 254 reads back as -2 |
| Codec.Uint16RoundTrip | conversions.py:74-85 | when both byte addresses are valid, load_uint16 after store_uint16 gives v mod 65536, and the single-byte loads at a and a+1 give the high and low byte |
| Codec.Sint16RoundTrip | conversions.py:88-102 | load_sint16 after store_sint16 gives ((v+32768) mod 65536) - 32768, which is v itself for v in [-32768, 32767] |
| Codec.LastAddress16 | conversions.py:74-102 | at address Size-1 both 16-bit loads raise, and both 16-bit stores are partial writes: cell Size-1 gets the high byte, the rest is unchanged, and a fault is reported |
| Codec.BeforeFirstAddress16 | conversions.py:74-85 | at address -1 the 16-bit load raises, and the 16-bit store writes its low byte into cell 0 and changes nothing else, while reporting a fault |
| Codec.TypedStoresKeepBytes | conversions.py:52-102 | if every cell is a byte before any typed store, every cell is a byte after it, partial writes included |
| Variables.WrapTo | conversions.py:124-134 | the value a variable of a given type holds after v is written to it: a value of that type, congruent to v modulo 2^8 or 2^16, and v itself when v is already a value of the type |
| Variables.Declare | conversions.py:107-108 | `var` binds the name to (address, type), adds exactly that name to the registry, and leaves every other binding as it was |
| Variables.RedeclareOverwrites | conversions.py:107-108 | binding a name a second time keeps only the second binding |
| Variables.GetVar | conversions.py:111-122 | yields `None` exactly when the name is unbound, its type name is not one of uint8/sint8/uint16/sint16, or it is a uint8 whose address is outside memory; raises exactly when a known non-uint8 variable does not fit in memory; a value read from all-byte memory is representable in the variable's type; for a declared variable that fits in all-byte memory, the value is the unsigned number in its bytes (high byte first) wrapped to its type, so any two variables over the same bytes read the same bits under their own types |
| Variables.SetVar | conversions.py:124-135 | an unbound name or unknown type name changes nothing and reports no fault; otherwise a fault is reported exactly when the variable does not fit, no cell outside the variable's bytes changes, and all-byte memory stays all-byte |
| Variables.SetThenGet | conversions.py:111-135 | for a declared variable that fits, get_var after set_var(v) yields v wrapped to the variable's declared type |
| Variables.SetKeepsOthers | conversions.py:111-135 | set_var does not change what get_var yields for any variable whose bytes it does not share, unbound names included |
| Variables.AliasedByteVariables | conversions.py:111-135 | a uint8 and a sint8 variable at the same address alias: writing v through the uint8 one reads back through the sint8 one as the signed wrap of v (254 gives -2), and writing v through the sint8 one reads back through the uint8 one as v mod 256 |
| Variables.ZeroMemoryReadsZero | conversions.py:111-122 | in zeroed memory, every declared variable that fits reads 0, whatever its type |
| Instructions.CopyVar | conversions.py:138-140 | crashes exactly when the source load raises, or when the source yields `None` and the destination is declared; with an undeclared destination, running changes nothing; otherwise only the destination's bytes can change, and all-byte memory stays all-byte |
| Instructions.Add | conversions.py:143-150 | crashes exactly when the first source or the second operand (a literal, or a variable) has no value; with an undeclared destination, running changes nothing; otherwise only the destination's bytes can change, and all-byte memory stays all-byte |
| Instructions.LessThan | conversions.py:153-156 | raises unless both sources yield values (never `None`); when they do, the answer is whether the first decoded value is below the second |
| Instructions.LessThanOrEqual | conversions.py:159-162 | raises unless both sources yield values (never `None`); when they do, the answer is whether the first decoded value is at most the second |
| Instructions.CopyVarWrites | conversions.py:138-140 | copying a readable source into a declared destination that fits runs without a fault, and the destination then reads the source's value wrapped to the destination's type |
| Instructions.AddWrites | conversions.py:143-150 | adding readable sources (literal or variable) into a declared destination that fits runs without a fault, and the destination then reads the sum wrapped to the destination's type |
| Instructions.DemoLoopContinues | conversions.py:138-172 | with the same layout and `value` holding any k in 0 .. 32760, copying `value` into `prev` and adding 5 to `value` leaves `prev` = k wrapped to sint8 and `value` = k + 5, so the loop condition `prev <= value` still holds |
| Instructions.DemoLoopStops | conversions.py:138-172 | with the layout of the script at the bottom of the file (sint16 `value` at 8, sint8 `prev` at 10) and `value` holding 32765, copying `value` into `prev` and adding 5 to `value` leaves `prev` = -3 and `value` = -32766, so the loop condition `prev <= value` is false and the loop stops |
| Instructions.ComparisonsAreDual | conversions.py:153-162 | less_than_or_equal(a, b) is defined exactly when less_than(b, a) is, and is then its negation; less_than(a, a) is never true and less_than_or_equal(a, a) is never false |

## Left out

- `as_binary` and `show_memory` (conversions.py:12-28) are left out. They only
  format memory for the console. `as_binary` never shifts its argument, so it
  prints eight copies of bit 7 rather than the byte in binary.
- The "Seg fault" messages are `print` calls. The model keeps only their effect.
  For stores, that is the `segFault` flag and an unchanged cell. For loads, it
  is the `Null` or `Raised` outcome. The flag on `Ran` counts only refused byte
  stores, not the message a failed source load prints.
- The demonstration script at the bottom of the file (conversions.py:165-172)
  is not modelled as a program, because it is a scripted `print` loop over the
  instructions. `Instructions.DemoLoopContinues` states that its loop condition
  still holds after every step from a `value` in 0 .. 32760, and
  `Instructions.DemoLoopStops` that it fails after the step from 32765.
- `Memory` and `all_variables` are Python module globals. The model passes them
  as explicit arguments and results, and `ClearMemory` returns the cleared memory.
- Other Python dynamic-typing failures are not modelled. Examples are a non-integer
  value passed to a store, and a `bool` literal as `add`'s second operand
  (`type(True) is int` is false).
- `conversions.py` has no subtraction, multiplication, equality test, input or
  display instruction, and no two-operand `add`; none is modelled.
