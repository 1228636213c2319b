/** The read-compute-write instructions of conversions.py:138-162. Each one
    reads its sources with `GetVar` and writes its destination with `SetVar`;
    the comparisons only read. */
module Instructions {
  import opened Outcomes
  import opened ByteStore
  import opened Codec
  import opened Variables

  /** The second source of `add`: an integer literal, used as it is, or the
      name of a variable. */
  datatype Operand = Literal(n: int) | Named(name: string)

  /** Result of an instruction that writes: it ran, leaving a memory and
      possibly a "Seg fault" report from a refused byte store, or it stopped
      the program with an uncaught `TypeError` before writing anything. */
  datatype Exec = Ran(mem: Mem, segFault: bool) | Crashed

  /** The value an operand stands for. */
  function Resolve(vars: Registry, m: Mem, op: Operand): Ret<int>
  {
    match op
    case Literal(n) => Value(n)
    case Named(x) => GetVar(vars, m, x)
  }

  /** `copy_var`: writes the source's value into the destination, re-encoded
      under the destination's type. A source load that raises stops the
      program; a source that yields `None` stops it only when the destination
      is declared, since only then does the store compute with that `None`. */
  function CopyVar(vars: Registry, m: Mem, src: string, dest: string): (r: Exec)
    ensures r.Crashed? <==> GetVar(vars, m, src).Raised?
                            || (GetVar(vars, m, src).Null? && Declared(vars, dest))
    ensures r.Ran? && !Declared(vars, dest) ==> r == Ran(m, false)
    ensures r.Ran? && Declared(vars, dest) ==>
              forall i :: 0 <= i < Size && !Covers(vars[dest], i) ==> r.mem[i] == m[i]
    ensures r.Ran? && AllBytes(m) ==> AllBytes(r.mem)
  {
    match GetVar(vars, m, src)
    case Value(v) =>
      var s := SetVar(vars, m, dest, v);
      Ran(s.mem, s.segFault)
    case Null => if Declared(vars, dest) then Crashed else Ran(m, false)
    case Raised => Crashed
  }

  /** `add`: writes the sum of the two sources into the destination,
      re-encoded under the destination's type. A source without a value makes
      the addition raise. */
  function Add(vars: Registry, m: Mem, src1: string, src2: Operand, dest: string): (r: Exec)
    ensures r.Crashed? <==> !GetVar(vars, m, src1).Value? || !Resolve(vars, m, src2).Value?
    ensures r.Ran? && !Declared(vars, dest) ==> r == Ran(m, false)
    ensures r.Ran? && Declared(vars, dest) ==>
              forall i :: 0 <= i < Size && !Covers(vars[dest], i) ==> r.mem[i] == m[i]
    ensures r.Ran? && AllBytes(m) ==> AllBytes(r.mem)
  {
    var v1 := GetVar(vars, m, src1);
    var v2 := Resolve(vars, m, src2);
    if v1.Value? && v2.Value? then
      var s := SetVar(vars, m, dest, v1.value + v2.value);
      Ran(s.mem, s.segFault)
    else Crashed
  }

  /** `less_than`: compares the two decoded values; a source without a value
      makes the comparison raise. Memory is only read. */
  function LessThan(vars: Registry, m: Mem, src1: string, src2: string): (r: Ret<bool>)
    ensures !r.Null?
    ensures r.Value? <==> GetVar(vars, m, src1).Value? && GetVar(vars, m, src2).Value?
    ensures r.Value? ==> (r.value <==> GetVar(vars, m, src1).value < GetVar(vars, m, src2).value)
  {
    var v1 := GetVar(vars, m, src1);
    var v2 := GetVar(vars, m, src2);
    if v1.Value? && v2.Value? then Value(v1.value < v2.value) else Raised
  }

  /** `less_than_or_equal`: as `LessThan`, with `<=`. */
  function LessThanOrEqual(vars: Registry, m: Mem, src1: string, src2: string): (r: Ret<bool>)
    ensures !r.Null?
    ensures r.Value? <==> GetVar(vars, m, src1).Value? && GetVar(vars, m, src2).Value?
    ensures r.Value? ==> (r.value <==> GetVar(vars, m, src1).value <= GetVar(vars, m, src2).value)
  {
    var v1 := GetVar(vars, m, src1);
    var v2 := GetVar(vars, m, src2);
    if v1.Value? && v2.Value? then Value(v1.value <= v2.value) else Raised
  }

  /** Copying a readable source into a destination that fits runs without a
      fault, and the destination then reads the source's value wrapped to
      the destination's type. */
  lemma CopyVarWrites(vars: Registry, m: Mem, src: string, dest: string, x: int)
    requires GetVar(vars, m, src) == Value(x)
    requires Declared(vars, dest) && Fits(vars[dest])
    ensures CopyVar(vars, m, src, dest).Ran? && !CopyVar(vars, m, src, dest).segFault
    ensures GetVar(vars, CopyVar(vars, m, src, dest).mem, dest) == Value(WrapTo(vars[dest].typ, x))
  {
    SetThenGet(vars, m, dest, x);
  }

  /** Adding two readable sources into a destination that fits runs without a
      fault, and the destination then reads their sum wrapped to its type. */
  lemma AddWrites(vars: Registry, m: Mem, src1: string, src2: Operand, dest: string, x: int, y: int)
    requires GetVar(vars, m, src1) == Value(x) && Resolve(vars, m, src2) == Value(y)
    requires Declared(vars, dest) && Fits(vars[dest])
    ensures Add(vars, m, src1, src2, dest).Ran? && !Add(vars, m, src1, src2, dest).segFault
    ensures GetVar(vars, Add(vars, m, src1, src2, dest).mem, dest) == Value(WrapTo(vars[dest].typ, x + y))
  {
    SetThenGet(vars, m, dest, x + y);
  }

  /** The layout used at the bottom of conversions.py: a sint16 `value` at
      address 8 and a sint8 `prev` at address 10. */
  const DemoVars: Registry := map["value" := Binding(8, "sint16"), "prev" := Binding(10, "sint8")]

  /** Before the wrap, the script's loop keeps going: from any `value` k in
      0 .. 32760, after copying `value` to `prev` and adding 5 to `value`,
      `prev` holds k wrapped to sint8, which is at most k, and `value` holds
      k + 5, so `prev <= value` still holds. */
  lemma DemoLoopContinues(m: Mem, k: int)
    requires 0 <= k <= 32760
    requires GetVar(DemoVars, m, "value") == Value(k)
    ensures CopyVar(DemoVars, m, "value", "prev").Ran?
    ensures Add(DemoVars, CopyVar(DemoVars, m, "value", "prev").mem, "value", Literal(5), "value").Ran?
    ensures GetVar(DemoVars, Add(DemoVars, CopyVar(DemoVars, m, "value", "prev").mem,
                                 "value", Literal(5), "value").mem, "prev") == Value(WrapTo("sint8", k))
    ensures GetVar(DemoVars, Add(DemoVars, CopyVar(DemoVars, m, "value", "prev").mem,
                                 "value", Literal(5), "value").mem, "value") == Value(k + 5)
    ensures LessThanOrEqual(DemoVars, Add(DemoVars, CopyVar(DemoVars, m, "value", "prev").mem,
                                          "value", Literal(5), "value").mem, "prev", "value") == Value(true)
  {
    var m1 := CopyVar(DemoVars, m, "value", "prev").mem;
    CopyVarWrites(DemoVars, m, "value", "prev", k);
    SetKeepsOthers(DemoVars, m, "prev", "value", k);
    assert GetVar(DemoVars, m1, "value") == Value(k);
    AddWrites(DemoVars, m1, "value", Literal(5), "value", k, 5);
    assert WrapTo("sint16", k + 5) == k + 5;
    SetKeepsOthers(DemoVars, m1, "value", "prev", k + 5);
  }

  /** The step at which the script's loop `while prev <= value: copy value to
      prev; add 5 to value` stops: from `value` = 32765, `prev` becomes the
      sint8 reading -3 of the same low byte and `value` wraps to -32766. */
  lemma DemoLoopStops(m: Mem)
    requires GetVar(DemoVars, m, "value") == Value(32765)
    ensures CopyVar(DemoVars, m, "value", "prev").Ran?
    ensures Add(DemoVars, CopyVar(DemoVars, m, "value", "prev").mem, "value", Literal(5), "value").Ran?
    ensures GetVar(DemoVars, Add(DemoVars, CopyVar(DemoVars, m, "value", "prev").mem,
                                 "value", Literal(5), "value").mem, "prev") == Value(-3)
    ensures GetVar(DemoVars, Add(DemoVars, CopyVar(DemoVars, m, "value", "prev").mem,
                                 "value", Literal(5), "value").mem, "value") == Value(-32766)
    ensures LessThanOrEqual(DemoVars, Add(DemoVars, CopyVar(DemoVars, m, "value", "prev").mem,
                                          "value", Literal(5), "value").mem, "prev", "value") == Value(false)
  {
    var m1 := CopyVar(DemoVars, m, "value", "prev").mem;
    CopyVarWrites(DemoVars, m, "value", "prev", 32765);
    assert WrapTo("sint8", 32765) == -3;
    SetKeepsOthers(DemoVars, m, "prev", "value", 32765);
    assert GetVar(DemoVars, m1, "value") == Value(32765);
    AddWrites(DemoVars, m1, "value", Literal(5), "value", 32765, 5);
    assert WrapTo("sint16", 32770) == -32766;
    SetKeepsOthers(DemoVars, m1, "value", "prev", 32770);
  }

  /** The two comparisons are each other's negation with the operands
      swapped: `a <= b` exactly when not `b < a`, and both fail together. */
  lemma ComparisonsAreDual(vars: Registry, m: Mem, a: string, b: string)
    ensures LessThanOrEqual(vars, m, a, b).Value? <==> LessThan(vars, m, b, a).Value?
    ensures LessThanOrEqual(vars, m, a, b).Value? ==>
              LessThanOrEqual(vars, m, a, b).value == !LessThan(vars, m, b, a).value
    ensures LessThan(vars, m, a, a) != Value(true)
    ensures LessThanOrEqual(vars, m, a, a) != Value(false)
  {
  }
}
