/** The name registry of conversions.py:105-135: `var` binds a name to an
    address and a type name, and `get_var` / `set_var` dispatch on the type
    name to the matching typed load or store. */
module Variables {
  import opened Outcomes
  import opened ByteStore
  import opened Codec

  /** A registry entry: the address of the variable's first byte and the name
      of its type. Any string may be bound; only four are understood. */
  datatype Binding = Binding(address: int, typ: string)

  type Registry = map<string, Binding>

  predicate KnownType(t: string) {
    t == "uint16" || t == "sint16" || t == "uint8" || t == "sint8"
  }

  predicate Signed(t: string) {
    t == "sint16" || t == "sint8"
  }

  /** Number of bytes a value of type `t` occupies. */
  function Width(t: string): int {
    if t == "uint16" || t == "sint16" then 2 else 1
  }

  /** Number of distinct values a field of type `t` holds. */
  function Modulus(t: string): int {
    if Width(t) == 2 then 65536 else 256
  }

  /** Whether `x` is a value of type `t`. */
  predicate Representable(t: string, x: int) {
    if Signed(t) then -Modulus(t) / 2 <= x < Modulus(t) / 2 else 0 <= x < Modulus(t)
  }

  /** The name is bound, to a type the dispatch understands. */
  predicate Declared(vars: Registry, name: string) {
    name in vars && KnownType(vars[name].typ)
  }

  /** Every byte of the binding lies inside the memory. */
  predicate Fits(b: Binding) {
    InBounds(b.address) && InBounds(b.address + Width(b.typ) - 1)
  }

  /** Cell `i` is one of the binding's bytes. */
  predicate Covers(b: Binding, i: int) {
    b.address <= i < b.address + Width(b.typ)
  }

  /** The two bindings share no byte. */
  predicate Disjoint(b: Binding, c: Binding) {
    b.address + Width(b.typ) <= c.address || c.address + Width(c.typ) <= b.address
  }

  /** The unsigned number held in the binding's bytes, high byte first. */
  function Raw(m: Mem, b: Binding): int
    requires Fits(b)
  {
    if Width(b.typ) == 2 then m[b.address] * 256 + m[b.address + 1] else m[b.address]
  }

  /** The value a variable of type `t` holds after `v` is written to it: the
      one value of the type congruent to `v`, which is `v` itself when `v` is
      already a value of the type. */
  function WrapTo(t: string, v: int): (r: int)
    requires KnownType(t)
    ensures Representable(t, r)
    ensures (v - r) % Modulus(t) == 0
    ensures Representable(t, v) ==> r == v
  {
    if Signed(t) then SignedWrap(v, Modulus(t))
    else
      RemainderIsRepresentative(v, Modulus(t));
      v % Modulus(t)
  }

  /** `var`: binds `name`, replacing any earlier binding of it. */
  function Declare(vars: Registry, name: string, address: int, typ: string): (r: Registry)
    ensures name in r && r[name] == Binding(address, typ)
    ensures r.Keys == vars.Keys + {name}
    ensures forall n :: n in vars && n != name ==> r[n] == vars[n]
  {
    vars[name := Binding(address, typ)]
  }

  /** Binding a name twice keeps only the second binding. */
  lemma RedeclareOverwrites(vars: Registry, name: string, a1: int, t1: string, a2: int, t2: string)
    ensures Declare(Declare(vars, name, a1, t1), name, a2, t2) == Declare(vars, name, a2, t2)
  {
  }

  /** The signed typed loads reinterpret the upper half of the raw range. */
  lemma SignedReadingOfRaw(m: Mem, b: Binding)
    ensures Fits(b) && AllBytes(m) ==>
              SignedWrap(Raw(m, b), Modulus(b.typ))
              == if Raw(m, b) >= Modulus(b.typ) / 2 then Raw(m, b) - Modulus(b.typ) else Raw(m, b)
  {
    if Fits(b) && AllBytes(m) {
      SignedWrapOfUnsigned(Raw(m, b), Modulus(b.typ));
    }
  }

  /** `get_var`: an unknown name or type name yields `None`; otherwise the
      typed load of the variable's type decides. Of the loads, only the uint8
      one answers a bad address with `None`; the others raise. */
  function GetVar(vars: Registry, m: Mem, name: string): (r: Ret<int>)
    ensures r.Null? <==> !Declared(vars, name) || (vars[name].typ == "uint8" && !Fits(vars[name]))
    ensures r.Raised? <==> Declared(vars, name) && vars[name].typ != "uint8" && !Fits(vars[name])
    ensures r.Value? && AllBytes(m) ==> Representable(vars[name].typ, r.value)
    ensures Declared(vars, name) && Fits(vars[name]) && AllBytes(m) ==>
              r == Value(WrapTo(vars[name].typ, Raw(m, vars[name])))
  {
    if name in vars then
      var b := vars[name];
      SignedReadingOfRaw(m, b);
      if b.typ == "uint16" then LoadUint16(m, b.address)
      else if b.typ == "sint16" then LoadSint16(m, b.address)
      else if b.typ == "uint8" then LoadUint8(m, b.address)
      else if b.typ == "sint8" then LoadSint8(m, b.address)
      else Null
    else Null
  }

  /** `set_var`: an unknown name or type name changes nothing; otherwise the
      typed store of the variable's type writes the variable's bytes and no
      other cell. */
  function SetVar(vars: Registry, m: Mem, name: string, v: int): (r: Stored)
    ensures !Declared(vars, name) ==> r == Stored(m, false)
    ensures Declared(vars, name) ==> (r.segFault <==> !Fits(vars[name]))
    ensures Declared(vars, name) ==>
              forall i :: 0 <= i < Size && !Covers(vars[name], i) ==> r.mem[i] == m[i]
    ensures AllBytes(m) ==> AllBytes(r.mem)
  {
    if name in vars then
      var b := vars[name];
      TypedStoresKeepBytes(m, v, b.address);
      if b.typ == "uint16" then StoreUint16(m, v, b.address)
      else if b.typ == "sint16" then StoreSint16(m, v, b.address)
      else if b.typ == "uint8" then StoreUint8(m, v, b.address)
      else if b.typ == "sint8" then StoreSint8(m, v, b.address)
      else Stored(m, false)
    else Stored(m, false)
  }

  /** Writing `v` to a variable that fits in memory and reading it back gives
      `v` wrapped to the variable's type. */
  lemma SetThenGet(vars: Registry, m: Mem, name: string, v: int)
    requires Declared(vars, name) && Fits(vars[name])
    ensures GetVar(vars, SetVar(vars, m, name, v).mem, name) == Value(WrapTo(vars[name].typ, v))
  {
    var b := vars[name];
    if b.typ == "uint16" {
      Uint16RoundTrip(m, v, b.address);
    } else if b.typ == "sint16" {
      Sint16RoundTrip(m, v, b.address);
    } else if b.typ == "uint8" {
      Uint8RoundTrip(m, v, b.address);
    } else {
      Sint8RoundTrip(m, v, b.address);
    }
  }

  /** A variable whose bytes the written variable does not share reads the
      same before and after the write. */
  lemma SetKeepsOthers(vars: Registry, m: Mem, name: string, other: string, v: int)
    requires Declared(vars, name)
    requires other in vars ==> Disjoint(vars[name], vars[other])
    ensures GetVar(vars, SetVar(vars, m, name, v).mem, other) == GetVar(vars, m, other)
  {
    if other in vars {
      var m' := SetVar(vars, m, name, v).mem;
      var c := vars[other];
      if Fits(c) {
        assert m'[c.address] == m[c.address];
        if Width(c.typ) == 2 {
          assert m'[c.address + 1] == m[c.address + 1];
        }
      }
    }
  }

  /** A uint8 and a sint8 variable at the same address share their bits:
      what is written through one reads back through the other as the same
      bits under the other's reading (254 reads back as -2). */
  lemma AliasedByteVariables(vars: Registry, m: Mem, u: string, s: string, v: int)
    requires u in vars && s in vars
    requires vars[u].typ == "uint8" && vars[s] == Binding(vars[u].address, "sint8")
    requires InBounds(vars[u].address)
    ensures GetVar(vars, SetVar(vars, m, u, v).mem, s) == Value(SignedWrap(v, 256))
    ensures GetVar(vars, SetVar(vars, m, u, 254).mem, s) == Value(-2)
    ensures GetVar(vars, SetVar(vars, m, s, v).mem, u) == Value(v % 256)
  {
    Uint8ReadAsSint8(m, v, vars[u].address);
    Uint8RoundTrip(m, v, vars[u].address);
  }

  /** In cleared memory every variable that fits reads zero. */
  lemma ZeroMemoryReadsZero(vars: Registry, m: Mem, name: string)
    requires forall i :: 0 <= i < Size ==> m[i] == 0
    requires Declared(vars, name) && Fits(vars[name])
    ensures GetVar(vars, m, name) == Value(0)
  {
    var b := vars[name];
    assert m[b.address] == 0;
    if Width(b.typ) == 2 {
      assert m[b.address + 1] == 0;
      SignedWrapOfUnsigned(0, 65536);
    } else {
      SignedWrapOfUnsigned(0, 256);
    }
  }
}
