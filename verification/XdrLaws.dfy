/** What the codec means, and that the encoder and the decoder agree on it.

    A value is flattened into the primitive items of RFC 4506 that stand for it (Atoms). An octet string renders
    those items when each item has its prescribed octets, with any octets as padding. The decoder accepts exactly
    the renderings; the encoder writes the one whose padding is zero. */
module XdrLaws {
  import opened Bytes
  import opened XdrTag
  import opened Xdr

  // ---------------------------------------------------------------- primitive items

  datatype Atom =
    | SWord(i: int)
    | UWord(i: int)
    | Count(n: nat)
    | Long(i: int)
    | Opaque(bs: seq<byte>)

  function AtomSize(a: Atom): nat {
    match a
    case Long(_) => 8
    case Opaque(bs) => |bs| + Pad(|bs|)
    case _ => 4
  }

  /** The octets of an item, zero-padded. */
  function AtomBytes(a: Atom): (bs: seq<byte>)
    ensures |bs| == AtomSize(a)
  {
    match a
    case SWord(i) => Put32(i)
    case UWord(i) => Put32(i)
    case Count(n) => Put32(n)
    case Long(i) => Put64(i)
    case Opaque(bs) => Padded(bs)
  }

  /** The item fits its wire format: 32-bit words, lengths up to MaxInt32 after padding, counts within the read limit. */
  predicate Fits(lim: nat, a: Atom) {
    match a
    case SWord(i) => -TWO_31 <= i < TWO_31
    case UWord(i) => 0 <= i < TWO_32
    case Count(n) => n <= MAX_INT32 && (lim == 0 || n <= lim)
    case Long(i) => true
    case Opaque(bs) => |bs| + Pad(|bs|) <= MAX_INT32
  }

  /** x represents the item; padding octets are free. */
  predicate AtomRenders(lim: nat, a: Atom, x: seq<byte>) {
    && |x| == AtomSize(a)
    && Fits(lim, a)
    && (if a.Opaque? then x[..|a.bs|] == a.bs else x == AtomBytes(a))
  }

  function Size(atoms: seq<Atom>): nat {
    if atoms == [] then 0 else AtomSize(atoms[0]) + Size(atoms[1..])
  }

  function Canon(atoms: seq<Atom>): (bs: seq<byte>)
    ensures |bs| == Size(atoms)
  {
    if atoms == [] then [] else AtomBytes(atoms[0]) + Canon(atoms[1..])
  }

  predicate AllFit(lim: nat, atoms: seq<Atom>) {
    forall i :: 0 <= i < |atoms| ==> Fits(lim, atoms[i])
  }

  predicate Renders(lim: nat, atoms: seq<Atom>, bs: seq<byte>)
    decreases |atoms|
  {
    if atoms == [] then bs == []
    else
      var k := AtomSize(atoms[0]);
      && |bs| >= k
      && AtomRenders(lim, atoms[0], bs[..k])
      && Renders(lim, atoms[1..], bs[k..])
  }

  lemma {:induction false} SizeConcat(a: seq<Atom>, b: seq<Atom>)
    ensures Size(a + b) == Size(a) + Size(b)
    ensures Canon(a + b) == Canon(a) + Canon(b)
  {
    if a == [] {
      assert a + b == b;
    } else {
      assert (a + b)[1..] == a[1..] + b;
      SizeConcat(a[1..], b);
    }
  }

  lemma CanonOne(a: Atom)
    ensures Canon([a]) == AtomBytes(a) && Size([a]) == AtomSize(a)
  {
    assert [a][1..] == [] && Canon([]) == [];
    assert AtomBytes(a) + [] == AtomBytes(a);
  }

  lemma {:induction false} RendersSize(lim: nat, atoms: seq<Atom>, bs: seq<byte>)
    requires Renders(lim, atoms, bs)
    ensures |bs| == Size(atoms)
  {
    if atoms != [] {
      RendersSize(lim, atoms[1..], bs[AtomSize(atoms[0])..]);
    }
  }

  lemma Slices(bs: seq<byte>, k: nat, m: nat)
    requires k + m <= |bs|
    ensures bs[..k + m][..k] == bs[..k]
    ensures bs[..k + m][k..] == bs[k..][..m]
    ensures bs[k..][m..] == bs[k + m..]
  {
  }

  /** Renderings of a concatenation are the concatenations of renderings. */
  lemma {:induction false} RendersConcat(lim: nat, a: seq<Atom>, b: seq<Atom>, bs: seq<byte>)
    ensures Renders(lim, a + b, bs) <==>
            |bs| >= Size(a) && Renders(lim, a, bs[..Size(a)]) && Renders(lim, b, bs[Size(a)..])
  {
    if a == [] {
      assert a + b == b;
      assert bs[0..] == bs && bs[..0] == [];
    } else {
      var k := AtomSize(a[0]);
      assert (a + b)[1..] == a[1..] + b && (a + b)[0] == a[0];
      if |bs| >= k {
        RendersConcat(lim, a[1..], b, bs[k..]);
        if |bs| >= k + Size(a[1..]) {
          Slices(bs, k, Size(a[1..]));
        }
      }
    }
  }

  lemma {:induction false} CanonRenders(lim: nat, atoms: seq<Atom>)
    requires AllFit(lim, atoms)
    ensures Renders(lim, atoms, Canon(atoms))
  {
    if atoms != [] {
      CanonRenders(lim, atoms[1..]);
      var k := AtomSize(atoms[0]);
      assert Canon(atoms)[..k] == AtomBytes(atoms[0]) && Canon(atoms)[k..] == Canon(atoms[1..]);
    }
  }

  lemma {:induction false} RendersFit(lim: nat, atoms: seq<Atom>, bs: seq<byte>)
    requires Renders(lim, atoms, bs)
    ensures AllFit(lim, atoms)
  {
    if atoms != [] {
      RendersFit(lim, atoms[1..], bs[AtomSize(atoms[0])..]);
    }
  }

  /** Is octet i of the canonical rendering a padding octet? */
  predicate IsPadding(atoms: seq<Atom>, i: nat)
    requires i < Size(atoms)
  {
    var k := AtomSize(atoms[0]);
    if i < k then atoms[0].Opaque? && i >= |atoms[0].bs| else IsPadding(atoms[1..], i - k)
  }

  /** Two renderings of the same items differ in padding octets at most. */
  lemma {:induction false} RendersAgree(lim: nat, atoms: seq<Atom>, x: seq<byte>, i: nat)
    requires Renders(lim, atoms, x) && i < |x|
    ensures |x| == Size(atoms)
    ensures Canon(atoms)[i] == if IsPadding(atoms, i) then 0 else x[i]
  {
    RendersSize(lim, atoms, x);
    var k := AtomSize(atoms[0]);
    if i >= k {
      RendersAgree(lim, atoms[1..], x[k..], i - k);
    } else if atoms[0].Opaque? && i < |atoms[0].bs| {
      assert x[..k][..|atoms[0].bs|][i] == x[i];
    } else if !atoms[0].Opaque? {
      assert x[..k][i] == x[i];
    }
  }

  // ---------------------------------------------------------------- schemas without contradictory tags

  /** optional marks pointers, union marks discriminants that are themselves unconditional. */
  predicate Sound(env: Env, s: Schema) {
    match s
    case FixedArrayT(_, elem) => Sound(env, elem)
    case SliceT(elem) => Sound(env, elem)
    case StructT(fields) => forall i :: 0 <= i < |fields| ==> FieldSound(env, fields[i])
    case _ => true
  }

  predicate FieldSound(env: Env, f: Field) {
    && (IsOptional(f.tag) ==> f.schema.PtrT?)
    && (IsUnion(f.tag) ==> Get(f.tag, "unioncase") == "" && Get(f.tag, "unionnotcase") == "")
    && if f.schema.PtrT? then f.schema.target in env && TagSound(f.tag, env[f.schema.target])
       else TagSound(f.tag, f.schema) && Sound(env, f.schema)
  }

  predicate TagSound(tag: string, s: Schema) {
    IsUnion(tag) ==> Discriminable(s)
  }

  ghost predicate WellFormed(env: Env) {
    EnvGuarded(env) && forall n :: n in env ==> Sound(env, env[n])
  }

  ghost predicate Good(env: Env, s: Schema) {
    WellFormed(env) && Guarded(env, s) && Sound(env, s)
  }

  ghost predicate FieldsGood(env: Env, fields: seq<Field>) {
    WellFormed(env) && FieldsGuarded(env, fields) && forall i :: 0 <= i < |fields| ==> FieldSound(env, fields[i])
  }

  lemma FieldsTail(env: Env, fields: seq<Field>)
    requires FieldsGood(env, fields) && fields != []
    ensures FieldGuarded(env, fields[0]) && FieldSound(env, fields[0])
    ensures FieldsGood(env, fields[1..])
  {
  }

  // ---------------------------------------------------------------- the items of a value

  function Atoms(env: Env, s: Schema, v: Value, ignoreOpaque: bool): seq<Atom>
    requires EnvGuarded(env) && Guarded(env, s) && HasType(env, s, v)
    decreases v, 2
  {
    match s
    case IntT(_) => [SWord(v.i)]
    case UintT(_) => [UWord(v.i)]
    case HyperT => [Long(v.i)]
    case UhyperT => [Long(v.i)]
    case BoolT => [UWord(if v.b then 1 else 0)]
    case StringT => [Count(|v.s|), Opaque(v.s)]
    case FixedArrayT(_, elem) => AtomsElems(env, elem, v.vs, ignoreOpaque)
    case SliceT(elem) => [Count(|v.vs|)] + AtomsElems(env, elem, v.vs, ignoreOpaque)
    case StructT(fields) => AtomsFields(env, fields, v.fs, "")
  }

  function AtomsElems(env: Env, elem: Schema, vs: seq<Value>, ignoreOpaque: bool): seq<Atom>
    requires EnvGuarded(env) && Guarded(env, elem) && AllType(env, elem, vs)
    decreases vs, 1
  {
    if !ignoreOpaque && elem == UintT(W8) then
      assert forall i :: 0 <= i < |vs| ==> HasType(env, elem, vs[i]);
      [Opaque(Octets(vs))]
    else AtomsEach(env, elem, vs)
  }

  function AtomsEach(env: Env, elem: Schema, vs: seq<Value>): seq<Atom>
    requires EnvGuarded(env) && Guarded(env, elem) && AllType(env, elem, vs)
    decreases vs, 0
  {
    if vs == [] then [] else Atoms(env, elem, vs[0], false) + AtomsEach(env, elem, vs[1..])
  }

  function AtomsFields(env: Env, fields: seq<Field>, vs: seq<Value>, union: string): seq<Atom>
    requires EnvGuarded(env) && FieldsType(env, fields, vs) && FieldsGuarded(env, fields)
    decreases vs, 0
  {
    if fields == [] then []
    else
      AtomsField(env, fields[0], vs[0], union) +
      AtomsFields(env, fields[1..], vs[1..], FieldUnion(env, fields[0], vs[0], union))
  }

  function AtomsField(env: Env, f: Field, v: Value, union: string): seq<Atom>
    requires EnvGuarded(env) && FieldGuarded(env, f) && HasType(env, f.schema, v)
    decreases v, 4
  {
    if !f.schema.PtrT? then AtomsBody(env, f.tag, f.schema, v, union)
    else if v.VNil? then [UWord(0)]
    else [UWord(1)] + AtomsBody(env, f.tag, env[f.schema.target], v.to, union)
  }

  function AtomsBody(env: Env, tag: string, s: Schema, v: Value, union: string): seq<Atom>
    requires EnvGuarded(env) && Guarded(env, s) && HasType(env, s, v)
    decreases v, 3
  {
    if Elementwise(tag, s) then Atoms(env, s, v, true)
    else if Selected(tag, union) then Atoms(env, s, v, false)
    else []
  }

  // ---------------------------------------------------------------- what survives the wire

  /** The value with every unselected union arm at its zero value. */
  function Norm(env: Env, s: Schema, v: Value): Value
    requires EnvGuarded(env) && Guarded(env, s) && HasType(env, s, v)
    decreases v, 2
  {
    match s
    case FixedArrayT(_, elem) => VList(NormEach(env, elem, v.vs))
    case SliceT(elem) => VList(NormEach(env, elem, v.vs))
    case StructT(fields) => VStruct(NormFields(env, fields, v.fs, ""))
    case _ => v
  }

  function NormEach(env: Env, elem: Schema, vs: seq<Value>): seq<Value>
    requires EnvGuarded(env) && Guarded(env, elem) && AllType(env, elem, vs)
    decreases vs, 0
  {
    if vs == [] then [] else [Norm(env, elem, vs[0])] + NormEach(env, elem, vs[1..])
  }

  function NormFields(env: Env, fields: seq<Field>, vs: seq<Value>, union: string): seq<Value>
    requires EnvGuarded(env) && FieldsType(env, fields, vs) && FieldsGuarded(env, fields)
    decreases vs, 0
  {
    if fields == [] then []
    else
      [NormField(env, fields[0], vs[0], union)] +
      NormFields(env, fields[1..], vs[1..], FieldUnion(env, fields[0], vs[0], union))
  }

  function NormField(env: Env, f: Field, v: Value, union: string): Value
    requires EnvGuarded(env) && FieldGuarded(env, f) && HasType(env, f.schema, v)
    decreases v, 4
  {
    if !f.schema.PtrT? then NormBody(env, f.tag, f.schema, v, union)
    else if v.VNil? then VNil
    else VPtr(NormBody(env, f.tag, env[f.schema.target], v.to, union))
  }

  function NormBody(env: Env, tag: string, s: Schema, v: Value, union: string): Value
    requires EnvGuarded(env) && Guarded(env, s) && HasType(env, s, v)
    decreases v, 3
  {
    if Elementwise(tag, s) || Selected(tag, union) then Norm(env, s, v) else Zero(s)
  }

  // ---------------------------------------------------------------- the encoder writes the canonical rendering

  lemma {:induction false} EncIsCanon(env: Env, s: Schema, v: Value, ignoreOpaque: bool)
    requires Good(env, s) && HasType(env, s, v)
    ensures Enc(env, s, v, ignoreOpaque) == Out(Canon(Atoms(env, s, v, ignoreOpaque)))
    decreases v, 2
  {
    match s
    case FixedArrayT(_, elem) => EncElemsIsCanon(env, elem, v.vs, ignoreOpaque);
    case SliceT(elem) =>
      EncElemsIsCanon(env, elem, v.vs, ignoreOpaque);
      CanonOne(Count(|v.vs|));
      SizeConcat([Count(|v.vs|)], AtomsElems(env, elem, v.vs, ignoreOpaque));
    case StructT(fields) => EncFieldsIsCanon(env, fields, v.fs, "");
    case StringT =>
      CanonOne(Count(|v.s|));
      CanonOne(Opaque(v.s));
      SizeConcat([Count(|v.s|)], [Opaque(v.s)]);
      assert [Count(|v.s|), Opaque(v.s)] == [Count(|v.s|)] + [Opaque(v.s)];
    case IntT(_) => CanonOne(SWord(v.i));
    case UintT(_) => CanonOne(UWord(v.i));
    case HyperT => CanonOne(Long(v.i));
    case UhyperT => CanonOne(Long(v.i));
    case BoolT => CanonOne(UWord(if v.b then 1 else 0));
  }

  lemma {:induction false} EncElemsIsCanon(env: Env, elem: Schema, vs: seq<Value>, ignoreOpaque: bool)
    requires Good(env, elem) && AllType(env, elem, vs)
    ensures EncElems(env, elem, vs, ignoreOpaque) == Out(Canon(AtomsElems(env, elem, vs, ignoreOpaque)))
    decreases vs, 1
  {
    if ignoreOpaque || elem != UintT(W8) {
      EncEachIsCanon(env, elem, vs);
    }
  }

  lemma {:induction false} EncEachIsCanon(env: Env, elem: Schema, vs: seq<Value>)
    requires Good(env, elem) && AllType(env, elem, vs)
    ensures EncEach(env, elem, vs) == Out(Canon(AtomsEach(env, elem, vs)))
    decreases vs, 0
  {
    if vs != [] {
      EncIsCanon(env, elem, vs[0], false);
      EncEachIsCanon(env, elem, vs[1..]);
      SizeConcat(Atoms(env, elem, vs[0], false), AtomsEach(env, elem, vs[1..]));
    }
  }

  lemma {:induction false} EncFieldsIsCanon(env: Env, fields: seq<Field>, vs: seq<Value>, union: string)
    requires FieldsGood(env, fields) && FieldsType(env, fields, vs)
    ensures EncFields(env, fields, vs, union) == Out(Canon(AtomsFields(env, fields, vs, union)))
    decreases vs, 0
  {
    if fields != [] {
      FieldsTail(env, fields);
      var u := FieldUnion(env, fields[0], vs[0], union);
      EncFieldIsCanon(env, fields[0], vs[0], union);
      EncFieldsIsCanon(env, fields[1..], vs[1..], u);
      SizeConcat(AtomsField(env, fields[0], vs[0], union), AtomsFields(env, fields[1..], vs[1..], u));
    }
  }

  lemma {:induction false} EncFieldIsCanon(env: Env, f: Field, v: Value, union: string)
    requires WellFormed(env) && FieldGuarded(env, f) && FieldSound(env, f) && HasType(env, f.schema, v)
    ensures EncField(env, f, v, union) == Out(Canon(AtomsField(env, f, v, union)))
    decreases v, 4
  {
    if !f.schema.PtrT? {
      EncBodyIsCanon(env, f.tag, f.schema, v, union);
    } else if v.VPtr? {
      var s := env[f.schema.target];
      EncBodyIsCanon(env, f.tag, s, v.to, union);
      SizeConcat([UWord(1)], AtomsBody(env, f.tag, s, v.to, union));
    }
  }

  lemma {:induction false} EncBodyIsCanon(env: Env, tag: string, s: Schema, v: Value, union: string)
    requires Good(env, s) && HasType(env, s, v) && TagSound(tag, s)
    requires IsUnion(tag) ==> Get(tag, "unioncase") == "" && Get(tag, "unionnotcase") == ""
    ensures EncBody(env, tag, s, v, union) == Out(Canon(AtomsBody(env, tag, s, v, union)))
    decreases v, 3
  {
    if Elementwise(tag, s) {
      EncIsCanon(env, s, v, true);
    } else {
      EncIsCanon(env, s, v, false);
    }
  }

  // ---------------------------------------------------------------- the decoder accepts every rendering

  lemma FixedOpaqueAccepts(lim: nat, data: seq<byte>, bs: seq<byte>, tail: seq<byte>)
    requires AtomRenders(lim, Opaque(data), bs)
    ensures |data| <= MAX_INT32
    ensures DecFixedOpaque(|data|, bs + tail) == Ok(data, |bs|)
  {
    assert (bs + tail)[..|data|] == bs[..|data|];
  }

  lemma {:induction false} RendersOne(lim: nat, a: Atom, bs: seq<byte>)
    ensures Renders(lim, [a], bs) <==> AtomRenders(lim, a, bs)
  {
    var k := AtomSize(a);
    assert [a][1..] == [];
    if |bs| == k {
      assert bs[..k] == bs && bs[k..] == [];
    }
  }

  lemma WordAccepts(bs: seq<byte>, tail: seq<byte>, i: int)
    requires bs == Put32(i)
    ensures DecWord(bs + tail) == Ok(bs, 4)
    ensures 0 <= i < TWO_32 ==> Get32(bs) == i
    ensures -TWO_31 <= i < TWO_31 ==> GetInt32(bs) == i
  {
    assert (bs + tail)[..4] == bs;
    if 0 <= i < TWO_32 {
      GetPut32(i);
      ModUnique32(i, 0, i);
    }
    if -TWO_31 <= i < TWO_31 {
      GetPutInt32(i);
    }
  }

  lemma LongAccepts(bs: seq<byte>, tail: seq<byte>, i: int)
    requires bs == Put64(i)
    ensures DecLong(bs + tail) == Ok(bs, 8)
    ensures 0 <= i < TWO_64 ==> Get64(bs) == i
    ensures -TWO_63 <= i < TWO_63 ==> Wrap64(Get64(bs)) == i
  {
    assert (bs + tail)[..8] == bs;
    if 0 <= i < TWO_64 {
      GetPutUint64(i);
    }
    if -TWO_63 <= i < TWO_63 {
      GetPutInt64(i);
    }
  }

  lemma AcceptsInt(env: Env, lim: nat, s: Schema, v: Value, ignoreOpaque: bool, bs: seq<byte>, tail: seq<byte>)
    requires EnvGuarded(env) && s.IntT? && HasType(env, s, v)
    requires Renders(lim, [SWord(v.i)], bs)
    ensures Dec(env, lim, s, ignoreOpaque, bs + tail) == Ok(v, |bs|)
  {
    RendersOne(lim, SWord(v.i), bs);
    WordAccepts(bs, tail, v.i);
  }

  lemma AcceptsUint(env: Env, lim: nat, s: Schema, v: Value, ignoreOpaque: bool, bs: seq<byte>, tail: seq<byte>)
    requires EnvGuarded(env) && s.UintT? && HasType(env, s, v)
    requires Renders(lim, [UWord(v.i)], bs)
    ensures Dec(env, lim, s, ignoreOpaque, bs + tail) == Ok(v, |bs|)
  {
    RendersOne(lim, UWord(v.i), bs);
    WordAccepts(bs, tail, v.i);
  }

  lemma AcceptsLong(env: Env, lim: nat, s: Schema, v: Value, ignoreOpaque: bool, bs: seq<byte>, tail: seq<byte>)
    requires EnvGuarded(env) && (s.HyperT? || s.UhyperT?) && HasType(env, s, v)
    requires Renders(lim, Atoms(env, s, v, ignoreOpaque), bs)
    ensures Dec(env, lim, s, ignoreOpaque, bs + tail) == Ok(v, |bs|)
  {
    RendersOne(lim, Long(v.i), bs);
    LongAccepts(bs, tail, v.i);
  }

  lemma AcceptsBool(env: Env, lim: nat, v: Value, ignoreOpaque: bool, bs: seq<byte>, tail: seq<byte>)
    requires EnvGuarded(env) && v.VBool?
    requires Renders(lim, [UWord(if v.b then 1 else 0)], bs)
    ensures Dec(env, lim, BoolT, ignoreOpaque, bs + tail) == Ok(v, |bs|)
  {
    RendersOne(lim, UWord(if v.b then 1 else 0), bs);
    WordAccepts(bs, tail, if v.b then 1 else 0);
  }

  lemma AcceptsString(env: Env, lim: nat, v: Value, ignoreOpaque: bool, bs: seq<byte>, tail: seq<byte>)
    requires EnvGuarded(env) && v.VStr? && Renders(lim, [Count(|v.s|), Opaque(v.s)], bs)
    ensures Dec(env, lim, StringT, ignoreOpaque, bs + tail) == Ok(v, |bs|)
  {
    assert [Count(|v.s|), Opaque(v.s)] == [Count(|v.s|)] + [Opaque(v.s)];
    var count, data := CountThen(lim, |v.s|, [Opaque(v.s)], bs, tail);
    RendersOne(lim, Opaque(v.s), data);
    FixedOpaqueAccepts(lim, v.s, data, tail);
  }

  lemma {:induction false} Accepts(env: Env, lim: nat, s: Schema, v: Value, ignoreOpaque: bool, bs: seq<byte>, tail: seq<byte>)
    requires Good(env, s) && HasType(env, s, v)
    requires Renders(lim, Atoms(env, s, v, ignoreOpaque), bs)
    ensures Dec(env, lim, s, ignoreOpaque, bs + tail) == Ok(Norm(env, s, v), |bs|)
    decreases v, 2
  {
    match s
    case StringT =>
      AcceptsString(env, lim, v, ignoreOpaque, bs, tail);
    case FixedArrayT(len, elem) =>
      AcceptsElems(env, lim, elem, v.vs, ignoreOpaque, bs, tail);
    case SliceT(elem) =>
      var count, rest := CountThen(lim, |v.vs|, AtomsElems(env, elem, v.vs, ignoreOpaque), bs, tail);
      AcceptsElems(env, lim, elem, v.vs, ignoreOpaque, rest, tail);
    case StructT(fields) =>
      AcceptsFields(env, lim, fields, v.fs, "", bs, tail);
    case BoolT =>
      AcceptsBool(env, lim, v, ignoreOpaque, bs, tail);
    case HyperT =>
      AcceptsLong(env, lim, s, v, ignoreOpaque, bs, tail);
    case UhyperT =>
      AcceptsLong(env, lim, s, v, ignoreOpaque, bs, tail);
    case IntT(_) =>
      AcceptsInt(env, lim, s, v, ignoreOpaque, bs, tail);
    case UintT(_) =>
      AcceptsUint(env, lim, s, v, ignoreOpaque, bs, tail);
  }

  /** A rendering that starts with a count: the count is accepted and the rest of the octets render the rest. */
  lemma CountThen(lim: nat, n: nat, rest: seq<Atom>, bs: seq<byte>, tail: seq<byte>)
    returns (count: seq<byte>, data: seq<byte>)
    requires Renders(lim, [Count(n)] + rest, bs)
    ensures bs == count + data && |count| == 4
    ensures DecLen(lim, bs + tail) == Ok(n, 4) && n <= MAX_INT32
    ensures (bs + tail)[4..] == data + tail
    ensures Renders(lim, rest, data)
  {
    RendersConcat(lim, [Count(n)], rest, bs);
    CanonOne(Count(n));
    count, data := bs[..4], bs[4..];
    RendersOne(lim, Count(n), count);
    WordAccepts(count, data + tail, n);
    assert bs + tail == count + (data + tail);
  }

  /** Octets have no arms to unselect. */
  lemma {:induction false} NormOctets(env: Env, vs: seq<Value>)
    requires EnvGuarded(env) && AllType(env, UintT(W8), vs)
    ensures NormEach(env, UintT(W8), vs) == vs
  {
    if vs != [] {
      NormOctets(env, vs[1..]);
    }
  }

  lemma {:induction false} AcceptsElems(env: Env, lim: nat, elem: Schema, vs: seq<Value>, ignoreOpaque: bool,
                                        bs: seq<byte>, tail: seq<byte>)
    requires Good(env, elem) && AllType(env, elem, vs) && |vs| <= MAX_INT32
    requires Renders(lim, AtomsElems(env, elem, vs, ignoreOpaque), bs)
    ensures DecElems(env, lim, elem, |vs|, ignoreOpaque, bs + tail) == Ok(NormEach(env, elem, vs), |bs|)
    decreases vs, 1
  {
    if !ignoreOpaque && elem == UintT(W8) {
      assert forall i :: 0 <= i < |vs| ==> HasType(env, elem, vs[i]);
      RendersOne(lim, Opaque(Octets(vs)), bs);
      FixedOpaqueAccepts(lim, Octets(vs), bs, tail);
      NormOctets(env, vs);
      assert OctetValues(Octets(vs)) == vs;
    } else {
      AcceptsEach(env, lim, elem, vs, bs, tail);
    }
  }

  lemma EachCons(env: Env, lim: nat, elem: Schema, len: nat, input: seq<byte>, v: Value, n: nat, vs: seq<Value>, m: nat)
    requires EnvGuarded(env) && Guarded(env, elem) && len > 0 && n <= |input|
    requires Dec(env, lim, elem, false, input) == Ok(v, n)
    requires DecEach(env, lim, elem, len - 1, input[n..]) == Ok(vs, m)
    ensures DecEach(env, lim, elem, len, input) == Ok([v] + vs, n + m)
  {
  }

  lemma AcceptsNone(env: Env, lim: nat, elem: Schema, bs: seq<byte>, tail: seq<byte>)
    requires Good(env, elem) && Renders(lim, AtomsEach(env, elem, []), bs)
    ensures DecEach(env, lim, elem, 0, bs + tail) == Ok(NormEach(env, elem, []), |bs|)
  {
  }

  lemma AtomsCons(env: Env, elem: Schema, vs: seq<Value>)
    requires EnvGuarded(env) && Guarded(env, elem) && AllType(env, elem, vs) && vs != []
    ensures HasType(env, elem, vs[0]) && AllType(env, elem, vs[1..])
    ensures AtomsEach(env, elem, vs) == Atoms(env, elem, vs[0], false) + AtomsEach(env, elem, vs[1..])
    ensures NormEach(env, elem, vs) == [Norm(env, elem, vs[0])] + NormEach(env, elem, vs[1..])
  {
  }

  lemma FieldsCons(env: Env, lim: nat, fields: seq<Field>, union: string, input: seq<byte>,
                   out: FieldOut, n: nat, vs: seq<Value>, m: nat)
    requires EnvGuarded(env) && FieldsGuarded(env, fields) && fields != [] && n <= |input|
    requires DecField(env, lim, fields[0], union, input) == Ok(out, n)
    requires DecFields(env, lim, fields[1..], out.union, input[n..]) == Ok(vs, m)
    ensures DecFields(env, lim, fields, union, input) == Ok([out.v] + vs, n + m)
  {
  }

  lemma Resume(bs: seq<byte>, k: nat, tail: seq<byte>)
    requires k <= |bs|
    ensures bs + tail == bs[..k] + (bs[k..] + tail)
    ensures (bs + tail)[k..] == bs[k..] + tail
  {
  }

  lemma {:induction false} AcceptsEach(env: Env, lim: nat, elem: Schema, vs: seq<Value>, bs: seq<byte>, tail: seq<byte>)
    requires Good(env, elem) && AllType(env, elem, vs)
    requires Renders(lim, AtomsEach(env, elem, vs), bs)
    ensures DecEach(env, lim, elem, |vs|, bs + tail) == Ok(NormEach(env, elem, vs), |bs|)
    decreases vs, 0
  {
    hide Dec, DecEach, Atoms, AtomsEach, Norm, NormEach, HasType, AllType, Renders;
    if vs == [] {
      AcceptsNone(env, lim, elem, bs, tail);
    } else {
      AtomsCons(env, elem, vs);
      var a, rest := Atoms(env, elem, vs[0], false), AtomsEach(env, elem, vs[1..]);
      RendersConcat(lim, a, rest, bs);
      var x, y := bs[..Size(a)], bs[Size(a)..];
      Resume(bs, |x|, tail);
      Accepts(env, lim, elem, vs[0], false, x, y + tail);
      AcceptsEach(env, lim, elem, vs[1..], y, tail);
      EachCons(env, lim, elem, |vs|, bs + tail, Norm(env, elem, vs[0]), |x|, NormEach(env, elem, vs[1..]), |y|);
    }
  }

  lemma {:induction false} AcceptsFields(env: Env, lim: nat, fields: seq<Field>, vs: seq<Value>, union: string,
                                         bs: seq<byte>, tail: seq<byte>)
    requires FieldsGood(env, fields) && FieldsType(env, fields, vs)
    requires Renders(lim, AtomsFields(env, fields, vs, union), bs)
    ensures DecFields(env, lim, fields, union, bs + tail) == Ok(NormFields(env, fields, vs, union), |bs|)
    decreases vs, 0
  {
    if fields != [] {
      FieldsTail(env, fields);
      var u := FieldUnion(env, fields[0], vs[0], union);
      var a, rest := AtomsField(env, fields[0], vs[0], union), AtomsFields(env, fields[1..], vs[1..], u);
      RendersConcat(lim, a, rest, bs);
      var x, y := bs[..Size(a)], bs[Size(a)..];
      Resume(bs, |x|, tail);
      AcceptsField(env, lim, fields[0], vs[0], union, x, y + tail);
      AcceptsFields(env, lim, fields[1..], vs[1..], u, y, tail);
      FieldsCons(env, lim, fields, union, bs + tail, FieldOut(NormField(env, fields[0], vs[0], union), u), |x|,
                 NormFields(env, fields[1..], vs[1..], u), |y|);
    }
  }

  /** A rendering that starts with an optional flag. */
  lemma FlagThen(lim: nat, b: bool, rest: seq<Atom>, bs: seq<byte>, tail: seq<byte>) returns (data: seq<byte>)
    requires Renders(lim, [UWord(if b then 1 else 0)] + rest, bs)
    ensures |bs| == 4 + |data| && (bs + tail)[4..] == data + tail
    ensures DecBool(bs + tail) == Ok(b, 4)
    ensures Renders(lim, rest, data)
  {
    var flag := UWord(if b then 1 else 0);
    RendersConcat(lim, [flag], rest, bs);
    CanonOne(flag);
    data := bs[4..];
    RendersOne(lim, flag, bs[..4]);
    WordAccepts(bs[..4], data + tail, flag.i);
    Resume(bs, 4, tail);
  }

  lemma {:induction false} AcceptsField(env: Env, lim: nat, f: Field, v: Value, union: string, bs: seq<byte>, tail: seq<byte>)
    requires WellFormed(env) && FieldGuarded(env, f) && FieldSound(env, f) && HasType(env, f.schema, v)
    requires Renders(lim, AtomsField(env, f, v, union), bs)
    ensures DecField(env, lim, f, union, bs + tail) ==
            Ok(FieldOut(NormField(env, f, v, union), FieldUnion(env, f, v, union)), |bs|)
    decreases v, 4
  {
    if !f.schema.PtrT? {
      AcceptsBody(env, lim, f.tag, f.schema, v, union, bs, tail);
    } else if v.VNil? {
      assert [UWord(0)] == [UWord(0)] + [];
      var data := FlagThen(lim, false, [], bs, tail);
    } else {
      var s := env[f.schema.target];
      var data := FlagThen(lim, true, AtomsBody(env, f.tag, s, v.to, union), bs, tail);
      AcceptsBody(env, lim, f.tag, s, v.to, union, data, tail);
    }
  }

  lemma {:induction false} AcceptsBody(env: Env, lim: nat, tag: string, s: Schema, v: Value, union: string,
                                       bs: seq<byte>, tail: seq<byte>)
    requires Good(env, s) && HasType(env, s, v) && TagSound(tag, s)
    requires IsUnion(tag) ==> Get(tag, "unioncase") == "" && Get(tag, "unionnotcase") == ""
    requires Renders(lim, AtomsBody(env, tag, s, v, union), bs)
    ensures DecBody(env, lim, tag, s, union, bs + tail) ==
            Ok(FieldOut(NormBody(env, tag, s, v, union), EncUnion(env, tag, s, v, union)), |bs|)
    decreases v, 3
  {
    if Elementwise(tag, s) {
      Accepts(env, lim, s, v, true, bs, tail);
    } else if Selected(tag, union) {
      Accepts(env, lim, s, v, false, bs, tail);
    }
  }

  // ---------------------------------------------------------------- the decoder accepts nothing else

  lemma {:induction false} ZeroType(env: Env, s: Schema)
    ensures HasType(env, s, Zero(s))
    decreases s
  {
    match s
    case FixedArrayT(len, elem) =>
      ZeroType(env, elem);
    case StructT(fields) =>
      forall i | 0 <= i < |fields| ensures HasType(env, fields[i].schema, Zero(fields[i].schema)) {
        ZeroType(env, fields[i].schema);
      }
    case _ =>
  }

  lemma WordReject(bs: seq<byte>)
    requires |bs| == 4
    ensures Put32(Get32(bs)) == bs && Put32(GetInt32(bs)) == bs
  {
    PutGet32(bs);
    PutGetInt32(bs);
  }

  lemma LenRenders(lim: nat, input: seq<byte>)
    requires DecLen(lim, input).Ok?
    ensures AtomRenders(lim, Count(DecLen(lim, input).v), input[..4])
  {
    WordReject(input[..4]);
  }

  lemma FixedOpaqueRenders(lim: nat, size: nat, input: seq<byte>)
    requires size <= MAX_INT32 && DecFixedOpaque(size, input).Ok?
    ensures var r := DecFixedOpaque(size, input);
            |r.v| == size && AtomRenders(lim, Opaque(r.v), input[..r.n])
  {
    var r := DecFixedOpaque(size, input);
    if size > 0 {
      assert input[..r.n][..size] == input[..size];
    }
  }

  lemma RenderedWord(env: Env, lim: nat, s: Schema, ignoreOpaque: bool, input: seq<byte>)
    requires EnvGuarded(env) && (s.IntT? || s.UintT?) && Dec(env, lim, s, ignoreOpaque, input).Ok?
    ensures var r := Dec(env, lim, s, ignoreOpaque, input);
            HasType(env, s, r.v) && Renders(lim, Atoms(env, s, r.v, ignoreOpaque), input[..r.n])
  {
    var r := Dec(env, lim, s, ignoreOpaque, input);
    WordReject(input[..4]);
    RendersOne(lim, if s.IntT? then SWord(r.v.i) else UWord(r.v.i), input[..4]);
  }

  lemma RenderedLong(env: Env, lim: nat, s: Schema, ignoreOpaque: bool, input: seq<byte>)
    requires EnvGuarded(env) && (s.HyperT? || s.UhyperT?) && Dec(env, lim, s, ignoreOpaque, input).Ok?
    ensures var r := Dec(env, lim, s, ignoreOpaque, input);
            HasType(env, s, r.v) && Renders(lim, Atoms(env, s, r.v, ignoreOpaque), input[..r.n])
  {
    var r := Dec(env, lim, s, ignoreOpaque, input);
    PutGet64(input[..8]);
    RendersOne(lim, Long(r.v.i), input[..8]);
  }

  lemma RenderedBool(env: Env, lim: nat, ignoreOpaque: bool, input: seq<byte>)
    requires EnvGuarded(env) && Dec(env, lim, BoolT, ignoreOpaque, input).Ok?
    ensures var r := Dec(env, lim, BoolT, ignoreOpaque, input);
            r.v.VBool? && Renders(lim, [UWord(if r.v.b then 1 else 0)], input[..r.n])
  {
    var r := Dec(env, lim, BoolT, ignoreOpaque, input);
    WordReject(input[..4]);
    RendersOne(lim, UWord(if r.v.b then 1 else 0), input[..4]);
  }

  lemma RenderedString(env: Env, lim: nat, ignoreOpaque: bool, input: seq<byte>)
    requires EnvGuarded(env) && Dec(env, lim, StringT, ignoreOpaque, input).Ok?
    ensures var r := Dec(env, lim, StringT, ignoreOpaque, input);
            r.v.VStr? && Renders(lim, [Count(|r.v.s|), Opaque(r.v.s)], input[..r.n])
  {
    var r := Dec(env, lim, StringT, ignoreOpaque, input);
    var len := DecLen(lim, input).v;
    LenRenders(lim, input);
    FixedOpaqueRenders(lim, len, input[4..]);
    CountCons(lim, len, [Opaque(r.v.s)], input, r.n);
    RendersOne(lim, Opaque(r.v.s), input[4..][..r.n - 4]);
    assert [Count(len), Opaque(r.v.s)] == [Count(len)] + [Opaque(r.v.s)];
  }

  lemma {:induction false} Rendered(env: Env, lim: nat, s: Schema, ignoreOpaque: bool, input: seq<byte>)
    requires Good(env, s) && Dec(env, lim, s, ignoreOpaque, input).Ok?
    ensures var r := Dec(env, lim, s, ignoreOpaque, input);
            && HasType(env, s, r.v) && Norm(env, s, r.v) == r.v
            && Renders(lim, Atoms(env, s, r.v, ignoreOpaque), input[..r.n])
    decreases |input|, s, 0
  {
    match s
    case StringT =>
      RenderedString(env, lim, ignoreOpaque, input);
    case FixedArrayT(len, elem) =>
      RenderedElems(env, lim, elem, len, ignoreOpaque, input);
    case SliceT(elem) =>
      var r := Dec(env, lim, s, ignoreOpaque, input);
      var len := DecLen(lim, input).v;
      LenRenders(lim, input);
      RenderedElems(env, lim, elem, len, ignoreOpaque, input[4..]);
      CountCons(lim, len, AtomsElems(env, elem, r.v.vs, ignoreOpaque), input, r.n);
    case StructT(fields) =>
      RenderedFields(env, lim, fields, "", input);
    case BoolT =>
      RenderedBool(env, lim, ignoreOpaque, input);
    case HyperT =>
      RenderedLong(env, lim, s, ignoreOpaque, input);
    case UhyperT =>
      RenderedLong(env, lim, s, ignoreOpaque, input);
    case _ =>
      RenderedWord(env, lim, s, ignoreOpaque, input);
  }

  lemma CountCons(lim: nat, len: nat, rest: seq<Atom>, input: seq<byte>, n: nat)
    requires 4 <= n <= |input| && AtomRenders(lim, Count(len), input[..4])
    ensures Renders(lim, [Count(len)] + rest, input[..n]) <==> Renders(lim, rest, input[4..][..n - 4])
  {
    RendersConcat(lim, [Count(len)], rest, input[..n]);
    CanonOne(Count(len));
    assert input[..n][..4] == input[..4] && input[..n][4..] == input[4..][..n - 4];
    RendersOne(lim, Count(len), input[..4]);
  }

  lemma {:induction false} RenderedElems(env: Env, lim: nat, elem: Schema, len: nat, ignoreOpaque: bool, input: seq<byte>)
    requires Good(env, elem) && len <= MAX_INT32 && DecElems(env, lim, elem, len, ignoreOpaque, input).Ok?
    ensures var r := DecElems(env, lim, elem, len, ignoreOpaque, input);
            && |r.v| == len && AllType(env, elem, r.v) && NormEach(env, elem, r.v) == r.v
            && Renders(lim, AtomsElems(env, elem, r.v, ignoreOpaque), input[..r.n])
    decreases |input|, elem, len + 2
  {
    if !ignoreOpaque && elem == UintT(W8) {
      var r := DecElems(env, lim, elem, len, ignoreOpaque, input);
      var bs := DecFixedOpaque(len, input).v;
      FixedOpaqueRenders(lim, len, input);
      assert forall i :: 0 <= i < |bs| ==> HasType(env, elem, OctetValues(bs)[i]);
      assert Octets(r.v) == bs;
      NormOctets(env, r.v);
      RendersOne(lim, Opaque(bs), input[..r.n]);
    } else {
      RenderedEach(env, lim, elem, len, input);
    }
  }

  lemma EachUncons(env: Env, lim: nat, elem: Schema, len: nat, input: seq<byte>)
    requires EnvGuarded(env) && Guarded(env, elem) && len > 0 && DecEach(env, lim, elem, len, input).Ok?
    ensures var h := Dec(env, lim, elem, false, input);
            && h.Ok?
            && var t := DecEach(env, lim, elem, len - 1, input[h.n..]);
            && t.Ok? && DecEach(env, lim, elem, len, input) == Ok([h.v] + t.v, h.n + t.n)
  {
  }

  lemma TypedEachCons(env: Env, elem: Schema, v: Value, vs: seq<Value>)
    requires EnvGuarded(env) && Guarded(env, elem) && HasType(env, elem, v) && AllType(env, elem, vs)
    ensures AllType(env, elem, [v] + vs)
    ensures AtomsEach(env, elem, [v] + vs) == Atoms(env, elem, v, false) + AtomsEach(env, elem, vs)
    ensures NormEach(env, elem, [v] + vs) == [Norm(env, elem, v)] + NormEach(env, elem, vs)
  {
    assert ([v] + vs)[1..] == vs;
  }

  lemma RenderedNone(env: Env, lim: nat, elem: Schema, input: seq<byte>)
    requires Good(env, elem)
    ensures var r := DecEach(env, lim, elem, 0, input);
            && r == Ok([], 0) && AllType(env, elem, r.v) && NormEach(env, elem, r.v) == r.v
            && Renders(lim, AtomsEach(env, elem, r.v), input[..r.n])
  {
  }

  lemma {:induction false} RenderedEach(env: Env, lim: nat, elem: Schema, len: nat, input: seq<byte>)
    requires Good(env, elem) && DecEach(env, lim, elem, len, input).Ok?
    ensures var r := DecEach(env, lim, elem, len, input);
            && |r.v| == len && AllType(env, elem, r.v) && NormEach(env, elem, r.v) == r.v
            && Renders(lim, AtomsEach(env, elem, r.v), input[..r.n])
    decreases |input|, elem, len + 1
  {
    hide Dec, DecEach, Atoms, AtomsEach, Norm, NormEach, HasType, AllType, Renders;
    if len == 0 {
      RenderedNone(env, lim, elem, input);
    } else {
      var h := Dec(env, lim, elem, false, input);
      EachUncons(env, lim, elem, len, input);
      Rendered(env, lim, elem, false, input);
      RenderedEach(env, lim, elem, len - 1, input[h.n..]);
      var t := DecEach(env, lim, elem, len - 1, input[h.n..]);
      TypedEachCons(env, elem, h.v, t.v);
      Glue(lim, Atoms(env, elem, h.v, false), AtomsEach(env, elem, t.v), input, h.n, t.n);
    }
  }

  lemma Glue(lim: nat, a: seq<Atom>, b: seq<Atom>, input: seq<byte>, n: nat, m: nat)
    requires n + m <= |input| && Renders(lim, a, input[..n]) && Renders(lim, b, input[n..][..m])
    ensures Renders(lim, a + b, input[..n + m])
  {
    RendersSize(lim, a, input[..n]);
    RendersConcat(lim, a, b, input[..n + m]);
    assert input[..n + m][..n] == input[..n] && input[..n + m][n..] == input[n..][..m];
  }

  lemma FieldsUncons(env: Env, lim: nat, fields: seq<Field>, union: string, input: seq<byte>)
    requires EnvGuarded(env) && FieldsGuarded(env, fields) && fields != []
    requires DecFields(env, lim, fields, union, input).Ok?
    ensures var h := DecField(env, lim, fields[0], union, input);
            && h.Ok?
            && var t := DecFields(env, lim, fields[1..], h.v.union, input[h.n..]);
            && t.Ok? && DecFields(env, lim, fields, union, input) == Ok([h.v.v] + t.v, h.n + t.n)
  {
  }

  lemma TypedCons(env: Env, fields: seq<Field>, v: Value, vs: seq<Value>, union: string)
    requires EnvGuarded(env) && FieldsGuarded(env, fields) && fields != []
    requires HasType(env, fields[0].schema, v) && FieldsType(env, fields[1..], vs)
    ensures FieldsType(env, fields, [v] + vs)
    ensures var u := FieldUnion(env, fields[0], v, union);
            && AtomsFields(env, fields, [v] + vs, union) ==
               AtomsField(env, fields[0], v, union) + AtomsFields(env, fields[1..], vs, u)
            && NormFields(env, fields, [v] + vs, union) ==
               [NormField(env, fields[0], v, union)] + NormFields(env, fields[1..], vs, u)
  {
    var all := [v] + vs;
    assert all[1..] == vs && all[0] == v;
    forall i | 0 <= i < |all| ensures HasType(env, fields[i].schema, all[i]) {
      if i > 0 {
        assert fields[i] == fields[1..][i - 1] && all[i] == vs[i - 1];
      }
    }
  }

  lemma RenderedCons(env: Env, lim: nat, fields: seq<Field>, union: string, input: seq<byte>,
                     v: Value, n: nat, vs: seq<Value>, m: nat)
    requires EnvGuarded(env) && FieldsGuarded(env, fields) && fields != [] && n + m <= |input|
    requires HasType(env, fields[0].schema, v) && NormField(env, fields[0], v, union) == v
    requires Renders(lim, AtomsField(env, fields[0], v, union), input[..n])
    requires FieldsType(env, fields[1..], vs)
    requires var u := FieldUnion(env, fields[0], v, union);
             && NormFields(env, fields[1..], vs, u) == vs
             && Renders(lim, AtomsFields(env, fields[1..], vs, u), input[n..][..m])
    ensures FieldsType(env, fields, [v] + vs) && NormFields(env, fields, [v] + vs, union) == [v] + vs
    ensures Renders(lim, AtomsFields(env, fields, [v] + vs, union), input[..n + m])
  {
    var u := FieldUnion(env, fields[0], v, union);
    TypedCons(env, fields, v, vs, union);
    Glue(lim, AtomsField(env, fields[0], v, union), AtomsFields(env, fields[1..], vs, u), input, n, m);
  }

  lemma RenderedNil(env: Env, lim: nat, union: string, input: seq<byte>)
    requires EnvGuarded(env)
    ensures var r := DecFields(env, lim, [], union, input);
            && r == Ok([], 0) && FieldsType(env, [], r.v) && NormFields(env, [], r.v, union) == r.v
            && Renders(lim, AtomsFields(env, [], r.v, union), input[..r.n])
  {
  }

  lemma {:induction false} RenderedFields(env: Env, lim: nat, fields: seq<Field>, union: string, input: seq<byte>)
    requires FieldsGood(env, fields) && DecFields(env, lim, fields, union, input).Ok?
    ensures var r := DecFields(env, lim, fields, union, input);
            && FieldsType(env, fields, r.v) && NormFields(env, fields, r.v, union) == r.v
            && Renders(lim, AtomsFields(env, fields, r.v, union), input[..r.n])
    decreases |input|, fields, 0
  {
    hide DecField, DecFields, AtomsField, AtomsFields, NormField, NormFields, HasType, FieldsType, Renders;
    if fields == [] {
      RenderedNil(env, lim, union, input);
    } else {
      FieldsTail(env, fields);
      FieldsUncons(env, lim, fields, union, input);
      var h := DecField(env, lim, fields[0], union, input);
      RenderedField(env, lim, fields[0], union, input);
      RenderedFields(env, lim, fields[1..], h.v.union, input[h.n..]);
      var t := DecFields(env, lim, fields[1..], h.v.union, input[h.n..]);
      RenderedCons(env, lim, fields, union, input, h.v.v, h.n, t.v, t.n);
    }
  }

  lemma FlagRenders(lim: nat, input: seq<byte>)
    requires DecBool(input).Ok?
    ensures Renders(lim, [UWord(if DecBool(input).v then 1 else 0)], input[..4])
  {
    WordReject(input[..4]);
    RendersOne(lim, UWord(if DecBool(input).v then 1 else 0), input[..4]);
  }

  lemma RenderedPointer(env: Env, lim: nat, f: Field, union: string, input: seq<byte>, v: Value, n: nat)
    requires EnvGuarded(env) && FieldGuarded(env, f) && f.schema.PtrT? && 4 + n <= |input|
    requires Renders(lim, [UWord(1)], input[..4])
    requires var s := env[f.schema.target];
             && HasType(env, s, v) && NormBody(env, f.tag, s, v, union) == v
             && Renders(lim, AtomsBody(env, f.tag, s, v, union), input[4..][..n])
    ensures HasType(env, f.schema, VPtr(v)) && NormField(env, f, VPtr(v), union) == VPtr(v)
    ensures Renders(lim, AtomsField(env, f, VPtr(v), union), input[..4 + n])
  {
    Glue(lim, [UWord(1)], AtomsBody(env, f.tag, env[f.schema.target], v, union), input, 4, n);
  }

  lemma {:induction false} RenderedField(env: Env, lim: nat, f: Field, union: string, input: seq<byte>)
    requires WellFormed(env) && FieldGuarded(env, f) && FieldSound(env, f) && DecField(env, lim, f, union, input).Ok?
    ensures var r := DecField(env, lim, f, union, input);
            && HasType(env, f.schema, r.v.v) && NormField(env, f, r.v.v, union) == r.v.v
            && r.v.union == FieldUnion(env, f, r.v.v, union)
            && Renders(lim, AtomsField(env, f, r.v.v, union), input[..r.n])
    decreases |input|, f, 0
  {
    if !f.schema.PtrT? {
      RenderedBody(env, lim, f.tag, f.schema, union, input);
    } else {
      FlagRenders(lim, input);
      if DecBool(input).v {
        RenderedBody(env, lim, f.tag, env[f.schema.target], union, input[4..]);
        var b := DecBody(env, lim, f.tag, env[f.schema.target], union, input[4..]);
        RenderedPointer(env, lim, f, union, input, b.v.v, b.n);
      }
    }
  }

  lemma {:induction false} RenderedBody(env: Env, lim: nat, tag: string, s: Schema, union: string, input: seq<byte>)
    requires Good(env, s) && TagSound(tag, s) && DecBody(env, lim, tag, s, union, input).Ok?
    requires IsUnion(tag) ==> Get(tag, "unioncase") == "" && Get(tag, "unionnotcase") == ""
    ensures var r := DecBody(env, lim, tag, s, union, input);
            && HasType(env, s, r.v.v) && NormBody(env, tag, s, r.v.v, union) == r.v.v
            && r.v.union == EncUnion(env, tag, s, r.v.v, union)
            && Renders(lim, AtomsBody(env, tag, s, r.v.v, union), input[..r.n])
    decreases |input|, s, 1
  {
    if Elementwise(tag, s) {
      Rendered(env, lim, s, true, input);
    } else if Selected(tag, union) {
      Rendered(env, lim, s, false, input);
    } else {
      ZeroType(env, s);
    }
  }

  // ---------------------------------------------------------------- main results

  /** Round trip: every value whose encoded part fits the wire comes back, unselected arms zeroed, and the decoder
      stops exactly at the end of the encoding whatever follows. */
  lemma RoundTrip(env: Env, lim: nat, s: Schema, v: Value, tail: seq<byte>)
    requires Good(env, s) && HasType(env, s, v) && AllFit(lim, Atoms(env, s, v, false))
    ensures var e := Enc(env, s, v, false);
            e.err == None && Dec(env, lim, s, false, e.bytes + tail) == Ok(Norm(env, s, v), |e.bytes|)
  {
    EncIsCanon(env, s, v, false);
    var atoms := Atoms(env, s, v, false);
    CanonRenders(lim, atoms);
    Accepts(env, lim, s, v, false, Canon(atoms), tail);
  }

  /** Inverse direction: re-encoding whatever was decoded gives the octets consumed, with padding set to zero. */
  lemma ReEncode(env: Env, lim: nat, s: Schema, input: seq<byte>)
    requires Good(env, s) && Dec(env, lim, s, false, input).Ok?
    ensures var r := Dec(env, lim, s, false, input);
            && HasType(env, s, r.v)
            && var e := Enc(env, s, r.v, false);
            && var atoms := Atoms(env, s, r.v, false);
            && e.err == None && |e.bytes| == r.n == Size(atoms)
            && forall i :: 0 <= i < r.n ==> e.bytes[i] == if IsPadding(atoms, i) then 0 else input[i]
  {
    var r := Dec(env, lim, s, false, input);
    Rendered(env, lim, s, false, input);
    EncIsCanon(env, s, r.v, false);
    var atoms := Atoms(env, s, r.v, false);
    RendersSize(lim, atoms, input[..r.n]);
    forall i | 0 <= i < r.n ensures Canon(atoms)[i] == if IsPadding(atoms, i) then 0 else input[i] {
      RendersAgree(lim, atoms, input[..r.n], i);
    }
  }

  /** The decoder is exactly the rendering relation. */
  lemma DecodesExactly(env: Env, lim: nat, s: Schema, v: Value, input: seq<byte>, n: nat)
    requires Good(env, s)
    ensures Dec(env, lim, s, false, input) == Ok(v, n) <==>
            && HasType(env, s, v) && Norm(env, s, v) == v && n <= |input|
            && Renders(lim, Atoms(env, s, v, false), input[..n])
  {
    if Dec(env, lim, s, false, input) == Ok(v, n) {
      Rendered(env, lim, s, false, input);
    } else if HasType(env, s, v) && Norm(env, s, v) == v && n <= |input| {
      Reads(env, lim, s, v, input, n);
    }
  }

  lemma Reads(env: Env, lim: nat, s: Schema, v: Value, input: seq<byte>, n: nat)
    requires Good(env, s) && HasType(env, s, v) && n <= |input|
    ensures Renders(lim, Atoms(env, s, v, false), input[..n]) ==>
            Dec(env, lim, s, false, input) == Ok(Norm(env, s, v), n)
  {
    if Renders(lim, Atoms(env, s, v, false), input[..n]) {
      assert input[..n] + input[n..] == input;
      Accepts(env, lim, s, v, false, input[..n], input[n..]);
    }
  }

  /** No encoding is a proper prefix of another, and equal encodings mean equal values up to unselected arms. */
  lemma PrefixFree(env: Env, s: Schema, v: Value, w: Value)
    requires Good(env, s) && HasType(env, s, v) && HasType(env, s, w)
    requires AllFit(0, Atoms(env, s, v, false)) && AllFit(0, Atoms(env, s, w, false))
    requires Enc(env, s, v, false).bytes <= Enc(env, s, w, false).bytes
    ensures Enc(env, s, v, false) == Enc(env, s, w, false)
    ensures Norm(env, s, v) == Norm(env, s, w)
  {
    hide Enc, Dec, Norm, HasType, Atoms, AllFit;
    var a, b := Enc(env, s, v, false).bytes, Enc(env, s, w, false).bytes;
    RoundTrip(env, 0, s, v, b[|a|..]);
    RoundTrip(env, 0, s, w, []);
    assert a + b[|a|..] == b == b + [];
  }
}
