/** The read limit of UnmarshalLimited, and the 32-bit padding check. */
module XdrLimits {
  import opened Bytes
  import opened Xdr
  import opened XdrLaws

  /** The padding arithmetic wraps, yet the check rejects exactly the sizes whose padded length exceeds MaxInt32. */
  lemma PaddingCheckExact(size: nat, input: seq<byte>)
    requires size <= MAX_INT32
    ensures DecFixedOpaque(size, input) == Err(Overflow, 0) <==> size + Pad(size) > MAX_INT32
    ensures DecFixedOpaque(size, input).Ok? <==> size + Pad(size) <= MAX_INT32 && size + Pad(size) <= |input|
  {
    if size + Pad(size) > MAX_INT32 {
      assert size + Pad(size) == TWO_31;
      assert Wrap32(TWO_31) == -TWO_31;
    }
  }

  lemma {:induction false} RendersUnlimited(lim: nat, atoms: seq<Atom>, bs: seq<byte>)
    requires Renders(lim, atoms, bs)
    ensures Renders(0, atoms, bs)
  {
    if atoms != [] {
      RendersUnlimited(lim, atoms[1..], bs[AtomSize(atoms[0])..]);
    }
  }

  lemma {:induction false} RendersLimited(lim: nat, atoms: seq<Atom>, bs: seq<byte>)
    requires Renders(0, atoms, bs) && AllFit(lim, atoms)
    ensures Renders(lim, atoms, bs)
  {
    if atoms != [] {
      RendersLimited(lim, atoms[1..], bs[AtomSize(atoms[0])..]);
    }
  }

  /** A limited decode that succeeds gives what the unlimited one gives. */
  lemma LimitedRefines(env: Env, lim: nat, s: Schema, input: seq<byte>)
    requires Good(env, s) && Dec(env, lim, s, false, input).Ok?
    ensures Dec(env, 0, s, false, input) == Dec(env, lim, s, false, input)
  {
    var r := Dec(env, lim, s, false, input);
    Rendered(env, lim, s, false, input);
    RendersUnlimited(lim, Atoms(env, s, r.v, false), input[..r.n]);
    Reads(env, 0, s, r.v, input, r.n);
  }

  /** An unlimited success survives the limit exactly when every count in the decoded value is within it. */
  lemma LimitedSucceedsIff(env: Env, lim: nat, s: Schema, input: seq<byte>)
    requires Good(env, s) && Dec(env, 0, s, false, input).Ok?
    ensures Dec(env, lim, s, false, input) == Dec(env, 0, s, false, input) <==>
            HasType(env, s, Dec(env, 0, s, false, input).v) && AllFit(lim, Atoms(env, s, Dec(env, 0, s, false, input).v, false))
  {
    var r := Dec(env, 0, s, false, input);
    Rendered(env, 0, s, false, input);
    var atoms := Atoms(env, s, r.v, false);
    if Dec(env, lim, s, false, input) == r {
      Rendered(env, lim, s, false, input);
      RendersFit(lim, atoms, input[..r.n]);
    }
    if AllFit(lim, atoms) {
      RendersLimited(lim, atoms, input[..r.n]);
      Reads(env, lim, s, r.v, input, r.n);
    }
  }

  /** Two outcomes agree, or the first is an overflow right after a count word above the limit. */
  ghost predicate SameOrOver<T>(lim: nat, input: seq<byte>, a: Parsed<T>, b: Parsed<T>) {
    a == b || (a.Err? && a.code == Overflow && 4 <= a.n <= |input| && Get32(input[a.n - 4..a.n]) > lim > 0)
  }

  lemma LenOver(lim: nat, input: seq<byte>)
    ensures SameOrOver(lim, input, DecLen(lim, input), DecLen(0, input))
  {
    if |input| >= 4 {
      assert input[4 - 4..4] == input[..4];
    }
  }

  /** The property passes from the rest of the input, after n octets, to a result that continues with it. */
  lemma Continue<T, U>(lim: nat, input: seq<byte>, n: nat, t: Parsed<T>, t0: Parsed<T>, a: Parsed<U>, b: Parsed<U>)
    requires n <= |input| && SameOrOver(lim, input[n..], t, t0)
    requires t == t0 ==> a == b
    requires t.Err? ==> a == Err(t.code, n + t.n)
    ensures SameOrOver(lim, input, a, b)
  {
    if t != t0 {
      assert input[n..][t.n - 4..t.n] == input[n + t.n - 4..n + t.n];
    }
  }

  lemma LimitedScalar(env: Env, lim: nat, s: Schema, ignoreOpaque: bool, input: seq<byte>)
    requires EnvGuarded(env) && (Discriminable(s) || s.StringT?)
    ensures SameOrOver(lim, input, Dec(env, lim, s, ignoreOpaque, input), Dec(env, 0, s, ignoreOpaque, input))
  {
    LenOver(lim, input);
  }

  lemma LimitedSlice(env: Env, lim: nat, elem: Schema, ignoreOpaque: bool, input: seq<byte>)
    requires EnvGuarded(env) && Guarded(env, elem)
    requires var l := DecLen(lim, input);
             l.Ok? ==> SameOrOver(lim, input[l.n..], DecElems(env, lim, elem, l.v, ignoreOpaque, input[l.n..]),
                                  DecElems(env, 0, elem, l.v, ignoreOpaque, input[l.n..]))
    ensures SameOrOver(lim, input, Dec(env, lim, SliceT(elem), ignoreOpaque, input), Dec(env, 0, SliceT(elem), ignoreOpaque, input))
  {
    LenOver(lim, input);
    var l := DecLen(lim, input);
    if l.Ok? {
      Continue(lim, input, l.n, DecElems(env, lim, elem, l.v, ignoreOpaque, input[l.n..]),
               DecElems(env, 0, elem, l.v, ignoreOpaque, input[l.n..]),
               Dec(env, lim, SliceT(elem), ignoreOpaque, input), Dec(env, 0, SliceT(elem), ignoreOpaque, input));
    }
  }

  lemma LimitedArray(env: Env, lim: nat, len: nat, elem: Schema, ignoreOpaque: bool, input: seq<byte>)
    requires EnvGuarded(env) && Guarded(env, FixedArrayT(len, elem))
    requires SameOrOver(lim, input, DecElems(env, lim, elem, len, ignoreOpaque, input),
                        DecElems(env, 0, elem, len, ignoreOpaque, input))
    ensures SameOrOver(lim, input, Dec(env, lim, FixedArrayT(len, elem), ignoreOpaque, input),
                       Dec(env, 0, FixedArrayT(len, elem), ignoreOpaque, input))
  {
  }

  lemma LimitedStruct(env: Env, lim: nat, fields: seq<Field>, ignoreOpaque: bool, input: seq<byte>)
    requires EnvGuarded(env) && FieldsGuarded(env, fields)
    requires SameOrOver(lim, input, DecFields(env, lim, fields, "", input), DecFields(env, 0, fields, "", input))
    ensures SameOrOver(lim, input, Dec(env, lim, StructT(fields), ignoreOpaque, input),
                       Dec(env, 0, StructT(fields), ignoreOpaque, input))
  {
  }

  /** On every input, limited and unlimited decoding differ only by an overflow at a count above the limit. */
  lemma {:induction false} LimitedDiffers(env: Env, lim: nat, s: Schema, ignoreOpaque: bool, input: seq<byte>)
    requires EnvGuarded(env) && Guarded(env, s)
    ensures SameOrOver(lim, input, Dec(env, lim, s, ignoreOpaque, input), Dec(env, 0, s, ignoreOpaque, input))
    decreases |input|, s, 0
  {
    hide Dec, DecElems, DecFields, DecLen, SameOrOver;
    match s
    case FixedArrayT(len, elem) =>
      LimitedElems(env, lim, elem, len, ignoreOpaque, input);
      LimitedArray(env, lim, len, elem, ignoreOpaque, input);
    case SliceT(elem) =>
      var l := DecLen(lim, input);
      if l.Ok? {
        LimitedElems(env, lim, elem, l.v, ignoreOpaque, input[l.n..]);
      }
      LimitedSlice(env, lim, elem, ignoreOpaque, input);
    case StructT(fields) =>
      LimitedFields(env, lim, fields, "", input);
      LimitedStruct(env, lim, fields, ignoreOpaque, input);
    case _ =>
      LimitedScalar(env, lim, s, ignoreOpaque, input);
  }

  lemma {:induction false} LimitedElems(env: Env, lim: nat, elem: Schema, len: nat, ignoreOpaque: bool, input: seq<byte>)
    requires EnvGuarded(env) && Guarded(env, elem) && len <= MAX_INT32
    ensures SameOrOver(lim, input, DecElems(env, lim, elem, len, ignoreOpaque, input),
                       DecElems(env, 0, elem, len, ignoreOpaque, input))
    decreases |input|, elem, len + 2
  {
    if ignoreOpaque || elem != UintT(W8) {
      LimitedEach(env, lim, elem, len, input);
    }
  }

  lemma LimitedNone(env: Env, lim: nat, elem: Schema, input: seq<byte>)
    requires EnvGuarded(env) && Guarded(env, elem)
    ensures SameOrOver(lim, input, DecEach(env, lim, elem, 0, input), DecEach(env, 0, elem, 0, input))
  {
  }

  lemma LimitedCons(env: Env, lim: nat, elem: Schema, len: nat, input: seq<byte>)
    requires EnvGuarded(env) && Guarded(env, elem) && len > 0
    requires SameOrOver(lim, input, Dec(env, lim, elem, false, input), Dec(env, 0, elem, false, input))
    requires var h := Dec(env, lim, elem, false, input);
             h.Ok? ==> SameOrOver(lim, input[h.n..], DecEach(env, lim, elem, len - 1, input[h.n..]),
                                  DecEach(env, 0, elem, len - 1, input[h.n..]))
    ensures SameOrOver(lim, input, DecEach(env, lim, elem, len, input), DecEach(env, 0, elem, len, input))
  {
    var h := Dec(env, lim, elem, false, input);
    if h.Ok? {
      Continue(lim, input, h.n, DecEach(env, lim, elem, len - 1, input[h.n..]), DecEach(env, 0, elem, len - 1, input[h.n..]),
               DecEach(env, lim, elem, len, input), DecEach(env, 0, elem, len, input));
    }
  }

  lemma {:induction false} LimitedEach(env: Env, lim: nat, elem: Schema, len: nat, input: seq<byte>)
    requires EnvGuarded(env) && Guarded(env, elem)
    ensures SameOrOver(lim, input, DecEach(env, lim, elem, len, input), DecEach(env, 0, elem, len, input))
    decreases |input|, elem, len + 1
  {
    hide Dec, DecEach, SameOrOver;
    if len == 0 {
      LimitedNone(env, lim, elem, input);
    } else {
      LimitedDiffers(env, lim, elem, false, input);
      var h := Dec(env, lim, elem, false, input);
      if h.Ok? {
        LimitedEach(env, lim, elem, len - 1, input[h.n..]);
      }
      LimitedCons(env, lim, elem, len, input);
    }
  }

  lemma {:induction false} LimitedFields(env: Env, lim: nat, fields: seq<Field>, union: string, input: seq<byte>)
    requires EnvGuarded(env) && FieldsGuarded(env, fields)
    ensures SameOrOver(lim, input, DecFields(env, lim, fields, union, input), DecFields(env, 0, fields, union, input))
    decreases |input|, fields, 0
  {
    hide DecField;
    if fields != [] {
      LimitedField(env, lim, fields[0], union, input);
      var h := DecField(env, lim, fields[0], union, input);
      if h.Ok? {
        LimitedFields(env, lim, fields[1..], h.v.union, input[h.n..]);
        Continue(lim, input, h.n, DecFields(env, lim, fields[1..], h.v.union, input[h.n..]),
                 DecFields(env, 0, fields[1..], h.v.union, input[h.n..]),
                 DecFields(env, lim, fields, union, input), DecFields(env, 0, fields, union, input));
      }
    }
  }

  lemma {:induction false} LimitedField(env: Env, lim: nat, f: Field, union: string, input: seq<byte>)
    requires EnvGuarded(env) && FieldGuarded(env, f)
    ensures SameOrOver(lim, input, DecField(env, lim, f, union, input), DecField(env, 0, f, union, input))
    decreases |input|, f, 0
  {
    hide Dec, DecBody;
    if !IsOptional(f.tag) {
      LimitedBody(env, lim, f.tag, f.schema, union, input);
    } else if f.schema.PtrT? && DecBool(input) == Ok(true, 4) {
      LimitedBody(env, lim, f.tag, env[f.schema.target], union, input[4..]);
      Continue(lim, input, 4, DecBody(env, lim, f.tag, env[f.schema.target], union, input[4..]),
               DecBody(env, 0, f.tag, env[f.schema.target], union, input[4..]),
               DecField(env, lim, f, union, input), DecField(env, 0, f, union, input));
    }
  }

  lemma {:induction false} LimitedBody(env: Env, lim: nat, tag: string, s: Schema, union: string, input: seq<byte>)
    requires EnvGuarded(env) && Guarded(env, s)
    ensures SameOrOver(lim, input, DecBody(env, lim, tag, s, union, input), DecBody(env, 0, tag, s, union, input))
    decreases |input|, s, 1
  {
    hide Dec;
    LimitedDiffers(env, lim, s, Elementwise(tag, s), input);
  }
}
