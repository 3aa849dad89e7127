/** Which input fails, with which error, and what of it was read by then. */
module XdrErrors {
  import opened Bytes
  import opened Xdr

  // ---------------------------------------------------------------- one item

  /** The ranges of Go's integer types. */
  lemma WidthBounds()
    ensures Lo(W8) == -128 && SHi(W8) == 128 && UHi(W8) == 256
    ensures Lo(W16) == -32768 && SHi(W16) == 32768 && UHi(W16) == 65536
    ensures Lo(W32) == -2147483648 && SHi(W32) == 2147483648 && UHi(W32) == 4294967296
    ensures Lo(WGo) == -9223372036854775808 && SHi(WGo) == 9223372036854775808 && UHi(WGo) == 18446744073709551616
  {
  }

  /** Four octets that are there are always read; what they say then fits the type or is an error of its own. */
  lemma ScalarOutcomes(env: Env, lim: nat, w: Width, input: seq<byte>)
    requires EnvGuarded(env) && |input| >= 4
    ensures var i, u := GetInt32(input[..4]), Get32(input[..4]);
            && Dec(env, lim, IntT(w), false, input) == (if Lo(w) <= i < SHi(w) then Ok(VInt(i), 4) else Err(Overflow, 4))
            && Dec(env, lim, UintT(w), false, input) == (if u < UHi(w) then Ok(VInt(u), 4) else Err(Overflow, 4))
            && Dec(env, lim, BoolT, false, input) ==
               (if u == 0 then Ok(VBool(false), 4) else if u == 1 then Ok(VBool(true), 4) else Err(BadEnumValue, 4))
            && DecLen(lim, input) == (if u > 0x7FFF_FFFF || (lim != 0 && u > lim) then Err(Overflow, 4) else Ok(u, 4))
  {
  }

  /** An optional tag on anything but a pointer, and a union tag on anything but a number or a flag, is an error of both
      sides: the encoder writes nothing for it, and the decoder has read the value of the latter by then. */
  lemma BadTags(env: Env, lim: nat, tag: string, s: Schema, v: Value, u: string, input: seq<byte>)
    requires EnvGuarded(env) && Guarded(env, s) && HasType(env, s, v)
    ensures IsOptional(tag) ==>
              && EncField(env, Field(tag, s), v, u) == Emit([], Some(BadOptional))
              && DecField(env, lim, Field(tag, s), u, input) == Err(BadOptional, 0)
    ensures IsUnion(tag) && !Discriminable(s) && !Elementwise(tag, s) ==>
              && EncBody(env, tag, s, v, u) == Emit([], Some(BadDiscriminant))
              && (Selected(tag, u) && Dec(env, lim, s, false, input).Ok? ==>
                    DecBody(env, lim, tag, s, u, input) == Err(BadDiscriminant, Dec(env, lim, s, false, input).n))
  {
  }

  // ---------------------------------------------------------------- truncated input

  /** q is the outcome on the first m octets of an input with outcome p: the same if that is all that was read, else the
      read error, with all m octets taken. */
  ghost predicate Cut<T>(p: Parsed<T>, q: Parsed<T>, m: nat) {
    p.Ok? ==> q == if p.n <= m then p else Err(IO, m)
  }

  lemma CutScalar(env: Env, lim: nat, s: Schema, ignoreOpaque: bool, input: seq<byte>, m: nat)
    requires EnvGuarded(env) && Discriminable(s) && m <= |input|
    ensures Cut(Dec(env, lim, s, ignoreOpaque, input), Dec(env, lim, s, ignoreOpaque, input[..m]), m)
  {
    if m >= 4 {
      assert input[..m][..4] == input[..4];
    }
    if m >= 8 {
      assert input[..m][..8] == input[..8];
    }
  }

  lemma CutBool(input: seq<byte>, m: nat)
    requires m <= |input|
    ensures Cut(DecBool(input), DecBool(input[..m]), m)
  {
    if m >= 4 {
      assert input[..m][..4] == input[..4];
    }
  }

  lemma CutLen(lim: nat, input: seq<byte>, m: nat)
    requires m <= |input|
    ensures Cut(DecLen(lim, input), DecLen(lim, input[..m]), m)
  {
    if m >= 4 {
      assert input[..m][..4] == input[..4];
    }
  }

  lemma CutOpaque(size: nat, input: seq<byte>, m: nat)
    requires size <= MAX_INT32 && m <= |input|
    ensures Cut(DecFixedOpaque(size, input), DecFixedOpaque(size, input[..m]), m)
  {
    if size <= m {
      assert input[..m][..size] == input[..size];
    }
  }

  lemma Rest(input: seq<byte>, m: nat, n: nat)
    requires n <= m <= |input|
    ensures input[..m][n..] == input[n..][..m - n]
  {
  }

  lemma CutString(env: Env, lim: nat, input: seq<byte>, m: nat)
    requires EnvGuarded(env) && m <= |input|
    ensures Cut(Dec(env, lim, StringT, false, input), Dec(env, lim, StringT, false, input[..m]), m)
    ensures Dec(env, lim, StringT, true, input) == Dec(env, lim, StringT, false, input)
    ensures Dec(env, lim, StringT, true, input[..m]) == Dec(env, lim, StringT, false, input[..m])
  {
    CutLen(lim, input, m);
    var l := DecLen(lim, input);
    if l.Ok? && m >= 4 {
      Rest(input, m, 4);
      CutOpaque(l.v, input[4..], m - 4);
    }
  }

  lemma CutSlice(env: Env, lim: nat, elem: Schema, ignoreOpaque: bool, input: seq<byte>, m: nat)
    requires EnvGuarded(env) && Guarded(env, elem) && m <= |input|
    requires var l := DecLen(lim, input);
             l.Ok? && m >= 4 ==> Cut(DecElems(env, lim, elem, l.v, ignoreOpaque, input[4..]),
                                     DecElems(env, lim, elem, l.v, ignoreOpaque, input[4..][..m - 4]), m - 4)
    ensures Cut(Dec(env, lim, SliceT(elem), ignoreOpaque, input), Dec(env, lim, SliceT(elem), ignoreOpaque, input[..m]), m)
  {
    CutLen(lim, input, m);
    if m >= 4 {
      Rest(input, m, 4);
    }
  }

  lemma CutArray(env: Env, lim: nat, len: nat, elem: Schema, ignoreOpaque: bool, input: seq<byte>, m: nat)
    requires EnvGuarded(env) && Guarded(env, FixedArrayT(len, elem)) && m <= |input|
    requires Cut(DecElems(env, lim, elem, len, ignoreOpaque, input), DecElems(env, lim, elem, len, ignoreOpaque, input[..m]), m)
    ensures Cut(Dec(env, lim, FixedArrayT(len, elem), ignoreOpaque, input),
                Dec(env, lim, FixedArrayT(len, elem), ignoreOpaque, input[..m]), m)
  {
  }

  lemma CutStruct(env: Env, lim: nat, fields: seq<Field>, ignoreOpaque: bool, input: seq<byte>, m: nat)
    requires EnvGuarded(env) && FieldsGuarded(env, fields) && m <= |input|
    requires Cut(DecFields(env, lim, fields, "", input), DecFields(env, lim, fields, "", input[..m]), m)
    ensures Cut(Dec(env, lim, StructT(fields), ignoreOpaque, input), Dec(env, lim, StructT(fields), ignoreOpaque, input[..m]), m)
  {
  }

  /** Truncation: cut an input that decodes before the last octet that was read, and decoding fails with the read error
      and has taken all there was; cut it behind, and nothing changes. */
  lemma {:induction false} Truncated(env: Env, lim: nat, s: Schema, ignoreOpaque: bool, input: seq<byte>, m: nat)
    requires EnvGuarded(env) && Guarded(env, s) && m <= |input|
    ensures Cut(Dec(env, lim, s, ignoreOpaque, input), Dec(env, lim, s, ignoreOpaque, input[..m]), m)
    decreases |input|, s, 0
  {
    hide Dec, DecElems, DecFields, DecLen, Cut;
    match s
    case StringT =>
      CutString(env, lim, input, m);
    case FixedArrayT(len, elem) =>
      CutElems(env, lim, elem, len, ignoreOpaque, input, m);
      CutArray(env, lim, len, elem, ignoreOpaque, input, m);
    case SliceT(elem) =>
      var l := DecLen(lim, input);
      if l.Ok? && m >= 4 {
        CutElems(env, lim, elem, l.v, ignoreOpaque, input[4..], m - 4);
      }
      CutSlice(env, lim, elem, ignoreOpaque, input, m);
    case StructT(fields) =>
      CutFields(env, lim, fields, "", input, m);
      CutStruct(env, lim, fields, ignoreOpaque, input, m);
    case _ =>
      CutScalar(env, lim, s, ignoreOpaque, input, m);
  }

  lemma {:induction false} CutElems(env: Env, lim: nat, elem: Schema, len: nat, ignoreOpaque: bool, input: seq<byte>, m: nat)
    requires EnvGuarded(env) && Guarded(env, elem) && len <= MAX_INT32 && m <= |input|
    ensures Cut(DecElems(env, lim, elem, len, ignoreOpaque, input), DecElems(env, lim, elem, len, ignoreOpaque, input[..m]), m)
    decreases |input|, elem, len + 2
  {
    hide DecEach, DecFixedOpaque;
    if ignoreOpaque || elem != UintT(W8) {
      CutEach(env, lim, elem, len, input, m);
    } else {
      CutOpaque(len, input, m);
    }
  }

  lemma CutNone(env: Env, lim: nat, elem: Schema, input: seq<byte>, m: nat)
    requires EnvGuarded(env) && Guarded(env, elem) && m <= |input|
    ensures Cut(DecEach(env, lim, elem, 0, input), DecEach(env, lim, elem, 0, input[..m]), m)
  {
  }

  lemma CutCons(env: Env, lim: nat, elem: Schema, len: nat, input: seq<byte>, m: nat)
    requires EnvGuarded(env) && Guarded(env, elem) && len > 0 && m <= |input|
    requires Cut(Dec(env, lim, elem, false, input), Dec(env, lim, elem, false, input[..m]), m)
    requires var n := Dec(env, lim, elem, false, input).n;
             Dec(env, lim, elem, false, input).Ok? && n <= m ==>
               Cut(DecEach(env, lim, elem, len - 1, input[n..]), DecEach(env, lim, elem, len - 1, input[n..][..m - n]), m - n)
    ensures Cut(DecEach(env, lim, elem, len, input), DecEach(env, lim, elem, len, input[..m]), m)
  {
    hide Dec;
    var h := Dec(env, lim, elem, false, input);
    if h.Ok? && h.n <= m {
      Rest(input, m, h.n);
    }
  }

  lemma {:induction false} CutEach(env: Env, lim: nat, elem: Schema, len: nat, input: seq<byte>, m: nat)
    requires EnvGuarded(env) && Guarded(env, elem) && m <= |input|
    ensures Cut(DecEach(env, lim, elem, len, input), DecEach(env, lim, elem, len, input[..m]), m)
    decreases |input|, elem, len + 1
  {
    hide Dec, DecEach, Cut;
    if len == 0 {
      CutNone(env, lim, elem, input, m);
    } else {
      Truncated(env, lim, elem, false, input, m);
      var h := Dec(env, lim, elem, false, input);
      if h.Ok? && h.n <= m {
        CutEach(env, lim, elem, len - 1, input[h.n..], m - h.n);
      }
      CutCons(env, lim, elem, len, input, m);
    }
  }

  lemma CutFieldsCons(env: Env, lim: nat, fields: seq<Field>, u: string, input: seq<byte>, m: nat)
    requires EnvGuarded(env) && FieldsGuarded(env, fields) && fields != [] && m <= |input|
    requires Cut(DecField(env, lim, fields[0], u, input), DecField(env, lim, fields[0], u, input[..m]), m)
    requires var h := DecField(env, lim, fields[0], u, input);
             h.Ok? && h.n <= m ==>
               Cut(DecFields(env, lim, fields[1..], h.v.union, input[h.n..]),
                   DecFields(env, lim, fields[1..], h.v.union, input[h.n..][..m - h.n]), m - h.n)
    ensures Cut(DecFields(env, lim, fields, u, input), DecFields(env, lim, fields, u, input[..m]), m)
  {
    hide DecField;
    var h := DecField(env, lim, fields[0], u, input);
    if h.Ok? && h.n <= m {
      Rest(input, m, h.n);
    }
  }

  lemma {:induction false} CutFields(env: Env, lim: nat, fields: seq<Field>, u: string, input: seq<byte>, m: nat)
    requires EnvGuarded(env) && FieldsGuarded(env, fields) && m <= |input|
    ensures Cut(DecFields(env, lim, fields, u, input), DecFields(env, lim, fields, u, input[..m]), m)
    decreases |input|, fields, 0
  {
    hide DecField;
    if fields != [] {
      CutField(env, lim, fields[0], u, input, m);
      var h := DecField(env, lim, fields[0], u, input);
      if h.Ok? && h.n <= m {
        CutFields(env, lim, fields[1..], h.v.union, input[h.n..], m - h.n);
      }
      CutFieldsCons(env, lim, fields, u, input, m);
    }
  }

  lemma {:induction false} CutField(env: Env, lim: nat, f: Field, u: string, input: seq<byte>, m: nat)
    requires EnvGuarded(env) && FieldGuarded(env, f) && m <= |input|
    ensures Cut(DecField(env, lim, f, u, input), DecField(env, lim, f, u, input[..m]), m)
    decreases |input|, f, 0
  {
    hide DecBody, DecBool;
    if !IsOptional(f.tag) {
      CutBody(env, lim, f.tag, f.schema, u, input, m);
    } else if f.schema.PtrT? {
      CutBool(input, m);
      if DecBool(input) == Ok(true, 4) && m >= 4 {
        Rest(input, m, 4);
        CutBody(env, lim, f.tag, env[f.schema.target], u, input[4..], m - 4);
      }
    }
  }

  lemma {:induction false} CutBody(env: Env, lim: nat, tag: string, s: Schema, u: string, input: seq<byte>, m: nat)
    requires EnvGuarded(env) && Guarded(env, s) && m <= |input|
    ensures Cut(DecBody(env, lim, tag, s, u, input), DecBody(env, lim, tag, s, u, input[..m]), m)
    decreases |input|, s, 1
  {
    hide Dec;
    Truncated(env, lim, s, Elementwise(tag, s), input, m);
  }
}
