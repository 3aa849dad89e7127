/** xdr/encode.go and xdr/decode.go as the stateful objects they are: an Encoder over a writer that may fail, and a
    Decoder over a reader that may run dry. Every method is tied to the functions of module Xdr. */
module XdrCodec {
  import opened Bytes
  import opened XdrTag
  import opened Xdr
  import opened XdrLaws
  import opened XdrArms

  /** io.Writer: takes `capacity` octets in all, then fails; a write may be cut short. */
  class Writer {
    var out: seq<byte>
    const capacity: nat

    constructor (capacity: nat)
      ensures out == [] && this.capacity == capacity
    {
      out := [];
      this.capacity := capacity;
    }

    method Write(bs: seq<byte>) returns (n: nat, err: Option<ErrorCode>)
      requires |out| <= capacity
      modifies this
      ensures Emitted(old(out), capacity, Out(bs), out, n, err)
    {
      n := MinOf(|bs|, capacity - |out|);
      out := out + bs[..n];
      err := if n < |bs| then Some(IO) else None;
    }
  }

  /** `after` is what a writer holds once it was offered e.bytes; n octets of them went through. */
  ghost predicate Emitted(before: seq<byte>, capacity: nat, e: Emit, after: seq<byte>, n: nat, err: Option<ErrorCode>) {
    && |before| <= capacity
    && n == MinOf(|e.bytes|, capacity - |before|)
    && after == before + e.bytes[..n]
    && err == (if |e.bytes| > capacity - |before| then Some(IO) else e.err)
  }

  lemma EmittedThen(before: seq<byte>, capacity: nat, a: Emit, mid: seq<byte>, n: nat, b: Emit, after: seq<byte>, m: nat,
                    err: Option<ErrorCode>)
    requires Emitted(before, capacity, a, mid, n, None) && Emitted(mid, capacity, b, after, m, err)
    ensures Emitted(before, capacity, Then(a, b), after, n + m, err)
  {
    assert a.bytes[..n] == a.bytes;
    assert (a.bytes + b.bytes)[..n + m] == a.bytes + b.bytes[..m];
    ConcatAssoc(before, a.bytes, b.bytes[..m]);
  }

  lemma EmittedStop(before: seq<byte>, capacity: nat, a: Emit, mid: seq<byte>, n: nat, b: Emit, err: Option<ErrorCode>)
    requires Emitted(before, capacity, a, mid, n, err) && err.Some?
    ensures Emitted(before, capacity, Then(a, b), mid, n, err)
  {
    assert (a.bytes + b.bytes)[..n] == a.bytes[..n];
  }

  lemma ThenUnit(a: Emit)
    ensures Then(Out([]), a) == a && Then(a, Out([])) == a
  {
    assert [] + a.bytes == a.bytes && a.bytes + [] == a.bytes;
  }

  /** One round of an encoding loop: `done` is out, `head` was just offered, `rest` is still to come. */
  lemma EmittedRound(before: seq<byte>, capacity: nat, done: Emit, mid: seq<byte>, n: nat,
                     head: Emit, after: seq<byte>, m: nat, err: Option<ErrorCode>, rest: Emit)
    requires Emitted(before, capacity, done, mid, n, None) && Emitted(mid, capacity, head, after, m, err)
    ensures |after| <= capacity
    ensures Then(done, Then(head, rest)) == Then(Then(done, head), rest)
    ensures Emitted(before, capacity, Then(done, head), after, n + m, err)
    ensures err.Some? ==> Emitted(before, capacity, Then(done, Then(head, rest)), after, n + m, err)
  {
    ConcatAssoc(done.bytes, head.bytes, rest.bytes);
    EmittedThen(before, capacity, done, mid, n, head, after, m, err);
    if err.Some? {
      EmittedStop(before, capacity, Then(done, head), after, n + m, rest, err);
    }
  }

  lemma EmittedNothing(before: seq<byte>, capacity: nat)
    requires |before| <= capacity
    ensures Emitted(before, capacity, Out([]), before, 0, None)
  {
  }

  lemma NothingLeft(env: Env, elem: Schema, vs: seq<Value>)
    requires EnvGuarded(env) && Guarded(env, elem) && vs == []
    ensures AllType(env, elem, vs) && EncEach(env, elem, vs) == Out([])
  {
  }

  lemma EncEachAt(env: Env, elem: Schema, vs: seq<Value>, i: nat)
    requires EnvGuarded(env) && Guarded(env, elem) && AllType(env, elem, vs) && i < |vs|
    ensures HasType(env, elem, vs[i]) && AllType(env, elem, vs[i..]) && AllType(env, elem, vs[i + 1..])
    ensures EncEach(env, elem, vs[i..]) == Then(Enc(env, elem, vs[i], false), EncEach(env, elem, vs[i + 1..]))
  {
    assert vs[i..][1..] == vs[i + 1..];
  }

  lemma EncFieldsAt(env: Env, fields: seq<Field>, vs: seq<Value>, union: string, i: nat)
    requires EnvGuarded(env) && FieldsGuarded(env, fields) && i < |fields| == |vs| && FieldsType(env, fields[i..], vs[i..])
    ensures FieldGuarded(env, fields[i]) && HasType(env, fields[i].schema, vs[i])
    ensures FieldsType(env, fields[i + 1..], vs[i + 1..])
    ensures EncFields(env, fields[i..], vs[i..], union) ==
            Then(EncField(env, fields[i], vs[i], union),
                 EncFields(env, fields[i + 1..], vs[i + 1..], FieldUnion(env, fields[i], vs[i], union)))
  {
    assert fields[i..][1..] == fields[i + 1..] && vs[i..][1..] == vs[i + 1..];
    assert fields[i..][0] == fields[i] && vs[i..][0] == vs[i];
  }

  class Encoder {
    const w: Writer

    constructor (w: Writer)
      ensures this.w == w
    {
      this.w := w;
    }

    method EncodeInt(v: int) returns (n: nat, err: Option<ErrorCode>)
      requires |w.out| <= w.capacity
      modifies w
      ensures Emitted(old(w.out), w.capacity, Out(Put32(v)), w.out, n, err)
    {
      n, err := w.Write(Put32(v));
    }

    method EncodeBool(v: bool) returns (n: nat, err: Option<ErrorCode>)
      requires |w.out| <= w.capacity
      modifies w
      ensures Emitted(old(w.out), w.capacity, Out(Put32(if v then 1 else 0)), w.out, n, err)
    {
      var i := 0;
      if v == true {
        i := 1;
      }
      n, err := EncodeInt(i);
    }

    method EncodeHyper(v: int) returns (n: nat, err: Option<ErrorCode>)
      requires |w.out| <= w.capacity
      modifies w
      ensures Emitted(old(w.out), w.capacity, Out(Put64(v)), w.out, n, err)
    {
      n, err := w.Write(Put64(v));
    }

    /** The octets, then the padding in a second write. */
    method EncodeFixedOpaque(v: seq<byte>) returns (n: nat, err: Option<ErrorCode>)
      requires |w.out| <= w.capacity
      modifies w
      ensures Emitted(old(w.out), w.capacity, Out(Padded(v)), w.out, n, err)
    {
      var pad := Pad(|v|);
      assert Then(Out(v), Out(Zeros(pad))) == Out(Padded(v));
      n, err := w.Write(v);
      if err.Some? {
        EmittedStop(old(w.out), w.capacity, Out(v), w.out, n, Out(Zeros(pad)), err);
        return;
      }
      ghost var mid := w.out;
      if pad > 0 {
        var n2;
        n2, err := w.Write(Zeros(pad));
        EmittedThen(old(w.out), w.capacity, Out(v), mid, n, Out(Zeros(pad)), w.out, n2, err);
        n := n + n2;
      } else {
        assert Padded(v) == v;
      }
    }

    /** EncodeOpaque and EncodeString: the length word, then the padded octets. */
    method EncodeOpaque(v: seq<byte>) returns (n: nat, err: Option<ErrorCode>)
      requires |w.out| <= w.capacity
      modifies w
      ensures Emitted(old(w.out), w.capacity, Out(Put32(|v|) + Padded(v)), w.out, n, err)
    {
      assert Then(Out(Put32(|v|)), Out(Padded(v))) == Out(Put32(|v|) + Padded(v));
      n, err := EncodeInt(|v|);
      if err.Some? {
        EmittedStop(old(w.out), w.capacity, Out(Put32(|v|)), w.out, n, Out(Padded(v)), err);
        return;
      }
      ghost var mid := w.out;
      var n2;
      n2, err := EncodeFixedOpaque(v);
      EmittedThen(old(w.out), w.capacity, Out(Put32(|v|)), mid, n, Out(Padded(v)), w.out, n2, err);
      n := n + n2;
    }

    method EncodeFixedArray(env: Env, elem: Schema, vs: seq<Value>, ignoreOpaque: bool) returns (n: nat, err: Option<ErrorCode>)
      requires EnvGuarded(env) && Guarded(env, elem) && AllType(env, elem, vs)
      requires |w.out| <= w.capacity
      modifies w
      ensures Emitted(old(w.out), w.capacity, EncElems(env, elem, vs, ignoreOpaque), w.out, n, err)
      decreases vs, 1
    {
      if !ignoreOpaque && elem == UintT(W8) {
        assert forall i :: 0 <= i < |vs| ==> HasType(env, elem, vs[i]);
        n, err := EncodeFixedOpaque(Octets(vs));
        return;
      }
      n, err := EncodeEach(env, elem, vs);
    }

    /** The element loop of encodeFixedArray. */
    method EncodeEach(env: Env, elem: Schema, vs: seq<Value>) returns (n: nat, err: Option<ErrorCode>)
      requires EnvGuarded(env) && Guarded(env, elem) && AllType(env, elem, vs)
      requires |w.out| <= w.capacity
      modifies w
      ensures Emitted(old(w.out), w.capacity, EncEach(env, elem, vs), w.out, n, err)
      decreases vs, 0
    {
      hide Enc, EncEach, Then, Emitted;
      n, err := 0, None;
      ghost var done := Out([]);
      EmittedNothing(w.out, w.capacity);
      ThenUnit(EncEach(env, elem, vs));
      assert vs[0..] == vs;
      for i := 0 to |vs|
        invariant |w.out| <= w.capacity && err == None
        invariant Emitted(old(w.out), w.capacity, done, w.out, n, None)
        invariant EncEach(env, elem, vs) == Then(done, EncEach(env, elem, vs[i..]))
      {
        ghost var mid, head, rest := w.out, Enc(env, elem, vs[i], false), EncEach(env, elem, vs[i + 1..]);
        EncEachAt(env, elem, vs, i);
        var n2;
        n2, err := Encode(env, elem, vs[i], false);
        EmittedRound(old(w.out), w.capacity, done, mid, n, head, w.out, n2, err, rest);
        n := n + n2;
        done := Then(done, head);
        if err.Some? {
          return;
        }
      }
      NothingLeft(env, elem, vs[|vs|..]);
      ThenUnit(done);
    }

    method EncodeArray(env: Env, elem: Schema, vs: seq<Value>, ignoreOpaque: bool) returns (n: nat, err: Option<ErrorCode>)
      requires EnvGuarded(env) && Guarded(env, elem) && AllType(env, elem, vs)
      requires |w.out| <= w.capacity
      modifies w
      ensures Emitted(old(w.out), w.capacity, Then(Out(Put32(|vs|)), EncElems(env, elem, vs, ignoreOpaque)), w.out, n, err)
      decreases vs, 2
    {
      n, err := EncodeInt(|vs|);
      if err.Some? {
        EmittedStop(old(w.out), w.capacity, Out(Put32(|vs|)), w.out, n, EncElems(env, elem, vs, ignoreOpaque), err);
        return;
      }
      ghost var mid := w.out;
      var n2;
      n2, err := EncodeFixedArray(env, elem, vs, ignoreOpaque);
      EmittedThen(old(w.out), w.capacity, Out(Put32(|vs|)), mid, n, EncElems(env, elem, vs, ignoreOpaque), w.out, n2, err);
      n := n + n2;
    }

    /** One field of the loop in encodeStruct, from the optional flag to the encoding of the field proper. */
    method EncodeField(env: Env, f: Field, v: Value, union: string)
      returns (n: nat, union': string, err: Option<ErrorCode>)
      requires EnvGuarded(env) && FieldGuarded(env, f) && HasType(env, f.schema, v)
      requires |w.out| <= w.capacity
      modifies w
      ensures Emitted(old(w.out), w.capacity, EncField(env, f, v, union), w.out, n, err)
      ensures err == None ==> union' == FieldUnion(env, f, v, union)
      decreases v, 5
    {
      n, union', err := 0, union, None;
      var s, vf := f.schema, v;
      ghost var flag := Out([]);
      if IsOptional(f.tag) {
        if !f.schema.PtrT? {
          return 0, union', Some(BadOptional);
        }
        var hasopt := v != VNil;
        n, err := EncodeBool(hasopt);
        flag := Out(Put32(if hasopt then 1 else 0));
        if err.Some? {
          if hasopt {
            EmittedStop(old(w.out), w.capacity, flag, w.out, n, EncBody(env, f.tag, env[f.schema.target], v.to, union), err);
          }
          return;
        }
        if !hasopt {
          return;
        }
        s, vf := env[f.schema.target], v.to;
      }
      ghost var body := EncBody(env, f.tag, s, vf, union);
      ThenUnit(body);
      assert EncField(env, f, v, union) == Then(flag, body);
      ghost var mid := w.out;
      var n2;
      n2, union', err := EncodeBody(env, f.tag, s, vf, union);
      EmittedThen(old(w.out), w.capacity, flag, mid, n, body, w.out, n2, err);
      n := n + n2;
    }

    method EncodeBody(env: Env, tag: string, s: Schema, v: Value, union: string)
      returns (n: nat, union': string, err: Option<ErrorCode>)
      requires EnvGuarded(env) && Guarded(env, s) && HasType(env, s, v)
      requires |w.out| <= w.capacity
      modifies w
      ensures Emitted(old(w.out), w.capacity, EncBody(env, tag, s, v, union), w.out, n, err)
      ensures err == None ==> union' == EncUnion(env, tag, s, v, union)
      decreases v, 4
    {
      n, union', err := 0, union, None;
      if Get(tag, "opaque") == "false" {
        if s.SliceT? {
          n, err := EncodeArray(env, s.elem, v.vs, true);
          return;
        }
        if s.FixedArrayT? {
          n, err := EncodeFixedArray(env, s.elem, v.vs, true);
          return;
        }
      }
      if IsUnion(tag) {
        if !Discriminable(s) {
          return 0, union', Some(BadDiscriminant);
        }
        union' := Disc(s, v);
      }
      if union' != "" {
        var unotcase := Get(tag, "unionnotcase");
        if unotcase != "" && unotcase == union' {
          return;
        }
      }
      if union' != "" {
        var ucase := Get(tag, "unioncase");
        if ucase != "" && ucase != union' {
          return;
        }
      }
      n, err := Encode(env, s, v, false);
    }

    method EncodeStruct(env: Env, fields: seq<Field>, vs: seq<Value>) returns (n: nat, err: Option<ErrorCode>)
      requires EnvGuarded(env) && FieldsType(env, fields, vs) && FieldsGuarded(env, fields)
      requires |w.out| <= w.capacity
      modifies w
      ensures Emitted(old(w.out), w.capacity, EncFields(env, fields, vs, ""), w.out, n, err)
      decreases vs, 1
    {
      hide EncField, Then, Emitted, FieldUnion;
      n, err := 0, None;
      var union := "";
      ghost var done := Out([]);
      EmittedNothing(w.out, w.capacity);
      assert fields[0..] == fields && vs[0..] == vs;
      ThenUnit(EncFields(env, fields, vs, ""));
      for i := 0 to |fields|
        invariant |w.out| <= w.capacity && err == None
        invariant Emitted(old(w.out), w.capacity, done, w.out, n, None)
        invariant FieldsType(env, fields[i..], vs[i..])
        invariant EncFields(env, fields, vs, "") == Then(done, EncFields(env, fields[i..], vs[i..], union))
      {
        ghost var mid, head := w.out, EncField(env, fields[i], vs[i], union);
        ghost var u := FieldUnion(env, fields[i], vs[i], union);
        EncFieldsAt(env, fields, vs, union, i);
        ghost var rest := EncFields(env, fields[i + 1..], vs[i + 1..], u);
        var n2;
        n2, union, err := EncodeField(env, fields[i], vs[i], union);
        EmittedRound(old(w.out), w.capacity, done, mid, n, head, w.out, n2, err, rest);
        n := n + n2;
        done := Then(done, head);
        if err.Some? {
          return;
        }
      }
      ThenUnit(done);
    }

    method Encode(env: Env, s: Schema, v: Value, ignoreOpaque: bool) returns (n: nat, err: Option<ErrorCode>)
      requires EnvGuarded(env) && Guarded(env, s) && HasType(env, s, v)
      requires |w.out| <= w.capacity
      modifies w
      ensures Emitted(old(w.out), w.capacity, Enc(env, s, v, ignoreOpaque), w.out, n, err)
      decreases v, 3
    {
      match s
      case IntT(_) => n, err := EncodeInt(v.i);
      case UintT(_) => n, err := EncodeInt(v.i);
      case HyperT => n, err := EncodeHyper(v.i);
      case UhyperT => n, err := EncodeHyper(v.i);
      case BoolT => n, err := EncodeBool(v.b);
      case StringT => n, err := EncodeOpaque(v.s);
      case FixedArrayT(_, elem) => n, err := EncodeFixedArray(env, elem, v.vs, ignoreOpaque);
      case SliceT(elem) => n, err := EncodeArray(env, elem, v.vs, ignoreOpaque);
      case StructT(fields) => n, err := EncodeStruct(env, fields, v.fs);
    }
  }

  // ---------------------------------------------------------------- decoding

  /** io.Reader: the octets not yet read. */
  class Reader {
    var data: seq<byte>

    constructor (data: seq<byte>)
      ensures this.data == data
    {
      this.data := data;
    }

    /** io.ReadFull: a short read takes what there is and fails. */
    method ReadFull(k: nat) returns (buf: seq<byte>, n: nat, err: Option<ErrorCode>)
      modifies this
      ensures n == MinOf(k, |old(data)|) && buf == old(data)[..n] && data == old(data)[n..]
      ensures err == if n < k then Some(IO) else None
    {
      n := MinOf(k, |data|);
      buf, data := data[..n], data[n..];
      err := if n < k then Some(IO) else None;
    }
  }

  /** A decoding call had the outcome p: the count it returns is the number of octets it took off the reader,
      on success and on every error path. */
  ghost predicate Took<T>(before: seq<byte>, after: seq<byte>, p: Parsed<T>, v: T, n: nat, err: Option<ErrorCode>) {
    && n == p.n <= |before| && after == before[n..]
    && (if p.Ok? then err == None && v == p.v else err == Some(p.code))
  }

  function Resumed(vs: seq<Value>, n: nat, p: Parsed<seq<Value>>): Parsed<seq<Value>> {
    match p
    case Ok(ws, m) => Ok(vs + ws, n + m)
    case Err(c, m) => Err(c, n + m)
  }

  lemma ResumedUnit(p: Parsed<seq<Value>>)
    ensures Resumed([], 0, p) == p
  {
    if p.Ok? {
      assert [] + p.v == p.v;
    }
  }

  lemma ResumedCons(vs: seq<Value>, n: nat, v: Value, k: nat, p: Parsed<seq<Value>>)
    ensures Resumed(vs, n, Resumed([v], k, p)) == Resumed(vs + [v], n + k, p)
  {
    if p.Ok? {
      assert vs + ([v] + p.v) == (vs + [v]) + p.v;
    }
  }

  /** In the middle of a loop of decoding calls: vs is what n octets gave, and rest is what the remaining ones will. */
  ghost predicate TookPart(before: seq<byte>, after: seq<byte>, whole: Parsed<seq<Value>>, vs: seq<Value>, n: nat,
                           rest: Parsed<seq<Value>>) {
    n <= |before| && after == before[n..] && whole == Resumed(vs, n, rest)
  }

  lemma TookNothing(before: seq<byte>, whole: Parsed<seq<Value>>)
    ensures TookPart(before, before, whole, [], 0, whole)
  {
    ResumedUnit(whole);
  }

  lemma TookAll(before: seq<byte>, after: seq<byte>, whole: Parsed<seq<Value>>, vs: seq<Value>, n: nat)
    requires TookPart(before, after, whole, vs, n, Ok([], 0))
    ensures Took(before, after, whole, vs, n, None)
  {
    assert vs + [] == vs;
  }

  lemma TookMore(before: seq<byte>, mid: seq<byte>, after: seq<byte>, whole: Parsed<seq<Value>>, vs: seq<Value>, n: nat,
                 v: Value, k: nat, rest: Parsed<seq<Value>>)
    requires TookPart(before, mid, whole, vs, n, Resumed([v], k, rest)) && k <= |mid| && after == mid[k..]
    ensures TookPart(before, after, whole, vs + [v], n + k, rest)
  {
    Drop2(before, n, k);
    ResumedCons(vs, n, v, k, rest);
  }

  lemma TookError(before: seq<byte>, mid: seq<byte>, after: seq<byte>, whole: Parsed<seq<Value>>, vs: seq<Value>, n: nat,
                  code: ErrorCode, k: nat)
    requires TookPart(before, mid, whole, vs, n, Err(code, k)) && k <= |mid| && after == mid[k..]
    ensures Took(before, after, whole, vs, n + k, Some(code))
  {
    Drop2(before, n, k);
  }

  lemma NoneLeft(env: Env, lim: nat, elem: Schema, input: seq<byte>)
    requires EnvGuarded(env) && Guarded(env, elem)
    ensures DecEach(env, lim, elem, 0, input) == Ok([], 0)
  {
  }

  lemma EachRound(env: Env, lim: nat, elem: Schema, len: nat, before: seq<byte>, mid: seq<byte>, after: seq<byte>,
                  whole: Parsed<seq<Value>>, vs: seq<Value>, n: nat, v: Value, k: nat, err: Option<ErrorCode>)
    requires EnvGuarded(env) && Guarded(env, elem) && len > 0
    requires TookPart(before, mid, whole, vs, n, DecEach(env, lim, elem, len, mid))
    requires Took(mid, after, Dec(env, lim, elem, false, mid), v, k, err)
    ensures err.None? ==> TookPart(before, after, whole, vs + [v], n + k, DecEach(env, lim, elem, len - 1, after))
    ensures err.Some? ==> Took(before, after, whole, vs, n + k, err)
  {
    var h := Dec(env, lim, elem, false, mid);
    if h.Err? {
      assert DecEach(env, lim, elem, len, mid) == Err(h.code, h.n);
      TookError(before, mid, after, whole, vs, n, h.code, k);
    } else {
      var rest := DecEach(env, lim, elem, len - 1, after);
      assert DecEach(env, lim, elem, len, mid) == Resumed([v], k, rest);
      TookMore(before, mid, after, whole, vs, n, v, k, rest);
    }
  }

  lemma FieldsRound(env: Env, lim: nat, fields: seq<Field>, u: string, i: nat, before: seq<byte>, mid: seq<byte>, after: seq<byte>,
                    whole: Parsed<seq<Value>>, vs: seq<Value>, n: nat, out: FieldOut, k: nat, err: Option<ErrorCode>)
    requires EnvGuarded(env) && FieldsGuarded(env, fields) && i < |fields|
    requires TookPart(before, mid, whole, vs, n, DecFields(env, lim, fields[i..], u, mid))
    requires Took(mid, after, DecField(env, lim, fields[i], u, mid), out, k, err)
    ensures err.None? ==>
              TookPart(before, after, whole, vs + [out.v], n + k, DecFields(env, lim, fields[i + 1..], out.union, after))
    ensures err.Some? ==> Took(before, after, whole, vs, n + k, err)
  {
    var h := DecField(env, lim, fields[i], u, mid);
    assert fields[i..][1..] == fields[i + 1..] && fields[i..][0] == fields[i];
    if h.Err? {
      assert DecFields(env, lim, fields[i..], u, mid) == Err(h.code, h.n);
      TookError(before, mid, after, whole, vs, n, h.code, k);
    } else {
      var rest := DecFields(env, lim, fields[i + 1..], out.union, after);
      assert DecFields(env, lim, fields[i..], u, mid) == Resumed([out.v], k, rest);
      TookMore(before, mid, after, whole, vs, n, out.v, k, rest);
    }
  }

  lemma DecodedIfGood(env: Env, lim: nat, s: Schema, ignoreOpaque: bool, input: seq<byte>)
    requires EnvGuarded(env) && Guarded(env, s)
    ensures var p := Dec(env, lim, s, ignoreOpaque, input);
            p.Ok? && Good(env, s) ==> HasType(env, s, p.v) && ArmsZero(env, s, p.v)
  {
    if Good(env, s) && Dec(env, lim, s, ignoreOpaque, input).Ok? {
      DecodedArmsZero(env, lim, s, ignoreOpaque, input);
    }
  }

  lemma Drop2(bs: seq<byte>, n: nat, m: nat)
    requires n + m <= |bs|
    ensures bs[n..][m..] == bs[n + m..]
  {
  }

  class Decoder {
    const r: Reader
    const maxReadSize: nat

    constructor (r: Reader, maxReadSize: nat)
      ensures this.r == r && this.maxReadSize == maxReadSize
    {
      this.r, this.maxReadSize := r, maxReadSize;
    }

    method DecodeWord() returns (w: seq<byte>, n: nat, err: Option<ErrorCode>)
      modifies r
      ensures Took(old(r.data), r.data, DecWord(old(r.data)), w, n, err)
    {
      w, n, err := r.ReadFull(4);
    }

    method DecodeLong() returns (w: seq<byte>, n: nat, err: Option<ErrorCode>)
      modifies r
      ensures Took(old(r.data), r.data, DecLong(old(r.data)), w, n, err)
    {
      w, n, err := r.ReadFull(8);
    }

    method DecodeBool() returns (b: bool, n: nat, err: Option<ErrorCode>)
      modifies r
      ensures Took(old(r.data), r.data, DecBool(old(r.data)), b, n, err)
    {
      b := false;
      var w;
      w, n, err := DecodeWord();
      if err.Some? {
        return;
      }
      var val := GetInt32(w);
      if val == 0 {
        return false, n, None;
      }
      if val == 1 {
        return true, n, None;
      }
      err := Some(BadEnumValue);
    }

    method DecodeFixedOpaque(size: nat) returns (bs: seq<byte>, n: nat, err: Option<ErrorCode>)
      requires size <= MAX_INT32
      modifies r
      ensures Took(old(r.data), r.data, DecFixedOpaque(size, old(r.data)), bs, n, err)
    {
      if size == 0 {
        return [], 0, None;
      }
      var pad := (4 - size % 4) % 4;
      var paddedSize := Wrap32(size + pad);
      if paddedSize < 0 || paddedSize > MAX_INT32 {
        return [], 0, Some(Overflow);
      }
      var buf;
      buf, n, err := r.ReadFull(paddedSize);
      if err.Some? {
        return [], n, err;
      }
      bs := buf[..size];
      assert old(r.data)[..n][..size] == old(r.data)[..size];
    }

    /** The count check shared by DecodeOpaque, DecodeString and decodeArray. */
    method DecodeLen() returns (len: nat, n: nat, err: Option<ErrorCode>)
      modifies r
      ensures Took(old(r.data), r.data, DecLen(maxReadSize, old(r.data)), len, n, err)
      ensures err == None ==> len <= MAX_INT32
    {
      len := 0;
      var w;
      w, n, err := DecodeWord();
      if err.Some? {
        return;
      }
      var dataLen := Get32(w);
      if dataLen > MAX_INT32 || (maxReadSize != 0 && dataLen > maxReadSize) {
        return 0, n, Some(Overflow);
      }
      len := dataLen;
    }

    method DecodeString() returns (v: Value, n: nat, err: Option<ErrorCode>)
      modifies r
      ensures forall env: Env, ig: bool :: EnvGuarded(env) ==>
                Took(old(r.data), r.data, Dec(env, maxReadSize, StringT, ig, old(r.data)), v, n, err)
    {
      v := VNil;
      var len;
      len, n, err := DecodeLen();
      if err.Some? {
        return;
      }
      var opaque_, n2;
      opaque_, n2, err := DecodeFixedOpaque(len);
      Drop2(old(r.data), n, n2);
      n := n + n2;
      if err.Some? {
        return;
      }
      v := VStr(opaque_);
    }

    method DecodeFixedArray(env: Env, elem: Schema, len: nat, ignoreOpaque: bool)
      returns (vs: seq<Value>, n: nat, err: Option<ErrorCode>)
      requires EnvGuarded(env) && Guarded(env, elem) && len <= MAX_INT32
      modifies r
      ensures Took(old(r.data), r.data, DecElems(env, maxReadSize, elem, len, ignoreOpaque, old(r.data)), vs, n, err)
      decreases |r.data|, elem, len + 2
    {
      vs := [];
      if !ignoreOpaque && elem == UintT(W8) {
        var data;
        data, n, err := DecodeFixedOpaque(len);
        if err.Some? {
          return;
        }
        vs := OctetValues(data);
        return;
      }
      vs, n, err := DecodeEach(env, elem, len);
    }

    /** The element loop of decodeFixedArray and decodeArray. */
    method DecodeEach(env: Env, elem: Schema, len: nat) returns (vs: seq<Value>, n: nat, err: Option<ErrorCode>)
      requires EnvGuarded(env) && Guarded(env, elem)
      modifies r
      ensures Took(old(r.data), r.data, DecEach(env, maxReadSize, elem, len, old(r.data)), vs, n, err)
      decreases |r.data|, elem, len + 1
    {
      hide Dec, DecEach;
      vs := [];
      n, err := 0, None;
      ghost var whole := DecEach(env, maxReadSize, elem, len, r.data);
      TookNothing(r.data, whole);
      var i := 0;
      while i < len
        invariant i <= len && err == None
        invariant TookPart(old(r.data), r.data, whole, vs, n, DecEach(env, maxReadSize, elem, len - i, r.data))
      {
        ghost var mid := r.data;
        var v, n2;
        v, n2, err := Decode(env, elem, false);
        EachRound(env, maxReadSize, elem, len - i, old(r.data), mid, r.data, whole, vs, n, v, n2, err);
        n := n + n2;
        if err.Some? {
          return;
        }
        vs := vs + [v];
        i := i + 1;
      }
      NoneLeft(env, maxReadSize, elem, r.data);
      TookAll(old(r.data), r.data, whole, vs, n);
    }

    method DecodeArray(env: Env, elem: Schema, ignoreOpaque: bool) returns (v: Value, n: nat, err: Option<ErrorCode>)
      requires EnvGuarded(env) && Guarded(env, elem)
      modifies r
      ensures Took(old(r.data), r.data, Dec(env, maxReadSize, SliceT(elem), ignoreOpaque, old(r.data)), v, n, err)
      decreases |r.data|, elem, MAX_INT32 + 3
    {
      v := VNil;
      var len;
      len, n, err := DecodeLen();
      if err.Some? {
        return;
      }
      var vs, n2;
      vs, n2, err := DecodeFixedArray(env, elem, len, ignoreOpaque);
      Drop2(old(r.data), n, n2);
      n := n + n2;
      if err.Some? {
        return;
      }
      v := VList(vs);
    }

    method DecodeStruct(env: Env, fields: seq<Field>) returns (vs: seq<Value>, n: nat, err: Option<ErrorCode>)
      requires EnvGuarded(env) && FieldsGuarded(env, fields)
      modifies r
      ensures Took(old(r.data), r.data, DecFields(env, maxReadSize, fields, "", old(r.data)), vs, n, err)
      decreases |r.data|, fields, 0
    {
      vs, n, err := [], 0, None;
      var union := "";
      assert fields[0..] == fields;
      ghost var whole := DecFields(env, maxReadSize, fields, "", r.data);
      TookNothing(r.data, whole);
      for i := 0 to |fields|
        invariant err == None
        invariant TookPart(old(r.data), r.data, whole, vs, n, DecFields(env, maxReadSize, fields[i..], union, r.data))
      {
        ghost var mid, u := r.data, union;
        var v, n2;
        v, n2, union, err := DecodeField(env, fields[i], union);
        FieldsRound(env, maxReadSize, fields, u, i, old(r.data), mid, r.data, whole, vs, n, FieldOut(v, union), n2, err);
        n := n + n2;
        if err.Some? {
          return;
        }
        vs := vs + [v];
      }
      TookAll(old(r.data), r.data, whole, vs, n);
    }

    /** One field of the loop in decodeStruct. */
    method DecodeField(env: Env, f: Field, union: string)
      returns (v: Value, n: nat, union': string, err: Option<ErrorCode>)
      requires EnvGuarded(env) && FieldGuarded(env, f)
      modifies r
      ensures Took(old(r.data), r.data, DecField(env, maxReadSize, f, union, old(r.data)), FieldOut(v, union'), n, err)
      decreases |r.data|, f, 0
    {
      v, n, union', err := VNil, 0, union, None;
      if !IsOptional(f.tag) {
        v, n, union', err := DecodeBody(env, f.tag, f.schema, union);
        return;
      }
      if !f.schema.PtrT? {
        return VNil, 0, union, Some(BadOptional);
      }
      var hasopt;
      hasopt, n, err := DecodeBool();
      if err.Some? || !hasopt {
        return;
      }
      var n2;
      v, n2, union', err := DecodeBody(env, f.tag, env[f.schema.target], union);
      Drop2(old(r.data), n, n2);
      n := n + n2;
      v := VPtr(v);
    }

    method DecodeBody(env: Env, tag: string, s: Schema, union: string)
      returns (v: Value, n: nat, union': string, err: Option<ErrorCode>)
      requires EnvGuarded(env) && Guarded(env, s)
      modifies r
      ensures Took(old(r.data), r.data, DecBody(env, maxReadSize, tag, s, union, old(r.data)), FieldOut(v, union'), n, err)
      decreases |r.data|, s, 1
    {
      v, n, union', err := VNil, 0, union, None;
      if Get(tag, "opaque") == "false" {
        if s.SliceT? {
          v, n, err := DecodeArray(env, s.elem, true);
          return;
        }
        if s.FixedArrayT? {
          var vs;
          vs, n, err := DecodeFixedArray(env, s.elem, s.len, true);
          v := VList(vs);
          return;
        }
      }
      if union != "" {
        var unotcase := Get(tag, "unionnotcase");
        if unotcase != "" && unotcase == union {
          v := Zero(s);
          return;
        }
      }
      if union != "" {
        var ucase := Get(tag, "unioncase");
        if ucase != "" && ucase != union {
          v := Zero(s);
          return;
        }
      }
      v, n, err := Decode(env, s, false);
      if err.Some? {
        return;
      }
      if IsUnion(tag) {
        if !Discriminable(s) {
          err := Some(BadDiscriminant);
          return;
        }
        union' := Disc(s, v);
      }
    }

    method Decode(env: Env, s: Schema, ignoreOpaque: bool) returns (v: Value, n: nat, err: Option<ErrorCode>)
      requires EnvGuarded(env) && Guarded(env, s)
      modifies r
      ensures Took(old(r.data), r.data, Dec(env, maxReadSize, s, ignoreOpaque, old(r.data)), v, n, err)
      ensures err.None? && Good(env, s) ==> HasType(env, s, v) && ArmsZero(env, s, v)
      decreases |r.data|, s, 0
    {
      hide ArmsZero, Good;
      DecodedIfGood(env, maxReadSize, s, ignoreOpaque, r.data);
      v := VNil;
      match s
      case IntT(w) =>
        var b;
        b, n, err := DecodeWord();
        if err.None? {
          var x := GetInt32(b);
          if x < Lo(w) || x >= SHi(w) {
            return VNil, n, Some(Overflow);
          }
          v := VInt(x);
        }
      case UintT(w) =>
        var b;
        b, n, err := DecodeWord();
        if err.None? {
          var x := Get32(b);
          if x >= UHi(w) {
            return VNil, n, Some(Overflow);
          }
          v := VInt(x);
        }
      case HyperT =>
        var b;
        b, n, err := DecodeLong();
        if err.None? {
          v := VInt(Wrap64(Get64(b)));
        }
      case UhyperT =>
        var b;
        b, n, err := DecodeLong();
        if err.None? {
          v := VInt(Get64(b));
        }
      case BoolT =>
        var b;
        b, n, err := DecodeBool();
        v := VBool(b);
      case StringT =>
        v, n, err := DecodeString();
      case FixedArrayT(len, elem) =>
        var vs;
        vs, n, err := DecodeFixedArray(env, elem, len, ignoreOpaque);
        v := VList(vs);
      case SliceT(elem) =>
        v, n, err := DecodeArray(env, elem, ignoreOpaque);
      case StructT(fields) =>
        var vs;
        vs, n, err := DecodeStruct(env, fields);
        v := VStruct(vs);
    }
  }
}
