/**
 * The value tree `serde_pickle::value_from_slice` produces, and the
 * normaliser of parser/src/analyzer/decoder.rs that turns every byte string
 * holding valid UTF-8 into a string, throughout the tree.
 *
 * Sets, frozen sets and dictionaries are kept as sequences in the order
 * serde_pickle's B-tree collections iterate them.
 */
module Pickle {
  import opened Ints
  import Utf8

  /** serde_pickle's `HashableValue`: what may be a set member or a dictionary key. */
  datatype HashableValue =
    | HNone
    | HBool(b: bool)
    | HI64(i: i64)
    | HInt(n: int)
    | HF64(bits: u64)                  // an f64, kept as its bit pattern
    | HBytes(bytes: seq<byte>)
    | HString(s: string)
    | HTuple(items: seq<HashableValue>)
    | HFrozenSet(items: seq<HashableValue>)

  /** serde_pickle's `Value`. */
  datatype Value =
    | PyNone
    | Bool(b: bool)
    | I64(i: i64)
    | Int(n: int)
    | F64(bits: u64)
    | Bytes(bytes: seq<byte>)
    | String(s: string)
    | List(items: seq<Value>)
    | Tuple(items: seq<Value>)
    | Set(members: seq<HashableValue>)
    | FrozenSet(members: seq<HashableValue>)
    | Dict(entries: seq<(HashableValue, Value)>)

  // ------------------------------------------------------------ normaliser

  /** `try_convert_hashable_pickle_to_string`. */
  function ConvertHashable(h: HashableValue): HashableValue
  {
    match h
    case HBytes(b) => if Utf8.Decode(b).Some? then HString(Utf8.Decode(b).value) else h
    case HTuple(t) => HTuple(seq(|t|, i requires 0 <= i < |t| => ConvertHashable(t[i])))
    case HFrozenSet(s) => HFrozenSet(seq(|s|, i requires 0 <= i < |s| => ConvertHashable(s[i])))
    case _ => h
  }

  /** `try_convert_pickle_to_string`. */
  function Convert(v: Value): Value
  {
    match v
    case Bytes(b) => if Utf8.Decode(b).Some? then String(Utf8.Decode(b).value) else v
    case List(l) => List(seq(|l|, i requires 0 <= i < |l| => Convert(l[i])))
    case Tuple(t) => Tuple(seq(|t|, i requires 0 <= i < |t| => Convert(t[i])))
    case Set(s) => Set(seq(|s|, i requires 0 <= i < |s| => ConvertHashable(s[i])))
    case FrozenSet(s) => FrozenSet(seq(|s|, i requires 0 <= i < |s| => ConvertHashable(s[i])))
    case Dict(d) => Dict(seq(|d|, i requires 0 <= i < |d| => (ConvertHashable(d[i].0), Convert(d[i].1))))
    case _ => v
  }

  // ------------------------------------------------- reference definitions

  /** No byte string anywhere in the tree is valid UTF-8. */
  predicate NormalHashable(h: HashableValue)
  {
    match h
    case HBytes(b) => Utf8.Decode(b).None?
    case HTuple(t) => forall i :: 0 <= i < |t| ==> NormalHashable(t[i])
    case HFrozenSet(s) => forall i :: 0 <= i < |s| ==> NormalHashable(s[i])
    case _ => true
  }

  predicate Normal(v: Value)
  {
    match v
    case Bytes(b) => Utf8.Decode(b).None?
    case List(l) => forall i :: 0 <= i < |l| ==> Normal(l[i])
    case Tuple(t) => forall i :: 0 <= i < |t| ==> Normal(t[i])
    case Set(s) => forall i :: 0 <= i < |s| ==> NormalHashable(s[i])
    case FrozenSet(s) => forall i :: 0 <= i < |s| ==> NormalHashable(s[i])
    case Dict(d) => forall i :: 0 <= i < |d| ==> NormalHashable(d[i].0) && Normal(d[i].1)
    case _ => true
  }

  /** The tree with every string written back as its UTF-8 bytes. */
  function ForgetHashable(h: HashableValue): HashableValue
  {
    match h
    case HString(s) => HBytes(Utf8.Encode(s))
    case HTuple(t) => HTuple(seq(|t|, i requires 0 <= i < |t| => ForgetHashable(t[i])))
    case HFrozenSet(s) => HFrozenSet(seq(|s|, i requires 0 <= i < |s| => ForgetHashable(s[i])))
    case _ => h
  }

  function Forget(v: Value): Value
  {
    match v
    case String(s) => Bytes(Utf8.Encode(s))
    case List(l) => List(seq(|l|, i requires 0 <= i < |l| => Forget(l[i])))
    case Tuple(t) => Tuple(seq(|t|, i requires 0 <= i < |t| => Forget(t[i])))
    case Set(s) => Set(seq(|s|, i requires 0 <= i < |s| => ForgetHashable(s[i])))
    case FrozenSet(s) => FrozenSet(seq(|s|, i requires 0 <= i < |s| => ForgetHashable(s[i])))
    case Dict(d) => Dict(seq(|d|, i requires 0 <= i < |d| => (ForgetHashable(d[i].0), Forget(d[i].1))))
    case _ => v
  }

  // ---------------------------------------------------------------- lemmas

  /** A byte string becomes the string it encodes exactly when it is valid UTF-8; otherwise it stays. */
  lemma ConvertBytes(b: seq<byte>, s: string)
    ensures Convert(Bytes(b)) == String(s) <==> Utf8.Encode(s) == b
    ensures Convert(Bytes(b)) == Bytes(b) <==> !Utf8.Valid(b)
  {
    Utf8.ValidIffEncoding(b, s);
  }

  lemma ConvertHashableBytes(b: seq<byte>, s: string)
    ensures ConvertHashable(HBytes(b)) == HString(s) <==> Utf8.Encode(s) == b
    ensures ConvertHashable(HBytes(b)) == HBytes(b) <==> !Utf8.Valid(b)
  {
    Utf8.ValidIffEncoding(b, s);
  }

  /** Scalars and strings come through unchanged. */
  lemma ConvertKeepsScalars(v: Value)
    requires !v.Bytes? && !v.List? && !v.Tuple? && !v.Set? && !v.FrozenSet? && !v.Dict?
    ensures Convert(v) == v
  {
  }

  /** Containers keep their kind, their size and their order; each element is converted in place. */
  lemma ConvertKeepsShape(v: Value)
    ensures v.List? ==> Convert(v).List? && |Convert(v).items| == |v.items|
    ensures v.Tuple? ==> Convert(v).Tuple? && |Convert(v).items| == |v.items|
    ensures v.Set? ==> Convert(v).Set? && |Convert(v).members| == |v.members|
    ensures v.FrozenSet? ==> Convert(v).FrozenSet? && |Convert(v).members| == |v.members|
    ensures v.Dict? ==> Convert(v).Dict? && |Convert(v).entries| == |v.entries|
  {
  }

  /** Nothing is lost: writing strings back as bytes undoes the conversion. */
  lemma {:induction false} ForgetConvertHashable(h: HashableValue)
    ensures ForgetHashable(ConvertHashable(h)) == ForgetHashable(h)
  {
    match h
    case HBytes(b) =>
      if Utf8.Decode(b).Some? {
        Utf8.EncodeDecode(b);
      }
    case HTuple(t) =>
      forall i | 0 <= i < |t| ensures ForgetHashable(ConvertHashable(t[i])) == ForgetHashable(t[i]) {
        ForgetConvertHashable(t[i]);
      }
    case HFrozenSet(s) =>
      forall i | 0 <= i < |s| ensures ForgetHashable(ConvertHashable(s[i])) == ForgetHashable(s[i]) {
        ForgetConvertHashable(s[i]);
      }
    case _ =>
  }

  lemma {:induction false} ForgetConvert(v: Value)
    ensures Forget(Convert(v)) == Forget(v)
  {
    match v
    case Bytes(b) =>
      if Utf8.Decode(b).Some? {
        Utf8.EncodeDecode(b);
      }
    case List(l) =>
      forall i | 0 <= i < |l| ensures Forget(Convert(l[i])) == Forget(l[i]) {
        ForgetConvert(l[i]);
      }
    case Tuple(t) =>
      forall i | 0 <= i < |t| ensures Forget(Convert(t[i])) == Forget(t[i]) {
        ForgetConvert(t[i]);
      }
    case Set(s) =>
      forall i | 0 <= i < |s| ensures ForgetHashable(ConvertHashable(s[i])) == ForgetHashable(s[i]) {
        ForgetConvertHashable(s[i]);
      }
    case FrozenSet(s) =>
      forall i | 0 <= i < |s| ensures ForgetHashable(ConvertHashable(s[i])) == ForgetHashable(s[i]) {
        ForgetConvertHashable(s[i]);
      }
    case Dict(d) =>
      forall i | 0 <= i < |d|
        ensures ForgetHashable(ConvertHashable(d[i].0)) == ForgetHashable(d[i].0)
        ensures Forget(Convert(d[i].1)) == Forget(d[i].1)
      {
        ForgetConvertHashable(d[i].0);
        ForgetConvert(d[i].1);
      }
    case _ =>
  }

  /** After the conversion no valid UTF-8 byte string is left. */
  lemma {:induction false} ConvertHashableIsNormal(h: HashableValue)
    ensures NormalHashable(ConvertHashable(h))
  {
    match h
    case HTuple(t) =>
      forall i | 0 <= i < |t| ensures NormalHashable(ConvertHashable(t[i])) {
        ConvertHashableIsNormal(t[i]);
      }
    case HFrozenSet(s) =>
      forall i | 0 <= i < |s| ensures NormalHashable(ConvertHashable(s[i])) {
        ConvertHashableIsNormal(s[i]);
      }
    case _ =>
  }

  lemma {:induction false} ConvertIsNormal(v: Value)
    ensures Normal(Convert(v))
  {
    match v
    case List(l) =>
      forall i | 0 <= i < |l| ensures Normal(Convert(l[i])) {
        ConvertIsNormal(l[i]);
      }
    case Tuple(t) =>
      forall i | 0 <= i < |t| ensures Normal(Convert(t[i])) {
        ConvertIsNormal(t[i]);
      }
    case Set(s) =>
      forall i | 0 <= i < |s| ensures NormalHashable(ConvertHashable(s[i])) {
        ConvertHashableIsNormal(s[i]);
      }
    case FrozenSet(s) =>
      forall i | 0 <= i < |s| ensures NormalHashable(ConvertHashable(s[i])) {
        ConvertHashableIsNormal(s[i]);
      }
    case Dict(d) =>
      forall i | 0 <= i < |d| ensures NormalHashable(ConvertHashable(d[i].0)) && Normal(Convert(d[i].1)) {
        ConvertHashableIsNormal(d[i].0);
        ConvertIsNormal(d[i].1);
      }
    case _ =>
  }

  /** A tree with no valid UTF-8 byte string is left exactly as it is. */
  lemma {:induction false} NormalHashableIsFixed(h: HashableValue)
    requires NormalHashable(h)
    ensures ConvertHashable(h) == h
  {
    match h
    case HTuple(t) =>
      forall i | 0 <= i < |t| ensures ConvertHashable(t[i]) == t[i] {
        NormalHashableIsFixed(t[i]);
      }
    case HFrozenSet(s) =>
      forall i | 0 <= i < |s| ensures ConvertHashable(s[i]) == s[i] {
        NormalHashableIsFixed(s[i]);
      }
    case _ =>
  }

  lemma {:induction false} NormalIsFixed(v: Value)
    requires Normal(v)
    ensures Convert(v) == v
  {
    match v
    case List(l) =>
      forall i | 0 <= i < |l| ensures Convert(l[i]) == l[i] {
        NormalIsFixed(l[i]);
      }
    case Tuple(t) =>
      forall i | 0 <= i < |t| ensures Convert(t[i]) == t[i] {
        NormalIsFixed(t[i]);
      }
    case Set(s) =>
      forall i | 0 <= i < |s| ensures ConvertHashable(s[i]) == s[i] {
        NormalHashableIsFixed(s[i]);
      }
    case FrozenSet(s) =>
      forall i | 0 <= i < |s| ensures ConvertHashable(s[i]) == s[i] {
        NormalHashableIsFixed(s[i]);
      }
    case Dict(d) =>
      forall i | 0 <= i < |d| ensures ConvertHashable(d[i].0) == d[i].0 && Convert(d[i].1) == d[i].1 {
        NormalHashableIsFixed(d[i].0);
        NormalIsFixed(d[i].1);
      }
    case _ =>
  }

  /** The trees the conversion leaves alone are exactly those with no valid UTF-8 byte string. */
  lemma FixedIffNormal(v: Value)
    ensures Convert(v) == v <==> Normal(v)
  {
    ConvertIsNormal(v);
    if Normal(v) {
      NormalIsFixed(v);
    }
  }

  /** Converting twice is converting once. */
  lemma ConvertIdempotent(v: Value)
    ensures Convert(Convert(v)) == Convert(v)
  {
    ConvertIsNormal(v);
    NormalIsFixed(Convert(v));
  }

  lemma ConvertHashableIdempotent(h: HashableValue)
    ensures ConvertHashable(ConvertHashable(h)) == ConvertHashable(h)
  {
    ConvertHashableIsNormal(h);
    NormalHashableIsFixed(ConvertHashable(h));
  }
}
