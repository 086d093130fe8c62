/** CBOR values (ciborium's `Value`), with the equality and the orders that queries use. */
module Values {
  import opened Prelude
  import opened ByteOrder
  import opened KeyEncoding

  /** Texts are their UTF-8 bytes, doubles their 64-bit patterns, maps their entries in order. */
  datatype Value =
    | Integer(i: int)
    | ByteString(bytes: Bytes)
    | Float(bits: u64)
    | Text(utf8: Bytes)
    | Bool(b: bool)
    | Null
    | Tag(tag: u64, inner: Value)
    | Array(items: seq<Value>)
    | Map(entries: seq<(Value, Value)>)

  /** Rust's derived equality: structural, but with IEEE equality on floats. */
  predicate Eq(a: Value, b: Value)
  {
    match (a, b)
    case (Float(x), Float(y)) => FloatEqual(x, y)
    case (Tag(t, x), Tag(u, y)) => t == u && Eq(x, y)
    case (Array(xs), Array(ys)) => |xs| == |ys| && forall i | 0 <= i < |xs| :: Eq(xs[i], ys[i])
    case (Map(xs), Map(ys)) =>
      |xs| == |ys| && forall i | 0 <= i < |xs| :: Eq(xs[i].0, ys[i].0) && Eq(xs[i].1, ys[i].1)
    case _ => a == b
  }

  lemma {:induction false} EqSymmetric(a: Value, b: Value)
    ensures Eq(a, b) <==> Eq(b, a)
  {
    match (a, b)
    case (Tag(t, x), Tag(u, y)) => EqSymmetric(x, y);
    case (Array(xs), Array(ys)) =>
      if |xs| == |ys| {
        forall i | 0 <= i < |xs| ensures Eq(xs[i], ys[i]) <==> Eq(ys[i], xs[i]) {
          EqSymmetric(xs[i], ys[i]);
        }
      }
    case (Map(xs), Map(ys)) =>
      if |xs| == |ys| {
        forall i | 0 <= i < |xs|
          ensures Eq(xs[i].0, ys[i].0) && Eq(xs[i].1, ys[i].1) <==> Eq(ys[i].0, xs[i].0) && Eq(ys[i].1, xs[i].1)
        {
          EqSymmetric(xs[i].0, ys[i].0);
          EqSymmetric(xs[i].1, ys[i].1);
        }
      }
    case _ =>
  }

  /** Integers, byte strings, floats and texts are ordered among themselves only. */
  predicate Comparable(a: Value, b: Value)
  {
    match (a, b)
    case (Integer(_), Integer(_)) => true
    case (ByteString(_), ByteString(_)) => true
    case (Float(_), Float(_)) => true
    case (Text(_), Text(_)) => true
    case _ => false
  }

  predicate Less(a: Value, b: Value)
  {
    match (a, b)
    case (Integer(x), Integer(y)) => x < y
    case (ByteString(x), ByteString(y)) => Lt(x, y)
    case (Float(x), Float(y)) => FloatLess(x, y)
    case (Text(x), Text(y)) => Lt(x, y)
    case _ => false
  }

  predicate AtMost(a: Value, b: Value)
  {
    Less(a, b) || (Comparable(a, b) && Eq(a, b))
  }

  /** No value lies between two bounds that are out of order. */
  lemma NoneBetween(lower: Value, x: Value, upper: Value)
    ensures AtMost(lower, x) && AtMost(x, upper) ==> !Less(upper, lower)
    ensures Less(lower, x) && AtMost(x, upper) ==> !AtMost(upper, lower)
    ensures AtMost(lower, x) && Less(x, upper) ==> !AtMost(upper, lower)
  {
    match (lower, x, upper)
    case (ByteString(l), ByteString(k), ByteString(u)) => NoBytesBetween(l, k, u);
    case (Text(l), Text(k), Text(u)) => NoBytesBetween(l, k, u);
    case _ =>
  }

  lemma NoBytesBetween(lower: Bytes, x: Bytes, upper: Bytes)
    ensures Le(lower, x) && Le(x, upper) ==> !Lt(upper, lower)
    ensures Lt(lower, x) && Le(x, upper) ==> !Le(upper, lower)
    ensures Le(lower, x) && Lt(x, upper) ==> !Le(upper, lower)
  {
    Chain(lower, x, upper);
    Trichotomy(lower, upper);
    Trichotomy(lower, x);
    Trichotomy(x, upper);
  }
}
