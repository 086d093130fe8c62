/** Byte strings and their lexicographic order, the order in which GroveDB keeps keys. */
module ByteOrder {
  type Byte = x: int | 0 <= x < 256
  type Bytes = seq<Byte>

  /** Lexicographic order: the shorter of two strings comes first when it is a prefix. */
  predicate Lt(a: Bytes, b: Bytes)
  {
    b != [] && (a == [] || a[0] < b[0] || (a[0] == b[0] && Lt(a[1..], b[1..])))
  }

  predicate Le(a: Bytes, b: Bytes)
  {
    a == b || Lt(a, b)
  }

  lemma {:induction false} Irreflexive(a: Bytes)
    ensures !Lt(a, a)
  {
    if a == [] {
    } else {
      Irreflexive(a[1..]);
    }
  }

  lemma {:induction false} Transitive(a: Bytes, b: Bytes, c: Bytes)
    requires Lt(a, b) && Lt(b, c)
    ensures Lt(a, c)
  {
    if a != [] && a[0] == b[0] == c[0] {
      Transitive(a[1..], b[1..], c[1..]);
    }
  }

  lemma {:induction false} Trichotomy(a: Bytes, b: Bytes)
    ensures Lt(a, b) || a == b || Lt(b, a)
    ensures Lt(a, b) ==> a != b && !Lt(b, a)
  {
    if a != [] && b != [] && a[0] == b[0] {
      Trichotomy(a[1..], b[1..]);
      assert a == [a[0]] + a[1..] && b == [b[0]] + b[1..];
    } else if Lt(a, b) {
      Irreflexive(a);
    }
  }

  /** Transitivity for three strings that may or may not be in order. */
  lemma Chain(a: Bytes, b: Bytes, c: Bytes)
    ensures Lt(a, b) && Lt(b, c) ==> Lt(a, c)
  {
    if Lt(a, b) && Lt(b, c) {
      Transitive(a, b, c);
    }
  }

  /** A common prefix does not matter to the order. */
  lemma {:induction false} CommonPrefix(p: Bytes, a: Bytes, b: Bytes)
    ensures Lt(p + a, p + b) <==> Lt(a, b)
  {
    if p == [] {
      assert p + a == a && p + b == b;
    } else {
      CommonPrefix(p[1..], a, b);
      assert (p + a)[1..] == p[1..] + a && (p + b)[1..] == p[1..] + b;
    }
  }

  /** Nothing lies between `s` and `s + [0]`. */
  lemma {:induction false} NothingBetween(s: Bytes, k: Bytes)
    ensures Lt(s, s + [0])
    ensures Lt(s, k) ==> !Lt(k, s + [0])
  {
    if s != [] {
      assert (s + [0])[1..] == s[1..] + [0];
      NothingBetween(s[1..], if k == [] then [] else k[1..]);
    } else {
      assert (s + [0])[1..] == [];
    }
  }

  /** Any other string above `s` is above `s + [0]`, so the order is dense apart from those neighbours. */
  lemma {:induction false} SomethingBetween(s: Bytes, t: Bytes)
    requires Lt(s, t) && t != s + [0]
    ensures Lt(s + [0], t)
  {
    assert t == [t[0]] + t[1..];
    if s == [] {
    } else {
      assert (s + [0])[1..] == s[1..] + [0];
      assert s + [0] == [s[0]] + (s[1..] + [0]);
      if t[0] == s[0] {
        SomethingBetween(s[1..], t[1..]);
      }
    }
  }

  /** The string just past every string that starts with `p`: `p` with its last byte raised by one. */
  function PrefixEnd(p: Bytes): (r: Bytes)
    requires p != [] && p[|p| - 1] < 255
    ensures |r| == |p|
  {
    p[|p| - 1 := p[|p| - 1] + 1]
  }

  /** The strings starting with `p` are exactly those from `p` up to, not including, `PrefixEnd(p)`. */
  lemma {:induction false} PrefixInterval(p: Bytes, k: Bytes)
    requires p != [] && p[|p| - 1] < 255
    ensures p <= k <==> Le(p, k) && Lt(k, PrefixEnd(p))
  {
    var e := PrefixEnd(p);
    if |p| == 1 {
      assert p == [p[0]] && e == [p[0] + 1];
      assert p[1..] == [] && e[1..] == [];
      if k != [] {
        assert k == [k[0]] + k[1..];
        assert p <= k <==> k[0] == p[0];
        assert k == p <==> k[0] == p[0] && k[1..] == [];
        assert Lt(k, e) <==> k[0] <= p[0];
        assert Lt(p, k) <==> p[0] < k[0] || (p[0] == k[0] && k[1..] != []);
      }
    } else {
      assert e[0] == p[0] && e[1..] == PrefixEnd(p[1..]);
      assert p == [p[0]] + p[1..];
      if k != [] && k[0] == p[0] {
        PrefixInterval(p[1..], k[1..]);
        assert k == [k[0]] + k[1..];
        assert p <= k <==> p[1..] <= k[1..];
      }
    }
  }
}
