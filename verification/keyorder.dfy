/**
 The order of `String` keys in serde_json's default `Map` (a `BTreeMap`):
 Rust's `Ord` for `String` compares the UTF-8 bytes, which orders texts
 lexicographically by code point.
 */
module KeyOrder {

  /** `a` comes strictly before `b`. */
  predicate Below(a: string, b: string)
    decreases |a|
  {
    && |b| > 0
    && (|a| == 0 || a[0] < b[0] || (a[0] == b[0] && Below(a[1..], b[1..])))
  }

  lemma {:induction false} BelowIrreflexive(a: string)
    ensures !Below(a, a)
    decreases |a|
  {
    if |a| > 0 {
      BelowIrreflexive(a[1..]);
    }
  }

  lemma {:induction false} BelowTransitive(a: string, b: string, c: string)
    requires Below(a, b) && Below(b, c)
    ensures Below(a, c)
    decreases |a|
  {
    if |a| > 0 && a[0] == b[0] && b[0] == c[0] {
      BelowTransitive(a[1..], b[1..], c[1..]);
    }
  }

  /** Two different keys are always ordered one way or the other. */
  lemma {:induction false} BelowTotal(a: string, b: string)
    requires a != b
    ensures Below(a, b) || Below(b, a)
    decreases |a|
  {
    if |a| > 0 && |b| > 0 && a[0] == b[0] {
      assert a == [a[0]] + a[1..] && b == [b[0]] + b[1..];
      BelowTotal(a[1..], b[1..]);
    }
  }

  lemma BelowAll(x: string, m: string, keys: set<string>)
    requires Below(x, m)
    requires forall o :: o in keys && o != m ==> Below(m, o)
    ensures forall o :: o in keys ==> Below(x, o)
  {
    forall o | o in keys ensures Below(x, o) {
      if o != m {
        BelowTransitive(x, m, o);
      }
    }
  }

  /** No two keys come each before the other. */
  lemma BelowAsymmetric()
    ensures forall a, b :: Below(a, b) ==> !Below(b, a)
  {
    forall a, b | Below(a, b) ensures !Below(b, a) {
      if Below(b, a) {
        BelowTransitive(a, b, a);
        BelowIrreflexive(a);
      }
    }
  }

  /** `k` comes before every other key of `keys`. */
  predicate IsFirst(keys: set<string>, k: string)
  {
    k in keys && forall o :: o in keys && o != k ==> Below(k, o)
  }

  /** Every non-empty set of keys has a first key. */
  lemma {:induction false} FirstExists(keys: set<string>)
    requires keys != {}
    ensures exists k :: IsFirst(keys, k)
    decreases |keys|
  {
    var x :| x in keys;
    if keys != {x} {
      FirstExists(keys - {x});
      var m :| IsFirst(keys - {x}, m);
      BelowTotal(x, m);
      if Below(x, m) {
        BelowAll(x, m, keys - {x});
        assert IsFirst(keys, x);
      } else {
        assert IsFirst(keys, m);
      }
    } else {
      assert IsFirst(keys, x);
    }
  }

  /** The first key of a non-empty set, in key order. */
  function Least(keys: set<string>): (k: string)
    requires keys != {}
    ensures k in keys
    ensures forall o :: o in keys && o != k ==> Below(k, o)
  {
    FirstExists(keys);
    BelowAsymmetric();
    var k :| IsFirst(keys, k);
    k
  }

  /** A key before every other key of the set is its `Least`. */
  lemma LeastIsFirst(keys: set<string>, k: string)
    requires k in keys
    requires forall o :: o in keys && o != k ==> Below(k, o)
    ensures Least(keys) == k
  {
    var l := Least(keys);
    if l != k {
      BelowTransitive(k, l, k);
      BelowIrreflexive(k);
    }
  }
}
