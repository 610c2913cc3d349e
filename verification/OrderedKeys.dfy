/** The iteration order of std::map<std::string, ...>: ascending, octet by octet. */
module OrderedKeys {
  import opened Bytes

  predicate Less(a: Text, b: Text) {
    b != [] && (a == [] || a[0] < b[0] || (a[0] == b[0] && Less(a[1..], b[1..])))
  }

  // a and b agree in the first k octets, and then a ends or has the lesser octet.
  ghost predicate LessAt(a: Text, b: Text, k: nat) {
    k <= |a| && k < |b| && a[..k] == b[..k] && (k == |a| || a[k] < b[k])
  }

  lemma {:induction false} LessIs(a: Text, b: Text)
    ensures Less(a, b) <==> exists k: nat :: LessAt(a, b, k)
    decreases |a|
  {
    if a == [] || b == [] || a[0] != b[0] {
      if Less(a, b) { assert LessAt(a, b, 0); }
    } else {
      LessIs(a[1..], b[1..]);
      forall k: nat | LessAt(a[1..], b[1..], k) ensures LessAt(a, b, k + 1) {
        assert a[..k + 1] == [a[0]] + a[1..][..k] && b[..k + 1] == [b[0]] + b[1..][..k];
      }
      forall k: nat | LessAt(a, b, k) ensures k > 0 && LessAt(a[1..], b[1..], k - 1) {
        if k > 0 { assert a[1..][..k - 1] == a[..k][1..] && b[1..][..k - 1] == b[..k][1..]; }
      }
    }
  }

  lemma {:induction false} LessTotal(a: Text, b: Text)
    ensures a == b || Less(a, b) || Less(b, a)
    ensures !(Less(a, b) && Less(b, a)) && !Less(a, a)
    decreases |a|
  {
    if a != [] && b != [] {
      LessTotal(a[1..], b[1..]);
      if a[1..] == b[1..] && a[0] == b[0] {
        assert a == [a[0]] + a[1..] && b == [b[0]] + b[1..];
      }
    }
    if a != [] { LessTotal(a[1..], a[1..]); }
  }

  lemma {:induction false} LessTransitive(a: Text, b: Text, c: Text)
    requires Less(a, b) && Less(b, c)
    ensures Less(a, c)
    decreases |a|
  {
    if a != [] && a[0] == b[0] == c[0] {
      LessTransitive(a[1..], b[1..], c[1..]);
    }
  }

  predicate IsLeast(k: Text, keys: set<Text>) {
    k in keys && forall x | x in keys :: x == k || Less(k, x)
  }

  lemma {:induction false} LeastExists(keys: set<Text>) returns (k: Text)
    requires keys != {}
    ensures IsLeast(k, keys)
    decreases |keys|
  {
    k :| k in keys;
    var others := keys - {k};
    if others != {} {
      var m := LeastExists(others);
      LessTotal(m, k);
      if Less(m, k) {
        k := m;
      } else {
        forall x | x in keys ensures x == k || Less(k, x) {
          if x != k && x != m { LessTransitive(k, m, x); }
        }
      }
    }
  }

  lemma LeastUnique(keys: set<Text>)
    requires keys != {}
    ensures exists k :: IsLeast(k, keys)
    ensures forall a, b | IsLeast(a, keys) && IsLeast(b, keys) :: a == b
  {
    var k := LeastExists(keys);
    forall a, b | IsLeast(a, keys) && IsLeast(b, keys) ensures a == b {
      LessTotal(a, b);
    }
  }

  ghost predicate Ascending(ks: seq<Text>) {
    forall i, j | 0 <= i < j < |ks| :: Less(ks[i], ks[j])
  }

  // The keys in iteration order.
  function Sorted(keys: set<Text>): (ks: seq<Text>)
    ensures Ascending(ks)
    ensures forall k :: k in ks <==> k in keys
    ensures |ks| == |keys|
    decreases |keys|
  {
    if keys == {} then []
    else
      LeastUnique(keys);
      var k :| IsLeast(k, keys);
      var rest := Sorted(keys - {k});
      assert forall j | 0 <= j < |rest| :: rest[j] in rest && Less(k, rest[j]);
      [k] + rest
  }
}
