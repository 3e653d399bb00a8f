/**
 * The order in which the registry's ordered key-value store hands back its
 * records: `values()` lists the entries by ascending key. Keys are strings,
 * compared lexicographically character by character.
 */
module KeyOrder {

  /** Strict lexicographic order: `a` is a proper prefix of `b`, or the first
      differing character of `a` is the smaller one. */
  predicate Less(a: string, b: string)
    decreases |a|
  {
    |b| > 0 && (|a| == 0 || a[0] < b[0] || (a[0] == b[0] && Less(a[1..], b[1..])))
  }

  lemma {:induction false} LessIrreflexive(a: string)
    ensures !Less(a, a)
    decreases |a|
  {
    if |a| > 0 {
      LessIrreflexive(a[1..]);
    }
  }

  lemma {:induction false} LessAsymmetric(a: string, b: string)
    ensures Less(a, b) ==> !Less(b, a)
    decreases |a|
  {
    if |a| > 0 && |b| > 0 && a[0] == b[0] {
      LessAsymmetric(a[1..], b[1..]);
    }
  }

  lemma {:induction false} LessTransitive(a: string, b: string, c: string)
    requires Less(a, b) && Less(b, c)
    ensures Less(a, c)
    decreases |a|
  {
    if |a| > 0 && a[0] == b[0] && b[0] == c[0] {
      LessTransitive(a[1..], b[1..], c[1..]);
    }
  }

  /** Any two distinct keys are ordered one way or the other. */
  lemma {:induction false} LessTotal(a: string, b: string)
    ensures a == b || Less(a, b) || Less(b, a)
    decreases |a|
  {
    if |a| > 0 && |b| > 0 && a[0] == b[0] {
      LessTotal(a[1..], b[1..]);
      if a[1..] == b[1..] {
        assert a == [a[0]] + a[1..] && b == [b[0]] + b[1..];
      }
    }
  }

  /** `k` is the smallest key of `keys`. */
  predicate IsLeast(k: string, keys: set<string>)
  {
    k in keys && forall j :: j in keys && j != k ==> Less(k, j)
  }

  lemma {:induction false} LeastExists(keys: set<string>)
    requires keys != {}
    ensures exists k :: IsLeast(k, keys)
    decreases |keys|
  {
    var x :| x in keys;
    if keys != {x} {
      var rest := keys - {x};
      LeastExists(rest);
      var m :| IsLeast(m, rest);
      LessTotal(m, x);
      if Less(m, x) {
        assert IsLeast(m, keys);
      } else {
        forall j | j in keys && j != x
          ensures Less(x, j)
        {
          if j != m {
            LessTransitive(x, m, j);
          }
        }
        assert IsLeast(x, keys);
      }
    } else {
      assert IsLeast(x, keys);
    }
  }

  lemma LeastUnique(keys: set<string>)
    ensures forall k, k' :: IsLeast(k, keys) && IsLeast(k', keys) ==> k == k'
  {
    forall k, k' | IsLeast(k, keys) && IsLeast(k', keys)
      ensures k == k'
    {
      LessAsymmetric(k, k');
    }
  }

  /** Every key precedes every later one. */
  ghost predicate Increasing(s: seq<string>)
  {
    forall i, j :: 0 <= i < j < |s| ==> Less(s[i], s[j])
  }

  /** The keys of the store in the order `values()` visits them. */
  function SortedKeys(keys: set<string>): (r: seq<string>)
    ensures |r| == |keys|
    ensures forall k :: k in r <==> k in keys
    ensures Increasing(r)
    decreases |keys|
  {
    if keys == {} then []
    else
      LeastExists(keys);
      LeastUnique(keys);
      var k :| IsLeast(k, keys);
      var r := [k] + SortedKeys(keys - {k});
      assert forall j :: 0 < j < |r| ==> r[j] in keys - {k};
      r
  }

  /** An increasing sequence is determined by the set of its elements. */
  lemma {:induction false} IncreasingUnique(a: seq<string>, b: seq<string>)
    requires Increasing(a) && Increasing(b) && |a| == |b|
    requires forall k :: k in a <==> k in b
    ensures a == b
    decreases |a|
  {
    if a != [] && b != [] {
      assert a[0] in b && b[0] in a;
      if a[0] != b[0] {
        LessAsymmetric(a[0], b[0]);
      }
      LessIrreflexive(a[0]);
      forall k
        ensures k in a[1..] <==> k in b[1..]
      {
        if k in a[1..] {
          var i :| 1 <= i < |a| && a[i] == k;
          assert Less(a[0], a[i]) && k in a;
        }
        if k in b[1..] {
          var j :| 1 <= j < |b| && b[j] == k;
          assert Less(b[0], b[j]) && k in b;
        }
      }
      IncreasingUnique(a[1..], b[1..]);
      assert a == [a[0]] + a[1..] && b == [b[0]] + b[1..];
    }
  }

  /** Dropping the element at position `i` of an increasing sequence leaves
      an increasing sequence of exactly the other elements. */
  lemma IncreasingWithout(s: seq<string>, i: nat)
    requires Increasing(s) && i < |s|
    ensures Increasing(s[..i] + s[i + 1..])
    ensures forall x :: x in s[..i] + s[i + 1..] <==> x in s && x != s[i]
  {
    var t := s[..i] + s[i + 1..];
    assert forall p :: 0 <= p < |t| ==> t[p] == s[if p < i then p else p + 1];
    forall p, q | 0 <= p < q < |t|
      ensures Less(t[p], t[q])
    {
      assert Less(s[if p < i then p else p + 1], s[if q < i then q else q + 1]);
    }
    forall x
      ensures x in t <==> x in s && x != s[i]
    {
      if x in t {
        var p :| 0 <= p < |t| && t[p] == x;
        var q := if p < i then p else p + 1;
        LessIrreflexive(s[i]);
        if q < i {
          assert Less(s[q], s[i]);
        } else {
          assert Less(s[i], s[q]);
        }
      }
      if x in s && x != s[i] {
        var q :| 0 <= q < |s| && s[q] == x;
        assert t[if q < i then q else q - 1] == x;
      }
    }
  }

  /** Removing one key from the store removes exactly that key from the
      visiting order and keeps the others in place. */
  lemma SortedKeysRemove(keys: set<string>, k: string) returns (i: nat)
    requires k in keys
    ensures i < |SortedKeys(keys)| && SortedKeys(keys)[i] == k
    ensures SortedKeys(keys - {k}) == SortedKeys(keys)[..i] + SortedKeys(keys)[i + 1..]
  {
    var s := SortedKeys(keys);
    i :| 0 <= i < |s| && s[i] == k;
    IncreasingWithout(s, i);
    IncreasingUnique(SortedKeys(keys - {k}), s[..i] + s[i + 1..]);
  }
}
