/**
 * The order in which a `TreeMap<String, _>` keeps its keys: `String.compareTo`,
 * which compares character by character and, when one string is a prefix of
 * the other, puts the shorter one first. Characters are compared by code
 * point; Java compares UTF-16 code units, which agrees for every character
 * below U+10000.
 */
module StringOrder {

  /** `a.compareTo(b) < 0`, for strings of characters below U+10000 */
  predicate Less(a: string, b: string)
    decreases |a|
  {
    if |a| == 0 then |b| > 0
    else if |b| == 0 then false
    else if a[0] != b[0] then a[0] < b[0]
    else Less(a[1..], b[1..])
  }

  /**
   * `Less` is the lexicographic order: `a` is a proper prefix of `b`, or at
   * the first position where they differ `a` has the smaller character.
   */
  lemma {:induction false} LessIsLexicographic(a: string, b: string)
    ensures Less(a, b) <==>
      || (|a| < |b| && a == b[..|a|])
      || (exists k :: 0 <= k < |a| && k < |b| && a[..k] == b[..k] && a[k] < b[k])
    decreases |a|
  {
    if |a| > 0 && |b| > 0 {
      if a[0] != b[0] {
        assert a[..0] == b[..0];
        forall k | 0 < k < |a| && k < |b|
          ensures a[..k] != b[..k]
        {
          assert a[..k][0] != b[..k][0];
        }
        if |a| < |b| {
          assert a[0] != b[..|a|][0];
        }
      } else {
        var a', b' := a[1..], b[1..];
        LessIsLexicographic(a', b');
        if |a| < |b| {
          assert a == b[..|a|] <==> a' == b'[..|a'|] by {
            if a' == b'[..|a'|] {
              assert a == [a[0]] + a' && b[..|a|] == [b[0]] + b'[..|a'|];
            }
          }
        }
        if exists k :: 0 <= k < |a'| && k < |b'| && a'[..k] == b'[..k] && a'[k] < b'[k] {
          var k :| 0 <= k < |a'| && k < |b'| && a'[..k] == b'[..k] && a'[k] < b'[k];
          assert a[..k + 1] == [a[0]] + a'[..k] && b[..k + 1] == [b[0]] + b'[..k];
        }
        if exists k :: 0 <= k < |a| && k < |b| && a[..k] == b[..k] && a[k] < b[k] {
          var k :| 0 <= k < |a| && k < |b| && a[..k] == b[..k] && a[k] < b[k];
          assert k > 0;
          assert a'[..k - 1] == a[..k][1..] && b'[..k - 1] == b[..k][1..];
        }
      }
    }
  }

  lemma {:induction false} LessIrreflexive(a: string)
    ensures !Less(a, a)
  {
    if |a| > 0 {
      LessIrreflexive(a[1..]);
    }
  }

  lemma {:induction false} LessAsymmetric(a: string, b: string)
    requires Less(a, b)
    ensures !Less(b, a)
  {
    if |a| > 0 && |b| > 0 && a[0] == b[0] {
      LessAsymmetric(a[1..], b[1..]);
    }
  }

  lemma {:induction false} LessTransitive(a: string, b: string, c: string)
    requires Less(a, b) && Less(b, c)
    ensures Less(a, c)
    decreases |a|
  {
    if |a| > 0 && |b| > 0 && |c| > 0 && a[0] == b[0] && b[0] == c[0] {
      LessTransitive(a[1..], b[1..], c[1..]);
    }
  }

  lemma {:induction false} LessTotal(a: string, b: string)
    ensures a == b || Less(a, b) || Less(b, a)
  {
    if |a| > 0 && |b| > 0 && a[0] == b[0] {
      LessTotal(a[1..], b[1..]);
      if a[1..] == b[1..] {
        assert a == [a[0]] + a[1..] && b == [b[0]] + b[1..];
      }
    }
  }

  /** Every key of the map comes before every later one. */
  predicate StrictlyAscending(keys: seq<string>)
  {
    forall i, j :: 0 <= i < j < |keys| ==> Less(keys[i], keys[j])
  }

  /** `least` is the key a `TreeMap` over `keys` yields first. */
  predicate IsLeast(least: string, keys: set<string>)
  {
    least in keys && forall k :: k in keys && k != least ==> Less(least, k)
  }

  lemma {:induction false} LeastExists(keys: set<string>)
    requires keys != {}
    ensures exists least :: IsLeast(least, keys)
    decreases keys
  {
    var x :| x in keys;
    if keys == {x} {
      assert IsLeast(x, keys);
    } else {
      LeastExists(keys - {x});
      var m :| IsLeast(m, keys - {x});
      LessTotal(m, x);
      if Less(m, x) {
        assert IsLeast(m, keys);
      } else {
        forall k | k in keys && k != x
          ensures Less(x, k)
        {
          if k != m {
            LessTransitive(x, m, k);
          }
        }
        assert IsLeast(x, keys);
      }
    }
  }

  lemma LeastIsUnique(keys: set<string>)
    ensures forall m1, m2 :: IsLeast(m1, keys) && IsLeast(m2, keys) ==> m1 == m2
  {
    forall m1, m2 | IsLeast(m1, keys) && IsLeast(m2, keys)
      ensures m1 == m2
    {
      if m1 != m2 {
        LessAsymmetric(m1, m2);
      }
    }
  }

  /**
   * The keys of a `TreeMap` in the order its `entrySet()` yields them: every
   * key exactly once, in ascending `String.compareTo` order.
   */
  function AscendingKeys(keys: set<string>): (order: seq<string>)
    ensures StrictlyAscending(order)
    ensures forall k :: k in order <==> k in keys
    decreases keys
  {
    if keys == {} then []
    else
      LeastExists(keys);
      LeastIsUnique(keys);
      var least :| IsLeast(least, keys);
      [least] + AscendingKeys(keys - {least})
  }

  /** A strictly ascending sequence never repeats a key. */
  lemma AscendingHasNoDuplicates(order: seq<string>, i: int, j: int)
    requires StrictlyAscending(order)
    requires 0 <= i < |order| && 0 <= j < |order| && i != j
    ensures order[i] != order[j]
  {
    if i < j {
      LessIrreflexive(order[i]);
    } else {
      LessIrreflexive(order[j]);
    }
  }
}
