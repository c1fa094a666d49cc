/** Byte strings and their lexicographic order, the order of Go's `<` on strings and of
    the comparator that sorts transaction results. */
module Bytes {
  type byte = b: int | 0 <= b < 256

  /** Strictly before in lexicographic order; a proper prefix comes first. */
  predicate Less(a: seq<byte>, b: seq<byte>)
  {
    if a == [] || b == [] then |a| < |b|
    else if a[0] != b[0] then a[0] < b[0]
    else Less(a[1..], b[1..])
  }

  /** The comparator as the loop the sort calls. */
  method Compare(a: seq<byte>, b: seq<byte>) returns (less: bool)
    ensures less == Less(a, b)
  {
    var k := 0;
    while k < |a| && k < |b|
      invariant 0 <= k <= |a| && k <= |b|
      invariant Less(a, b) == Less(a[k..], b[k..])
    {
      if a[k] != b[k] {
        return a[k] < b[k];
      }
      assert a[k..][1..] == a[k + 1..] && b[k..][1..] == b[k + 1..];
      k := k + 1;
    }
    return |a| < |b|;
  }

  lemma {:induction false} LessTransitive(a: seq<byte>, b: seq<byte>, c: seq<byte>)
    requires Less(a, b) && Less(b, c)
    ensures Less(a, c)
  {
    if a != [] && a[0] == b[0] == c[0] {
      LessTransitive(a[1..], b[1..], c[1..]);
    }
  }

  /** Exactly one of the three cases holds of any two byte strings. */
  lemma {:induction false} LessTrichotomy(a: seq<byte>, b: seq<byte>)
    ensures !Less(a, a)
    ensures !(Less(a, b) && Less(b, a))
    ensures Less(a, b) || a == b || Less(b, a)
  {
    if a != [] && b != [] && a[0] == b[0] {
      LessTrichotomy(a[1..], b[1..]);
      assert a == [a[0]] + a[1..] && b == [b[0]] + b[1..];
    } else if a != [] {
      LessTrichotomy(a[1..], a[1..]);
    }
  }

  /** Lexicographic: a proper prefix comes first, and otherwise the first byte that differs decides. */
  lemma {:induction false} LessExactly(a: seq<byte>, b: seq<byte>)
    ensures Less(a, b) <==> (a <= b && a != b) || exists k: nat :: DiffersAt(a, b, k) && a[k] < b[k]
  {
    if a != [] && b != [] && a[0] == b[0] {
      var s, t := a[1..], b[1..];
      LessExactly(s, t);
      assert a == [a[0]] + s && b == [b[0]] + t;
      forall k: nat
        ensures DiffersAt(a, b, k + 1) <==> DiffersAt(s, t, k)
      {
        if k < |s| && k < |t| {
          assert a[..k + 1] == [a[0]] + s[..k] && b[..k + 1] == [b[0]] + t[..k];
          assert a[..k + 1][1..] == s[..k] && b[..k + 1][1..] == t[..k];
        }
      }
      if exists k: nat :: DiffersAt(a, b, k) && a[k] < b[k] {
        var k: nat :| DiffersAt(a, b, k) && a[k] < b[k];
        assert DiffersAt(s, t, k - 1);
      }
      if exists k: nat :: DiffersAt(s, t, k) && s[k] < t[k] {
        var k: nat :| DiffersAt(s, t, k) && s[k] < t[k];
        assert DiffersAt(a, b, k + 1);
      }
    } else if a != [] && b != [] {
      assert a[..0] == b[..0];
      assert DiffersAt(a, b, 0);
      assert forall k: nat :: DiffersAt(a, b, k) ==> a[..k] == b[..k] && (k > 0 ==> a[0] == a[..k][0] == b[..k][0]);
    }
  }

  predicate DiffersAt(a: seq<byte>, b: seq<byte>, k: nat)
  {
    k < |a| && k < |b| && a[..k] == b[..k] && a[k] != b[k]
  }

  /** No later element comes strictly before an earlier one. */
  predicate Sorted(s: seq<seq<byte>>)
  {
    forall i, j :: 0 <= i < j < |s| ==> !Less(s[j], s[i])
  }

  /** A multiset of byte strings has one sorted order. */
  lemma {:induction false} SortedUnique(s: seq<seq<byte>>, t: seq<seq<byte>>)
    requires Sorted(s) && Sorted(t)
    requires multiset(s) == multiset(t)
    ensures s == t
  {
    hide Less;
    if s == [] {
      assert |multiset(t)| == 0;
    } else {
      HeadsAgree(s, t);
      assert s == [s[0]] + s[1..] && t == [t[0]] + t[1..];
      assert multiset(s[1..]) == multiset(s) - multiset{s[0]};
      SortedUnique(s[1..], t[1..]);
    }
  }

  lemma HeadsAgree(s: seq<seq<byte>>, t: seq<seq<byte>>)
    requires Sorted(s) && Sorted(t)
    requires multiset(s) == multiset(t) && s != []
    ensures t != [] && s[0] == t[0]
  {
    hide Less;
    assert s[0] in multiset(t);
    assert t[0] in multiset(s);
    var i :| 0 <= i < |t| && t[i] == s[0];
    var j :| 0 <= j < |s| && s[j] == t[0];
    LessTrichotomy(s[0], t[0]);
  }
}
