/**
 The order in which both backends enumerate keys. SQLite's `ORDER BY key` on a text
 column uses the BINARY collation (a byte-wise comparison of the UTF-8 encoding) and
 LevelDB's default comparator is byte-wise over the encoded key; for UTF-8 both agree
 with comparing strings character by character by code point, which is what `Below`
 does.
 */
module KeyOrder {

  /** Strict lexicographic order: `a` sorts before `b`. A proper prefix sorts first. */
  predicate Below(a: string, b: string)
    decreases |a|
  {
    |b| > 0 && (|a| == 0 || a[0] < b[0] || (a[0] == b[0] && Below(a[1..], b[1..])))
  }

  lemma {:induction false} BelowIrreflexive(a: string)
    ensures !Below(a, a)
    decreases |a|
  {
    if |a| > 0 {
      BelowIrreflexive(a[1..]);
    }
  }

  lemma {:induction false} BelowTransitive(a: string, b: string, c: string)
    requires Below(a, b) && Below(b, c)
    ensures Below(a, c)
    decreases |a|
  {
    if |a| > 0 && a[0] == b[0] && b[0] == c[0] {
      BelowTransitive(a[1..], b[1..], c[1..]);
    }
  }

  lemma {:induction false} BelowTotal(a: string, b: string)
    requires a != b
    ensures Below(a, b) || Below(b, a)
    decreases |a|
  {
    if |a| > 0 && |b| > 0 && a[0] == b[0] {
      assert a == [a[0]] + a[1..] && b == [b[0]] + b[1..];
      BelowTotal(a[1..], b[1..]);
    }
  }

  lemma {:induction false} BelowNotBoth(a: string, b: string)
    ensures !(Below(a, b) && Below(b, a))
  {
    if Below(a, b) && Below(b, a) {
      BelowTransitive(a, b, a);
      BelowIrreflexive(a);
    }
  }

  /** Strictly ascending: every key sorts before every later key (so no key repeats). */
  ghost predicate Ascending(s: seq<string>)
  {
    forall i, j :: 0 <= i < j < |s| ==> Below(s[i], s[j])
  }

  /** Strictly descending: every key sorts after every later key. */
  ghost predicate Descending(s: seq<string>)
  {
    forall i, j :: 0 <= i < j < |s| ==> Below(s[j], s[i])
  }

  /** The same elements in the opposite order. */
  function Reverse<T>(s: seq<T>): (r: seq<T>)
    ensures |r| == |s|
    ensures forall i :: 0 <= i < |s| ==> r[i] == s[|s| - 1 - i]
  {
    if |s| == 0 then [] else Reverse(s[1..]) + [s[0]]
  }

  lemma ReverseMembers<T>(s: seq<T>)
    ensures forall x :: x in Reverse(s) <==> x in s
  {
    var r := Reverse(s);
    forall x | x in s ensures x in r {
      var i :| 0 <= i < |s| && s[i] == x;
      assert r[|s| - 1 - i] == x;
    }
  }

  lemma ReverseReverse<T>(s: seq<T>)
    ensures Reverse(Reverse(s)) == s
  {
  }

  /** Reversing turns an ascending listing into a descending one and back. */
  lemma ReverseAscending(s: seq<string>)
    ensures Ascending(s) <==> Descending(Reverse(s))
  {
    var r := Reverse(s);
    if Ascending(s) {
      forall i, j | 0 <= i < j < |r| ensures Below(r[j], r[i]) {
        assert r[j] == s[|s| - 1 - j] && r[i] == s[|s| - 1 - i];
      }
    }
    if Descending(r) {
      forall i, j | 0 <= i < j < |s| ensures Below(s[i], s[j]) {
        assert s[i] == r[|s| - 1 - i] && s[j] == r[|s| - 1 - j];
      }
    }
  }

  /** Inserts a new key at its place in an ascending listing. */
  function InsertSorted(s: seq<string>, k: string): (r: seq<string>)
    requires Ascending(s)
    requires k !in s
    ensures Ascending(r)
    ensures |r| == |s| + 1
    ensures forall x :: x in r <==> x in s || x == k
  {
    if |s| == 0 then [k]
    else if Below(k, s[0]) then
      assert forall j :: 0 < j < |s| ==> Below(k, s[j]) by {
        forall j | 0 < j < |s| ensures Below(k, s[j]) {
          BelowTransitive(k, s[0], s[j]);
        }
      }
      [k] + s
    else
      BelowTotal(k, s[0]);
      var tail := InsertSorted(s[1..], k);
      assert forall x :: x in tail ==> Below(s[0], x);
      [s[0]] + tail
  }

  /** An ascending listing is fixed by the set of keys it lists. */
  lemma {:induction false} AscendingUnique(a: seq<string>, b: seq<string>)
    requires Ascending(a) && Ascending(b)
    requires forall x :: x in a <==> x in b
    ensures a == b
    decreases |a|
  {
    assert |a| == 0 <==> |b| == 0 by {
      if |a| > 0 { assert a[0] in b; }
      if |b| > 0 { assert b[0] in a; }
    }
    if |a| > 0 {
      assert a[0] in b;
      var j :| 0 <= j < |b| && b[j] == a[0];
      assert b[0] in a;
      var i :| 0 <= i < |a| && a[i] == b[0];
      // i > 0 would put a[0] before b[0], j > 0 would put b[0] before a[0]
      assert i > 0 ==> Below(a[0], b[0]);
      assert j > 0 ==> Below(b[0], a[0]);
      BelowNotBoth(a[0], b[0]);
      assert a[0] == b[0];
      forall x ensures x in a[1..] <==> x in b[1..] {
        if x in a[1..] {
          var i :| 1 <= i < |a| && a[i] == x;
          assert Below(a[0], x);
          BelowIrreflexive(x);
          assert x in b && x != b[0];
        }
        if x in b[1..] {
          var i :| 1 <= i < |b| && b[i] == x;
          assert Below(b[0], x);
          BelowIrreflexive(x);
          assert x in a && x != a[0];
        }
      }
      AscendingUnique(a[1..], b[1..]);
      assert a == [a[0]] + a[1..] && b == [b[0]] + b[1..];
    }
  }

  /** A descending listing is fixed by the set of keys it lists. */
  lemma DescendingUnique(a: seq<string>, b: seq<string>)
    requires Descending(a) && Descending(b)
    requires forall x :: x in a <==> x in b
    ensures a == b
  {
    ReverseReverse(a);
    ReverseReverse(b);
    ReverseAscending(Reverse(a));
    ReverseAscending(Reverse(b));
    ReverseMembers(a);
    ReverseMembers(b);
    AscendingUnique(Reverse(a), Reverse(b));
  }
}
