/** The order Python's `sorted` gives string keys, and sequences strictly sorted by it. */
module CacheOrder {

  /** Strict lexicographic order on code points. */
  predicate Less(a: string, b: string)
  {
    b != "" && (a == "" || a[0] < b[0] || (a[0] == b[0] && Less(a[1..], b[1..])))
  }

  /** The strings agree before place `i` and differ there. */
  ghost predicate FirstDifference(a: string, b: string, i: nat)
  {
    i < |a| && i < |b| && a[i] != b[i] && a[..i] == b[..i]
  }

  lemma DifferenceInTail(a: string, b: string, i: nat)
    requires a != "" && b != "" && a[0] == b[0]
    ensures FirstDifference(a, b, i + 1) <==> FirstDifference(a[1..], b[1..], i)
  {
    if i < |a| - 1 && i < |b| - 1 {
      assert a[..i + 1] == [a[0]] + a[1..][..i] && b[..i + 1] == [b[0]] + b[1..][..i];
    }
  }

  /** The order is decided by the first differing character, and a proper prefix comes first. */
  lemma {:induction false} LessIff(a: string, b: string)
    ensures Less(a, b) <==> (|a| < |b| && a == b[..|a|]) || exists i: nat :: FirstDifference(a, b, i) && a[i] < b[i]
    decreases |a|
  {
    if a != "" && b != "" {
      if a[0] != b[0] {
        assert FirstDifference(a, b, 0);
      } else {
        var x, y := a[1..], b[1..];
        LessIff(x, y);
        assert a == [a[0]] + x && b == [a[0]] + y;
        assert |a| <= |b| ==> b[..|a|] == [a[0]] + y[..|x|];
        if i: nat :| FirstDifference(x, y, i) && x[i] < y[i] {
          DifferenceInTail(a, b, i);
          assert a[i + 1] < b[i + 1];
        }
        if i: nat :| FirstDifference(a, b, i) && a[i] < b[i] {
          assert i > 0;
          DifferenceInTail(a, b, i - 1);
          assert x[i - 1] < y[i - 1];
        }
      }
    }
  }

  lemma {:induction false} LessTrichotomy(a: string, b: string)
    ensures Less(a, b) || a == b || Less(b, a)
    ensures !(Less(a, b) && Less(b, a)) && !Less(a, a)
    decreases |a|
  {
    if a != "" {
      LessTrichotomy(a[1..], a[1..]);
      if b != "" {
        LessTrichotomy(a[1..], b[1..]);
        assert a == [a[0]] + a[1..] && b == [b[0]] + b[1..];
      }
    }
  }

  lemma {:induction false} LessTransitive(a: string, b: string, c: string)
    requires Less(a, b) && Less(b, c)
    ensures Less(a, c)
    decreases |a|
  {
    if a != "" && a[0] == b[0] == c[0] {
      LessTransitive(a[1..], b[1..], c[1..]);
    }
  }

  ghost predicate Sorted(keys: seq<string>)
  {
    forall i, j :: 0 <= i < j < |keys| ==> Less(keys[i], keys[j])
  }

  /** A set of keys has only one strictly sorted listing. */
  lemma {:induction false} SortedUnique(xs: seq<string>, ys: seq<string>)
    requires Sorted(xs) && Sorted(ys) && |xs| == |ys| && forall k :: k in xs <==> k in ys
    ensures xs == ys
    decreases |xs|
  {
    if xs != [] {
      assert xs[0] in ys;
      assert ys[0] in xs;
      LessTrichotomy(xs[0], ys[0]);
      assert xs[0] == ys[0];
      assert xs == [xs[0]] + xs[1..] && ys == [ys[0]] + ys[1..];
      forall k
        ensures k in xs[1..] <==> k in ys[1..]
      {
        LessTrichotomy(k, k);
        assert k in xs <==> k == xs[0] || k in xs[1..];
        assert k in ys <==> k == ys[0] || k in ys[1..];
      }
      SortedUnique(xs[1..], ys[1..]);
    }
  }

  lemma {:induction false} SortedLength(keys: seq<string>, s: set<string>)
    requires Sorted(keys) && forall k :: k in keys <==> k in s
    ensures |keys| == |s|
  {
    if keys == [] {
      assert s == {};
    } else {
      var k := keys[0];
      assert k in keys;
      assert keys == [k] + keys[1..];
      forall x
        ensures x in keys[1..] <==> x in s - {k}
      {
        LessTrichotomy(k, k);
        assert x in keys <==> x == k || x in keys[1..];
      }
      SortedLength(keys[1..], s - {k});
    }
  }

  /** A new key between the smaller and the larger ones keeps a listing sorted. */
  lemma InsertKeepsSorted(keys: seq<string>, key: string, i: nat)
    requires Sorted(keys) && key !in keys && i <= |keys|
    requires (forall j :: 0 <= j < i ==> Less(keys[j], key)) && (i < |keys| ==> !Less(keys[i], key))
    ensures Sorted(keys[..i] + [key] + keys[i..])
  {
    forall j | i <= j < |keys|
      ensures Less(key, keys[j])
    {
      LessTrichotomy(keys[i], key);
      if j > i {
        LessTransitive(key, keys[i], keys[j]);
      }
    }
  }

  /** Insert a new key into a sorted listing. */
  method Insert(keys: seq<string>, key: string) returns (result: seq<string>)
    requires Sorted(keys) && key !in keys
    ensures Sorted(result) && forall k :: k in result <==> k == key || k in keys
  {
    var i := 0;
    while i < |keys| && Less(keys[i], key)
      invariant 0 <= i <= |keys|
      invariant forall j :: 0 <= j < i ==> Less(keys[j], key)
    {
      i := i + 1;
    }
    result := keys[..i] + [key] + keys[i..];
    InsertKeepsSorted(keys, key, i);
    assert keys == keys[..i] + keys[i..];
  }

  /** `sorted` of a dictionary's keys. */
  method SortedKeys(keys: set<string>) returns (result: seq<string>)
    ensures Sorted(result) && forall k :: k in result <==> k in keys
  {
    result := [];
    var rest := keys;
    while rest != {}
      invariant rest <= keys && Sorted(result)
      invariant forall k :: k in result <==> k in keys - rest
      decreases |rest|
    {
      var key :| key in rest;
      result := Insert(result, key);
      rest := rest - {key};
    }
  }
}
