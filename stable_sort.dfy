/** `[...xs].sort((a, b) => key(b) - key(a))`: a stable sort into
    non-increasing order of a real key. Section 23.1.3.30 of ECMA-262 requires
    Array.prototype.sort to be stable, so with a consistent comparator its
    result is the unique non-increasing rearrangement that keeps equal keys in
    input order. The model is an insertion sort. */
module StableSort {

  /** Inserts x in front of the first element whose key is not above x's. */
  function Insert<T>(x: T, s: seq<T>, key: T -> real): (r: seq<T>)
    ensures |r| == |s| + 1
  {
    if s == [] || key(s[0]) <= key(x) then [x] + s
    else [s[0]] + Insert(x, s[1..], key)
  }

  /** The sorted copy. */
  function SortDesc<T>(s: seq<T>, key: T -> real): (r: seq<T>)
    ensures |r| == |s|
  {
    if s == [] then [] else Insert(s[0], SortDesc(s[1..], key), key)
  }

  ghost predicate NonIncreasing<T>(s: seq<T>, key: T -> real)
  {
    forall i, j :: 0 <= i < j < |s| ==> key(s[i]) >= key(s[j])
  }

  /** The elements of s whose key is k, in order. */
  function WithKey<T>(s: seq<T>, key: T -> real, k: real): (r: seq<T>)
  {
    if s == [] then []
    else (if key(s[0]) == k then [s[0]] else []) + WithKey(s[1..], key, k)
  }

  lemma {:induction false} InsertPermutes<T>(x: T, s: seq<T>, key: T -> real)
    ensures multiset(Insert(x, s, key)) == multiset([x] + s)
  {
    if s != [] && key(s[0]) > key(x) {
      InsertPermutes(x, s[1..], key);
      assert s == [s[0]] + s[1..];
    }
  }

  /** Every key in s is at most v. */
  ghost predicate KeysAtMost<T>(s: seq<T>, key: T -> real, v: real)
  {
    forall i :: 0 <= i < |s| ==> key(s[i]) <= v
  }

  lemma TailNonIncreasing<T>(s: seq<T>, key: T -> real)
    requires s != [] && NonIncreasing(s, key)
    ensures NonIncreasing(s[1..], key) && KeysAtMost(s[1..], key, key(s[0]))
  {
    forall i, j | 0 <= i < j < |s[1..]| ensures key(s[1..][i]) >= key(s[1..][j]) {
      assert s[1..][i] == s[i + 1] && s[1..][j] == s[j + 1];
    }
    forall i | 0 <= i < |s[1..]| ensures key(s[1..][i]) <= key(s[0]) {
      assert s[1..][i] == s[i + 1];
    }
  }

  lemma ConsNonIncreasing<T>(a: T, t: seq<T>, key: T -> real)
    requires NonIncreasing(t, key) && KeysAtMost(t, key, key(a))
    ensures NonIncreasing([a] + t, key)
  {
    var r := [a] + t;
    forall i, j | 0 <= i < j < |r| ensures key(r[i]) >= key(r[j]) {
      assert r[j] == t[j - 1];
      if i > 0 {
        assert r[i] == t[i - 1];
      }
    }
  }

  lemma {:induction false} InsertKeysAtMost<T>(x: T, s: seq<T>, key: T -> real, v: real)
    requires KeysAtMost(s, key, v) && key(x) <= v
    ensures KeysAtMost(Insert(x, s, key), key, v)
  {
    if s != [] && key(s[0]) > key(x) {
      assert KeysAtMost(s[1..], key, v) by {
        forall i | 0 <= i < |s[1..]| ensures key(s[1..][i]) <= v {
          assert s[1..][i] == s[i + 1];
        }
      }
      InsertKeysAtMost(x, s[1..], key, v);
      var r := [s[0]] + Insert(x, s[1..], key);
      forall i | 0 <= i < |r| ensures key(r[i]) <= v {
        if i > 0 {
          assert r[i] == Insert(x, s[1..], key)[i - 1];
        }
      }
    }
  }

  lemma {:induction false} InsertSorted<T>(x: T, s: seq<T>, key: T -> real)
    requires NonIncreasing(s, key)
    ensures NonIncreasing(Insert(x, s, key), key)
  {
    if s == [] || key(s[0]) <= key(x) {
      if s != [] {
        TailNonIncreasing(s, key);
        assert KeysAtMost(s, key, key(x)) by {
          forall i | 0 <= i < |s| ensures key(s[i]) <= key(x) {
            if i > 0 {
              assert s[1..][i - 1] == s[i];
            }
          }
        }
      }
      ConsNonIncreasing(x, s, key);
    } else {
      TailNonIncreasing(s, key);
      InsertSorted(x, s[1..], key);
      InsertKeysAtMost(x, s[1..], key, key(s[0]));
      ConsNonIncreasing(s[0], Insert(x, s[1..], key), key);
    }
  }

  lemma WithKeyCons<T>(a: T, t: seq<T>, key: T -> real, k: real)
    ensures WithKey([a] + t, key, k) == (if key(a) == k then [a] else []) + WithKey(t, key, k)
  {
    assert ([a] + t)[0] == a && ([a] + t)[1..] == t;
  }

  /** Inserting x changes the elements with x's key only by putting x in
      front of them, and leaves the elements with any other key alone. */
  lemma {:induction false} InsertWithKey<T>(x: T, s: seq<T>, key: T -> real, k: real)
    ensures WithKey(Insert(x, s, key), key, k)
         == (if key(x) == k then [x] else []) + WithKey(s, key, k)
  {
    if s == [] || key(s[0]) <= key(x) {
      WithKeyCons(x, s, key, k);
    } else {
      var first: seq<T> := if key(s[0]) == k then [s[0]] else [];
      InsertWithKey(x, s[1..], key, k);
      WithKeyCons(s[0], Insert(x, s[1..], key), key, k);
      WithKeyCons(s[0], s[1..], key, k);
      assert [s[0]] + s[1..] == s;
      if key(x) == k {
        assert first == [];
      }
    }
  }

  /** The sorted copy is a rearrangement of the input, in non-increasing key
      order, and keeps the elements of every key in their input order. */
  lemma {:induction false} SortDescCorrect<T>(s: seq<T>, key: T -> real)
    ensures multiset(SortDesc(s, key)) == multiset(s)
    ensures NonIncreasing(SortDesc(s, key), key)
    ensures forall k :: WithKey(SortDesc(s, key), key, k) == WithKey(s, key, k)
  {
    if s != [] {
      var rest := SortDesc(s[1..], key);
      SortDescCorrect(s[1..], key);
      InsertPermutes(s[0], rest, key);
      InsertSorted(s[0], rest, key);
      assert s == [s[0]] + s[1..];
      forall k ensures WithKey(SortDesc(s, key), key, k) == WithKey(s, key, k) {
        InsertWithKey(s[0], rest, key, k);
      }
    }
  }

  /** The first element of the sorted copy is an element of the input with
      the greatest key. */
  lemma SortDescHeadIsMax<T>(s: seq<T>, key: T -> real)
    requires |s| > 0
    ensures SortDesc(s, key)[0] in s
    ensures forall j :: 0 <= j < |s| ==> key(s[j]) <= key(SortDesc(s, key)[0])
  {
    var r := SortDesc(s, key);
    SortDescCorrect(s, key);
    assert r[0] in multiset(r);
    forall j | 0 <= j < |s| ensures key(s[j]) <= key(r[0]) {
      assert s[j] in multiset(s);
      var k :| 0 <= k < |r| && r[k] == s[j];
      if k > 0 {
        assert key(r[0]) >= key(r[k]);
      }
    }
  }

  /** When every key is k, selecting key k keeps everything. */
  lemma {:induction false} WithKeyAll<T>(s: seq<T>, key: T -> real, k: real)
    requires forall i :: 0 <= i < |s| ==> key(s[i]) == k
    ensures WithKey(s, key, k) == s
  {
    if s != [] {
      assert forall i :: 0 <= i < |s[1..]| ==> key(s[1..][i]) == k by {
        forall i | 0 <= i < |s[1..]| ensures key(s[1..][i]) == k {
          assert s[1..][i] == s[i + 1];
        }
      }
      WithKeyAll(s[1..], key, k);
      assert [s[0]] + s[1..] == s;
    }
  }
}
