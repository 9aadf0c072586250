/** Sequence helpers the URL library imports but whose files are not part of this model:
    `uniq` (first-occurrence de-duplication), `zipObject` (positional pairing), plus the
    `String.prototype.split` / `Array.prototype.join` pair on a one-character separator. */
module Collections {
  import opened Results

  /** No element occurs twice. */
  predicate Distinct<T(==)>(s: seq<T>) {
    forall i, j :: 0 <= i < j < |s| ==> s[i] != s[j]
  }

  /** The position of the first occurrence of `x` in `s`. */
  function FirstIndex<T(==)>(s: seq<T>, x: T): (k: nat)
    requires x in s
    ensures k < |s| && s[k] == x
    ensures forall j :: 0 <= j < k ==> s[j] != x
  {
    if s[0] == x then 0 else 1 + FirstIndex(s[1..], x)
  }

  /** An element of a prefix has its first occurrence inside that prefix. */
  lemma FirstIndexInPrefix<T>(pre: seq<T>, last: T, x: T)
    requires x in pre
    ensures FirstIndex(pre + [last], x) == FirstIndex(pre, x)
  {
    var k := FirstIndex(pre, x);
    assert (pre + [last])[k] == x;
  }

  /** An element missing from the prefix first occurs at the end. */
  lemma FirstIndexAtEnd<T>(pre: seq<T>, last: T)
    requires last !in pre
    ensures FirstIndex(pre + [last], last) == |pre|
  {
    var s := pre + [last];
    forall j | 0 <= j < |pre| ensures s[j] != last {
      assert s[j] == pre[j];
    }
  }

  /** `uniq`: keeps the first occurrence of every element, in order: the result is
      duplicate-free, holds exactly the elements of `s`, and lists them in the order of
      their first occurrences. */
  function Uniq<T(==)>(s: seq<T>): (r: seq<T>)
    ensures Distinct(r)
    ensures forall i :: 0 <= i < |s| ==> s[i] in r
    ensures forall i :: 0 <= i < |r| ==> r[i] in s
    ensures forall i, j :: 0 <= i < j < |r| ==> FirstIndex(s, r[i]) < FirstIndex(s, r[j])
    ensures Distinct(s) ==> r == s
  {
    if |s| == 0 then []
    else
      var u := Uniq(s[..|s| - 1]);
      var r := if s[|s| - 1] in u then u else u + [s[|s| - 1]];
      UniqStep(s, u, r);
      r
  }

  /** The `Uniq` promises carry over from all elements but the last to all of them. */
  lemma UniqStep<T>(s: seq<T>, u: seq<T>, r: seq<T>)
    requires |s| > 0
    requires var pre := s[..|s| - 1];
             && Distinct(u)
             && (forall i :: 0 <= i < |pre| ==> pre[i] in u)
             && (forall i :: 0 <= i < |u| ==> u[i] in pre)
             && (forall i, j :: 0 <= i < j < |u| ==> FirstIndex(pre, u[i]) < FirstIndex(pre, u[j]))
             && (Distinct(pre) ==> u == pre)
    requires r == if s[|s| - 1] in u then u else u + [s[|s| - 1]]
    ensures Distinct(r)
    ensures forall i :: 0 <= i < |s| ==> s[i] in r
    ensures forall i :: 0 <= i < |r| ==> r[i] in s
    ensures forall i, j :: 0 <= i < j < |r| ==> FirstIndex(s, r[i]) < FirstIndex(s, r[j])
    ensures Distinct(s) ==> r == s
  {
    var pre, last := s[..|s| - 1], s[|s| - 1];
    InitLast(s);
    UniqMembersStep(pre, last, u, r);
    UniqOrderStep(pre, last, u, r);
    UniqKeepsDistinct(pre, last, u, r);
  }

  /** Appending the last element when it is new keeps the result duplicate-free and made
      of exactly the input's elements. */
  lemma UniqMembersStep<T>(pre: seq<T>, last: T, u: seq<T>, r: seq<T>)
    requires Distinct(u)
    requires forall i :: 0 <= i < |pre| ==> pre[i] in u
    requires forall i :: 0 <= i < |u| ==> u[i] in pre
    requires r == if last in u then u else u + [last]
    ensures Distinct(r)
    ensures forall i :: 0 <= i < |pre + [last]| ==> (pre + [last])[i] in r
    ensures forall i :: 0 <= i < |r| ==> r[i] in pre + [last]
  {
    var s := pre + [last];
    forall i | 0 <= i < |s| ensures s[i] in r {
      if i < |pre| {
        assert s[i] == pre[i];
      }
    }
  }

  /** A non-empty sequence is its elements but the last followed by the last. */
  lemma InitLast<T>(s: seq<T>)
    requires |s| > 0
    ensures s[..|s| - 1] + [s[|s| - 1]] == s
  {
  }

  /** A duplicate-free sequence with one more element is left as it is. */
  lemma UniqKeepsDistinct<T>(pre: seq<T>, last: T, u: seq<T>, r: seq<T>)
    requires Distinct(pre) ==> u == pre
    requires r == if last in u then u else u + [last]
    ensures Distinct(pre + [last]) ==> r == pre + [last]
  {
    var s := pre + [last];
    if Distinct(s) {
      forall i, j | 0 <= i < j < |pre| ensures pre[i] != pre[j] {
        assert pre[i] == s[i] && pre[j] == s[j];
      }
      forall i | 0 <= i < |pre| ensures pre[i] != last {
        assert pre[i] == s[i] && last == s[|pre|];
      }
    }
  }

  /** Appending the last element when it is new keeps first-occurrence order. */
  lemma UniqOrderStep<T>(pre: seq<T>, last: T, u: seq<T>, r: seq<T>)
    requires forall i :: 0 <= i < |pre| ==> pre[i] in u
    requires forall i :: 0 <= i < |u| ==> u[i] in pre
    requires forall i, j :: 0 <= i < j < |u| ==> FirstIndex(pre, u[i]) < FirstIndex(pre, u[j])
    requires r == if last in u then u else u + [last]
    ensures forall i, j :: 0 <= i < j < |r| ==> FirstIndex(pre + [last], r[i]) < FirstIndex(pre + [last], r[j])
  {
    forall i | 0 <= i < |u|
      ensures FirstIndex(pre + [last], u[i]) == FirstIndex(pre, u[i]) < |pre|
    {
      FirstIndexInPrefix(pre, last, u[i]);
    }
    if last !in u {
      assert last !in pre by {
        forall j | 0 <= j < |pre| ensures pre[j] != last {
          assert pre[j] in u;
        }
      }
      FirstIndexAtEnd(pre, last);
      forall i | 0 <= i < |r| ensures r[i] == if i < |u| then u[i] else last { }
    }
  }

  /** A repeated element is kept once. */
  lemma UniqRepeat<T>(x: T)
    ensures Uniq([x, x]) == [x]
  {
    assert [x, x][..1] == [x] && [x][..0] == [];
  }

  /** Two different elements are both kept, in order. */
  lemma UniqPair<T>(x: T, y: T)
    requires x != y
    ensures Uniq([x, y]) == [x, y]
  {
    assert Distinct([x, y]);
  }

  /** `zipObject`: the i-th key is paired with the i-th value; pairing stops at the shorter list. */
  function ZipObject<K, V>(keys: seq<K>, values: seq<V>): (r: seq<(K, V)>)
    ensures |r| == if |keys| <= |values| then |keys| else |values|
    ensures forall i :: 0 <= i < |r| ==> r[i].0 == keys[i] && r[i].1 == values[i]
  {
    var n := if |keys| <= |values| then |keys| else |values|;
    seq(n, i requires 0 <= i < n => (keys[i], values[i]))
  }

  /** Pairing stops after one pair when either list has one element. */
  lemma ZipOne<K, V>(keys: seq<K>, values: seq<V>)
    requires (if |keys| <= |values| then |keys| else |values|) == 1
    ensures ZipObject(keys, values) == [(keys[0], values[0])]
  {
    var z := ZipObject(keys, values);
    assert z == [z[0]];
  }

  /** A sequence is its first `n` elements followed by the rest. */
  lemma TakeDrop<T>(s: seq<T>, n: nat)
    requires n <= |s|
    ensures s[..n] + s[n..] == s
  {
  }

  /** The two halves of a concatenation are recovered by slicing at the seam. */
  lemma AppendParts<T>(a: seq<T>, b: seq<T>)
    ensures (a + b)[..|a|] == a && (a + b)[|a|..] == b
  {
  }

  /** A sequence with one element in front has that element first and the rest after. */
  lemma ConsParts<T>(x: T, t: seq<T>)
    ensures ([x] + t)[0] == x && ([x] + t)[1..] == t
  {
  }

  /** A non-empty sequence is its first element followed by the rest. */
  lemma HeadTail<T>(s: seq<T>)
    requires |s| > 0
    ensures [s[0]] + s[1..] == s
  {
  }

  /** Slices that skip the first element are slices of the tail. */
  lemma SliceOfTail<T>(s: seq<T>, k: nat)
    requires 1 + k <= |s|
    ensures s[1..1 + k] == s[1..][..k] && s[1 + k..] == s[1..][k..]
  {
  }

  /** Concatenation regroups freely. */
  lemma AppendAssoc<T>(a: seq<T>, b: seq<T>, c: seq<T>)
    ensures a + (b + c) == (a + b) + c
  {
  }

  /** `zipObject(uniq(keys), uniq(values))`: the keys are distinct and every pair is drawn
      from the two inputs. */
  lemma ZipUniqPairs<K, V>(keys: seq<K>, values: seq<V>)
    ensures Distinct(KeysOf(ZipObject(Uniq(keys), Uniq(values))))
    ensures forall i :: 0 <= i < |ZipObject(Uniq(keys), Uniq(values))| ==>
              ZipObject(Uniq(keys), Uniq(values))[i].0 in keys &&
              ZipObject(Uniq(keys), Uniq(values))[i].1 in values
  {
    var uk, uv := Uniq(keys), Uniq(values);
    var r := ZipObject(uk, uv);
    var ks := KeysOf(r);
    forall i, j | 0 <= i < j < |ks| ensures ks[i] != ks[j] {
      assert ks[i] == uk[i] && ks[j] == uk[j];
    }
    forall i | 0 <= i < |r| ensures r[i].0 in keys && r[i].1 in values {
      assert r[i].0 == uk[i] && r[i].1 == uv[i];
    }
  }

  /** The keys of an ordered list of pairs, in order. */
  function KeysOf<K, V>(kv: seq<(K, V)>): (ks: seq<K>)
    ensures |ks| == |kv|
    ensures forall i :: 0 <= i < |kv| ==> ks[i] == kv[i].0
  {
    seq(|kv|, i requires 0 <= i < |kv| => kv[i].0)
  }

  /** The values of an ordered list of pairs, in order. */
  function ValuesOf<K, V>(kv: seq<(K, V)>): (vs: seq<V>)
    ensures |vs| == |kv|
    ensures forall i :: 0 <= i < |kv| ==> vs[i] == kv[i].1
  {
    seq(|kv|, i requires 0 <= i < |kv| => kv[i].1)
  }

  /** Zipping the keys with the values gives back the pairs. */
  lemma ZipKeysValues<K, V>(kv: seq<(K, V)>)
    ensures ZipObject(KeysOf(kv), ValuesOf(kv)) == kv
  {
    var z := ZipObject(KeysOf(kv), ValuesOf(kv));
    forall i | 0 <= i < |kv| ensures z[i] == kv[i] {
      assert z[i].0 == kv[i].0 && z[i].1 == kv[i].1;
    }
  }

  /** The value of the first pair whose key is `k`. */
  function Lookup<K(==), V>(kv: seq<(K, V)>, k: K): (r: Option<V>)
    ensures r.None? <==> forall i :: 0 <= i < |kv| ==> kv[i].0 != k
    ensures r.Some? ==> exists i :: 0 <= i < |kv| && kv[i] == (k, r.value)
  {
    if |kv| == 0 then None
    else if kv[0].0 == k then Some(kv[0].1)
    else
      var r := Lookup(kv[1..], k);
      assert r.Some? ==> exists i :: 0 <= i < |kv| && kv[i] == (k, r.value) by {
        if r.Some? {
          var j :| 0 <= j < |kv[1..]| && kv[1..][j] == (k, r.value);
          assert kv[j + 1] == (k, r.value);
        }
      }
      r
  }

  /** With distinct keys, every key finds its own pair. */
  lemma {:induction false} LookupDistinct<K, V>(kv: seq<(K, V)>, i: nat)
    requires Distinct(KeysOf(kv))
    requires i < |kv|
    ensures Lookup(kv, kv[i].0) == Some(kv[i].1)
  {
    if i > 0 {
      assert kv[0].0 != kv[i].0 by { assert KeysOf(kv)[0] != KeysOf(kv)[i]; }
      assert KeysOf(kv[1..]) == KeysOf(kv)[1..];
      LookupDistinct(kv[1..], i - 1);
    }
  }

  /** `Array.prototype.join` with a one-character separator. */
  function Join(parts: seq<string>, sep: char): string {
    if |parts| == 0 then ""
    else if |parts| == 1 then parts[0]
    else parts[0] + [sep] + Join(parts[1..], sep)
  }

  /** `String.prototype.split` with a one-character separator: the unique list of
      separator-free pieces that joins back to `s`. */
  function Split(s: string, sep: char): (parts: seq<string>)
    ensures |parts| >= 1
    ensures Join(parts, sep) == s
    ensures forall i :: 0 <= i < |parts| ==> sep !in parts[i]
  {
    if |s| == 0 then [""]
    else
      var rest := Split(s[1..], sep);
      if s[0] == sep then
        assert s == [sep] + s[1..];
        [""] + rest
      else
        var parts := [[s[0]] + rest[0]] + rest[1..];
        assert parts[1..] == rest[1..];
        assert Join(parts, sep) == [s[0]] + Join(rest, sep);
        assert s == [s[0]] + s[1..];
        parts
  }

  /** A separator-free string splits into itself. */
  lemma {:induction false} SplitNoSeparator(s: string, sep: char)
    requires sep !in s
    ensures Split(s, sep) == [s]
  {
    if |s| > 0 {
      assert sep !in s[1..] by { assert forall x :: x in s[1..] ==> x in s; }
      SplitNoSeparator(s[1..], sep);
      assert [s[0]] + s[1..] == s;
    }
  }

  /** Splitting at the first separator. */
  lemma {:induction false} SplitAtFirst(a: string, sep: char, b: string)
    requires sep !in a
    ensures Split(a + [sep] + b, sep) == [a] + Split(b, sep)
  {
    if |a| == 0 {
      assert a + [sep] + b == [sep] + b;
      assert ([sep] + b)[1..] == b;
    } else {
      var s := a + [sep] + b;
      assert s[0] == a[0] && s[0] != sep;
      assert s[1..] == a[1..] + [sep] + b;
      assert sep !in a[1..] by { assert forall x :: x in a[1..] ==> x in a; }
      SplitAtFirst(a[1..], sep, b);
      assert [a[0]] + a[1..] == a;
    }
  }

  /** Join and Split are inverse on non-empty lists of separator-free pieces. */
  lemma {:induction false} SplitJoin(parts: seq<string>, sep: char)
    requires |parts| >= 1
    requires forall i :: 0 <= i < |parts| ==> sep !in parts[i]
    ensures Split(Join(parts, sep), sep) == parts
  {
    if |parts| == 1 {
      SplitNoSeparator(parts[0], sep);
    } else {
      SplitJoin(parts[1..], sep);
      SplitAtFirst(parts[0], sep, Join(parts[1..], sep));
      assert [parts[0]] + parts[1..] == parts;
    }
  }
}
