/**
 * The object store the contents manager sits on, seen as a snapshot: a finite
 * map from key strings to stored objects.  Listing "the objects whose key
 * starts with a prefix" yields the matching keys in lexicographic order, the
 * order in which S3 returns them (UTF-8 byte order, which for `char` is code
 * point order).
 */
module ObjectStore {

  type Bytes = seq<bv8>

  /** A store timestamp; the model never looks inside one. */
  type Timestamp = nat

  /** One stored object: its body and the time it was last written. */
  datatype Object = Object(body: Bytes, lastModified: Timestamp)

  /** The contents of a bucket. */
  type Bucket = map<string, Object>

  // ---------------------------------------------------------------------------
  // Lexicographic order on keys

  predicate LexLe(a: string, b: string)
    decreases |a|
  {
    |a| == 0 || (|b| > 0 && (a[0] < b[0] || (a[0] == b[0] && LexLe(a[1..], b[1..]))))
  }

  lemma {:induction false} LexLeReflexive(a: string)
    ensures LexLe(a, a)
    decreases |a|
  {
    if |a| > 0 {
      LexLeReflexive(a[1..]);
    }
  }

  lemma {:induction false} LexLeAntisymmetric(a: string, b: string)
    requires LexLe(a, b) && LexLe(b, a)
    ensures a == b
    decreases |a|
  {
    if |a| > 0 {
      LexLeAntisymmetric(a[1..], b[1..]);
      assert a == [a[0]] + a[1..] && b == [b[0]] + b[1..];
    }
  }

  lemma {:induction false} LexLeTransitive(a: string, b: string, c: string)
    requires LexLe(a, b) && LexLe(b, c)
    ensures LexLe(a, c)
    decreases |a|
  {
    if |a| > 0 && a[0] == b[0] == c[0] {
      LexLeTransitive(a[1..], b[1..], c[1..]);
    }
  }

  lemma {:induction false} LexLeTotal(a: string, b: string)
    ensures LexLe(a, b) || LexLe(b, a)
    decreases |a|
  {
    if |a| > 0 && |b| > 0 && a[0] == b[0] {
      LexLeTotal(a[1..], b[1..]);
    }
  }

  /** A key sorts no later than every key it is a prefix of. */
  lemma {:induction false} PrefixIsLexLe(p: string, s: string)
    requires p <= s
    ensures LexLe(p, s)
    decreases |p|
  {
    if |p| > 0 {
      assert p[1..] <= s[1..];
      PrefixIsLexLe(p[1..], s[1..]);
    }
  }

  /** A shared prefix does not change how two keys compare. */
  lemma {:induction false} LexLeCommonPrefix(p: string, a: string, b: string)
    ensures LexLe(p + a, p + b) <==> LexLe(a, b)
    decreases |p|
  {
    if |p| == 0 {
      assert p + a == a && p + b == b;
    } else {
      assert (p + a)[0] == p[0] == (p + b)[0];
      assert (p + a)[1..] == p[1..] + a;
      assert (p + b)[1..] == p[1..] + b;
      LexLeCommonPrefix(p[1..], a, b);
    }
  }

  // ---------------------------------------------------------------------------
  // Sorting a set of keys

  predicate IsLeast(m: string, s: set<string>)
  {
    m in s && forall x :: x in s ==> LexLe(m, x)
  }

  predicate StrictlySorted(r: seq<string>)
  {
    forall i, j :: 0 <= i < j < |r| ==> LexLe(r[i], r[j]) && r[i] != r[j]
  }

  lemma {:induction false} LeastExists(s: set<string>)
    requires s != {}
    ensures exists m :: IsLeast(m, s)
    decreases |s|
  {
    var y :| y in s;
    if s == {y} {
      LexLeReflexive(y);
      assert IsLeast(y, s);
    } else {
      LeastExists(s - {y});
      var m :| IsLeast(m, s - {y});
      LexLeTotal(m, y);
      if LexLe(m, y) {
        assert IsLeast(m, s);
      } else {
        forall x | x in s
          ensures LexLe(y, x)
        {
          if x == y {
            LexLeReflexive(y);
          } else {
            LexLeTransitive(y, m, x);
          }
        }
        assert IsLeast(y, s);
      }
    }
  }

  lemma LeastIsUnique(s: set<string>)
    ensures forall m, n :: IsLeast(m, s) && IsLeast(n, s) ==> m == n
  {
    forall m, n | IsLeast(m, s) && IsLeast(n, s)
      ensures m == n
    {
      LexLeAntisymmetric(m, n);
    }
  }

  /** The key that sorts first in a non-empty set of keys. */
  function Least(s: set<string>): (m: string)
    requires s != {}
    ensures m in s
    ensures forall x :: x in s ==> LexLe(m, x)
  {
    LeastExists(s);
    LeastIsUnique(s);
    var m :| IsLeast(m, s); m
  }

  /** The keys of `s`, each once, in lexicographic order. */
  function SortedKeys(s: set<string>): (r: seq<string>)
    ensures |r| == |s|
    ensures forall k :: k in r <==> k in s
    ensures StrictlySorted(r)
    decreases |s|
  {
    if s == {} then []
    else
      var m := Least(s);
      var rest := SortedKeys(s - {m});
      LeastThenSorted(m, rest, s);
      [m] + rest
  }

  /** Putting the least key in front of the sorted remaining keys sorts them all. */
  lemma LeastThenSorted(m: string, rest: seq<string>, s: set<string>)
    requires IsLeast(m, s)
    requires forall k :: k in rest <==> k in s - {m}
    requires StrictlySorted(rest)
    ensures StrictlySorted([m] + rest)
    ensures forall k :: k in [m] + rest <==> k in s
  {
    var r := [m] + rest;
    forall i, j | 0 <= i < j < |r|
      ensures LexLe(r[i], r[j]) && r[i] != r[j]
    {
      if i == 0 {
        assert r[j] == rest[j - 1] && rest[j - 1] in rest;
      } else {
        assert r[i] == rest[i - 1] && r[j] == rest[j - 1];
      }
    }
  }

  // ---------------------------------------------------------------------------
  // Listing by prefix

  function KeysWithPrefix(bucket: Bucket, prefix: string): set<string>
  {
    set k | k in bucket && prefix <= k
  }

  /** What `bucket.objects.filter(Prefix=prefix)` yields: the keys starting
    * with `prefix`, in lexicographic order. */
  function ListKeys(bucket: Bucket, prefix: string): (r: seq<string>)
    ensures forall k :: k in r <==> k in bucket && prefix <= k
    ensures StrictlySorted(r)
    ensures |r| == |KeysWithPrefix(bucket, prefix)|
  {
    SortedKeys(KeysWithPrefix(bucket, prefix))
  }

  /** The first key listed under a prefix equals that prefix exactly when the
    * prefix is itself a stored key: a stored key sorts before every longer key
    * it is a prefix of. */
  lemma FirstListedIsExact(bucket: Bucket, key: string)
    ensures var r := ListKeys(bucket, key); (|r| > 0 && r[0] == key) <==> key in bucket
  {
    var r := ListKeys(bucket, key);
    if key in bucket {
      assert key in r;
      var i :| 0 <= i < |r| && r[i] == key;
      if i != 0 {
        assert LexLe(r[0], key) && r[0] != key;
        PrefixIsLexLe(key, r[0]);
        LexLeAntisymmetric(r[0], key);
      }
    }
  }

  /** A prefix listing is non-empty exactly when some stored key starts with the prefix. */
  lemma ListedIffSomeKeyHasPrefix(bucket: Bucket, prefix: string)
    ensures |ListKeys(bucket, prefix)| > 0 <==> exists k :: k in bucket && prefix <= k
  {
    var r := ListKeys(bucket, prefix);
    if exists k :: k in bucket && prefix <= k {
      var k :| k in bucket && prefix <= k;
      assert k in r;
    }
  }

  /** When exactly two stored keys start with a prefix, listing it yields them in their order. */
  lemma ListingOfTwo(bucket: Bucket, prefix: string, x: string, y: string)
    requires KeysWithPrefix(bucket, prefix) == {x, y}
    requires LexLe(x, y) && x != y
    ensures ListKeys(bucket, prefix) == [x, y]
  {
    var l := ListKeys(bucket, prefix);
    assert |l| == 2;
    assert l[0] in bucket && l[1] in bucket;
    if l[0] == y {
      LexLeAntisymmetric(x, y);
    }
  }
}
