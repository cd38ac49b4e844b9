/**
  PHP values as the field configuration holds them, and the PHP array
  operations the decorators use: lookup `$a[$k]`, assignment `$a[$k] = $v`
  and array union `$a + $b`.

  A PHP array is an ordered list of (key, value) entries whose keys are
  distinct. Keys are strings here; an integer key stands for its decimal
  string, which keeps key identity as PHP has it (PHP turns the key "5"
  into the integer 5 and back).
*/
module PhpArray {
  import opened Wrappers

  type Key = string

  datatype Value =
    | Null
    | Bool(b: bool)
    | Int(i: int)
    | Str(s: string)
    | Arr(entries: seq<(Key, Value)>)
    /** A float, an object or a resource: carried along, never inspected. */
    | Other(id: nat)

  type Entries = seq<(Key, Value)>

  /** The errors PHP raises in the modelled code. */
  datatype PhpError =
    /** `+` with an array on one side and a non-array on the other. */
    | UnsupportedOperandTypes

  /** The keys of an array. */
  function Keys(e: Entries): set<Key>
  {
    if e == [] then {} else {e[0].0} + Keys(e[1..])
  }

  /** Every key occurs once: what every PHP array guarantees. */
  predicate UniqueKeys(e: Entries)
  {
    forall i, j | 0 <= i < j < |e| :: e[i].0 != e[j].0
  }

  /** A value whose arrays, at every depth, have distinct keys. */
  predicate WellFormed(v: Value)
  {
    match v
    case Arr(e) => UniqueKeys(e) && forall i | 0 <= i < |e| :: WellFormed(e[i].1)
    case _ => true
  }

  /** `$a[$k]`: the value stored under `k`, if any. */
  function Get(e: Entries, k: Key): Option<Value>
  {
    if e == [] then None
    else if e[0].0 == k then Some(e[0].1)
    else Get(e[1..], k)
  }

  /** `$a[$k] = $v`: overwrite in place when `k` is present, append otherwise. */
  function Put(e: Entries, k: Key, v: Value): Entries
  {
    if e == [] then [(k, v)]
    else if e[0].0 == k then [(k, v)] + e[1..]
    else [e[0]] + Put(e[1..], k, v)
  }

  /** The entries of `e` whose key is not in `ks`, in their order in `e`. */
  function Without(e: Entries, ks: set<Key>): Entries
  {
    if e == [] then []
    else if e[0].0 in ks then Without(e[1..], ks)
    else [e[0]] + Without(e[1..], ks)
  }

  /** `$l + $r`: all of `l`, then the entries of `r` whose key `l` lacks. */
  function Union(l: Entries, r: Entries): Entries
  {
    l + Without(r, Keys(l))
  }

  /** `s` is `t` with some entries left out: `idx` says where each entry of `s` sits in `t`. */
  ghost predicate SubsequenceAt(s: Entries, t: Entries, idx: seq<nat>)
  {
    && |idx| == |s|
    && (forall i | 0 <= i < |idx| :: idx[i] < |t| && s[i] == t[idx[i]])
    && (forall i, j | 0 <= i < j < |idx| :: idx[i] < idx[j])
  }

  // ---------------------------------------------------------------- Keys, Get

  lemma {:induction false} KeysMember(e: Entries, k: Key)
    ensures k in Keys(e) <==> exists i | 0 <= i < |e| :: e[i].0 == k
  {
    if e != [] {
      KeysMember(e[1..], k);
      if k in Keys(e[1..]) {
        var i :| 0 <= i < |e[1..]| && e[1..][i].0 == k;
        assert e[i + 1].0 == k;
      }
      if exists i | 0 <= i < |e| :: e[i].0 == k {
        var i :| 0 <= i < |e| && e[i].0 == k;
        if i > 0 { assert e[1..][i - 1].0 == k; }
      }
    }
  }

  lemma {:induction false} KeysAppend(a: Entries, b: Entries)
    ensures Keys(a + b) == Keys(a) + Keys(b)
  {
    if a == [] {
      assert a + b == b;
    } else {
      assert (a + b)[0] == a[0] && (a + b)[1..] == a[1..] + b;
      KeysAppend(a[1..], b);
    }
  }

  /** A key is present exactly when a lookup finds it. */
  lemma {:induction false} GetFindsKeys(e: Entries, k: Key)
    ensures Get(e, k).Some? <==> k in Keys(e)
  {
    if e != [] { GetFindsKeys(e[1..], k); }
  }

  /** With distinct keys, a lookup returns the value stored beside the key. */
  lemma {:induction false} GetAt(e: Entries, i: nat)
    requires UniqueKeys(e) && i < |e|
    ensures Get(e, e[i].0) == Some(e[i].1)
  {
    if i > 0 {
      assert e[0].0 != e[i].0;
      assert e[1..][i - 1] == e[i];
      GetAt(e[1..], i - 1);
    }
  }

  lemma {:induction false} GetAppend(a: Entries, b: Entries, k: Key)
    ensures Get(a + b, k) == if k in Keys(a) then Get(a, k) else Get(b, k)
  {
    if a == [] {
      assert a + b == b;
    } else {
      assert (a + b)[0] == a[0] && (a + b)[1..] == a[1..] + b;
      GetAppend(a[1..], b, k);
    }
  }

  lemma HeadKeyNotInTail(e: Entries)
    requires UniqueKeys(e) && e != []
    ensures e[0].0 !in Keys(e[1..])
  {
    forall i | 0 <= i < |e[1..]| ensures e[1..][i].0 != e[0].0 {
      assert e[1..][i] == e[i + 1];
    }
    KeysMember(e[1..], e[0].0);
  }

  // ---------------------------------------------------------------- Put

  /** After `$a[$k] = $v`, `$a[$k]` is `v` and every other key reads as before. */
  lemma {:induction false} PutGet(e: Entries, k: Key, v: Value, k': Key)
    ensures Get(Put(e, k, v), k') == if k' == k then Some(v) else Get(e, k')
  {
    if e != [] && e[0].0 != k {
      PutGet(e[1..], k, v, k');
    }
  }

  /** Assignment adds `k` to the keys and nothing else. */
  lemma {:induction false} PutKeys(e: Entries, k: Key, v: Value)
    ensures Keys(Put(e, k, v)) == Keys(e) + {k}
  {
    if e != [] && e[0].0 != k {
      PutKeys(e[1..], k, v);
    }
  }

  /** Assigning to an absent key appends the entry at the end. */
  lemma {:induction false} PutAbsent(e: Entries, k: Key, v: Value)
    requires k !in Keys(e)
    ensures Put(e, k, v) == e + [(k, v)]
  {
    if e != [] {
      PutAbsent(e[1..], k, v);
    }
  }

  /** Assigning to a present key overwrites the entry where it stands; every other entry stays put. */
  lemma {:induction false} PutPresent(e: Entries, k: Key, v: Value, i: nat)
    requires UniqueKeys(e) && i < |e| && e[i].0 == k
    ensures Put(e, k, v) == e[..i] + [(k, v)] + e[i + 1..]
  {
    if i > 0 {
      assert e[0].0 != k;
      TailUnique(e);
      PutPresent(e[1..], k, v, i - 1);
      assert e[1..][..i - 1] == e[1..i] && e[1..][i..] == e[i + 1..];
      assert e[..i] == [e[0]] + e[1..i];
    }
  }

  /** Assignment keeps the keys distinct. */
  lemma {:induction false} PutUnique(e: Entries, k: Key, v: Value)
    requires UniqueKeys(e)
    ensures UniqueKeys(Put(e, k, v))
  {
    if e != [] {
      TailUnique(e);
      HeadKeyNotInTail(e);
      if e[0].0 == k {
        ConsUnique((k, v), e[1..]);
      } else {
        PutUnique(e[1..], k, v);
        PutKeys(e[1..], k, v);
        ConsUnique(e[0], Put(e[1..], k, v));
      }
    }
  }

  lemma TailUnique(e: Entries)
    requires UniqueKeys(e) && e != []
    ensures UniqueKeys(e[1..])
  {
  }

  lemma ConsUnique(x: (Key, Value), q: Entries)
    requires UniqueKeys(q) && x.0 !in Keys(q)
    ensures UniqueKeys([x] + q)
  {
    var p := [x] + q;
    forall i, j | 0 <= i < j < |p| ensures p[i].0 != p[j].0 {
      assert p[j] == q[j - 1];
      if i == 0 {
        KeysMember(q, q[j - 1].0);
      } else {
        assert p[i] == q[i - 1];
      }
    }
  }

  // ---------------------------------------------------------------- Without

  /** Dropping keys removes exactly those keys. */
  lemma {:induction false} WithoutKeys(e: Entries, ks: set<Key>)
    ensures Keys(Without(e, ks)) == Keys(e) - ks
  {
    if e != [] {
      WithoutKeys(e[1..], ks);
    }
  }

  /** An entry survives exactly when it was there and its key is not dropped. */
  lemma {:induction false} WithoutMembers(e: Entries, ks: set<Key>, x: (Key, Value))
    ensures x in Without(e, ks) <==> x in e && x.0 !in ks
  {
    if e != [] {
      WithoutMembers(e[1..], ks, x);
      assert x in e <==> x == e[0] || x in e[1..];
    }
  }

  /** The survivors keep their relative order: they form a subsequence of `e`. */
  lemma {:induction false} WithoutSubsequence(e: Entries, ks: set<Key>) returns (idx: seq<nat>)
    ensures SubsequenceAt(Without(e, ks), e, idx)
  {
    if e == [] {
      idx := [];
    } else {
      var rest := WithoutSubsequence(e[1..], ks);
      var shifted := seq(|rest|, i requires 0 <= i < |rest| => rest[i] + 1);
      if e[0].0 in ks {
        idx := shifted;
      } else {
        idx := [0] + shifted;
      }
    }
  }

  /** Dropping keys that do not occur changes nothing. */
  lemma {:induction false} WithoutNothing(e: Entries, ks: set<Key>)
    requires Keys(e) !! ks
    ensures Without(e, ks) == e
  {
    if e != [] {
      WithoutNothing(e[1..], ks);
    }
  }

  /** Dropping an array's own keys leaves nothing. */
  lemma {:induction false} WithoutAll(e: Entries, ks: set<Key>)
    requires Keys(e) <= ks
    ensures Without(e, ks) == []
  {
    if e != [] {
      WithoutAll(e[1..], ks);
    }
  }

  lemma {:induction false} WithoutAppend(a: Entries, b: Entries, ks: set<Key>)
    ensures Without(a + b, ks) == Without(a, ks) + Without(b, ks)
  {
    if a == [] {
      assert a + b == b;
    } else {
      assert (a + b)[0] == a[0] && (a + b)[1..] == a[1..] + b;
      WithoutAppend(a[1..], b, ks);
    }
  }

  /** Dropping keys keeps keys distinct. */
  lemma {:induction false} WithoutUnique(e: Entries, ks: set<Key>)
    requires UniqueKeys(e)
    ensures UniqueKeys(Without(e, ks))
  {
    var idx := WithoutSubsequence(e, ks);
    var w := Without(e, ks);
    forall i, j | 0 <= i < j < |w| ensures w[i].0 != w[j].0 {
      assert w[i] == e[idx[i]] && w[j] == e[idx[j]];
    }
  }

  /** With distinct keys, dropping one key shortens the array by one exactly when it is present. */
  lemma {:induction false} WithoutOneLength(e: Entries, k: Key)
    requires UniqueKeys(e)
    ensures |Without(e, {k})| == if k in Keys(e) then |e| - 1 else |e|
  {
    if e != [] {
      TailUnique(e);
      WithoutOneLength(e[1..], k);
      HeadKeyNotInTail(e);
    }
  }

  // ---------------------------------------------------------------- Union

  /** The keys of `$l + $r` are the keys of both sides. */
  lemma UnionKeys(l: Entries, r: Entries)
    ensures Keys(Union(l, r)) == Keys(l) + Keys(r)
  {
    KeysAppend(l, Without(r, Keys(l)));
    WithoutKeys(r, Keys(l));
  }

  /** On a key both sides hold, the left-hand value wins. */
  lemma UnionGet(l: Entries, r: Entries, k: Key)
    ensures Get(Union(l, r), k) == if k in Keys(l) then Get(l, k) else Get(r, k)
  {
    GetAppend(l, Without(r, Keys(l)), k);
    if k !in Keys(l) {
      WithoutGet(r, Keys(l), k);
    }
  }

  lemma {:induction false} WithoutGet(e: Entries, ks: set<Key>, k: Key)
    requires k !in ks
    ensures Get(Without(e, ks), k) == Get(e, k)
  {
    if e != [] {
      WithoutGet(e[1..], ks, k);
    }
  }

  /** The union of two arrays with distinct keys has distinct keys. */
  lemma UnionUnique(l: Entries, r: Entries)
    requires UniqueKeys(l) && UniqueKeys(r)
    ensures UniqueKeys(Union(l, r))
  {
    var w := Without(r, Keys(l));
    WithoutUnique(r, Keys(l));
    WithoutKeys(r, Keys(l));
    var u := Union(l, r);
    forall i, j | 0 <= i < j < |u| ensures u[i].0 != u[j].0 {
      if i < |l| && j >= |l| {
        assert u[i] == l[i] && u[j] == w[j - |l|];
        KeysMember(l, l[i].0);
        KeysMember(w, w[j - |l|].0);
      } else if i >= |l| {
        assert u[i] == w[i - |l|] && u[j] == w[j - |l|];
      }
    }
  }

  /** Putting the same left-hand array in front a second time changes nothing. */
  lemma UnionAbsorb(l: Entries, r: Entries)
    ensures Union(l, Union(l, r)) == Union(l, r)
  {
    var w := Without(r, Keys(l));
    WithoutAppend(l, w, Keys(l));
    WithoutAll(l, Keys(l));
    WithoutKeys(r, Keys(l));
    WithoutNothing(w, Keys(l));
  }
}
