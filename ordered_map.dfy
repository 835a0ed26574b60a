/** A field's options as the parser collects them: an insertion-ordered map from
    option name to raw value, where putting a present key replaces its value in
    place and putting a new key adds it at the end. */
module OrderedMap {
  import opened Outcomes

  type Entries = seq<(string, string)>

  function Keys(m: Entries): seq<string>
  {
    if m == [] then [] else [m[0].0] + Keys(m[1..])
  }

  predicate UniqueKeys(m: Entries)
  {
    forall i, j | 0 <= i < j < |m| :: m[i].0 != m[j].0
  }

  /** The value stored under `k`, if there is one. */
  function Get(m: Entries, k: string): Option<string>
  {
    if m == [] then None else if m[0].0 == k then Some(m[0].1) else Get(m[1..], k)
  }

  /** Stores `v` under `k`: afterwards `k` maps to `v`, every other key maps to
      what it did before, and the keys keep their first-insertion order. */
  function Put(m: Entries, k: string, v: string): (r: Entries)
    ensures Get(r, k) == Some(v)
    ensures forall k' | k' != k :: Get(r, k') == Get(m, k')
    ensures Keys(r) == if k in Keys(m) then Keys(m) else Keys(m) + [k]
  {
    if m == [] then [(k, v)]
    else if m[0].0 == k then [(k, v)] + m[1..]
    else
      var r := [m[0]] + Put(m[1..], k, v);
      assert r[1..] == Put(m[1..], k, v);
      r
  }

  lemma {:induction false} KeysLength(m: Entries)
    ensures |Keys(m)| == |m| && forall i | 0 <= i < |m| :: Keys(m)[i] == m[i].0
  {
    if m != [] {
      KeysLength(m[1..]);
    }
  }

  /** Putting keeps the keys already stored at the front, in their order, and
      keeps distinct keys distinct. */
  lemma {:induction false} PutKeepsKeysUnique(m: Entries, k: string, v: string)
    ensures Keys(m) <= Keys(Put(m, k, v))
    ensures UniqueKeys(m) ==> UniqueKeys(Put(m, k, v))
  {
    if UniqueKeys(m) && m != [] && m[0].0 != k {
      var tail := Put(m[1..], k, v);
      PutKeepsKeysUnique(m[1..], k, v);
      KeysLength(m[1..]);
      KeysLength(tail);
      assert m[0].0 !in Keys(m[1..]);
      forall j | 0 <= j < |tail|
        ensures tail[j].0 != m[0].0
      {
        assert tail[j].0 == Keys(tail)[j];
      }
    }
  }

  /** With distinct keys, `k` maps to `v` exactly when the pair `(k, v)` is stored. */
  lemma {:induction false} GetFindsEntry(m: Entries, k: string, v: string)
    requires UniqueKeys(m)
    ensures Get(m, k) == Some(v) <==> exists i | 0 <= i < |m| :: m[i] == (k, v)
  {
    if m != [] {
      var tail := m[1..];
      assert UniqueKeys(tail) by {
        forall i, j | 0 <= i < j < |tail|
          ensures tail[i].0 != tail[j].0
        {
          assert tail[i] == m[i + 1] && tail[j] == m[j + 1];
        }
      }
      GetFindsEntry(tail, k, v);
      if exists i | 0 <= i < |tail| :: tail[i] == (k, v) {
        var i :| 0 <= i < |tail| && tail[i] == (k, v);
        assert m[i + 1] == (k, v);
      }
      if exists i | 0 <= i < |m| :: m[i] == (k, v) {
        var i :| 0 <= i < |m| && m[i] == (k, v);
        if i > 0 {
          assert tail[i - 1] == (k, v);
        }
      }
    }
  }

  /** A key is absent exactly when no pair stores it. */
  lemma {:induction false} GetAbsent(m: Entries, k: string)
    ensures Get(m, k) == None <==> forall i | 0 <= i < |m| :: m[i].0 != k
  {
    if m != [] {
      var tail := m[1..];
      GetAbsent(tail, k);
      if forall i | 0 <= i < |tail| :: tail[i].0 != k {
        forall i | 0 <= i < |m| && i > 0
          ensures m[i].0 != k
        {
          assert m[i] == tail[i - 1];
        }
      } else {
        var i :| 0 <= i < |tail| && tail[i].0 == k;
        assert m[i + 1].0 == k;
      }
    }
  }
}
