/** A plain JavaScript object used as a string dictionary (`Record<string,
    string>`): entries in insertion order, each key at most once. Writing
    an existing key keeps its position; writing a new key appends it. */
module Dicts {
  import opened Wrappers

  type Dict = seq<(string, string)>

  /** Object.keys */
  function Keys(d: Dict): (ks: seq<string>)
    ensures |ks| == |d|
  {
    if d == [] then [] else [d[0].0] + Keys(d[1..])
  }

  /** Object.values */
  function Values(d: Dict): (vs: seq<string>)
    ensures |vs| == |d|
  {
    if d == [] then [] else [d[0].1] + Values(d[1..])
  }

  /** No key occurs twice: true of every object. */
  predicate Unique(d: Dict) {
    forall i, j | 0 <= i < j < |d| :: d[i].0 != d[j].0
  }

  /** `d[k]`, with `undefined` as None. */
  function Get(d: Dict, k: string): (r: Option<string>)
    ensures r.Some? <==> k in Keys(d)
    ensures r.Some? ==> (k, r.value) in d
  {
    if d == [] then None
    else if d[0].0 == k then Some(d[0].1)
    else Get(d[1..], k)
  }

  lemma {:induction false} KeysAt(d: Dict, i: int)
    requires 0 <= i < |d|
    ensures Keys(d)[i] == d[i].0
  {
    if i > 0 {
      KeysAt(d[1..], i - 1);
    }
  }

  lemma {:induction false} GetUnique(d: Dict, i: int)
    requires Unique(d) && 0 <= i < |d|
    ensures Get(d, d[i].0) == Some(d[i].1)
  {
    if i > 0 {
      GetUnique(d[1..], i - 1);
    }
  }

  /** `d[k] = v` */
  function Put(d: Dict, k: string, v: string): (r: Dict)
    ensures Get(r, k) == Some(v)
  {
    if d == [] then [(k, v)]
    else if d[0].0 == k then [(k, v)] + d[1..]
    else [d[0]] + Put(d[1..], k, v)
  }

  /** Each entry after a write is the written one or an old entry. */
  lemma {:induction false} PutEntry(d: Dict, k: string, v: string, i: nat)
    requires i < |Put(d, k, v)|
    ensures Put(d, k, v)[i] == (k, v) || Put(d, k, v)[i] in d
  {
    if d != [] && d[0].0 != k && i > 0 {
      PutEntry(d[1..], k, v, i - 1);
    }
  }

  /** Writing one key leaves every other key as it was. */
  lemma {:induction false} PutOther(d: Dict, k: string, v: string, k': string)
    requires k' != k
    ensures Get(Put(d, k, v), k') == Get(d, k')
  {
    if d != [] && d[0].0 != k {
      PutOther(d[1..], k, v, k');
    }
  }

  /** An existing key keeps its place; a new key goes last. */
  lemma {:induction false} PutKeys(d: Dict, k: string, v: string)
    ensures k in Keys(d) ==> Keys(Put(d, k, v)) == Keys(d)
    ensures k !in Keys(d) ==> Keys(Put(d, k, v)) == Keys(d) + [k]
  {
    if d != [] && d[0].0 != k {
      PutKeys(d[1..], k, v);
    }
  }

  /** Unique, stated on Object.keys. */
  predicate DistinctKeys(d: Dict) {
    forall i, j | 0 <= i < j < |d| :: Keys(d)[i] != Keys(d)[j]
  }

  lemma {:induction false} UniqueKeys(d: Dict)
    ensures Unique(d) <==> DistinctKeys(d)
  {
    forall i | 0 <= i < |d| ensures Keys(d)[i] == d[i].0 {
      KeysAt(d, i);
    }
  }

  lemma {:induction false} PutUnique(d: Dict, k: string, v: string)
    requires Unique(d)
    ensures Unique(Put(d, k, v))
  {
    var r := Put(d, k, v);
    PutKeys(d, k, v);
    UniqueKeys(d);
    UniqueKeys(r);
    if k !in Keys(d) {
      forall i, j | 0 <= i < j < |r| ensures Keys(r)[i] != Keys(r)[j] {
        if j == |d| {
          assert Keys(r)[i] in Keys(d);
        }
      }
    }
  }

  /** `Object.assign(d, e)`, equivalently `{ ...d, ...e }`: the entries of
      `e` written into `d` in order. */
  function Assign(d: Dict, e: Dict): Dict
    decreases |e|
  {
    if e == [] then d else Assign(Put(d, e[0].0, e[0].1), e[1..])
  }

  /** Assigning one more entry is one more write. */
  lemma {:induction false} AssignSnoc(d: Dict, e: Dict, k: string, v: string)
    ensures Assign(d, e + [(k, v)]) == Put(Assign(d, e), k, v)
    decreases |e|
  {
    if e == [] {
      assert e + [(k, v)] == [(k, v)];
    } else {
      assert (e + [(k, v)])[1..] == e[1..] + [(k, v)];
      AssignSnoc(Put(d, e[0].0, e[0].1), e[1..], k, v);
    }
  }

  /** A key that `e` does not write keeps its value from `d`. */
  lemma {:induction false} AssignAbsent(d: Dict, e: Dict, k: string)
    requires forall j | 0 <= j < |e| :: e[j].0 != k
    ensures Get(Assign(d, e), k) == Get(d, k)
    decreases |e|
  {
    if e != [] {
      PutOther(d, e[0].0, e[0].1, k);
      AssignAbsent(Put(d, e[0].0, e[0].1), e[1..], k);
    }
  }

  /** The last write of a key wins. */
  lemma {:induction false} AssignLastWins(d: Dict, e: Dict, i: int)
    requires 0 <= i < |e| && forall j | i < j < |e| :: e[j].0 != e[i].0
    ensures Get(Assign(d, e), e[i].0) == Some(e[i].1)
    decreases |e|
  {
    var d' := Put(d, e[0].0, e[0].1);
    if i == 0 {
      AssignAbsent(d', e[1..], e[0].0);
    } else {
      AssignLastWins(d', e[1..], i - 1);
    }
  }

  lemma {:induction false} AssignUnique(d: Dict, e: Dict)
    requires Unique(d)
    ensures Unique(Assign(d, e))
    decreases |e|
  {
    if e != [] {
      PutUnique(d, e[0].0, e[0].1);
      AssignUnique(Put(d, e[0].0, e[0].1), e[1..]);
    }
  }

  /** What a key reads after an assign: the value from `e` if `e` has the
      key, otherwise the value from `d`. */
  lemma {:induction false} AssignGet(d: Dict, e: Dict, k: string)
    requires Unique(e)
    ensures Get(Assign(d, e), k) == if k in Keys(e) then Get(e, k) else Get(d, k)
    decreases |e|
  {
    if e != [] {
      var d' := Put(d, e[0].0, e[0].1);
      AssignGet(d', e[1..], k);
      if k != e[0].0 {
        PutOther(d, e[0].0, e[0].1, k);
      } else {
        forall j | 0 <= j < |e| - 1
          ensures Keys(e[1..])[j] != k
        {
          KeysAt(e[1..], j);
        }
      }
    }
  }

  /** Assigning keeps the keys of `d` first, in their order, and adds only
      keys of `e`. */
  lemma {:induction false} AssignKeys(d: Dict, e: Dict)
    ensures |Keys(d)| <= |Keys(Assign(d, e))| && Keys(Assign(d, e))[..|Keys(d)|] == Keys(d)
    ensures forall k | k in Keys(Assign(d, e)) :: k in Keys(d) || k in Keys(e)
    decreases |e|
  {
    if e != [] {
      var d' := Put(d, e[0].0, e[0].1);
      PutKeys(d, e[0].0, e[0].1);
      AssignKeys(d', e[1..]);
      assert Keys(e) == [e[0].0] + Keys(e[1..]);
      assert Keys(d')[..|Keys(d)|] == Keys(d);
    }
  }

  /** The entries with a non-empty key and a non-empty value: those a
      `for (const [key, value] of Object.entries(d)) if (key && value)`
      loop acts on. */
  function Filled(d: Dict): (r: Dict)
    ensures |r| <= |d|
    ensures forall i | 0 <= i < |r| :: r[i].0 != [] && r[i].1 != [] && r[i] in d
    decreases |d|
  {
    if d == [] then []
    else
      var (k, v) := d[|d| - 1];
      Filled(d[..|d| - 1]) + (if k != [] && v != [] then [(k, v)] else [])
  }
}
