/** The YAML documents the tool writes and reads, as values, and Python's
    insertion-ordered dictionaries over string keys. */
module Yaml {
  import opened Wrappers

  /** A YAML node. `Point(x, y)` stands for the text `"{x:.0f}%,{y:.0f}%"`
      of a tap point computed from percentages; the rounding to whole
      numbers is not modelled. */
  datatype Value =
    | Null
    | Str(s: string)
    | Int(i: int)
    | Point(x: real, y: real)
    | Dict(entries: PyDict<Value>)
    | List(items: seq<Value>)

  /** A Python `dict` with string keys: its entries in insertion order. */
  type PyDict<V> = seq<(string, V)>

  /** No key occurs twice, as in every Python dictionary. */
  ghost predicate UniqueKeys<V>(d: PyDict<V>) {
    forall i, j :: 0 <= i < j < |d| ==> d[i].0 != d[j].0
  }

  /** `k in d` */
  predicate HasKey<V>(d: PyDict<V>, k: string) {
    exists i :: 0 <= i < |d| && d[i].0 == k
  }

  /** `d.get(k)`: the value under `k`, None when `k` is absent. */
  function Get<V>(d: PyDict<V>, k: string): (r: Option<V>)
    ensures r.None? <==> !HasKey(d, k)
    ensures r.Some? ==> exists i :: 0 <= i < |d| && d[i] == (k, r.value)
  {
    if d == [] then None
    else if d[0].0 == k then Some(d[0].1)
    else Get(d[1..], k)
  }

  /** `d[k] = v`: an existing key keeps its place and takes the new value; a
      new key goes at the end. */
  function Put<V>(d: PyDict<V>, k: string, v: V): (r: PyDict<V>)
    ensures HasKey(d, k) ==> |r| == |d|
    ensures !HasKey(d, k) ==> r == d + [(k, v)]
    ensures forall i :: 0 <= i < |r| ==> r[i].0 == k || (i < |d| && r[i] == d[i])
    ensures forall i :: 0 <= i < |d| ==> r[i].0 == d[i].0
  {
    if d == [] then [(k, v)]
    else if d[0].0 == k then [(k, v)] + d[1..]
    else [d[0]] + Put(d[1..], k, v)
  }

  /** After `d[k] = v`, `k` maps to `v` and every other key to what it
      mapped to before. */
  lemma {:induction false} PutGet<V>(d: PyDict<V>, k: string, v: V, k': string)
    ensures Get(Put(d, k, v), k') == if k' == k then Some(v) else Get(d, k')
  {
    if d != [] && d[0].0 != k {
      PutGet(d[1..], k, v, k');
    }
  }

  /** `d[k] = v` keeps the keys distinct. */
  lemma PutUnique<V>(d: PyDict<V>, k: string, v: V)
    requires UniqueKeys(d)
    ensures UniqueKeys(Put(d, k, v))
  {
    var r := Put(d, k, v);
    if !HasKey(d, k) {
      forall i, j | 0 <= i < j < |r| ensures r[i].0 != r[j].0 {
        if j == |d| {
          assert r[i] == d[i];
        }
      }
    }
  }

  /** `dict.update`: the entries of `e` put into `d` in order. */
  function Update<V>(d: PyDict<V>, e: PyDict<V>): PyDict<V>
    decreases |e|
  {
    if e == [] then d else Update(Put(d, e[0].0, e[0].1), e[1..])
  }

  /** After `d.update(e)`, a key of `e` maps to its value in `e`; any other
      key keeps its value from `d`. */
  lemma {:induction false} UpdateGet<V>(d: PyDict<V>, e: PyDict<V>, k: string)
    requires UniqueKeys(e)
    ensures Get(Update(d, e), k) == if HasKey(e, k) then Get(e, k) else Get(d, k)
    decreases |e|
  {
    if e != [] {
      var rest := e[1..];
      assert UniqueKeys(rest) by {
        forall i, j | 0 <= i < j < |rest| ensures rest[i].0 != rest[j].0 {
          assert rest[i] == e[i + 1] && rest[j] == e[j + 1];
        }
      }
      UpdateGet(Put(d, e[0].0, e[0].1), rest, k);
      PutGet(d, e[0].0, e[0].1, k);
      if k == e[0].0 {
        assert !HasKey(rest, k) by {
          forall i | 0 <= i < |rest| ensures rest[i].0 != k {
            assert rest[i] == e[i + 1];
          }
        }
      } else {
        assert HasKey(e, k) ==> HasKey(rest, k) by {
          if HasKey(e, k) {
            var i :| 0 <= i < |e| && e[i].0 == k;
            assert rest[i - 1] == e[i];
          }
        }
        assert HasKey(rest, k) ==> HasKey(e, k) by {
          if HasKey(rest, k) {
            var i :| 0 <= i < |rest| && rest[i].0 == k;
            assert e[i + 1] == rest[i];
          }
        }
      }
    }
  }

  /** The keys after `d.update(e)` are those of `d` and those of `e`. */
  lemma {:induction false} UpdateKeys<V>(d: PyDict<V>, e: PyDict<V>, k: string)
    ensures HasKey(Update(d, e), k) <==> HasKey(d, k) || HasKey(e, k)
    decreases |e|
  {
    if e != [] {
      UpdateKeys(Put(d, e[0].0, e[0].1), e[1..], k);
      PutGet(d, e[0].0, e[0].1, k);
      assert HasKey(e, k) <==> k == e[0].0 || HasKey(e[1..], k) by {
        if HasKey(e, k) && k != e[0].0 {
          var i :| 0 <= i < |e| && e[i].0 == k;
          assert e[1..][i - 1] == e[i];
        }
        if HasKey(e[1..], k) {
          var i :| 0 <= i < |e[1..]| && e[1..][i].0 == k;
          assert e[i + 1] == e[1..][i];
        }
      }
    }
  }

  /** When the keys of `d` and of `e` are all keys of `m`, so are those of
      `d.update(e)`. */
  lemma UpdateKeysWithin<V, W>(d: PyDict<V>, e: PyDict<V>, k: string, m: PyDict<W>)
    requires HasKey(d, k) ==> HasKey(m, k)
    requires HasKey(e, k) ==> HasKey(m, k)
    ensures HasKey(Update(d, e), k) ==> HasKey(m, k)
  {
    UpdateKeys(d, e, k);
  }

  /** `{k: v for k, v in d.items() if k != key}`: the entries under other keys,
      in order. */
  function Without<V>(d: PyDict<V>, key: string): (r: PyDict<V>)
    ensures !HasKey(r, key)
    ensures forall k :: k != key ==> Get(r, k) == Get(d, k)
  {
    if d == [] then []
    else if d[0].0 == key then Without(d[1..], key)
    else [d[0]] + Without(d[1..], key)
  }
}
