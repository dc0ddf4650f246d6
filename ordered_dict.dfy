/**
 * A Python `dict` from strings to strings. It keeps its keys in insertion
 * order beside the mapping itself; `Put` is `d[k] = v`, which overwrites
 * the value of a key already present, leaving it where it stands, and
 * appends a new key at the end.
 */
module OrderedDict {

  datatype Pair = Pair(key: string, value: string)

  datatype Dict = Dict(keys: seq<string>, values: map<string, string>)

  const Empty: Dict := Dict([], map[])

  /** Every key is listed once, and the listed keys are the mapped ones. */
  ghost predicate Valid(d: Dict) {
    (forall i, j :: 0 <= i < j < |d.keys| ==> d.keys[i] != d.keys[j])
    && (forall k :: k in d.values <==> k in d.keys)
  }

  /** `d[k] = v`. */
  function Put(d: Dict, k: string, v: string): Dict
  {
    if k in d.values then Dict(d.keys, d.values[k := v])
    else Dict(d.keys + [k], d.values[k := v])
  }

  /** After `d[k] = v`, `k` holds `v` and every other key is as it was. */
  lemma PutSpec(d: Dict, k: string, v: string)
    requires Valid(d)
    ensures k in Put(d, k, v).values && Put(d, k, v).values[k] == v
    ensures forall k' :: k' != k ==> (k' in Put(d, k, v).values <==> k' in d.values)
    ensures forall k' :: k' != k && k' in d.values ==> Put(d, k, v).values[k'] == d.values[k']
    ensures k in d.keys ==> Put(d, k, v).keys == d.keys
    ensures k !in d.keys ==> Put(d, k, v).keys == d.keys + [k]
  {
  }

  function KeysOf(ps: seq<Pair>): (ks: seq<string>)
    ensures |ks| == |ps|
    ensures forall i :: 0 <= i < |ps| ==> ks[i] == ps[i].key
  {
    seq(|ps|, i requires 0 <= i < |ps| => ps[i].key)
  }

  /** Stores the pairs one after the other, as a loop of `d[k] = v` does. */
  function PutAll(d: Dict, ps: seq<Pair>): Dict
    decreases |ps|
  {
    if ps == [] then d
    else
      var last := ps[|ps| - 1];
      Put(PutAll(d, ps[..|ps| - 1]), last.key, last.value)
  }

  /** `d[k] = v` keeps a well-formed dictionary well formed. */
  lemma PutKeepsValid(d: Dict, k: string, v: string)
    requires Valid(d)
    ensures Valid(Put(d, k, v))
  {
  }

  /** So does storing any run of pairs. */
  lemma {:induction false} PutAllKeepsValid(d: Dict, ps: seq<Pair>)
    requires Valid(d)
    ensures Valid(PutAll(d, ps))
    decreases |ps|
  {
    if ps != [] {
      var last := ps[|ps| - 1];
      PutAllKeepsValid(d, ps[..|ps| - 1]);
      PutKeepsValid(PutAll(d, ps[..|ps| - 1]), last.key, last.value);
    }
  }

  /** Writing a single pair is one `Put`. */
  lemma PutAllOne(d: Dict, k: string, v: string)
    ensures PutAll(d, [Pair(k, v)]) == Put(d, k, v)
  {
    assert [Pair(k, v)][..0] == [];
  }

  /** Storing two runs of pairs is storing their concatenation. */
  lemma {:induction false} PutAllAppend(d: Dict, a: seq<Pair>, b: seq<Pair>)
    ensures PutAll(d, a + b) == PutAll(PutAll(d, a), b)
    decreases |b|
  {
    if b == [] {
      assert a + b == a;
    } else {
      assert (a + b)[..|a + b| - 1] == a + b[..|b| - 1];
      PutAllAppend(d, a, b[..|b| - 1]);
    }
  }

  /** Last write wins: a pair that no later pair overwrites supplies the
      value of its key. */
  lemma {:induction false} LastWriteWins(d: Dict, ps: seq<Pair>, i: nat)
    requires i < |ps|
    requires forall j :: i < j < |ps| ==> ps[j].key != ps[i].key
    ensures ps[i].key in PutAll(d, ps).values
    ensures PutAll(d, ps).values[ps[i].key] == ps[i].value
    decreases |ps|
  {
    if i < |ps| - 1 {
      var init := ps[..|ps| - 1];
      assert init[i] == ps[i];
      LastWriteWins(d, init, i);
    }
  }

  /** A key that no pair writes keeps its value, or stays absent. */
  lemma {:induction false} UnwrittenKeyKept(d: Dict, ps: seq<Pair>, k: string)
    requires forall j :: 0 <= j < |ps| ==> ps[j].key != k
    ensures k in PutAll(d, ps).values <==> k in d.values
    ensures k in d.values ==> PutAll(d, ps).values[k] == d.values[k]
    decreases |ps|
  {
    if ps != [] {
      UnwrittenKeyKept(d, ps[..|ps| - 1], k);
    }
  }

  /** Every key of a dictionary filled from empty is written by some pair,
      and holds the value of a pair that writes it. */
  lemma {:induction false} StoredFromSomePair(ps: seq<Pair>, k: string)
    ensures k in PutAll(Empty, ps).values <==> k in KeysOf(ps)
    ensures k in PutAll(Empty, ps).values ==>
              exists j :: 0 <= j < |ps| && ps[j] == Pair(k, PutAll(Empty, ps).values[k])
    decreases |ps|
  {
    if ps != [] {
      var init := ps[..|ps| - 1];
      StoredFromSomePair(init, k);
      assert KeysOf(ps) == KeysOf(init) + [ps[|ps| - 1].key];
      if k in PutAll(Empty, ps).values && ps[|ps| - 1].key != k {
        var j :| 0 <= j < |init| && init[j] == Pair(k, PutAll(Empty, init).values[k]);
        assert ps[j] == init[j];
      }
    }
  }

  /** The keys in order of first appearance: `ks[i]` is kept exactly when
      it does not occur before position `i`. */
  function FirstOccurrences(ks: seq<string>): (r: seq<string>)
    decreases |ks|
  {
    if ks == [] then []
    else
      var init := ks[..|ks| - 1];
      FirstOccurrences(init) + (if ks[|ks| - 1] in init then [] else [ks[|ks| - 1]])
  }

  /** Insertion order: a dictionary filled from empty lists each key where
      the pairs first wrote it, whatever later pairs overwrite. */
  lemma {:induction false} InsertionOrder(ps: seq<Pair>)
    ensures PutAll(Empty, ps).keys == FirstOccurrences(KeysOf(ps))
    decreases |ps|
  {
    if ps != [] {
      var init := ps[..|ps| - 1];
      InsertionOrder(init);
      assert KeysOf(ps)[..|ps| - 1] == KeysOf(init);
      StoredFromSomePair(init, ps[|ps| - 1].key);
    }
  }
}
