/**
 * The pickled label map. `face_train.py` writes a dict from integer labels
 * to student-id strings; pickling keeps both the key types and the insertion
 * order, so the loaded object is modelled as its item list with keys that
 * carry their Python type.
 */
module LabelMap {
  import opened Wrappers
  import opened Text

  /** A Python dict key of the two types that occur here; an int key never
      equals a str key. */
  datatype PyKey = IntKey(i: int) | StrKey(s: string)

  /** `str(k)`, which is what `csv.writer` writes for a cell. */
  function PyStr(k: PyKey): string {
    match k
    case IntKey(i) => IntString(i)
    case StrKey(s) => s
  }

  /** A dict as its items in insertion order. */
  type PyDict = seq<(PyKey, PyKey)>

  ghost predicate DistinctKeys(d: PyDict) {
    forall i, j :: 0 <= i < j < |d| ==> d[i].0 != d[j].0
  }

  ghost predicate DistinctValues(d: PyDict) {
    forall i, j :: 0 <= i < j < |d| ==> d[i].1 != d[j].1
  }

  /** `d.get(k, None)`. */
  function DictGet(d: PyDict, k: PyKey): (r: Option<PyKey>)
    ensures r.None? <==> forall i :: 0 <= i < |d| ==> d[i].0 != k
  {
    if d == [] then None
    else if d[|d| - 1].0 == k then Some(d[|d| - 1].1)
    else DictGet(d[..|d| - 1], k)
  }

  /** Looking up a key of a dict yields the value stored with it. */
  lemma {:induction false} DictGetAt(d: PyDict, i: nat)
    requires DistinctKeys(d) && i < |d|
    ensures DictGet(d, d[i].0) == Some(d[i].1)
  {
    if i < |d| - 1 {
      var p := d[..|d| - 1];
      assert p[i] == d[i];
      DictGetAt(p, i);
    }
  }

  /** The object `pickle.load` returns for the map `face_train.py` dumps. */
  function Pickled(labels: seq<(int, string)>): (d: PyDict)
    ensures |d| == |labels|
    ensures forall i :: 0 <= i < |d| ==> d[i] == (IntKey(labels[i].0), StrKey(labels[i].1))
  {
    seq(|labels|, i requires 0 <= i < |labels| => (IntKey(labels[i].0), StrKey(labels[i].1)))
  }

  /** `{v: k for k, v in d.items()}`: a later item overwrites an earlier one
      with the same value. */
  function Invert(d: PyDict): (r: map<PyKey, PyKey>)
    ensures forall v :: v in r <==> exists i :: 0 <= i < |d| && d[i].1 == v
  {
    if d == [] then map[]
    else
      var p := d[..|d| - 1];
      var r := Invert(p)[d[|d| - 1].1 := d[|d| - 1].0];
      assert forall i :: 0 <= i < |p| ==> p[i] == d[i];
      r
  }

  /** For distinct values the comprehension is the key/value inverse. */
  lemma {:induction false} InvertInverse(d: PyDict, i: nat)
    requires DistinctValues(d) && i < |d|
    ensures d[i].1 in Invert(d) && Invert(d)[d[i].1] == d[i].0
  {
    if i < |d| - 1 {
      var p := d[..|d| - 1];
      assert p[i] == d[i];
      InvertInverse(p, i);
    }
  }

  /** Each entry of the inverted dict is an item of the dict read backwards. */
  lemma {:induction false} InvertFrom(d: PyDict, v: PyKey) returns (i: nat)
    requires v in Invert(d)
    ensures i < |d| && d[i] == (Invert(d)[v], v)
  {
    var n := |d| - 1;
    if d[n].1 == v {
      i := n;
    } else {
      var p := d[..n];
      assert Invert(d)[v] == Invert(p)[v];
      i := InvertFrom(p, v);
      assert p[i] == d[i];
    }
  }

  /** The keys of the inverted training map are all strings. */
  lemma InvertedPickleKeys(labels: seq<(int, string)>)
    ensures forall k :: k in Invert(Pickled(labels)) ==> k.StrKey?
  {
    var d := Pickled(labels);
    forall k | k in Invert(d) ensures k.StrKey? {
      var i :| 0 <= i < |d| && d[i].1 == k;
    }
  }
}
