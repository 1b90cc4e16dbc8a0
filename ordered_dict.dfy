/**
  A Python `dict` with string keys, which remembers insertion order. It is
  a list of (key, value) pairs with distinct keys; assigning to a key that is
  present replaces its value where it stands, assigning a new key appends.
 */
module OrderedDict {
  import opened Results

  type Items<V> = seq<(string, V)>

  predicate HasKey<V>(m: Items<V>, k: string) {
    exists i :: 0 <= i < |m| && m[i].0 == k
  }

  predicate DistinctKeys<V>(m: Items<V>) {
    forall i, j :: 0 <= i < j < |m| ==> m[i].0 != m[j].0
  }

  /** `m.get(k)` */
  function Get<V>(m: Items<V>, k: string): (r: Option<V>)
    ensures r.Some? <==> HasKey(m, k)
  {
    if m == [] then None
    else if m[0].0 == k then Some(m[0].1)
    else
      assert forall i :: 0 < i < |m| ==> m[i] == m[1..][i - 1];
      Get(m[1..], k)
  }

  /** `m[k] = v` */
  function Put<V>(m: Items<V>, k: string, v: V): Items<V> {
    if m == [] then [(k, v)]
    else if m[0].0 == k then [(k, v)] + m[1..]
    else [m[0]] + Put(m[1..], k, v)
  }

  /**
    Assignment keeps every key where it stands and appends a key that is not
    yet present.
   */
  lemma {:induction false} PutKeys<V>(m: Items<V>, k: string, v: V)
    ensures |Put(m, k, v)| == if HasKey(m, k) then |m| else |m| + 1
    ensures forall i :: 0 <= i < |m| ==> Put(m, k, v)[i].0 == m[i].0
    ensures !HasKey(m, k) ==> Put(m, k, v) == m + [(k, v)]
    ensures HasKey(m, k) ==> forall i :: 0 <= i < |m| && m[i].0 != k ==> Put(m, k, v)[i] == m[i]
  {
    if m != [] {
      var rest := m[1..];
      assert forall i :: 0 < i < |m| ==> m[i] == rest[i - 1];
      if m[0].0 != k {
        PutKeys(rest, k, v);
        assert HasKey(m, k) <==> HasKey(rest, k);
        var r := Put(m, k, v);
        assert forall i :: 0 < i < |r| ==> r[i] == Put(rest, k, v)[i - 1];
      }
    }
  }

  /** After assignment `k` holds `v` and every other key keeps its value. */
  lemma {:induction false} PutGet<V>(m: Items<V>, k: string, v: V)
    ensures Get(Put(m, k, v), k) == Some(v)
    ensures forall k' :: k' != k ==> Get(Put(m, k, v), k') == Get(m, k')
  {
    if m != [] && m[0].0 != k {
      PutGet(m[1..], k, v);
    }
  }

  /** Assignment keeps keys distinct. */
  lemma PutDistinct<V>(m: Items<V>, k: string, v: V)
    requires DistinctKeys(m)
    ensures DistinctKeys(Put(m, k, v))
  {
    PutKeys(m, k, v);
    var r := Put(m, k, v);
    if HasKey(m, k) {
      var p :| 0 <= p < |m| && m[p].0 == k;
      forall i, j | 0 <= i < j < |r| ensures r[i].0 != r[j].0 {
        assert r[i].0 == m[i].0 && r[j].0 == m[j].0;
      }
    } else {
      forall i, j | 0 <= i < j < |r| ensures r[i].0 != r[j].0 {
        if j == |m| {
          assert r[j].0 == k;
          assert r[i].0 == m[i].0;
        }
      }
    }
  }

  /** The dict built by the assignments `m[k] = v` for the pairs of `ps`, in order, starting from `{}`. */
  function Assign<V>(ps: seq<(string, V)>): Items<V> {
    if ps == [] then [] else Put(Assign(ps[..|ps| - 1]), ps[|ps| - 1].0, ps[|ps| - 1].1)
  }

  /** The keys of the built dict are distinct, and there are no more of them than assignments. */
  lemma {:induction false} AssignDistinctKeys<V>(ps: seq<(string, V)>)
    ensures DistinctKeys(Assign(ps))
    ensures |Assign(ps)| <= |ps|
  {
    if ps != [] {
      AssignDistinctKeys(ps[..|ps| - 1]);
      PutKeys(Assign(ps[..|ps| - 1]), ps[|ps| - 1].0, ps[|ps| - 1].1);
      PutDistinct(Assign(ps[..|ps| - 1]), ps[|ps| - 1].0, ps[|ps| - 1].1);
    }
  }

  /** The value a key ends up with is the one of its last assignment. */
  lemma {:induction false} AssignLastWins<V>(ps: seq<(string, V)>, i: nat)
    requires i < |ps|
    requires forall j :: i < j < |ps| ==> ps[j].0 != ps[i].0
    ensures Get(Assign(ps), ps[i].0) == Some(ps[i].1)
  {
    var init := ps[..|ps| - 1];
    PutGet(Assign(init), ps[|ps| - 1].0, ps[|ps| - 1].1);
    if i < |ps| - 1 {
      assert init[i] == ps[i];
      AssignLastWins(init, i);
    }
  }

  /** A key that is never assigned is absent. */
  lemma {:induction false} AssignAbsent<V>(ps: seq<(string, V)>, k: string)
    requires forall j :: 0 <= j < |ps| ==> ps[j].0 != k
    ensures !HasKey(Assign(ps), k)
  {
    if ps != [] {
      var init := ps[..|ps| - 1];
      AssignAbsent(init, k);
      PutKeys(Assign(init), ps[|ps| - 1].0, ps[|ps| - 1].1);
    }
  }

  /** With no repeated key, the dict holds exactly the pairs, in the same order. */
  lemma {:induction false} AssignDistinct<V>(ps: seq<(string, V)>)
    requires DistinctKeys(ps)
    ensures Assign(ps) == ps
  {
    if ps != [] {
      var init, last := ps[..|ps| - 1], ps[|ps| - 1];
      AssignDistinct(init);
      assert !HasKey(init, last.0) by {
        forall j | 0 <= j < |init| ensures init[j].0 != last.0 {
          assert init[j] == ps[j];
        }
      }
      PutKeys(init, last.0, last.1);
      assert init + [last] == ps;
    }
  }
}
