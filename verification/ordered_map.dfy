/** PHP's ordered arrays, as association lists: entries keep insertion order,
    assigning to an existing key overwrites it in place, assigning to a new key
    appends. A multimap (`$a[$k][] = $v`) is an array whose values are lists. */
module OrderedMap {
  import opened Results

  type Entries<V> = seq<(string, V)>

  /** Every key appears at most once, as in any PHP array. */
  predicate UniqueKeys<V>(m: Entries<V>) {
    forall i, j :: 0 <= i < j < |m| ==> m[i].0 != m[j].0
  }

  function Keys<V>(m: Entries<V>): (ks: seq<string>)
    ensures |ks| == |m|
  {
    seq(|m|, i requires 0 <= i < |m| => m[i].0)
  }

  /** The position of the first entry with key `k`. */
  function Find<V>(m: Entries<V>, k: string): (r: Option<nat>)
    ensures r.Some? ==> r.value < |m| && m[r.value].0 == k
    ensures r.Some? ==> forall i :: 0 <= i < r.value ==> m[i].0 != k
    ensures r.None? <==> forall i :: 0 <= i < |m| ==> m[i].0 != k
    decreases |m|
  {
    if |m| == 0 then None
    else if m[0].0 == k then Some(0)
    else
      match Find(m[1..], k)
      case None => None
      case Some(i) => Some(i + 1)
  }

  /** `array_key_exists($k, $m)` */
  predicate HasKey<V>(m: Entries<V>, k: string) {
    Find(m, k).Some?
  }

  /** `array_key_exists($k, $m) ? $m[$k] : null` */
  function Get<V>(m: Entries<V>, k: string): (r: Option<V>)
    ensures r.Some? <==> HasKey(m, k)
  {
    match Find(m, k)
    case Some(i) => Some(m[i].1)
    case None => None
  }

  /** With unique keys, the value stored at any position is what Get returns for its key. */
  lemma GetAt<V>(m: Entries<V>, i: nat)
    requires UniqueKeys(m) && i < |m|
    ensures Get(m, m[i].0) == Some(m[i].1)
  {
  }

  /** `$m[$k] = $v` */
  function Put<V>(m: Entries<V>, k: string, v: V): (r: Entries<V>)
    ensures Get(r, k) == Some(v)
    ensures forall j :: j != k ==> Get(r, j) == Get(m, j)
    ensures UniqueKeys(m) ==> UniqueKeys(r)
    ensures Keys(r) == if HasKey(m, k) then Keys(m) else Keys(m) + [k]
  {
    match Find(m, k)
    case Some(i) =>
      var r := m[i := (k, v)];
      assert forall j :: Find(r, j) == Find(m, j) by {
        forall j ensures Find(r, j) == Find(m, j) {
          FindDependsOnKeys(m, r, j);
        }
      }
      assert Keys(r) == Keys(m);
      r
    case None =>
      var r := m + [(k, v)];
      assert Find(r, k) == Some(|m|) by {
        assert r[|m|].0 == k;
        assert Find(r, k).Some?;
        assert forall l :: 0 <= l < |m| ==> r[l] == m[l];
      }
      assert forall j :: j != k ==> Find(r, j) == Find(m, j) by {
        forall j | j != k ensures Find(r, j) == Find(m, j) {
          FindInPrefix(m, r, j);
        }
      }
      r
  }

  lemma FindDependsOnKeys<V>(m: Entries<V>, r: Entries<V>, k: string)
    requires |m| == |r| && forall i :: 0 <= i < |m| ==> m[i].0 == r[i].0
    ensures Find(r, k) == Find(m, k)
  {
  }

  lemma FindInPrefix<V>(m: Entries<V>, r: Entries<V>, k: string)
    requires |m| < |r| && forall i :: 0 <= i < |m| ==> m[i] == r[i]
    requires forall i :: |m| <= i < |r| ==> r[i].0 != k
    ensures Find(r, k) == Find(m, k)
  {
  }

  /** Assigning a sequence of pairs in order: `foreach ($ps as $k => $v) $m[$k] = $v;` */
  function PutAll<V>(m: Entries<V>, ps: seq<(string, V)>): Entries<V>
    decreases |ps|
  {
    if |ps| == 0 then m
    else
      var last := ps[|ps| - 1];
      Put(PutAll(m, ps[..|ps| - 1]), last.0, last.1)
  }

  /** `i` is the position of the last pair in `ps` with key `k`. */
  ghost predicate IsLastFor<V>(ps: seq<(string, V)>, k: string, i: int) {
    0 <= i < |ps| && ps[i].0 == k && forall j :: i < j < |ps| ==> ps[j].0 != k
  }

  /** Last write wins: after assigning `ps`, a key holds its last assigned value,
      and keys never assigned keep their old value. */
  lemma PutAllLastWins<V>(m: Entries<V>, ps: seq<(string, V)>, k: string)
    ensures (forall i :: 0 <= i < |ps| ==> ps[i].0 != k) ==> Get(PutAll(m, ps), k) == Get(m, k)
    ensures forall i :: IsLastFor(ps, k, i) ==> Get(PutAll(m, ps), k) == Some(ps[i].1)
  {
    if forall i :: 0 <= i < |ps| ==> ps[i].0 != k {
      PutAllUntouched(m, ps, k);
    }
    forall i | IsLastFor(ps, k, i) ensures Get(PutAll(m, ps), k) == Some(ps[i].1) {
      PutAllLast(m, ps, k, i);
    }
  }

  /** A key never assigned keeps its old value. */
  lemma {:induction false} PutAllUntouched<V>(m: Entries<V>, ps: seq<(string, V)>, k: string)
    requires forall i :: 0 <= i < |ps| ==> ps[i].0 != k
    ensures Get(PutAll(m, ps), k) == Get(m, k)
    decreases |ps|
  {
    if |ps| > 0 {
      var init, last := ps[..|ps| - 1], ps[|ps| - 1];
      assert forall i :: 0 <= i < |init| ==> init[i] == ps[i];
      PutAllUntouched(m, init, k);
      PutOther(PutAll(m, init), last.0, last.1, k);
    }
  }

  /** A key holds the value of its last assignment. */
  lemma {:induction false} PutAllLast<V>(m: Entries<V>, ps: seq<(string, V)>, k: string, i: int)
    requires IsLastFor(ps, k, i)
    ensures Get(PutAll(m, ps), k) == Some(ps[i].1)
    decreases |ps|
  {
    var init, last := ps[..|ps| - 1], ps[|ps| - 1];
    if i < |ps| - 1 {
      assert IsLastFor(init, k, i);
      PutAllLast(m, init, k, i);
      PutOther(PutAll(m, init), last.0, last.1, k);
    }
  }

  lemma PutOther<V>(m: Entries<V>, j: string, v: V, k: string)
    requires j != k
    ensures Get(Put(m, j, v), k) == Get(m, k)
  {
  }

  /** Assigning keeps unique keys unique. */
  lemma {:induction false} PutAllUniqueKeys<V>(m: Entries<V>, ps: seq<(string, V)>)
    requires UniqueKeys(m)
    ensures UniqueKeys(PutAll(m, ps))
    decreases |ps|
  {
    if |ps| > 0 {
      PutAllUniqueKeys(m, ps[..|ps| - 1]);
    }
  }

  // ---------------------------------------------------------------------------
  // Multimaps: `if (!array_key_exists($k, $m)) $m[$k] = array(); $m[$k][] = $v;`
  // ---------------------------------------------------------------------------

  type Multi<V> = Entries<seq<V>>

  /** The list stored under `k`, or the empty list. */
  function Values<V>(m: Multi<V>, k: string): seq<V> {
    Get(m, k).GetOr([])
  }

  /** Appends `v` to the list under `k`, creating the list at the end if needed. */
  function Append<V>(m: Multi<V>, k: string, v: V): (r: Multi<V>)
    ensures Get(r, k) == Some(Values(m, k) + [v])
    ensures forall j :: j != k ==> Get(r, j) == Get(m, j)
    ensures UniqueKeys(m) ==> UniqueKeys(r)
    ensures Keys(r) == if HasKey(m, k) then Keys(m) else Keys(m) + [k]
  {
    Put(m, k, Values(m, k) + [v])
  }

  /** Appending a sequence of pairs in order. */
  function AppendAll<V>(m: Multi<V>, ps: seq<(string, V)>): Multi<V>
    decreases |ps|
  {
    if |ps| == 0 then m
    else
      var last := ps[|ps| - 1];
      Append(AppendAll(m, ps[..|ps| - 1]), last.0, last.1)
  }

  /** The values paired with `k` in `ps`, in order: a reference definition. */
  function ValuesFor<V>(ps: seq<(string, V)>, k: string): seq<V>
    decreases |ps|
  {
    if |ps| == 0 then []
    else
      var last := ps[|ps| - 1];
      ValuesFor(ps[..|ps| - 1], k) + (if last.0 == k then [last.1] else [])
  }

  lemma {:induction false} ValuesForConcat<V>(a: seq<(string, V)>, b: seq<(string, V)>, k: string)
    ensures ValuesFor(a + b, k) == ValuesFor(a, k) + ValuesFor(b, k)
    decreases |b|
  {
    if |b| == 0 {
      assert a + b == a;
    } else {
      assert (a + b)[..|a + b| - 1] == a + b[..|b| - 1];
      ValuesForConcat(a, b[..|b| - 1], k);
    }
  }

  /** One append changes only the list of its own key, at the end. */
  lemma ValuesAppend<V>(m: Multi<V>, j: string, v: V, k: string)
    ensures Values(Append(m, j, v), k) == Values(m, k) + (if j == k then [v] else [])
  {
  }

  /** Appending in order: each key's list grows by exactly its values from `ps`, in order. */
  lemma {:induction false} AppendAllCollects<V>(m: Multi<V>, ps: seq<(string, V)>, k: string)
    ensures Values(AppendAll(m, ps), k) == Values(m, k) + ValuesFor(ps, k)
    decreases |ps|
  {
    if |ps| > 0 {
      var init, last := ps[..|ps| - 1], ps[|ps| - 1];
      AppendAllCollects(m, init, k);
      ValuesAppend(AppendAll(m, init), last.0, last.1, k);
    }
  }

  /** Appending in order creates exactly the keys that occur in `ps`. */
  lemma {:induction false} AppendAllKeys<V>(m: Multi<V>, ps: seq<(string, V)>, k: string)
    ensures HasKey(AppendAll(m, ps), k) <==> HasKey(m, k) || exists i :: 0 <= i < |ps| && ps[i].0 == k
    decreases |ps|
  {
    if |ps| > 0 {
      var init, last := ps[..|ps| - 1], ps[|ps| - 1];
      AppendAllKeys(m, init, k);
      if exists i :: 0 <= i < |ps| && ps[i].0 == k {
        var i :| 0 <= i < |ps| && ps[i].0 == k;
        if i < |ps| - 1 {
          assert init[i].0 == k;
        }
      }
      var a := AppendAll(m, init);
      assert HasKey(Append(a, last.0, last.1), k) <==> HasKey(a, k) || last.0 == k by {
        assert Get(Append(a, last.0, last.1), k).Some? <==> HasKey(Append(a, last.0, last.1), k);
      }
    }
  }

  lemma {:induction false} AppendAllUniqueKeys<V>(m: Multi<V>, ps: seq<(string, V)>)
    requires UniqueKeys(m)
    ensures UniqueKeys(AppendAll(m, ps))
    decreases |ps|
  {
    if |ps| > 0 {
      AppendAllUniqueKeys(m, ps[..|ps| - 1]);
    }
  }

  /** One pair per stored value, entry by entry, each list in order. */
  function Flatten<V>(m: Multi<V>): seq<(string, V)>
    decreases |m|
  {
    if |m| == 0 then []
    else Flatten(m[..|m| - 1]) + Block(m[|m| - 1].0, m[|m| - 1].1)
  }

  function Block<V>(k: string, vs: seq<V>): (b: seq<(string, V)>)
    ensures |b| == |vs| && forall i :: 0 <= i < |vs| ==> b[i] == (k, vs[i])
  {
    seq(|vs|, i requires 0 <= i < |vs| => (k, vs[i]))
  }

  lemma {:induction false} FlattenConcat<V>(a: Multi<V>, b: Multi<V>)
    ensures Flatten(a + b) == Flatten(a) + Flatten(b)
    decreases |b|
  {
    if |b| == 0 {
      assert a + b == a;
    } else {
      assert (a + b)[..|a + b| - 1] == a + b[..|b| - 1];
      FlattenConcat(a, b[..|b| - 1]);
    }
  }

  lemma ValuesForBlock<V>(j: string, vs: seq<V>, k: string)
    ensures ValuesFor(Block(j, vs), k) == if j == k then vs else []
    decreases |vs|
  {
    if |vs| > 0 {
      assert Block(j, vs)[..|vs| - 1] == Block(j, vs[..|vs| - 1]);
      ValuesForBlock(j, vs[..|vs| - 1], k);
    }
  }

  /** Flattening a unique-keyed multimap lists each key's values exactly as stored. */
  lemma {:induction false} FlattenValues<V>(m: Multi<V>, k: string)
    requires UniqueKeys(m)
    ensures ValuesFor(Flatten(m), k) == Values(m, k)
    decreases |m|
  {
    if |m| > 0 {
      var init := m[..|m| - 1];
      var last := m[|m| - 1];
      FlattenValues(init, k);
      ValuesForConcat(Flatten(init), Block(last.0, last.1), k);
      ValuesForBlock(last.0, last.1, k);
      assert Find(m, k) == Find(init, k) || last.0 == k;
      if last.0 == k {
        assert Find(init, k).None?;
      }
    }
  }

  lemma FlattenSingle<V>(k: string, vs: seq<V>)
    ensures Flatten([(k, vs)]) == Block(k, vs)
  {
    assert [(k, vs)][..0] == [];
  }

  /** Flattening `pre + [(k, vs)] + post` puts k's block between the other two. */
  lemma FlattenAround<V>(pre: Multi<V>, k: string, vs: seq<V>, post: Multi<V>)
    ensures Flatten(pre + [(k, vs)] + post) == Flatten(pre) + Block(k, vs) + Flatten(post)
  {
    FlattenConcat(pre + [(k, vs)], post);
    FlattenConcat(pre, [(k, vs)]);
    FlattenSingle(k, vs);
  }

  /** Appending to a multimap adds one flattened pair: at the end for a new key,
      otherwise right after the pairs of that key, ahead of every later key. */
  lemma FlattenAppend<V>(m: Multi<V>, k: string, v: V) returns (p: nat)
    requires UniqueKeys(m)
    ensures p <= |Flatten(m)|
    ensures Flatten(Append(m, k, v)) == Flatten(m)[..p] + [(k, v)] + Flatten(m)[p..]
    ensures forall q :: p <= q < |Flatten(m)| ==> Flatten(m)[q].0 != k
    ensures !HasKey(m, k) ==> p == |Flatten(m)|
  {
    match Find(m, k)
    case None =>
      p := |Flatten(m)|;
      FlattenAppendNew(m, k, v);
    case Some(i) =>
      var vs := m[i].1;
      var pre, post := m[..i], m[i + 1..];
      AppendAtExisting(m, k, v, i);
      FlattenAround(pre, k, vs, post);
      FlattenAround(pre, k, vs + [v], post);
      BlockSnoc(k, vs, v);
      InsertBetween(Flatten(pre), Block(k, vs), Flatten(post), (k, v));
      p := |Flatten(pre)| + |vs|;
      PostKeysDiffer(m, i, k);
  }

  /** Appending under a new key adds one entry, whose block is the single pair. */
  lemma FlattenAppendNew<V>(m: Multi<V>, k: string, v: V)
    requires Find(m, k).None?
    ensures Flatten(Append(m, k, v)) == Flatten(m) + [(k, v)]
  {
    assert Values(m, k) == [] && [] + [v] == [v];
    assert Append(m, k, v) == m + [(k, [v])];
    FlattenConcat(m, [(k, [v])]);
    FlattenSingle(k, [v]);
  }

  /** Appending under an existing key extends that entry's list in place. */
  lemma AppendAtExisting<V>(m: Multi<V>, k: string, v: V, i: nat)
    requires Find(m, k) == Some(i)
    ensures m == m[..i] + [(k, m[i].1)] + m[i + 1..]
    ensures Append(m, k, v) == m[..i] + [(k, m[i].1 + [v])] + m[i + 1..]
  {
    assert m == m[..i] + [m[i]] + m[i + 1..];
    PutAtExisting(m, k, m[i].1 + [v], i);
    ReplaceAt(m, i, (k, m[i].1 + [v]));
  }

  /** Assigning to an existing key replaces its entry in place. */
  lemma PutAtExisting<V>(m: Entries<V>, k: string, v: V, i: nat)
    requires Find(m, k) == Some(i)
    ensures Put(m, k, v) == m[i := (k, v)]
  {
  }

  lemma ReplaceAt<T>(s: seq<T>, i: nat, x: T)
    requires i < |s|
    ensures s[i := x] == s[..i] + [x] + s[i + 1..]
  {
  }

  lemma BlockSnoc<V>(k: string, vs: seq<V>, v: V)
    ensures Block(k, vs + [v]) == Block(k, vs) + [(k, v)]
  {
  }

  /** Inserting `x` at the seam between `a + b` and `c`. */
  lemma InsertBetween<T>(a: seq<T>, b: seq<T>, c: seq<T>, x: T)
    ensures (a + b + c)[..|a| + |b|] + [x] + (a + b + c)[|a| + |b|..] == a + (b + [x]) + c
  {
    assert (a + b + c)[..|a| + |b|] == a + b;
    assert (a + b + c)[|a| + |b|..] == c;
  }

  lemma PostKeysDiffer<V>(m: Multi<V>, i: nat, k: string)
    requires UniqueKeys(m) && i < |m| && m[i].0 == k
    ensures forall q :: |Flatten(m[..i])| + |m[i].1| <= q < |Flatten(m)| ==> Flatten(m)[q].0 != k
  {
    var pre, post := m[..i], m[i + 1..];
    assert m == pre + [(k, m[i].1)] + post;
    FlattenAround(pre, k, m[i].1, post);
    var p := |Flatten(pre)| + |m[i].1|;
    forall q | p <= q < |Flatten(m)| ensures Flatten(m)[q].0 != k {
      assert Flatten(m)[q] == Flatten(post)[q - p];
      FlattenKeys(post, q - p);
      var e :| 0 <= e < |post| && Flatten(post)[q - p].0 == post[e].0;
      assert post[e] == m[i + 1 + e];
    }
  }

  /** Every flattened pair carries the key of some entry. */
  lemma {:induction false} FlattenKeys<V>(m: Multi<V>, q: nat)
    requires q < |Flatten(m)|
    ensures exists e :: 0 <= e < |m| && Flatten(m)[q].0 == m[e].0
    decreases |m|
  {
    var init := m[..|m| - 1];
    if q < |Flatten(init)| {
      FlattenKeys(init, q);
      var e :| 0 <= e < |init| && Flatten(init)[q].0 == init[e].0;
      assert m[e] == init[e];
    } else {
      assert Flatten(m)[q].0 == m[|m| - 1].0;
    }
  }
}
