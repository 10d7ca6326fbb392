/** JavaScript objects used as ordered dictionaries (`rawExports`,
    `exports.macros`) and the merge `exportDefs` of lib/templates.js. */
module Objects {

  /** No key occurs twice. */
  predicate Distinct(s: seq<string>) {
    forall i, j :: 0 <= i < j < |s| ==> s[i] != s[j]
  }

  /** An object's own keys in insertion order, and their values. */
  datatype Dict<V> = Dict(keys: seq<string>, vals: map<string, V>) {
    ghost predicate Valid() {
      Distinct(keys) && (forall k :: k in vals ==> k in keys) && (forall k :: k in keys ==> k in vals)
    }
  }

  function EmptyDict<V>(): (d: Dict<V>)
    ensures d.Valid() && d.keys == [] && d.vals == map[]
  {
    Dict([], map[])
  }

  /** The keys of `ks` that `d` does not have, in order. */
  function Absent<V>(ks: seq<string>, d: Dict<V>): (r: seq<string>)
  {
    if ks == [] then []
    else Absent(ks[..|ks| - 1], d) + (if ks[|ks| - 1] in d.vals then [] else [ks[|ks| - 1]])
  }

  /** The keys of `ks` that `d` already has, in order. */
  function Present<V>(ks: seq<string>, d: Dict<V>): (r: seq<string>)
  {
    if ks == [] then []
    else Present(ks[..|ks| - 1], d) + (if ks[|ks| - 1] in d.vals then [ks[|ks| - 1]] else [])
  }

  /** The keys `exportDefs` appends are exactly the source keys the destination lacks. */
  lemma {:induction false} AbsentMembers<V>(ks: seq<string>, d: Dict<V>)
    ensures forall k :: k in Absent(ks, d) ==> k in ks && k !in d.vals
    ensures forall k :: k in ks && k !in d.vals ==> k in Absent(ks, d)
  {
    if ks != [] {
      AbsentMembers(ks[..|ks| - 1], d);
      assert ks == ks[..|ks| - 1] + [ks[|ks| - 1]];
    }
  }

  /** The warnings of `exportDefs` name exactly the keys that were already defined. */
  lemma {:induction false} PresentMembers<V>(ks: seq<string>, d: Dict<V>)
    ensures forall k :: k in Present(ks, d) ==> k in ks && k in d.vals
    ensures forall k :: k in ks && k in d.vals ==> k in Present(ks, d)
  {
    if ks != [] {
      PresentMembers(ks[..|ks| - 1], d);
      assert ks == ks[..|ks| - 1] + [ks[|ks| - 1]];
    }
  }

  /** Appending a key not yet present keeps the keys distinct. */
  lemma DistinctSnoc(a: seq<string>, x: string)
    requires Distinct(a) && x !in a
    ensures Distinct(a + [x])
  {
    var r := a + [x];
    forall i, j | 0 <= i < j < |r| ensures r[i] != r[j] {
      if j < |a| { assert r[i] == a[i] && r[j] == a[j]; }
      else { assert r[i] == a[i]; assert a[i] in a; }
    }
  }

  /** Dropping the last key keeps the keys distinct, and that key occurs nowhere before. */
  lemma DistinctInit(a: seq<string>)
    requires Distinct(a) && a != []
    ensures Distinct(a[..|a| - 1]) && a[|a| - 1] !in a[..|a| - 1]
  {
    var init := a[..|a| - 1];
    forall i, j | 0 <= i < j < |init| ensures init[i] != init[j] {
      assert init[i] == a[i] && init[j] == a[j];
    }
  }

  /** Two distinct key lists with no key in common join into a distinct list. */
  lemma DistinctAppend(a: seq<string>, b: seq<string>)
    requires Distinct(a) && Distinct(b) && forall x :: x in a ==> x !in b
    ensures Distinct(a + b)
  {
    var r := a + b;
    forall i, j | 0 <= i < j < |r| ensures r[i] != r[j] {
      if j < |a| { assert r[i] == a[i] && r[j] == a[j]; }
      else if i >= |a| { assert r[i] == b[i - |a|] && r[j] == b[j - |a|]; }
      else { assert r[i] == a[i] && a[i] in a; assert r[j] == b[j - |a|] && b[j - |a|] in b; }
    }
  }

  /** The new keys of a merge are distinct. */
  lemma {:induction false} AbsentDistinct<V>(ks: seq<string>, d: Dict<V>)
    requires Distinct(ks)
    ensures Distinct(Absent(ks, d))
  {
    if ks != [] {
      var init := ks[..|ks| - 1];
      DistinctInit(ks);
      AbsentDistinct(init, d);
      AbsentMembers(init, d);
      var last := ks[|ks| - 1];
      if last !in d.vals {
        DistinctSnoc(Absent(init, d), last);
      }
    }
  }

  /** One more source key extends the new and the overwritten keys by at most that key. */
  lemma PrefixSnoc<V>(ks: seq<string>, dest: Dict<V>, i: nat)
    requires i < |ks|
    ensures ks[..i + 1] == ks[..i] + [ks[i]]
    ensures Absent(ks[..i + 1], dest) == Absent(ks[..i], dest) + (if ks[i] in dest.vals then [] else [ks[i]])
    ensures Present(ks[..i + 1], dest) == Present(ks[..i], dest) + (if ks[i] in dest.vals then [ks[i]] else [])
  {
    assert ks[..i+1][..i] == ks[..i];
  }

  /** In a distinct list a key does not occur before its own position. */
  lemma KeyNotBefore(ks: seq<string>, i: nat)
    requires Distinct(ks) && i < |ks|
    ensures ks[i] !in ks[..i]
  {
    forall j | 0 <= j < i ensures ks[..i][j] != ks[i] {
      assert ks[..i][j] == ks[j];
    }
  }

  /** The merged keys and values form a well-formed dictionary. */
  lemma MergedValid<V>(src: Dict<V>, dest: Dict<V>, merged: Dict<V>)
    requires src.Valid() && dest.Valid()
    requires merged.keys == dest.keys + Absent(src.keys, dest)
    requires forall k :: k in merged.vals ==> k in src.vals || k in dest.vals
    requires forall k :: k in src.vals || k in dest.vals ==> k in merged.vals
    ensures merged.Valid()
  {
    AbsentDistinct(src.keys, dest);
    AbsentMembers(src.keys, dest);
    DistinctAppend(dest.keys, Absent(src.keys, dest));
  }

  /** The state of `exportDefs` after the first `i` keys of `src`. */
  ghost predicate Merging<V>(src: Dict<V>, dest: Dict<V>, i: nat, merged: Dict<V>)
    requires src.Valid()
  {
    && i <= |src.keys|
    && merged.keys == dest.keys + Absent(src.keys[..i], dest)
    && MergedFrom(src, dest, i, merged)
    && (forall j :: 0 <= j < i ==> src.keys[j] in merged.vals && merged.vals[src.keys[j]] == src.vals[src.keys[j]])
    && (forall k :: k in dest.vals ==> k in merged.vals)
    && (forall k :: k in dest.vals && k !in src.vals ==> merged.vals[k] == dest.vals[k])
  }

  /** A merged key the destination lacks comes from the first `i` source keys. */
  ghost predicate MergedFrom<V>(src: Dict<V>, dest: Dict<V>, i: nat, merged: Dict<V>)
    requires i <= |src.keys|
  {
    forall k :: k in merged.vals && k !in dest.vals ==> k in src.keys[..i]
  }

  /** Writing source key `i` keeps `MergedFrom` one key further. */
  lemma MergedFromStep<V>(src: Dict<V>, dest: Dict<V>, i: nat, merged: Dict<V>, v: V)
    requires i < |src.keys| && MergedFrom(src, dest, i, merged)
    ensures MergedFrom(src, dest, i + 1, Dict(merged.keys + [src.keys[i]], merged.vals[src.keys[i] := v]))
    ensures MergedFrom(src, dest, i + 1, Dict(merged.keys, merged.vals[src.keys[i] := v]))
  {
    assert src.keys[..i + 1] == src.keys[..i] + [src.keys[i]];
  }

  /** One iteration of `exportDefs` extends `Merging` by one source key. */
  lemma MergeStep<V>(src: Dict<V>, dest: Dict<V>, i: nat, merged: Dict<V>)
    requires src.Valid() && dest.Valid() && i < |src.keys| && Merging(src, dest, i, merged)
    ensures var k := src.keys[i];
      && (k in merged.vals <==> k in dest.vals)
      && Merging(src, dest, i + 1, Dict(if k in merged.vals then merged.keys else merged.keys + [k], merged.vals[k := src.vals[k]]))
  {
    var k := src.keys[i];
    assert k in src.vals;
    KeyNotBefore(src.keys, i);
    MembershipStep(src, dest, i, merged);
    PrefixSnoc(src.keys, dest, i);
    MergedFromStep(src, dest, i, merged, src.vals[k]);
    if k in merged.vals {
      var next := Dict(merged.keys, merged.vals[k := src.vals[k]]);
      ValsStep(src, i, merged, next);
      DestStep(src, dest, merged, next, k);
      KeysStep(dest.keys, Absent(src.keys[..i], dest), merged.keys, k, true);
    } else {
      var next := Dict(merged.keys + [k], merged.vals[k := src.vals[k]]);
      ValsStep(src, i, merged, next);
      DestStep(src, dest, merged, next, k);
      KeysStep(dest.keys, Absent(src.keys[..i], dest), merged.keys, k, false);
    }
  }

  /** The key order after one step: unchanged for a key `dest` has, one key
      longer otherwise. */
  lemma KeysStep(d: seq<string>, a: seq<string>, keys: seq<string>, k: string, known: bool)
    requires keys == d + a
    ensures (if known then keys else keys + [k]) == d + (a + (if known then [] else [k]))
  {
    if known {
      assert a + [] == a;
    } else {
      assert (d + a) + [k] == d + (a + [k]);
    }
  }

  /** Writing a source key keeps every destination key, and the values of those the source lacks. */
  lemma DestStep<V>(src: Dict<V>, dest: Dict<V>, merged: Dict<V>, next: Dict<V>, k: string)
    requires k in src.vals && next.vals == merged.vals[k := src.vals[k]]
    requires forall x :: x in dest.vals ==> x in merged.vals
    requires forall x :: x in dest.vals && x !in src.vals ==> merged.vals[x] == dest.vals[x]
    ensures forall x :: x in dest.vals ==> x in next.vals
    ensures forall x :: x in dest.vals && x !in src.vals ==> next.vals[x] == dest.vals[x]
  {
  }

  /** Before it is written, a source key is merged iff the destination had it. */
  lemma MembershipStep<V>(src: Dict<V>, dest: Dict<V>, i: nat, merged: Dict<V>)
    requires i < |src.keys| && MergedFrom(src, dest, i, merged) && src.keys[i] !in src.keys[..i]
    requires forall k :: k in dest.vals ==> k in merged.vals
    ensures src.keys[i] in merged.vals <==> src.keys[i] in dest.vals
  {
  }

  /** Writing source key `i` gives the first `i + 1` source keys their source values. */
  lemma ValsStep<V>(src: Dict<V>, i: nat, merged: Dict<V>, next: Dict<V>)
    requires src.Valid() && i < |src.keys|
    requires forall j :: 0 <= j < i ==> src.keys[j] in merged.vals && merged.vals[src.keys[j]] == src.vals[src.keys[j]]
    requires next.vals == merged.vals[src.keys[i] := src.vals[src.keys[i]]]
    ensures forall j :: 0 <= j < i + 1 ==> src.keys[j] in next.vals && next.vals[src.keys[j]] == src.vals[src.keys[j]]
  {
  }

  /** After every source key, the merge has the properties `exportDefs` promises. */
  lemma MergeDone<V>(src: Dict<V>, dest: Dict<V>, merged: Dict<V>)
    requires src.Valid() && dest.Valid() && Merging(src, dest, |src.keys|, merged)
    ensures merged.Valid()
    ensures merged.keys == dest.keys + Absent(src.keys, dest)
    ensures forall k :: k in merged.vals <==> k in src.vals || k in dest.vals
    ensures forall k :: k in src.vals ==> merged.vals[k] == src.vals[k]
    ensures forall k :: k in dest.vals && k !in src.vals ==> merged.vals[k] == dest.vals[k]
  {
    assert src.keys[..|src.keys|] == src.keys;
    forall k | k in src.vals ensures k in merged.vals && merged.vals[k] == src.vals[k] {
      var j :| 0 <= j < |src.keys| && src.keys[j] == k;
    }
    MergedValid(src, dest, merged);
  }

  /** `exportDefs(src, dest)`: every key of `src` takes `src`'s value, the
      other keys of `dest` keep theirs, new keys are appended in `src`'s
      order, and a warning is issued for exactly the keys `dest` already
      had, in `src`'s order. */
  method ExportDefs<V>(src: Dict<V>, dest: Dict<V>) returns (merged: Dict<V>, warned: seq<string>)
    requires src.Valid() && dest.Valid()
    ensures merged.Valid()
    ensures merged.keys == dest.keys + Absent(src.keys, dest)
    ensures forall k :: k in merged.vals <==> k in src.vals || k in dest.vals
    ensures forall k :: k in src.vals ==> merged.vals[k] == src.vals[k]
    ensures forall k :: k in dest.vals && k !in src.vals ==> merged.vals[k] == dest.vals[k]
    ensures warned == Present(src.keys, dest)
  {
    merged, warned := dest, [];
    for i := 0 to |src.keys|
      invariant Merging(src, dest, i, merged)
      invariant warned == Present(src.keys[..i], dest)
    {
      var k := src.keys[i];
      MergeStep(src, dest, i, merged);
      PrefixSnoc(src.keys, dest, i);
      if k in merged.vals {
        warned := warned + [k];
        merged := Dict(merged.keys, merged.vals[k := src.vals[k]]);
      } else {
        merged := Dict(merged.keys + [k], merged.vals[k := src.vals[k]]);
      }
    }
    assert src.keys[..|src.keys|] == src.keys;
    MergeDone(src, dest, merged);
  }
}
