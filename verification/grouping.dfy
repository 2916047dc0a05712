/**
 * Grouping: the single pass that appends every object to the bucket of its
 * destination file, producing a map from file name to an ordered sequence of
 * objects. Buckets are created on first use, so no bucket is ever empty.
 *
 * The kind-to-file policy is a parameter; the splitter instantiates it with
 * `Naming.Destination`.
 */
module Grouping {
  import opened Objects

  /** A destination policy: the file name for each kind. */
  type Policy = string -> string

  /** The destination file of one object under `policy`. */
  function FileOf(policy: Policy, o: Obj): string {
    policy(Kind(o))
  }

  type Buckets = map<string, seq<Obj>>

  /** One step of the grouping loop: append `o` to the bucket of its file. */
  function Add(policy: Policy, files: Buckets, o: Obj): Buckets {
    var f := FileOf(policy, o);
    files[f := (if f in files then files[f] else []) + [o]]
  }

  /**
   * The buckets the grouping loop builds from `objs`, as a left fold of `Add`.
   * Every bucket is non-empty and holds only objects of its own file, every
   * object's file has a bucket, and empty input is exactly what gives no buckets.
   */
  function Group(policy: Policy, objs: seq<Obj>): (r: Buckets)
    ensures forall f :: f in r ==> |r[f]| > 0
    ensures forall f, j :: f in r && 0 <= j < |r[f]| ==> FileOf(policy, r[f][j]) == f
    ensures forall i :: 0 <= i < |objs| ==> FileOf(policy, objs[i]) in r
    ensures r == map[] <==> |objs| == 0
  {
    if |objs| == 0 then map[]
    else Add(policy, Group(policy, objs[..|objs| - 1]), objs[|objs| - 1])
  }

  /** The reference definition of a bucket: the objects of `objs` bound for `f`, in input order. */
  function Bucket(policy: Policy, objs: seq<Obj>, f: string): seq<Obj> {
    if |objs| == 0 then []
    else Bucket(policy, objs[..|objs| - 1], f) + (if FileOf(policy, objs[|objs| - 1]) == f then [objs[|objs| - 1]] else [])
  }

  /** Filtering distributes over concatenation. */
  lemma {:induction false} BucketAppend(policy: Policy, a: seq<Obj>, b: seq<Obj>, f: string)
    ensures Bucket(policy, a + b, f) == Bucket(policy, a, f) + Bucket(policy, b, f)
    decreases |b|
  {
    if |b| == 0 {
      assert a + b == a;
    } else {
      var n := |b| - 1;
      assert (a + b)[..|a + b| - 1] == a + b[..n];
      BucketAppend(policy, a, b[..n], f);
    }
  }

  /** An object's multiplicity in a bucket is its multiplicity in the input if it belongs there, else zero. */
  lemma {:induction false} BucketCount(policy: Policy, objs: seq<Obj>, f: string, o: Obj)
    ensures multiset(Bucket(policy, objs, f))[o] == if FileOf(policy, o) == f then multiset(objs)[o] else 0
    decreases |objs|
  {
    if |objs| > 0 {
      var n := |objs| - 1;
      BucketCount(policy, objs[..n], f, o);
      assert objs == objs[..n] + [objs[n]];
    }
  }

  /** The fold builds exactly the reference buckets, and a bucket exists exactly when its filter is non-empty. */
  lemma {:induction false} GroupIsBucket(policy: Policy, objs: seq<Obj>)
    ensures forall f :: f in Group(policy, objs) <==> Bucket(policy, objs, f) != []
    ensures forall f :: f in Group(policy, objs) ==> Group(policy, objs)[f] == Bucket(policy, objs, f)
    decreases |objs|
  {
    if |objs| > 0 {
      GroupIsBucket(policy, objs[..|objs| - 1]);
    }
  }

  /**
   * Grouping is a partition: an input object occurs in the bucket of its own
   * file exactly as often as in the input, and in no other bucket; whatever a
   * bucket holds comes from the input. So the buckets together hold the
   * input's multiset of objects and nothing else.
   */
  lemma Partition(policy: Policy, objs: seq<Obj>, f: string, o: Obj)
    ensures o in objs ==> multiset(Group(policy, objs)[FileOf(policy, o)])[o] == multiset(objs)[o]
    ensures f in Group(policy, objs) && f != FileOf(policy, o) ==> multiset(Group(policy, objs)[f])[o] == 0
    ensures f in Group(policy, objs) && multiset(Group(policy, objs)[f])[o] > 0 ==> o in objs
  {
    GroupIsBucket(policy, objs);
    BucketCount(policy, objs, f, o);
    BucketCount(policy, objs, FileOf(policy, o), o);
  }

  /** The index of the `i`-th input object within its bucket. */
  lemma Position(policy: Policy, objs: seq<Obj>, i: nat)
    requires i < |objs|
    ensures FileOf(policy, objs[i]) in Group(policy, objs)
    ensures |Bucket(policy, objs[..i], FileOf(policy, objs[i]))| < |Group(policy, objs)[FileOf(policy, objs[i])]|
    ensures Group(policy, objs)[FileOf(policy, objs[i])][|Bucket(policy, objs[..i], FileOf(policy, objs[i]))|] == objs[i]
  {
    var f := FileOf(policy, objs[i]);
    GroupIsBucket(policy, objs);
    assert objs == objs[..i] + [objs[i]] + objs[i + 1..];
    BucketAppend(policy, objs[..i] + [objs[i]], objs[i + 1..], f);
    BucketAppend(policy, objs[..i], [objs[i]], f);
    assert Bucket(policy, [objs[i]], f) == [objs[i]] by {
      assert [objs[i]][..0] == [];
    }
  }

  /** Relative order is preserved within a bucket. */
  lemma OrderPreserved(policy: Policy, objs: seq<Obj>, i: nat, j: nat)
    requires i < j < |objs|
    requires FileOf(policy, objs[i]) == FileOf(policy, objs[j])
    ensures var b := Group(policy, objs)[FileOf(policy, objs[i])];
      exists p, q :: 0 <= p < q < |b| && b[p] == objs[i] && b[q] == objs[j]
  {
    var f := FileOf(policy, objs[i]);
    Position(policy, objs, i);
    Position(policy, objs, j);
    var p, q := |Bucket(policy, objs[..i], f)|, |Bucket(policy, objs[..j], f)|;
    assert objs[..j] == objs[..i] + [objs[i]] + objs[i + 1..j];
    BucketAppend(policy, objs[..i] + [objs[i]], objs[i + 1..j], f);
    BucketAppend(policy, objs[..i], [objs[i]], f);
    assert Bucket(policy, [objs[i]], f) == [objs[i]] by {
      assert [objs[i]][..0] == [];
    }
    assert p < q;
    var b := Group(policy, objs)[f];
    assert 0 <= p < q < |b| && b[p] == objs[i] && b[q] == objs[j];
  }

  /** One object makes one bucket. */
  lemma GroupOfOne(policy: Policy, o: Obj)
    ensures Group(policy, [o]) == map[FileOf(policy, o) := [o]]
  {
    assert [o][..0] == [];
    assert [] + [o] == [o];
  }

  /** Two objects bound for the same file make one bucket, in input order. */
  lemma GroupOfPair(policy: Policy, a: Obj, b: Obj)
    requires FileOf(policy, a) == FileOf(policy, b)
    ensures Group(policy, [a, b]) == map[FileOf(policy, a) := [a, b]]
  {
    GroupOfOne(policy, a);
    assert [a, b][..1] == [a];
    assert [a] + [b] == [a, b];
  }

  /** The grouping loop itself, building the map one object at a time. */
  method GroupObjects(policy: Policy, objs: seq<Obj>) returns (files: Buckets)
    ensures files == Group(policy, objs)
    ensures forall f :: f in files ==> files[f] == Bucket(policy, objs, f)
  {
    files := map[];
    var i := 0;
    while i < |objs|
      invariant 0 <= i <= |objs|
      invariant files == Group(policy, objs[..i])
    {
      assert objs[..i + 1][..i] == objs[..i];
      files := Add(policy, files, objs[i]);
      i := i + 1;
    }
    assert objs[..|objs|] == objs;
    GroupIsBucket(policy, objs);
  }
}
