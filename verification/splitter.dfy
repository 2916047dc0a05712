/**
 * The split operation: parse the input into objects, group them by
 * destination file, then write every bucket, aborting on the first error.
 * The order in which buckets are written is left open (it is the iteration
 * order of a hash map), so the write loop picks any bucket not yet written.
 */
module Splitter {
  import opened Wrappers
  import opened Objects
  import opened Naming
  import opened Grouping
  import opened Writer

  /** The decoder from the input bytes to objects, which may fail with a cause. */
  type Parser = seq<bv8> -> Result<seq<Obj>, string>

  /** Path `p` holds the same thing, or nothing, in both directories. */
  predicate Same(before: Disk, after: Disk, p: string) {
    (p in after <==> p in before) && (p in before ==> after[p] == before[p])
  }

  /** Bucket `f` was written in full: its write succeeded and the directory holds what it wrote. */
  predicate Complete(codec: Codec, io: Io, files: Buckets, f: string, disk: Disk)
    requires f in files
  {
    var w := WriteFile(codec, io, f, files[f]);
    w.Result().Pass? && f in disk && disk[f] == w.content
  }

  /**
   * What writing the buckets `files` over `disk` promises, ending in `after`
   * with outcome `out`. On success every bucket's file is the separator
   * followed by its documents; on failure the error names the file that
   * failed, that file holds what its write left, and every other bucket's
   * file is either untouched or complete. No path outside the buckets is
   * touched, and the outcome is a success exactly when every bucket's write
   * succeeds.
   */
  ghost predicate WroteBuckets(codec: Codec, io: Io, disk: Disk, files: Buckets, after: Disk, out: Outcome<Error>) {
    && (forall p :: p !in files ==> Same(disk, after, p))
    && (out.Pass? <==> forall f :: f in files ==> WriteFile(codec, io, f, files[f]).Result().Pass?)
    && (out.Pass? ==> forall f :: f in files ==>
          && WriteFile(codec, io, f, files[f]).Result().Pass?
          && f in after
          && after[f] == Separator + Concat(Docs(codec, files[f], |files[f]|)))
    && (out.Fail? ==>
          && out.error.WritingFile?
          && out.error.file in files
          && var w := WriteFile(codec, io, out.error.file, files[out.error.file]);
          && w.Result() == Fail(out.error.inner)
          && (w.Created? ==> out.error.file in after && after[out.error.file] == w.content)
          && (w.NotCreated? ==> Same(disk, after, out.error.file))
          && forall f :: f in files && f != out.error.file ==>
               Same(disk, after, f) || Complete(codec, io, files, f, after))
  }

  /** The write loop over the buckets, in any order, stopping at the first bucket whose write fails. */
  method WriteAll(codec: Codec, io: Io, disk: Disk, files: Buckets)
    returns (disk': Disk, out: Outcome<Error>)
    ensures WroteBuckets(codec, io, disk, files, disk', out)
  {
    disk' := disk;
    var todo := files.Keys;
    while todo != {}
      invariant todo <= files.Keys
      invariant forall p :: p !in files || p in todo ==> Same(disk, disk', p)
      invariant forall f :: f in files && f !in todo ==> Complete(codec, io, files, f, disk')
      decreases todo
    {
      var f :| f in todo;
      var w := WriteFile(codec, io, f, files[f]);
      disk' := Commit(disk', f, w);
      if w.Result().Fail? {
        return disk', Fail(WritingFile(f, w.Result().error));
      }
      todo := todo - {f};
    }
    return disk', Pass;
  }

  /**
   * Splits `input` into one file per destination: a parse error is reported
   * before anything is written, empty input writes nothing, and otherwise the
   * buckets of the parsed objects are written as `WroteBuckets` describes.
   */
  method Split(parse: Parser, codec: Codec, io: Io, disk: Disk, input: seq<bv8>)
    returns (disk': Disk, out: Outcome<Error>)
    ensures parse(input).Failure? ==> out == Fail(ReadObjects(parse(input).error)) && disk' == disk
    ensures parse(input).Success? && parse(input).value == [] ==> out == Pass && disk' == disk
    ensures parse(input).Success? ==>
              WroteBuckets(codec, io, disk, Group(Destination, parse(input).value), disk', out)
  {
    var parsed := parse(input);
    if parsed.Failure? {
      return disk, Fail(ReadObjects(parsed.error));
    }
    var files := GroupObjects(Destination, parsed.value);
    disk', out := WriteAll(codec, io, disk, files);
    if parsed.value == [] {
      assert disk' == disk by {
        assert forall p :: p in disk' <==> p in disk;
      }
    }
  }

  /**
   * Objects whose kinds the table sends to the same file share one bucket,
   * in input order, however they are interleaved with other kinds.
   */
  lemma CombinedKindsShareBucket(objs: seq<Obj>, i: nat, j: nat)
    requires i < j < |objs|
    requires Kind(objs[i]) in CombinedKinds && Kind(objs[j]) in CombinedKinds
    requires CombinedKinds[Kind(objs[i])] == CombinedKinds[Kind(objs[j])]
    ensures var b := Group(Destination, objs)[CombinedKinds[Kind(objs[i])]];
      exists p, q :: 0 <= p < q < |b| && b[p] == objs[i] && b[q] == objs[j]
  {
    TableOverridesDefault(Kind(objs[i]));
    TableOverridesDefault(Kind(objs[j]));
    OrderPreserved(Destination, objs, i, j);
  }

  /** A Role followed by a ServiceAccount make one bucket, `rbac.yaml`, in that order. */
  lemma RoleThenServiceAccount(r1: Obj, sa1: Obj)
    requires Kind(r1) == "Role" && Kind(sa1) == "ServiceAccount"
    ensures Group(Destination, [r1, sa1]) == map["rbac.yaml" := [r1, sa1]]
  {
    assert FileOf(Destination, r1) == "rbac.yaml" == FileOf(Destination, sa1);
    GroupOfPair(Destination, r1, sa1);
  }

  /** A lone Deployment makes one bucket, `deployment.yaml`. */
  lemma LoneDeployment(d1: Obj)
    requires Kind(d1) == "Deployment"
    ensures Group(Destination, [d1]) == map["deployment.yaml" := [d1]]
  {
    DeploymentDestination();
    GroupOfOne(Destination, d1);
  }

  /**
   * When that `rbac.yaml` bucket is written successfully, the file is the
   * separator, the Role's document, then the ServiceAccount's document.
   */
  lemma RbacFileContent(codec: Codec, io: Io, r1: Obj, sa1: Obj)
    requires WriteFile(codec, io, "rbac.yaml", [r1, sa1]).Result().Pass?
    ensures EncodeDoc(codec, r1, 0).Success? && EncodeDoc(codec, sa1, 1).Success?
    ensures WriteFile(codec, io, "rbac.yaml", [r1, sa1]).content ==
              Separator + EncodeDoc(codec, r1, 0).value + EncodeDoc(codec, sa1, 1).value
  {
    var objs := [r1, sa1];
    assert EncodeDoc(codec, objs[0], 0).Success? && EncodeDoc(codec, objs[1], 1).Success?;
    var docs := Docs(codec, objs, 2);
    assert docs == [EncodeDoc(codec, r1, 0).value, EncodeDoc(codec, sa1, 1).value];
    assert Concat(docs[1..][1..]) == "";
    assert Concat(docs[1..]) == docs[1] + "";
    assert Concat(docs) == docs[0] + Concat(docs[1..]);
  }
}
