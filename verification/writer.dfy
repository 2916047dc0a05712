/**
 * Writing one output file: create it, write a single leading separator, then
 * each object's YAML document in bucket order, stopping at the first object
 * that cannot be converted or whose bytes cannot be written.
 *
 * The conversion of an object to YAML is three foreign steps (JSON marshalling,
 * YAML parsing of that JSON into a generic map, YAML encoding) and is carried
 * as opaque, possibly failing functions in a `Codec`. File creation and writes
 * can fail too; an `Io` says which do.
 */
module Writer {
  import opened Wrappers
  import opened Objects

  /** The document separator written once at the top of every file. */
  const Separator: string := "---\n"

  /** The errors the splitter reports, each wrapping the cause it was given. */
  datatype Error =
    | ReadObjects(cause: string)                 // the input could not be parsed
    | Marshal(name: string, cause: string)       // an object could not be turned into JSON
    | ReparseYaml(name: string, cause: string)   // that JSON could not be read back as YAML
    | Convert(name: string, cause: string)       // the YAML encoder rejected the object
    | WriteFailed(cause: string)                 // a write to the open file failed
    | CreateFailed(cause: string)                // the file could not be created (not wrapped)
    | WritingFile(file: string, inner: Error)    // a file's error, wrapped with its name

  /** The three conversion steps, each of which may fail with a cause. */
  datatype Codec = Codec(
    marshal: Obj -> Result<string, string>,
    reparse: string -> Result<Value, string>,
    // The encoder is shared by the whole file, so its output may depend on how
    // many documents it has already encoded; that count is the second argument.
    encode: (Value, nat) -> Result<string, string>)

  /**
   * Which file operations fail: creating a path, and the n-th write to the
   * file at a path (write 0 is the separator, write k + 1 is object k).
   */
  datatype Io = Io(
    createErr: string -> Option<string>,
    writeErr: (string, nat) -> Option<string>)

  /** The output directory: file name to content. */
  type Disk = map<string, string>

  /**
   * The conversion of one object, the `k`-th document of its file. The steps
   * run in order and the first that fails decides the error, which carries the
   * object's name and that step's cause; the document is the encoder's output.
   */
  function EncodeDoc(codec: Codec, o: Obj, k: nat): (r: Result<string, Error>)
    ensures codec.marshal(o).Failure? ==> r == Failure(Marshal(Name(o), codec.marshal(o).error))
    ensures codec.marshal(o).Success? && codec.reparse(codec.marshal(o).value).Failure? ==>
              r == Failure(ReparseYaml(Name(o), codec.reparse(codec.marshal(o).value).error))
    ensures codec.marshal(o).Success? && codec.reparse(codec.marshal(o).value).Success? ==>
              var tmp := codec.reparse(codec.marshal(o).value).value;
              && (codec.encode(tmp, k).Failure? ==> r == Failure(Convert(Name(o), codec.encode(tmp, k).error)))
              && (codec.encode(tmp, k).Success? ==> r == Success(codec.encode(tmp, k).value))
    ensures r.Success? <==>
              && codec.marshal(o).Success?
              && codec.reparse(codec.marshal(o).value).Success?
              && codec.encode(codec.reparse(codec.marshal(o).value).value, k).Success?
  {
    match codec.marshal(o)
    case Failure(e) => Failure(Marshal(Name(o), e))
    case Success(json) =>
      match codec.reparse(json)
      case Failure(e) => Failure(ReparseYaml(Name(o), e))
      case Success(tmp) =>
        match codec.encode(tmp, k)
        case Failure(e) => Failure(Convert(Name(o), e))
        case Success(doc) => Success(doc)
  }

  /** Object `j` of the bucket converts, as document `j` of its file, and its bytes are written. */
  predicate StepOk(codec: Codec, io: Io, path: string, objs: seq<Obj>, j: nat)
    requires j < |objs|
  {
    EncodeDoc(codec, objs[j], j).Success? && io.writeErr(path, j + 1).None?
  }

  /**
   * Where the write loop, started at object `k`, stops: the first object from
   * `k` on that fails to convert or to be written, or `|objs|` if none does.
   */
  function Stop(codec: Codec, io: Io, path: string, objs: seq<Obj>, k: nat): (s: nat)
    requires k <= |objs|
    ensures k <= s <= |objs|
    ensures forall j :: k <= j < s ==> StepOk(codec, io, path, objs, j)
    ensures s < |objs| ==> !StepOk(codec, io, path, objs, s)
    ensures Converts(codec, objs, k) ==> Converts(codec, objs, s)
    decreases |objs| - k
  {
    if k == |objs| || !StepOk(codec, io, path, objs, k) then k
    else Stop(codec, io, path, objs, k + 1)
  }

  /** The first `n` objects of the bucket all convert. */
  predicate Converts(codec: Codec, objs: seq<Obj>, n: nat)
    requires n <= |objs|
  {
    forall j :: 0 <= j < n ==> EncodeDoc(codec, objs[j], j).Success?
  }

  /** The documents of the first `n` objects, when they all convert. */
  function Docs(codec: Codec, objs: seq<Obj>, n: nat): (r: seq<string>)
    requires n <= |objs|
    requires Converts(codec, objs, n)
    ensures |r| == n
  {
    seq(n, j requires 0 <= j < n => EncodeDoc(codec, objs[j], j).value)
  }

  /** Write 0 (the separator) and the writes of the first `n` objects all succeed. */
  predicate WritesOk(io: Io, path: string, n: nat) {
    forall j :: 0 <= j <= n ==> io.writeErr(path, j).None?
  }

  /** The concatenation of a sequence of documents. */
  function Concat(docs: seq<string>): string {
    if |docs| == 0 then "" else docs[0] + Concat(docs[1..])
  }

  /**
   * The write loop from object `k` on: convert and write each object in turn,
   * returning the bytes written and the outcome.
   */
  function Emit(codec: Codec, io: Io, path: string, objs: seq<Obj>, k: nat): (string, Outcome<Error>)
    requires k <= |objs|
    decreases |objs| - k
  {
    if k == |objs| then ("", Pass)
    else match EncodeDoc(codec, objs[k], k)
      case Failure(e) => ("", Fail(e))
      case Success(doc) =>
        match io.writeErr(path, k + 1)
        case Some(e) => ("", Fail(WriteFailed(e)))
        case None =>
          var (rest, out) := Emit(codec, io, path, objs, k + 1);
          (doc + rest, out)
  }

  /** The error the write loop stops with, at object `s`. */
  function StopError(codec: Codec, io: Io, path: string, objs: seq<Obj>, s: nat): Error
    requires s < |objs|
    requires !StepOk(codec, io, path, objs, s)
  {
    match EncodeDoc(codec, objs[s], s)
    case Failure(e) => e
    case Success(_) => WriteFailed(io.writeErr(path, s + 1).value)
  }

  /**
   * The write loop, entered with objects before `k` already written, writes
   * exactly the documents of objects `k` up to its stopping point, once each
   * and in order; it succeeds exactly when it does not stop early, and
   * otherwise fails with the error of the object it stopped at.
   */
  lemma {:induction false} EmitSpec(codec: Codec, io: Io, path: string, objs: seq<Obj>, k: nat)
    requires k <= |objs| && Converts(codec, objs, k)
    ensures var s := Stop(codec, io, path, objs, k);
      && Emit(codec, io, path, objs, k).0 == Concat(Docs(codec, objs, s)[k..])
      && (Emit(codec, io, path, objs, k).1.Pass? <==> s == |objs|)
      && (s < |objs| ==> Emit(codec, io, path, objs, k).1 == Fail(StopError(codec, io, path, objs, s)))
    decreases |objs| - k
  {
    var s := Stop(codec, io, path, objs, k);
    if k < |objs| && StepOk(codec, io, path, objs, k) {
      assert Converts(codec, objs, k + 1);
      EmitSpec(codec, io, path, objs, k + 1);
      var docs := Docs(codec, objs, s);
      assert docs[k..] == [docs[k]] + docs[k + 1..];
    }
  }

  /** What became of one file: never created, or created with some content and an outcome. */
  datatype FileWrite = NotCreated(cause: string) | Created(content: string, outcome: Outcome<Error>)
  {
    /** The error the file write returns, if any. */
    function Result(): Outcome<Error> {
      match this
      case NotCreated(e) => Fail(CreateFailed(e))
      case Created(_, out) => out
    }
  }

  /**
   * Writing the bucket `objs` to `file`. On success the file is the separator
   * followed by every object's document in bucket order; on a failure after
   * creation it is empty if the separator write failed, and otherwise the
   * separator followed by the documents of the objects before the first
   * failing one, whose error is returned.
   */
  function WriteFile(codec: Codec, io: Io, file: string, objs: seq<Obj>): (w: FileWrite)
    ensures w.NotCreated? <==> io.createErr(file).Some?
    ensures w.Result().Pass? <==>
              && io.createErr(file).None?
              && Converts(codec, objs, |objs|)
              && WritesOk(io, file, |objs|)
    ensures w.Result().Pass? ==> w.content == Separator + Concat(Docs(codec, objs, |objs|))
    ensures w.NotCreated? ==> w.cause == io.createErr(file).value
    ensures w.Created? && io.writeErr(file, 0).Some? ==>
              w.content == "" && w.outcome == Fail(WriteFailed(io.writeErr(file, 0).value))
    ensures w.Created? && io.writeErr(file, 0).None? && w.Result().Fail? ==>
              var s := Stop(codec, io, file, objs, 0);
              && s < |objs|
              && w.content == Separator + Concat(Docs(codec, objs, s))
              && w.outcome == Fail(StopError(codec, io, file, objs, s))
  {
    if io.createErr(file).Some? then NotCreated(io.createErr(file).value)
    else if io.writeErr(file, 0).Some? then Created("", Fail(WriteFailed(io.writeErr(file, 0).value)))
    else
      EmitSpec(codec, io, file, objs, 0);
      var s := Stop(codec, io, file, objs, 0);
      assert Docs(codec, objs, s)[0..] == Docs(codec, objs, s);
      assert s == |objs| ==> WritesOk(io, file, |objs|) by {
        if s == |objs| {
          forall j | 1 <= j <= |objs| ensures io.writeErr(file, j).None? {
            var i := j - 1;
            assert StepOk(codec, io, file, objs, i);
          }
        }
      }
      var (written, out) := Emit(codec, io, file, objs, 0);
      Created(Separator + written, out)
  }

  /** The directory after a file write: a created file replaces any earlier content. */
  function Commit(disk: Disk, file: string, w: FileWrite): (d: Disk)
    ensures forall p :: p != file ==> (p in d <==> p in disk) && (p in disk ==> d[p] == disk[p])
    ensures w.Created? ==> file in d && d[file] == w.content
    ensures w.NotCreated? ==> d == disk
  {
    match w
    case NotCreated(_) => disk
    case Created(content, _) => disk[file := content]
  }

  /** `d` begins with the document separator. */
  predicate StartsWithSeparator(d: string) {
    |Separator| <= |d| && d[..|Separator|] == Separator
  }

  /**
   * The body of document `k` of a file: the converted text without the
   * separator the encoder puts before every document after the first.
   */
  function DocBody(codec: Codec, o: Obj, k: nat): string {
    match EncodeDoc(codec, o, k)
    case Failure(_) => ""
    case Success(d) => if k > 0 && StartsWithSeparator(d) then d[|Separator|..] else d
  }

  /** A document body: non-empty text that does not itself begin with a separator. */
  predicate IsBody(b: string) {
    |b| > 0 && !StartsWithSeparator(b)
  }

  /**
   * The shape of a multi-document YAML encoder's output for document `k` of a
   * stream: the first document is a bare body, every later one is a separator
   * followed by a body.
   */
  predicate EncodedShape(d: string, k: nat) {
    if k == 0 then IsBody(d) else StartsWithSeparator(d) && IsBody(d[|Separator|..])
  }

  /**
   * With an encoder of that shape, a successfully written file is one
   * separator-led document body per object, in bucket order, and nothing else.
   * The file begins with exactly one separator, and no body begins with another,
   * so the writer's leading separator and the encoder's own are never doubled.
   */
  lemma OneSeparatorPerDocument(codec: Codec, io: Io, file: string, objs: seq<Obj>)
    requires WriteFile(codec, io, file, objs).Result().Pass?
    requires forall v: Value, k: nat :: codec.encode(v, k).Success? ==> EncodedShape(codec.encode(v, k).value, k)
    ensures |objs| == 0 ==> WriteFile(codec, io, file, objs).content == Separator
    ensures |objs| > 0 ==>
              WriteFile(codec, io, file, objs).content ==
              Concat(seq(|objs|, i requires 0 <= i < |objs| => Separator + DocBody(codec, objs[i], i)))
    ensures forall i :: 0 <= i < |objs| ==> IsBody(DocBody(codec, objs[i], i))
    ensures StartsWithSeparator(WriteFile(codec, io, file, objs).content)
    ensures !StartsWithSeparator(WriteFile(codec, io, file, objs).content[|Separator|..])
  {
    var docs := Docs(codec, objs, |objs|);
    var bodies := seq(|objs|, i requires 0 <= i < |objs| => DocBody(codec, objs[i], i));
    forall i | 0 <= i < |docs|
      ensures docs[i] == (if i == 0 then "" else Separator) + bodies[i]
      ensures IsBody(bodies[i])
    {
      var o := objs[i];
      var tmp := codec.reparse(codec.marshal(o).value).value;
      assert EncodedShape(codec.encode(tmp, i).value, i);
      if i > 0 {
        assert docs[i] == Separator + docs[i][|Separator|..];
      }
    }
    var content := WriteFile(codec, io, file, objs).content;
    assert content == Separator + Concat(docs);
    assert content[..|Separator|] == Separator;
    if |objs| > 0 {
      SeparatorsJoin(docs, bodies);
      var full := seq(|bodies|, i requires 0 <= i < |bodies| => Separator + bodies[i]);
      assert full == seq(|objs|, i requires 0 <= i < |objs| => Separator + DocBody(codec, objs[i], i));
      // After the leading separator come the first body and then separator-led documents.
      assert content[|Separator|..] == Concat(docs);
      assert Concat(docs) == bodies[0] + Concat(docs[1..]);
      SeparatorLed(docs[1..]);
      NotDoubled(bodies[0], Concat(docs[1..]));
    } else {
      assert docs == [];
    }
  }

  /** A body followed by nothing or by a separator-led text does not begin with a separator. */
  lemma NotDoubled(b: string, rest: string)
    requires IsBody(b)
    requires rest == [] || StartsWithSeparator(rest)
    ensures !StartsWithSeparator(b + rest)
  {
    if |b| < |Separator| {
      // The last separator character would have to come from `rest`, where it is a dash.
      if rest == [] {
        assert b + rest == b;
      } else {
        assert (b + rest)[|Separator| - 1] == rest[|Separator| - 1 - |b|] == '-';
      }
    } else {
      assert (b + rest)[..|Separator|] == b[..|Separator|];
    }
  }

  /** Texts that each begin with a separator join into one that does, unless there are none. */
  lemma SeparatorLed(docs: seq<string>)
    requires forall i :: 0 <= i < |docs| ==> StartsWithSeparator(docs[i])
    ensures Concat(docs) == [] || StartsWithSeparator(Concat(docs))
  {
  }

  /** Documents that are separator-led bodies after the first, joined behind one leading separator. */
  lemma {:induction false} SeparatorsJoin(docs: seq<string>, bodies: seq<string>)
    requires |docs| == |bodies| > 0
    requires forall i :: 0 <= i < |docs| ==> docs[i] == (if i == 0 then "" else Separator) + bodies[i]
    ensures Separator + Concat(docs) == Concat(seq(|bodies|, i requires 0 <= i < |bodies| => Separator + bodies[i]))
  {
    SeparatedTail(docs[1..], bodies[1..]);
    var full := seq(|bodies|, i requires 0 <= i < |bodies| => Separator + bodies[i]);
    var tailFull := seq(|bodies[1..]|, i requires 0 <= i < |bodies[1..]| => Separator + bodies[1..][i]);
    assert full[1..] == tailFull;
    assert docs[0] == bodies[0];
    calc {
      Separator + Concat(docs);
      Separator + (bodies[0] + Concat(docs[1..]));
      (Separator + bodies[0]) + Concat(tailFull);
      full[0] + Concat(full[1..]);
      Concat(full);
    }
  }

  lemma {:induction false} SeparatedTail(docs: seq<string>, bodies: seq<string>)
    requires |docs| == |bodies|
    requires forall i :: 0 <= i < |docs| ==> docs[i] == Separator + bodies[i]
    ensures Concat(docs) == Concat(seq(|bodies|, i requires 0 <= i < |bodies| => Separator + bodies[i]))
    decreases |docs|
  {
    if |docs| > 0 {
      SeparatedTail(docs[1..], bodies[1..]);
      var full := seq(|bodies|, i requires 0 <= i < |bodies| => Separator + bodies[i]);
      assert full[1..] == seq(|bodies[1..]|, i requires 0 <= i < |bodies[1..]| => Separator + bodies[1..][i]);
    }
  }
}
