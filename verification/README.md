# ksplit splitter, modelled in Dafny

ksplit takes one multi-document stream of Kubernetes manifests and splits it
into one YAML file per kind. This project models the splitter's core,
`internal/splitter.go`, in Dafny and proves properties about that model. The
core does three things:

- **Destination naming.** A kind maps to a file name. A fixed table
  (`combinedKinds`) sends the five RBAC kinds to `rbac.yaml`, the
  CustomResourceDefinition kind to `crds.yaml`, and the two admission webhook
  configuration kinds to `webhook.yaml`. Any other kind goes to its
  lower-cased name plus `.yaml`.
- **Grouping.** One pass over the parsed objects appends each object to the
  bucket of its file. The result is a map from file name to an ordered
  sequence of objects.
- **Emission.** Each bucket is written to its file. The file gets one leading
  `---\n` separator, then each object's YAML document in bucket order.
  Writing a file stops at the first object that fails to convert or to be
  written. `Split` stops at a parse error before grouping, and at the first
  bucket whose write fails.

Modules:

- `Wrappers` (`wrappers.dfy`): `Option`, `Result` and `Outcome`.
- `Objects` (`objects.dfy`): a manifest is an opaque tree of values. `Kind`
  and `Name` read `kind` and `metadata.name`, giving `""` when the field is
  missing or is not a string, as `unstructured.Unstructured` does.
- `Naming` (`naming.dfy`): the override table, ASCII lower-casing and
  `Destination`.
- `Grouping` (`grouping.dfy`): the grouping loop as a left fold (`Group`) and
  as a loop (`GroupObjects`). `Bucket` is an independent reference: a filter
  that keeps input order. The kind-to-file policy is a parameter, and the
  splitter passes `Naming.Destination`.
- `Writer` (`writer.dfy`): the per-file write loop (`Emit`), its reference
  stopping point (`Stop`), and `WriteFile`.
- `Splitter` (`splitter.dfy`): `WriteAll` (the loop over buckets), `Split`,
  and the concrete scenarios.

Foreign code and I/O are parameters of the model:

- **`Parser`** stands for the manifest decoder (`ssa.ReadObjects`). It is an
  opaque function from input bytes to objects, and it may fail.
- **`Codec`** stands for the three conversion steps, each opaque and each
  able to fail: JSON marshalling, YAML parsing of that JSON into a generic
  map, and YAML encoding. The encoder is created once per file, so it is
  stateful: yaml.v3 starts every document after the first with its own
  separator. For that reason `encode` is also given the index of the
  document within the file.
- **`Io`** says which file creations fail and which writes fail. Write 0 is
  the separator; write `k + 1` is object `k`.
- **`Disk`** is the output directory, a map from file name to content.

The extension is the fixed literal `.yaml`, as in `internal/splitter.go:47`;
it is not a configurable setting. A manifest with an empty or missing kind is
not rejected: it is grouped into a file named just `.yaml`, as the code does.

## Model

| member | source | states |
|---|---|---|
| Objects.Kind | internal/splitter.go:47-48 | The kind used for grouping is the object's `kind` field when that is a string. It is `""` when the field is missing or not a string, so such an object is grouped like one with an empty kind. |
| Objects.Name | internal/splitter.go:94 | The name in error messages is the string at `metadata.name`, and `""` when `metadata` is not a mapping or `name` is missing or not a string. |
| Naming.Destination | internal/splitter.go:47-50 | Whatever the kind, the destination ends in `.yaml` and contains no upper-case ASCII letter. |
| Naming.LowerProperties | internal/splitter.go:47 | Lower-casing keeps the length, leaves no upper-case letter, is idempotent, and changes nothing in an already lower-case name. |
| Naming.TableOverridesDefault | internal/splitter.go:47-50 | A kind in the table goes to exactly the table's file, and that file differs from the `lower(kind).yaml` default it replaces. |
| Naming.DefaultDestination | internal/splitter.go:47 | A kind outside the table goes to `lower(kind) + ".yaml"`. An empty or missing kind therefore goes to `.yaml`. |
| Naming.CombinedKindsColocate | internal/splitter.go:15-26 | Role, ClusterRole, RoleBinding, ClusterRoleBinding and ServiceAccount share `rbac.yaml`. The two webhook kinds share `webhook.yaml`. CustomResourceDefinition goes to `crds.yaml`. Two table kinds share a file exactly when they are in the same one of these groups. |
| Naming.DefaultDestinationIff | internal/splitter.go:47 | Two kinds outside the table share a file if and only if they are equal up to ASCII case. |
| Naming.DeploymentDestination | internal/splitter.go:47 | Deployment goes to `deployment.yaml`. |
| Grouping.Group | internal/splitter.go:45-53 | Every bucket is non-empty. A bucket holds only objects whose destination is that bucket's file. Every object's file has a bucket. The map is empty exactly when the input is empty. |
| Grouping.GroupIsBucket | internal/splitter.go:45-53 | The grouping loop builds exactly the reference filter: bucket `f` holds the input objects bound for `f`, in input order. A bucket exists exactly when that filter is non-empty. |
| Grouping.Partition | internal/splitter.go:45-53 | Grouping is a partition. An input object occurs in the bucket of its own file exactly as often as in the input. It occurs in no other bucket. Every object in any bucket comes from the input. So the buckets together hold exactly the input's multiset of objects. |
| Grouping.OrderPreserved | internal/splitter.go:46-52 | If object A precedes object B in the input and both go to the same file, A precedes B in that bucket. |
| Grouping.GroupOfOne | internal/splitter.go:52 | A single object makes a single bucket holding just that object. |
| Grouping.GroupOfPair | internal/splitter.go:52 | Two objects bound for the same file make one bucket, in input order. |
| Grouping.GroupObjects | internal/splitter.go:45-53 | The imperative loop returns the fold's map, and each of its buckets equals the reference filter. |
| Writer.EncodeDoc | internal/splitter.go:92-106 | The three steps run in order. A marshal failure gives the marshal error. A re-parse failure after a successful marshal gives the re-parse error. An encode failure after both succeed gives the encode error. Each error carries the object's name and that step's cause. The conversion succeeds exactly when all three steps do, and the document is then the encoder's output. |
| Writer.Stop | internal/splitter.go:91-112 | The stopping point of the write loop is the first object, from the start point on, that fails to convert or whose write fails. Every object before it converted and was written. |
| Writer.EmitSpec | internal/splitter.go:91-112 | The write loop writes the documents of exactly the objects before its stopping point, once each and in order. It succeeds exactly when it does not stop early. Otherwise it fails with the stopping object's conversion error, or with the write error. |
| Writer.WriteFile | internal/splitter.go:73-115 | The file is created unless creation fails, and a creation failure carries the creation error. The write succeeds if and only if creation, every conversion and every write succeed. On success the content is `---\n` followed by every document in bucket order. If the separator write fails, the content is empty and the error is that write error. On a later failure, the content is `---\n` followed by the documents before the first failing object, and the error is that object's. |
| Writer.Commit | internal/splitter.go:74-79 | Creating a file replaces whatever was there with exactly what was written. A file that could not be created leaves the directory unchanged. No other path changes. |
| Writer.OneSeparatorPerDocument | internal/splitter.go:85-111 | Assume the encoder behaves like yaml.v3 on one stream: document 0 is a bare, non-empty body, and every later document is its own separator followed by such a body. Then a successfully written file is one separator followed by one document body for each object in the bucket, in bucket order, and nothing else. The file begins with exactly one separator, and no body begins with another, so separators are never doubled. A file for an empty bucket is the separator alone. |
| Splitter.WriteAll | internal/splitter.go:55-59 | Buckets are written in any order. The loop succeeds if and only if every bucket's write succeeds. Then each file is `---\n` plus its documents. On failure, the error is wrapped with the failing file's name, and that file holds what its write left. Every other bucket's file is either untouched or complete. Paths outside the buckets are untouched. |
| Splitter.Split | internal/splitter.go:39-62 | A parse error is returned, wrapped as a read error, with nothing written. Empty input succeeds and writes nothing. Otherwise the buckets of the parsed objects are written with every guarantee listed for `WriteAll`: success exactly when every bucket's write succeeds, full files on success, a file-named error and untouched-or-complete other files on failure, nothing outside the buckets touched. |
| Splitter.CombinedKindsShareBucket | internal/splitter.go:15-26 | Objects whose kinds the table sends to the same file land in one bucket, in input order, whatever other kinds are interleaved between them. |
| Splitter.RoleThenServiceAccount | internal/splitter.go:15-20 | A Role followed by a ServiceAccount give the single bucket `rbac.yaml`, holding the Role then the ServiceAccount. |
| Splitter.LoneDeployment | internal/splitter.go:47-52 | A lone Deployment gives the single bucket `deployment.yaml`. |
| Splitter.RbacFileContent | internal/splitter.go:88-111 | If that `rbac.yaml` write succeeds, the file is `---\n`, then the Role's document (document 0), then the ServiceAccount's document (document 1). |

## Left out

- `ssa.ReadObjects` (the YAML/Kubernetes decoder) is a foreign library. It is the `Parser` parameter.
- `obj.MarshalJSON`, `yaml.Unmarshal` and the `yaml.Encoder` with indentation 2 are foreign serialisers. They are the `Codec` parameter. YAML text, indentation and scalar typing are not modelled.
- `os.Create`, file writes and `defer fl.Close()` are filesystem I/O. Which operations fail is the `Io` parameter, and the directory is a map from name to content. Handle lifetime is not modelled.
- The `bytes.Buffer` that the encoder writes into, and its `Reset` after each object (internal/splitter.go:84,108,111), are not modelled. `Emit` writes each converted document directly, so in the model each document is written once by construction, not by a proof about the buffer.
- A failed write is modelled as appending nothing. Go's `Write` may write some bytes before it fails.
- `filepath.Join(s.pathPrefix, file)`: `pathPrefix` is never set by `NewSplitter`, so the model uses the file name as the path. Go's path cleaning, which could make two buckets collide on a kind containing `/` or `..`, is not modelled.
- The iteration order over the Go map of buckets is unspecified. `WriteAll` picks any remaining bucket at each step, so its contract holds for every order.
- Naming.Destination: `strings.ToLower` folds Unicode case, but the model lower-cases ASCII letters only. Kubernetes kinds are ASCII identifiers.
- Error messages are modelled as error constructors carrying the object name, file name and cause. The formatted text is not modelled. A creation error is returned unwrapped, as in the source.
- The round trip "re-reading a written file gives back the original objects" depends entirely on the foreign serialisers, so it is not stated.
- Numbers in `Value` are integers. Floating-point fields only ever pass through the opaque codec.
- `cmd/root.go` is not part of this model. It is command-line plumbing: argument handling, reading a file or standard input, and error-silencing flags.
