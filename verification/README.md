# Caching-sidecar admission webhook, modelled in Dafny

This project models the mutating admission webhook `CacheInjector` of
`pkg/webhooks/mutation/mutation.go`. The Kubernetes control plane sends the
webhook every pod being created or updated. When the pod carries the
annotation `sidecar.infinispan.org/inject` with a value that Go's
`strconv.ParseBool` reads as true, the webhook merges the container
`{name: "caching-sidecar", image: "quay.io/infinispan/server"}` into the
pod's container list. The merge overwrites the first container already
called `caching-sidecar`, or appends the descriptor when there is none.

Files:

- `wrappers.dfy`: the `Option` datatype.
- `strconv.dfy` (module `StrConv`): `ParseBool` as Go's twelve-literal table.
  The predicate `Spells` is an independent description of those literals,
  built from the words `true` and `false`, and a lemma shows the two agree.
- `mutation.dfy` (module `Mutation`):
  - `Container` holds a name, an image and one opaque map for every other field.
  - `Pod` is a class whose `annotations` map and `containers` sequence the
    handler reads and updates in place.
  - `Pod.AddSideCarContainer` is the scanning loop of `addSideCarContainer`,
    with its early return. It is proved against the pure function `Injected`.
  - `Handle` takes the outcome of decoding as an `Option<Pod>`, where `None`
    means the decode failed. It returns `Patched` or `Errored(code)` and is
    proved against the pure decision `Decide`.
  - Lemmas state what the merge and the decision guarantee.

Two points about the code's behaviour are easy to misread.

- The doc comment on `CacheInjector` (mutation.go:16) mentions only the
  value `"true"`. The handler parses the value with `strconv.ParseBool`
  (mutation.go:33), which accepts `1 t T TRUE true True` and
  `0 f F FALSE false False`, so the model accepts all twelve literals. The
  empty string and any other value are a parse failure, which the handler
  reports with status 500 (mutation.go:34-35).
- The scan in `addSideCarContainer` returns right after it overwrites the
  first `caching-sidecar` (mutation.go:67-68). Later containers with the same
  name are left as they are, so the merge alone does not make names unique.
  `InjectedSidecars` states the exact outcome. `InjectedExactlyOne` and
  `InjectedKeepsNamesDistinct` state the uniqueness the merge does give: when
  the input has at most one `caching-sidecar`, or pairwise distinct names.

## Model

| member | source | states |
|---|---|---|
| `StrConv.ParseBool` | pkg/webhooks/mutation/mutation.go:33 | an accepted string has 1 to 5 characters, and it reads as true exactly when its first character is `1`, `t` or `T` |
| `StrConv.ParseBoolSpells` | pkg/webhooks/mutation/mutation.go:33 | `ParseBool(s) == Some(b)` if and only if `s` is the digit, the initial in either case, or the lower, capitalised or upper-case word for `b` |
| `StrConv.ParseBoolRejects` | pkg/webhooks/mutation/mutation.go:33-36 | a string that spells neither boolean, such as `""` or `"yes"`, fails to parse |
| `Mutation.FindNamed` | pkg/webhooks/mutation/mutation.go:65-70 | returns no index exactly when no container has the name; otherwise returns the first index whose container has it |
| `Mutation.Injected` | pkg/webhooks/mutation/mutation.go:60-72 | if a container is named `caching-sidecar`, the first one becomes exactly the descriptor, the length is unchanged and every other element stays, later duplicates included; if none is, the result is the input with the descriptor appended; the descriptor is always present |
| `Mutation.Pod.AddSideCarContainer` | pkg/webhooks/mutation/mutation.go:60-72 | the pod's containers become `Injected` of the old containers, and its annotations are unchanged |
| `Mutation.Decide` | pkg/webhooks/mutation/mutation.go:31-40 | an error is always status 500 and only happens when the annotation is present; a success either keeps the containers or merges the sidecar into them, with nothing in between |
| `Mutation.Handle` | pkg/webhooks/mutation/mutation.go:23-41 | a failed decode returns status 400 and does not touch the pod; otherwise the response and the pod's new containers are those of `Decide` on the pod's old state; an error leaves the containers as they were; annotations are never changed |
| `Mutation.DecideKeepsUnlessEnabled` | pkg/webhooks/mutation/mutation.go:31-40 | when the annotation is absent, or spells false, the decision succeeds with the containers unchanged |
| `Mutation.DecideInjectsWhenEnabled` | pkg/webhooks/mutation/mutation.go:31-39 | when the annotation spells true, the decision succeeds with the sidecar merged in |
| `Mutation.DecideRejectsMalformed` | pkg/webhooks/mutation/mutation.go:33-36 | when the annotation spells no boolean, the decision is status 500 |
| `Mutation.DecideIdempotent` | pkg/webhooks/mutation/mutation.go:31-41 | deciding again on the containers of a successful decision gives the same result |
| `Mutation.InjectedIdempotent` | pkg/webhooks/mutation/mutation.go:60-72 | merging twice gives the same container list as merging once |
| `Mutation.InjectedKeepsNamesDistinct` | pkg/webhooks/mutation/mutation.go:65-71 | if the container names are pairwise distinct before the merge, they are pairwise distinct after it |
| `Mutation.InjectedKeepsOthers` | pkg/webhooks/mutation/mutation.go:65-71 | the containers not named `caching-sidecar` keep their values and their relative order |
| `Mutation.InjectedSidecars` | pkg/webhooks/mutation/mutation.go:65-71 | the `caching-sidecar` containers afterwards are the descriptor followed by the old ones except the first; with no old one, the descriptor alone |
| `Mutation.InjectedExactlyOne` | pkg/webhooks/mutation/mutation.go:60-72 | with at most one `caching-sidecar` before the merge, exactly one is present afterwards, and it is the descriptor |
| `Mutation.InjectedExamples` | pkg/webhooks/mutation/mutation.go:60-72 | `[app]` becomes `[app, sidecar]`, and a lone `caching-sidecar` with an old image is replaced in place |

## Left out

- Decoding the admission request into a pod (`a.decoder.Decode`, line 26) is framework code. It is an input of `Handle`, either a pod or `None`.
- Serialising the mutated pod and computing the JSON Patch (RFC 6902) between the raw and mutated bytes (lines 43-48) are foreign library calls. `Handle` returns `Patched`, and the patch is implied by the pod's final state. The status-500 failure of `json.Marshal` is left out with them.
- `InjectDecoder` (lines 55-58) and the `Client` field (line 18) only wire in dependencies; they hold no logic.
- The webhook registration marker (line 14), the HTTP and TLS transport, and the `context` argument are deployment and I/O concerns.
- Container fields other than name and image are kept as one opaque map. The descriptor's zero value for them is the empty map.
- Error messages are left out. An error response carries only its status code.
- A nil annotation map in Go reads like an empty one, so the model has no separate nil case.
