/**
 * The mutating admission webhook of pkg/webhooks/mutation/mutation.go.
 *
 * A pod whose annotation sidecar.infinispan.org/inject parses to true gets
 * the caching sidecar merged into its container list: the first container
 * already named caching-sidecar is overwritten by the fixed descriptor, and
 * when there is none the descriptor is appended. Handle wraps that decision
 * with the two failures the handler reports itself: 400 when the request
 * does not decode into a pod, 500 when the annotation is not a boolean.
 */
module Mutation {

  import opened Wrappers
  import StrConv

  const InjectAnnotation: string := "sidecar.infinispan.org/inject"
  const SidecarName: string := "caching-sidecar"
  const SidecarImage: string := "quay.io/infinispan/server"

  /** net/http's StatusBadRequest and StatusInternalServerError. */
  const StatusBadRequest: int := 400
  const StatusInternalServerError: int := 500

  /**
   * A container of the pod spec: its name, its image, and every other field
   * of the Kubernetes container as one opaque key/value map.
   */
  datatype Container = Container(name: string, image: string, rest: map<string, string>)

  /** The descriptor addSideCarContainer builds: name and image set, every other field zero. */
  const Sidecar: Container := Container(SidecarName, SidecarImage, map[])

  /** i is the position of the first container called name. */
  ghost predicate IsFirstNamed(cs: seq<Container>, name: string, i: int)
  {
    && 0 <= i < |cs|
    && cs[i].name == name
    && forall j :: 0 <= j < i ==> cs[j].name != name
  }

  /** The position of the first container called name, if any. */
  function FindNamed(cs: seq<Container>, name: string): (r: Option<nat>)
    ensures r.None? <==> forall j :: 0 <= j < |cs| ==> cs[j].name != name
    ensures r.Some? ==> IsFirstNamed(cs, name, r.value)
  {
    if cs == [] then None
    else if cs[0].name == name then Some(0)
    else match FindNamed(cs[1..], name)
      case None => None
      case Some(i) => Some(i + 1)
  }

  /** The container list addSideCarContainer leaves behind. */
  function Injected(cs: seq<Container>): (r: seq<Container>)
    ensures forall i :: IsFirstNamed(cs, SidecarName, i) ==>
      && |r| == |cs|
      && r[i] == Sidecar
      && forall j :: 0 <= j < |cs| && j != i ==> r[j] == cs[j]
    ensures (forall j :: 0 <= j < |cs| ==> cs[j].name != SidecarName) ==>
      r == cs + [Sidecar]
    ensures Sidecar in r
  {
    match FindNamed(cs, SidecarName)
    case Some(i) => cs[i := Sidecar]
    case None => cs + [Sidecar]
  }

  /**
   * The order-preserving filter the merge lemmas compare against: the
   * containers whose name is (matching) or is not (!matching) name.
   */
  function Select(cs: seq<Container>, name: string, matching: bool): (r: seq<Container>)
    ensures |r| <= |cs|
  {
    if cs == [] then []
    else
      var head := if (cs[0].name == name) == matching then [cs[0]] else [];
      head + Select(cs[1..], name, matching)
  }

  /** All names in cs differ pairwise. */
  ghost predicate DistinctNames(cs: seq<Container>)
  {
    forall i, j :: 0 <= i < j < |cs| ==> cs[i].name != cs[j].name
  }

  /** The pod object the webhook decodes and mutates: its annotations and its spec's containers. */
  class Pod {
    // A nil annotation map in Go reads like an empty one.
    var annotations: map<string, string>
    var containers: seq<Container>

    constructor (annotations: map<string, string>, containers: seq<Container>)
      ensures this.annotations == annotations && this.containers == containers
    {
      this.annotations := annotations;
      this.containers := containers;
    }

    /** addSideCarContainer: overwrite the first caching-sidecar, or append one. */
    method AddSideCarContainer()
      modifies this
      ensures annotations == old(annotations)
      ensures containers == Injected(old(containers))
    {
      var i := 0;
      while i < |containers|
        invariant 0 <= i <= |containers|
        invariant containers == old(containers)
        invariant forall j :: 0 <= j < i ==> containers[j].name != Sidecar.name
      {
        if containers[i].name == Sidecar.name {
          assert IsFirstNamed(containers, SidecarName, i);
          containers := containers[i := Sidecar];
          return;
        }
        i := i + 1;
      }
      containers := containers + [Sidecar];
    }
  }

  /** What Handle decides for a decoded pod: its new containers, or an error status. */
  datatype Decision = Ok(containers: seq<Container>) | Err(status: int)

  /**
   * The annotation-driven decision of Handle, on the decoded pod's state. It
   * is all or nothing: an error is always the internal-server status and
   * needs the annotation to be present, and a success either keeps the
   * containers or merges the sidecar into them.
   */
  function Decide(annotations: map<string, string>, containers: seq<Container>): (r: Decision)
    ensures r.Err? ==> InjectAnnotation in annotations && r.status == StatusInternalServerError
    ensures r.Ok? ==> r.containers == containers || r.containers == Injected(containers)
  {
    if InjectAnnotation !in annotations then Ok(containers)
    else match StrConv.ParseBool(annotations[InjectAnnotation])
      case None => Err(StatusInternalServerError)
      case Some(inject) => Ok(if inject then Injected(containers) else containers)
  }

  /** The admission response: a patch computed from the mutated pod, or an error with its status. */
  datatype Response = Patched | Errored(code: int)

  /**
   * Handle: decoded is the outcome of decoding the request into a fresh pod
   * (None when decoding failed). On success the pod holds the mutated state
   * from which the patch is computed.
   */
  method Handle(decoded: Option<Pod>) returns (resp: Response)
    modifies if decoded.Some? then {decoded.value} else {}
    ensures decoded.None? ==> resp == Errored(StatusBadRequest)
    ensures decoded.Some? ==> decoded.value.annotations == old(decoded.value.annotations)
    ensures decoded.Some? ==>
      match Decide(old(decoded.value.annotations), old(decoded.value.containers))
      case Ok(cs) => resp == Patched && decoded.value.containers == cs
      case Err(code) => resp == Errored(code) && decoded.value.containers == old(decoded.value.containers)
  {
    if decoded.None? {
      return Errored(StatusBadRequest);
    }
    var pod := decoded.value;
    if InjectAnnotation in pod.annotations {
      var inject := StrConv.ParseBool(pod.annotations[InjectAnnotation]);
      if inject.None? {
        return Errored(StatusInternalServerError);
      }
      if inject.value {
        pod.AddSideCarContainer();
      }
    }
    resp := Patched;
  }

  // ---------------------------------------------------------------------
  // Properties of the decision.

  /** Without the annotation, or with one spelling false, the containers stay as they are. */
  lemma DecideKeepsUnlessEnabled(annotations: map<string, string>, containers: seq<Container>)
    requires InjectAnnotation !in annotations || StrConv.Spells(annotations[InjectAnnotation], false)
    ensures Decide(annotations, containers) == Ok(containers)
  {
    if InjectAnnotation in annotations {
      StrConv.ParseBoolSpells(annotations[InjectAnnotation], false);
    }
  }

  /** An annotation that spells true injects the sidecar. */
  lemma DecideInjectsWhenEnabled(annotations: map<string, string>, containers: seq<Container>)
    requires InjectAnnotation in annotations && StrConv.Spells(annotations[InjectAnnotation], true)
    ensures Decide(annotations, containers) == Ok(Injected(containers))
  {
    StrConv.ParseBoolSpells(annotations[InjectAnnotation], true);
  }

  /** An annotation that spells no boolean is an internal server error. */
  lemma DecideRejectsMalformed(annotations: map<string, string>, containers: seq<Container>)
    requires InjectAnnotation in annotations
    requires !StrConv.Spells(annotations[InjectAnnotation], true)
    requires !StrConv.Spells(annotations[InjectAnnotation], false)
    ensures Decide(annotations, containers) == Err(StatusInternalServerError)
  {
  }

  /** Admitting the mutated pod again changes nothing more. */
  lemma DecideIdempotent(annotations: map<string, string>, containers: seq<Container>)
    requires Decide(annotations, containers).Ok?
    ensures Decide(annotations, Decide(annotations, containers).containers)
         == Decide(annotations, containers)
  {
    InjectedIdempotent(containers);
  }

  // ---------------------------------------------------------------------
  // Properties of the merge.

  /** Merging the sidecar into an already merged list leaves it as it is. */
  lemma InjectedIdempotent(cs: seq<Container>)
    ensures Injected(Injected(cs)) == Injected(cs)
  {
    var once := Injected(cs);
    match FindNamed(cs, SidecarName)
    case Some(i) =>
      assert IsFirstNamed(once, SidecarName, i);
      assert once[i := Sidecar] == once;
    case None =>
      assert IsFirstNamed(once, SidecarName, |cs|);
      assert once[|cs| := Sidecar] == once;
  }

  /** Names that were pairwise distinct stay pairwise distinct. */
  lemma InjectedKeepsNamesDistinct(cs: seq<Container>)
    requires DistinctNames(cs)
    ensures DistinctNames(Injected(cs))
  {
    var r := Injected(cs);
    match FindNamed(cs, SidecarName)
    case Some(i) =>
      forall k | 0 <= k < |r| ensures r[k].name == cs[k].name {
      }
    case None =>
  }

  /** Appending one container adds it to exactly one of the two filters. */
  lemma {:induction false} SelectAppend(cs: seq<Container>, c: Container, name: string, matching: bool)
    ensures Select(cs + [c], name, matching)
         == Select(cs, name, matching) + (if (c.name == name) == matching then [c] else [])
  {
    if cs == [] {
      assert [c][1..] == [];
    } else {
      assert (cs + [c])[1..] == cs[1..] + [c];
      SelectAppend(cs[1..], c, name, matching);
    }
  }

  /** Replacing a container by one of the same name leaves the non-matching filter as it was. */
  lemma {:induction false} SelectReplaceSameName(cs: seq<Container>, i: nat, c: Container)
    requires i < |cs| && cs[i].name == c.name
    ensures Select(cs[i := c], c.name, false) == Select(cs, c.name, false)
  {
    var cs' := cs[i := c];
    if i == 0 {
      assert cs'[0] == c && cs'[1..] == cs[1..];
    } else {
      assert cs'[0] == cs[0] && cs'[1..] == cs[1..][i - 1 := c];
      SelectReplaceSameName(cs[1..], i - 1, c);
    }
  }

  /** Replacing the first container of a name changes only the head of the matching filter. */
  lemma {:induction false} SelectReplaceFirst(cs: seq<Container>, i: nat, c: Container)
    requires IsFirstNamed(cs, c.name, i)
    ensures Select(cs, c.name, true) != []
    ensures Select(cs[i := c], c.name, true) == [c] + Select(cs, c.name, true)[1..]
  {
    var cs' := cs[i := c];
    if i == 0 {
      assert cs'[0] == c && cs'[1..] == cs[1..];
    } else {
      assert cs'[0] == cs[0] && cs'[1..] == cs[1..][i - 1 := c];
      assert IsFirstNamed(cs[1..], c.name, i - 1);
      SelectReplaceFirst(cs[1..], i - 1, c);
    }
  }

  /** The other containers keep their values and their relative order. */
  lemma InjectedKeepsOthers(cs: seq<Container>)
    ensures Select(Injected(cs), SidecarName, false) == Select(cs, SidecarName, false)
  {
    match FindNamed(cs, SidecarName)
    case Some(i) =>
      SelectReplaceSameName(cs, i, Sidecar);
    case None =>
      SelectAppend(cs, Sidecar, SidecarName, false);
  }

  /**
   * The containers called caching-sidecar afterwards: the descriptor in place
   * of the first one (or appended when there was none), later duplicates kept.
   */
  lemma InjectedSidecars(cs: seq<Container>)
    ensures var before := Select(cs, SidecarName, true);
      Select(Injected(cs), SidecarName, true)
        == if before == [] then [Sidecar] else [Sidecar] + before[1..]
  {
    match FindNamed(cs, SidecarName)
    case Some(i) =>
      SelectReplaceFirst(cs, i, Sidecar);
    case None =>
      SelectAppend(cs, Sidecar, SidecarName, true);
      SelectNone(cs);
  }

  /** With no caching-sidecar present, the matching filter is empty. */
  lemma {:induction false} SelectNone(cs: seq<Container>)
    requires forall j :: 0 <= j < |cs| ==> cs[j].name != SidecarName
    ensures Select(cs, SidecarName, true) == []
  {
    if cs != [] {
      SelectNone(cs[1..]);
    }
  }

  /** With at most one caching-sidecar before, exactly one is present afterwards. */
  lemma InjectedExactlyOne(cs: seq<Container>)
    requires |Select(cs, SidecarName, true)| <= 1
    ensures Select(Injected(cs), SidecarName, true) == [Sidecar]
  {
    InjectedSidecars(cs);
  }

  /** Two concrete admissions: append after "app", overwrite an old sidecar in place. */
  lemma InjectedExamples()
    ensures var app := Container("app", "x", map[]);
      Injected([app]) == [app, Sidecar]
    ensures Injected([Container(SidecarName, "old-image", map[])]) == [Sidecar]
  {
  }
}
