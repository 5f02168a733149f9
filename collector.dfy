/** The collector: two registries of providers and the capture pipeline
    that stores the raw file, derives the proof from the returned URI, adds
    the proof, asks every information provider to collect facts about it
    and finally asks every signature provider to sign it. The pipeline is
    described by the sequence of calls it makes, in the order it makes
    them; the providers and the repository it calls are not modelled
    beyond the arguments they receive. */
module Collector {
  import opened Wrappers
  import OrderedSets
  import opened ProofRepositorySpec

  /** One call made by the pipeline. */
  datatype Step<I, S> =
    | SaveRawFile(rawBase64: string, mimeType: MimeType)
    | AddProof(proof: Proof)
    | CollectInformation(informationProvider: I, proof: Proof)
    /** `target` is `None` where the program passes `undefined`. */
    | CollectSignature(signatureProvider: S, target: Option<Proof>)

  /** The calls the pipeline depends on for values: the URI returned by
      `saveRawFile$` and the file-name helper. */
  datatype Ports = Ports(saveRawFile: (string, MimeType) -> string, fileNameWithoutExtension: string -> string)

  /** The proof created from a capture: its hash is the saved file's name
      without extension; `timestamp` is the clock reading `Date.now()`. */
  function CreatedProof(ports: Ports, rawBase64: string, mimeType: MimeType, timestamp: int): Proof {
    Proof(ports.fileNameWithoutExtension(ports.saveRawFile(rawBase64, mimeType)), mimeType, timestamp)
  }

  function InformationSteps<I, S>(providers: seq<I>, proof: Proof): (steps: seq<Step<I, S>>)
    ensures |steps| == |providers|
    ensures forall k :: 0 <= k < |providers| ==> steps[k] == CollectInformation(providers[k], proof)
  {
    seq(|providers|, k requires 0 <= k < |providers| => CollectInformation(providers[k], proof))
  }

  function SignatureSteps<I, S>(providers: seq<S>, target: Option<Proof>): (steps: seq<Step<I, S>>)
    ensures |steps| == |providers|
    ensures forall k :: 0 <= k < |providers| ==> steps[k] == CollectSignature(providers[k], target)
  {
    seq(|providers|, k requires 0 <= k < |providers| => CollectSignature(providers[k], target))
  }

  /** `_storeAndCollect$` as written. With no information provider,
      `forkJoin([])` completes without emitting, `zip` completes with it,
      `defaultIfEmpty([])` emits `[]`, and destructuring `[proof]` from
      `[]` hands `undefined` to every signature provider. */
  function StoreAndCollectSteps<I, S>(ports: Ports, rawBase64: string, mimeType: MimeType, timestamp: int,
                                 informationProviders: seq<I>, signatureProviders: seq<S>): seq<Step<I, S>>
  {
    var proof := CreatedProof(ports, rawBase64, mimeType, timestamp);
    var target := if |informationProviders| == 0 then None else Some(proof);
    [SaveRawFile(rawBase64, mimeType), AddProof(proof)]
      + InformationSteps(informationProviders, proof)
      + SignatureSteps(signatureProviders, target)
  }

  /** `_storeAndCollect$` as evidently intended: the signature providers
      sign the created proof whether or not any information was collected. */
  function StoreAndCollectStepsCorrected<I, S>(ports: Ports, rawBase64: string, mimeType: MimeType, timestamp: int,
                                          informationProviders: seq<I>, signatureProviders: seq<S>): seq<Step<I, S>>
  {
    var proof := CreatedProof(ports, rawBase64, mimeType, timestamp);
    [SaveRawFile(rawBase64, mimeType), AddProof(proof)]
      + InformationSteps(informationProviders, proof)
      + SignatureSteps(signatureProviders, Some(proof))
  }

  /** The pipeline stage a call belongs to. */
  function Stage<I, S>(step: Step<I, S>): nat {
    match step
    case SaveRawFile(_, _) => 0
    case AddProof(_) => 1
    case CollectInformation(_, _) => 2
    case CollectSignature(_, _) => 3
  }

  /** How many calls go to the information provider `p`. */
  function InformationCalls<I(==), S>(steps: seq<Step<I, S>>, p: I): nat
    decreases |steps|
  {
    if steps == [] then 0
    else InformationCalls(steps[..|steps| - 1], p)
         + (if steps[|steps| - 1].CollectInformation? && steps[|steps| - 1].informationProvider == p then 1 else 0)
  }

  /** How many calls go to the signature provider `p`. */
  function SignatureCalls<I, S(==)>(steps: seq<Step<I, S>>, p: S): nat
    decreases |steps|
  {
    if steps == [] then 0
    else SignatureCalls(steps[..|steps| - 1], p)
         + (if steps[|steps| - 1].CollectSignature? && steps[|steps| - 1].signatureProvider == p then 1 else 0)
  }

  lemma {:induction false} InformationCallsAppend<I, S>(a: seq<Step<I, S>>, b: seq<Step<I, S>>, p: I)
    ensures InformationCalls(a + b, p) == InformationCalls(a, p) + InformationCalls(b, p)
    decreases |b|
  {
    if b != [] {
      var init := b[..|b| - 1];
      assert (a + b)[..|a + b| - 1] == a + init;
      assert (a + b)[|a + b| - 1] == b[|b| - 1];
      InformationCallsAppend(a, init, p);
    } else {
      assert a + b == a;
    }
  }

  lemma {:induction false} SignatureCallsAppend<I, S>(a: seq<Step<I, S>>, b: seq<Step<I, S>>, p: S)
    ensures SignatureCalls(a + b, p) == SignatureCalls(a, p) + SignatureCalls(b, p)
    decreases |b|
  {
    if b != [] {
      var init := b[..|b| - 1];
      assert (a + b)[..|a + b| - 1] == a + init;
      assert (a + b)[|a + b| - 1] == b[|b| - 1];
      SignatureCallsAppend(a, init, p);
    } else {
      assert a + b == a;
    }
  }

  /** Calls to one information provider among the information steps. */
  lemma {:induction false} InformationStepsCalls<I, S>(providers: seq<I>, proof: Proof, p: I)
    requires OrderedSets.NoDuplicates(providers)
    ensures InformationCalls(InformationSteps<I, S>(providers, proof), p) == if p in providers then 1 else 0
    decreases |providers|
  {
    if providers != [] {
      var init := providers[..|providers| - 1];
      var last := providers[|providers| - 1];
      assert InformationSteps<I, S>(providers, proof)[..|providers| - 1] == InformationSteps<I, S>(init, proof);
      InformationStepsCalls<I, S>(init, proof, p);
      assert providers == init + [last];
      assert last !in init;
    }
  }

  /** Calls to one signature provider among the signature steps. */
  lemma {:induction false} SignatureStepsCalls<I, S>(providers: seq<S>, target: Option<Proof>, p: S)
    requires OrderedSets.NoDuplicates(providers)
    ensures SignatureCalls(SignatureSteps<I, S>(providers, target), p) == if p in providers then 1 else 0
    decreases |providers|
  {
    if providers != [] {
      var init := providers[..|providers| - 1];
      var last := providers[|providers| - 1];
      assert SignatureSteps<I, S>(providers, target)[..|providers| - 1] == SignatureSteps<I, S>(init, target);
      SignatureStepsCalls<I, S>(init, target, p);
      assert providers == init + [last];
      assert last !in init;
    }
  }

  lemma InformationCallsOfOthers<I, S>(steps: seq<Step<I, S>>, p: I)
    requires forall k :: 0 <= k < |steps| ==> !steps[k].CollectInformation?
    ensures InformationCalls(steps, p) == 0
    decreases |steps|
  {
    if steps != [] {
      InformationCallsOfOthers(steps[..|steps| - 1], p);
    }
  }

  lemma SignatureCallsOfOthers<I, S>(steps: seq<Step<I, S>>, p: S)
    requires forall k :: 0 <= k < |steps| ==> !steps[k].CollectSignature?
    ensures SignatureCalls(steps, p) == 0
    decreases |steps|
  {
    if steps != [] {
      SignatureCallsOfOthers(steps[..|steps| - 1], p);
    }
  }

  /** Every registered information provider is called exactly once per
      capture, and no other information provider is called. */
  lemma EachInformationProviderCalledOnce<I, S>(ports: Ports, rawBase64: string, mimeType: MimeType, timestamp: int,
                                                informationProviders: seq<I>, signatureProviders: seq<S>, p: I)
    requires OrderedSets.NoDuplicates(informationProviders)
    ensures var steps := StoreAndCollectSteps(ports, rawBase64, mimeType, timestamp, informationProviders, signatureProviders);
            InformationCalls(steps, p) == if p in informationProviders then 1 else 0
  {
    var proof := CreatedProof(ports, rawBase64, mimeType, timestamp);
    var target := if |informationProviders| == 0 then None else Some(proof);
    var head: seq<Step<I, S>> := [SaveRawFile(rawBase64, mimeType), AddProof(proof)];
    var infos := InformationSteps<I, S>(informationProviders, proof);
    var sigs := SignatureSteps<I, S>(signatureProviders, target);
    InformationCallsAppend(head + infos, sigs, p);
    InformationCallsAppend(head, infos, p);
    InformationCallsOfOthers(head, p);
    InformationCallsOfOthers(sigs, p);
    InformationStepsCalls<I, S>(informationProviders, proof, p);
  }

  /** Every registered signature provider is called exactly once per
      capture, and no other signature provider is called. */
  lemma EachSignatureProviderCalledOnce<I, S>(ports: Ports, rawBase64: string, mimeType: MimeType, timestamp: int,
                                              informationProviders: seq<I>, signatureProviders: seq<S>, q: S)
    requires OrderedSets.NoDuplicates(signatureProviders)
    ensures var steps := StoreAndCollectSteps(ports, rawBase64, mimeType, timestamp, informationProviders, signatureProviders);
            SignatureCalls(steps, q) == if q in signatureProviders then 1 else 0
  {
    var proof := CreatedProof(ports, rawBase64, mimeType, timestamp);
    var target := if |informationProviders| == 0 then None else Some(proof);
    var head: seq<Step<I, S>> := [SaveRawFile(rawBase64, mimeType), AddProof(proof)];
    var infos := InformationSteps<I, S>(informationProviders, proof);
    var sigs := SignatureSteps<I, S>(signatureProviders, target);
    SignatureCallsAppend(head + infos, sigs, q);
    SignatureCallsAppend(head, infos, q);
    SignatureCallsOfOthers(head, q);
    SignatureCallsOfOthers(infos, q);
    SignatureStepsCalls<I, S>(signatureProviders, target, q);
  }

  /** The stages run in a fixed order: the raw file is saved first, then
      the proof is added, then information is collected, then signatures;
      no call of a later stage precedes one of an earlier stage. */
  lemma StagesInOrder<I, S>(ports: Ports, rawBase64: string, mimeType: MimeType, timestamp: int,
                            informationProviders: seq<I>, signatureProviders: seq<S>)
    ensures var steps := StoreAndCollectSteps(ports, rawBase64, mimeType, timestamp, informationProviders, signatureProviders);
            && |steps| == 2 + |informationProviders| + |signatureProviders|
            && steps[0] == SaveRawFile(rawBase64, mimeType)
            && steps[1] == AddProof(CreatedProof(ports, rawBase64, mimeType, timestamp))
            && (forall i, j :: 0 <= i < j < |steps| ==> Stage(steps[i]) <= Stage(steps[j]))
  {
    var steps := StoreAndCollectSteps(ports, rawBase64, mimeType, timestamp, informationProviders, signatureProviders);
    var n := |informationProviders|;
    assert forall i :: 0 <= i < |steps| ==>
      Stage(steps[i]) == if i == 0 then 0 else if i == 1 then 1 else if i < 2 + n then 2 else 3;
  }

  /** Every information provider receives the created proof: its hash taken
      from the saved file, the caller's MIME type, and the creation time. */
  lemma InformationProvidersGetTheProof<I, S>(ports: Ports, rawBase64: string, mimeType: MimeType, timestamp: int,
                                               informationProviders: seq<I>, signatureProviders: seq<S>)
    ensures var steps := StoreAndCollectSteps(ports, rawBase64, mimeType, timestamp, informationProviders, signatureProviders);
            forall k :: 2 <= k < 2 + |informationProviders| ==>
              && steps[k].CollectInformation?
              && steps[k].proof.hash == ports.fileNameWithoutExtension(ports.saveRawFile(rawBase64, mimeType))
              && steps[k].proof.mimeType == mimeType
              && steps[k].proof.timestamp == timestamp
  {
  }

  /** The discrepancy: with no information provider registered, a signature
      provider is asked to sign `undefined` instead of the created proof. */
  lemma NoInformationProviderLeavesSignerWithoutProof<I, S>(ports: Ports, rawBase64: string, mimeType: MimeType,
                                                           timestamp: int, signatureProviders: seq<S>)
    ensures var steps := StoreAndCollectSteps<I, S>(ports, rawBase64, mimeType, timestamp, [], signatureProviders);
            && |steps| == 2 + |signatureProviders|
            && forall k :: 0 <= k < |signatureProviders| ==>
                 steps[2 + k] == CollectSignature(signatureProviders[k], None)
  {
  }

  /** With the correction every signature provider signs the created proof,
      and the calls are otherwise those of the program. */
  lemma CorrectedSignersGetTheProof<I, S>(ports: Ports, rawBase64: string, mimeType: MimeType, timestamp: int,
                                          informationProviders: seq<I>, signatureProviders: seq<S>)
    ensures var proof := CreatedProof(ports, rawBase64, mimeType, timestamp);
            var fixed := StoreAndCollectStepsCorrected(ports, rawBase64, mimeType, timestamp, informationProviders, signatureProviders);
            var written := StoreAndCollectSteps(ports, rawBase64, mimeType, timestamp, informationProviders, signatureProviders);
            && |fixed| == |written|
            && (forall k :: 2 + |informationProviders| <= k < |fixed| ==>
                  fixed[k] == CollectSignature(signatureProviders[k - 2 - |informationProviders|], Some(proof)))
            && (forall k :: 0 <= k < |fixed| && !fixed[k].CollectSignature? ==> fixed[k] == written[k])
            && (informationProviders != [] ==> fixed == written)
  {
  }

  /** The last segment of a path: everything after its last '/'. */
  function LastSegment(path: string): (r: string)
    ensures '/' !in r
    decreases |path|
  {
    if path == [] || path[|path| - 1] == '/' then []
    else LastSegment(path[..|path| - 1]) + [path[|path| - 1]]
  }

  /** A file name up to its first '.'. */
  function UpToFirstDot(name: string): (r: string)
    ensures '.' !in r
    decreases |name|
  {
    if name == [] || name[0] == '.' then []
    else [name[0]] + UpToFirstDot(name[1..])
  }

  /** A reading of `fileNameWithoutExtension`: the stem of the last path
      segment. */
  function FileStem(path: string): string {
    UpToFirstDot(LastSegment(path))
  }

  lemma {:induction false} LastSegmentAfterSlash(folder: string, name: string)
    requires '/' !in name
    ensures LastSegment(folder + "/" + name) == name
    decreases |name|
  {
    if name != [] {
      var init := name[..|name| - 1];
      assert (folder + "/" + name)[..|folder + "/" + name| - 1] == folder + "/" + init;
      LastSegmentAfterSlash(folder, init);
      assert name == init + [name[|name| - 1]];
    } else {
      assert (folder + "/" + name)[|folder + "/" + name| - 1] == '/';
    }
  }

  lemma {:induction false} UpToFirstDotBeforeDot(stem: string, extension: string)
    requires '.' !in stem
    ensures UpToFirstDot(stem + "." + extension) == stem
    decreases |stem|
  {
    if stem != [] {
      assert (stem + "." + extension)[1..] == stem[1..] + "." + extension;
      UpToFirstDotBeforeDot(stem[1..], extension);
    }
  }

  /** When the raw file is saved as `raw/<sha256>.<extension>` and the
      file-name helper strips folder and extension, the proof's hash is the
      content hash, as long as the hash holds no '.' or '/' and the
      extension no '/'. */
  lemma ProofHashIsContentHash(ports: Ports, sha256: string -> string, rawBase64: string, mimeType: MimeType, timestamp: int)
    requires forall raw, m :: ports.saveRawFile(raw, m) == RawPath(sha256(raw), m.extension)
    requires forall path :: ports.fileNameWithoutExtension(path) == FileStem(path)
    requires '.' !in sha256(rawBase64) && '/' !in sha256(rawBase64) && '/' !in mimeType.extension
    ensures CreatedProof(ports, rawBase64, mimeType, timestamp).hash == sha256(rawBase64)
  {
    var hash := sha256(rawBase64);
    var name := RawFileName(hash, mimeType.extension);
    assert '/' !in name by {
      assert name == hash + "." + mimeType.extension;
    }
    LastSegmentAfterSlash(RawFileFolderName, name);
    UpToFirstDotBeforeDot(hash, mimeType.extension);
  }

  /** The collector service: the two provider registries. */
  class CollectorService<I(==, !new), S(==, !new)> {
    var informationProviders: seq<I>
    var signatureProviders: seq<S>

    ghost predicate Valid()
      reads this
    {
      OrderedSets.NoDuplicates(informationProviders) && OrderedSets.NoDuplicates(signatureProviders)
    }

    constructor ()
      ensures Valid() && informationProviders == [] && signatureProviders == []
    {
      informationProviders := [];
      signatureProviders := [];
    }

    /** `addInformationProvider(...providers)`. */
    method AddInformationProvider(providers: seq<I>)
      requires Valid()
      modifies this`informationProviders
      ensures Valid()
      ensures informationProviders == OrderedSets.InsertAll(old(informationProviders), providers)
    {
      for i := 0 to |providers|
        invariant informationProviders == OrderedSets.InsertAll(old(informationProviders), providers[..i])
      {
        assert providers[..i + 1][..i] == providers[..i];
        informationProviders := OrderedSets.Insert(informationProviders, providers[i]);
      }
      assert providers[..|providers|] == providers;
    }

    /** `removeInformationProvider(...providers)`. */
    method RemoveInformationProvider(providers: seq<I>)
      requires Valid()
      modifies this`informationProviders
      ensures Valid()
      ensures informationProviders == OrderedSets.RemoveAll(old(informationProviders), providers)
    {
      for i := 0 to |providers|
        invariant informationProviders == OrderedSets.RemoveAll(old(informationProviders), providers[..i])
      {
        assert providers[..i + 1][..i] == providers[..i];
        informationProviders := OrderedSets.Remove(informationProviders, providers[i]);
      }
      assert providers[..|providers|] == providers;
    }

    /** `addSignatureProvider(...providers)`. */
    method AddSignatureProvider(providers: seq<S>)
      requires Valid()
      modifies this`signatureProviders
      ensures Valid()
      ensures signatureProviders == OrderedSets.InsertAll(old(signatureProviders), providers)
    {
      for i := 0 to |providers|
        invariant signatureProviders == OrderedSets.InsertAll(old(signatureProviders), providers[..i])
      {
        assert providers[..i + 1][..i] == providers[..i];
        signatureProviders := OrderedSets.Insert(signatureProviders, providers[i]);
      }
      assert providers[..|providers|] == providers;
    }

    /** `removeSignatureProvider(...providers)`. */
    method RemoveSignatureProvider(providers: seq<S>)
      requires Valid()
      modifies this`signatureProviders
      ensures Valid()
      ensures signatureProviders == OrderedSets.RemoveAll(old(signatureProviders), providers)
    {
      for i := 0 to |providers|
        invariant signatureProviders == OrderedSets.RemoveAll(old(signatureProviders), providers[..i])
      {
        assert providers[..i + 1][..i] == providers[..i];
        signatureProviders := OrderedSets.Remove(signatureProviders, providers[i]);
      }
      assert providers[..|providers|] == providers;
    }

    /** `_storeAndCollect$` over the registered providers, in registration
        order. */
    method StoreAndCollect(ports: Ports, rawBase64: string, mimeType: MimeType, timestamp: int)
      returns (steps: seq<Step<I, S>>)
      requires Valid()
      ensures steps == StoreAndCollectSteps(ports, rawBase64, mimeType, timestamp, informationProviders, signatureProviders)
      ensures forall p :: InformationCalls(steps, p) == if p in informationProviders then 1 else 0
      ensures forall q :: SignatureCalls(steps, q) == if q in signatureProviders then 1 else 0
    {
      steps := StoreAndCollectSteps(ports, rawBase64, mimeType, timestamp, informationProviders, signatureProviders);
      forall p
        ensures InformationCalls(steps, p) == if p in informationProviders then 1 else 0
      {
        EachInformationProviderCalledOnce(ports, rawBase64, mimeType, timestamp, informationProviders, signatureProviders, p);
      }
      forall q
        ensures SignatureCalls(steps, q) == if q in signatureProviders then 1 else 0
      {
        EachSignatureProviderCalledOnce(ports, rawBase64, mimeType, timestamp, informationProviders, signatureProviders, q);
      }
    }
  }

  /** Registering providers that are registered already, or unregistering
      ones that are not, leaves a registry as it was. */
  lemma RegistryUpdatesIdempotent<T(!new)>(registry: seq<T>, providers: seq<T>)
    ensures OrderedSets.InsertAll(OrderedSets.InsertAll(registry, providers), providers) == OrderedSets.InsertAll(registry, providers)
    ensures OrderedSets.RemoveAll(OrderedSets.RemoveAll(registry, providers), providers) == OrderedSets.RemoveAll(registry, providers)
    ensures (forall p :: p in providers ==> p !in registry) ==> OrderedSets.RemoveAll(registry, providers) == registry
  {
    OrderedSets.InsertAllIdempotent(registry, providers);
  }
}
