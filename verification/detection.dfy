/**
  Detection and disposal: the dispatch of `Detect(string)`, `Detect(byte[])`
  and `Dispose` to the native entry points of the chosen backend, and the
  unmanaged staging of caller image bytes for `Detect(byte[])`.
 */
module Detection {
  import opened YoloTypes
  import opened Decoding
  import opened Initialization

  /** `Detect(string)`: the native detect-on-file call of the wrapper's
      backend, then decoding. The count the native call returns is dropped. */
  function DetectFile(w: YoloWrapper, filename: string, engine: Engine): (o: Traced<seq<YoloItem>>)
    ensures w.system == Unknown ==> o == Traced([], Failure(NullCandidates))
    ensures w.system != Unknown ==> o.events == [NativeDetectImage(w.system, filename)]
    ensures w.system != Unknown ==>
              match engine(DetectImage(w.system, filename))
              case Threw => o.result == Failure(NativeFault)
              case Returned(_, candidates) => o.result == ConvertCandidates(candidates, w.objectType)
  {
    match w.system
    case Unknown => Traced([], Convert(Unfilled, w.objectType))
    case _ =>
      var events := [NativeDetectImage(w.system, filename)];
      match engine(DetectImage(w.system, filename))
      case Threw => Traced(events, Failure(NativeFault))
      case Returned(count, candidates) => Traced(events, Convert(Filled(candidates), w.objectType))
  }

  /** `Detect(byte[])`. The element size is read from `imageData[0]` before
      anything is allocated; the bytes are copied one by one into a fresh
      unmanaged buffer of that size; the native detect-on-buffer call of the
      wrapper's backend reads it; the buffer is freed whatever happened; an
      exception inside the guarded region becomes a null result (`None`),
      while a decoding failure after the release propagates. `allocOk` says
      whether `Marshal.AllocHGlobal` succeeds. */
  method DetectBytes(w: YoloWrapper, imageData: seq<byte>, engine: Engine, allocOk: bool)
    returns (result: Result<Option<seq<YoloItem>>>, events: seq<Event>)
    ensures |imageData| == 0 ==> result == Failure(IndexOutOfRange) && events == []
    ensures |imageData| > 0 && !allocOk ==> result == Failure(OutOfMemory) && events == []
    // nothing leaks: one allocation of the input's size, freed once, last
    ensures |imageData| > 0 && allocOk ==>
              && |events| >= 2
              && events[0] == AllocHGlobal(|imageData|)
              && events[|events| - 1] == FreeHGlobal
              && forall k :: 0 < k < |events| - 1 ==> !events[k].AllocHGlobal? && !events[k].FreeHGlobal?
    // the engine reads exactly the caller's bytes, with their length
    ensures |imageData| > 0 && allocOk && w.system != Unknown ==>
              events == [AllocHGlobal(|imageData|), NativeDetectMat(w.system, imageData, |imageData|), FreeHGlobal]
    ensures |imageData| > 0 && allocOk && w.system == Unknown ==>
              events == [AllocHGlobal(|imageData|), FreeHGlobal] && result == Failure(NullCandidates)
    // null exactly when the native call threw
    ensures result == Success(None) <==>
              |imageData| > 0 && allocOk && w.system != Unknown
              && engine(DetectMat(w.system, imageData, |imageData|)).Threw?
    ensures |imageData| > 0 && allocOk && w.system != Unknown ==>
              match engine(DetectMat(w.system, imageData, |imageData|))
              case Threw => true
              case Returned(_, candidates) =>
                match ConvertCandidates(candidates, w.objectType)
                case Success(items) => result == Success(Some(items))
                case Failure(e) => result == Failure(e)
  {
    if |imageData| == 0 {
      return Failure(IndexOutOfRange), [];
    }
    var size := ByteSize * |imageData|;
    if !allocOk {
      return Failure(OutOfMemory), [];
    }
    var buffer := new byte[size];
    events := [AllocHGlobal(size)];

    var i := 0;
    while i < |imageData|
      invariant 0 <= i <= |imageData|
      invariant buffer[..i] == imageData[..i]
    {
      buffer[i] := imageData[i];
      i := i + 1;
    }
    assert buffer[..] == imageData;

    var container := Unfilled;
    var threw := false;
    if w.system != Unknown {
      var staged := buffer[..];
      events := events + [NativeDetectMat(w.system, staged, |imageData|)];
      match engine(DetectMat(w.system, staged, |imageData|)) {
        case Threw =>
          threw := true;
        case Returned(count, candidates) =>
          container := Filled(candidates);
      }
    }
    events := events + [FreeHGlobal];

    if threw {
      return Success(None), events;
    }
    match Convert(container, w.objectType) {
      case Failure(e) =>
        result := Failure(e);
      case Success(items) =>
        result := Success(Some(items));
    }
  }

  /** `Dispose`: the native dispose of the wrapper's backend, nothing for an
      unknown backend. `nativeThrows` says whether that native call raises
      (for instance when its DLL cannot be loaded); the exception escapes.
      On success the wrapper comes back as it was: its backend is not reset. */
  function Dispose(w: YoloWrapper, nativeThrows: bool): (o: Traced<YoloWrapper>)
    ensures o.events == [] <==> w.system == Unknown
    ensures forall e :: e in o.events ==> e == NativeDispose(w.system)
    ensures |o.events| <= 1
    ensures o.result.Failure? <==> w.system != Unknown && nativeThrows
    ensures o.result.Failure? ==> o.result.error == NativeFault
    ensures o.result.Success? ==> o.result.value == w
  {
    match w.system
    case Unknown => Traced([], Success(w))
    case _ =>
      var events := [NativeDispose(w.system)];
      if nativeThrows then Traced(events, Failure(NativeFault)) else Traced(events, Success(w))
  }

  /** A wrapper that initialized successfully disposes the very backend it
      initialized; since `Dispose` leaves the backend in place, disposing the
      disposed wrapper calls the same native dispose again: `Dispose` is not
      idempotent. */
  lemma DisposeMatchesInit(
    pointerSize: int, report: EnvironmentReport,
    config: string, weights: string, names: Option<seq<string>>, gpu: int)
    requires Initialize(pointerSize, report, config, weights, names, gpu).result.Success?
    ensures var o := Initialize(pointerSize, report, config, weights, names, gpu);
            var w := o.result.value;
            var first := Dispose(w, false);
            && o.events[1].NativeInit?
            && first.events == [NativeDispose(o.events[1].system)]
            && first.result.Success?
            && Dispose(first.result.value, false).events == first.events
  {
  }

  /** On an initialized wrapper `Detect(string)` always reaches the native
      engine, and a marshalled container decodes to at most `MaxObjects`
      items. */
  lemma DetectFileAfterInit(
    pointerSize: int, report: EnvironmentReport,
    config: string, weights: string, names: Option<seq<string>>, gpu: int,
    filename: string, engine: Engine)
    requires Initialize(pointerSize, report, config, weights, names, gpu).result.Success?
    requires WellFormedReply(engine(DetectImage(
               Initialize(pointerSize, report, config, weights, names, gpu).result.value.system, filename)))
    ensures var w := Initialize(pointerSize, report, config, weights, names, gpu).result.value;
            var o := DetectFile(w, filename, engine);
            && o.events == [NativeDetectImage(w.system, filename)]
            && o.result != Failure(NullCandidates)
            && (o.result.Success? ==> |o.result.value| <= MaxObjects)
  {
    var w := Initialize(pointerSize, report, config, weights, names, gpu).result.value;
    var reply := engine(DetectImage(w.system, filename));
    if reply.Returned? {
      ConvertFailsIff(reply.candidates, w.objectType);
    }
  }

  /** The count returned by the native call plays no part in the result:
      two replies with the same container decode alike. */
  lemma DetectFileIgnoresCount(w: YoloWrapper, filename: string, e1: Engine, e2: Engine)
    requires w.system != Unknown
    requires e1(DetectImage(w.system, filename)).Returned?
    requires e2(DetectImage(w.system, filename)).Returned?
    requires e1(DetectImage(w.system, filename)).candidates == e2(DetectImage(w.system, filename)).candidates
    ensures DetectFile(w, filename, e1) == DetectFile(w, filename, e2)
  {
  }
}
