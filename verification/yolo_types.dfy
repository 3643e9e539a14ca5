/**
  The data model shared by the managed half of the YOLO wrapper: the backend
  enumeration, the environment report, the native detection record and its
  fixed-capacity container, the managed detection item, the wrapper's state,
  the exceptions the wrapper can raise, and the trace of effects it performs
  (environment probe, native calls, unmanaged allocation and release).
 */
module YoloTypes {

  /** Capacity of the native result container (`YoloWrapper.MaxObjects`). */
  const MaxObjects: nat := 1000

  const TwoTo31: int := 0x8000_0000
  const TwoTo32: int := 0x1_0000_0000

  /** The native record's fields are unsigned 32-bit integers. */
  type UInt32 = v: int | 0 <= v < 0x1_0000_0000

  /** One byte of caller image data. */
  type byte = b: int | 0 <= b < 256

  /** `Marshal.SizeOf` of one element of a `byte[]`. */
  const ByteSize: nat := 1

  /** An unchecked C# cast `(int)v` of an unsigned 32-bit value: values at or
      above 2^31 wrap around to negative numbers. */
  function ToInt32(v: UInt32): (r: int)
    ensures -TwoTo31 <= r < TwoTo31
    ensures r % TwoTo32 == v
    ensures 0 <= r <==> v < TwoTo31
  {
    if v < TwoTo31 then v else v - TwoTo32
  }

  datatype DetectionSystem = Unknown | CPU | GPU

  /** What the environment probe found on the host. */
  datatype EnvironmentReport = EnvironmentReport(
    vcRedist2017Exists: bool,
    cudaExists: bool,
    cudnnExists: bool)

  /** The single-precision confidence score, kept as its raw bit pattern: the
      model never interprets its numeric value. */
  datatype Confidence = Confidence(bits: UInt32)

  /** One native detection record (`bbox_t`). */
  datatype Bbox = Bbox(
    x: UInt32, y: UInt32, w: UInt32, h: UInt32,
    prob: Confidence,
    objId: UInt32,
    trackId: UInt32,
    framesCounter: UInt32)

  /** The result container as seen by managed code after a native detect call.
      `Unfilled` is a container whose candidate array was never written by the
      marshaller, so its `candidates` reference is still null. */
  datatype Container = Unfilled | Filled(candidates: seq<Bbox>)

  /** One managed detection (`YoloItem`). */
  datatype YoloItem = YoloItem(
    x: int, y: int, width: int, height: int,
    confidence: Confidence,
    typeName: string)

  /** The managed state of an initialized wrapper. */
  datatype YoloWrapper = YoloWrapper(
    system: DetectionSystem,
    report: EnvironmentReport,
    objectType: map<int, string>)

  /** The exceptions the managed code raises or lets escape. */
  datatype Error =
    | NotSupported            // not a 64-bit process
    | DllNotFound             // the VC++ 2017 redistributable is missing
    | NamesFileUnreadable     // reading the class-names file failed
    | DuplicateKey(key: int)  // `Dictionary.Add` of a key already present
    | KeyNotFound(key: int)   // the class-name dictionary has no such id
    | IndexOutOfRange         // `imageData[0]` of an empty array
    | OutOfMemory             // `Marshal.AllocHGlobal` failed
    | NullCandidates          // the container's candidate array is null
    | NativeFault             // an exception raised by a native call

  datatype Option<T> = None | Some(value: T)

  datatype Result<T> = Success(value: T) | Failure(error: Error)

  /** An effect the wrapper performs on the outside world, in order. */
  datatype Event =
    | ProbeEnvironment
    | NativeInit(system: DetectionSystem, config: string, weights: string, device: int)
    | NativeDetectImage(system: DetectionSystem, filename: string)
    | AllocHGlobal(size: int)
    | NativeDetectMat(system: DetectionSystem, data: seq<byte>, size: int)
    | FreeHGlobal
    | NativeDispose(system: DetectionSystem)

  /** A result together with the effects performed while computing it. */
  datatype Traced<T> = Traced(events: seq<Event>, result: Result<T>)

  /** A request to the native engine: detect on an image file, or detect on
      a staged unmanaged buffer of `size` bytes. */
  datatype NativeRequest =
    | DetectImage(system: DetectionSystem, filename: string)
    | DetectMat(system: DetectionSystem, buffer: seq<byte>, size: int)

  /** The native engine's reply: the returned count and the container the
      marshaller copied back, or an exception raised by the call. */
  datatype NativeReply =
    | Returned(count: int, candidates: seq<Bbox>)
    | Threw

  /** The native engine, an uninterpreted oracle. */
  type Engine = NativeRequest -> NativeReply

  /** A reply whose container has the marshalled fixed capacity. */
  predicate WellFormedReply(reply: NativeReply)
  {
    reply.Returned? ==> |reply.candidates| == MaxObjects
  }
}
