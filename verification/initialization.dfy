/**
  Wrapper construction: the 64-bit check, the environment probe, the backend
  choice, the dispatch to the matching native `init`, and the class-name table
  built from the names file.
 */
module Initialization {
  import opened YoloTypes

  /** The backend chosen once the redistributable is known to be present. */
  function SelectSystem(report: EnvironmentReport): (s: DetectionSystem)
    ensures s != Unknown
    ensures s == GPU <==> report.cudaExists && report.cudnnExists
    ensures s == CPU <==> !(report.cudaExists && report.cudnnExists)
  {
    if report.cudaExists && report.cudnnExists then GPU else CPU
  }

  /** The device index handed to the native `init` of a backend. */
  function InitDevice(system: DetectionSystem, gpu: int): (device: int)
    ensures system == CPU ==> device == 0
    ensures system == GPU ==> device == gpu
  {
    match system
    case CPU => 0
    case GPU => gpu
    case Unknown => 0
  }

  /** `Dictionary<int, string>.Add`: fails on a key already present. */
  function DictionaryAdd(d: map<int, string>, key: int, value: string): (r: Result<map<int, string>>)
    ensures r.Failure? <==> key in d
    ensures r.Success? ==> r.value.Keys == d.Keys + {key} && r.value[key] == value
    ensures r.Success? ==> forall k :: k in d ==> r.value[k] == d[k]
  {
    if key in d then Failure(DuplicateKey(key)) else Success(d[key := value])
  }

  /** The class-name table: line i of the names file under key i, added in
      file order. */
  function BuildNameTable(lines: seq<string>): (r: Result<map<int, string>>)
    ensures r.Success?
    ensures forall i :: i in r.value <==> 0 <= i < |lines|
    ensures forall i :: 0 <= i < |lines| ==> r.value[i] == lines[i]
  {
    if |lines| == 0 then Success(map[])
    else
      match BuildNameTable(lines[..|lines| - 1])
      case Failure(e) => Failure(e)
      case Success(table) => DictionaryAdd(table, |lines| - 1, lines[|lines| - 1])
  }

  /** The native `init` call for a chosen backend: the `switch` calls the
      CPU or the GPU entry point, and none for an unknown backend. */
  function InitCall(system: DetectionSystem, config: string, weights: string, gpu: int): (calls: seq<Event>)
    ensures calls == [] <==> system == Unknown
    ensures |calls| <= 1
    ensures forall e :: e in calls ==>
              && e.NativeInit? && e.system == system
              && e.config == config && e.weights == weights
              && e.device == (if system == GPU then gpu else 0)
  {
    match system
    case Unknown => []
    case _ => [NativeInit(system, config, weights, InitDevice(system, gpu))]
  }

  /** Wrapper construction. `pointerSize` is the process's pointer width in
      bytes, `report` is what the environment probe returns, and `names` the
      lines of the names file (`None` when reading it throws). */
  function Initialize(
    pointerSize: int, report: EnvironmentReport,
    config: string, weights: string, names: Option<seq<string>>, gpu: int): (o: Traced<YoloWrapper>)
    ensures pointerSize != 8 ==> o.result == Failure(NotSupported) && o.events == []
    ensures pointerSize == 8 && !report.vcRedist2017Exists ==>
              o.result == Failure(DllNotFound) && o.events == [ProbeEnvironment]
    ensures pointerSize == 8 && report.vcRedist2017Exists ==>
              var s := if report.cudaExists && report.cudnnExists then GPU else CPU;
              o.events == [ProbeEnvironment, NativeInit(s, config, weights, if s == GPU then gpu else 0)]
    ensures o.result.Success? <==> pointerSize == 8 && report.vcRedist2017Exists && names.Some?
    ensures pointerSize == 8 && report.vcRedist2017Exists && names.None? ==>
              o.result == Failure(NamesFileUnreadable)
    ensures o.result.Success? ==>
              && o.result.value.system != Unknown
              && (o.result.value.system == GPU <==> report.cudaExists && report.cudnnExists)
              && o.result.value.report == report
              && (forall i :: i in o.result.value.objectType <==> 0 <= i < |names.value|)
              && (forall i :: 0 <= i < |names.value| ==> o.result.value.objectType[i] == names.value[i])
  {
    if pointerSize != 8 then
      Traced([], Failure(NotSupported))
    else if !report.vcRedist2017Exists then
      Traced([ProbeEnvironment], Failure(DllNotFound))
    else
      var system := SelectSystem(report);
      var events := [ProbeEnvironment] + InitCall(system, config, weights, gpu);
      match names
      case None => Traced(events, Failure(NamesFileUnreadable))
      case Some(lines) =>
        match BuildNameTable(lines)
        case Failure(e) => Traced(events, Failure(e))
        case Success(table) => Traced(events, Success(YoloWrapper(system, report, table)))
  }

  /** Number of native `init` calls in a trace. */
  function InitCount(events: seq<Event>): nat
  {
    if |events| == 0 then 0
    else InitCount(events[..|events| - 1]) + (if events[|events| - 1].NativeInit? then 1 else 0)
  }

  /** Once the platform and redistributable checks pass, exactly one native
      `init` runs, for the backend the wrapper records, with device 0 on the
      CPU and the caller's device on the GPU; this holds even when reading
      the names file fails afterwards. */
  lemma ExactlyOneInit(
    pointerSize: int, report: EnvironmentReport,
    config: string, weights: string, names: Option<seq<string>>, gpu: int)
    requires pointerSize == 8 && report.vcRedist2017Exists
    ensures var o := Initialize(pointerSize, report, config, weights, names, gpu);
            && InitCount(o.events) == 1
            && (o.result.Success? ==>
                  NativeInit(o.result.value.system, config, weights,
                             InitDevice(o.result.value.system, gpu)) in o.events)
  {
    var o := Initialize(pointerSize, report, config, weights, names, gpu);
    var e := o.events;
    assert |e| == 2;
    assert e[..1][..0] == [];
    assert InitCount(e[..1]) == 0;
  }

  /** A failed platform or redistributable check performs no native `init`
      at all, whatever the CUDA and cuDNN flags say. */
  lemma NoInitOnEarlyFailure(
    pointerSize: int, report: EnvironmentReport,
    config: string, weights: string, names: Option<seq<string>>, gpu: int)
    requires pointerSize != 8 || !report.vcRedist2017Exists
    ensures var o := Initialize(pointerSize, report, config, weights, names, gpu);
            InitCount(o.events) == 0 && o.result.Failure?
  {
  }
}
