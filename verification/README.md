# Alturos.Yolo wrapper — a Dafny model of the managed half of `YoloWrapper`

`YoloWrapper` puts an object detector (YOLO, in a native DLL built once for
the CPU and once for CUDA GPUs) behind a small C# API. Construction checks
that the process is 64-bit. It then probes the host for the Visual C++ 2017
redistributable, CUDA and cuDNN, picks the CPU or GPU backend, calls that
backend's native `init`, and loads the class-name table from the names file.
`Detect(string)` and `Detect(byte[])` call the backend's native detector,
which fills a fixed-capacity container of `bbox_t` records. `Convert` turns
that container into `YoloItem`s. `Dispose` calls the backend's native
`dispose`.

The model has four modules:

- `YoloTypes` (`yolo_types.dfy`) holds the data model: `DetectionSystem`,
  `EnvironmentReport`, the native record `Bbox`, the `Container`, `YoloItem`,
  the wrapper state `YoloWrapper`, and the .NET exceptions as an `Error`
  datatype. It also holds an `Event` trace of the effects the wrapper has on
  the outside world: the environment probe, native `init`, detect and
  `dispose` calls, and `AllocHGlobal`/`FreeHGlobal`. The native engine is an
  uninterpreted oracle, `Engine = NativeRequest -> NativeReply`.
- `Initialization` (`initialization.dfy`) covers backend selection, the
  dispatch to the native `init`, and the class-name table.
- `Decoding` (`decoding.dfy`) covers `Convert`: filtering, box copying and
  name lookup.
- `Detection` (`detection.dfy`) covers `Detect(string)`, the
  `Detect(byte[])` staging method with its copy loop, and `Dispose`.

Effects appear as a trace in the result, not as hidden state. This lets
"nothing is probed before the 64-bit check" and "the buffer is freed on
every path" be stated about ordinary return values.

Some behaviours of the source worth knowing, all modelled as written:

- the source ignores the count that native detection returns;
- `Convert` scans every slot of the fixed-capacity container;
- `Dispose` does not reset the backend, so a second call calls the native
  `dispose` again;
- an exception inside the `try` of `Detect(byte[])` yields `null`, modelled as
  `Success(None)`, indistinguishable by type from a list;
- a decoding failure after the `finally` of `Detect(byte[])` propagates.

## Model

| member | source | states |
|---|---|---|
| YoloTypes.ToInt32 | src/Alturos.Yolo/YoloWrapper.cs:202-203 | The unchecked `(int)` cast of an unsigned field lies in the signed 32-bit range, agrees with the field modulo 2^32, and is non-negative exactly when the field is below 2^31. |
| Initialization.SelectSystem | src/Alturos.Yolo/YoloWrapper.cs:88-92 | Once the redistributable is present the backend is never Unknown. It is GPU if and only if both CUDA and cuDNN exist, otherwise CPU. |
| Initialization.InitDevice | src/Alturos.Yolo/YoloWrapper.cs:97-100 | The CPU `init` always gets device 0. The GPU `init` gets the caller's device index. |
| Initialization.InitCall | src/Alturos.Yolo/YoloWrapper.cs:94-102 | The `switch` makes no native init call for an Unknown backend and otherwise exactly one. That call is the chosen backend's init, with the caller's config and weights paths, device 0 on the CPU and the caller's device on the GPU. |
| Initialization.DictionaryAdd | src/Alturos.Yolo/YoloWrapper.cs:107 | `Dictionary.Add` fails exactly when the key is already present. Otherwise it adds the key with its value and keeps every other entry. |
| Initialization.BuildNameTable | src/Alturos.Yolo/YoloWrapper.cs:104-108 | Adding line i under key i never hits a duplicate key. The table's domain is exactly 0..n-1 for n lines, and key i maps to line i. |
| Initialization.Initialize | src/Alturos.Yolo/YoloWrapper.cs:75-108 | A non-64-bit process fails with NotSupported before anything is probed. A missing redistributable fails with DllNotFound after the probe, with no native init, whatever the CUDA/cuDNN flags say. Otherwise the trace is the probe followed by exactly the chosen backend's init. Construction succeeds if and only if both checks pass and the names file is readable. The wrapper then records a non-Unknown backend, GPU if and only if CUDA and cuDNN both exist, and a table mapping key i to line i. |
| Initialization.ExactlyOneInit | src/Alturos.Yolo/YoloWrapper.cs:94-102 | Once both checks pass, the trace holds exactly one native init. On success that init is for the wrapper's own backend with the device from InitDevice. This holds even when the names file then fails to load. |
| Initialization.NoInitOnEarlyFailure | src/Alturos.Yolo/YoloWrapper.cs:77-86 | A failed platform or redistributable check makes construction fail with no native init in the trace. |
| Decoding.RetainedIndices | src/Alturos.Yolo/YoloWrapper.cs:200 | Reference definition of the filter. It lists no more positions than there are candidates, and every listed position is a candidate with non-zero height or width. |
| Decoding.RetainedIndicesExact | src/Alturos.Yolo/YoloWrapper.cs:200 | The listed positions are strictly increasing and include every candidate with non-zero height or width. So there is one entry per kept candidate, none for a zero-size one, in input order. |
| Decoding.ConvertCandidates | src/Alturos.Yolo/YoloWrapper.cs:197-208 | A successful decode has no more items than there are candidates. |
| Decoding.ConvertFailsIff | src/Alturos.Yolo/YoloWrapper.cs:200-202 | Decoding fails if and only if some kept candidate's class id is missing from the table. The error is KeyNotFound for the first such candidate. Zero-size candidates never take part. |
| Decoding.ConvertItems | src/Alturos.Yolo/YoloWrapper.cs:199-207 | A successful decode has exactly one item per kept candidate, in input order. Item k has the k-th kept candidate's x, y, width, height (cast to int) and confidence, and the table's name for its class id. |
| Decoding.Convert | src/Alturos.Yolo/YoloWrapper.cs:197-208 | A container whose candidate array was never filled fails with a null-argument error. A filled container fails if and only if some kept candidate's class id has no name. Otherwise the result has exactly one item per kept candidate, in input order, with that candidate's cast box, its confidence and the table's name for its class id. |
| Decoding.DroppedIdsIgnored | src/Alturos.Yolo/YoloWrapper.cs:200-202 | Changing the class id of a zero-size candidate never changes the decode outcome. |
| Decoding.ConvertAppend | src/Alturos.Yolo/YoloWrapper.cs:199-205 | Decoding a concatenation is the first part's items followed by the second part's items. Failure comes from the first part if it fails there. |
| Decoding.CarExample | src/Alturos.Yolo/YoloWrapper.cs:199-207 | With the names person/car/dog, a car box (id 1, 10,20,30,40) followed by an empty slot decodes to exactly one item labelled "car" with that box. |
| Decoding.UnknownClassExample | src/Alturos.Yolo/YoloWrapper.cs:202 | Class id 5 with a three-name table fails with KeyNotFound(5) and returns no items. |
| Detection.DetectFile | src/Alturos.Yolo/YoloWrapper.cs:145-160 | Detect(string) calls the native detect-on-file of the wrapper's backend exactly once. A native exception propagates. A returned container is decoded. An Unknown backend makes no call and fails on the null candidate array. |
| Detection.DetectFileAfterInit | src/Alturos.Yolo/YoloWrapper.cs:145-160 | On a wrapper that initialized successfully, Detect(string) always reaches the native engine and never fails on a null container. A container of capacity MaxObjects decodes to at most MaxObjects items. |
| Detection.DetectFileIgnoresCount | src/Alturos.Yolo/YoloWrapper.cs:148-159 | The count returned by the native call has no effect: replies with the same container give the same outcome. |
| Detection.DetectBytes | src/Alturos.Yolo/YoloWrapper.cs:162-195 | An empty array fails with IndexOutOfRange before any allocation. A failed allocation fails with no free. Otherwise exactly one buffer of the input's length is allocated first and freed last. The native engine sees exactly the caller's bytes and length. The result is null if and only if the native call threw. A returned container is decoded after the free, and its decode failure propagates. An Unknown backend frees and then fails on the null container. |
| Detection.Dispose | src/Alturos.Yolo/YoloWrapper.cs:62-73 | Dispose calls at most one native dispose, and only the one for the wrapper's backend; it calls none exactly when the backend is Unknown. It fails, with the native exception, exactly when that native call throws. On success the wrapper is returned unchanged, backend included. |
| Detection.DisposeMatchesInit | src/Alturos.Yolo/YoloWrapper.cs:62-73 | A wrapper that initialized successfully disposes the very backend whose init ran. Disposing the wrapper that a successful Dispose returns calls the same native dispose again, so Dispose is not idempotent. |

## Left out

- The `DllImport` declarations and the native detector (src/Alturos.Yolo/YoloWrapper.cs:20-50) are foreign code. The engine is an uninterpreted function from request to reply: a count and a container, or an exception.
- The return codes of the native `init` and `dispose` are discarded by the source, so the model does not carry them. An exception thrown by the native `init` (for example a missing DLL) is not modelled.
- Environment probing (`GetEnvironmentReport`, src/Alturos.Yolo/YoloWrapper.cs:111-143) reads the registry, the file system and environment variables. The resulting `EnvironmentReport` is an input. The probe's own failure modes are not modelled: a missing registry key or DisplayName makes it throw a null-reference exception instead of returning a report.
- Reading the names file (src/Alturos.Yolo/YoloWrapper.cs:104) is host I/O. The file is given as its list of lines, or `None` when reading throws. Line splitting is not modelled.
- The confidence `prob` is a float. It is carried as its raw 32-bit pattern and never interpreted.
- The `bbox_t` and `BboxContainer` declarations and `YoloConfiguration` are not part of this model. The record's fields are taken as unsigned 32-bit, as in the native ABI. The marshalled container's capacity `MaxObjects` is stated as `WellFormedReply`.
- The two constructors (src/Alturos.Yolo/YoloWrapper.cs:52-60) only forward to `Initialize`. The configuration constructor is `Initialize` with device 0.
- `Marshal.Copy` cannot throw for a full copy into a buffer of the input's size, so the model has no exception there. The unmanaged pointer is represented by the buffer's contents.
- Null arguments are not modelled: `seq<byte>` and `string` cannot be null. A null `imageData` throws a null-reference exception at src/Alturos.Yolo/YoloWrapper.cs:166, before any allocation, just like the empty-array path that is modelled. Null configuration, weights and image file names go straight to native code; a null names-file name makes `File.ReadAllLines` throw, which is the modelled `None` case.
- `DetectionSystem` is a public, writable field (src/Alturos.Yolo/YoloWrapper.cs:17). The model has no field writes: a caller who changes the backend is represented by a `YoloWrapper` value with that backend, on which `Detect` and `Dispose` are modelled for every backend.
- src/Alturos.Yolo.TestUI/Main.cs is a WinForms test application: image loading, drawing and a background task. It is not part of the model.
- The source has no locking or concurrency, and neither does the model.
