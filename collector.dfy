/** The metric sample and the rule by which the system collector combines the
    answers of its CPU, RAM and GPU sub-collectors into one sample
    (internal/collector/collector.go). */
module Collector {
  import opened Wrappers

  /** An instant on the agent's clock, in nanoseconds. */
  type Time = int

  /** A Go float64, kept as its bit pattern: the core never looks inside one. */
  type Float64 = bv64

  /** A Go uint64. */
  newtype Uint64 = x: int | 0 <= x < 0x1_0000_0000_0000_0000

  /** A Go error value; only its identity matters to the core. */
  datatype Error = Error(message: string)

  datatype CPUMetrics = CPUMetrics(
    model: string,
    cores: int,
    threads: int,
    usage: Float64,
    loadAvg: seq<Float64>,
    frequencyMHz: Float64)

  datatype RAMMetrics = RAMMetrics(
    totalMB: Uint64,
    usedMB: Uint64,
    freeMB: Uint64,
    usage: Float64)

  datatype GPUMetrics = GPUMetrics(
    vendor: string,
    model: string,
    util: Float64,
    temperatureC: Float64,
    vramTotalMB: Uint64,
    vramUsedMB: Uint64)

  /** One snapshot; `gpu` is None when no GPU figures were obtained. */
  datatype MetricSample = MetricSample(
    timestamp: Time,
    cpu: CPUMetrics,
    ram: RAMMetrics,
    gpu: Option<GPUMetrics>)

  /** Go's zero values, which a freshly allocated sample starts from. */
  const ZeroCPU := CPUMetrics("", 0, 0, 0, [], 0)
  const ZeroRAM := RAMMetrics(0, 0, 0, 0)

  /** What a GPU sub-collector answered: Go returns a possibly nil pointer
      and a possibly nil error, independently of each other. */
  datatype GPUReading = GPUReading(metrics: Option<GPUMetrics>, err: Option<Error>)

  /** Everything one call of the system collector observes: the clock, read
      before any sub-collector runs, and the answers of the sub-collectors.
      `gpu` is None when the system collector has no GPU sub-collector. */
  datatype Readings = Readings(
    now: Time,
    cpu: Result<CPUMetrics, Error>,
    ram: Result<RAMMetrics, Error>,
    gpu: Option<GPUReading>)

  /** SystemCollector.Collect: CPU and RAM failures are fatal and are passed
      on unchanged, CPU first; the GPU is optional and any trouble with it
      merely leaves the sample without GPU figures. */
  function Collect(rd: Readings): (r: Result<MetricSample, Error>)
    ensures r.Ok? <==> rd.cpu.Ok? && rd.ram.Ok?
    ensures rd.cpu.Err? ==> r == Err(rd.cpu.error)
    ensures rd.cpu.Ok? && rd.ram.Err? ==> r == Err(rd.ram.error)
    ensures r.Ok? ==> r.value.timestamp == rd.now
    ensures r.Ok? ==> r.value.cpu == rd.cpu.value && r.value.ram == rd.ram.value
    ensures r.Ok? && rd.gpu.None? ==> r.value.gpu.None?
    ensures r.Ok? && rd.gpu.Some? && rd.gpu.value.err.Some? ==> r.value.gpu.None?
    ensures r.Ok? && rd.gpu.Some? && rd.gpu.value.err.None? ==> r.value.gpu == rd.gpu.value.metrics
  {
    var sample := MetricSample(rd.now, ZeroCPU, ZeroRAM, None);
    if rd.cpu.Err? then Err(rd.cpu.error)
    else
      var sample := sample.(cpu := rd.cpu.value);
      if rd.ram.Err? then Err(rd.ram.error)
      else
        var sample := sample.(ram := rd.ram.value);
        match rd.gpu
        case None => Ok(sample)
        case Some(reading) =>
          if reading.err.None? && reading.metrics.Some? then Ok(sample.(gpu := reading.metrics))
          else Ok(sample)
  }
}
