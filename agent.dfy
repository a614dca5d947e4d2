/** One tick of main.go's sampling loop, up to the hand-over to the sFlow
    encoder: the counter records that the readers produced, in a counter sample. */
module Agent {
  import opened Base
  import opened MemInfo

  /** The records an sflow.CounterSample carries. The CPU record is opaque
      here: `Cpu` stands for sflow.HostCPUCounters. */
  datatype Record<Cpu> = HostCpu(cpu: Cpu) | HostMemory(mem: MemoryCounters)

  /** sflow.CounterSample, of which main fills in only Records. */
  datatype CounterSample<Cpu> = CounterSample(records: seq<Record<Cpu>>)

  function Successes<Cpu>(cpu: Result<Cpu>, mem: Result<MemoryCounters>): nat {
    (if cpu.Ok? then 1 else 0) + (if mem.Ok? then 1 else 0)
  }

  /** Lines 37-50: append the record of each reader that returned no error,
      CPU first, then set the sample's records. */
  method AssembleBatch<Cpu>(cpu: Result<Cpu>, mem: Result<MemoryCounters>) returns (cs: CounterSample<Cpu>)
    ensures |cs.records| == Successes(cpu, mem)
    ensures forall c :: HostCpu(c) in cs.records <==> cpu == Ok(c)
    ensures forall m :: HostMemory(m) in cs.records <==> mem == Ok(m)
    ensures forall i, j ::
      (0 <= i < |cs.records| && 0 <= j < |cs.records| && cs.records[i].HostCpu? && cs.records[j].HostMemory?)
      ==> i < j
  {
    var stats: seq<Record<Cpu>> := [];
    if cpu.Ok? {
      stats := stats + [HostCpu(cpu.value)];
    }
    if mem.Ok? {
      stats := stats + [HostMemory(mem.value)];
    }
    cs := CounterSample(stats);
  }

  /** One tick: `cpu` is what getCpuStats returned and `meminfo` the readable
      content of /proc/meminfo (None if it cannot be opened). The sample holds
      the memory record exactly when the file could be opened, and that record
      is the one the file's lines determine. */
  method Tick<Cpu>(cpu: Result<Cpu>, meminfo: Option<string>) returns (cs: CounterSample<Cpu>)
    ensures |cs.records| == (if cpu.Ok? then 1 else 0) + (if meminfo.Some? then 1 else 0)
    ensures forall c :: HostCpu(c) in cs.records <==> cpu == Ok(c)
    ensures forall m :: HostMemory(m) in cs.records <==> meminfo.Some? && m == MemStats(meminfo.value)
    ensures forall i, j ::
      (0 <= i < |cs.records| && 0 <= j < |cs.records| && cs.records[i].HostCpu? && cs.records[j].HostMemory?)
      ==> i < j
  {
    var mem := GetMemStats(meminfo);
    cs := AssembleBatch(cpu, mem);
  }
}
