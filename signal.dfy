/** `SubGHzSignal`: a captured signal whose analysis fills in its pulses,
    its estimated bit rate and, when a catalog protocol decodes it, its
    decoded bytes and protocol name. Samples are held as their amplitudes. */
module SubGhzSignals {
  import opened Common
  import opened ProtocolRegistry
  import opened SignalAnalyzer

  /** `extract_pulses`' default threshold. */
  const PulseThreshold: real := 0.5
  /** `get_protocols_for_frequency`' default tolerance. */
  const FrequencyTolerance: real := 0.1
  /** `decode_manchester`' default tolerance. */
  const ManchesterTolerance: real := 0.2

  /** A protocol recognised in a signal, with the bytes it decoded. */
  datatype Detection = Detection(protocol: string, data: seq<byte>)

  /** A candidate accepts the pulses when it has the signal's modulation,
      decodes Manchester, and the decode yields at least one byte (`None`
      and `b''` are both falsy). */
  predicate Accepts(info: ProtocolInfo, modulation: ModulationType, pulses: seq<int>)
  {
    && info.modulation == modulation
    && info.decodeType == Manchester
    && var data := ManchesterDecode(pulses, ManchesterTolerance);
       data.Some? && |data.value| > 0
  }

  /** The first accepting candidate, in order, with the decoded bytes. */
  function FirstDetection(candidates: seq<ProtocolInfo>, modulation: ModulationType, pulses: seq<int>)
    : (r: Option<Detection>)
    ensures r.None? <==> forall k :: 0 <= k < |candidates| ==> !Accepts(candidates[k], modulation, pulses)
    ensures r.Some? ==>
      exists k :: 0 <= k < |candidates| && Accepts(candidates[k], modulation, pulses)
        && (forall j :: 0 <= j < k ==> !Accepts(candidates[j], modulation, pulses))
        && r.value == Detection(candidates[k].name, ManchesterDecode(pulses, ManchesterTolerance).value)
  {
    if candidates == [] then None
    else if Accepts(candidates[0], modulation, pulses) then
      Some(Detection(candidates[0].name, ManchesterDecode(pulses, ManchesterTolerance).value))
    else
      var r := FirstDetection(candidates[1..], modulation, pulses);
      assert forall k :: 1 <= k < |candidates| ==> candidates[k] == candidates[1..][k - 1];
      r
  }

  /** The protocol `analyze` settles on for a signal at `frequency` with
      the given modulation and pulses. */
  function DetectProtocol(frequency: real, modulation: ModulationType, pulses: seq<int>): Option<Detection>
  {
    FirstDetection(MatchingProtocols(Protocols, frequency, FrequencyTolerance), modulation, pulses)
  }

  /** A detection always carries non-empty bytes that the pulses decode to,
      under the name of a Manchester catalog entry with the signal's
      modulation and in band with it. */
  lemma DetectionIsSound(frequency: real, modulation: ModulationType, pulses: seq<int>)
    requires DetectProtocol(frequency, modulation, pulses).Some?
    ensures var d := DetectProtocol(frequency, modulation, pulses).value;
      && ManchesterDecode(pulses, ManchesterTolerance) == Some(d.data)
      && |d.data| > 0
      && exists i :: 0 <= i < |Protocols| && Protocols[i].info.name == d.protocol
           && Protocols[i].info.modulation == modulation
           && Protocols[i].info.decodeType == Manchester
           && AnyInBand(Protocols[i].info.frequencies, frequency, FrequencyTolerance)
  {
    var candidates := MatchingProtocols(Protocols, frequency, FrequencyTolerance);
    MatchingProtocolsMembers(Protocols, frequency, FrequencyTolerance);
    var k :| 0 <= k < |candidates| && Accepts(candidates[k], modulation, pulses)
      && DetectProtocol(frequency, modulation, pulses).value
         == Detection(candidates[k].name, ManchesterDecode(pulses, ManchesterTolerance).value);
    assert candidates[k] in candidates;
  }

  /** One step of the first-match scan: the candidate at `k` either
      accepts, or the search goes on after it. */
  lemma FirstDetectionStep(candidates: seq<ProtocolInfo>, k: nat, modulation: ModulationType, pulses: seq<int>)
    requires k < |candidates|
    ensures FirstDetection(candidates[k..], modulation, pulses)
      == if Accepts(candidates[k], modulation, pulses)
         then Some(Detection(candidates[k].name, ManchesterDecode(pulses, ManchesterTolerance).value))
         else FirstDetection(candidates[k + 1..], modulation, pulses)
  {
    assert candidates[k..][0] == candidates[k];
    assert candidates[k..][1..] == candidates[k + 1..];
  }

  /** At 433.92 MHz an ASK signal whose pulses decode to some bytes is
      labelled Princeton. */
  lemma DetectPrincetonAt43392(pulses: seq<int>, data: seq<byte>)
    requires ManchesterDecode(pulses, ManchesterTolerance) == Some(data) && |data| > 0
    ensures DetectProtocol(433.92, ASK, pulses) == Some(Detection("Princeton", data))
  {
    MatchingProtocolsExample();
    var c := MatchingProtocols(Protocols, 433.92, FrequencyTolerance);
    FirstDetectionStep(c, 0, ASK, pulses);
    assert c[0..] == c;
  }

  /** At 433.92 MHz an FSK signal whose pulses decode to some bytes is
      labelled KeeLoq: Princeton, listed first, is ASK. */
  lemma DetectKeeLoqAt43392(pulses: seq<int>, data: seq<byte>)
    requires ManchesterDecode(pulses, ManchesterTolerance) == Some(data) && |data| > 0
    ensures DetectProtocol(433.92, FSK, pulses) == Some(Detection("KeeLoq", data))
  {
    MatchingProtocolsExample();
    var c := MatchingProtocols(Protocols, 433.92, FrequencyTolerance);
    FirstDetectionStep(c, 0, FSK, pulses);
    FirstDetectionStep(c, 1, FSK, pulses);
    assert c[0..] == c;
  }

  /** No entry listed at 433.92 MHz is OOK, so an OOK signal there is never
      labelled, whatever its pulses. */
  lemma NoOokProtocolAt43392(pulses: seq<int>)
    ensures DetectProtocol(433.92, OOK, pulses) == None
  {
    MatchingProtocolsExample();
  }

  /** Samples 0, 0, 1, 1 change level once, which makes no pulse. */
  lemma SingleStepHasNoPulses()
    ensures PulsesOf(Threshold([0.0, 0.0, 1.0, 1.0], PulseThreshold)) == []
  {
    var b := Threshold([0.0, 0.0, 1.0, 1.0], PulseThreshold);
    assert b == [false, false, true, true];
    assert TransitionsBelow(b, 1) == [];
    assert TransitionsBelow(b, 2) == [1];
    assert TransitionsBelow(b, 3) == [1];
    assert TransitionsBelow(b, 4) == [1];
  }

  /** What `analyze` writes: the pulses, the metadata holding `bit_rate`,
      the decoded bytes and the protocol name. */
  datatype Analysis = Analysis(
    pulses: seq<int>,
    metadata: map<string, real>,
    decodedData: Option<seq<byte>>,
    protocol: Option<string>)

  /** The state `analyze` leaves, from the samples, the signal's frequency
      and modulation and the state before. Without samples nothing changes;
      without pulses only the pulses are reset; otherwise the bit rate is
      recorded and a detection, if any, overwrites the decoded bytes and
      the protocol name. */
  function Analyzed(samples: seq<real>, frequency: real, modulation: ModulationType, before: Analysis)
    : Analysis
  {
    if samples == [] then before
    else
      var p := PulsesOf(Threshold(samples, PulseThreshold));
      if p == [] then before.(pulses := p)
      else
        PulsesArePositive(Threshold(samples, PulseThreshold));
        var detected := DetectProtocol(frequency, modulation, p);
        Analysis(
          p,
          before.metadata["bit_rate" := BitRate(p)],
          if detected.Some? then Some(detected.value.data) else before.decodedData,
          if detected.Some? then Some(detected.value.protocol) else before.protocol)
  }

  /** Analysing again changes nothing: the pulses and the bit rate are
      recomputed to the same values, and the detection is the same. */
  lemma AnalyzedIsIdempotent(samples: seq<real>, frequency: real, modulation: ModulationType, before: Analysis)
    ensures var once := Analyzed(samples, frequency, modulation, before);
      Analyzed(samples, frequency, modulation, once) == once
  {
    var p := PulsesOf(Threshold(samples, PulseThreshold));
    if samples != [] && p != [] {
      PulsesArePositive(Threshold(samples, PulseThreshold));
      var once := Analyzed(samples, frequency, modulation, before);
      assert once.metadata["bit_rate" := BitRate(p)] == once.metadata;
    }
  }

  /** Once there are pulses, `bit_rate` holds a positive rate and every
      other metadata entry is kept. */
  lemma AnalyzedRecordsBitRate(samples: seq<real>, frequency: real, modulation: ModulationType, before: Analysis)
    requires samples != []
    ensures var after := Analyzed(samples, frequency, modulation, before);
      && after.pulses == PulsesOf(Threshold(samples, PulseThreshold))
      && (after.pulses != [] ==>
            && "bit_rate" in after.metadata
            && after.metadata["bit_rate"] > 0.0
            && forall key :: key != "bit_rate" ==>
                 (key in after.metadata <==> key in before.metadata)
                 && (key in before.metadata ==> after.metadata[key] == before.metadata[key]))
  {
    var p := PulsesOf(Threshold(samples, PulseThreshold));
    if p != [] {
      PulsesArePositive(Threshold(samples, PulseThreshold));
      BitRatePositive(p);
    }
  }

  /** When analysis changes the protocol name, the new name is that of a
      Manchester catalog entry with the signal's modulation and a
      frequency in band,
      and the decoded bytes are the non-empty Manchester decode of the
      pulses. */
  lemma AnalyzedDetectionIsSound(samples: seq<real>, frequency: real, modulation: ModulationType, before: Analysis)
    requires Analyzed(samples, frequency, modulation, before).protocol != before.protocol
    ensures var after := Analyzed(samples, frequency, modulation, before);
      && after.protocol.Some? && after.decodedData.Some?
      && ManchesterDecode(after.pulses, ManchesterTolerance) == after.decodedData
      && |after.decodedData.value| > 0
      && exists i :: 0 <= i < |Protocols| && Protocols[i].info.name == after.protocol.value
           && Protocols[i].info.modulation == modulation
           && Protocols[i].info.decodeType == Manchester
           && AnyInBand(Protocols[i].info.frequencies, frequency, FrequencyTolerance)
  {
    var p := PulsesOf(Threshold(samples, PulseThreshold));
    DetectionIsSound(frequency, modulation, p);
  }

  class SubGHzSignal {
    var frequency: real
    var modulation: ModulationType
    /** `np.abs(raw_samples)`: the amplitude of each captured sample. */
    var rawSamples: seq<real>
    var pulses: seq<int>
    var decodedData: Option<seq<byte>>
    var protocol: Option<string>
    /** `metadata`; analysis writes the `bit_rate` entry. */
    var metadata: map<string, real>

    /** `SubGHzSignal(frequency, modulation)`: no samples, no pulses,
        nothing decoded. */
    constructor (frequency: real, modulation: ModulationType)
      ensures this.frequency == frequency && this.modulation == modulation
      ensures rawSamples == [] && pulses == []
      ensures decodedData == None && protocol == None && metadata == map[]
    {
      this.frequency := frequency;
      this.modulation := modulation;
      rawSamples := [];
      pulses := [];
      decodedData := None;
      protocol := None;
      metadata := map[];
    }

    /** `add_samples`: append to the captured samples. */
    method AddSamples(samples: seq<real>)
      modifies this`rawSamples
      ensures rawSamples == old(rawSamples) + samples
    {
      rawSamples := rawSamples + samples;
    }

    /** The fields `analyze` writes, as one value. */
    function Snapshot(): Analysis
      reads this
    {
      Analysis(pulses, metadata, decodedData, protocol)
    }

    /** `analyze`: extract the pulses; if there are any, record the bit
        rate and try the catalog entries in band with the signal, keeping
        the first that accepts the pulses. */
    method Analyze()
      modifies this`pulses, this`metadata, this`decodedData, this`protocol
      ensures Snapshot() == Analyzed(rawSamples, frequency, modulation, old(Snapshot()))
    {
      var after := AnalyzeSamples(rawSamples, frequency, modulation, Snapshot());
      pulses, metadata, decodedData, protocol := after.pulses, after.metadata, after.decodedData, after.protocol;
    }
  }

  /** The body of `analyze`, on the values it reads and writes. */
  method AnalyzeSamples(samples: seq<real>, frequency: real, modulation: ModulationType, before: Analysis)
    returns (after: Analysis)
    ensures after == Analyzed(samples, frequency, modulation, before)
  {
    if |samples| == 0 {
      return before;
    }
    var extracted := ExtractPulses(samples, PulseThreshold);
    if extracted == [] {
      return before.(pulses := extracted);
    }
    PulsesArePositive(Threshold(samples, PulseThreshold));
    var bitRate := DetectBitRate(extracted);
    var found := IdentifyProtocol(frequency, modulation, extracted);
    after := Analysis(extracted, before.metadata["bit_rate" := bitRate], before.decodedData, before.protocol);
    if found.Some? {
      after := after.(decodedData := Some(found.value.data), protocol := Some(found.value.protocol));
    }
  }

  /** The protocol loop of `analyze`: among the catalog entries in band
      with the signal, in catalog order, the first with the signal's
      modulation and Manchester decoding whose decode of the pulses is
      non-empty. */
  method IdentifyProtocol(frequency: real, modulation: ModulationType, pulses: seq<int>)
    returns (found: Option<Detection>)
    ensures found == DetectProtocol(frequency, modulation, pulses)
  {
    var candidates := GetProtocolsForFrequency(Protocols, frequency, FrequencyTolerance);
    for k := 0 to |candidates|
      invariant FirstDetection(candidates[k..], modulation, pulses) == DetectProtocol(frequency, modulation, pulses)
    {
      var info := candidates[k];
      FirstDetectionStep(candidates, k, modulation, pulses);
      if info.modulation == modulation {
        if info.decodeType == Manchester {
          var data := DecodeManchester(pulses, ManchesterTolerance);
          if data.Some? && |data.value| > 0 {
            return Some(Detection(info.name, data.value));
          }
        }
      }
    }
    assert candidates[|candidates|..] == [];
    return None;
  }

  /** A signal with no samples analyses to nothing, and one whose samples
      never cross the threshold twice gets no pulses and no protocol. */
  method AnalyzeFlatSignal() returns (s: SubGHzSignal)
    ensures s.pulses == [] && s.decodedData == None && s.protocol == None && s.metadata == map[]
  {
    s := new SubGHzSignal(433.92, ASK);
    s.Analyze();
    s.AddSamples([0.0, 0.0, 1.0, 1.0]);
    assert s.rawSamples == [0.0, 0.0, 1.0, 1.0];
    SingleStepHasNoPulses();
    s.Analyze();
  }
}
