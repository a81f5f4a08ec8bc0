/** `SignalAnalyzer`: pulse extraction from thresholded amplitudes, bit-rate
    estimation from the most common pulse length, and all-or-nothing
    Manchester decoding with MSB-first byte packing. Samples are given as
    their amplitudes (`np.abs(samples)`). */
module SignalAnalyzer {
  import opened Common

  // ---------------------------------------------------------------------
  // Pulse extraction

  /** `amplitude > threshold`, sample by sample. */
  function Threshold(amplitudes: seq<real>, threshold: real): (b: seq<bool>)
    ensures |b| == |amplitudes|
  {
    seq(|amplitudes|, i requires 0 <= i < |amplitudes| => amplitudes[i] > threshold)
  }

  /** Index `i` is a transition when the thresholded signal changes
      between `i` and `i + 1` (`np.diff(...) != 0`). */
  predicate IsTransition(b: seq<bool>, i: int)
  {
    0 <= i < |b| - 1 && b[i] != b[i + 1]
  }

  /** The transition indices below `k`, in increasing order. */
  function TransitionsBelow(b: seq<bool>, k: nat): seq<int>
  {
    if k == 0 then []
    else TransitionsBelow(b, k - 1) + (if IsTransition(b, k - 1) then [k - 1] else [])
  }

  /** `np.where(transitions != 0)[0]`. */
  function Transitions(b: seq<bool>): seq<int>
  {
    TransitionsBelow(b, |b|)
  }

  predicate StrictlyIncreasing(t: seq<int>)
  {
    forall i, j :: 0 <= i < j < |t| ==> t[i] < t[j]
  }

  /** The transition list holds exactly the transition indices, in
      increasing order. */
  lemma {:induction false} TransitionsBelowExact(b: seq<bool>, k: nat)
    ensures StrictlyIncreasing(TransitionsBelow(b, k))
    ensures forall i :: i in TransitionsBelow(b, k) <==> i < k && IsTransition(b, i)
  {
    if k > 0 {
      var prev := TransitionsBelow(b, k - 1);
      TransitionsBelowExact(b, k - 1);
      var t := TransitionsBelow(b, k);
      forall i, j | 0 <= i < j < |t| ensures t[i] < t[j] {
        if j == |prev| {
          assert prev[i] in prev;
        }
      }
    }
  }

  /** The distances between consecutive transition indices. */
  function Gaps(t: seq<int>): (g: seq<int>)
    ensures |g| == if t == [] then 0 else |t| - 1
  {
    if |t| < 2 then []
    else seq(|t| - 1, i requires 0 <= i < |t| - 1 => t[i + 1] - t[i])
  }

  /** The pulse lengths `extract_pulses` returns for a thresholded signal. */
  function PulsesOf(b: seq<bool>): seq<int>
  {
    var t := Transitions(b);
    if |t| < 2 then [] else Gaps(t)
  }

  function Sum(s: seq<int>): int
  {
    if s == [] then 0 else Sum(s[..|s| - 1]) + s[|s| - 1]
  }

  /** The gaps of an increasing list telescope to its span. */
  lemma {:induction false} GapsTelescope(t: seq<int>)
    requires |t| >= 1
    ensures Sum(Gaps(t)) == t[|t| - 1] - t[0]
  {
    if |t| >= 2 {
      var init := t[..|t| - 1];
      GapsTelescope(init);
      assert Gaps(t)[..|t| - 2] == Gaps(init);
    }
  }

  /** Fewer than two transitions give no pulses; otherwise there is one
      positive pulse per consecutive pair of transitions, and together they
      span from the first transition to the last. */
  lemma PulsesOfProperties(b: seq<bool>)
    ensures var t := Transitions(b);
      && (|t| < 2 ==> PulsesOf(b) == [])
      && (|t| >= 2 ==> |PulsesOf(b)| == |t| - 1 && Sum(PulsesOf(b)) == t[|t| - 1] - t[0])
      && (forall i :: 0 <= i < |PulsesOf(b)| ==> PulsesOf(b)[i] > 0)
      && (forall i :: i in t <==> IsTransition(b, i))
  {
    var t := Transitions(b);
    TransitionsBelowExact(b, |b|);
    if |t| >= 2 {
      GapsTelescope(t);
    }
  }

  /** Every pulse is at least one sample long. */
  lemma PulsesArePositive(b: seq<bool>)
    ensures forall i :: 0 <= i < |PulsesOf(b)| ==> PulsesOf(b)[i] > 0
  {
    TransitionsBelowExact(b, |b|);
  }

  /** `extract_pulses`: threshold the amplitudes, find the transitions and
      collect the gaps between consecutive ones. */
  method ExtractPulses(amplitudes: seq<real>, threshold: real) returns (pulses: seq<int>)
    ensures pulses == PulsesOf(Threshold(amplitudes, threshold))
  {
    var binary := Threshold(amplitudes, threshold);
    var points := Transitions(binary);
    if |points| < 2 {
      return [];
    }
    pulses := [];
    for i := 0 to |points| - 1
      invariant |pulses| == i
      invariant forall k :: 0 <= k < i ==> pulses[k] == points[k + 1] - points[k]
    {
      pulses := pulses + [points[i + 1] - points[i]];
    }
  }

  /** The samples 0, 0, 1, 1, 0, 0 change level twice (after index 1 and
      after index 3), which makes one pulse of length 2. */
  lemma ExtractPulsesExample()
    ensures PulsesOf(Threshold([0.0, 0.0, 1.0, 1.0, 0.0, 0.0], 0.5)) == [2]
  {
    var b := Threshold([0.0, 0.0, 1.0, 1.0, 0.0, 0.0], 0.5);
    assert b == [false, false, true, true, false, false];
    assert TransitionsBelow(b, 1) == [];
    assert TransitionsBelow(b, 2) == [1];
    assert TransitionsBelow(b, 3) == [1];
    assert TransitionsBelow(b, 4) == [1, 3];
    assert TransitionsBelow(b, 5) == [1, 3];
    assert TransitionsBelow(b, 6) == [1, 3];
  }

  // ---------------------------------------------------------------------
  // Bit-rate estimation

  /** How often `v` occurs in `s`. */
  function Count(s: seq<int>, v: int): nat
  {
    multiset(s)[v]
  }

  /** The distinct values of `s` in order of first occurrence: the key
      order of the `pulse_counts` dictionary. */
  function Distinct(s: seq<int>): (d: seq<int>)
    ensures forall v :: v in d <==> v in s
  {
    if s == [] then []
    else
      var d := Distinct(s[..|s| - 1]);
      assert s == s[..|s| - 1] + [s[|s| - 1]];
      if s[|s| - 1] in d then d else d + [s[|s| - 1]]
  }

  /** `j` is the index where `v` first occurs in `s`. */
  predicate IsFirstIndex(s: seq<int>, v: int, j: int)
  {
    0 <= j < |s| && s[j] == v && forall k :: 0 <= k < j ==> s[k] != v
  }

  lemma {:induction false} FirstIndexExists(s: seq<int>, v: int) returns (j: nat)
    requires v in s
    ensures IsFirstIndex(s, v, j)
  {
    if s[0] == v {
      j := 0;
    } else {
      var j' := FirstIndexExists(s[1..], v);
      j := j' + 1;
    }
  }

  lemma FirstIndexUnique(s: seq<int>, v: int, j1: int, j2: int)
    requires IsFirstIndex(s, v, j1) && IsFirstIndex(s, v, j2)
    ensures j1 == j2
  {
  }

  lemma FirstIndexInExtension(s: seq<int>, x: int, v: int, j: int)
    requires IsFirstIndex(s, v, j)
    ensures IsFirstIndex(s + [x], v, j)
  {
    assert forall k :: 0 <= k < |s| ==> (s + [x])[k] == s[k];
  }

  /** Keys of the count dictionary are listed in order of first
      occurrence, each once. */
  lemma {:induction false} DistinctInFirstOccurrenceOrder(s: seq<int>)
    ensures forall a, b :: 0 <= a < b < |Distinct(s)| ==> Distinct(s)[a] != Distinct(s)[b]
    ensures forall a, b, ja, jb ::
      (0 <= a < b < |Distinct(s)| && IsFirstIndex(s, Distinct(s)[a], ja) && IsFirstIndex(s, Distinct(s)[b], jb))
      ==> ja < jb
  {
    if s != [] {
      var init := s[..|s| - 1];
      var x := s[|s| - 1];
      DistinctInFirstOccurrenceOrder(init);
      var d := Distinct(s);
      forall a, b, ja, jb | 0 <= a < b < |d| && IsFirstIndex(s, d[a], ja) && IsFirstIndex(s, d[b], jb)
        ensures ja < jb
      {
        var di := Distinct(init);
        assert d[a] in init;
        var ia := FirstIndexExists(init, d[a]);
        FirstIndexInExtension(init, x, d[a], ia);
        FirstIndexUnique(s, d[a], ia, ja);
        if b < |di| {
          var ib := FirstIndexExists(init, d[b]);
          FirstIndexInExtension(init, x, d[b], ib);
          FirstIndexUnique(s, d[b], ib, jb);
        } else {
          assert d[b] == x && x !in init;
          assert IsFirstIndex(s, x, |s| - 1);
          FirstIndexUnique(s, x, |s| - 1, jb);
        }
      }
    }
  }

  /** The `pulse_counts` dictionary once every pulse is counted: each
      pulse adds one to its length's entry, creating it at 0 when absent. */
  function Counts(s: seq<int>): (counts: map<int, nat>)
    ensures forall v :: v in counts <==> v in s
  {
    if s == [] then map[]
    else
      var counts := Counts(s[..|s| - 1]);
      var x := s[|s| - 1];
      assert s == s[..|s| - 1] + [x];
      counts[x := (if x in counts then counts[x] else 0) + 1]
  }

  /** Each entry of the dictionary is the number of times its length
      occurs. */
  lemma {:induction false} CountsAreOccurrences(s: seq<int>)
    ensures forall v :: v in Counts(s) ==> Counts(s)[v] == Count(s, v)
  {
    if s != [] {
      var init, x := s[..|s| - 1], s[|s| - 1];
      CountsAreOccurrences(init);
      assert s == init + [x];
      assert multiset(s) == multiset(init) + multiset{x};
    }
  }

  /** `max(counts.items(), key=lambda x: x[1])[0]` over the keys in
      `keys`: the running maximum is replaced only by a strictly larger
      count, so the first key with the largest count wins. */
  function BestOf(keys: seq<int>, counts: map<int, nat>): (best: int)
    requires |keys| > 0
    requires forall i :: 0 <= i < |keys| ==> keys[i] in counts
    ensures best in keys
  {
    if |keys| == 1 then keys[0]
    else
      var b := BestOf(keys[..|keys| - 1], counts);
      if counts[keys[|keys| - 1]] > counts[b] then keys[|keys| - 1] else b
  }

  /** The key chosen has the largest count, and every key before it has a
      strictly smaller one. */
  lemma {:induction false} BestOfIsFirstMaximum(keys: seq<int>, counts: map<int, nat>) returns (k: nat)
    requires |keys| > 0
    requires forall i :: 0 <= i < |keys| ==> keys[i] in counts
    ensures k < |keys| && keys[k] == BestOf(keys, counts)
    ensures forall j :: 0 <= j < |keys| ==> counts[keys[j]] <= counts[BestOf(keys, counts)]
    ensures forall j :: 0 <= j < k ==> counts[keys[j]] < counts[BestOf(keys, counts)]
  {
    if |keys| == 1 {
      k := 0;
    } else {
      var init := keys[..|keys| - 1];
      var k' := BestOfIsFirstMaximum(init, counts);
      if counts[keys[|keys| - 1]] > counts[BestOf(init, counts)] {
        k := |keys| - 1;
      } else {
        k := k';
      }
    }
  }

  /** Every key in the key order has a count. */
  lemma DistinctKeysCounted(s: seq<int>)
    requires |s| > 0
    ensures |Distinct(s)| > 0
    ensures forall i :: 0 <= i < |Distinct(s)| ==> Distinct(s)[i] in Counts(s)
  {
    assert s[0] in Distinct(s);
    forall i | 0 <= i < |Distinct(s)| ensures Distinct(s)[i] in Counts(s) {
      assert Distinct(s)[i] in Distinct(s);
    }
  }

  /** The most common pulse length, ties going to the one seen first. */
  function Mode(s: seq<int>): (m: int)
    requires |s| > 0
    ensures m in s
  {
    DistinctKeysCounted(s);
    BestOf(Distinct(s), Counts(s))
  }

  /** The mode occurs at least as often as any value, and a value occurring
      equally often does not occur before it. */
  lemma ModeIsFirstMostFrequent(s: seq<int>)
    requires |s| > 0
    ensures forall v :: Count(s, v) <= Count(s, Mode(s))
    ensures forall i :: 0 <= i < |s| && Count(s, s[i]) == Count(s, Mode(s)) ==>
      exists j :: 0 <= j <= i && s[j] == Mode(s)
  {
    var d := Distinct(s);
    var counts := Counts(s);
    CountsAreOccurrences(s);
    assert s[0] in d;
    var k := BestOfIsFirstMaximum(d, counts);
    DistinctInFirstOccurrenceOrder(s);
    forall v ensures Count(s, v) <= Count(s, Mode(s)) {
      if v in s {
        assert v in d;
        var b :| 0 <= b < |d| && d[b] == v;
      }
    }
    forall i | 0 <= i < |s| && Count(s, s[i]) == Count(s, Mode(s))
      ensures exists j :: 0 <= j <= i && s[j] == Mode(s)
    {
      assert s[i] in s && s[i] in d;
      var b :| 0 <= b < |d| && d[b] == s[i];
      if b == k {
        assert s[i] == Mode(s);
      } else {
        assert b > k;
        var jm := FirstIndexExists(s, d[k]);
        var jv := FirstIndexExists(s, d[b]);
        assert jm < jv <= i;
      }
    }
  }

  /** The estimate `detect_bit_rate` returns: 0.0 without pulses, and
      otherwise 1 000 000 divided by the most common pulse length. */
  function BitRate(pulses: seq<int>): real
    requires forall i :: 0 <= i < |pulses| ==> pulses[i] > 0
  {
    if pulses == [] then 0.0 else RateFromBase(Mode(pulses))
  }

  /** `1_000_000 / base_pulse`: one pulse of the base length per bit, with
      pulse lengths taken in microseconds. */
  function RateFromBase(base: int): real
    requires base > 0
  {
    1000000.0 / (base as real)
  }

  /** A non-empty pulse list gives a positive rate. */
  lemma BitRatePositive(pulses: seq<int>)
    requires forall i :: 0 <= i < |pulses| ==> pulses[i] > 0
    requires pulses != []
    ensures BitRate(pulses) > 0.0
  {
    var m := Mode(pulses);
    assert m > 0;
  }

  /** One more pulse: a new length is appended to the order, and its count
      goes up by one. */
  lemma DistinctCountsStep(s: seq<int>, i: nat)
    requires i < |s|
    ensures var counts := Counts(s[..i]);
      Distinct(s[..i + 1]) == if s[i] in counts then Distinct(s[..i]) else Distinct(s[..i]) + [s[i]]
    ensures var counts := Counts(s[..i]);
      Counts(s[..i + 1]) == counts[s[i] := (if s[i] in counts then counts[s[i]] else 0) + 1]
  {
    assert s[..i + 1][..i] == s[..i];
  }

  /** The counting loop of `detect_bit_rate`: the dictionary of counts,
      and its keys in first-insertion order. */
  method CountPulses(pulses: seq<int>) returns (order: seq<int>, counts: map<int, nat>)
    ensures order == Distinct(pulses) && counts == Counts(pulses)
  {
    counts := map[];
    order := [];
    for i := 0 to |pulses|
      invariant order == Distinct(pulses[..i])
      invariant counts == Counts(pulses[..i])
    {
      var pulse := pulses[i];
      DistinctCountsStep(pulses, i);
      if pulse !in counts {
        order := order + [pulse];
      }
      counts := counts[pulse := (if pulse in counts then counts[pulse] else 0) + 1];
    }
    assert order == Distinct(pulses) && counts == Counts(pulses) by {
      assert pulses[..|pulses|] == pulses;
    }
  }

  /** `detect_bit_rate`: count each pulse length in a dictionary, pick the
      first key with the largest count, and convert it to bits per second. */
  method DetectBitRate(pulses: seq<int>) returns (rate: real)
    requires forall i :: 0 <= i < |pulses| ==> pulses[i] > 0
    ensures rate == BitRate(pulses)
  {
    if pulses == [] {
      return 0.0;
    }
    var order, counts := CountPulses(pulses);
    DistinctKeysCounted(pulses);
    var best := BestOf(order, counts);
    assert best == Mode(pulses) && best in pulses;
    rate := RateFromBase(best);
  }

  /** No pulses give 0.0; for 5, 5, 5, 7 the base length is 5 and the
      estimate 200 000 bits per second. */
  lemma BitRateExamples()
    ensures BitRate([]) == 0.0
    ensures BitRate([5, 5, 5, 7]) == 200000.0
  {
    CountsExample();
    assert [5, 7][..1] == [5];
    assert Mode([5, 5, 5, 7]) == 5;
  }

  /** For 5, 5, 5, 7 the dictionary is {5: 3, 7: 1}, with 5 inserted
      first. */
  lemma CountsExample()
    ensures Distinct([5, 5, 5, 7]) == [5, 7] && Counts([5, 5, 5, 7]) == map[5 := 3, 7 := 1]
  {
    var s := [5, 5, 5, 7];
    assert s[..3] == [5, 5, 5] && [5, 5, 5][..2] == [5, 5] && [5, 5][..1] == [5] && [5][..0] == [];
    assert Distinct([5]) == [5] && Counts([5]) == map[5 := 1];
    assert Distinct([5, 5]) == [5] && Counts([5, 5]) == map[5 := 2];
    assert Distinct([5, 5, 5]) == [5] && Counts([5, 5, 5]) == map[5 := 3];
  }

  // ---------------------------------------------------------------------
  // Manchester decoding

  /** `min(pulses)`. */
  function SeqMin(s: seq<int>): (m: int)
    requires |s| > 0
    ensures m in s
    ensures forall i :: 0 <= i < |s| ==> m <= s[i]
  {
    if |s| == 1 then s[0]
    else Min(SeqMin(s[..|s| - 1]), s[|s| - 1])
  }

  /** `abs(p - clock) <= tolerance * clock`. */
  predicate PulseInBand(p: int, clock: int, tolerance: real)
  {
    AbsReal((p - clock) as real) <= tolerance * (clock as real)
  }

  /** Both pulses of pair `k` lie within the tolerance band around the
      clock. */
  predicate PairInBand(pulses: seq<int>, k: nat, clock: int, tolerance: real)
    requires 2 * k + 1 < |pulses|
  {
    PulseInBand(pulses[2 * k], clock, tolerance) && PulseInBand(pulses[2 * k + 1], clock, tolerance)
  }

  predicate AllPairsInBand(pulses: seq<int>, clock: int, tolerance: real)
  {
    forall k :: 0 <= k < |pulses| / 2 ==> PairInBand(pulses, k, clock, tolerance)
  }

  /** The bit pair `k` stands for: 1 when its first pulse is the longer. */
  function PairBit(pulses: seq<int>, k: nat): (bit: int)
    requires 2 * k + 1 < |pulses|
    ensures bit == 1 <==> pulses[2 * k] > pulses[2 * k + 1]
    ensures bit == 0 || bit == 1
  {
    if pulses[2 * k] > pulses[2 * k + 1] then 1 else 0
  }

  /** One bit per complete pair; an odd final pulse forms no pair. */
  function PairBits(pulses: seq<int>): (bits: seq<int>)
    ensures |bits| == |pulses| / 2
  {
    seq(|pulses| / 2, k requires 0 <= k < |pulses| / 2 => PairBit(pulses, k))
  }

  predicate IsBits(bits: seq<int>)
  {
    forall i :: 0 <= i < |bits| ==> bits[i] == 0 || bits[i] == 1
  }

  function Pow2(k: nat): (r: nat)
    ensures r > 0
  {
    if k == 0 then 1 else 2 * Pow2(k - 1)
  }

  /** The number whose binary digits, most significant first, are `bits`:
      `byte = (byte << 1) | bit` repeated. */
  function BitsValue(bits: seq<int>): int
  {
    if bits == [] then 0 else BitsValue(bits[..|bits| - 1]) * 2 + bits[|bits| - 1]
  }

  /** `w` bits make a number below `2^w`. */
  lemma {:induction false} BitsValueBound(bits: seq<int>)
    requires IsBits(bits)
    ensures 0 <= BitsValue(bits) < Pow2(|bits|)
  {
    if bits != [] {
      BitsValueBound(bits[..|bits| - 1]);
    }
  }

  /** Every complete group of eight bits becomes one byte, MSB first;
      trailing bits that do not fill a byte are dropped. */
  function PackBits(bits: seq<int>): (bytes: seq<byte>)
    requires IsBits(bits)
    ensures |bytes| == |bits| / 8
    decreases |bits|
  {
    if |bits| < 8 then []
    else
      BitsValueBound(bits[..8]);
      assert Pow2(8) == 256;
      [BitsValue(bits[..8])] + PackBits(bits[8..])
  }

  /** Packing from position `g` emits the byte of the eight bits there,
      then packs the rest. */
  lemma PackBitsStep(bits: seq<int>, g: nat)
    requires IsBits(bits) && g + 8 <= |bits|
    ensures 0 <= BitsValue(bits[g..g + 8]) < 256
    ensures PackBits(bits[g..]) == [BitsValue(bits[g..g + 8])] + PackBits(bits[g + 8..])
  {
    BitsValueBound(bits[g..g + 8]);
    assert Pow2(8) == 256;
    assert bits[g..][..8] == bits[g..g + 8];
    assert bits[g..][8..] == bits[g + 8..];
  }

  /** Shifting in one more bit: `(byte << 1) | bit` for a bit 0 or 1. */
  lemma BitsValueStep(bits: seq<int>, g: nat, j: nat)
    requires g + j < |bits|
    ensures BitsValue(bits[g..g + j + 1]) == BitsValue(bits[g..g + j]) * 2 + bits[g + j]
  {
    assert bits[g..g + j + 1][..j] == bits[g..g + j];
  }

  /** What `decode_manchester` returns. */
  function ManchesterDecode(pulses: seq<int>, tolerance: real): (r: Option<seq<byte>>)
    ensures |pulses| < 2 ==> r.None?
    ensures r.Some? ==> |r.value| == (|pulses| / 2) / 8
  {
    if |pulses| < 2 then None
    else if AllPairsInBand(pulses, SeqMin(pulses), tolerance) then Some(PackBits(PairBits(pulses)))
    else None
  }

  /** Decoding is all or nothing: one pair outside the band around the
      shortest pulse fails the whole decode. */
  lemma ManchesterAllOrNothing(pulses: seq<int>, tolerance: real, k: nat)
    requires 2 * k + 1 < |pulses|
    requires !PairInBand(pulses, k, SeqMin(pulses), tolerance)
    ensures ManchesterDecode(pulses, tolerance) == None
  {
  }

  /** `ToBits(v, w)`: the `w` low-order binary digits of `v`, most
      significant first. */
  function ToBits(v: int, w: nat): (bits: seq<int>)
    ensures |bits| == w
    decreases w
  {
    if w == 0 then [] else ToBits(v / 2, w - 1) + [v % 2]
  }

  lemma {:induction false} ToBitsOfBitsValue(bits: seq<int>)
    requires IsBits(bits)
    ensures ToBits(BitsValue(bits), |bits|) == bits
  {
    if bits != [] {
      ToBitsOfBitsValue(bits[..|bits| - 1]);
    }
  }

  /** Each byte spread back into eight bits, MSB first. */
  function UnpackBytes(bytes: seq<byte>): (bits: seq<int>)
    ensures |bits| == 8 * |bytes|
  {
    if bytes == [] then [] else ToBits(bytes[0], 8) + UnpackBytes(bytes[1..])
  }

  /** Packing is undone by unpacking, up to the dropped trailing bits. */
  lemma {:induction false} UnpackPackBits(bits: seq<int>)
    requires IsBits(bits)
    ensures UnpackBytes(PackBits(bits)) == bits[..8 * (|bits| / 8)]
    decreases |bits|
  {
    if |bits| >= 8 {
      var head, rest := bits[..8], bits[8..];
      UnpackPackBits(rest);
      ToBitsOfBitsValue(head);
      var packed := PackBits(bits);
      assert packed[0] == BitsValue(head) && packed[1..] == PackBits(rest);
      calc {
        UnpackBytes(packed);
        ToBits(BitsValue(head), 8) + UnpackBytes(PackBits(rest));
        head + rest[..8 * (|rest| / 8)];
        { assert 8 * (|bits| / 8) == 8 + 8 * (|rest| / 8); }
        bits[..8 * (|bits| / 8)];
      }
    }
  }

  /** A successful decode means every pair was within tolerance of the
      clock, and yields `floor(floor(n / 2) / 8)` bytes whose bits, MSB
      first, are the pair bits in order: bit `k` is 1 exactly when the
      first pulse of pair `k` is the longer. */
  lemma ManchesterDecodedBits(pulses: seq<int>, tolerance: real)
    requires ManchesterDecode(pulses, tolerance).Some?
    ensures AllPairsInBand(pulses, SeqMin(pulses), tolerance)
    ensures var bytes := ManchesterDecode(pulses, tolerance).value;
      && |bytes| == (|pulses| / 2) / 8
      && UnpackBytes(bytes) == PairBits(pulses)[..8 * |bytes|]
      && forall k :: 0 <= k < 8 * |bytes| ==>
           (UnpackBytes(bytes)[k] == 1 <==> pulses[2 * k] > pulses[2 * k + 1])
  {
    UnpackPackBits(PairBits(pulses));
  }

  /** An odd final pulse adds no bit; it only takes part in choosing the
      clock, so when it is not shorter than the rest it changes nothing. */
  lemma ManchesterIgnoresOddTail(pulses: seq<int>, x: int, tolerance: real)
    requires |pulses| >= 2 && |pulses| % 2 == 0
    requires x >= SeqMin(pulses)
    ensures ManchesterDecode(pulses + [x], tolerance) == ManchesterDecode(pulses, tolerance)
  {
    var longer := pulses + [x];
    assert longer[..|longer| - 1] == pulses;
    var clock := SeqMin(pulses);
    assert SeqMin(longer) == clock;
    assert |longer| / 2 == |pulses| / 2;
    forall k | 0 <= k < |pulses| / 2
      ensures PairBit(longer, k) == PairBit(pulses, k)
      ensures PairInBand(longer, k, clock, tolerance) == PairInBand(pulses, k, clock, tolerance)
    {
      assert longer[2 * k] == pulses[2 * k] && longer[2 * k + 1] == pulses[2 * k + 1];
    }
    assert PairBits(longer) == PairBits(pulses);
    assert AllPairsInBand(longer, clock, tolerance) == AllPairsInBand(pulses, clock, tolerance);
  }

  /** Pulses 10, 10, 10, 12 with clock 10 stay inside the band (|12 - 10| is
      exactly 0.2 * 10), decode to the two bits 0, 0, and so to no byte. */
  lemma ManchesterExample()
    ensures ManchesterDecode([10, 10, 10, 12], 0.2) == Some([])
  {
    var p := [10, 10, 10, 12];
    assert p[..3] == [10, 10, 10] && p[..3][..2] == [10, 10] && p[..2][..1] == [10];
    assert SeqMin(p) == 10;
    assert PairInBand(p, 0, 10, 0.2) && PairInBand(p, 1, 10, 0.2);
  }

  /** `decode_manchester`: walk the pulses two at a time against the clock
      `min(pulses)`, giving up on the first pair outside the band, then pack
      complete groups of eight bits MSB first. The source's final
      `if not bits` test cannot fire: two or more pulses make at least one
      pair. */
  method DecodeManchester(pulses: seq<int>, tolerance: real) returns (r: Option<seq<byte>>)
    ensures r == ManchesterDecode(pulses, tolerance)
  {
    if |pulses| < 2 {
      return None;
    }
    var clock := SeqMin(pulses);
    var bits: seq<int> := [];
    var i := 0;
    while i < |pulses| - 1
      invariant i == 2 * |bits| && i <= |pulses|
      invariant forall k :: 0 <= k < |bits| ==> bits[k] == PairBit(pulses, k)
      invariant forall k :: 0 <= k < |bits| ==> PairInBand(pulses, k, clock, tolerance)
    {
      var p1, p2 := pulses[i], pulses[i + 1];
      if PulseInBand(p1, clock, tolerance) && PulseInBand(p2, clock, tolerance) {
        if p1 > p2 {
          bits := bits + [1];
        } else {
          bits := bits + [0];
        }
        i := i + 2;
      } else {
        assert !PairInBand(pulses, |bits|, clock, tolerance);
        return None;
      }
    }
    assert |bits| == |pulses| / 2;
    assert bits == PairBits(pulses);
    assert AllPairsInBand(pulses, clock, tolerance);
    var bytes := PackMsbFirst(bits);
    r := Some(bytes);
  }

  /** The packing loop of `decode_manchester`: for every complete group of
      eight bits, shift them into one byte, most significant bit first. */
  method PackMsbFirst(bits: seq<int>) returns (result: seq<byte>)
    requires IsBits(bits)
    ensures result == PackBits(bits)
  {
    result := [];
    var g := 0;
    while g < |bits|
      invariant 0 <= g <= |bits| + 7
      invariant result + PackBits(bits[Min(g, |bits|)..]) == PackBits(bits)
    {
      if g + 8 <= |bits| {
        var value := 0;
        for j := 0 to 8
          invariant value == BitsValue(bits[g..g + j])
        {
          BitsValueStep(bits, g, j);
          value := value * 2 + bits[g + j];
        }
        PackBitsStep(bits, g);
        result := result + [value];
      }
      g := g + 8;
    }
    assert bits[|bits|..] == [];
  }
}
