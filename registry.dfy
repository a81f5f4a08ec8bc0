/** The catalog of known Sub-GHz protocols (`SubGHzProtocolRegistry`) and
    its two lookups. The catalog is a sequence of (key, entry) pairs in the
    insertion order of the source's `PROTOCOLS` dictionary. */
module ProtocolRegistry {
  import opened Common

  datatype ModulationType = AM | FM | ASK | FSK | OOK | PSK

  datatype DecodingType = Manchester | Differential | Binary | Pwm | Raw

  /** `SubGHzProtocolInfo`. */
  datatype ProtocolInfo = ProtocolInfo(
    name: string,
    frequencies: seq<real>,
    modulation: ModulationType,
    bitRate: real,
    deviation: Option<real>,
    preamble: Option<seq<byte>>,
    decodeType: DecodingType,
    minRepeats: int,
    gapLimit: Option<int>)

  datatype Entry = Entry(key: string, info: ProtocolInfo)

  /** `SubGHzProtocolRegistry.PROTOCOLS`, in its declaration order. */
  const Protocols: seq<Entry> := [
    Entry("princeton", ProtocolInfo("Princeton", [433.92], ASK, 2000.0, None, None, Manchester, 2, None)),
    Entry("keeloq", ProtocolInfo("KeeLoq", [433.92, 434.42, 868.35], FSK, 1500.0, Some(50000.0), None, Manchester, 2, None)),
    Entry("nice_flor_s", ProtocolInfo("Nice FLO", [433.92], AM, 1000.0, None, None, Manchester, 3, None)),
    Entry("chamberlain", ProtocolInfo("Chamberlain", [300.0, 390.0], OOK, 2000.0, None, None, Binary, 2, Some(15000)))
  ]

  /** A dictionary has each key once. */
  predicate KeysDistinct(catalog: seq<Entry>)
  {
    forall i, j :: 0 <= i < j < |catalog| ==> catalog[i].key != catalog[j].key
  }

  /** `dict.get(key)`: the entry stored under `key`, or `None`. */
  function Lookup(catalog: seq<Entry>, key: string): (r: Option<ProtocolInfo>)
    ensures r.None? <==> forall i :: 0 <= i < |catalog| ==> catalog[i].key != key
    ensures r.Some? ==> exists i :: 0 <= i < |catalog| && catalog[i] == Entry(key, r.value)
  {
    if catalog == [] then None
    else if catalog[0].key == key then
      assert catalog[0] == Entry(key, catalog[0].info);
      Some(catalog[0].info)
    else
      var r := Lookup(catalog[1..], key);
      assert forall i :: 1 <= i < |catalog| ==> catalog[i] == catalog[1..][i - 1];
      r
  }

  /** `get_protocol`: the name is lower-cased before the lookup. */
  function GetProtocol(catalog: seq<Entry>, name: string): (r: Option<ProtocolInfo>)
    ensures r.None? <==> forall i :: 0 <= i < |catalog| ==> catalog[i].key != Lower(name)
    ensures r.Some? ==> exists i :: 0 <= i < |catalog| && catalog[i] == Entry(Lower(name), r.value)
  {
    Lookup(catalog, Lower(name))
  }

  /** In a dictionary the entry found is the one stored under the key. */
  lemma GetProtocolFindsStoredEntry(catalog: seq<Entry>, name: string, i: nat)
    requires KeysDistinct(catalog)
    requires i < |catalog| && catalog[i].key == Lower(name)
    ensures GetProtocol(catalog, name) == Some(catalog[i].info)
  {
  }

  lemma KeysOfProtocolsDistinct()
    ensures KeysDistinct(Protocols)
  {
  }

  /** The lookup ignores case: a name and its lower-case form find the
      same entry. */
  lemma GetProtocolIgnoresCase(catalog: seq<Entry>, name: string)
    ensures GetProtocol(catalog, name) == GetProtocol(catalog, Lower(name))
  {
    LowerIdempotent(name);
  }

  /** "princeton" finds the `princeton` entry. */
  lemma GetProtocolFindsPrinceton()
    ensures GetProtocol(Protocols, "princeton") == Some(Protocols[0].info)
  {
    LowercaseNames();
    KeysOfProtocolsDistinct();
    GetProtocolFindsStoredEntry(Protocols, "princeton", 0);
  }

  /** A name that is no key finds nothing. */
  lemma GetProtocolMissesUnknown()
    ensures GetProtocol(Protocols, "somfy") == None
  {
    LowercaseNames();
    assert |Protocols| == 4;
    assert |Protocols[0].key| == 9 && |Protocols[1].key| == 6;
    assert |Protocols[2].key| == 11 && |Protocols[3].key| == 11;
  }

  /** The two names above are already lower case. */
  lemma LowercaseNames()
    ensures Lower("princeton") == "princeton" && Lower("somfy") == "somfy"
  {
    LowerKeepsLowercase("princeton");
    LowerKeepsLowercase("somfy");
  }

  /** `abs(protocol_freq - freq) <= tolerance`: the band is inclusive. */
  predicate InBand(protocolFreq: real, freq: real, tolerance: real)
  {
    AbsReal(protocolFreq - freq) <= tolerance
  }

  predicate AnyInBand(frequencies: seq<real>, freq: real, tolerance: real)
  {
    exists k :: 0 <= k < |frequencies| && InBand(frequencies[k], freq, tolerance)
  }

  /** The entries `get_protocols_for_frequency` returns, in catalog order. */
  function MatchingProtocols(catalog: seq<Entry>, freq: real, tolerance: real): seq<ProtocolInfo>
  {
    if catalog == [] then []
    else
      var last := catalog[|catalog| - 1].info;
      MatchingProtocols(catalog[..|catalog| - 1], freq, tolerance)
        + (if AnyInBand(last.frequencies, freq, tolerance) then [last] else [])
  }

  /** An entry is returned exactly when one of its frequencies is in band,
      and never more often than the catalog holds it. */
  lemma {:induction false} MatchingProtocolsMembers(catalog: seq<Entry>, freq: real, tolerance: real)
    ensures |MatchingProtocols(catalog, freq, tolerance)| <= |catalog|
    ensures forall p :: p in MatchingProtocols(catalog, freq, tolerance) <==>
      exists i :: 0 <= i < |catalog| && catalog[i].info == p && AnyInBand(p.frequencies, freq, tolerance)
  {
    if catalog != [] {
      var init := catalog[..|catalog| - 1];
      MatchingProtocolsMembers(init, freq, tolerance);
      forall p ensures p in MatchingProtocols(catalog, freq, tolerance) <==>
        exists i :: 0 <= i < |catalog| && catalog[i].info == p && AnyInBand(p.frequencies, freq, tolerance)
      {
        if exists i :: 0 <= i < |catalog| && catalog[i].info == p && AnyInBand(p.frequencies, freq, tolerance) {
          var i :| 0 <= i < |catalog| && catalog[i].info == p && AnyInBand(p.frequencies, freq, tolerance);
          if i < |catalog| - 1 {
            assert init[i] == catalog[i];
          }
        }
        if p in MatchingProtocols(init, freq, tolerance) {
          var i :| 0 <= i < |init| && init[i].info == p && AnyInBand(p.frequencies, freq, tolerance);
          assert catalog[i] == init[i];
        }
      }
    }
  }

  /** `get_protocols_for_frequency`: scan the catalog in order and append
      an entry at its first frequency within the tolerance. */
  method GetProtocolsForFrequency(catalog: seq<Entry>, freq: real, tolerance: real)
    returns (matching: seq<ProtocolInfo>)
    ensures matching == MatchingProtocols(catalog, freq, tolerance)
  {
    matching := [];
    for i := 0 to |catalog|
      invariant matching == MatchingProtocols(catalog[..i], freq, tolerance)
    {
      var protocol := catalog[i].info;
      assert catalog[..i + 1][..i] == catalog[..i];
      for j := 0 to |protocol.frequencies|
        invariant matching == MatchingProtocols(catalog[..i], freq, tolerance)
        invariant forall k :: 0 <= k < j ==> !InBand(protocol.frequencies[k], freq, tolerance)
      {
        if AbsReal(protocol.frequencies[j] - freq) <= tolerance {
          matching := matching + [protocol];
          break;
        }
      }
    }
    assert catalog[..|catalog|] == catalog;
  }

  /** 433.92 MHz matches the three entries listed on it, in catalog order. */
  lemma MatchingProtocolsExample()
    ensures MatchingProtocols(Protocols, 433.92, 0.1)
            == [Protocols[0].info, Protocols[1].info, Protocols[2].info]
  {
    var c := Protocols;
    assert AnyInBand(c[0].info.frequencies, 433.92, 0.1) by { assert InBand(c[0].info.frequencies[0], 433.92, 0.1); }
    assert AnyInBand(c[1].info.frequencies, 433.92, 0.1) by { assert InBand(c[1].info.frequencies[0], 433.92, 0.1); }
    assert AnyInBand(c[2].info.frequencies, 433.92, 0.1) by { assert InBand(c[2].info.frequencies[0], 433.92, 0.1); }
    assert !AnyInBand(c[3].info.frequencies, 433.92, 0.1);
    assert c[..1][..0] == [];
    assert MatchingProtocols(c[..1], 433.92, 0.1) == [c[0].info];
    assert c[..2][..1] == c[..1];
    assert MatchingProtocols(c[..2], 433.92, 0.1) == [c[0].info, c[1].info];
    assert c[..3][..2] == c[..2];
    assert MatchingProtocols(c[..3], 433.92, 0.1) == [c[0].info, c[1].info, c[2].info];
    assert c[..3] == c[..|c| - 1];
  }
}
