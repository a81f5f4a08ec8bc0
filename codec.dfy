/** The RPC wire frame of the Flipper protocol: a 17-byte header
    `[type:u8][command_id:u32][command_len:u32][args_len:u32][data_len:u32]`
    (all big-endian), followed by the command text, the JSON text of the
    arguments and the raw data bytes. */
module RpcCodec {
  import opened Common

  datatype MessageType = Command | Response | Event | Error

  /** `MessageType.value`. */
  function TypeValue(t: MessageType): (v: byte)
    ensures TypeFromValue(v) == Some(t)
  {
    match t
    case Command => 0
    case Response => 1
    case Event => 2
    case Error => 3
  }

  /** `MessageType(v)`: the enum lookup that raises `ValueError` for an
      unknown value. */
  function TypeFromValue(v: int): (r: Option<MessageType>)
    ensures r.Some? <==> 0 <= v <= 3
  {
    if v == 0 then Some(Command)
    else if v == 1 then Some(Response)
    else if v == 2 then Some(Event)
    else if v == 3 then Some(Error)
    else None
  }

  /** A JSON value, as `json.loads` produces it: a number without a
      fraction or exponent is an `int`, any other number a `float`. */
  datatype Json =
    | JNull
    | JBool(b: bool)
    | JNumber(n: int)
    | JReal(r: real)
    | JString(s: string)
    | JArray(items: seq<Json>)
    | JObject(fields: map<string, Json>)

  /** The `{}` that an empty args section decodes to. */
  const EmptyArgs: Json := JObject(map[])

  /** `RPCMessage`; `data` is `Optional[bytes]`. */
  datatype RPCMessage = RPCMessage(
    msgType: MessageType,
    commandId: int,
    command: string,
    args: Json,
    data: Option<seq<byte>>)

  /** The library calls the codec relies on: `str.encode('utf-8')`,
      `bytes.decode('utf-8')` (None where it raises), `json.dumps` and
      `json.loads` (None where it raises). */
  datatype TextCodecs = TextCodecs(
    utf8Encode: string -> seq<byte>,
    utf8Decode: seq<byte> -> Option<string>,
    jsonDumps: Json -> string,
    jsonLoads: string -> Option<Json>)

  /** `struct.calcsize('>BIIII')`. */
  const HeaderSize: nat := 17

  /** One more than the largest value a `>I` field can hold. */
  const U32Limit: nat := 0x1_0000_0000

  // ---------------------------------------------------------------------
  // Big-endian unsigned fields

  function Pow256(k: nat): (r: nat)
    ensures r > 0
  {
    if k == 0 then 1 else 256 * Pow256(k - 1)
  }

  /** The `width` low-order bytes of `x`, most significant first. */
  function BigEndian(x: nat, width: nat): (r: seq<byte>)
    ensures |r| == width
  {
    if width == 0 then [] else BigEndian(x / 256, width - 1) + [x % 256]
  }

  /** The unsigned number a big-endian byte string denotes. */
  function FromBigEndian(s: seq<byte>): (r: nat)
    ensures r < Pow256(|s|)
  {
    if s == [] then 0
    else
      var hi := FromBigEndian(s[..|s| - 1]);
      assert hi + 1 <= Pow256(|s| - 1);
      hi * 256 + s[|s| - 1]
  }

  /** Reading back a packed field gives the value that was packed. */
  lemma {:induction false} BigEndianRoundTrip(x: nat, width: nat)
    requires x < Pow256(width)
    ensures FromBigEndian(BigEndian(x, width)) == x
  {
    if width > 0 {
      var r := BigEndian(x, width);
      assert r[..|r| - 1] == BigEndian(x / 256, width - 1);
      BigEndianRoundTrip(x / 256, width - 1);
    }
  }

  lemma U32LimitIsPow256Of4()
    ensures Pow256(4) == U32Limit
  {
    assert Pow256(4) == 256 * 256 * 256 * 256;
  }

  // ---------------------------------------------------------------------
  // Encoding

  /** `struct.pack` raises `struct.error` when a field does not fit. */
  datatype EncodeError = FieldOutOfRange

  /** The bytes of the data section: `msg.data or b''`. */
  function DataBytes(data: Option<seq<byte>>): seq<byte>
  {
    if data.Some? then data.value else []
  }

  /** `encode_message`. */
  function Encode(tc: TextCodecs, msg: RPCMessage): (r: Result<seq<byte>, EncodeError>)
    ensures r.Ok? <==>
      (0 <= msg.commandId < U32Limit
       && |tc.utf8Encode(msg.command)| < U32Limit
       && |tc.utf8Encode(tc.jsonDumps(msg.args))| < U32Limit
       && |DataBytes(msg.data)| < U32Limit)
    ensures r.Ok? ==>
      |r.value| == HeaderSize + |tc.utf8Encode(msg.command)|
                   + |tc.utf8Encode(tc.jsonDumps(msg.args))| + |DataBytes(msg.data)|
  {
    var commandBytes := tc.utf8Encode(msg.command);
    var argsBytes := tc.utf8Encode(tc.jsonDumps(msg.args));
    var dataBytes := DataBytes(msg.data);
    if !(0 <= msg.commandId < U32Limit && |commandBytes| < U32Limit
         && |argsBytes| < U32Limit && |dataBytes| < U32Limit) then
      Err(FieldOutOfRange)
    else
      var header := [TypeValue(msg.msgType)] + BigEndian(msg.commandId, 4)
                    + BigEndian(|commandBytes|, 4) + BigEndian(|argsBytes|, 4)
                    + BigEndian(|dataBytes|, 4);
      Ok(header + commandBytes + argsBytes + dataBytes)
  }

  // ---------------------------------------------------------------------
  // Decoding

  /** Every failure surfaces as `FlipperProtocolError`; the constructor
      records which library call raised. */
  datatype DecodeError =
    | MessageTooShort
    | InvalidUtf8
    | InvalidJson
    | UnknownMessageType(value: int)

  /** Python's `s[start:start + len]` for non-negative bounds: clamped to
      the end of `s`, never an error. */
  function Slice(s: seq<byte>, start: nat, len: nat): (r: seq<byte>)
    ensures |r| == Min(len, Max(0, |s| - start))
    ensures start <= |s| ==> r == s[start..start + |r|]
  {
    if start >= |s| then []
    else s[start..Min(start + len, |s|)]
  }

  /** The five header fields, read at their fixed offsets. */
  function HeaderType(s: seq<byte>): byte requires |s| >= HeaderSize { s[0] }
  function HeaderId(s: seq<byte>): nat requires |s| >= HeaderSize { FromBigEndian(s[1..5]) }
  function HeaderCommandLen(s: seq<byte>): nat requires |s| >= HeaderSize { FromBigEndian(s[5..9]) }
  function HeaderArgsLen(s: seq<byte>): nat requires |s| >= HeaderSize { FromBigEndian(s[9..13]) }
  function HeaderDataLen(s: seq<byte>): nat requires |s| >= HeaderSize { FromBigEndian(s[13..17]) }

  /** `decode_message`: sections are sliced from a running offset, and the
      declared lengths are never compared with the buffer. */
  function Decode(tc: TextCodecs, s: seq<byte>): (r: Result<RPCMessage, DecodeError>)
    ensures |s| < HeaderSize ==> r == Err(MessageTooShort)
    ensures r.Ok? ==>
      && |s| >= HeaderSize
      && r.value.commandId == HeaderId(s) < U32Limit
      && TypeValue(r.value.msgType) == HeaderType(s)
      && (r.value.data.None? <==> HeaderDataLen(s) == 0)
      && (r.value.data.Some? ==> |r.value.data.value| <= HeaderDataLen(s))
  {
    if |s| < HeaderSize then Err(MessageTooShort)
    else
      U32LimitIsPow256Of4();
      var commandAt := HeaderSize;
      var argsAt := commandAt + HeaderCommandLen(s);
      var dataAt := argsAt + HeaderArgsLen(s);
      DecodeSections(tc, HeaderType(s), HeaderId(s),
                     Slice(s, commandAt, HeaderCommandLen(s)),
                     Slice(s, argsAt, HeaderArgsLen(s)),
                     HeaderDataLen(s), Slice(s, dataAt, HeaderDataLen(s)))
  }

  /** The part of `decode_message` after the header has been unpacked and
      the three sections sliced out. */
  function DecodeSections(tc: TextCodecs, typeValue: byte, id: nat,
                          commandSection: seq<byte>, argsSection: seq<byte>,
                          dataLen: nat, dataSection: seq<byte>): (r: Result<RPCMessage, DecodeError>)
    ensures r.Ok? ==> r.value.commandId == id && TypeValue(r.value.msgType) == typeValue
    ensures r.Ok? ==> r.value.data == if dataLen > 0 then Some(dataSection) else None
  {
    match tc.utf8Decode(commandSection)
    case None => Err(InvalidUtf8)
    case Some(command) =>
      match tc.utf8Decode(argsSection)
      case None => Err(InvalidUtf8)
      case Some(argsText) =>
        var args := if argsText != "" then tc.jsonLoads(argsText) else Some(EmptyArgs);
        if args.None? then Err(InvalidJson)
        else
          var data := if dataLen > 0 then Some(dataSection) else None;
          match TypeFromValue(typeValue)
          case None => Err(UnknownMessageType(typeValue))
          case Some(t) => Ok(RPCMessage(t, id, command, args.value, data))
  }

  // ---------------------------------------------------------------------
  // Properties of the frame

  /** The header of an encoded frame carries the type value, the id and the
      three section lengths, and the sections follow in order. */
  lemma EncodeLayout(tc: TextCodecs, msg: RPCMessage)
    requires Encode(tc, msg).Ok?
    ensures var f := Encode(tc, msg).value;
      var commandBytes := tc.utf8Encode(msg.command);
      var argsBytes := tc.utf8Encode(tc.jsonDumps(msg.args));
      && |f| >= HeaderSize
      && HeaderType(f) == TypeValue(msg.msgType)
      && HeaderId(f) == msg.commandId
      && HeaderCommandLen(f) == |commandBytes|
      && HeaderArgsLen(f) == |argsBytes|
      && HeaderDataLen(f) == |DataBytes(msg.data)|
      && f[HeaderSize..] == commandBytes + argsBytes + DataBytes(msg.data)
  {
    var f := Encode(tc, msg).value;
    var commandBytes := tc.utf8Encode(msg.command);
    var argsBytes := tc.utf8Encode(tc.jsonDumps(msg.args));
    var dataBytes := DataBytes(msg.data);
    U32LimitIsPow256Of4();
    var header := [TypeValue(msg.msgType)] + BigEndian(msg.commandId, 4)
                  + BigEndian(|commandBytes|, 4) + BigEndian(|argsBytes|, 4)
                  + BigEndian(|dataBytes|, 4);
    assert f == header + (commandBytes + argsBytes + dataBytes);
    assert f[1..5] == BigEndian(msg.commandId, 4);
    assert f[5..9] == BigEndian(|commandBytes|, 4);
    assert f[9..13] == BigEndian(|argsBytes|, 4);
    assert f[13..17] == BigEndian(|dataBytes|, 4);
    BigEndianRoundTrip(msg.commandId, 4);
    BigEndianRoundTrip(|commandBytes|, 4);
    BigEndianRoundTrip(|argsBytes|, 4);
    BigEndianRoundTrip(|dataBytes|, 4);
  }

  /** What decoding an encoded message gives back: the message itself,
      except that empty data (`b''`) comes back as `None`. */
  function Normalized(msg: RPCMessage): RPCMessage
  {
    if msg.data == Some([]) then msg.(data := None) else msg
  }

  /** The library round trips the codec depends on, for one message. */
  predicate TextRoundTrips(tc: TextCodecs, msg: RPCMessage)
  {
    var argsText := tc.jsonDumps(msg.args);
    && tc.utf8Decode(tc.utf8Encode(msg.command)) == Some(msg.command)
    && tc.utf8Decode(tc.utf8Encode(argsText)) == Some(argsText)
    && argsText != ""
    && tc.jsonLoads(argsText) == Some(msg.args)
  }

  /** Round trip: `decode(encode(m)) == m` (up to empty data). */
  lemma EncodeDecodeRoundTrip(tc: TextCodecs, msg: RPCMessage)
    requires Encode(tc, msg).Ok?
    requires TextRoundTrips(tc, msg)
    ensures Decode(tc, Encode(tc, msg).value) == Ok(Normalized(msg))
  {
    var f := Encode(tc, msg).value;
    var commandBytes := tc.utf8Encode(msg.command);
    var argsBytes := tc.utf8Encode(tc.jsonDumps(msg.args));
    var dataBytes := DataBytes(msg.data);
    EncodeLayout(tc, msg);
    var body := f[HeaderSize..];
    assert Slice(f, HeaderSize, |commandBytes|) == commandBytes by {
      assert f[HeaderSize..HeaderSize + |commandBytes|] == body[..|commandBytes|];
    }
    var o2 := HeaderSize + |commandBytes|;
    assert Slice(f, o2, |argsBytes|) == argsBytes by {
      assert f[o2..o2 + |argsBytes|] == body[|commandBytes|..|commandBytes| + |argsBytes|];
    }
    var o3 := o2 + |argsBytes|;
    assert Slice(f, o3, |dataBytes|) == dataBytes by {
      assert f[o3..o3 + |dataBytes|] == body[|commandBytes| + |argsBytes|..];
    }
  }

  /** A slice that lies inside `s` does not see what follows `s`. */
  lemma SliceOfExtended(s: seq<byte>, extra: seq<byte>, start: nat, len: nat)
    requires start + len <= |s|
    ensures Slice(s + extra, start, len) == Slice(s, start, len) == s[start..start + len]
  {
    assert (s + extra)[start..start + len] == s[start..start + len];
  }

  /** Bytes appended after a full header leave the header as it was. */
  lemma HeaderOfExtended(s: seq<byte>, extra: seq<byte>)
    requires |s| >= HeaderSize
    ensures HeaderType(s + extra) == HeaderType(s) && HeaderId(s + extra) == HeaderId(s)
    ensures HeaderCommandLen(s + extra) == HeaderCommandLen(s) && HeaderArgsLen(s + extra) == HeaderArgsLen(s)
    ensures HeaderDataLen(s + extra) == HeaderDataLen(s)
  {
    var t := s + extra;
    assert t[1..5] == s[1..5] && t[5..9] == s[5..9] && t[9..13] == s[9..13] && t[13..17] == s[13..17];
  }

  /** Bytes after the declared sections are ignored. */
  lemma DecodeIgnoresTrailingBytes(tc: TextCodecs, s: seq<byte>, extra: seq<byte>)
    requires |s| >= HeaderSize
    requires |s| >= HeaderSize + HeaderCommandLen(s) + HeaderArgsLen(s) + HeaderDataLen(s)
    ensures Decode(tc, s + extra) == Decode(tc, s)
  {
    var t := s + extra;
    HeaderOfExtended(s, extra);
    var o1 := HeaderSize;
    var o2 := o1 + HeaderCommandLen(s);
    var o3 := o2 + HeaderArgsLen(s);
    SliceOfExtended(s, extra, o1, HeaderCommandLen(s));
    SliceOfExtended(s, extra, o2, HeaderArgsLen(s));
    SliceOfExtended(s, extra, o3, HeaderDataLen(s));
    var sections := DecodeSections(tc, HeaderType(s), HeaderId(s),
      Slice(s, o1, HeaderCommandLen(s)), Slice(s, o2, HeaderArgsLen(s)),
      HeaderDataLen(s), Slice(s, o3, HeaderDataLen(s)));
    assert Decode(tc, s) == sections by { DecodeIsSections(tc, s); }
    assert Decode(tc, t) == sections by { DecodeIsSections(tc, t); }
  }

  /** Past the header, decoding is `DecodeSections` on the three slices. */
  lemma DecodeIsSections(tc: TextCodecs, s: seq<byte>)
    requires |s| >= HeaderSize
    ensures Decode(tc, s) == DecodeSections(tc, HeaderType(s), HeaderId(s),
      Slice(s, HeaderSize, HeaderCommandLen(s)),
      Slice(s, HeaderSize + HeaderCommandLen(s), HeaderArgsLen(s)),
      HeaderDataLen(s),
      Slice(s, HeaderSize + HeaderCommandLen(s) + HeaderArgsLen(s), HeaderDataLen(s)))
  {
  }

  /** A declared data length that runs past the buffer yields whatever is
      left, not a length error. */
  lemma DecodeOverrunYieldsShortData(tc: TextCodecs, s: seq<byte>)
    requires |s| >= HeaderSize
    requires Decode(tc, s).Ok?
    requires HeaderDataLen(s) > 0
    requires HeaderSize + HeaderCommandLen(s) + HeaderArgsLen(s) <= |s|
    requires |s| < HeaderSize + HeaderCommandLen(s) + HeaderArgsLen(s) + HeaderDataLen(s)
    ensures Decode(tc, s).value.data
            == Some(s[HeaderSize + HeaderCommandLen(s) + HeaderArgsLen(s)..])
    ensures |Decode(tc, s).value.data.value| < HeaderDataLen(s)
  {
    var dataAt := HeaderSize + HeaderCommandLen(s) + HeaderArgsLen(s);
    assert Slice(s, dataAt, HeaderDataLen(s)) == s[dataAt..];
  }

  /** A zero-length args section decodes to `{}` whatever the JSON parser
      would say about an empty text. */
  lemma DecodeEmptyArgsSection(tc: TextCodecs, s: seq<byte>)
    requires |s| >= HeaderSize
    requires HeaderArgsLen(s) == 0
    requires tc.utf8Decode([]) == Some("")
    requires Decode(tc, s).Ok?
    ensures Decode(tc, s).value.args == EmptyArgs
  {
    assert Slice(s, HeaderSize + HeaderCommandLen(s), 0) == [];
  }

  /** Text that does not decode is a protocol error: bad UTF-8 in the
      command or args section is `InvalidUtf8` (the command is tried
      first), and non-empty args text that is not JSON is `InvalidJson`.
      Conversely every failure has one of the four causes: a short
      buffer, bad UTF-8, bad JSON or an unknown type byte. */
  lemma {:induction false} DecodeRejectsBadText(tc: TextCodecs, s: seq<byte>)
    requires |s| >= HeaderSize
    ensures var command := tc.utf8Decode(Slice(s, HeaderSize, HeaderCommandLen(s)));
      var argsText := tc.utf8Decode(Slice(s, HeaderSize + HeaderCommandLen(s), HeaderArgsLen(s)));
      && (command.None? ==> Decode(tc, s) == Err(InvalidUtf8))
      && (command.Some? && argsText.None? ==> Decode(tc, s) == Err(InvalidUtf8))
      && (command.Some? && argsText.Some? && argsText.value != "" && tc.jsonLoads(argsText.value).None? ==>
            Decode(tc, s) == Err(InvalidJson))
      && (Decode(tc, s).Err? ==>
            || command.None? || argsText.None?
            || (argsText.value != "" && tc.jsonLoads(argsText.value).None?)
            || HeaderType(s) > 3)
  {
    DecodeIsSections(tc, s);
  }

  /** A frame whose type byte is not 0..3 is rejected, and nothing shorter
      than the header is ever accepted. */
  lemma DecodeRejectsUnknownType(tc: TextCodecs, s: seq<byte>)
    requires |s| >= HeaderSize && HeaderType(s) > 3
    ensures Decode(tc, s).Err?
  {
  }
}
