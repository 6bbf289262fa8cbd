/**
 * The per-frame body of `handle_client` and its connection loop
 * (scripts/server.py): split the 64-byte frame, check the HMAC tag, decode,
 * check magic then version, validate the reading, update the client's last
 * sequence number, append one row to the log. Any rejected frame is dropped
 * with no effect and the loop reads the next one; only a transport error
 * ends the connection.
 *
 * HMAC-SHA256 under the server's key is the function `mac` from payload to
 * 32-byte digest. The lock-protected regions (`seq_lock`, `csv_lock`) are
 * modelled as atomic steps of a single `Server` object.
 */
module Pipeline {
  import opened Bytes
  import opened Wrappers
  import opened Float32
  import Wire
  import opened Decoder
  import opened Validator
  import opened SequenceTracker
  import opened FrameReader

  type Digest = s: seq<uint8> | |s| == HmacSize witness seq(HmacSize, i => 0)

  /** HMAC-SHA256 of a payload under the shared key. */
  type Mac = seq<uint8> -> Digest

  /** Why a frame was dropped; the log warnings of the source. */
  datatype Drop =
    | HmacMismatch
    | InvalidMagic(magic: uint16)
    | UnknownVersion(version: uint8)
    | InvalidSensorData(rule: Rule)

  /** The CSV row, before the timestamp is formatted as local time and the gas readings rounded. */
  datatype Row = Row(timestamp: int64, temp: int32, humidity: int32, ch4: uint32, co2: uint32)

  /** What became of one frame. */
  datatype Disposition = Dropped(reason: Drop) | Stored(gap: Option<Gap>)

  /** The shared server state: the `last_seq` dictionary and the rows of the CSV log. */
  datatype State = State(lastSeq: map<Ip, int>, rows: seq<Row>)

  /** `raw_data[:DATA_SIZE]`: the payload leads the frame. */
  function Payload(frame: seq<uint8>): (p: seq<uint8>)
    requires |frame| == PacketSize
    ensures |p| == DataSize && p <= frame
  {
    frame[..DataSize]
  }

  /** `raw_data[DATA_SIZE:]`: the tag is what follows the payload, to the end of the frame. */
  function Tag(frame: seq<uint8>): (t: seq<uint8>)
    requires |frame| == PacketSize
    ensures |t| == HmacSize && Payload(frame) + t == frame
  {
    frame[DataSize..]
  }

  /** The CSV columns: timestamp, temperature, humidity, CH4, CO2; the header fields are not logged. */
  function RowOf(d: Wire.SensorData): (r: Row)
    ensures r.timestamp == d.timestamp && r.temp == d.temp && r.humidity == d.humidity
    ensures r.ch4 == d.ch4 && r.co2 == d.co2
  {
    Row(d.timestamp, d.temp, d.humidity, d.ch4, d.co2)
  }

  /** `validate_sensor_data` on an unpacked record, its gas readings decoded from their bits. */
  function CheckReading(d: Wire.SensorData): (v: Verdict)
    ensures v.Accept? <==>
      && TempMin <= d.temp <= TempMax && HumidityMin <= d.humidity <= HumidityMax
      && GasAcceptable(d.ch4) && GasAcceptable(d.co2)
      && TimestampMin <= d.timestamp <= TimestampMax
  {
    var ch4, co2 := FromBits(d.ch4), FromBits(d.co2);
    GasAcceptableIff(d.ch4);
    GasAcceptableIff(d.co2);
    assert Satisfies(NanOrInfGas, d.temp, d.humidity, ch4, co2, d.timestamp)
      && Satisfies(NegativeGas, d.temp, d.humidity, ch4, co2, d.timestamp)
      <==> GasAcceptable(d.ch4) && GasAcceptable(d.co2);
    Validate(d.temp, d.humidity, ch4, co2, d.timestamp)
  }

  /**
   * The checks of one frame, in the source's order. A frame whose tag is
   * wrong is dropped whatever its payload says; a frame is accepted exactly
   * when it is authentic, carries the protocol header and a valid reading,
   * and the accepted record is what the payload encodes.
   */
  function Screen(mac: Mac, frame: seq<uint8>): (r: Result<Wire.SensorData, Drop>)
    requires |frame| == PacketSize
    ensures r == Err(HmacMismatch) <==> Tag(frame) != mac(Payload(frame))
    ensures r.Ok? <==>
      && Tag(frame) == mac(Payload(frame))
      && Unpack(Payload(frame)).magic == PacketMagic
      && Unpack(Payload(frame)).version == PacketVersion
      && CheckReading(Unpack(Payload(frame))).Accept?
    ensures r.Ok? ==> r.value == Unpack(Payload(frame))
    ensures r.Err? && r.error.InvalidMagic? ==>
      Tag(frame) == mac(Payload(frame)) && r.error.magic == Unpack(Payload(frame)).magic != PacketMagic
    ensures r.Err? && r.error.UnknownVersion? ==>
      && Tag(frame) == mac(Payload(frame))
      && Unpack(Payload(frame)).magic == PacketMagic
      && r.error.version == Unpack(Payload(frame)).version != PacketVersion
    ensures r.Err? && r.error.InvalidSensorData? ==>
      && Tag(frame) == mac(Payload(frame))
      && Unpack(Payload(frame)).magic == PacketMagic
      && Unpack(Payload(frame)).version == PacketVersion
      && CheckReading(Unpack(Payload(frame))) == Reject(r.error.rule)
  {
    var payload := Payload(frame);
    if Tag(frame) != mac(payload) then Err(HmacMismatch)
    else
      var d := Unpack(payload);
      if d.magic != PacketMagic then Err(InvalidMagic(d.magic))
      else if d.version != PacketVersion then Err(UnknownVersion(d.version))
      else
        match CheckReading(d)
        case Reject(rule) => Err(InvalidSensorData(rule))
        case Accept => Ok(d)
  }

  /**
   * The state change for a frame once it has been screened. A dropped frame
   * leaves the state as it was; a stored frame updates only its client's
   * sequence entry (after the tracker's gap check) and appends exactly its
   * own row.
   */
  function Apply(st: State, ip: Ip, screened: Result<Wire.SensorData, Drop>): (r: (State, Disposition))
    ensures r.1.Dropped? <==> screened.Err?
    ensures screened.Err? ==> r == (st, Dropped(screened.error))
    ensures screened.Ok? ==>
      var d := screened.value;
      && r.0.rows == st.rows + [RowOf(d)]
      && r.0.lastSeq.Keys == st.lastSeq.Keys + {ip}
      && r.0.lastSeq[ip] == d.sequence
      && (forall other :: other in st.lastSeq && other != ip ==> r.0.lastSeq[other] == st.lastSeq[other])
      && r.1 == Stored(Track(st.lastSeq, ip, d.sequence).1)
  {
    match screened
    case Err(why) => (st, Dropped(why))
    case Ok(d) =>
      var (lastSeq, gap) := Track(st.lastSeq, ip, d.sequence);
      (State(lastSeq, st.rows + [RowOf(d)]), Stored(gap))
  }

  /**
   * One iteration of the connection loop on a complete frame: a dropped frame
   * changes nothing, a stored one is logged and tracked as the record its
   * payload decodes to.
   */
  function Step(mac: Mac, st: State, ip: Ip, frame: seq<uint8>): (r: (State, Disposition))
    requires |frame| == PacketSize
    ensures r.1 == Dropped(HmacMismatch) <==> Tag(frame) != mac(Payload(frame))
    ensures r.1.Dropped? ==> r.0 == st
    ensures r.1.Stored? ==>
      var d := Unpack(Payload(frame));
      && CheckReading(d).Accept?
      && r.0 == State(Track(st.lastSeq, ip, d.sequence).0, st.rows + [RowOf(d)])
      && r.1.gap == Track(st.lastSeq, ip, d.sequence).1
  {
    Apply(st, ip, Screen(mac, frame))
  }

  /** The complete 64-byte frames at the front of a byte stream; a trailing partial frame is not one. */
  function Frames(stream: seq<uint8>): (fs: seq<seq<uint8>>)
    ensures forall i :: 0 <= i < |fs| ==> |fs[i]| == PacketSize
    ensures |fs| == |stream| / PacketSize
    ensures forall i :: 0 <= i < |fs| ==> fs[i] == stream[i * PacketSize..(i + 1) * PacketSize]
    decreases |stream|
  {
    if |stream| < PacketSize then []
    else
      var rest := Frames(stream[PacketSize..]);
      FramesShift(stream, rest);
      [stream[..PacketSize]] + rest
  }

  /** The frames after the first one sit one frame further into the stream. */
  lemma FramesShift(stream: seq<uint8>, rest: seq<seq<uint8>>)
    requires |stream| >= PacketSize && |rest| == (|stream| - PacketSize) / PacketSize
    requires forall i :: 0 <= i < |rest| ==> rest[i] == stream[PacketSize..][i * PacketSize..(i + 1) * PacketSize]
    ensures |rest| + 1 == |stream| / PacketSize
    ensures forall i :: 0 <= i < |rest| ==> rest[i] == stream[(i + 1) * PacketSize..(i + 2) * PacketSize]
  {
    forall i | 0 <= i < |rest|
      ensures rest[i] == stream[(i + 1) * PacketSize..(i + 2) * PacketSize]
    {
      var lo := i * PacketSize;
      assert (i + 1) * PacketSize == lo + PacketSize && (i + 2) * PacketSize == lo + 2 * PacketSize;
    }
  }

  /** A stream holding a complete frame screens as that frame, then the rest of the stream. */
  lemma NextFrame(mac: Mac, stream: seq<uint8>)
    requires |stream| >= PacketSize
    ensures ScreenAll(mac, Frames(stream)) == [Screen(mac, stream[..PacketSize])] + ScreenAll(mac, Frames(stream[PacketSize..]))
  {
    var frame, rest := stream[..PacketSize], Frames(stream[PacketSize..]);
    assert Frames(stream) == [frame] + rest;
    ScreenAllCons(mac, frame, rest);
  }

  /** Screening a frame followed by more frames screens it first. */
  lemma ScreenAllCons(mac: Mac, frame: seq<uint8>, rest: seq<seq<uint8>>)
    requires |frame| == PacketSize && forall i :: 0 <= i < |rest| ==> |rest[i]| == PacketSize
    ensures ScreenAll(mac, [frame] + rest) == [Screen(mac, frame)] + ScreenAll(mac, rest)
  {
    assert ([frame] + rest)[1..] == rest;
  }

  /** The outcome of screening each frame, in order. */
  function ScreenAll(mac: Mac, frames: seq<seq<uint8>>): (rs: seq<Result<Wire.SensorData, Drop>>)
    requires forall i :: 0 <= i < |frames| ==> |frames[i]| == PacketSize
    ensures |rs| == |frames|
  {
    if frames == [] then [] else [Screen(mac, frames[0])] + ScreenAll(mac, frames[1..])
  }

  /** Each frame is screened on its own: outcome i is the screening of frame i. */
  lemma {:induction false} ScreenAllAt(mac: Mac, frames: seq<seq<uint8>>, i: nat)
    requires forall j :: 0 <= j < |frames| ==> |frames[j]| == PacketSize
    requires i < |frames|
    ensures ScreenAll(mac, frames)[i] == Screen(mac, frames[i])
    decreases i
  {
    if i > 0 {
      ScreenAllAt(mac, frames[1..], i - 1);
      assert frames[1..][i - 1] == frames[i];
    }
  }

  /** The state after the loop has applied a run of screened frames from one client, in order. */
  function Ingest(st: State, ip: Ip, screened: seq<Result<Wire.SensorData, Drop>>): (r: State)
    ensures st.rows <= r.rows && |r.rows| <= |st.rows| + |screened|
    ensures st.lastSeq.Keys <= r.lastSeq.Keys <= st.lastSeq.Keys + {ip}
    decreases |screened|
  {
    if screened == [] then st else Ingest(Apply(st, ip, screened[0]).0, ip, screened[1..])
  }

  /** Ingesting a screened frame and then more applies that frame first. */
  lemma IngestCons(st: State, ip: Ip, first: Result<Wire.SensorData, Drop>, rest: seq<Result<Wire.SensorData, Drop>>)
    ensures Ingest(st, ip, [first] + rest) == Ingest(Apply(st, ip, first).0, ip, rest)
  {
    assert ([first] + rest)[1..] == rest;
  }

  /** The rows of the accepted frames, in arrival order. */
  function AcceptedRows(screened: seq<Result<Wire.SensorData, Drop>>): seq<Row>
    decreases |screened|
  {
    if screened == [] then []
    else (if screened[0].Ok? then [RowOf(screened[0].value)] else []) + AcceptedRows(screened[1..])
  }

  /**
   * The log is append-only and gains exactly one row per accepted frame, in
   * arrival order, whatever the sequence-tracker state.
   */
  lemma {:induction false} IngestAppendsAcceptedRows(st: State, ip: Ip, screened: seq<Result<Wire.SensorData, Drop>>)
    ensures Ingest(st, ip, screened).rows == st.rows + AcceptedRows(screened)
    decreases |screened|
  {
    if screened != [] {
      var next := Apply(st, ip, screened[0]).0;
      IngestAppendsAcceptedRows(next, ip, screened[1..]);
    }
  }

  /** Frames from one client never touch another client's sequence entry. */
  lemma {:induction false} IngestKeepsOtherClients(st: State, ip: Ip, screened: seq<Result<Wire.SensorData, Drop>>, other: Ip)
    requires other != ip
    ensures other in Ingest(st, ip, screened).lastSeq <==> other in st.lastSeq
    ensures other in st.lastSeq ==> Ingest(st, ip, screened).lastSeq[other] == st.lastSeq[other]
    decreases |screened|
  {
    if screened != [] {
      var next := Apply(st, ip, screened[0]).0;
      IngestKeepsOtherClients(next, ip, screened[1..], other);
    }
  }

  /**
   * Over a connection, the client's sequence entry follows the tracker run
   * over the sequence numbers of its accepted frames; dropped frames do not
   * take part.
   */
  lemma {:induction false} IngestTracksAcceptedSequences(st: State, ip: Ip, screened: seq<Result<Wire.SensorData, Drop>>)
    ensures Ingest(st, ip, screened).lastSeq == TrackRun(st.lastSeq, ip, AcceptedSequences(screened)).0
    decreases |screened|
  {
    if screened != [] {
      var next := Apply(st, ip, screened[0]).0;
      IngestTracksAcceptedSequences(next, ip, screened[1..]);
      if screened[0].Ok? {
        var s := screened[0].value.sequence;
        assert AcceptedSequences(screened) == [s] + AcceptedSequences(screened[1..]);
        assert ([s] + AcceptedSequences(screened[1..]))[1..] == AcceptedSequences(screened[1..]);
        assert next.lastSeq == Track(st.lastSeq, ip, s).0;
        assert TrackRun(st.lastSeq, ip, AcceptedSequences(screened)).0
            == TrackRun(next.lastSeq, ip, AcceptedSequences(screened[1..])).0;
      } else {
        assert AcceptedSequences(screened) == AcceptedSequences(screened[1..]);
      }
    }
  }

  /** The sequence numbers of the accepted frames, in arrival order. */
  function AcceptedSequences(screened: seq<Result<Wire.SensorData, Drop>>): seq<int>
    decreases |screened|
  {
    if screened == [] then []
    else (if screened[0].Ok? then [screened[0].value.sequence] else []) + AcceptedSequences(screened[1..])
  }

  /**
   * A packet laid out as the firmware's `authenticated_packet_t`, signed with
   * the shared key, with the protocol header and a valid reading, is stored
   * with every field intact.
   */
  lemma SignedPacketIsAccepted(mac: Mac, d: Wire.SensorData)
    requires d.magic == Wire.PacketMagic && d.version == Wire.PacketVersion
    requires CheckReading(d).Accept?
    ensures Screen(mac, Wire.EncodePacket(d, mac(Wire.EncodeSensorData(d)))) == Ok(d)
  {
    var frame := Wire.EncodePacket(d, mac(Wire.EncodeSensorData(d)));
    UnpackEncoded(d);
    assert Payload(frame) == Wire.EncodeSensorData(d);
  }

  /** Changing the tag of an authentic frame gets it dropped before any field is looked at. */
  lemma ForgedTagIsDropped(mac: Mac, frame: seq<uint8>, tag: seq<uint8>)
    requires |frame| == PacketSize && |tag| == HmacSize
    requires Tag(frame) == mac(Payload(frame)) && tag != Tag(frame)
    ensures Screen(mac, Payload(frame) + tag) == Err(HmacMismatch)
  {
    var forged := Payload(frame) + tag;
    assert Payload(forged) == Payload(frame) && Tag(forged) == tag;
  }

  class Server {
    const mac: Mac
    var lastSeq: map<Ip, int>
    var rows: seq<Row>

    function Snapshot(): State
      reads this
    {
      State(lastSeq, rows)
    }

    /** A server that has seen no frame; the CSV header written at start-up is not modelled. */
    constructor (mac: Mac)
      ensures this.mac == mac && lastSeq == map[] && rows == []
    {
      this.mac := mac;
      lastSeq := map[];
      rows := [];
    }

    /** The body of the `handle_client` loop for one complete frame from client `ip`. */
    method HandleFrame(ip: Ip, rawData: seq<uint8>) returns (d: Disposition)
      requires |rawData| == PacketSize
      modifies this
      ensures (Snapshot(), d) == Step(mac, old(Snapshot()), ip, rawData)
    {
      var payload := rawData[..DataSize];
      var receivedHmac := rawData[DataSize..];
      var expectedHmac := mac(payload);
      if receivedHmac != expectedHmac {
        assert Screen(mac, rawData) == Err(HmacMismatch);
        return Dropped(HmacMismatch);
      }
      var data := Unpack(payload);
      if data.magic != PacketMagic {
        assert Screen(mac, rawData) == Err(InvalidMagic(data.magic));
        return Dropped(InvalidMagic(data.magic));
      }
      if data.version != PacketVersion {
        assert Screen(mac, rawData) == Err(UnknownVersion(data.version));
        return Dropped(UnknownVersion(data.version));
      }
      var verdict := Validate(data.temp, data.humidity, FromBits(data.ch4), FromBits(data.co2), data.timestamp);
      if verdict.Reject? {
        assert Screen(mac, rawData) == Err(InvalidSensorData(verdict.rule));
        return Dropped(InvalidSensorData(verdict.rule));
      }
      assert Screen(mac, rawData) == Ok(data);
      var gap := Record(ip, data);
      return Stored(gap);
    }

    /** The two locked regions for an accepted frame: the sequence check and update, then the row append. */
    method Record(ip: Ip, data: Wire.SensorData) returns (gap: Option<Gap>)
      modifies this
      ensures (Snapshot(), Stored(gap)) == Apply(old(Snapshot()), ip, Ok(data))
    {
      // seq_lock region
      gap := None;
      if ip in lastSeq {
        var expected := lastSeq[ip] + 1;
        if data.sequence != expected {
          gap := Some(Gap(expected, data.sequence, data.sequence - expected));
        }
      }
      lastSeq := lastSeq[ip := data.sequence];
      // csv_lock region
      rows := rows + [RowOf(data)];
    }

    /**
     * `handle_client(conn, addr)`: handle frames until the transport fails.
     * Every complete frame the peer sent is handled, in order; the connection
     * ends with the stream's own error, and a trailing partial frame is lost.
     */
    method HandleClient(conn: Socket, ip: Ip) returns (closedBy: TransportError)
      modifies this, conn
      ensures Snapshot() == Ingest(old(Snapshot()), ip, ScreenAll(mac, Frames(old(conn.unread))))
      ensures conn.unread == [] && closedBy == ShortReadError(conn.end)
    {
      while true
        invariant Ingest(Snapshot(), ip, ScreenAll(mac, Frames(conn.unread)))
               == Ingest(old(Snapshot()), ip, ScreenAll(mac, Frames(old(conn.unread))))
        decreases |conn.unread|
      {
        ghost var before := conn.unread;
        var rawData := RecvAll(conn, PacketSize);
        if rawData.Err? {
          assert Frames(before) == [];
          return rawData.error;
        }
        NextFrame(mac, before);
        IngestCons(Snapshot(), ip, Screen(mac, rawData.value), ScreenAll(mac, Frames(conn.unread)));
        var _ := HandleFrame(ip, rawData.value);
      }
    }
  }
}
