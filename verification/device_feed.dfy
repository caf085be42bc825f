/** The pi-top device-manager branch of charge_level: one non-blocking
    receive, validation of the record "magic|state|capacity|minutes|", the
    workaround that forces external power, and the acknowledgement "118"
    that the code hands to zmq_send after every query with a socket. The
    socket itself is left out: what it delivered is an input, and whether
    the send reaches anyone is not modelled. */
module DeviceFeed {
  import opened BatteryTypes
  import opened Scan

  /** The first field every valid record carries. */
  const Magic := 218

  /** Size of the receive buffer; a message must be strictly shorter. */
  const BufferSize := 100

  /** The acknowledgement token the code tries to send after each query. */
  const AckToken := "118"

  /** What a non-blocking receive delivered: nothing (the call returned -1),
      or a message whose full length the call reports even when it copied
      only the first BufferSize bytes of it. */
  datatype Received = NoMessage | Message(data: string)

  /** One query of the feed: the reading, and the token whose send was
      attempted, if any. */
  datatype FeedResult = FeedResult(reading: Reading, ack: Option<string>)

  /** A raw state field the source accepts: Discharging, Charging or
      ExtPower. */
  predicate ValidState(state: int) {
    state == Code(Charging) || state == Code(Discharging) || state == Code(ExtPower)
  }

  /** The valid raw states are exactly the codes 0, 1 and 2. */
  lemma ValidStateRange(state: int)
    ensures ValidState(state) <==> 0 <= state <= 2
  {
  }

  /** The status a valid record reports: external power whenever the
      capacity is 100 and no time remains, whatever the raw state says. */
  function RecordStatus(state: int, capacity: int, minutes: int): (s: Status)
    requires ValidState(state)
    ensures s != Unknown
    ensures capacity == 100 && minutes == 0 ==> s == ExtPower
    ensures !(capacity == 100 && minutes == 0) ==> Code(s) == state
  {
    if capacity == 100 && minutes == 0 then ExtPower else StatusOfCode(state)
  }

  /** Decoding of one receive. A message is used only when it is 1 to 99
      bytes long, the C string it holds scans as four `%d` fields, the first
      is the magic number and the second a valid state; the capacity is
      passed through unchecked. Anything else is Unavailable. */
  function Decode(msg: Received): (r: Reading)
    ensures r.status == Unknown ==> r == Unavailable
    ensures r.status != Unknown ==> msg.Message? && 0 < |msg.data| < BufferSize
    ensures r.status != Unknown ==>
              var f := RecordFields(CString(msg.data), 0, 4);
              && |f| == 4 && f[0] == Magic && ValidState(f[1])
              && r.capacity == f[2] && r.minutes == f[3] && r.status == RecordStatus(f[1], f[2], f[3])
    ensures msg.Message? && 0 < |msg.data| < BufferSize ==>
              var f := RecordFields(CString(msg.data), 0, 4);
              |f| == 4 && f[0] == Magic && ValidState(f[1]) ==> r.status != Unknown
  {
    match msg
    case NoMessage => Unavailable
    case Message(data) =>
      if 0 < |data| < BufferSize then
        var f := RecordFields(CString(data), 0, 4);
        if |f| == 4 && f[0] == Magic && ValidState(f[1]) then
          Reading(f[2], RecordStatus(f[1], f[2], f[3]), f[3])
        else Unavailable
      else Unavailable
  }

  /** One query of the feed. With no socket the query gives up before
      receiving and attempts no send; otherwise it decodes what arrived and
      attempts to send the acknowledgement whatever the outcome. */
  function Query(connected: bool, msg: Received): (q: FeedResult)
    ensures q.ack.Some? <==> connected
    ensures q.ack.Some? ==> q.ack.value == AckToken
    ensures q.reading.status == Unknown ==> q.reading.capacity == -1 && q.reading.minutes == 0
    ensures !connected ==> q.reading == Unavailable
    ensures connected ==> q.reading == Decode(msg)
  {
    if !connected then FeedResult(Unavailable, None)
    else FeedResult(Decode(msg), Some(AckToken))
  }

  /** A message shorter than the buffer that starts with a record written by
      a producer, followed by anything (the bytes after a NUL are invisible
      to the scan, though they count toward the length), decodes exactly when
      its magic and state are valid, and then to its own fields with the
      external-power rule applied. */
  lemma DecodeRecord(magic: int, state: int, capacity: int, minutes: int, rest: string)
    requires |RecordText(magic, state, capacity, minutes) + rest| < BufferSize
    ensures Decode(Message(RecordText(magic, state, capacity, minutes) + rest))
            == if magic == Magic && ValidState(state)
               then Reading(capacity, RecordStatus(state, capacity, minutes), minutes)
               else Unavailable
  {
    var t := RecordText(magic, state, capacity, minutes);
    var data := t + rest;
    CStringAppend(t, rest);
    RecordRoundTrip(t + CString(rest), magic, state, capacity, minutes, CString(rest));
    assert |data| > 0 by {
      assert |t| >= |FieldText(magic)| > 0;
    }
    DecodeScanned(data, magic, state, capacity, minutes);
  }

  /** Any message of acceptable length whose C string scans to four numbers
      is decided by those numbers alone: accepted exactly when the first is
      the magic number and the second a valid state. */
  lemma DecodeScanned(data: string, magic: int, state: int, capacity: int, minutes: int)
    requires 0 < |data| < BufferSize
    requires RecordFields(CString(data), 0, 4) == [magic, state, capacity, minutes]
    ensures Decode(Message(data))
            == if magic == Magic && ValidState(state)
               then Reading(capacity, RecordStatus(state, capacity, minutes), minutes)
               else Unavailable
  {
    var r := Decode(Message(data));
    if magic == Magic && ValidState(state) {
      assert r.status != Unknown;
      assert r == Reading(capacity, RecordStatus(state, capacity, minutes), minutes);
    } else {
      assert r.status == Unknown;
    }
  }

  /** The record "218|0|100|0|": a raw Discharging state with a full battery
      and no time left is reported as external power. */
  lemma FullAndNoTimeIsExtPower()
    ensures Decode(Message("218|0|100|0|")) == Reading(100, ExtPower, 0)
  {
    assert NatText(218) == "218" by {
      assert NatText(21) == "21";
    }
    assert NatText(100) == "100" by {
      assert NatText(10) == "10";
    }
    assert RecordText(218, 0, 100, 0) + "" == "218|0|100|0|";
    DecodeRecord(218, 0, 100, 0, "");
  }

  /** A record whose closing '|' is missing still decodes. */
  lemma DecodeWithoutClosingBar(magic: int, state: int, capacity: int, minutes: int)
    requires |FieldText(magic) + FieldText(state) + FieldText(capacity) + IntText(minutes)| < BufferSize
    requires magic == Magic && ValidState(state)
    ensures Decode(Message(FieldText(magic) + FieldText(state) + FieldText(capacity) + IntText(minutes)))
            == Reading(capacity, RecordStatus(state, capacity, minutes), minutes)
  {
    var ab := FieldText(magic) + FieldText(state);
    var abc := ab + FieldText(capacity);
    var t := abc + IntText(minutes);
    NoNulJoin(FieldText(magic), FieldText(state));
    NoNulJoin(ab, FieldText(capacity));
    NoNulJoin(abc, IntText(minutes));
    CStringWhole(t);
    FieldsThenNumber(t, magic, state, capacity, minutes);
  }

  /** A record with only three fields is rejected, whatever they hold. */
  lemma ThreeFieldsRejected(magic: int, state: int, capacity: int)
    requires |FieldText(magic) + FieldText(state) + FieldText(capacity)| < BufferSize
    ensures Decode(Message(FieldText(magic) + FieldText(state) + FieldText(capacity))) == Unavailable
  {
    var ab := FieldText(magic) + FieldText(state);
    var t := ab + FieldText(capacity);
    NoNulJoin(FieldText(magic), FieldText(state));
    NoNulJoin(ab, FieldText(capacity));
    CStringWhole(t);
    FieldsThenEnd(t, magic, state, capacity);
  }

  /** An empty message, and one that does not fit the buffer, are ignored
      even when the text they carry is a valid record. */
  lemma LengthOutOfRangeRejected(data: string)
    requires |data| == 0 || |data| >= BufferSize
    ensures Decode(Message(data)) == Unavailable
  {
  }
}
