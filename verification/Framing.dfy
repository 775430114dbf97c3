/** The byte-at-a-time frame parser of User/ch32v30x_it.c as a transition function, and what it does on whole
    byte streams. Framing does not depend on which checksum is used, so everything here holds for any `sum`.
 */
module Framing {
  import opened Crc
  import opened Wire

  datatype RecvState = Header1 | Header2 | CmdType | Cmd | LenHigh | LenLow | Data | CrcHigh | CrcLow

  /** The receiver's static variables and the shared `g_frame_data`. */
  datatype Rx = Rx(state: RecvState, index: nat, cmdType: Byte, cmd: Byte, dataLen: Word,
                   buffer: seq<Byte>, crcReceived: Word)
  {
    /** What holds in every reachable state; in particular no write leaves the 1024-byte buffer. */
    predicate Valid() {
      && |buffer| == MAX_DATA_LEN
      && (state == LenLow ==> dataLen % 256 == 0)
      && (state == Data ==> index < dataLen <= MAX_DATA_LEN)
      && (state == CrcHigh || state == CrcLow ==> 0 < dataLen <= MAX_DATA_LEN)
      && (state == CrcLow ==> crcReceived % 256 == 0)
    }

    /** The frame that `g_frame_data` holds. */
    function Held(): Frame
      requires dataLen <= |buffer|
    {
      Frame(cmdType, cmd, buffer[..dataLen])
    }
  }

  /** One received byte: the new state and whether the receive event is raised. */
  function Step(sum: Checksum, r: Rx, b: Byte): (next: (Rx, bool))
    requires r.Valid()
    ensures next.0.Valid()
    ensures next.1 ==> next.0.state == Header1 && next.0.dataLen <= MAX_DATA_LEN && next.0.Held().Valid()
  {
    match r.state
    case Header1 => (if b == HEADER1 then r.(state := Header2) else r, false)
    case Header2 => (r.(state := if b == HEADER2 then CmdType else Header1), false)
    case CmdType => (r.(cmdType := b, state := Cmd), false)
    case Cmd => (r.(cmd := b, state := LenHigh), false)
    case LenHigh => (r.(dataLen := b * 256, state := LenLow), false)
    case LenLow =>
      var n := r.dataLen + b;
      if 0 < n <= MAX_DATA_LEN then (r.(dataLen := n, index := 0, state := Data), false)
      else (r.(dataLen := n, state := Header1), false)
    case Data =>
      var r' := r.(buffer := r.buffer[r.index := b], index := r.index + 1);
      (if r'.index >= r.dataLen then r'.(state := CrcHigh) else r', false)
    case CrcHigh => (r.(crcReceived := b * 256, state := CrcLow), false)
    case CrcLow =>
      var crc := r.crcReceived + b;
      (r.(crcReceived := crc, index := 0, state := Header1), crc == sum(Guarded(r.Held())))
  }

  // ----- whole runs

  /** A frame reported by the event, with the number of bytes consumed when it was raised. */
  datatype Report = Report(end: nat, frame: Frame)

  /** The state after a byte stream. */
  function Final(sum: Checksum, r: Rx, s: seq<Byte>): (r': Rx)
    requires r.Valid()
    ensures r'.Valid()
    decreases |s|
  {
    if s == [] then r else Final(sum, Step(sum, r, s[0]).0, s[1..])
  }

  /** The events raised over a byte stream whose first byte is number `pos`, each with the frame then held. */
  function Reports(sum: Checksum, r: Rx, s: seq<Byte>, pos: nat): seq<Report>
    requires r.Valid()
    decreases |s|
  {
    if s == [] then []
    else
      var next := Step(sum, r, s[0]);
      var rest := Reports(sum, next.0, s[1..], pos + 1);
      if next.1 then [Report(pos + 1, next.0.Held())] + rest else rest
  }

  lemma {:induction false} FinalConcat(sum: Checksum, r: Rx, s: seq<Byte>, t: seq<Byte>)
    requires r.Valid()
    ensures Final(sum, r, s + t) == Final(sum, Final(sum, r, s), t)
    decreases |s|
  {
    if s == [] {
      assert s + t == t;
    } else {
      assert (s + t)[1..] == s[1..] + t;
      FinalConcat(sum, Step(sum, r, s[0]).0, s[1..], t);
    }
  }

  lemma {:induction false} ReportsConcat(sum: Checksum, r: Rx, s: seq<Byte>, t: seq<Byte>, pos: nat)
    requires r.Valid()
    ensures Reports(sum, r, s + t, pos) == Reports(sum, r, s, pos) + Reports(sum, Final(sum, r, s), t, pos + |s|)
    decreases |s|
  {
    if s == [] {
      assert s + t == t;
    } else {
      assert (s + t)[1..] == s[1..] + t;
      ReportsConcat(sum, Step(sum, r, s[0]).0, s[1..], t, pos + 1);
    }
  }

  // ----- the reference: frames located by their format alone

  /** What a stream starts with: too little to tell, `count` bytes of no use, or a frame of `count` bytes. */
  datatype Match = Incomplete | Skip(count: nat) | Found(count: nat, frame: Frame)

  function Classify(sum: Checksum, s: seq<Byte>): (m: Match)
    ensures m != Incomplete ==> 0 < m.count <= |s|
    ensures m.Found? ==> Encodes(sum, s[..m.count], m.frame)
  {
    if |s| < 1 then Incomplete
    else if s[0] != HEADER1 then Skip(1)
    else if |s| < 2 then Incomplete
    else if s[1] != HEADER2 then Skip(2)
    else if |s| < 6 then Incomplete
    else
      var n := Join(s[4], s[5]);
      if !(0 < n <= MAX_DATA_LEN) then Skip(6)
      else if |s| < 8 + n then Incomplete
      else
        var f := Frame(s[2], s[3], s[6..6 + n]);
        if Encodes(sum, s[..8 + n], f) then Found(8 + n, f) else Skip(8 + n)
  }

  function ReportOf(m: Match, pos: nat): seq<Report> {
    if m.Found? then [Report(pos + m.count, m.frame)] else []
  }

  /** The frames of a stream whose first byte is number `pos`. */
  function Scan(sum: Checksum, s: seq<Byte>, pos: nat): seq<Report>
    decreases |s|, 1
  {
    ScanAfter(sum, Classify(sum, s), s, pos)
  }

  function ScanAfter(sum: Checksum, m: Match, s: seq<Byte>, pos: nat): seq<Report>
    requires m != Incomplete ==> 0 < m.count <= |s|
    decreases |s|, 0
  {
    if m == Incomplete then [] else ReportOf(m, pos) + Scan(sum, s[m.count..], pos + m.count)
  }

  // ----- the parser finds exactly the frames of the reference

  /** How many more bytes an event needs at least. */
  function Need(r: Rx): nat
    requires r.Valid()
  {
    match r.state
    case Header1 => 9
    case Header2 => 8
    case CmdType => 7
    case Cmd => 6
    case LenHigh => 5
    case LenLow => 4
    case Data => r.dataLen - r.index + 2
    case CrcHigh => 2
    case CrcLow => 1
  }

  lemma {:induction false} Quiet(sum: Checksum, r: Rx, s: seq<Byte>, pos: nat)
    requires r.Valid() && |s| < Need(r)
    ensures Reports(sum, r, s, pos) == []
    decreases |s|
  {
    if s != [] {
      Quiet(sum, Step(sum, r, s[0]).0, s[1..], pos + 1);
    }
  }

  /** Six bytes that start a frame of length `n` lead to the payload. */
  lemma RunHeader(sum: Checksum, r: Rx, s: seq<Byte>)
    requires r.Valid() && r.state == Header1
    requires |s| == 6 && s[0] == HEADER1 && s[1] == HEADER2
    ensures var n := Join(s[4], s[5]);
            var ok := 0 < n <= MAX_DATA_LEN;
            Final(sum, r, s) == r.(cmdType := s[2], cmd := s[3], dataLen := n,
                              index := if ok then 0 else r.index, state := if ok then Data else Header1)
  {
    var r2 := r.(state := CmdType);
    var r4 := r.(cmdType := s[2], cmd := s[3], state := LenHigh);
    assert s == s[..2] + (s[2..4] + s[4..]);
    FinalConcat(sum, r, s[..2], s[2..4] + s[4..]);
    FinalConcat(sum, r2, s[2..4], s[4..]);
    FinalOfTwo(sum, r, s[..2]);
    FinalOfTwo(sum, r2, s[2..4]);
    FinalOfTwo(sum, r4, s[4..]);
  }

  lemma FinalOfTwo(sum: Checksum, r: Rx, s: seq<Byte>)
    requires r.Valid() && |s| == 2
    ensures Final(sum, r, s) == Step(sum, Step(sum, r, s[0]).0, s[1]).0
  {
    var r1 := Step(sum, r, s[0]).0;
    assert Final(sum, r, s) == Final(sum, r1, s[1..]);
    assert Final(sum, r1, s[1..]) == Final(sum, Step(sum, r1, s[1]).0, s[1..][1..]);
  }

  lemma BufferStep(buffer: seq<Byte>, i: nat, s: seq<Byte>)
    requires 0 < |s| && i + |s| <= |buffer|
    ensures var b := buffer[i := s[0]];
            b[..i + 1] + s[1..] + b[i + |s|..] == buffer[..i] + s + buffer[i + |s|..]
  {
  }

  /** Where payload bytes go. */
  function Filled(r: Rx, s: seq<Byte>): Rx
    requires r.Valid() && r.state == Data && r.index + |s| <= r.dataLen
  {
    r.(buffer := r.buffer[..r.index] + s + r.buffer[r.index + |s|..], index := r.index + |s|,
       state := if r.index + |s| == r.dataLen then CrcHigh else Data)
  }

  lemma FilledStep(sum: Checksum, r: Rx, s: seq<Byte>)
    requires r.Valid() && r.state == Data && 0 < |s| && r.index + |s| <= r.dataLen
    ensures var r1 := Step(sum, r, s[0]).0;
            if |s| == 1 then r1 == Filled(r, s) else r1.state == Data && Filled(r1, s[1..]) == Filled(r, s)
  {
    BufferStep(r.buffer, r.index, s);
    if |s| == 1 {
      assert r.buffer[r.index := s[0]] == r.buffer[..r.index] + s + r.buffer[r.index + 1..];
    }
  }

  lemma {:induction false} RunPayload(sum: Checksum, r: Rx, s: seq<Byte>)
    requires r.Valid() && r.state == Data && r.index + |s| <= r.dataLen
    ensures Final(sum, r, s) == Filled(r, s)
    decreases |s|
  {
    if s == [] {
      assert r.buffer[..r.index] + [] + r.buffer[r.index..] == r.buffer;
    } else {
      FilledStep(sum, r, s);
      if |s| == 1 {
        assert s[1..] == [];
      } else {
        RunPayload(sum, Step(sum, r, s[0]).0, s[1..]);
      }
    }
  }

  /** The state in which the CRC of a frame with this type, command and payload is awaited. */
  lemma RunToCrc(sum: Checksum, r: Rx, s: seq<Byte>, n: nat)
    requires r.Valid() && r.state == Header1
    requires |s| == 6 + n && s[0] == HEADER1 && s[1] == HEADER2
    requires n == Join(s[4], s[5]) && 0 < n <= MAX_DATA_LEN
    ensures var r' := Final(sum, r, s);
            r'.state == CrcHigh && r'.dataLen == n && r'.Held() == Frame(s[2], s[3], s[6..])
  {
    assert s == s[..6] + s[6..];
    FinalConcat(sum, r, s[..6], s[6..]);
    RunHeader(sum, r, s[..6]);
    RunPayload(sum, Final(sum, r, s[..6]), s[6..]);
  }

  /** The last two bytes raise the event exactly if they are the CRC. */
  lemma RunCrc(sum: Checksum, r: Rx, s: seq<Byte>, pos: nat)
    requires r.Valid() && r.state == CrcHigh && |s| == 2
    ensures Final(sum, r, s).state == Header1
    ensures Final(sum, r, s).dataLen == r.dataLen && Final(sum, r, s).Held() == r.Held()
    ensures Reports(sum, r, s, pos)
         == if Join(s[0], s[1]) == sum(Guarded(r.Held())) then [Report(pos + 2, r.Held())] else []
  {
    FinalOfTwo(sum, r, s);
    var r1 := Step(sum, r, s[0]).0;
    var r2 := Step(sum, r1, s[1]);
    assert Reports(sum, r, s, pos) == Reports(sum, r1, s[1..], pos + 1);
    assert Reports(sum, r2.0, s[1..][1..], pos + 2) == [];
    assert r1.Held() == r.Held() == r2.0.Held();
  }

  /** A whole candidate frame: back in HEADER1, and reported exactly if the checksum matches. */
  lemma RunFrame(sum: Checksum, r: Rx, s: seq<Byte>, pos: nat, n: nat)
    requires r.Valid() && r.state == Header1
    requires |s| == 8 + n && s[0] == HEADER1 && s[1] == HEADER2
    requires n == Join(s[4], s[5]) && 0 < n <= MAX_DATA_LEN
    ensures var f := Frame(s[2], s[3], s[6..6 + n]);
            && Final(sum, r, s).state == Header1
            && Final(sum, r, s).dataLen == n && Final(sum, r, s).Held() == f
            && Reports(sum, r, s, pos) == if Encodes(sum, s, f) then [Report(pos + 8 + n, f)] else []
  {
    var head, crc := s[..6 + n], s[6 + n..];
    assert s == head + crc;
    assert head[6..] == s[6..6 + n];
    FinalConcat(sum, r, head, crc);
    ReportsConcat(sum, r, head, crc, pos);
    RunToCrc(sum, r, head, n);
    QuietHead(sum, r, head, n, pos);
    RunCrc(sum, Final(sum, r, head), crc, pos + 6 + n);
  }

  lemma QuietHead(sum: Checksum, r: Rx, s: seq<Byte>, n: nat, pos: nat)
    requires r.Valid() && r.state == Header1
    requires 6 <= |s| < 8 + n && s[0] == HEADER1 && s[1] == HEADER2
    requires n == Join(s[4], s[5]) && 0 < n <= MAX_DATA_LEN
    ensures Reports(sum, r, s, pos) == []
  {
    assert s == s[..6] + s[6..];
    ReportsConcat(sum, r, s[..6], s[6..], pos);
    RunHeader(sum, r, s[..6]);
    Quiet(sum, r, s[..6], pos);
    Quiet(sum, Final(sum, r, s[..6]), s[6..], pos + 6);
  }

  lemma IncompleteIsQuiet(sum: Checksum, r: Rx, s: seq<Byte>, pos: nat)
    requires r.Valid() && r.state == Header1 && Classify(sum, s) == Incomplete
    ensures Reports(sum, r, s, pos) == []
  {
    if |s| < 6 { Quiet(sum, r, s, pos); } else { QuietHead(sum, r, s, Join(s[4], s[5]), pos); }
  }

  /** Useless bytes bring the parser back to HEADER1 without an event. */
  lemma SkipIsQuiet(sum: Checksum, r: Rx, s: seq<Byte>, pos: nat)
    requires r.Valid() && r.state == Header1 && Classify(sum, s).Skip?
    ensures var head := s[..Classify(sum, s).count];
            Final(sum, r, head).state == Header1 && Reports(sum, r, head, pos) == []
  {
    var k := Classify(sum, s).count;
    if k == 1 {
      assert Final(sum, r, s[..1]) == Final(sum, r, s[..1][1..]);
      Quiet(sum, r, s[..1], pos);
    } else if k == 2 {
      FinalOfTwo(sum, r, s[..2]);
      Quiet(sum, r, s[..2], pos);
    } else if k == 6 {
      RunHeader(sum, r, s[..6]);
      Quiet(sum, r, s[..6], pos);
    } else {
      RunFrame(sum, r, s[..k], pos, k - 8);
      assert s[..k][6..k - 2] == s[6..k - 2];
    }
  }

  lemma FoundIsReported(sum: Checksum, r: Rx, w: seq<Byte>, f: Frame, pos: nat)
    requires r.Valid() && r.state == Header1 && Encodes(sum, w, f)
    ensures Final(sum, r, w).state == Header1
    ensures Final(sum, r, w).dataLen == |f.payload| && Final(sum, r, w).Held() == f
    ensures Reports(sum, r, w, pos) == [Report(pos + f.Size(), f)]
  {
    RunFrame(sum, r, w, pos, |f.payload|);
  }

  lemma MatchStep(sum: Checksum, r: Rx, s: seq<Byte>, pos: nat, m: Match)
    requires r.Valid() && r.state == Header1 && m == Classify(sum, s) && m != Incomplete
    ensures Final(sum, r, s[..m.count]).state == Header1 && Reports(sum, r, s[..m.count], pos) == ReportOf(m, pos)
  {
    if m.Skip? { SkipIsQuiet(sum, r, s, pos); } else { FoundIsReported(sum, r, s[..m.count], m.frame, pos); }
  }

  lemma ParserStep(sum: Checksum, r: Rx, s: seq<Byte>, pos: nat, m: Match)
    requires r.Valid() && r.state == Header1 && m == Classify(sum, s) && m != Incomplete
    ensures Final(sum, r, s[..m.count]).state == Header1
    ensures Reports(sum, r, s, pos)
         == ReportOf(m, pos) + Reports(sum, Final(sum, r, s[..m.count]), s[m.count..], pos + m.count)
  {
    MatchStep(sum, r, s, pos, m);
    assert s == s[..m.count] + s[m.count..];
    ReportsConcat(sum, r, s[..m.count], s[m.count..], pos);
  }

  /** On every byte stream, the events of the parser are exactly the frames of the reference scan. */
  lemma {:induction false} ParserIsScan(sum: Checksum, r: Rx, s: seq<Byte>, pos: nat)
    requires r.Valid() && r.state == Header1
    ensures Reports(sum, r, s, pos) == Scan(sum, s, pos)
    decreases |s|
  {
    var m := Classify(sum, s);
    if m == Incomplete {
      IncompleteIsQuiet(sum, r, s, pos);
    } else {
      ParserStep(sum, r, s, pos, m);
      ParserIsScan(sum, Final(sum, r, s[..m.count]), s[m.count..], pos + m.count);
    }
  }

  // ----- soundness, completeness, resynchronisation

  /** The report names a complete valid frame, and the bytes up to its end are that frame's encoding. */
  ghost predicate Located(sum: Checksum, s: seq<Byte>, pos: nat, report: Report) {
    && report.frame.Valid()
    && pos + report.frame.Size() <= report.end <= pos + |s|
    && Encodes(sum, s[report.end - report.frame.Size() - pos..report.end - pos], report.frame)
  }

  lemma LocatedLater(sum: Checksum, s: seq<Byte>, pos: nat, k: nat, report: Report)
    requires k <= |s| && Located(sum, s[k..], pos + k, report)
    ensures Located(sum, s, pos, report)
  {
    var lo, hi := report.end - report.frame.Size() - pos, report.end - pos;
    assert s[k..][lo - k..hi - k] == s[lo..hi];
  }

  lemma LocatedNow(sum: Checksum, s: seq<Byte>, pos: nat, m: Match)
    requires m == Classify(sum, s) && m.Found?
    ensures Located(sum, s, pos, Report(pos + m.count, m.frame))
  {
    assert s[0..m.count] == s[..m.count];
  }

  lemma {:induction false} ScanSound(sum: Checksum, s: seq<Byte>, pos: nat, i: nat)
    requires i < |Scan(sum, s, pos)|
    ensures Located(sum, s, pos, Scan(sum, s, pos)[i])
    decreases |s|
  {
    var m := Classify(sum, s);
    var rest := Scan(sum, s[m.count..], pos + m.count);
    assert Scan(sum, s, pos) == ReportOf(m, pos) + rest;
    if i < |ReportOf(m, pos)| {
      LocatedNow(sum, s, pos, m);
    } else {
      var j := i - |ReportOf(m, pos)|;
      ScanSound(sum, s[m.count..], pos + m.count, j);
      LocatedLater(sum, s, pos, m.count, rest[j]);
    }
  }

  /** Consecutive reports, the first starting at `pos` or later, do not overlap. */
  ghost predicate Apart(reports: seq<Report>, pos: nat) {
    reports != [] ==> pos + reports[0].frame.Size() <= reports[0].end && Apart(reports[1..], reports[0].end)
  }

  lemma {:induction false} ApartPairwise(reports: seq<Report>, pos: nat, i: nat, j: nat)
    requires Apart(reports, pos) && j < |reports|
    ensures pos + reports[j].frame.Size() <= reports[j].end
    ensures i < j ==> reports[i].end + reports[j].frame.Size() <= reports[j].end
    decreases |reports|
  {
    if j > 0 {
      ApartPairwise(reports[1..], reports[0].end, if i > 0 then i - 1 else 0, j - 1);
    }
  }

  lemma {:induction false} ScanApart(sum: Checksum, s: seq<Byte>, pos: nat)
    ensures Apart(Scan(sum, s, pos), pos)
    decreases |s|
  {
    var m := Classify(sum, s);
    if m != Incomplete {
      var rest := Scan(sum, s[m.count..], pos + m.count);
      ScanApart(sum, s[m.count..], pos + m.count);
      ApartCons(m, rest, pos);
    }
  }

  lemma ApartCons(m: Match, rest: seq<Report>, pos: nat)
    requires m != Incomplete && Apart(rest, pos + m.count) && (m.Found? ==> m.frame.Size() == m.count)
    ensures Apart(ReportOf(m, pos) + rest, pos)
  {
    if m.Found? {
      assert (ReportOf(m, pos) + rest)[1..] == rest;
    } else {
      assert ReportOf(m, pos) + rest == rest;
    }
  }

  /** Receiver soundness: on every byte stream, each event reports the frame that just went by, and the frames
      reported never overlap. */
  lemma ReceiverSound(sum: Checksum, r: Rx, s: seq<Byte>)
    requires r.Valid() && r.state == Header1
    ensures var reports := Reports(sum, r, s, 0);
            && (forall i :: 0 <= i < |reports| ==> Located(sum, s, 0, reports[i]))
            && (forall i, j :: 0 <= i < j < |reports| ==>
                  reports[i].end + reports[j].frame.Size() <= reports[j].end)
  {
    ParserIsScan(sum, r, s, 0);
    var reports := Scan(sum, s, 0);
    forall i | 0 <= i < |reports|
      ensures Located(sum, s, 0, reports[i])
    {
      ScanSound(sum, s, 0, i);
    }
    forall i, j | 0 <= i < j < |reports|
      ensures reports[i].end + reports[j].frame.Size() <= reports[j].end
    {
      ScanApart(sum, s, 0);
      ApartPairwise(reports, 0, i, j);
    }
  }

  /** Receiver completeness: a frame that begins where the parser waits for one is reported, whatever follows. */
  lemma ScanFrame(sum: Checksum, w: seq<Byte>, f: Frame, rest: seq<Byte>, pos: nat)
    requires Encodes(sum, w, f)
    ensures Scan(sum, w + rest, pos) == [Report(pos + f.Size(), f)] + Scan(sum, rest, pos + f.Size())
  {
    var s := w + rest;
    ClassifyFrame(sum, w, f, rest);
    assert s[|w|..] == rest;
  }

  lemma ClassifyFrame(sum: Checksum, w: seq<Byte>, f: Frame, rest: seq<Byte>)
    requires Encodes(sum, w, f)
    ensures Classify(sum, w + rest) == Found(f.Size(), f)
  {
    var s, n := w + rest, |f.payload|;
    assert s[..8 + n] == w;
    assert s[6..6 + n] == w[6..6 + n];
  }

  /** The parser waits for a header after the first `start` bytes. */
  ghost predicate Waits(sum: Checksum, r: Rx, s: seq<Byte>, start: int)
    requires r.Valid()
  {
    0 <= start <= |s| && Final(sum, r, s[..start]).state == Header1
  }

  function Start(report: Report): int {
    report.end - report.frame.Size()
  }

  lemma TakeSplit(s: seq<Byte>, k: nat, n: nat)
    requires k + n <= |s|
    ensures s[..k + n] == s[..k] + s[k..][..n]
  {
  }

  lemma FinalSplit(sum: Checksum, r: Rx, s: seq<Byte>, k: nat, n: nat)
    requires r.Valid() && k + n <= |s|
    ensures Final(sum, r, s[..k + n]) == Final(sum, Final(sum, r, s[..k]), s[k..][..n])
  {
    TakeSplit(s, k, n);
    FinalConcat(sum, r, s[..k], s[k..][..n]);
  }

  lemma WaitsLater(sum: Checksum, r: Rx, s: seq<Byte>, k: nat, n: int)
    requires r.Valid() && k <= |s| && Waits(sum, Final(sum, r, s[..k]), s[k..], n)
    ensures Waits(sum, r, s, k + n)
  {
    FinalSplit(sum, r, s, k, n);
  }

  lemma WaitsNow(sum: Checksum, r: Rx, s: seq<Byte>)
    requires r.Valid() && r.state == Header1
    ensures Waits(sum, r, s, 0)
  {
    assert s[..0] == [];
  }

  lemma {:induction false} ReportsBegin(sum: Checksum, r: Rx, s: seq<Byte>, pos: nat, i: nat)
    requires r.Valid() && r.state == Header1 && i < |Scan(sum, s, pos)|
    ensures Waits(sum, r, s, Start(Scan(sum, s, pos)[i]) - pos)
    decreases |s|
  {
    var m := Classify(sum, s);
    var rest := Scan(sum, s[m.count..], pos + m.count);
    assert Scan(sum, s, pos) == ReportOf(m, pos) + rest;
    if i < |ReportOf(m, pos)| {
      WaitsNow(sum, r, s);
    } else {
      var j := i - |ReportOf(m, pos)|;
      MatchStep(sum, r, s, pos, m);
      ReportsBegin(sum, Final(sum, r, s[..m.count]), s[m.count..], pos + m.count, j);
      WaitsLater(sum, r, s, m.count, Start(rest[j]) - (pos + m.count));
    }
  }

  lemma ReportedOnlyIf(sum: Checksum, r: Rx, g: seq<Byte>, t: seq<Byte>, f: Frame)
    requires r.Valid() && r.state == Header1 && Report(|g| + f.Size(), f) in Scan(sum, g + t, 0)
    ensures Final(sum, r, g).state == Header1
  {
    var reports := Scan(sum, g + t, 0);
    var i :| 0 <= i < |reports| && reports[i] == Report(|g| + f.Size(), f);
    ReportsBegin(sum, r, g + t, 0, i);
    assert (g + t)[..|g|] == g;
  }

  lemma ReportedFirst(sum: Checksum, r: Rx, w: seq<Byte>, f: Frame, rest: seq<Byte>, pos: nat)
    requires r.Valid() && r.state == Header1 && Encodes(sum, w, f)
    ensures Report(pos + f.Size(), f) in Reports(sum, r, w + rest, pos)
  {
    ParserIsScan(sum, r, w + rest, pos);
    ScanFrame(sum, w, f, rest, pos);
  }

  lemma ReportedIf(sum: Checksum, r: Rx, g: seq<Byte>, t: seq<Byte>, report: Report)
    requires r.Valid() && report in Reports(sum, Final(sum, r, g), t, |g|)
    ensures report in Reports(sum, r, g + t, 0)
  {
    ReportsConcat(sum, r, g, t, 0);
  }

  /** Completeness, exactly: a frame anywhere in the stream is reported if and only if the parser is in HEADER1 when its
      first byte arrives. */
  lemma FrameReportedExactly(sum: Checksum, r: Rx, g: seq<Byte>, w: seq<Byte>, f: Frame, rest: seq<Byte>)
    requires r.Valid() && r.state == Header1 && Encodes(sum, w, f)
    ensures Report(|g| + f.Size(), f) in Reports(sum, r, g + (w + rest), 0) <==> Final(sum, r, g).state == Header1
  {
    ParserIsScan(sum, r, g + (w + rest), 0);
    if Report(|g| + f.Size(), f) in Scan(sum, g + (w + rest), 0) {
      ReportedOnlyIf(sum, r, g, w + rest, f);
    }
    if Final(sum, r, g).state == Header1 {
      ReportedFirst(sum, Final(sum, r, g), w, f, rest, |g|);
      ReportedIf(sum, r, g, w + rest, Report(|g| + f.Size(), f));
    }
  }

  /** A stray header byte just before a frame hides it. */
  lemma StrayByteHidesFrame(sum: Checksum, r: Rx, w: seq<Byte>, f: Frame, rest: seq<Byte>)
    requires r.Valid() && r.state == Header1 && Encodes(sum, w, f)
    ensures Report(1 + f.Size(), f) !in Reports(sum, r, [HEADER1] + (w + rest), 0)
  {
    FrameReportedExactly(sum, r, [HEADER1], w, f, rest);
    assert Final(sum, r, [HEADER1]) == Final(sum, Step(sum, r, HEADER1).0, [HEADER1][1..]);
  }

  /** How many more bytes can pass at most before the parser is back in HEADER1. */
  function Resync(r: Rx): (n: nat)
    requires r.Valid()
    ensures n <= 1031
  {
    match r.state
    case Header1 => 0
    case Header2 => 1031
    case CmdType => 1030
    case Cmd => 1029
    case LenHigh => 1028
    case LenLow => 1027
    case Data => r.dataLen - r.index + 2
    case CrcHigh => 2
    case CrcLow => 1
  }

  /** Bounded resynchronisation: whatever the bytes are, one of the next 1031 brings the parser to HEADER1. */
  lemma {:induction false} BackInHeader1(sum: Checksum, r: Rx, s: seq<Byte>)
    requires r.Valid() && |s| >= Resync(r)
    ensures exists k :: 0 <= k <= Resync(r) && Final(sum, r, s[..k]).state == Header1
    decreases |s|
  {
    if r.state == Header1 {
      assert Final(sum, r, s[..0]).state == Header1;
    } else {
      var r1 := Step(sum, r, s[0]).0;
      BackInHeader1(sum, r1, s[1..]);
      var k :| 0 <= k <= Resync(r1) && Final(sum, r1, s[1..][..k]).state == Header1;
      assert s[..k + 1][1..] == s[1..][..k];
      assert Final(sum, r, s[..k + 1]).state == Header1;
    }
  }
}
