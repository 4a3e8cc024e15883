/** pkg/wire: messages with a 4-byte big-endian length, on a stream of bytes. */
module Wire {
  import opened Base

  const MAX_MSG_SIZE := 64 * 1024 * 1024

  predicate Sendable(payload: bytes) { 0 < |payload| <= MAX_MSG_SIZE }

  function Frame(payload: bytes): bytes { Be(|payload|, 4) + payload }

  /** What a read returns and what it leaves on the stream. */
  datatype Read<T> = Read(result: Result<T>, rest: bytes)

  /** io.ReadFull: on a stream that is too short it takes everything and fails. */
  function Take(s: bytes, n: nat): Read<bytes> {
    if n <= |s| then Read(Ok(s[..n]), s[n..]) else Read(Err("unexpected EOF"), [])
  }

  function ReadFrame(s: bytes): (r: Read<bytes>)
    ensures r.result.Ok? ==> |r.rest| < |s|
  {
    var header := Take(s, 4);
    if header.result.Err? then header
    else
      var size := FromBe(header.result.value);
      if size == 0 then Read(Err("wire: empty message"), header.rest)
      else if size > MAX_MSG_SIZE then Read(Err("wire: message too large"), header.rest)
      else Take(header.rest, size)
  }

  class Stream {
    var data: bytes

    constructor ()
      ensures data == []
    {
      data := [];
    }

    method ReadFull(n: nat) returns (r: Result<bytes>)
      modifies this
      ensures Read(r, data) == Take(old(data), n)
    {
      if n <= |data| {
        r, data := Ok(data[..n]), data[n..];
      } else {
        r, data := Err("unexpected EOF"), [];
      }
    }

    /** `payload` is the JSON of the message. */
    method WriteMsg(payload: bytes) returns (r: Result<()>)
      modifies this
      ensures r.Ok? <==> |payload| <= MAX_MSG_SIZE
      ensures data == old(data) + if r.Ok? then Frame(payload) else []
    {
      if |payload| > MAX_MSG_SIZE {
        return Err("wire: message too large");
      }
      data := data + Be(|payload|, 4);
      data := data + payload;
      r := Ok(());
    }

    method ReadRawMsg() returns (r: Result<bytes>)
      modifies this
      ensures Read(r, data) == ReadFrame(old(data))
    {
      var header := ReadFull(4);
      if header.Err? {
        return header;
      }
      var size := FromBe(header.value);
      if size == 0 {
        return Err("wire: empty message");
      }
      if size > MAX_MSG_SIZE {
        return Err("wire: message too large");
      }
      r := ReadFull(size);
    }

    /** `decode` is json.Unmarshal into the caller's type. */
    method ReadMsg<T>(decode: bytes -> Option<T>) returns (r: Result<T>)
      modifies this
      ensures data == ReadFrame(old(data)).rest
      ensures r.Ok? <==> ReadFrame(old(data)).result.Ok? && decode(ReadFrame(old(data)).result.value).Some?
      ensures r.Ok? ==> Some(r.value) == decode(ReadFrame(old(data)).result.value)
    {
      var header := ReadFull(4);
      if header.Err? {
        return Err(header.error);
      }
      var size := FromBe(header.value);
      if size == 0 {
        return Err("wire: empty message");
      }
      if size > MAX_MSG_SIZE {
        return Err("wire: message too large");
      }
      var buf := ReadFull(size);
      if buf.Err? {
        return Err(buf.error);
      }
      var v := decode(buf.value);
      r := if v.Some? then Ok(v.value) else Err("wire: unmarshal");
    }
  }

  // ---- One frame -----------------------------------------------------------

  lemma HeaderSize(payload: bytes)
    requires |payload| <= MAX_MSG_SIZE
    ensures FromBe(Be(|payload|, 4)) == |payload| && |Frame(payload)| == 4 + |payload|
  {
    FourBytes();
    BeRoundTrip(|payload|, 4);
  }

  /** A stream starts with a message exactly when it starts with the frame of a
      sendable payload; whatever follows is left alone. */
  lemma ReadsExactlyFrames(s: bytes, payload: bytes, rest: bytes)
    ensures ReadFrame(s) == Read(Ok(payload), rest) <==> Sendable(payload) && s == Frame(payload) + rest
  {
    if Sendable(payload) && s == Frame(payload) + rest {
      HeaderSize(payload);
      assert s[..4] == Be(|payload|, 4) && s[4..] == payload + rest;
    }
    if ReadFrame(s) == Read(Ok(payload), rest) {
      var header := s[..4];
      BeIsUnique(header);
      assert s == header + s[4..] && s[4..] == payload + rest;
    }
  }

  /** No strict prefix of a frame is a message. */
  lemma StrictPrefixIsError(payload: bytes, k: nat)
    requires Sendable(payload) && k < |Frame(payload)|
    ensures ReadFrame(Frame(payload)[..k]).result.Err?
  {
    HeaderSize(payload);
    if k >= 4 {
      assert Frame(payload)[..k][..4] == Be(|payload|, 4);
    }
  }

  // ---- Many frames ---------------------------------------------------------

  function Frames(payloads: seq<bytes>): bytes {
    if payloads == [] then [] else Frame(payloads[0]) + Frames(payloads[1..])
  }

  ghost predicate AllSendable(payloads: seq<bytes>) {
    forall i :: 0 <= i < |payloads| ==> Sendable(payloads[i])
  }

  /** Messages read until the first error. */
  function ReadUntilError(s: bytes): seq<bytes>
    decreases |s|
  {
    var r := ReadFrame(s);
    if r.result.Ok? then [r.result.value] + ReadUntilError(r.rest) else []
  }

  /** `n` successful reads: the messages, and the bytes left. */
  function ReadMany(s: bytes, n: nat): Read<seq<bytes>> {
    if n == 0 then Read(Ok([]), s)
    else
      var r := ReadFrame(s);
      if r.result.Err? then Read(Err(r.result.error), r.rest)
      else
        var more := ReadMany(r.rest, n - 1);
        if more.result.Err? then more else Read(Ok([r.result.value] + more.result.value), more.rest)
  }

  /** Concatenated frames read back as the same list, and leave the rest. */
  lemma {:induction false} ReadsBackList(payloads: seq<bytes>, rest: bytes)
    requires AllSendable(payloads)
    ensures ReadMany(Frames(payloads) + rest, |payloads|) == Read(Ok(payloads), rest)
  {
    hide Frame, ReadFrame;
    if payloads == [] {
      assert Frames(payloads) + rest == rest;
    } else {
      var tail := Frames(payloads[1..]) + rest;
      assert Sendable(payloads[0]);
      assert Frames(payloads) + rest == Frame(payloads[0]) + tail;
      ReadsExactlyFrames(Frames(payloads) + rest, payloads[0], tail);
      ReadsBackList(payloads[1..], rest);
      assert payloads == [payloads[0]] + payloads[1..];
    }
  }

  lemma CutInFirst(payloads: seq<bytes>, k: nat)
    requires payloads != [] && Sendable(payloads[0]) && k < |Frame(payloads[0])|
    ensures k <= |Frames(payloads)| && ReadUntilError(Frames(payloads)[..k]) == []
    ensures Frames(payloads[..1]) == Frame(payloads[0])
  {
    hide Frame, ReadFrame;
    assert Frames(payloads)[..k] == Frame(payloads[0])[..k];
    StrictPrefixIsError(payloads[0], k);
    FramesHead(payloads, 1);
  }

  lemma CutPastFirst(payloads: seq<bytes>, k: nat)
    requires payloads != [] && Sendable(payloads[0]) && |Frame(payloads[0])| <= k <= |Frames(payloads)|
    ensures ReadUntilError(Frames(payloads)[..k])
         == [payloads[0]] + ReadUntilError(Frames(payloads[1..])[..k - |Frame(payloads[0])|])
  {
    hide Frame, ReadFrame;
    var rest := Frames(payloads[1..])[..k - |Frame(payloads[0])|];
    assert Frames(payloads)[..k] == Frame(payloads[0]) + rest;
    ReadsExactlyFrames(Frames(payloads)[..k], payloads[0], rest);
  }

  /** A stream cut anywhere gives the messages that are whole, and nothing else. */
  lemma {:induction false} CutStreamGivesWholeMessages(payloads: seq<bytes>, k: nat) returns (m: nat)
    requires AllSendable(payloads) && k <= |Frames(payloads)|
    ensures m <= |payloads| && ReadUntilError(Frames(payloads)[..k]) == payloads[..m]
    ensures |Frames(payloads[..m])| <= k && (m < |payloads| ==> k < |Frames(payloads[..m + 1])|)
  {
    hide Frame, ReadFrame, ReadUntilError;
    m := 0;
    if payloads == [] {
      NothingToRead(Frames(payloads)[..k]);
    } else {
      var first := |Frame(payloads[0])|;
      assert Sendable(payloads[0]);
      if k < first {
        CutInFirst(payloads, k);
      } else {
        CutPastFirst(payloads, k);
        var n := CutStreamGivesWholeMessages(payloads[1..], k - first);
        m := n + 1;
        assert payloads[..m] == [payloads[0]] + payloads[1..][..n];
        FramesHead(payloads, m);
        if m < |payloads| {
          FramesHead(payloads, m + 1);
        }
      }
    }
  }

  lemma NothingToRead(s: bytes)
    requires s == []
    ensures ReadUntilError(s) == []
  {
  }

  lemma FramesHead(payloads: seq<bytes>, m: nat)
    requires 0 < m <= |payloads|
    ensures Frames(payloads[..m]) == Frame(payloads[0]) + Frames(payloads[1..][..m - 1])
  {
    hide Frame;
    assert payloads[..m][1..] == payloads[1..][..m - 1];
  }

  /** The number in a big-endian header. */
  function Header(s: bytes): int
    requires |s| >= 4
  {
    0x100_0000 * s[0] as int + 0x1_0000 * s[1] as int + 0x100 * s[2] as int + s[3] as int
  }

  lemma FromBeIsHeader(s: bytes)
    requires |s| >= 4
    ensures FromBe(s[..4]) == Header(s)
  {
    assert s[..4][..3] == s[..3] && s[..3][..2] == s[..2] && s[..2][..1] == s[..1] && s[..1][..0] == [];
    assert FromBe(s[..1]) == s[0] as int;
    assert FromBe(s[..2]) == 0x100 * s[0] as int + s[1] as int;
    assert FromBe(s[..3]) == 0x100 * (0x100 * s[0] as int + s[1] as int) + s[2] as int;
  }

  /** A message is read if and only if four bytes give a size from 1 to 64 MiB, most significant
      first, and that many bytes follow; then it is those bytes. */
  lemma ReadLayout(s: bytes)
    ensures ReadFrame(s).result.Ok? <==> |s| >= 4 && 1 <= Header(s) <= 67_108_864 && 4 + Header(s) <= |s|
    ensures ReadFrame(s).result.Ok? ==> ReadFrame(s) == Read(Ok(s[4..4 + Header(s)]), s[4 + Header(s)..])
  {
    if |s| >= 4 {
      FromBeIsHeader(s);
      var rest := s[4..];
      if 1 <= Header(s) <= |rest| {
        assert rest[..Header(s)] == s[4..4 + Header(s)] && rest[Header(s)..] == s[4 + Header(s)..];
      }
    }
  }
}
