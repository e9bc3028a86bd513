/** The packets of the gdb server: how they are sent, and how `process_requests` finds them in what it receives. */
module Framing {
  import opened Hex
  import opened Numbers
  import opened RingBuffer
  import opened Wrappers

  const DOLLAR: Byte := '$' as int
  const HASH: Byte := '#' as int
  const PLUS: Byte := '+' as int
  const MINUS: Byte := '-' as int
  const INTERRUPT: Byte := 3

  // ----- checksums -----

  /** The sum of the bytes in a `uint8_t`. */
  function Checksum(s: seq<Byte>): Byte {
    if s == [] then 0 else (Checksum(s[..|s| - 1]) + s[|s| - 1]) % 256
  }

  lemma ChecksumNext(s: seq<Byte>, i: nat)
    requires i < |s|
    ensures Checksum(s[..i + 1]) == (Checksum(s[..i]) + s[i]) % 256
  {
    assert s[..i + 1][..i] == s[..i];
  }

  lemma NoChecksum()
    ensures Checksum([]) == 0
  {}

  lemma ChecksumLast(s: seq<Byte>)
    requires s != []
    ensures Checksum(s) == (Checksum(s[..|s| - 1]) + s[|s| - 1]) % 256
  {}

  lemma {:induction false} ChecksumConcat(s: seq<Byte>, t: seq<Byte>)
    ensures Checksum(s + t) == (Checksum(s) + Checksum(t)) % 256
  {
    if t == [] {
      assert s + t == s;
    } else {
      hide Checksum;
      var front, last := t[..|t| - 1], t[|t| - 1];
      assert t == front + [last];
      ChecksumAnd(s, front, last);
      ChecksumLast(t);
      ChecksumConcat(s, front);
      SumsAdd(Checksum(s), Checksum(front), last, Checksum(s + front), Checksum(t), Checksum(s + t));
    }
  }

  lemma ChecksumAnd(s: seq<Byte>, front: seq<Byte>, last: Byte)
    ensures Checksum(s + (front + [last])) == (Checksum(s + front) + last) % 256
  {
    hide Checksum;
    assert s + (front + [last]) == s + front + [last];
    ChecksumLast(s + front + [last]);
    assert (s + front + [last])[..|s + front|] == s + front;
  }

  lemma SumsAdd(a: int, b: int, c: int, ab: int, bc: int, abc: int)
    requires ab == (a + b) % 256 && bc == (b + c) % 256 && abc == (ab + c) % 256
    ensures abc == (a + bc) % 256
  {
    SumOfThree(a, b, c);
  }

  lemma SumOfThree(a: int, b: int, c: int)
    ensures ((a + b) % 256 + c) % 256 == (a + (b + c) % 256) % 256
  {}

  function ExtractChecksum(packet: seq<Byte>): Byte
    requires |packet| >= 2
  {
    (HexValue(packet[|packet| - 1]) + 16 * HexValue(packet[|packet| - 2])) % 256
  }

  /** The checksum at the end of a packet is that of its data. */
  predicate Accepts(packet: seq<Byte>)
    requires |packet| >= 4
  {
    Checksum(packet[1..|packet| - 3]) == ExtractChecksum(packet)
  }

  /** `compute_checksum` */
  method ComputeChecksum(packet: seq<Byte>) returns (checksum: Byte)
    requires |packet| >= 4
    ensures checksum == Checksum(packet[1..|packet| - 3])
  {
    checksum := 0;
    ghost var d := packet[1..|packet| - 3];
    for i := 1 to |packet| - 3
      invariant checksum == Checksum(d[..i - 1])
    {
      ChecksumNext(d, i - 1);
      checksum := (checksum + packet[i]) % 256;
    }
    assert d[..|d|] == d;
  }

  /** A packet on the wire. */
  function Frame(d: seq<Byte>): (f: seq<Byte>)
    ensures |f| == |d| + 4
  {
    [DOLLAR] + d + [HASH] + Hex2(Checksum(d))
  }

  // ----- what the send buffer makes of what is sent -----

  /** What a buffer can take: in one piece, and in all. */
  datatype Space = Space(gap: nat, room: nat) {
    ghost predicate Valid() { gap <= room && (gap == 0 <==> room == 0) }

    /** `append` does not stop the program. */
    predicate Takes(n: nat) { n <= gap || n < room }

    function Less(n: nat): Space
      requires gap <= room && Takes(n)
    {
      Space(Left(gap, room, n), room - n)
    }
  }

  /** The contents of the buffer and what it can take, after the pieces have been sent one after the other. */
  function SendAll(sent: seq<Byte>, space: Space, pieces: seq<seq<Byte>>): (r: Option<(seq<Byte>, Space)>)
    requires space.gap <= space.room
    ensures r.Some? ==> r.value.1.gap <= r.value.1.room
    decreases pieces
  {
    if pieces == [] then Some((sent, space))
    else if !space.Takes(|pieces[0]|) then None
    else SendAll(sent + Stored(space.gap, pieces[0]), space.Less(|pieces[0]|), pieces[1..])
  }

  lemma SendAllNext(sent: seq<Byte>, space: Space, p: seq<Byte>, rest: seq<seq<Byte>>)
    requires space.gap <= space.room
    ensures SendAll(sent, space, [p] + rest) ==
            if space.Takes(|p|) then SendAll(sent + Stored(space.gap, p), space.Less(|p|), rest) else None
    ensures SendAll(sent, space, []) == Some((sent, space))
  {
    hide Stored;
    assert ([p] + rest)[1..] == rest;
  }

  function Concat(pieces: seq<seq<Byte>>): seq<Byte> {
    if pieces == [] then [] else pieces[0] + Concat(pieces[1..])
  }

  /** Every piece is taken, and fits or repeats itself where it wraps around. */
  ghost predicate Faithful(space: Space, pieces: seq<seq<Byte>>)
    requires space.gap <= space.room
    decreases pieces
  {
    pieces == [] ||
    (space.Takes(|pieces[0]|) && Repeats(pieces[0], space.gap) && Faithful(space.Less(|pieces[0]|), pieces[1..]))
  }

  /** What is appended is what is sent exactly when every piece is taken and fits, or repeats itself. */
  lemma {:induction false} SentExactlyWhen(sent: seq<Byte>, space: Space, pieces: seq<seq<Byte>>)
    requires space.gap <= space.room
    ensures var r := SendAll(sent, space, pieces);
            && (r.Some? ==> sent <= r.value.0)
            && (r.Some? && r.value.0 == sent + Concat(pieces) <==> Faithful(space, pieces))
    decreases pieces
  {
    if pieces == [] {
      assert sent + Concat(pieces) == sent;
    } else if space.Takes(|pieces[0]|) {
      hide Repeats, Stored;
      var p, rest := pieces[0], pieces[1..];
      SentExactlyWhen(sent + Stored(space.gap, p), space.Less(|p|), rest);
      StoredIsExactlyWhen(space.gap, p);
      var r := SendAll(sent + Stored(space.gap, p), space.Less(|p|), rest);
      if r.Some? {
        SameParts(sent, Stored(space.gap, p), p, Concat(rest), r.value.0);
      }
    }
  }

  lemma SameParts(sent: seq<Byte>, a: seq<Byte>, b: seq<Byte>, c: seq<Byte>, all: seq<Byte>)
    requires |a| == |b| && sent + a <= all
    ensures sent <= all && (all == sent + (b + c) <==> a == b && all == sent + a + c)
  {
    if all == sent + (b + c) {
      assert a == all[|sent|..|sent| + |a|] == b;
    }
    assert sent + (b + c) == sent + b + c;
  }

  /** The pieces in which the end of a packet is sent, when the checksum so far is `running`. */
  function EndPieces(d: seq<Byte>, running: Byte): seq<seq<Byte>> {
    [d, [HASH] + Hex2((running + Checksum(d)) % 256)]
  }

  /** The pieces in which a packet is sent. */
  function PacketPieces(d: seq<Byte>): seq<seq<Byte>> { [[DOLLAR], d, [], [HASH] + Hex2(Checksum(d))] }

  lemma {:induction false} SendAllConcat(sent: seq<Byte>, space: Space, p: seq<seq<Byte>>, q: seq<seq<Byte>>)
    requires space.gap <= space.room
    ensures SendAll(sent, space, p + q) ==
            match SendAll(sent, space, p)
            case None => None
            case Some((sent', space')) => SendAll(sent', space', q)
    decreases p
  {
    hide Stored;
    if p == [] {
      assert p + q == q;
    } else {
      assert (p + q)[1..] == p[1..] + q;
      if space.Takes(|p[0]|) {
        SendAllConcat(sent + Stored(space.gap, p[0]), space.Less(|p[0]|), p[1..], q);
      }
    }
  }

  lemma OnePieceIsSent(sent: seq<Byte>, space: Space, p: seq<Byte>)
    requires space.gap <= space.room
    ensures SendAll(sent, space, [p]) ==
            if space.Takes(|p|) then Some((sent + Stored(space.gap, p), space.Less(|p|))) else None
  {
    hide Stored;
    SendAllNext(sent, space, p, []);
    assert [p] + [] == [p];
  }

  lemma OneByteIsSent(sent: seq<Byte>, space: Space, b: Byte)
    requires space.Valid()
    ensures SendAll(sent, space, [[b]]) == if space.room > 0 then Some((sent + [b], space.Less(1))) else None
  {
    OnePieceIsSent(sent, space, [b]);
  }

  /** A packet is sent by `start_packet`, `send` and `end_packet`. */
  lemma InThreeSteps(sent: seq<Byte>, space: Space, d: seq<Byte>)
    requires space.Valid()
    ensures PacketPieces(d) == [[DOLLAR]] + ([d] + EndPieces([], Checksum(d)))
    ensures SendAll(sent, space, PacketPieces(d)) ==
            match SendAll(sent, space, [[DOLLAR]])
            case None => None
            case Some((sent', space')) => SendAll(sent', space', [d] + EndPieces([], Checksum(d)))
  {
    hide Hex2, SendAll;
    NoChecksum();
    SendAllConcat(sent, space, [[DOLLAR]], [d] + EndPieces([], Checksum(d)));
  }

  /** The packet fits in one piece, or only its data wraps around and repeats itself. */
  ghost predicate FrameFits(space: Space, d: seq<Byte>) {
    || |d| + 4 <= space.gap
    || (|d| + 4 <= space.room && 1 <= space.gap <= |d| + 1 && Repeats(d, space.gap - 1))
  }

  lemma FaithfulNext(space: Space, p: seq<Byte>, rest: seq<seq<Byte>>)
    requires space.gap <= space.room
    ensures Faithful(space, [p] + rest) <==>
            space.Takes(|p|) && Repeats(p, space.gap) && Faithful(space.Less(|p|), rest)
    ensures Faithful(space, []) && Concat([p] + rest) == p + Concat(rest)
  {
    hide Repeats;
    assert ([p] + rest)[1..] == rest;
  }

  lemma FittingIsFaithful(p: seq<Byte>, gap: nat)
    ensures |p| <= gap || |p| <= 1 ==> Repeats(p, gap)
  {}

  /** The end of a packet is not the same when it wraps around: there is only one `#` in it. */
  lemma EndRepeats(b: Byte, gap: nat)
    requires gap > 0
    ensures Repeats([HASH] + Hex2(b), gap) <==> gap >= 3
  {
    HexIsNoMark(b);
    hide Hex2;
    var end := [HASH] + Hex2(b);
    assert end[1] in Hex2(b) && end[2] in Hex2(b);
    if gap == 1 { assert end[1] != end[1 - gap]; }
    if gap == 2 { assert end[2] != end[2 - gap]; }
  }

  lemma EndIsSent(space: Space, b: Byte)
    requires space.Valid()
    ensures Faithful(space, [[HASH] + Hex2(b)]) <==> 3 <= space.gap
  {
    hide Repeats, Hex2, HexChar;
    var end := [HASH] + Hex2(b);
    FaithfulNext(space, end, []);
    assert [end] + [] == [end];
    if space.gap > 0 {
      EndRepeats(b, space.gap);
    }
  }

  /** Sending nothing changes nothing. */
  lemma NothingIsSent(space: Space, rest: seq<seq<Byte>>)
    requires space.Valid()
    ensures Faithful(space, [[]] + rest) <==> Faithful(space, rest)
  {
    hide Repeats;
    FaithfulNext(space, [], rest);
    FittingIsFaithful([], space.gap);
  }

  /** A packet is sent as it is exactly when it fits like this: its end cannot wrap around and be the same. */
  lemma PacketIsSentExactlyWhen(space: Space, d: seq<Byte>)
    requires space.Valid()
    ensures Faithful(space, PacketPieces(d)) <==> FrameFits(space, d)
  {
    hide Hex2, Checksum, Repeats, Faithful;
    var end := [HASH] + Hex2(Checksum(d));
    var more := [[]] + [end];
    FaithfulNext(space, [DOLLAR], [d] + more);
    assert PacketPieces(d) == [[DOLLAR]] + ([d] + more);
    FittingIsFaithful([DOLLAR], space.gap);
    FaithfulNext(space, d, more);
    if space.gap >= 1 {
      var s := space.Less(1);
      FaithfulNext(s, d, more);
      FittingIsFaithful(d, s.gap);
      if s.Takes(|d|) {
        NothingIsSent(s.Less(|d|), [end]);
        EndIsSent(s.Less(|d|), Checksum(d));
      }
      if space.gap == 1 { RepeatsFromNothing(d); }
    }
  }

  lemma PacketConcat(d: seq<Byte>)
    ensures Concat(PacketPieces(d)) == Frame(d)
  {
    hide Hex2, Checksum, Concat;
    var end := [HASH] + Hex2(Checksum(d));
    ConcatNext([DOLLAR], [d, [], end]);
    ConcatNext(d, [[], end]);
    ConcatNext([], [end]);
    ConcatNext(end, []);
    assert [[DOLLAR]] + [d, [], end] == PacketPieces(d);
    assert [d] + [[], end] == [d, [], end];
    assert [[]] + [end] == [[], end] && [end] + [] == [end];
  }

  lemma ConcatNext(p: seq<Byte>, rest: seq<seq<Byte>>)
    ensures Concat([p] + rest) == p + Concat(rest) && Concat([]) == []
  {
    assert ([p] + rest)[1..] == rest;
  }

  lemma RepeatsFromNothing(d: seq<Byte>)
    ensures Repeats(d, 0)
  {}

  /** The bytes of a number, as they are sent. */
  function NumberPieces(v: nat, n: nat): seq<seq<Byte>> {
    if n == 0 then [] else [Hex2(v % 256)] + NumberPieces(v / 256, n - 1)
  }

  lemma NumberStep(sent: seq<Byte>, space: Space, v: nat, n: nat)
    requires n > 0 && space.gap <= space.room
    ensures SendAll(sent, space, NumberPieces(v, n)) ==
            match SendAll(sent, space, [Hex2(v % 256)])
            case None => None
            case Some((sent', space')) => SendAll(sent', space', NumberPieces(v / 256, n - 1))
  {
    hide SendAll, Hex2;
    SendAllConcat(sent, space, [Hex2(v % 256)], NumberPieces(v / 256, n - 1));
  }

  lemma NothingMore(sent: seq<Byte>, space: Space, v: nat)
    requires space.gap <= space.room
    ensures SendAll(sent, space, NumberPieces(v, 0)) == Some((sent, space))
  {}

  /** The number fits in one piece, or wraps around between two bytes or within a byte of two equal digits. */
  predicate NumberFits(space: Space, v: nat, n: nat) {
    || 2 * n <= space.gap
    || (2 * n <= space.room &&
        (space.gap % 2 == 0 ||
         (space.gap + 1 < space.room && HexLe(v, n)[space.gap - 1] == HexLe(v, n)[space.gap])))
  }

  lemma TwoRepeat(s: seq<Byte>, gap: nat)
    requires |s| == 2
    ensures Repeats(s, gap) <==> gap != 1 || s[0] == s[1]
  {
    if gap == 1 && Repeats(s, gap) { assert s[1] == s[0]; }
  }

  lemma HexLeDigits(v: nat, n: nat, k: nat)
    requires 0 < n && k < 2 * n
    ensures HexLe(v, n)[k] == if k < 2 then Hex2(v % 256)[k] else HexLe(v / 256, n - 1)[k - 2]
  {
    hide Hex2;
  }

  lemma NumberFitsNext(space: Space, v: nat, n: nat)
    requires space.Valid() && n > 0
    ensures NumberFits(space, v, n) <==>
            && space.Takes(2) && (space.gap != 1 || Hex2(v % 256)[0] == Hex2(v % 256)[1])
            && NumberFits(space.Less(2), v / 256, n - 1)
  {
    hide Hex2, HexLe;
    var g := space.gap;
    if g % 2 == 1 && g < 2 * n {
      HexLeDigits(v, n, g - 1);
      HexLeDigits(v, n, g);
    }
  }

  /** A number is sent as it is exactly when it fits like this. */
  lemma {:induction false} NumberIsSentExactlyWhen(space: Space, v: nat, n: nat)
    requires space.Valid()
    ensures Concat(NumberPieces(v, n)) == HexLe(v, n)
    ensures Faithful(space, NumberPieces(v, n)) <==> NumberFits(space, v, n)
    decreases n
  {
    if n > 0 {
      hide Hex2, Repeats, NumberFits, Concat, Faithful;
      FaithfulNext(space, Hex2(v % 256), NumberPieces(v / 256, n - 1));
      TwoRepeat(Hex2(v % 256), space.gap);
      NumberFitsNext(space, v, n);
      NumberIsSentExactlyWhen(if space.Takes(2) then space.Less(2) else space, v / 256, n - 1);
    }
  }

  // ----- sending -----

  class Sender {
    const sendBuf: CircularBuffer<Byte>
    var runningChecksum: Byte
    var expectAck: bool

    ghost predicate Valid()
      reads sendBuf, sendBuf.data
    {
      sendBuf.Valid() && sendBuf as object != this as object && sendBuf.data as object != this as object
    }

    ghost function Sent(): seq<Byte>
      requires Valid()
      reads sendBuf, sendBuf.data
    {
      sendBuf.Contents()
    }

    ghost function Free(): (space: Space)
      requires Valid()
      reads sendBuf, sendBuf.data
      ensures space.Valid() && space.gap <= space.room
    {
      Space(sendBuf.ContiguousEmptySize(), sendBuf.capacity - 1 - |Sent()|)
    }

    constructor (capacity: nat)
      requires 0 < capacity <= 0x8000_0000
      ensures Valid() && fresh(sendBuf) && fresh(sendBuf.data) && Sent() == [] && !expectAck
    {
      sendBuf := new CircularBuffer(capacity);
      runningChecksum, expectAck := 0, false;
    }

    /** Append one piece; not `ok` is the failed assertion of `append`. */
    method AppendPiece(msg: seq<Byte>) returns (ok: bool)
      requires Valid()
      modifies sendBuf`end, sendBuf.data
      ensures Valid()
      ensures SendAll(old(Sent()), old(Free()), [msg]) == if ok then Some((Sent(), Free())) else None
    {
      hide Stored, SendAll, CircularBuffer.Valid, CircularBuffer.Contents, CircularBuffer.ContiguousEmptySize, Left;
      OnePieceIsSent(Sent(), Free(), msg);
      ok := sendBuf.Append(msg);
    }

    /** `send(const char*)` */
    method Send(msg: seq<Byte>) returns (ok: bool)
      requires Valid()
      modifies this`runningChecksum, sendBuf`end, sendBuf.data
      ensures Valid() && runningChecksum == (old(runningChecksum) + Checksum(msg)) % 256
      ensures SendAll(old(Sent()), old(Free()), [msg]) == if ok then Some((Sent(), Free())) else None
    {
      hide Checksum, SendAll, CircularBuffer.Valid, Free, Sent;
      NoChecksum();
      assert msg[..0] == [];
      for i := 0 to |msg|
        modifies `runningChecksum
        invariant runningChecksum == (old(runningChecksum) + Checksum(msg[..i])) % 256
      {
        ChecksumNext(msg, i);
        SumOfThree(old(runningChecksum), Checksum(msg[..i]), msg[i]);
        runningChecksum := (runningChecksum + msg[i]) % 256;
      }
      assert msg[..|msg|] == msg;
      ok := AppendPiece(msg);
    }

    /** `send(uint8_t)`, `send(uint32_t)` and `send(uint64_t)`: `n` bytes, lowest first. */
    method SendNumber(value0: nat, n: nat) returns (ok: bool)
      requires Valid()
      modifies this`runningChecksum, sendBuf`end, sendBuf.data
      ensures Valid()
      ensures SendAll(old(Sent()), old(Free()), NumberPieces(value0, n)) == if ok then Some((Sent(), Free())) else None
      ensures ok ==> runningChecksum == (old(runningChecksum) + Checksum(HexLe(value0, n))) % 256
      ensures ok && Sent() == old(Sent()) + HexLe(value0, n) <==> NumberFits(old(Free()), value0, n)
    {
      hide *;
      var value := value0;
      NumberIsSentExactlyWhen(Free(), value, n);
      SentExactlyWhen(Sent(), Free(), NumberPieces(value, n));
      for i := 0 to n
        invariant Valid()
        invariant SendAll(Sent(), Free(), NumberPieces(value, n - i)) ==
                  SendAll(old(Sent()), old(Free()), NumberPieces(value0, n))
        invariant (runningChecksum + Checksum(HexLe(value, n - i))) % 256 ==
                  (old(runningChecksum) + Checksum(HexLe(value0, n))) % 256
      {
        HexLeStep(runningChecksum, value, n - i);
        NumberStep(Sent(), Free(), value, n - i);
        ok := Send(Hex2(value % 256));
        if !ok {
          return;
        }
        value := value / 256;
      }
      HexLeDone(runningChecksum, value);
      NothingMore(Sent(), Free(), value);
      ok := true;
    }

    method StartPacket() returns (ok: bool)
      requires Valid()
      modifies this`runningChecksum, sendBuf`end, sendBuf.data
      ensures Valid() && (ok ==> runningChecksum == 0)
      ensures SendAll(old(Sent()), old(Free()), [[DOLLAR]]) == if ok then Some((Sent(), Free())) else None
      ensures ok <==> old(Free().room) > 0
      ensures ok ==> Sent() == old(Sent()) + [DOLLAR]
    {
      OneByteIsSent(Sent(), Free(), DOLLAR);
      ok := Send([DOLLAR]);
      if ok {
        runningChecksum := 0;
      }
    }

    /** `end_packet(data)`; a null pointer is an empty `data`. */
    method EndPacket(data: seq<Byte>) returns (ok: bool)
      requires Valid()
      modifies this, sendBuf`end, sendBuf.data
      ensures Valid() && (ok ==> expectAck)
      ensures SendAll(old(Sent()), old(Free()), EndPieces(data, old(runningChecksum))) ==
              if ok then Some((Sent(), Free())) else None
    {
      hide Checksum, Hex2, SendAll, Stored;
      ghost var end := [HASH] + Hex2((runningChecksum + Checksum(data)) % 256);
      SendAllConcat(Sent(), Free(), [data], [end]);
      assert EndPieces(data, runningChecksum) == [data] + [end];
      ok := Send(data);
      if !ok {
        return;
      }
      ok := Send([HASH] + Hex2(runningChecksum));
      if !ok {
        return;
      }
      expectAck := true;
    }

    /** `send_packet` */
    method SendPacket(data: seq<Byte>) returns (ok: bool)
      requires Valid()
      modifies this, sendBuf`end, sendBuf.data
      ensures Valid() && (ok ==> expectAck)
      ensures SendAll(old(Sent()), old(Free()), PacketPieces(data)) == if ok then Some((Sent(), Free())) else None
      ensures ok && Sent() == old(Sent()) + Frame(data) <==> FrameFits(old(Free()), data)
    {
      hide *;
      PacketIsSentExactlyWhen(Free(), data);
      PacketConcat(data);
      SentExactlyWhen(Sent(), Free(), PacketPieces(data));
      InThreeSteps(Sent(), Free(), data);
      ok := StartPacket();
      if !ok {
        return;
      }
      SendAllConcat(Sent(), Free(), [data], EndPieces([], Checksum(data)));
      ok := Send(data);
      if !ok {
        return;
      }
      ok := EndPacket([]);
    }

    /** The beginning of `handle_packet`: the acknowledgement. */
    method Acknowledge(packet: seq<Byte>) returns (accepted: bool, ok: bool)
      requires Valid() && |packet| >= 4
      modifies this`runningChecksum, sendBuf`end, sendBuf.data
      ensures Valid() && (accepted <==> Accepts(packet))
      ensures ok <==> old(Free().room) > 0
      ensures ok ==> Sent() == old(Sent()) + [if accepted then PLUS else MINUS]
    {
      var checksum := ComputeChecksum(packet);
      accepted := checksum == ExtractChecksum(packet);
      OneByteIsSent(Sent(), Free(), if accepted then PLUS else MINUS);
      ok := Send([if accepted then PLUS else MINUS]);
    }
  }

  lemma HexLeStep(running: Byte, v: nat, n: nat)
    requires n > 0
    ensures var h := Hex2(v % 256);
            && |h| == 2 && HexLe(v, n) == h + HexLe(v / 256, n - 1)
            && ((running + Checksum(h)) % 256 + Checksum(HexLe(v / 256, n - 1))) % 256 ==
               (running + Checksum(HexLe(v, n))) % 256
  {
    hide Checksum;
    ChecksumConcat(Hex2(v % 256), HexLe(v / 256, n - 1));
    SumOfThree(running, Checksum(Hex2(v % 256)), Checksum(HexLe(v / 256, n - 1)));
  }

  lemma HexLeDone(running: Byte, v: nat)
    ensures HexLe(v, 0) == [] && (running + Checksum(HexLe(v, 0))) % 256 == running
  {}

  // ----- receiving -----

  datatype Event = Interrupt | Packet(bytes: seq<Byte>) | Malformed(bytes: seq<Byte>)

  datatype Stop = Complete(size: nat) | Restart(size: nat) | More

  /** Where the packet that begins `s` stops, when its first `i` bytes do not complete it. */
  function FrameStop(s: seq<Byte>, i: nat): (stop: Stop)
    requires i <= |s|
    ensures stop.Complete? ==> 4 <= stop.size <= |s|
    ensures stop.Restart? ==> 0 < stop.size < |s|
    decreases |s| - i
  {
    if i == |s| then More
    else if s[i] == DOLLAR && i > 0 then Restart(i)
    else if i + 1 >= 4 && s[i - 2] == HASH then Complete(i + 1)
    else FrameStop(s, i + 1)
  }

  /** One call of `process_requests`: the events it handles and the bytes it leaves. */
  function Process(s: seq<Byte>, expectAck: bool): (r: (seq<Event>, seq<Byte>)) {
    if s == [] then ([], s)
    else if expectAck && s[0] == PLUS then Process(s[1..], expectAck)
    else if s[0] == INTERRUPT then ([Interrupt] + Process(s[1..], expectAck).0, Process(s[1..], expectAck).1)
    else
      match FrameStop(s, 0)
      case Complete(n) => ([Packet(s[..n])], s[n..])
      case Restart(n) => ([Malformed(s[..n])], s[n..])
      case More => ([], s)
  }

  /** `process_requests`; not `ok` is its final assertion: a full buffer without a packet. */
  method ProcessRequests(recvBuf: CircularBuffer<Byte>, expectAck: bool) returns (events: seq<Event>, ok: bool)
    requires recvBuf.Valid()
    modifies recvBuf`start
    ensures recvBuf.Valid()
    ensures (events, recvBuf.Contents()) == Process(old(recvBuf.Contents()), expectAck)
    ensures ok <==> |recvBuf.Contents()| != recvBuf.capacity - 1
  {
    hide *;
    events := [];
    ghost var all := recvBuf.Contents();
    var waiting := false;
    NothingYet(all, expectAck);
    while !recvBuf.Empty() && !waiting
      invariant recvBuf.Valid()
      invariant !waiting ==> Process(all, expectAck) == Then(events, Process(recvBuf.Contents(), expectAck))
      invariant waiting ==> Process(all, expectAck) == (events, recvBuf.Contents())
      decreases |recvBuf.Contents()|, !waiting
    {
      ghost var s := recvBuf.Contents();
      ProcessStep(s, expectAck, events);
      var packet: seq<Byte> := [];
      var i := 0;
      while i < recvBuf.Size()
        invariant recvBuf.Valid() && recvBuf.Contents() == s
        invariant i <= |s| && packet == s[..i]
        invariant i > 0 ==> !(expectAck && s[0] == PLUS) && s[0] != INTERRUPT
        invariant FrameStop(s, 0) == FrameStop(s, i)
      {
        var b := recvBuf.At(i);
        FrameStopStep(s, i);
        if packet == [] && expectAck && b == PLUS {
          recvBuf.Consume(1);
          break;
        }
        if packet == [] && b == INTERRUPT {
          recvBuf.Consume(1);
          events := events + [Interrupt];
          break;
        }
        if b == DOLLAR && packet != [] {
          events := events + [Malformed(packet)];
          recvBuf.Consume(i);
          break;
        }
        packet := packet + [b];
        assert packet == s[..i + 1];
        if |packet| >= 4 && packet[|packet| - 3] == HASH {
          events := events + [Packet(packet)];
          recvBuf.Consume(i + 1);
          break;
        }
        i := i + 1;
      }
      FrameStopEnd(s);
      waiting := packet != [];
    }
    ProcessStep(recvBuf.Contents(), expectAck, events);
    ok := !recvBuf.Full();
  }

  function Then(events: seq<Event>, r: (seq<Event>, seq<Byte>)): (seq<Event>, seq<Byte>) { (events + r.0, r.1) }

  lemma NothingYet(s: seq<Byte>, expectAck: bool)
    ensures Then([], Process(s, expectAck)) == Process(s, expectAck)
  {
    hide Process;
    assert [] + Process(s, expectAck).0 == Process(s, expectAck).0;
  }

  lemma ProcessStep(s: seq<Byte>, expectAck: bool, events: seq<Event>)
    ensures s == [] ==> Then(events, Process(s, expectAck)) == (events, s)
    ensures s != [] && expectAck && s[0] == PLUS ==> Process(s, expectAck) == Process(s[1..], expectAck)
    ensures s != [] && !(expectAck && s[0] == PLUS) && s[0] == INTERRUPT ==>
              Then(events, Process(s, expectAck)) == Then(events + [Interrupt], Process(s[1..], expectAck))
    ensures s != [] && !(expectAck && s[0] == PLUS) && s[0] != INTERRUPT ==>
              match FrameStop(s, 0)
              case Complete(n) => n <= |s| && Then(events, Process(s, expectAck)) == (events + [Packet(s[..n])], s[n..])
              case Restart(n) =>
                n <= |s| && Then(events, Process(s, expectAck)) == (events + [Malformed(s[..n])], s[n..])
              case More => Then(events, Process(s, expectAck)) == (events, s)
  {
    hide FrameStop;
    assert events + [] == events;
    assert forall t: seq<Event> :: events + ([Interrupt] + t) == events + [Interrupt] + t;
  }

  lemma FrameStopStep(s: seq<Byte>, i: nat)
    requires i < |s|
    ensures FrameStop(s, i) ==
            if s[i] == DOLLAR && i > 0 then Restart(i)
            else if i + 1 >= 4 && s[i - 2] == HASH then Complete(i + 1)
            else FrameStop(s, i + 1)
  {}

  lemma FrameStopEnd(s: seq<Byte>)
    ensures FrameStop(s, |s|) == More
  {}

  // ----- what is sent is received -----

  /** Neither the beginning nor the end of a packet. */
  predicate Payload(d: seq<Byte>) { DOLLAR !in d && HASH !in d }

  lemma {:induction false} NoStop(s: seq<Byte>, i: nat, n: nat)
    requires i <= n <= |s|
    requires forall k :: i <= k < n ==> s[k] != DOLLAR || k == 0
    requires forall k :: 0 <= k < n - 2 ==> s[k] != HASH || k == 0
    ensures FrameStop(s, i) == FrameStop(s, n)
    decreases n - i
  {
    if i < n {
      NoStop(s, i + 1, n);
    }
  }

  /** A packet is recognised as what it is, and nothing behind it is touched. */
  lemma FrameIsRecognised(d: seq<Byte>, tail: seq<Byte>, expectAck: bool)
    requires Payload(d)
    ensures Process(Frame(d) + tail, expectAck) == ([Packet(Frame(d))], tail)
  {
    hide Checksum;
    var f := Frame(d);
    var s := f + tail;
    HexIsNoMark(Checksum(d));
    assert forall k :: 1 <= k < |d| + 1 ==> s[k] == d[k - 1];
    assert s[|d| + 1] == HASH && s[|d| + 2] == Hex2(Checksum(d))[0] && s[|d| + 3] == Hex2(Checksum(d))[1];
    NoStop(s, 0, |d| + 3);
    assert s[..|d| + 4] == f && s[|d| + 4..] == tail;
  }

  lemma HexIsNoMark(b: Byte)
    ensures DOLLAR !in Hex2(b) && HASH !in Hex2(b)
  {}

  lemma FrameIsAccepted(d: seq<Byte>)
    ensures Accepts(Frame(d))
  {
    hide Checksum, HexValue, HexChar;
    var f := Frame(d);
    assert f[1..|f| - 3] == d;
    HexRoundTrip(Checksum(d) / 16);
    HexRoundTrip(Checksum(d) % 16);
  }

  /** Every packet that is handled has the shape of a packet: one `#`, with two bytes behind it, and no `$` inside. */
  lemma {:induction false} StopShape(s: seq<Byte>, i: nat)
    requires i <= |s|
    requires forall k :: 0 < k < i ==> s[k] != DOLLAR
    requires forall k :: 1 <= k < i - 2 ==> s[k] != HASH
    ensures var stop := FrameStop(s, i);
            && (stop.Complete? ==>
                  && s[stop.size - 3] == HASH && Payload(s[1..stop.size - 3])
                  && s[stop.size - 2] != DOLLAR && s[stop.size - 1] != DOLLAR)
            && (stop.Restart? ==> s[stop.size] == DOLLAR && DOLLAR !in s[1..stop.size])
    decreases |s| - i
  {
    if i < |s| && !(s[i] == DOLLAR && i > 0) && !(i + 1 >= 4 && s[i - 2] == HASH) {
      StopShape(s, i + 1);
    }
  }

  /** What is handled as a packet: nothing is asked of its first byte. */
  lemma CompleteExactlyWhen(s: seq<Byte>, n: nat)
    ensures FrameStop(s, 0) == Complete(n) <==>
            && 4 <= n <= |s| && s[n - 3] == HASH && Payload(s[1..n - 3])
            && s[n - 2] != DOLLAR && s[n - 1] != DOLLAR
  {
    StopShape(s, 0);
    if 4 <= n <= |s| && s[n - 3] == HASH && Payload(s[1..n - 3]) && s[n - 2] != DOLLAR && s[n - 1] != DOLLAR {
      assert forall k :: 1 <= k < n - 3 ==> s[k] == s[1..n - 3][k - 1];
      NoStop(s, 0, n - 1);
    }
  }

  /** So any bytes before a `#` are taken for a packet, with the two bytes behind it, unless one of these is a `$`. */
  lemma AnyTextIsAPacketExactlyWhen(w: seq<Byte>, x: Byte, y: Byte, tail: seq<Byte>, expectAck: bool)
    requires Payload(w) && w != [] && w[0] != INTERRUPT && !(expectAck && w[0] == PLUS)
    ensures var p := w + [HASH, x, y];
            Process(p + tail, expectAck) == ([Packet(p)], tail) <==> x != DOLLAR && y != DOLLAR
  {
    hide FrameStop;
    var p := w + [HASH, x, y];
    var s := p + tail;
    CompleteExactlyWhen(s, |p|);
    assert s[..|p|] == p && s[|p|..] == tail && s[1..|p| - 3] == w[1..];
    assert s[|p| - 2] == x && s[|p| - 1] == y && s[|p| - 3] == HASH && s[0] == w[0];
    if Process(s, expectAck) == ([Packet(p)], tail) {
      assert FrameStop(s, 0).Complete?;
      assert |s[FrameStop(s, 0).size..]| == |s| - FrameStop(s, 0).size;
    }
  }

  /** An accepted packet that begins with `$` and ends in two lower-case digits is the packet of its data. */
  lemma AcceptedIsFrame(p: seq<Byte>)
    requires |p| >= 4 && p[0] == DOLLAR && p[|p| - 3] == HASH && Accepts(p)
    requires exists b: Byte :: p[|p| - 2..] == Hex2(b)
    ensures p == Frame(p[1..|p| - 3])
  {
    hide Checksum, HexValue, HexChar;
    var b: Byte :| p[|p| - 2..] == Hex2(b);
    HexRoundTrip(b / 16);
    HexRoundTrip(b % 16);
    assert p[|p| - 2] == p[|p| - 2..][0] && p[|p| - 1] == p[|p| - 2..][1];
    assert ExtractChecksum(p) == b;
    assert p == [p[0]] + p[1..|p| - 3] + [p[|p| - 3]] + p[|p| - 2..];
  }

  /** Two bytes that are no digits pass for the checksum 0xef. */
  lemma NonDigitsAreAChecksum(d: seq<Byte>, x: Byte, y: Byte)
    requires !IsHex(x) && !IsHex(y)
    ensures Accepts([DOLLAR] + d + [HASH, x, y]) <==> Checksum(d) == 0xef
  {
    hide Checksum, HexValue;
    var p := [DOLLAR] + d + [HASH, x, y];
    assert p[1..|p| - 3] == d;
  }

  /** After bytes that are no packet, the next `$` is found: the packet is handled by the call after next. */
  lemma Resynchronises(w: seq<Byte>, d: seq<Byte>, tail: seq<Byte>, expectAck: bool)
    requires Payload(w) && Payload(d) && w != [] && w[0] != INTERRUPT && !(expectAck && w[0] == PLUS)
    ensures Process(w + Frame(d) + tail, expectAck) == ([Malformed(w)], Frame(d) + tail)
    ensures Process(Frame(d) + tail, expectAck) == ([Packet(Frame(d))], tail)
  {
    hide Checksum, Hex2;
    var s := w + Frame(d) + tail;
    assert forall k :: 0 <= k < |w| ==> s[k] == w[k];
    NoStop(s, 0, |w|);
    assert s[|w|] == DOLLAR;
    assert s[..|w|] == w && s[|w|..] == Frame(d) + tail;
    FrameIsRecognised(d, tail, expectAck);
  }

  function Frames(ds: seq<seq<Byte>>): seq<Byte> {
    if ds == [] then [] else Frame(ds[0]) + Frames(ds[1..])
  }

  function PacketsOf(ds: seq<seq<Byte>>): seq<Event> {
    seq(|ds|, i requires 0 <= i < |ds| => Packet(Frame(ds[i])))
  }

  /** `n` calls of `process_requests`, with nothing received in between. */
  function Calls(s: seq<Byte>, expectAck: bool, n: nat): (seq<Event>, seq<Byte>)
    decreases n
  {
    if n == 0 then ([], s)
    else var (events, rest) := Process(s, expectAck); Then(events, Calls(rest, expectAck, n - 1))
  }

  /** A stream of packets is handled one packet a call, in order, with nothing lost. */
  lemma {:induction false} StreamIsHandled(ds: seq<seq<Byte>>, tail: seq<Byte>, expectAck: bool)
    requires forall i :: 0 <= i < |ds| ==> Payload(ds[i])
    ensures Calls(Frames(ds) + tail, expectAck, |ds|) == (PacketsOf(ds), tail)
  {
    hide Frame, Process, Payload;
    if ds == [] {
      assert Frames(ds) + tail == tail;
    } else {
      StreamIsHandled(ds[1..], tail, expectAck);
      FrameIsRecognised(ds[0], Frames(ds[1..]) + tail, expectAck);
      assert Frames(ds) + tail == Frame(ds[0]) + (Frames(ds[1..]) + tail);
      assert PacketsOf(ds) == [Packet(Frame(ds[0]))] + PacketsOf(ds[1..]);
    }
  }

  /** A number sent in a packet is received in a packet, accepted, and read back from it. */
  lemma NumberTravels(v: nat, n: nat, tail: seq<Byte>, expectAck: bool)
    requires v < Pow2(8 * n)
    ensures var f := Frame(HexLe(v, n));
            && Process(f + tail, expectAck) == ([Packet(f)], tail) && Accepts(f)
            && HexRun(f, 1) == 2 * n + 1 && LeValue(DigitsOf(f[1..HexRun(f, 1)])) == v
  {
    hide Checksum, HexLe, LeValue, HexValue, Hex2;
    var d := HexLe(v, n);
    HexLeIsPayload(v, n);
    FrameIsRecognised(d, tail, expectAck);
    FrameIsAccepted(d);
    HashIsNoDigit();
    var rest := [HASH] + Hex2(Checksum(d));
    SentNumberIsReadBack(v, n, [DOLLAR], rest);
    assert [DOLLAR] + d + rest == Frame(d);
  }

  lemma {:induction false} HexLeIsPayload(v: nat, n: nat)
    ensures Payload(HexLe(v, n))
  {
    if n > 0 {
      HexLeIsPayload(v / 256, n - 1);
      HexIsNoMark(v % 256);
    }
  }

  lemma HashIsNoDigit()
    ensures !IsHex(HASH)
  {}
}
