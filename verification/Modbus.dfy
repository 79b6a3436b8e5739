/** The acquisition loop of MbRun within one connection: packets are collected in the current
    buffer, and a full buffer is published. */
module Modbus {
  import opened Arithmetic
  import opened Bytes
  import opened Pipe
  import opened PipeCalls

  const HEADER_LEN: nat := 7
  const FRAME_MAX_SIZE: nat := 260

  /** One turn of the loop as the sockets see it: nothing in time, or what the two receives returned. */
  datatype Reception = Timeout | Received(header: seq<byte>, body: seq<byte>)

  /** MbParseTcpFrame: the packet inside a frame buffer. */
  function ParseTcpFrame(frame: seq<byte>): (r: Option<seq<byte>>)
    requires |frame| == FRAME_MAX_SIZE && frame[4] as int * 256 + frame[5] as int <= FRAME_MAX_SIZE - HEADER_LEN
    ensures r.Some? ==> |r.value| == frame[8]
  {
    var length, dataLength := frame[4] as int * 256 + frame[5] as int, frame[8] as int;
    if length != dataLength + 3 then None else Some(frame[9..9 + dataLength])
  }

  /** The packet a reception brings, unless the connection has to be given up. */
  function Packet(header: seq<byte>, body: seq<byte>, packetSize: nat): (r: Option<seq<byte>>)
    ensures r.Some? ==> |r.value| == packetSize
  {
    if |header| != HEADER_LEN then None else
      var length := header[4] as int * 256 + header[5] as int;
      if length > FRAME_MAX_SIZE - HEADER_LEN || |body| != length then None else
        var frame := header + body + seq(FRAME_MAX_SIZE - HEADER_LEN - length, _ => NUL);
        var data := ParseTcpFrame(frame);
        if data == None || |data.value| != packetSize then None else data
  }

  /** A reception brings a packet of n bytes exactly if it is a frame around it: a function code, the
      number n, the packet and one byte more, all counted by the length in the header. */
  lemma PacketIsFramed(header: seq<byte>, body: seq<byte>, n: nat, data: seq<byte>)
    ensures Packet(header, body, n) == Some(data) <==>
              && |header| == HEADER_LEN && header[4] as int * 256 + header[5] as int == n + 3
              && n <= 250 && |data| == n && |body| == n + 3
              && body == [body[0], n] + data + [body[n + 2]]
  {
    if |header| == HEADER_LEN && header[4] as int * 256 + header[5] as int == |body| <= FRAME_MAX_SIZE - HEADER_LEN {
      var frame := header + body + seq(FRAME_MAX_SIZE - HEADER_LEN - |body|, _ => NUL);
      assert |body| >= 3 ==> frame[8] == body[1];
      assert n + 3 == |body| ==> frame[9..9 + n] == body[2..2 + n];
      assert n + 3 == |body| && body[1] == n ==> body == [body[0], n] + body[2..2 + n] + [body[n + 2]];
    }
  }

  /** The packets of the receptions up to the first one that ends the connection. */
  function Packets(incoming: seq<Reception>, packetSize: nat): (r: seq<seq<byte>>)
    ensures forall k :: 0 <= k < |r| ==> |r[k]| == packetSize
  {
    if incoming == [] then []
    else if incoming[0].Timeout? then Packets(incoming[1..], packetSize)
    else
      match Packet(incoming[0].header, incoming[0].body, packetSize)
      case None => []
      case Some(data) => [data] + Packets(incoming[1..], packetSize)
  }

  /** The connection survives the reception. */
  predicate Fine(r: Reception, packetSize: nat) {
    r.Timeout? || Packet(r.header, r.body, packetSize).Some?
  }

  lemma {:induction false} PacketsSnoc(incoming: seq<Reception>, r: Reception, packetSize: nat)
    requires forall k :: 0 <= k < |incoming| ==> Fine(incoming[k], packetSize)
    ensures Packets(incoming + [r], packetSize)
         == Packets(incoming, packetSize)
            + (if r.Timeout? || !Fine(r, packetSize) then [] else [Packet(r.header, r.body, packetSize).value])
  {
    hide Packet;
    if incoming == [] {
      assert incoming + [r] == [r] && [r][1..] == [];
    } else {
      assert (incoming + [r])[1..] == incoming[1..] + [r];
      assert Fine(incoming[0], packetSize);
      assert forall k :: 0 <= k < |incoming[1..]| ==> incoming[1..][k] == incoming[k + 1];
      PacketsSnoc(incoming[1..], r, packetSize);
    }
  }

  // ---- buffers full of packets ----

  function Flat(groups: seq<seq<seq<byte>>>): seq<seq<byte>> {
    if groups == [] then [] else Flat(groups[..|groups| - 1]) + groups[|groups| - 1]
  }

  ghost predicate AllSized(ps: seq<seq<byte>>, size: nat) {
    forall k :: 0 <= k < |ps| ==> |ps[k]| == size
  }

  lemma {:induction false} ConcatLength(ps: seq<seq<byte>>, size: nat)
    requires AllSized(ps, size)
    ensures |Concat(ps)| == size * |ps|
  {
    if ps != [] {
      ConcatLength(ps[..|ps| - 1], size);
      assert size * |ps| == size * (|ps| - 1) + size;
    }
  }

  /** size * a reaches size * n exactly when a reaches n. */
  lemma Fill(size: nat, a: nat, n: nat)
    requires size > 0 && a <= n
    ensures size * a == size * n <==> a == n
    ensures a < n ==> size * a + size <= size * n
  {
    assert size * n == size * a + size * (n - a);
    if a < n {
      AtLeastOnce(size, n - a);
    }
  }

  /** Each published piece is the concatenation of its group of packets; every group but the last
      has n of them, and the last has between one and n. */
  ghost predicate Grouped(pieces: seq<seq<byte>>, groups: seq<seq<seq<byte>>>, n: nat) {
    && |pieces| == |groups|
    && forall k :: 0 <= k < |groups| ==> pieces[k] == Concat(groups[k]) && 0 < |groups[k]| <= n
                                         && (k < |groups| - 1 ==> |groups[k]| == n)
  }

  /** No group is short. */
  ghost predicate AllFull(groups: seq<seq<seq<byte>>>, n: nat) {
    forall k :: 0 <= k < |groups| ==> |groups[k]| == n
  }

  /** Where the loop stands: so many packets in full buffers, the others in the current one. */
  ghost predicate Collected(pieces: seq<seq<byte>>, groups: seq<seq<seq<byte>>>, current: seq<seq<byte>>,
                            buffer: seq<byte>, packets: seq<seq<byte>>, size: nat, n: nat) {
    && Grouped(pieces, groups, n) && (groups != [] ==> |groups[|groups| - 1]| == n)
    && packets == Flat(groups) + current
    && buffer == Concat(current) && |current| <= n && AllSized(current, size)
  }

  lemma OneMore(pieces: seq<seq<byte>>, groups: seq<seq<seq<byte>>>, current: seq<seq<byte>>,
                buffer: seq<byte>, packets: seq<seq<byte>>, size: nat, n: nat, packet: seq<byte>)
    requires Collected(pieces, groups, current, buffer, packets, size, n) && |current| < n && |packet| == size
    ensures Collected(pieces, groups, current + [packet], buffer + packet, packets + [packet], size, n)
  {
    assert (current + [packet])[..|current|] == current;
    assert (Flat(groups) + current) + [packet] == Flat(groups) + (current + [packet]);
  }

  lemma Published(pieces: seq<seq<byte>>, groups: seq<seq<seq<byte>>>, current: seq<seq<byte>>,
                  buffer: seq<byte>, packets: seq<seq<byte>>, size: nat, n: nat)
    requires Collected(pieces, groups, current, buffer, packets, size, n) && current != []
    ensures Grouped(pieces + [buffer], groups + [current], n) && packets == Flat(groups + [current])
    ensures |current| == n ==> Collected(pieces + [buffer], groups + [current], [], [], packets, size, n)
  {
    assert (groups + [current])[..|groups|] == groups;
    assert Flat(groups + [current]) + [] == Flat(groups + [current]);
  }

  lemma PublishedBehind(before: seq<seq<byte>>, pieces: seq<seq<byte>>, groups: seq<seq<seq<byte>>>,
                        current: seq<seq<byte>>,
                        buffer: seq<byte>, packets: seq<seq<byte>>, size: nat, n: nat)
    requires before <= pieces && Collected(pieces[|before|..], groups, current, buffer, packets, size, n)
    requires current != [] && size > 0
    ensures var pieces' := (pieces + [buffer])[|before|..];
            Grouped(pieces', groups + [current], n) && packets == Flat(groups + [current])
            && (|current| == n ==> Collected(pieces', groups + [current], [], [], packets, size, n))
  {
    hide Collected, Grouped;
    Published(pieces[|before|..], groups, current, buffer, packets, size, n);
    assert (pieces + [buffer])[|before|..] == pieces[|before|..] + [buffer];
  }

  /** The capacity of a buffer in whole packets, as the pipe is sized. */
  lemma Sizing(capacity: nat, packetSize: nat)
    requires 0 < packetSize
    ensures var n := capacity / packetSize; packetSize * n <= capacity < packetSize * (n + 1)
    ensures packetSize <= capacity ==> capacity / packetSize > 0
  {
    var n := capacity / packetSize;
    assert capacity == packetSize * n + capacity % packetSize;
  }

  /** Nothing among the first n receptions but perhaps the last of them ends the connection. */
  predicate Going(incoming: seq<Reception>, packetSize: nat, n: nat) {
    n <= |incoming| && forall k :: 0 <= k < n - 1 ==> Fine(incoming[k], packetSize)
  }

  /** The loop is over after n receptions: nothing more comes in, shutdown is asked for, or the last
      one ended the connection. A timeout does not. */
  predicate Over(incoming: seq<Reception>, packetSize: nat, stop: nat, n: nat)
    requires n <= |incoming|
  {
    n == |incoming| || n == stop || (n > 0 && !Fine(incoming[n - 1], packetSize))
  }

  /** There is only one such moment. */
  lemma OneEnd(incoming: seq<Reception>, packetSize: nat, stop: nat, m: nat, n: nat)
    requires Going(incoming, packetSize, m) && m <= stop && Over(incoming, packetSize, stop, m)
    requires Going(incoming, packetSize, n) && n <= stop && Over(incoming, packetSize, stop, n)
    ensures m == n
  {
  }

  /** Where the pipe stands between two turns of the loop. */
  ghost predicate Stands(pipe: SensorDataPipe, before: seq<seq<byte>>, groups: seq<seq<seq<byte>>>,
                         current: seq<seq<byte>>, packets: seq<seq<byte>>, size: nat)
    requires size > 0
    reads pipe
  {
    && InRange(pipe.s) && pipe.s.writer.Filling? && before <= pipe.pieces
    && Collected(pipe.pieces[|before|..], groups, current, pipe.s.buffers[pipe.s.writeIdx],
                 packets, size, pipe.capacity / size)
    && pipe.Valid()
  }

  /** ... and where it is left: what is not published is in the current buffer. */
  ghost predicate Left(pipe: SensorDataPipe, before: seq<seq<byte>>, groups: seq<seq<seq<byte>>>,
                       held: seq<seq<byte>>, packets: seq<seq<byte>>, size: nat)
    requires size > 0
    reads pipe
  {
    && InRange(pipe.s) && before <= pipe.pieces
    && Grouped(pipe.pieces[|before|..], groups, pipe.capacity / size)
    && packets == Flat(groups) + held && pipe.s.buffers[pipe.s.writeIdx] == Concat(held)
    && pipe.Valid()
  }

  /** A full buffer is published before anything is received. */
  method MakeRoom(pipe: SensorDataPipe, ghost before: seq<seq<byte>>, ghost groups: seq<seq<seq<byte>>>,
                  ghost current: seq<seq<byte>>, ghost packets: seq<seq<byte>>, size: nat)
    returns (blocked: bool, ghost more: seq<seq<seq<byte>>>, ghost now: seq<seq<byte>>)
    requires 0 < size <= pipe.capacity && Stands(pipe, before, groups, current, packets, size)
    modifies pipe
    ensures !blocked ==> Stands(pipe, before, more, now, packets, size) && |now| < pipe.capacity / size
    ensures blocked ==> Left(pipe, before, groups, current, packets, size) && Starved(pipe.s)
                        && AllFull(groups, pipe.capacity / size) && |current| == pipe.capacity / size
  {
    hide Good, Collected, Grouped, AllFull, Flat;
    var n := pipe.capacity / size;
    Sizing(pipe.capacity, size);
    blocked, more, now := false, groups, current;
    ghost var buffer := pipe.s.buffers[pipe.s.writeIdx];
    CollectedSize(pipe.pieces[|before|..], groups, current, buffer, packets, size, n);
    if |pipe.s.buffers[pipe.s.writeIdx]| == size * n {
      FullSoFar(pipe.pieces[|before|..], groups, current, buffer, packets, size, n);
      PublishedBehind(before, pipe.pieces, groups, current, buffer, packets, size, n);
      var buf;
      blocked, buf := pipe.GetWriteBuffer();
      more, now := groups + [current], [];
    }
  }

  /** A packet goes into the current buffer. */
  method Collect(pipe: SensorDataPipe, packet: seq<byte>, ghost before: seq<seq<byte>>,
                 ghost groups: seq<seq<seq<byte>>>, ghost current: seq<seq<byte>>, ghost packets: seq<seq<byte>>,
                 ghost size: nat)
    requires 0 < size <= pipe.capacity && Stands(pipe, before, groups, current, packets, size)
    requires |current| < pipe.capacity / size && |packet| == size
    modifies pipe
    ensures Stands(pipe, before, groups, current + [packet], packets + [packet], size)
  {
    hide Good, Collected;
    ghost var n, buffer := pipe.capacity / size, pipe.s.buffers[pipe.s.writeIdx];
    Sizing(pipe.capacity, size);
    CollectedSize(pipe.pieces[|before|..], groups, current, buffer, packets, size, n);
    OneMore(pipe.pieces[|before|..], groups, current, buffer, packets, size, n, packet);
    var ok := pipe.Append(packet);
  }

  /** What is left over is flushed. */
  method Finish(pipe: SensorDataPipe, ghost before: seq<seq<byte>>, ghost groups: seq<seq<seq<byte>>>,
                ghost current: seq<seq<byte>>, ghost packets: seq<seq<byte>>, ghost size: nat)
    returns (blocked: bool, ghost all: seq<seq<seq<byte>>>, ghost held: seq<seq<byte>>)
    requires 0 < size <= pipe.capacity && Stands(pipe, before, groups, current, packets, size)
    modifies pipe
    ensures Left(pipe, before, all, held, packets, size)
    ensures if blocked then Starved(pipe.s) && AllFull(all, pipe.capacity / size) && held != []
            else pipe.s.writer.Filling? && held == []
  {
    hide Good, Collected, Grouped, AllFull, Flat;
    ghost var n, rest := pipe.capacity / size, pipe.s.buffers[pipe.s.writeIdx];
    CollectedSize(pipe.pieces[|before|..], groups, current, rest, packets, size, n);
    FullSoFar(pipe.pieces[|before|..], groups, current, rest, packets, size, n);
    if current != [] {
      PublishedBehind(before, pipe.pieces, groups, current, rest, packets, size, n);
    }
    blocked := pipe.Flush();
    all, held := groups, current;
    if !blocked && current != [] {
      all, held := groups + [current], [];
      assert Flat(all) + [] == Flat(all);
    }
  }

  /** One connection, from an empty buffer to the flush that ends it, with shutdown asked for before
      reception `stop`. The packets received are published in order, in groups of exactly ItemMaxCount
      except perhaps the one that the flush publishes. If the run considered ends while the writer
      waits for the reader, the packets not published yet are in the current buffer: a full one, or
      what the flush found. */
  method Connection(pipe: SensorDataPipe, incoming: seq<Reception>, packetSize: nat, stop: nat)
    returns (blocked: bool, handled: nat, ghost groups: seq<seq<seq<byte>>>, ghost held: seq<seq<byte>>)
    requires pipe.Valid() && pipe.s.writer.Filling? && pipe.s.buffers[pipe.s.writeIdx] == []
    requires 0 < packetSize <= pipe.capacity
    modifies pipe
    ensures pipe.Valid() && Going(incoming, packetSize, handled) && handled <= stop
    ensures old(pipe.pieces) <= pipe.pieces
    ensures Grouped(pipe.pieces[|old(pipe.pieces)|..], groups, pipe.capacity / packetSize)
    ensures Packets(incoming[..handled], packetSize) == Flat(groups) + held
    ensures pipe.s.buffers[pipe.s.writeIdx] == Concat(held)
    ensures !blocked ==> held == [] && pipe.s.writer.Filling? && Over(incoming, packetSize, stop, handled)
    ensures blocked ==> Starved(pipe.s) && AllFull(groups, pipe.capacity / packetSize)
                        && (if Over(incoming, packetSize, stop, handled) then held != []
                            else |held| == pipe.capacity / packetSize)
  {
    hide Good, Packet, Packets, Collected, Grouped, AllFull, Flat;
    ghost var before, current := pipe.pieces, [];
    handled, groups, held := 0, [], [];
    NothingCollected(pipe.pieces[|before|..], packetSize, pipe.capacity / packetSize);
    assert Packets(incoming[..0], packetSize) == [] by { NoPackets(incoming[..0], packetSize); }
    while handled < |incoming| && handled != stop
      invariant handled <= |incoming| && handled <= stop
      invariant Stands(pipe, before, groups, current, Packets(incoming[..handled], packetSize), packetSize)
      invariant forall k :: 0 <= k < handled ==> Fine(incoming[k], packetSize)
    {
      ghost var packets := Packets(incoming[..handled], packetSize);
      var blocked', more, now := MakeRoom(pipe, before, groups, current, packets, packetSize);
      if blocked' {
        return true, handled, groups, current;
      }
      groups, current := more, now;
      var r := incoming[handled];
      PacketsSnoc(incoming[..handled], r, packetSize);
      assert packets + [] == packets;
      assert incoming[..handled + 1] == incoming[..handled] + [r];
      handled := handled + 1;
      if r.Received? {
        var packet := Packet(r.header, r.body, packetSize);
        if packet == None {
          break;
        }
        Collect(pipe, packet.value, before, groups, current, packets, packetSize);
        current := current + [packet.value];
      }
    }
    ghost var packets := Packets(incoming[..handled], packetSize);
    blocked, groups, held := Finish(pipe, before, groups, current, packets, packetSize);
  }

  /** The groups published while the loop goes on are full. */
  lemma FullSoFar(pieces: seq<seq<byte>>, groups: seq<seq<seq<byte>>>, current: seq<seq<byte>>,
                  buffer: seq<byte>, packets: seq<seq<byte>>, size: nat, n: nat)
    requires Collected(pieces, groups, current, buffer, packets, size, n)
    ensures Grouped(pieces, groups, n) && AllFull(groups, n) && packets == Flat(groups) + current
    ensures buffer == Concat(current)
  {
  }

  lemma NoPackets(incoming: seq<Reception>, packetSize: nat)
    requires incoming == []
    ensures Packets(incoming, packetSize) == []
  {
  }

  lemma NothingCollected(pieces: seq<seq<byte>>, size: nat, n: nat)
    requires pieces == []
    ensures Collected(pieces, [], [], [], [], size, n)
  {
  }

  /** The current buffer holds size bytes for every packet in it; it is full at n packets. */
  lemma CollectedSize(pieces: seq<seq<byte>>, groups: seq<seq<seq<byte>>>, current: seq<seq<byte>>,
                      buffer: seq<byte>, packets: seq<seq<byte>>, size: nat, n: nat)
    requires Collected(pieces, groups, current, buffer, packets, size, n) && size > 0
    ensures |current| <= n && |buffer| == size * |current|
    ensures |buffer| == size * n <==> |current| == n
    ensures |current| < n ==> |buffer| + size <= size * n
    ensures |buffer| == 0 <==> current == []
    ensures current == [] ==> Grouped(pieces, groups, n) && packets == Flat(groups)
  {
    ConcatLength(current, size);
    Fill(size, |current|, n);
    Fill(size, 0, |current|);
    assert Flat(groups) + [] == Flat(groups);
  }
}
