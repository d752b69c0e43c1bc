/**
 * The relay of `sharp_hems/serial_pubsub.py`. The server cuts the serial byte stream into
 * frames (a 2-byte header, then `header[1] + 3` payload bytes) and publishes each as the text
 * `"serial <header hex> <payload hex>"`; the client splits each message it receives and hands
 * the hex-decoded header and payload to a callback.
 *
 * The serial line is modelled as bursts of bytes separated by silences longer than the read
 * timeout: a read returns what the current burst still holds, up to the requested size, and a
 * read issued when the burst is used up returns nothing once the silence has passed.
 */
module SerialPubSub {
  import opened Wrappers
  import opened Hex

  /** The channel name, also the subscription prefix. */
  const CH: string := "serial"

  datatype Frame = Frame(header: seq<byte>, payload: seq<byte>)

  /** Bursts of bytes, in arrival order. */
  type Line = seq<seq<byte>>

  function Flatten(line: Line): (bytes: seq<byte>)
  {
    if line == [] then [] else line[0] + Flatten(line[1..])
  }

  /** What a read loop has left to consume: the bytes and the silences still ahead. */
  function Size(line: Line): nat
  {
    if line == [] then 0 else |line[0]| + 1 + Size(line[1..])
  }

  /**
   * `ser.read(n)`: up to `n` bytes of the current burst; an exhausted burst yields nothing and
   * is dropped. No byte is lost or invented: what is read, followed by what remains, is what
   * the line held.
   */
  function Read(line: Line, n: nat): (res: (seq<byte>, Line))
    requires n >= 1
    ensures |res.0| <= n
    ensures line == [] ==> res == ([], [])
    ensures line != [] && |line[0]| >= n ==> |res.0| == n
  {
    if line == [] then ([], [])
    else if line[0] == [] then ([], line[1..])
    else
      var k := if n < |line[0]| then n else |line[0]|;
      assert line[0][..k] + line[0][k..] == line[0];
      ([] + line[0][..k], [line[0][k..]] + line[1..])
  }

  /** Every read on a non-empty line returns data or passes a silence, so the loop progresses. */
  lemma ReadShrinks(line: Line, n: nat)
    requires n >= 1 && line != []
    ensures Size(Read(line, n).1) < Size(line)
  {
    if line[0] != [] {
      var k := if n < |line[0]| then n else |line[0]|;
      assert ([line[0][k..]] + line[1..])[1..] == line[1..];
    }
  }

  /** No byte is lost or invented by a read: what it returns, followed by what remains, is what the line held. */
  lemma ReadKeepsBytes(line: Line, n: nat)
    requires n >= 1
    ensures Read(line, n).0 + Flatten(Read(line, n).1) == Flatten(line)
  {
    if line != [] && line[0] != [] {
      var k := if n < |line[0]| then n else |line[0]|;
      assert ([line[0][k..]] + line[1..])[1..] == line[1..];
      assert line[0][..k] + line[0][k..] == line[0];
    }
  }

  /**
   * The frames the server's loop cuts from the line, in read order: a header read that returns
   * fewer than 2 bytes is skipped; otherwise `header[1] + 5 - 2` more bytes are read as the
   * payload, however many of them arrive.
   */
  function Frames(line: Line): (fs: seq<Frame>)
    ensures forall i :: 0 <= i < |fs| ==> |fs[i].header| == 2 && |fs[i].payload| <= fs[i].header[1] as int + 3
    decreases Size(line)
  {
    if line == [] then []
    else
      var h := Read(line, 2);
      ReadShrinks(line, 2);
      if |h.0| < 2 then Frames(h.1)
      else
        var p := Read(h.1, h.0[1] as int + 5 - 2);
        assert Size(p.1) < Size(line) by {
          if h.1 != [] {
            ReadShrinks(h.1, h.0[1] as int + 5 - 2);
          }
        }
        [Frame(h.0, p.0)] + Frames(p.1)
  }

  /** A header read that returns fewer than 2 bytes yields no frame. */
  lemma FramesSkip(line: Line, header: seq<byte>, rest: Line)
    requires line != [] && Read(line, 2) == (header, rest) && |header| < 2
    ensures Frames(line) == Frames(rest)
  {
  }

  /** A full header read yields the frame of that header and of the payload read after it. */
  lemma FramesStep(line: Line, header: seq<byte>, mid: Line, payload: seq<byte>, rest: Line)
    requires line != [] && Read(line, 2) == (header, mid) && |header| == 2
    requires Read(mid, header[1] as int + 5 - 2) == (payload, rest)
    ensures Frames(line) == [Frame(header, payload)] + Frames(rest)
  {
    var h := Read(line, 2);
    assert h.0 == header && h.1 == mid;
    var p := Read(h.1, h.0[1] as int + 5 - 2);
    assert p.0 == payload && p.1 == rest;
  }

  /** A frame as the device sends it: a 2-byte header and exactly `header[1] + 3` payload bytes. */
  predicate WellFormed(f: Frame) {
    |f.header| == 2 && |f.payload| == f.header[1] as int + 3
  }

  /** The bytes of consecutive frames. */
  function Concat(fs: seq<Frame>): (bytes: seq<byte>)
  {
    if fs == [] then [] else fs[0].header + (fs[0].payload + Concat(fs[1..]))
  }

  /**
   * Frames that arrive in one burst are recovered exactly, one per frame and in order, and
   * the frames of the bursts after it follow.
   */
  lemma {:induction false} FramesOfBurst(fs: seq<Frame>, later: Line)
    requires forall i :: 0 <= i < |fs| ==> WellFormed(fs[i])
    ensures Frames([Concat(fs)] + later) == fs + Frames(later)
  {
    if fs == [] {
      var line := [Concat(fs)] + later;
      assert line[1..] == later;
      FramesSkip(line, [], later);
    } else {
      FramesOfBurst(fs[1..], later);
      FirstFrameOfBurst(fs, later);
    }
  }

  /** The first frame of a burst is read whole, and the rest of the burst is read as before. */
  lemma FirstFrameOfBurst(fs: seq<Frame>, later: Line)
    requires fs != [] && WellFormed(fs[0])
    requires Frames([Concat(fs[1..])] + later) == fs[1..] + Frames(later)
    ensures Frames([Concat(fs)] + later) == fs + Frames(later)
  {
    var f := fs[0];
    FrameThen(f.header, f.payload, Concat(fs[1..]), later);
    AppendAssoc([f], fs[1..], Frames(later));
    assert [f] + fs[1..] == fs;
  }

  lemma AppendAssoc<T>(a: seq<T>, b: seq<T>, c: seq<T>)
    ensures a + (b + c) == (a + b) + c
  {
  }

  /** A burst that starts with a well-formed frame yields that frame, then what the rest of the burst yields. */
  lemma FrameThen(header: seq<byte>, payload: seq<byte>, tail: seq<byte>, later: Line)
    requires |header| == 2 && |payload| == header[1] as int + 3
    ensures Frames([header + (payload + tail)] + later) == [Frame(header, payload)] + Frames([tail] + later)
  {
    ReadPrefix(header, payload + tail, later);
    ReadPrefix(payload, tail, later);
    FramesStep([header + (payload + tail)] + later, header, [payload + tail] + later, payload, [tail] + later);
  }

  /** A read of exactly the bytes a burst starts with returns them and leaves the rest of the burst. */
  lemma ReadPrefix(a: seq<byte>, b: seq<byte>, later: Line)
    requires |a| >= 1
    ensures Read([a + b] + later, |a|) == (a, [b] + later)
  {
    var line := [a + b] + later;
    assert line[0] == a + b && line[1..] == later;
    assert (a + b)[..|a|] == a && (a + b)[|a|..] == b;
    assert [] + a == a;
  }

  /** A burst of a single byte yields no frame: the lone header byte is dropped. */
  lemma LoneByteDropped(b: byte, later: Line)
    ensures Frames([[b]] + later) == Frames(later)
  {
    var line := [[b]] + later;
    assert line[1..] == later;
    var (header, rest) := Read(line, 2);
    assert line[0] == [b] && [b][1..] == [];
    assert header == [b] && rest == [[]] + later;
    assert rest[1..] == later;
    assert Read(rest, 2) == ([], later);
    assert Frames(rest) == Frames(later);
  }

  /** The client subscribes to the channel name: it receives only messages that start with it. */
  predicate Subscribed(msg: string) {
    |CH| <= |msg| && msg[..|CH|] == CH
  }

  /** `f"{CH} {header.hex()} {payload.hex()}"`; it always passes the client's subscription filter. */
  function Message(f: Frame): (msg: string)
    ensures Subscribed(msg)
    ensures |msg| == |CH| + 2 + 2 * |f.header| + 2 * |f.payload|
  {
    CH + " " + ToHex(f.header) + " " + ToHex(f.payload)
  }

  function Messages(fs: seq<Frame>): (ms: seq<string>)
    ensures |ms| == |fs|
  {
    if fs == [] then [] else [Message(fs[0])] + Messages(fs[1..])
  }

  lemma MessagesCons(f: Frame, fs: seq<Frame>)
    ensures Messages([f] + fs) == [Message(f)] + Messages(fs)
  {
    assert ([f] + fs)[1..] == fs;
  }

  /**
   * `start_server`'s loop over the serial line, publishing one message per frame; it ends
   * when the line does.
   */
  method Serve(line: Line) returns (sent: seq<string>)
    ensures sent == Messages(Frames(line))
  {
    var rest := line;
    sent := [];
    while rest != []
      invariant sent + Messages(Frames(rest)) == Messages(Frames(line))
      decreases Size(rest)
    {
      var before := rest;
      ReadShrinks(rest, 2);
      var read := Read(rest, 2);
      var header := read.0;
      rest := read.1;
      if |header| == 0 {
        FramesSkip(before, header, rest);
        continue;
      } else if |header| == 1 {
        FramesSkip(before, header, rest);
        continue;
      }
      var mid := rest;
      if rest != [] {
        ReadShrinks(rest, header[1] as int + 5 - 2);
      }
      read := Read(rest, header[1] as int + 5 - 2);
      var payload := read.0;
      rest := read.1;
      var frame := Frame(header, payload);
      ghost var later := Frames(rest);
      FramesStep(before, header, mid, payload, rest);
      MessagesCons(frame, later);
      assert (sent + [Message(frame)]) + Messages(later) == sent + ([Message(frame)] + Messages(later));
      sent := sent + [Message(frame)];
    }
  }

  /** The position of the first `c` in `s`, if any. */
  function IndexOf(s: string, c: char): (r: Option<nat>)
    ensures r.Some? ==> r.value < |s| && s[r.value] == c && forall j :: 0 <= j < r.value ==> s[j] != c
    ensures r.None? ==> forall j :: 0 <= j < |s| ==> s[j] != c
  {
    if s == [] then None
    else if s[0] == c then Some(0)
    else match IndexOf(s[1..], c)
      case None => None
      case Some(i) => Some(i + 1)
  }

  /** The first `c` is found wherever it is. */
  lemma {:induction false} IndexOfFirst(s: string, c: char, i: nat)
    requires i < |s| && s[i] == c
    requires forall j :: 0 <= j < i ==> s[j] != c
    ensures IndexOf(s, c) == Some(i)
  {
    if i > 0 {
      IndexOfFirst(s[1..], c, i - 1);
    }
  }

  /**
   * `s.split(" ", 2)`: cut at the first two spaces; the third part keeps any later spaces.
   * Joining the parts with single spaces gives `s` back.
   */
  function Split2(s: string): (parts: seq<string>)
    ensures 1 <= |parts| <= 3
    ensures |parts| == 1 ==> parts[0] == s
    ensures |parts| == 2 ==> parts[0] + " " + parts[1] == s
    ensures |parts| == 3 ==> parts[0] + " " + parts[1] + " " + parts[2] == s
    ensures |parts| >= 2 ==> forall j :: 0 <= j < |parts[0]| ==> parts[0][j] != ' '
    ensures |parts| == 3 ==> forall j :: 0 <= j < |parts[1]| ==> parts[1][j] != ' '
  {
    match IndexOf(s, ' ')
    case None => [s]
    case Some(i) =>
      var rest := s[i + 1..];
      JoinedAtSpace(s, i);
      match IndexOf(rest, ' ')
      case None => [s[..i], rest]
      case Some(j) =>
        JoinedAtSpace(rest, j);
        AppendAssoc(s[..i] + " ", rest[..j] + " ", rest[j + 1..]);
        AppendAssoc(s[..i] + " ", rest[..j], " ");
        [s[..i], rest[..j], rest[j + 1..]]
  }

  /** A text is the part before one of its spaces, that space, and the part after it. */
  lemma JoinedAtSpace(s: string, i: nat)
    requires i < |s| && s[i] == ' '
    ensures s[..i] + " " + s[i + 1..] == s
  {
  }

  /** Splitting at spaces recovers the fields of a text made of two space-free fields and a third. */
  lemma SplitJoined(a: string, b: string, c: string)
    requires forall j :: 0 <= j < |a| ==> a[j] != ' '
    requires forall j :: 0 <= j < |b| ==> b[j] != ' '
    ensures Split2(a + " " + b + " " + c) == [a, b, c]
  {
    var s := a + " " + b + " " + c;
    IndexOfFirst(s, ' ', |a|);
    var rest := s[|a| + 1..];
    assert rest == b + " " + c;
    IndexOfFirst(rest, ' ', |b|);
    assert s[..|a|] == a && rest[..|b|] == b && rest[|b| + 1..] == c;
    assert rest[|b| + 1..] == c;
  }

  /**
   * The client's reading of one message: `split(" ", 2)` must give three parts (otherwise the
   * unpacking raises), and the second and third must be hex (otherwise `fromhex` raises).
   */
  function Decode(msg: string): (r: Result<Frame>)
    ensures r.Success? ==> |Split2(msg)| == 3
    ensures r.Success? ==> FromHex(Split2(msg)[1]) == Success(r.value.header)
    ensures r.Success? ==> FromHex(Split2(msg)[2]) == Success(r.value.payload)
  {
    var parts := Split2(msg);
    if |parts| != 3 then Failure("ValueError: not enough values to unpack")
    else match FromHex(parts[1])
      case Failure(e) => Failure(e)
      case Success(header) =>
        match FromHex(parts[2])
        case Failure(e) => Failure(e)
        case Success(payload) => Success(Frame(header, payload))
  }

  /** The wire format round-trips: the client decodes every message to the frame the server sent. */
  lemma MessageRoundTrip(f: Frame)
    ensures Split2(Message(f)) == [CH, ToHex(f.header), ToHex(f.payload)]
    ensures Decode(Message(f)) == Success(f)
  {
    SplitJoined(CH, ToHex(f.header), ToHex(f.payload));
    FromHexToHex(f.header);
    FromHexToHex(f.payload);
  }

  /** One call of the client's callback `func(handle, header, payload)`, which is taken to return. */
  datatype Call<H> = Call(handle: H, header: seq<byte>, payload: seq<byte>)

  /** The calls made for a stream of published messages, and whether the loop died on a decoding exception. */
  datatype Delivery<H> = Delivery(calls: seq<Call<H>>, failed: bool)


  /**
   * What `start_client` does with the published messages: messages outside the subscription
   * are never received; each received message gives one call, with the same handle, in order;
   * the first message that cannot be decoded raises and ends the loop.
   */
  function Deliver<H>(msgs: seq<string>, handle: H): (d: Delivery<H>)
    ensures |d.calls| <= |msgs|
    ensures forall i :: 0 <= i < |d.calls| ==> d.calls[i].handle == handle
  {
    if msgs == [] then Delivery([], false)
    else if !Subscribed(msgs[0]) then Deliver(msgs[1..], handle)
    else match Decode(msgs[0])
      case Failure(_) => Delivery([], true)
      case Success(f) =>
        var rest := Deliver(msgs[1..], handle);
        Delivery([Call(handle, f.header, f.payload)] + rest.calls, rest.failed)
  }

  /** The calls `first` made before a delivery `d`, followed by `d`. */
  function After<H>(first: seq<Call<H>>, d: Delivery<H>): Delivery<H> {
    Delivery(first + d.calls, d.failed)
  }

  /** One received message's effect on the delivery of the messages from it on. */
  lemma DeliverStep<H>(msgs: seq<string>, i: nat, handle: H)
    requires i < |msgs|
    ensures !Subscribed(msgs[i]) ==> Deliver(msgs[i..], handle) == Deliver(msgs[i + 1..], handle)
    ensures Subscribed(msgs[i]) && Decode(msgs[i]).Failure? ==> Deliver(msgs[i..], handle) == Delivery([], true)
    ensures Subscribed(msgs[i]) && Decode(msgs[i]).Success? ==>
      var f := Decode(msgs[i]).value;
      Deliver(msgs[i..], handle) == After([Call(handle, f.header, f.payload)], Deliver(msgs[i + 1..], handle))
  {
    assert msgs[i..][1..] == msgs[i + 1..];
  }

  /** `start_client`'s loop over the published messages; it ends when they do or on the first decoding exception. */
  method Listen<H>(msgs: seq<string>, handle: H) returns (calls: seq<Call<H>>, failed: bool)
    ensures Delivery(calls, failed) == Deliver(msgs, handle)
  {
    calls := [];
    var i := 0;
    while i < |msgs|
      invariant 0 <= i <= |msgs|
      invariant After(calls, Deliver(msgs[i..], handle)) == Deliver(msgs, handle)
    {
      DeliverStep(msgs, i, handle);
      if !(|CH| <= |msgs[i]| && msgs[i][..|CH|] == CH) {
        i := i + 1;
        continue;
      }
      var parts := Split2(msgs[i]);
      if |parts| != 3 {
        assert calls + [] == calls;
        return calls, true;
      }
      var header := FromHex(parts[1]);
      var payload := FromHex(parts[2]);
      if header.Failure? || payload.Failure? {
        assert calls + [] == calls;
        return calls, true;
      }
      var call := Call(handle, header.value, payload.value);
      AppendAssoc(calls, [call], Deliver(msgs[i + 1..], handle).calls);
      calls := calls + [call];
      i := i + 1;
    }
    assert msgs[i..] == [];
    assert calls + [] == calls;
    failed := false;
  }

  /** Everything the server publishes reaches the callback unchanged, once each, in order. */
  lemma {:induction false} RelayDeliversFrames<H>(fs: seq<Frame>, handle: H)
    ensures var d := Deliver(Messages(fs), handle);
      !d.failed && |d.calls| == |fs|
      && forall i :: 0 <= i < |fs| ==> d.calls[i] == Call(handle, fs[i].header, fs[i].payload)
  {
    if fs != [] {
      MessageRoundTrip(fs[0]);
      assert Messages(fs)[1..] == Messages(fs[1..]);
      RelayDeliversFrames(fs[1..], handle);
    }
  }

  /**
   * End to end: frames that arrive in one burst on the serial line reach the client's callback
   * as the same headers and payloads, in the same order, without an exception.
   */
  lemma SerialToCallback<H>(fs: seq<Frame>, handle: H)
    requires forall i :: 0 <= i < |fs| ==> WellFormed(fs[i])
    ensures var d := Deliver(Messages(Frames([Concat(fs)])), handle);
      !d.failed && |d.calls| == |fs|
      && forall i :: 0 <= i < |fs| ==> d.calls[i] == Call(handle, fs[i].header, fs[i].payload)
  {
    FramesOfBurst(fs, []);
    assert [Concat(fs)] + [] == [Concat(fs)];
    assert Frames([]) == [];
    assert fs + [] == fs;
    assert Frames([Concat(fs)]) == fs;
    RelayDeliversFrames(fs, handle);
  }
}
