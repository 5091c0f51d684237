/** Length-prefixed framing on a byte stream (src/network/transport.rs): the printer, the parser, and cuts. */
module Framing {
  import opened Wrappers
  import opened Bytes
  import opened Codec

  const MAX_BODY: nat := 10 * 1024 * 1024
  const U32: nat := 0x1_0000_0000

  type Body = seq<byte>

  /** The length as a u32 (a longer body's length wraps), then the body. */
  function Frame(body: Body): seq<byte> {
    BigEndian(|body| % U32, 4) + body
  }

  function Frames(bodies: seq<Body>): seq<byte> {
    if |bodies| == 0 then [] else Frame(bodies[0]) + Frames(bodies[1..])
  }

  /** The bodies a receiver accepts. */
  predicate Sendable(body: Body) {
    1 <= |body| <= MAX_BODY
  }

  predicate AllSendable(bodies: seq<Body>) {
    forall i :: 0 <= i < |bodies| ==> Sendable(bodies[i])
  }

  /** One turn of the read loop on the bytes still to come before the end of the stream. */
  datatype FrameRead = Closed | BadLength | Truncated | Got(body: Body, rest: seq<byte>)

  function ReadFrame(s: seq<byte>): (r: FrameRead)
    ensures r.Got? ==> |r.rest| < |s|
  {
    if |s| < 4 then Closed else
      var len := FromBigEndian(s[..4]);
      if len == 0 || len > MAX_BODY then BadLength
      else if |s| - 4 < len then Truncated
      else Got(s[4..4 + len], s[4 + len..])
  }

  /** The bodies read until the stream ends or is given up. */
  function ParseFrames(s: seq<byte>): seq<Body>
    decreases |s|
  {
    match ReadFrame(s)
    case Got(body, rest) => [body] + ParseFrames(rest)
    case _ => []
  }

  lemma HeaderReads(body: Body, rest: seq<byte>)
    ensures |Frame(body)| == 4 + |body|
    ensures FromBigEndian((Frame(body) + rest)[..4]) == |body| % U32
  {
    assert Pow256(4) == U32;
    BigEndianRoundTrip(|body| % U32, 4);
    assert (Frame(body) + rest)[..4] == BigEndian(|body| % U32, 4);
  }

  /** A frame byte by byte: four bytes of length, the most significant first, and the body. */
  lemma FrameLayout(body: Body)
    requires |body| < U32
    ensures |Frame(body)| == 4 + |body| && Frame(body)[4..] == body
    ensures |body| == 0x100_0000 * Frame(body)[0] as nat + 0x1_0000 * Frame(body)[1] as nat
                      + 0x100 * Frame(body)[2] as nat + Frame(body)[3] as nat
  {
    HeaderReads(body, []);
    assert Frame(body) + [] == Frame(body);
    BigEndianLayout(Frame(body)[..4]);
  }

  lemma ReadWholeFrame(body: Body, rest: seq<byte>)
    requires Sendable(body)
    ensures ReadFrame(Frame(body) + rest) == Got(body, rest)
  {
    HeaderReads(body, rest);
    var s := Frame(body) + rest;
    assert s[4..4 + |body|] == body;
    assert s[4 + |body|..] == rest;
  }

  lemma HeaderIs(header: seq<byte>, body: Body)
    requires |header| == 4 && FromBigEndian(header) == |body| < U32
    ensures Frame(body) == header + body
  {
    BigEndianInverse(header);
    assert |body| % U32 == FromBigEndian(header);
  }

  /** Reading one frame succeeds exactly on a frame with an acceptable body, and takes off that frame only. */
  lemma ReadFrameExact(s: seq<byte>, body: Body, rest: seq<byte>)
    ensures ReadFrame(s) == Got(body, rest) <==> Sendable(body) && s == Frame(body) + rest
  {
    if Sendable(body) && s == Frame(body) + rest { ReadWholeFrame(body, rest); }
    if ReadFrame(s) == Got(body, rest) {
      HeaderIs(s[..4], body);
      assert s == (s[..4] + s[4..4 + |body|]) + s[4 + |body|..];
    }
  }

  /** A frame cut short anywhere, in its length or in its body, yields nothing. */
  lemma ReadCutFrame(body: Body, n: nat)
    requires Sendable(body) && n < |Frame(body)|
    ensures !ReadFrame(Frame(body)[..n]).Got?
  {
    HeaderReads(body, []);
    assert Frame(body) + [] == Frame(body);
    if n >= 4 { assert Frame(body)[..n][..4] == Frame(body)[..4]; }
  }

  /** How many of the frames lie wholly within the first `n` bytes. */
  function WholeFrames(bodies: seq<Body>, n: nat): (k: nat)
    ensures k <= |bodies|
  {
    if |bodies| == 0 || n < |Frame(bodies[0])| then 0 else 1 + WholeFrames(bodies[1..], n - |Frame(bodies[0])|)
  }

  lemma {:induction false} WholeFramesExact(bodies: seq<Body>, n: nat)
    ensures |Frames(bodies[..WholeFrames(bodies, n)])| <= n
    ensures WholeFrames(bodies, n) < |bodies| ==> n < |Frames(bodies[..WholeFrames(bodies, n) + 1])|
  {
    if |bodies| > 0 {
      var first, rest := bodies[0], bodies[1..];
      if n < |Frame(first)| {
        assert bodies[..1][1..] == [];
      } else {
        var k := WholeFrames(rest, n - |Frame(first)|);
        WholeFramesExact(rest, n - |Frame(first)|);
        assert bodies[..k + 1][1..] == rest[..k];
        if k < |rest| { assert bodies[..k + 2][1..] == rest[..k + 1]; }
      }
    }
  }

  /** The sender does not check sizes: a body this long wraps to a length that the receiver takes. */
  predicate Misread(body: Body) {
    !Sendable(body) && 1 <= |body| % U32 <= MAX_BODY
  }

  /** How many bodies come before the first one the receiver does not accept. */
  function SendablePrefix(bodies: seq<Body>): (k: nat)
    ensures k <= |bodies|
  {
    if |bodies| == 0 || !Sendable(bodies[0]) then 0 else 1 + SendablePrefix(bodies[1..])
  }

  /** The first body the receiver does not accept, if there is one, is recognised as such. */
  predicate NoMisread(bodies: seq<Body>) {
    var k := SendablePrefix(bodies);
    k < |bodies| ==> !Misread(bodies[k])
  }

  lemma {:induction false} AllSendablePrefix(bodies: seq<Body>)
    ensures AllSendable(bodies) <==> SendablePrefix(bodies) == |bodies|
    ensures AllSendable(bodies) ==> NoMisread(bodies)
  {
    if |bodies| > 0 && Sendable(bodies[0]) {
      AllSendablePrefix(bodies[1..]);
      assert forall i :: 0 < i < |bodies| ==> bodies[i] == bodies[1..][i - 1];
    }
  }

  lemma RejectedFrame(body: Body, rest: seq<byte>, n: nat)
    requires !Sendable(body) && !Misread(body) && n <= |Frame(body) + rest|
    ensures !ReadFrame((Frame(body) + rest)[..n]).Got?
  {
    HeaderReads(body, rest);
    if n >= 4 { assert (Frame(body) + rest)[..n][..4] == (Frame(body) + rest)[..4]; }
  }

  lemma ParseWholeFrame(body: Body, rest: seq<byte>)
    requires Sendable(body)
    ensures ParseFrames(Frame(body) + rest) == [body] + ParseFrames(rest)
  {
    ReadWholeFrame(body, rest);
  }

  function Min(a: nat, b: nat): nat {
    if a < b then a else b
  }

  lemma MisreadTail(bodies: seq<Body>)
    requires |bodies| > 0 && Sendable(bodies[0])
    ensures SendablePrefix(bodies) == 1 + SendablePrefix(bodies[1..])
    ensures NoMisread(bodies) <==> NoMisread(bodies[1..])
  {
  }

  lemma PrefixCons(bodies: seq<Body>, k: nat)
    requires |bodies| > 0 && k < |bodies|
    ensures bodies[..k + 1] == [bodies[0]] + bodies[1..][..k]
  {
  }

  lemma CutAfterFrame(bodies: seq<Body>, n: nat)
    requires |bodies| > 0 && |Frame(bodies[0])| <= n <= |Frames(bodies)|
    ensures n - |Frame(bodies[0])| <= |Frames(bodies[1..])|
    ensures Frames(bodies)[..n] == Frame(bodies[0]) + Frames(bodies[1..])[..n - |Frame(bodies[0])|]
  {
  }

  /**
   * Cutting a stream of frames at any byte, the receiver gets exactly the frames wholly before the cut, up to the
   * first body it does not accept.
   */
  lemma {:induction false} ParseAnyPrefix(bodies: seq<Body>, n: nat)
    requires NoMisread(bodies) && n <= |Frames(bodies)|
    ensures ParseFrames(Frames(bodies)[..n]) == bodies[..Min(WholeFrames(bodies, n), SendablePrefix(bodies))]
  {
    if |bodies| > 0 {
      var first, rest := bodies[0], bodies[1..];
      var s := Frames(bodies);
      if !Sendable(first) {
        RejectedFrame(first, Frames(rest), n);
      } else if n < |Frame(first)| {
        assert s[..n] == Frame(first)[..n];
        ReadCutFrame(first, n);
      } else {
        var m := n - |Frame(first)|;
        CutAfterFrame(bodies, n);
        ParseWholeFrame(first, Frames(rest)[..m]);
        MisreadTail(bodies);
        ParseAnyPrefix(rest, m);
        PrefixCons(bodies, Min(WholeFrames(rest, m), SendablePrefix(rest)));
      }
    }
  }

  lemma PrefixTail<T>(a: seq<T>, b: seq<T>)
    requires |a| > 0 && |b| > 0
    ensures a <= b ==> a[1..] <= b[1..]
  {
    if a <= b { assert a[1..] == b[1..][..|a| - 1]; }
  }

  lemma {:induction false} MisreadSpoils(bodies: seq<Body>)
    requires !NoMisread(bodies)
    ensures !(ParseFrames(Frames(bodies)) <= bodies)
  {
    var first, rest := bodies[0], bodies[1..];
    var parsed := ParseFrames(Frames(bodies));
    if Sendable(first) {
      ReadWholeFrame(first, Frames(rest));
      assert parsed[1..] == ParseFrames(Frames(rest));
      MisreadSpoils(rest);
      PrefixTail(parsed, bodies);
    } else {
      HeaderReads(first, Frames(rest));
      assert |parsed| > 0 && |parsed[0]| == |first| % U32;
    }
  }

  /**
   * Whatever the bodies: the receiver never reads anything but a prefix of them, wherever the stream is cut, exactly
   * when the first unacceptable one does not wrap to an acceptable length.
   */
  lemma PrefixReadExact(bodies: seq<Body>)
    ensures (forall n :: 0 <= n <= |Frames(bodies)| ==> ParseFrames(Frames(bodies)[..n]) <= bodies)
            <==> NoMisread(bodies)
  {
    if NoMisread(bodies) {
      forall n | 0 <= n <= |Frames(bodies)| ensures ParseFrames(Frames(bodies)[..n]) <= bodies {
        ParseAnyPrefix(bodies, n);
      }
    } else {
      MisreadSpoils(bodies);
      assert Frames(bodies)[..|Frames(bodies)|] == Frames(bodies);
    }
  }

  /** A body of unacceptable size is never read back as itself. */
  lemma UnsendableIsLost(body: Body, rest: seq<byte>)
    requires !Sendable(body)
    ensures ReadFrame(Frame(body) + rest).Got? ==> ReadFrame(Frame(body) + rest).body != body
  {
    HeaderReads(body, rest);
    assert |body| < U32 ==> |body| % U32 == |body|;
  }

  /** Framing round trip: a stream of frames reads back as its bodies exactly when each has 1 byte to 10 MiB. */
  lemma {:induction false} FramingRoundTrip(bodies: seq<Body>)
    ensures ParseFrames(Frames(bodies)) == bodies <==> AllSendable(bodies)
  {
    if |bodies| > 0 {
      var first, rest := bodies[0], bodies[1..];
      assert bodies == [first] + rest;
      FramingRoundTrip(rest);
      if Sendable(first) {
        ReadWholeFrame(first, Frames(rest));
        assert ParseFrames(Frames(bodies)) == [first] + ParseFrames(Frames(rest));
        assert ParseFrames(Frames(bodies))[1..] == ParseFrames(Frames(rest));
        assert AllSendable(rest) ==> AllSendable(bodies) by {
          assert forall i :: 0 < i < |bodies| ==> bodies[i] == rest[i - 1];
        }
      } else {
        UnsendableIsLost(first, Frames(rest));
      }
    }
  }

  lemma {:induction false} FramesConcat(a: seq<Body>, b: seq<Body>)
    ensures Frames(a + b) == Frames(a) + Frames(b)
  {
    if |a| == 0 {
      assert a + b == b;
    } else {
      assert (a + b)[1..] == a[1..] + b;
      FramesConcat(a[1..], b);
    }
  }

  // ---------- the receiving side ----------

  /** The messages forwarded for a list of bodies: the decodable ones up to the first that is not. */
  function Forwardable(bodies: seq<Body>): seq<RaftMessage> {
    if |bodies| == 0 then [] else
      match DecodeMessage(bodies[0]) case None => [] case Some(m) => [m] + Forwardable(bodies[1..])
  }

  /** Every byte is accounted for: whole frames with decodable bodies, then the end of the stream. */
  predicate EndsCleanly(s: seq<byte>)
    decreases |s|
  {
    match ReadFrame(s)
    case Closed => true
    case Got(body, rest) => DecodeMessage(body).Some? && EndsCleanly(rest)
    case _ => false
  }

  function Take<T>(s: seq<T>, n: nat): (r: seq<T>)
    ensures r <= s && |r| == Min(n, |s|)
  {
    if n < |s| then s[..n] else s
  }

  /** What is forwarded: the bodies decoded in order, and nothing from the first undecodable one on. */
  lemma {:induction false} ForwardableExact(bodies: seq<Body>)
    ensures var msgs := Forwardable(bodies);
            && |msgs| <= |bodies|
            && (forall i :: 0 <= i < |msgs| ==> DecodeMessage(bodies[i]) == Some(msgs[i]))
            && (|msgs| < |bodies| ==> DecodeMessage(bodies[|msgs|]) == None)
  {
    if |bodies| > 0 && DecodeMessage(bodies[0]).Some? {
      var msgs, rest := Forwardable(bodies), bodies[1..];
      ForwardableExact(rest);
      assert msgs[1..] == Forwardable(rest);
      forall i | 0 < i < |msgs| ensures DecodeMessage(bodies[i]) == Some(msgs[i]) { assert bodies[i] == rest[i - 1]; }
      if |msgs| < |bodies| { assert bodies[|msgs|] == rest[|msgs| - 1]; }
    }
  }

  predicate AllDecodable(bodies: seq<Body>) {
    forall i :: 0 <= i < |bodies| ==> DecodeMessage(bodies[i]).Some?
  }

  /** The stream is whole frames with acceptable, decodable bodies, and fewer than four bytes more. */
  ghost predicate WholeFramesOnly(s: seq<byte>) {
    exists bodies, tail :: s == Frames(bodies) + tail && AllSendable(bodies) && AllDecodable(bodies) && |tail| < 4
  }

  lemma FramesCons(body: Body, rest: seq<Body>, tail: seq<byte>)
    ensures Frames([body] + rest) + tail == Frame(body) + (Frames(rest) + tail)
    ensures AllSendable([body] + rest) <==> Sendable(body) && AllSendable(rest)
    ensures AllDecodable([body] + rest) <==> DecodeMessage(body).Some? && AllDecodable(rest)
  {
    var all := [body] + rest;
    assert all[1..] == rest;
    assert all[0] == body && forall i :: 0 <= i < |rest| ==> all[i + 1] == rest[i];
  }

  lemma {:induction false} CleanIfWhole(bodies: seq<Body>, tail: seq<byte>)
    requires AllSendable(bodies) && AllDecodable(bodies) && |tail| < 4
    ensures EndsCleanly(Frames(bodies) + tail)
    decreases |bodies|
  {
    if |bodies| > 0 {
      assert bodies == [bodies[0]] + bodies[1..];
      FramesCons(bodies[0], bodies[1..], tail);
      ReadWholeFrame(bodies[0], Frames(bodies[1..]) + tail);
      CleanIfWhole(bodies[1..], tail);
    } else {
      assert Frames(bodies) + tail == tail;
    }
  }

  lemma {:induction false} WholeIfClean(s: seq<byte>)
    requires EndsCleanly(s)
    ensures WholeFramesOnly(s)
    decreases |s|
  {
    match ReadFrame(s)
    case Got(body, rest) =>
      WholeIfClean(rest);
      var bodies, tail :| rest == Frames(bodies) + tail && AllSendable(bodies) && AllDecodable(bodies) && |tail| < 4;
      ReadFrameExact(s, body, rest);
      FramesCons(body, bodies, tail);
      assert s == Frames([body] + bodies) + tail;
    case Closed => assert s == Frames([]) + s && AllSendable([]) && AllDecodable([]);
    case _ =>
  }

  /** A connection ends cleanly exactly when nothing is lost: whole, acceptable, decodable frames, no begun body. */
  lemma EndsCleanlyExact(s: seq<byte>)
    ensures EndsCleanly(s) <==> WholeFramesOnly(s)
  {
    if EndsCleanly(s) { WholeIfClean(s); }
    if WholeFramesOnly(s) {
      var bodies, tail :| s == Frames(bodies) + tail && AllSendable(bodies) && AllDecodable(bodies) && |tail| < 4;
      CleanIfWhole(bodies, tail);
    }
  }

  /** What comes after whole frames decides how the connection ends. */
  lemma {:induction false} CleanAfterFrames(bodies: seq<Body>, rest: seq<byte>)
    requires AllSendable(bodies) && AllDecodable(bodies)
    ensures EndsCleanly(Frames(bodies) + rest) <==> EndsCleanly(rest)
    decreases |bodies|
  {
    if |bodies| > 0 {
      assert bodies == [bodies[0]] + bodies[1..];
      FramesCons(bodies[0], bodies[1..], rest);
      ReadWholeFrame(bodies[0], Frames(bodies[1..]) + rest);
      CleanAfterFrames(bodies[1..], rest);
    } else {
      assert Frames(bodies) + rest == rest;
    }
  }

  /** A length of zero or above 10 MiB never ends cleanly, whatever follows it. */
  lemma BadLengthNotClean(bodies: seq<Body>, header: seq<byte>, rest: seq<byte>)
    requires AllSendable(bodies) && AllDecodable(bodies)
    requires |header| == 4 && (FromBigEndian(header) == 0 || FromBigEndian(header) > MAX_BODY)
    ensures !EndsCleanly(Frames(bodies) + (header + rest))
  {
    CleanAfterFrames(bodies, header + rest);
    assert (header + rest)[..4] == header;
  }

  /** How a cut inside the first frame ends. */
  lemma CutFirstFrame(bodies: seq<Body>, n: nat)
    requires |bodies| > 0 && Sendable(bodies[0]) && n < |Frame(bodies[0])|
    ensures EndsCleanly(Frames(bodies)[..n]) <==> n < 4
  {
    assert Frames(bodies)[..n] == Frame(bodies[0])[..n];
    ReadCutFrame(bodies[0], n);
  }

  lemma FramesPrefixCons(bodies: seq<Body>, k: nat)
    requires k < |bodies|
    ensures |Frames(bodies[..k + 1])| == |Frame(bodies[0])| + |Frames(bodies[1..][..k])|
  {
    assert bodies[..k + 1][1..] == bodies[1..][..k];
  }

  lemma AcceptableTail(bodies: seq<Body>)
    requires AllSendable(bodies) && AllDecodable(bodies) && |bodies| > 0
    ensures AllSendable(bodies[1..]) && AllDecodable(bodies[1..])
  {
  }

  lemma CutLaterFrame(bodies: seq<Body>, n: nat)
    requires |bodies| > 0 && Sendable(bodies[0]) && DecodeMessage(bodies[0]).Some?
    requires |Frame(bodies[0])| <= n <= |Frames(bodies)|
    ensures n - |Frame(bodies[0])| <= |Frames(bodies[1..])|
    ensures EndsCleanly(Frames(bodies)[..n]) <==> EndsCleanly(Frames(bodies[1..])[..n - |Frame(bodies[0])|])
  {
    CutAfterFrame(bodies, n);
    ReadWholeFrame(bodies[0], Frames(bodies[1..])[..n - |Frame(bodies[0])|]);
  }

  /** How many of the first `n` bytes come after the last whole frame. */
  function Begun(bodies: seq<Body>, n: nat): int {
    n - |Frames(bodies[..WholeFrames(bodies, n)])|
  }

  lemma BegunTail(bodies: seq<Body>, n: nat)
    requires |bodies| > 0
    ensures n < |Frame(bodies[0])| ==> Begun(bodies, n) == n
    ensures n >= |Frame(bodies[0])| ==> Begun(bodies, n) == Begun(bodies[1..], n - |Frame(bodies[0])|)
  {
    if n >= |Frame(bodies[0])| { FramesPrefixCons(bodies, WholeFrames(bodies[1..], n - |Frame(bodies[0])|)); }
  }

  /**
   * A sender that dies: a stream of frames cut anywhere ends cleanly exactly if fewer than four bytes follow the last
   * whole frame. In particular a body cut short, or not even begun after its length, is an error.
   */
  lemma {:induction false} CutEndsCleanly(bodies: seq<Body>, n: nat)
    requires AllSendable(bodies) && AllDecodable(bodies) && n <= |Frames(bodies)|
    ensures EndsCleanly(Frames(bodies)[..n]) <==> Begun(bodies, n) < 4
  {
    if |bodies| > 0 {
      BegunTail(bodies, n);
      if n < |Frame(bodies[0])| {
        CutFirstFrame(bodies, n);
      } else {
        CutLaterFrame(bodies, n);
        AcceptableTail(bodies);
        CutEndsCleanly(bodies[1..], n - |Frame(bodies[0])|);
      }
    }
  }

  /** `read_exact`: the next `n` bytes, or nothing if the stream ends before. */
  method ReadExact(s: seq<byte>, n: nat) returns (r: Option<(seq<byte>, seq<byte>)>)
    ensures r.None? <==> |s| < n
    ensures r.Some? ==> |r.value.0| == n && s == r.value.0 + r.value.1
  {
    if |s| < n { return None; }
    r := Some((s[..n], s[n..]));
  }

  /** Length, check, body: one turn of the read loop. */
  method ReadNext(s: seq<byte>) returns (r: FrameRead)
    ensures r == ReadFrame(s)
  {
    var header := ReadExact(s, 4);
    if header.None? { return Closed; }
    var len := FromBigEndian(header.value.0);
    if len == 0 || len > MAX_BODY { return BadLength; }
    var body := ReadExact(header.value.1, len);
    if body.None? { return Truncated; }
    r := Got(body.value.0, body.value.1);
  }

  /** What an accepted frame contributes to the reference parse. */
  lemma AcceptedFrame(s: seq<byte>)
    requires ReadFrame(s).Got?
    ensures var msg := DecodeMessage(ReadFrame(s).body);
            Forwardable(ParseFrames(s))
            == if msg.None? then [] else [msg.value] + Forwardable(ParseFrames(ReadFrame(s).rest))
  {
    assert ParseFrames(s)[1..] == ParseFrames(ReadFrame(s).rest);
  }

  /**
   * `handle_connection` on the bytes a connection delivers before it ends. `accepts` is how many sends into the
   * channel succeed before its receiver goes away.
   */
  method HandleConnection(wire: seq<byte>, accepts: nat) returns (forwarded: seq<RaftMessage>, ok: bool)
    ensures forwarded == Take(Forwardable(ParseFrames(wire)), accepts)
    ensures ok <==> EndsCleanly(wire) && |Forwardable(ParseFrames(wire))| <= accepts
  {
    var rest := wire;
    forwarded := [];
    ghost var left := Forwardable(ParseFrames(wire));
    ghost var all := left;
    while true
      invariant |forwarded| <= accepts
      invariant left == Forwardable(ParseFrames(rest))
      invariant all == forwarded + left
      invariant EndsCleanly(wire) == EndsCleanly(rest)
      decreases |rest|
    {
      var r := ReadNext(rest);
      if !r.Got? { return forwarded, r.Closed?; }
      AcceptedFrame(rest);
      var msg := DecodeMessage(r.body);
      if msg.None? { return forwarded, false; }
      if |forwarded| == accepts { return forwarded, false; }
      Regroup(forwarded, msg.value, left);
      forwarded := forwarded + [msg.value];
      rest, left := r.rest, left[1..];
    }
  }

  lemma Regroup<T>(s: seq<T>, x: T, t: seq<T>)
    requires |t| > 0 && t[0] == x
    ensures s + t == (s + [x]) + t[1..]
  {
  }
}
