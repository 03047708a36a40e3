/**
  The receive side of the DSi wifi interface.  The firmware side appends framed messages to mailbox
  8; whenever there is room they move to mailbox 4, each padded to a multiple of 128 bytes, where the
  host reads them.
 */
module WifiMailboxes {
  import opened Crypto
  import opened Fifos

  type Message = seq<byte>

  // ----- Framing -----

  /** The size that a header announces. */
  function SizeOf(s: seq<byte>): (n: nat)
    requires |s| >= 4
  {
    var lo: nat, hi: nat := s[2], s[3];
    6 + lo + 0x100 * hi
  }

  /** Bytes 2 and 3 of a message give its length beyond the six header bytes. */
  ghost predicate Framed(m: Message) {
    |m| >= 6 && |m| == SizeOf(m)
  }

  function PadTo(n: nat): (r: nat)
    ensures n <= r < n + 0x80 && r % 0x80 == 0
    ensures n % 0x80 == 0 ==> r == n
  {
    (n + 0x7F) / 0x80 * 0x80
  }

  function Zeros(n: nat): seq<byte> {
    seq(n, _ => 0)
  }

  function Padded(m: Message): (s: seq<byte>)
    ensures |s| == PadTo(|m|)
  {
    m + Zeros(PadTo(|m|) - |m|)
  }

  function Join(ms: seq<Message>): seq<byte> {
    if ms == [] then [] else ms[0] + Join(ms[1..])
  }

  function JoinPadded(ms: seq<Message>): seq<byte> {
    if ms == [] then [] else JoinPadded(ms[..|ms| - 1]) + Padded(ms[|ms| - 1])
  }

  ghost predicate AllFramed(ms: seq<Message>) {
    forall i :: 0 <= i < |ms| ==> Framed(ms[i])
  }

  lemma {:induction false} JoinSnoc(ms: seq<Message>, m: Message)
    ensures Join(ms + [m]) == Join(ms) + m
  {
    if ms == [] {
      assert [m][1..] == [];
    } else {
      JoinSnoc(ms[1..], m);
      assert (ms + [m])[1..] == ms[1..] + [m];
    }
  }

  lemma {:induction false} JoinPaddedCons(ms: seq<Message>)
    requires ms != []
    ensures JoinPadded(ms) == Padded(ms[0]) + JoinPadded(ms[1..])
  {
    JoinPaddedSnoc(ms);
    hide Padded, PadTo;
    var k := |ms| - 1;
    if k == 0 {
      assert ms[..0] == [] && ms[1..] == [];
    } else {
      JoinPaddedCons(ms[..k]);
      JoinPaddedSnoc(ms[1..]);
      var head, mid, last := Padded(ms[0]), JoinPadded(ms[1..k]), Padded(ms[k]);
      assert ms[..k][1..] == ms[1..k] == ms[1..][..k - 1] && ms[..k][0] == ms[0] && ms[1..][k - 1] == ms[k];
      assert (head + mid) + last == head + (mid + last);
    }
  }

  lemma JoinPaddedSnoc(ms: seq<Message>)
    requires ms != []
    ensures JoinPadded(ms) == JoinPadded(ms[..|ms| - 1]) + Padded(ms[|ms| - 1])
  {
    hide Padded;
  }

  /** The message fits into mailbox 4 at all. */
  predicate Fits(m: Message) {
    PadTo(|m|) <= 0x600
  }

  /** The first message that does not, or the number of messages. */
  function FirstStuck(ms: seq<Message>): (k: nat)
    ensures k <= |ms| && (k < |ms| ==> !Fits(ms[k])) && forall i :: 0 <= i < k ==> Fits(ms[i])
  {
    if ms == [] || !Fits(ms[0]) then 0 else 1 + FirstStuck(ms[1..])
  }

  /** How the host takes the stream of mailbox 4 apart: header, body, padding. */
  function Unframe(s: seq<byte>): seq<Message>
    decreases |s|
  {
    if |s| < 6 then []
    else
      var n := SizeOf(s);
      if PadTo(n) > |s| then [] else [s[..n]] + Unframe(s[PadTo(n)..])
  }

  /** The stream of padded messages reads back as the messages. */
  lemma {:induction false} UnframeJoined(ms: seq<Message>)
    requires AllFramed(ms)
    ensures Unframe(JoinPadded(ms)) == ms
    decreases |ms|
  {
    hide PadTo;
    if ms != [] {
      JoinPaddedCons(ms);
      UnframeJoined(ms[1..]);
      var s, m := JoinPadded(ms), ms[0];
      assert Framed(m);
      assert s[2] == m[2] && s[3] == m[3] && s[..|m|] == m;
      assert s[PadTo(|m|)..] == JoinPadded(ms[1..]);
    }
  }

  // ----- The messages -----

  function Le16(v: nat): (s: seq<byte>)
    ensures |s| == 2
  {
    [v % 0x100, v / 0x100 % 0x100]
  }

  function Le32(v: nat): (s: seq<byte>)
    ensures |s| == 4
  {
    Le16(v) + Le16(v / 0x1_0000)
  }

  /** The trailer of events: a lookahead record of zeros. */
  function Lookahead(): (s: seq<byte>)
    ensures |s| == 8
  {
    [2, 6] + Zeros(6)
  }

  function EventMessage(ep: byte, id: nat, data: seq<byte>): seq<byte> {
    [ep, 2] + Le16(|data| + 2 + 8) + [8, 0] + Le16(id) + data + Lookahead()
  }

  function AckMessage(ep: byte): seq<byte> {
    [0, 2] + Le16(0xC) + [0xC, 0] + [1, 2, ep, 1] + Lookahead()
  }

  function BssMessage(kind: byte, apMac: seq<byte>, data: seq<byte>): seq<byte>
    requires |apMac| == 6
  {
    [1, 0] + Le16(|data| + 2 + 16) + [0xFF, 0xFF] + Le16(0x1004)
    + Le16(2437) + [kind, 0x1B] + Le16(0xFFBC) + apMac + Le32(0) + data
  }

  /** A received network frame of len bytes at the start of the LAN buffer, with its Ethernet header
      turned into the chip's own.  A frame shorter than that header has no body but the length field
      still counts down from its size. */
  function FrameMessage(lan: seq<byte>, len: nat): seq<byte>
    requires |lan| == 2048 && 0 < len <= 2048
  {
    [2, 0] + Le16Signed(16 + 8 + (len - 14)) + [0, 0] + FrameBody(lan, len)
  }

  function FrameBody(lan: seq<byte>, len: nat): (s: seq<byte>)
    requires |lan| == 2048 && 0 < len <= 2048
    ensures |s| == 24 + if len > 14 then len - 14 else 0
  {
    Le16(0x80) + lan[0..6] + lan[6..12] + Swapped(Le16Signed((len - 14) + 8))
    + Le16(0xAAAA) + Le16(3) + Le16(0) + lan[12..14] + (if len > 14 then lan[14..len] else [])
  }

  function Le16Signed(v: int): (s: seq<byte>)
    ensures |s| == 2
  {
    Le16(v % 0x1_0000)
  }

  function Swapped(s: seq<byte>): (t: seq<byte>)
    requires |s| == 2
    ensures |t| == 2
  {
    [s[1], s[0]]
  }

  lemma EventFramed(ep: byte, id: nat, data: seq<byte>)
    requires |data| < 0x8000
    ensures Framed(EventMessage(ep, id, data)) && |EventMessage(ep, id, data)| == 6 + |data| + 2 + 8
  {
  }

  lemma AckFramed(ep: byte)
    ensures Framed(AckMessage(ep)) && |AckMessage(ep)| == 6 + 12
  {
  }

  lemma BssFramed(kind: byte, apMac: seq<byte>, data: seq<byte>)
    requires |apMac| == 6 && |data| < 0x8000
    ensures Framed(BssMessage(kind, apMac, data)) && |BssMessage(kind, apMac, data)| == 6 + |data| + 2 + 16
  {
  }

  // ----- What stands where -----

  lemma EventFields(ep: byte, id: nat, data: seq<byte>)
    requires |data| < 0x8000 && id < 0x1_0000
    ensures
      var m, n := EventMessage(ep, id, data), |data|;
      && |m| == 16 + n && m[0] == ep && m[1] == 2 && m[2] as int + 0x100 * (m[3] as int) == n + 10
      && m[4] == 8 && m[5] == 0
      && m[6] as int + 0x100 * (m[7] as int) == id && m[8..8 + n] == data && m[8 + n..] == [2, 6, 0, 0, 0, 0, 0, 0]
  {
    var m, n := EventMessage(ep, id, data), |data|;
    assert Lookahead() == [2, 6, 0, 0, 0, 0, 0, 0];
    assert m[..8] == [ep, 2] + Le16(n + 2 + 8) + [8, 0] + Le16(id);
    assert m == m[..8] + data + Lookahead();
  }

  lemma AckFields(ep: byte)
    ensures AckMessage(ep) == [0, 2, 12, 0, 12, 0, 1, 2, ep, 1, 2, 6, 0, 0, 0, 0, 0, 0]
  {
    assert Lookahead() == [2, 6, 0, 0, 0, 0, 0, 0];
  }

  lemma BssFields(kind: byte, apMac: seq<byte>, data: seq<byte>)
    requires |apMac| == 6 && |data| < 0x8000
    ensures
      var m, n := BssMessage(kind, apMac, data), |data|;
      && |m| == 24 + n && m[0] == 1 && m[1] == 0 && m[2] as int + 0x100 * (m[3] as int) == n + 18
      && m[4] == 0xFF && m[5] == 0xFF
      && m[6..14] == [0x04, 0x10, 0x85, 0x09, kind, 0x1B, 0xBC, 0xFF]
      && m[14..20] == apMac && m[20..24] == [0, 0, 0, 0] && m[24..] == data
  {
    var m, n := BssMessage(kind, apMac, data), |data|;
    var head: seq<byte> := [1, 0] + Le16(n + 2 + 16) + [0xFF, 0xFF];
    var body: seq<byte> := [0x04, 0x10, 0x85, 0x09, kind, 0x1B, 0xBC, 0xFF];
    assert Le16(0x1004) == [0x04, 0x10] && Le16(2437) == [0x85, 0x09] && Le16(0xFFBC) == [0xBC, 0xFF];
    assert Le32(0) == [0, 0, 0, 0];
    assert m == head + body + apMac + [0, 0, 0, 0] + data;
  }

  /** The frame stands in its message: addresses first, then the length counted from behind the type, the
      protocol header, the type, and the body. */
  lemma FrameFields(lan: seq<byte>, len: nat)
    requires |lan| == 2048 && 14 <= len <= 2048
    ensures
      var m := FrameMessage(lan, len);
      && |m| == 16 + len && m[0] == 2 && m[1] == 0 && m[2] as int + 0x100 * (m[3] as int) == len + 10
      && m[4] == 0 && m[5] == 0
      && m[6] == 0x80 && m[7] == 0 && m[8..20] == lan[..12] && 0x100 * (m[20] as int) + m[21] as int == len - 6
      && m[22..28] == [0xAA, 0xAA, 3, 0, 0, 0] && m[28..] == lan[12..len]
  {
    var m := FrameMessage(lan, len);
    var head: seq<byte> := [2, 0] + Le16Signed(16 + 8 + (len - 14)) + [0, 0] + [0x80, 0];
    var mid: seq<byte> := Swapped(Le16Signed((len - 14) + 8)) + [0xAA, 0xAA, 3, 0, 0, 0];
    assert Le16(0x80) == [0x80, 0] && Le16(0xAAAA) == [0xAA, 0xAA] && Le16(3) == [3, 0] && Le16(0) == [0, 0];
    assert lan[0..6] + lan[6..12] == lan[..12] && lan[12..14] + lan[14..len] == lan[12..len];
    assert m == head + lan[..12] + mid + lan[12..len];
  }

  /** The host can recover every frame that arrives. */
  lemma FrameRecovered(lan: seq<byte>, len: nat)
    requires |lan| == 2048 && 14 <= len <= 2048
    ensures
      var m := FrameMessage(lan, len);
      |m| >= 28 && m[8..20] + m[28..] == lan[..len]
  {
    hide FrameMessage;
    FrameFields(lan, len);
    assert lan[..12] + lan[12..len] == lan[..len];
  }

  /** The message of a received frame is well framed exactly when the frame holds a whole Ethernet header. */
  lemma FrameFramed(lan: seq<byte>, len: nat)
    requires |lan| == 2048 && 0 < len <= 2048
    ensures Framed(FrameMessage(lan, len)) <==> len >= 14
    ensures |FrameMessage(lan, len)| == if len >= 14 then 16 + len else 30
    ensures SizeOf(FrameMessage(lan, len)) == 16 + len
  {
    hide FrameBody;
    var m := FrameMessage(lan, len);
    assert m[2..4] == Le16(10 + len);
  }

  // ----- What mailbox 8 takes of a frame -----

  /** A queue of bytes after more were written to it, byte by byte: what does not fit is dropped. */
  function Taken(q: seq<byte>, m: seq<byte>, capacity: nat): seq<byte>
    requires |q| <= capacity
  {
    q + if |q| + |m| <= capacity then m else m[..capacity - |q|]
  }

  /** The queue is a row of messages, each as long as its header says. */
  predicate Whole(q: seq<byte>)
    decreases |q|
  {
    q == [] || (|q| >= 6 && SizeOf(q) <= |q| && Whole(q[SizeOf(q)..]))
  }

  /** Mailbox 8 has room for a frame and its header.  CheckRX asks only for 2048 bytes. */
  predicate FrameFits(q: seq<byte>, len: nat) {
    |q| + 16 + len <= 0x8000
  }

  lemma {:induction false} WholeAppend(q: seq<byte>, m: seq<byte>)
    requires Whole(q)
    ensures Whole(q + m) <==> Whole(m)
    decreases |q|
  {
    if q == [] {
      assert q + m == m;
    } else {
      var n := SizeOf(q);
      WholeAppend(q[n..], m);
      assert (q + m)[n..] == q[n..] + m;
    }
  }

  /** A frame arrives as one well-framed message exactly when it holds a whole Ethernet header and mailbox 8
      has room for it.  Otherwise mailbox 8 stops being a row of messages, with one exception: a frame of
      eight bytes happens to read as two messages, neither of them the frame. */
  lemma FrameArrivesIff(q: seq<byte>, lan: seq<byte>, len: nat)
    requires Whole(q) && |q| + 2048 <= 0x8000 && |lan| == 2048 && 0 < len <= 2048
    ensures
      var m := FrameMessage(lan, len);
      var after := Taken(q, m, 0x8000);
      && (after == q + m && Framed(m) <==> len >= 14 && FrameFits(q, len))
      && (Whole(after) <==> (len >= 14 && FrameFits(q, len)) || len == 8)
  {
    hide FrameMessage;
    var m := FrameMessage(lan, len);
    FrameFramed(lan, len);
    var part := if |q| + |m| <= 0x8000 then m else m[..0x8000 - |q|];
    WholeAppend(q, part);
    if len < 14 {
      ShortFrame(lan, len);
    } else {
      LongFrame(m, part, len);
    }
  }

  lemma LongFrame(m: seq<byte>, part: seq<byte>, len: nat)
    requires |m| >= 6 && |m| == SizeOf(m) && 6 <= |part| <= |m| && part == m[..|part|]
    ensures Whole(part) <==> |part| == |m|
  {
    assert part[2] == m[2] && part[3] == m[3];
    if |part| == |m| { assert part[SizeOf(part)..] == []; }
  }

  lemma ShortFrame(lan: seq<byte>, len: nat)
    requires |lan| == 2048 && 0 < len < 14
    ensures Whole(FrameMessage(lan, len)) <==> len == 8
  {
    hide FrameMessage;
    var m := FrameMessage(lan, len);
    FrameFramed(lan, len);
    ShortTail(lan, len);
    var tail := m[16 + len..];
    assert Whole(m) == Whole(tail);
    if 7 <= len <= 8 { assert Whole(tail) == Whole(tail[6..]); }
  }

  /** What is left after as many bytes as the header of a short frame's message counts. */
  lemma ShortTail(lan: seq<byte>, len: nat)
    requires |lan| == 2048 && 0 < len < 14
    ensures |FrameMessage(lan, len)| == 30
    ensures
      var tail := FrameMessage(lan, len)[16 + len..];
      && (len < 7 ==> SizeOf(tail) > |tail|)
      && (7 <= len <= 8 ==> SizeOf(tail) == 6)
  {
    var m := FrameMessage(lan, len);
    var head: seq<byte> := [2, 0] + Le16Signed(16 + 8 + (len - 14)) + [0, 0];
    assert m == head + FrameBody(lan, len);
    assert m[20] == 0xFF || len >= 6;
    assert m[22] == 0xAA && m[23] == 0xAA && m[24] == 3 && m[25] == 0 && m[26] == 0 && m[27] == 0;
  }

  /** A frame as long as the LAN buffer, into the least room that CheckRX accepts, loses its last 16 bytes. */
  lemma LongestFrameLosesItsTail(q: seq<byte>, lan: seq<byte>)
    requires Whole(q) && |q| + 2048 == 0x8000 && |lan| == 2048
    ensures
      var m := FrameMessage(lan, 2048);
      |m| == 2064 && Taken(q, m, 0x8000) == q + m[..2048] && !Whole(Taken(q, m, 0x8000))
  {
    FrameFramed(lan, 2048);
    FrameArrivesIff(q, lan, 2048);
  }

  // ----- What the mailboxes hold -----

  /** Mailbox 8 holds the waiting messages whole and in order; what the host has popped, then mailbox
      4, is the padded stream of the others. */
  ghost predicate Stream(sent: seq<Message>, moved: nat, popped: seq<byte>, q8: seq<byte>, q4: seq<byte>) {
    AllFramed(sent) && moved <= |sent| && q8 == Join(sent[moved..]) && popped + q4 == JoinPadded(sent[..moved])
  }

  /** A mailbox in step is a row of messages. */
  lemma {:induction false} JoinWhole(ms: seq<Message>)
    requires AllFramed(ms)
    ensures Whole(Join(ms))
  {
    if ms != [] {
      JoinWhole(ms[1..]);
      var m, q := ms[0], Join(ms);
      assert Framed(m) && q == m + Join(ms[1..]);
      assert q[2] == m[2] && q[3] == m[3] && q[|m|..] == Join(ms[1..]);
    }
  }

  lemma Enqueued(sent: seq<Message>, moved: nat, popped: seq<byte>, q8: seq<byte>, q4: seq<byte>, m: Message)
    requires Stream(sent, moved, popped, q8, q4) && Framed(m)
    ensures Stream(sent + [m], moved, popped, q8 + m, q4)
  {
    hide JoinPadded, Join;
    JoinSnoc(sent[moved..], m);
    assert (sent + [m])[moved..] == sent[moved..] + [m] && (sent + [m])[..moved] == sent[..moved];
  }

  lemma Popped(sent: seq<Message>, moved: nat, popped: seq<byte>, q8: seq<byte>, q4: seq<byte>)
    requires Stream(sent, moved, popped, q8, q4) && q4 != []
    ensures Stream(sent, moved, popped + [q4[0]], q8, q4[1..])
  {
    hide JoinPadded, Join;
    assert popped + [q4[0]] + q4[1..] == popped + q4;
  }

  /** A header in mailbox 8 is that of the next waiting message, and all of it is there. */
  lemma NextWaiting(sent: seq<Message>, moved: nat, popped: seq<byte>, q8: seq<byte>, q4: seq<byte>)
    requires Stream(sent, moved, popped, q8, q4)
    ensures |q8| >= 6 <==> moved < |sent|
    ensures |q8| >= 6 ==> SizeOf(q8) == |sent[moved]| <= |q8| && q8[..SizeOf(q8)] == sent[moved]
  {
    hide JoinPadded;
    if moved < |sent| {
      var m := sent[moved];
      assert Framed(m);
      assert q8[..|m|] == m && q8[2] == m[2] && q8[3] == m[3];
    }
  }

  lemma Moved(sent: seq<Message>, moved: nat, popped: seq<byte>, q8: seq<byte>, q4: seq<byte>)
    requires Stream(sent, moved, popped, q8, q4) && moved < |sent|
    ensures |sent[moved]| <= |q8|
    ensures Stream(sent, moved + 1, popped, q8[|sent[moved]|..], q4 + Padded(sent[moved]))
  {
    hide Padded, PadTo;
    var m := sent[moved];
    assert sent[moved..][1..] == sent[moved + 1..] && sent[moved..][0] == m;
    assert sent[..moved + 1][..moved] == sent[..moved];
    assert popped + (q4 + Padded(m)) == popped + q4 + Padded(m);
  }

  /** A packet as the host network hands it over: what the LAN buffer holds then, and the size received. */
  datatype Arrival = Arrival(lan: seq<byte>, len: nat)

  predicate Sound(a: Arrival) {
    |a.lan| == 2048 && 0 < a.len <= 2048
  }

  /** The addresses at which the host reads mailbox 4. */
  predicate AtMailbox4(addr: nat) {
    addr < 0x100 || 0x800 <= addr < 0x1000 || 0x2800 <= addr
  }

  /** Packets for another station, and our own, are skipped. */
  predicate Wanted(a: Arrival, mac: seq<byte>)
    requires Sound(a)
  {
    (a.lan[0..6] == [0xFF, 0xFF, 0xFF, 0xFF, 0xFF, 0xFF] || a.lan[0..6] == mac) && a.lan[6..12] != mac
  }

  /** The index of the first wanted packet, or their number. */
  function FirstWanted(net: seq<Arrival>, mac: seq<byte>): (k: nat)
    requires forall i :: 0 <= i < |net| ==> Sound(net[i])
    ensures k <= |net| && (k < |net| ==> Wanted(net[k], mac))
    ensures forall i :: 0 <= i < k ==> !Wanted(net[i], mac)
  {
    if net == [] || Wanted(net[0], mac) then 0 else 1 + FirstWanted(net[1..], mac)
  }

  method Append(q: Fifo<byte>, s: seq<byte>)
    requires q.Valid()
    modifies q, q.entries
    ensures q.Valid() && q.Contents() == Taken(old(q.Contents()), s, q.entries.Length)
  {
    hide Window, Wrap;
    var i := 0;
    assert s[..0] == [];
    while i < |s|
      invariant 0 <= i <= |s| && q.Valid()
      invariant q.Contents() == Taken(old(q.Contents()), s[..i], q.entries.Length)
    {
      q.Write(s[i]);
      i := i + 1;
      assert s[..i] == s[..i - 1] + [s[i - 1]];
    }
    assert s[..|s|] == s;
  }

  function Least(a: nat, b: nat): nat {
    if a < b then a else b
  }

  /** n reads of one mailbox, each written to the other.  What the first holds is moved; if it runs empty,
      the rest is old cells. */
  method Pump(src: Fifo<byte>, dst: Fifo<byte>, n: nat)
    requires src.Valid() && dst.Valid() && src != dst && src.entries != dst.entries
    requires |dst.Contents()| + n <= dst.entries.Length
    modifies src, dst, dst.entries
    ensures src.Valid() && dst.Valid() && |dst.Contents()| == |old(dst.Contents())| + n
    ensures
      var k := Least(n, |old(src.Contents())|);
      && src.Contents() == old(src.Contents())[k..]
      && dst.Contents()[..|old(dst.Contents())| + k] == old(dst.Contents()) + old(src.Contents())[..k]
  {
    hide Window, Wrap;
    ghost var s, d := src.Contents(), dst.Contents();
    var i := 0;
    while i < n
      invariant 0 <= i <= n && src.Valid() && dst.Valid() && |dst.Contents()| == |d| + i
      invariant src.Contents() == s[Least(i, |s|)..]
      invariant dst.Contents()[..|d| + Least(i, |s|)] == d + s[..Least(i, |s|)]
    {
      ghost var was := dst.Contents();
      var v := src.ReadDynamic();
      dst.Write(v);
      i := i + 1;
      if i <= |s| {
        assert s[..i] == s[..i - 1] + [s[i - 1]];
        assert dst.Contents()[..|d| + i] == was[..|d| + i - 1] + [v];
      } else {
        assert dst.Contents()[..|d| + |s|] == was[..|d| + |s|];
      }
    }
  }

  class Wifi {
    const rx: Fifo<byte>        // mailbox 8
    const mailbox4: Fifo<byte>
    const mac: seq<byte>
    const apMac: seq<byte>
    var sendBssInfo: bool
    var dataReady: bool         // bit 0 of F1_IRQStatus

    ghost var sent: seq<Message>     // every message that was accepted
    ghost var moved: nat             // how many of them have left mailbox 8
    ghost var popped: seq<byte>      // every byte the host took from mailbox 4
    ghost var lost: bool             // a frame has put mailbox 8 out of step

    ghost predicate Shape()
      reads this, rx, mailbox4
    {
      && rx != mailbox4 && rx.entries != mailbox4.entries && rx.Valid() && mailbox4.Valid()
      && rx.entries.Length == 0x8000 && mailbox4.entries.Length == 0x600 && |mac| == 6 && |apMac| == 6
    }

    /** The mailboxes hold the accepted messages. */
    ghost predicate Following()
      requires Shape()
      reads this, rx, rx.entries, mailbox4, mailbox4.entries
    {
      && Stream(sent, moved, popped, rx.Contents(), mailbox4.Contents())
      && moved <= |sent| && forall i :: 0 <= i < moved ==> Fits(sent[i])
    }

    ghost predicate InStep()
      reads this, rx, rx.entries, mailbox4, mailbox4.entries
    {
      Shape() && (!lost ==> Following())
    }

    ghost predicate Valid()
      reads this, rx, rx.entries, mailbox4, mailbox4.entries
    {
      InStep() && (dataReady <==> mailbox4.Contents() != [])
    }

    /** No waiting message could move. */
    ghost predicate Drained()
      reads this, mailbox4
    {
      moved >= |sent| || mailbox4.Level() + PadTo(|sent[moved]|) > 0x600
    }

    constructor (mac: seq<byte>, apMac: seq<byte>)
      requires |mac| == 6 && |apMac| == 6
      ensures Valid() && !lost && sent == [] && moved == 0 && popped == []
    {
      this.mac, this.apMac := mac, apMac;
      rx := new Fifo<byte>(0x8000);
      mailbox4 := new Fifo<byte>(0x600);
      sendBssInfo, dataReady := false, false;
      sent, moved, popped, lost := [], 0, [], false;
    }

    /** The loop body of DrainRXBuffer: one message, padded. */
    method MoveMessage(size: nat)
      requires InStep() && size >= 6 && rx.Level() >= 6 && mailbox4.Level() + PadTo(size) <= 0x600
      requires !lost ==> moved < |sent| && size == |sent[moved]|
      modifies this`moved, rx, mailbox4, mailbox4.entries
      ensures InStep() && rx.Level() < old(rx.Level())
      ensures !lost ==> moved == old(moved) + 1
    {
      hide Window, Wrap, Stream, PadTo, Padded, SizeOf;
      if !lost {
        Moved(sent, moved, popped, rx.Contents(), mailbox4.Contents());
        NextWaiting(sent, moved, popped, rx.Contents(), mailbox4.Contents());
      }
      ghost var q8, q4 := rx.Contents(), mailbox4.Contents();
      Pump(rx, mailbox4, size);
      ghost var q4' := mailbox4.Contents();
      assert q4'[..|q4'|] == q4';
      Append(mailbox4, Zeros(PadTo(size) - size));
      if !lost {
        var m := sent[moved];
        assert q8[..size] == m;
        PaddedIs(m);
        assert mailbox4.Contents() == q4 + Padded(m);
        moved := moved + 1;
      }
    }

    /** Moves waiting messages while the next one fits.  If mailbox 4 is empty at least one moves,
        unless it is too long ever to fit. */
    method DrainRXBuffer()
      requires InStep()
      modifies this`moved, this`dataReady, rx, mailbox4, mailbox4.entries
      ensures Valid() && (!lost ==> Drained() && moved >= old(moved))
      ensures !lost && old(moved) < |sent| && old(mailbox4.Level()) + PadTo(|sent[old(moved)]|) <= 0x600 ==>
        moved > old(moved)
    {
      hide Window, Wrap, Stream, PadTo, Padded, Join, JoinPadded;
      while rx.Level() >= 6
        invariant InStep() && (!lost ==> moved >= old(moved))
        invariant !lost && moved == old(moved) ==> mailbox4.Level() == old(mailbox4.Level())
        decreases rx.Level()
      {
        if !lost { NextWaiting(sent, moved, popped, rx.Contents(), mailbox4.Contents()); }
        var lo: nat := rx.Peek(2);
        var hi: nat := rx.Peek(3);
        var total := 6 + lo + 0x100 * hi;
        if !mailbox4.CanFit(PadTo(total)) { break; }
        MoveMessage(total);
      }
      if !lost { NextWaiting(sent, moved, popped, rx.Contents(), mailbox4.Contents()); }
      dataReady := mailbox4.Level() != 0;
    }

    /** Accepts a message if mailbox 8 has room for it. */
    method Send(m: Message) returns (ok: bool)
      requires Valid() && Framed(m)
      modifies this`sent, this`moved, this`dataReady, rx, rx.entries, mailbox4, mailbox4.entries
      ensures Valid() && (ok && !lost ==> Drained())
      ensures ok <==> old(rx.Level()) + |m| <= 0x8000
      ensures sent == if ok then old(sent) + [m] else old(sent)
    {
      hide Window, Wrap, Stream, PadTo, SizeOf;
      if !rx.CanFit(|m|) { return false; }
      if !lost { Enqueued(sent, moved, popped, rx.Contents(), mailbox4.Contents(), m); }
      Append(rx, m);
      sent := sent + [m];
      DrainRXBuffer();
      return true;
    }

    /** The frame that CheckRX has chosen, written to mailbox 8 without asking for its room.  If it arrives it
        is one more accepted message; otherwise mailbox 8 is out of step from now on. */
    method TakeFrame(lan: seq<byte>, len: nat)
      requires Valid() && rx.CanFit(2048) && |lan| == 2048 && 0 < len <= 2048
      modifies this`sent, this`lost, this`moved, this`dataReady, rx, rx.entries, mailbox4, mailbox4.entries
      ensures Valid() && (!lost ==> Drained())
      ensures
        var arrives := len >= 14 && FrameFits(old(rx.Contents()), len);
        && sent == (if arrives then old(sent) + [FrameMessage(lan, len)] else old(sent))
        && (lost <==> old(lost) || !arrives)
    {
      hide Window, Wrap, Stream, PadTo, SizeOf, Framed, FrameMessage;
      FrameFramed(lan, len);
      var m := FrameMessage(lan, len);
      if len >= 14 && rx.Level() + 16 + len <= 0x8000 {
        if !lost { Enqueued(sent, moved, popped, rx.Contents(), mailbox4.Contents(), m); }
        sent := sent + [m];
      } else {
        lost := true;
      }
      Append(rx, m);
      DrainRXBuffer();
    }

    method SendWMIEvent(ep: byte, id: nat, data: seq<byte>)
      requires Valid()
      modifies this`sent, this`moved, this`dataReady, rx, rx.entries, mailbox4, mailbox4.entries
      ensures Valid()
      ensures sent == if |old(rx.Contents())| + 6 + |data| + 2 + 8 <= 0x8000
        then old(sent) + [EventMessage(ep, id, data)] else old(sent)
    {
      hide Window, Wrap, Stream, Framed, EventMessage;
      if !rx.CanFit(6 + |data| + 2 + 8) { return; }
      EventFramed(ep, id, data);
      var ok := Send(EventMessage(ep, id, data));
    }

    method SendWMIAck(ep: byte)
      requires Valid()
      modifies this`sent, this`moved, this`dataReady, rx, rx.entries, mailbox4, mailbox4.entries
      ensures Valid()
      ensures sent == if |old(rx.Contents())| + 6 + 12 <= 0x8000 then old(sent) + [AckMessage(ep)] else old(sent)
    {
      hide Window, Wrap, Stream, Framed, AckMessage;
      if !rx.CanFit(6 + 12) { return; }
      AckFramed(ep);
      var ok := Send(AckMessage(ep));
    }

    method SendWMIBSSInfo(kind: byte, data: seq<byte>)
      requires Valid()
      modifies this`sent, this`moved, this`dataReady, rx, rx.entries, mailbox4, mailbox4.entries
      ensures Valid()
      ensures sent == if sendBssInfo && |old(rx.Contents())| + 6 + |data| + 2 + 16 <= 0x8000
        then old(sent) + [BssMessage(kind, apMac, data)] else old(sent)
    {
      hide Window, Wrap, Stream, Framed, BssMessage;
      if !sendBssInfo { return; }
      if !rx.CanFit(6 + |data| + 2 + 16) { return; }
      BssFramed(kind, apMac, data);
      var ok := Send(BssMessage(kind, apMac, data));
    }

    /** Takes packets from the network up to and including the first wanted one, if mailbox 8 has 2048 bytes of
        room.  Mailbox 8 stays in step exactly if that one holds a whole Ethernet header and fits. */
    method CheckRX(net: seq<Arrival>) returns (rest: seq<Arrival>)
      requires Valid() && forall i :: 0 <= i < |net| ==> Sound(net[i])
      modifies this`sent, this`lost, this`moved, this`dataReady, rx, rx.entries, mailbox4, mailbox4.entries
      ensures Valid()
      ensures
        var k := FirstWanted(net, mac);
        if old(rx.Level()) + 2048 > 0x8000 then sent == old(sent) && lost == old(lost) && rest == net
        else if k == |net| then sent == old(sent) && lost == old(lost) && rest == []
        else
          var arrives := net[k].len >= 14 && FrameFits(old(rx.Contents()), net[k].len);
          && sent == (if arrives then old(sent) + [FrameMessage(net[k].lan, net[k].len)] else old(sent))
          && (lost <==> old(lost) || !arrives) && rest == net[k + 1..]
    {
      hide Window, Wrap, Stream, Framed, FrameMessage, FirstWanted, Wanted;
      if !rx.CanFit(2048) { return net; }
      var i := 0;
      while i < |net|
        invariant Valid() && sent == old(sent) && lost == old(lost) && rx.CanFit(2048)
        invariant rx.Contents() == old(rx.Contents())
        invariant i <= |net| && forall j :: 0 <= j < i ==> !Wanted(net[j], mac)
      {
        if Wanted(net[i], mac) {
          TakeFrame(net[i].lan, net[i].len);
          return net[i + 1..];
        }
        i := i + 1;
      }
      rest := [];
    }

    /** A host read.  At one of mailbox 4's addresses it pops a byte, and at a last address it drains; four
        addresses look at the first bytes.  `other` is what the other mailboxes and registers hold, of which
        two bits tell of mailbox 4. */
    method F1Read(addr: nat, other: byte) returns (val: byte)
      requires Valid()
      modifies this`popped, this`moved, this`dataReady, rx, mailbox4, mailbox4.entries
      ensures Valid()
      ensures AtMailbox4(addr) ==>
        if old(mailbox4.Contents()) == [] then popped == old(popped)
        else val == old(mailbox4.Contents())[0] && popped == old(popped) + [val]
      ensures addr in {0xFF, 0xFFF, 0x3FFF} ==> (!lost ==> Drained())
      ensures addr !in {0xFF, 0xFFF, 0x3FFF} ==> moved == old(moved)
      ensures !AtMailbox4(addr) ==> popped == old(popped) && mailbox4.Contents() == old(mailbox4.Contents())
      ensures 0x408 <= addr < 0x40C && addr - 0x408 < mailbox4.Level() ==> val == mailbox4.Contents()[addr - 0x408]
      ensures addr == 0x400 ==> (val % 2 == 1 <==> dataReady)
      ensures addr == 0x405 ==> (val % 2 == 1 <==> mailbox4.Level() >= 4)
    {
      hide Window, Wrap, Stream, PadTo;
      if !AtMailbox4(addr) {
        if 0x408 <= addr < 0x40C {
          val := mailbox4.Peek(addr - 0x408);
        } else if addr == 0x400 || addr == 0x405 {
          var bit := if addr == 0x400 then dataReady else mailbox4.Level() >= 4;
          val := other / 2 * 2 + if bit then 1 else 0;
        } else {
          val := other;
        }
        return;
      }
      if mailbox4.Contents() != [] {
        if !lost { Popped(sent, moved, popped, rx.Contents(), mailbox4.Contents()); }
        popped := popped + [mailbox4.Contents()[0]];
      }
      val := mailbox4.ReadDynamic();
      if addr == 0xFF || addr == 0xFFF || addr == 0x3FFF { DrainRXBuffer(); }
      dataReady := mailbox4.Level() != 0;
    }

    /** A host that keeps reading a last address while data is ready gets, in order and intact, exactly the
        messages before the first that can never fit; that one and all after it stay in mailbox 8. */
    method ReadOut(addr: nat)
      requires Valid() && !lost && (dataReady || Drained()) && addr in {0xFF, 0xFFF, 0x3FFF}
      modifies this`popped, this`moved, this`dataReady, rx, mailbox4, mailbox4.entries
      ensures Valid() && moved == FirstStuck(sent) && mailbox4.Contents() == []
      ensures Unframe(popped) == sent[..FirstStuck(sent)] && rx.Contents() == Join(sent[FirstStuck(sent)..])
    {
      hide Window, Wrap, Stream, PadTo, Unframe, Join, JoinPadded, FirstStuck;
      while dataReady
        invariant Valid() && (dataReady || Drained())
        decreases |JoinPadded(sent)| - |popped|
      {
        PoppedBound(sent, moved, popped, rx.Contents(), mailbox4.Contents());
        var val := F1Read(addr, 0);
        PoppedBound(sent, moved, popped, rx.Contents(), mailbox4.Contents());
      }
      AllOut(sent, moved, popped, rx.Contents(), mailbox4.Contents());
    }
  }

  lemma PaddedIs(m: Message)
    ensures |m| <= PadTo(|m|) && m + Zeros(PadTo(|m|) - |m|) == Padded(m)
  {
  }

  lemma {:induction false} JoinPaddedGrows(ms: seq<Message>, k: nat)
    requires k <= |ms|
    ensures |JoinPadded(ms[..k])| <= |JoinPadded(ms)|
    decreases |ms|
  {
    hide Padded;
    if k == |ms| {
      assert ms[..k] == ms;
    } else {
      JoinPaddedGrows(ms[..|ms| - 1], k);
      assert ms[..|ms| - 1][..k] == ms[..k];
    }
  }

  lemma PoppedBound(sent: seq<Message>, moved: nat, popped: seq<byte>, q8: seq<byte>, q4: seq<byte>)
    requires Stream(sent, moved, popped, q8, q4)
    ensures |popped| + |q4| <= |JoinPadded(sent)|
  {
    JoinPaddedGrows(sent, moved);
  }

  lemma AllOut(sent: seq<Message>, moved: nat, popped: seq<byte>, q8: seq<byte>, q4: seq<byte>)
    requires Stream(sent, moved, popped, q8, q4) && q4 == []
    requires (forall i :: 0 <= i < moved ==> Fits(sent[i])) && (moved >= |sent| || !Fits(sent[moved]))
    ensures moved == FirstStuck(sent) && q8 == Join(sent[moved..]) && Unframe(popped) == sent[..moved]
  {
    hide JoinPadded, Unframe, Fits, Join;
    assert popped + q4 == popped;
    UnframeJoined(sent[..moved]);
  }
}
