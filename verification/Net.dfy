/** Sending and receiving a UDP datagram in kernel/net.c: headers pushed in front of a payload and pulled off again.
    Headers follow section 3.1 of RFC 791 and RFC 768. */
module Net {
  import opened Basics
  import opened Checksum

  const MBUF_SIZE := 2048
  const ETHTYPE_IP := 0x0800
  const ETHTYPE_ARP := 0x0806
  const IPPROTO_UDP := 17
  const VHL := 0x45
  const TTL := 100

  type U16 = x: int | 0 <= x < 0x1_0000
  type U32 = x: int | 0 <= x < 0x1_0000_0000

  // ---------- numbers in network order ----------

  function Be16(x: U16): (r: seq<Byte>)
    ensures |r| == 2
  {
    [x / 256, x % 256]
  }

  function Be32(x: U32): (r: seq<Byte>)
    ensures |r| == 4
  {
    [x / 16777216, x / 65536 % 256, x / 256 % 256, x % 256]
  }

  function Le16(x: U16): (r: seq<Byte>)
    ensures |r| == 2
  {
    [x % 256, x / 256]
  }

  function Get16(b: seq<Byte>, at: nat): U16
    requires at + 2 <= |b|
  {
    var high: int, low: int := b[at], b[at + 1];
    256 * high + low
  }

  function Get32(b: seq<Byte>, at: nat): U32
    requires at + 4 <= |b|
  {
    var b3: int, b2: int, b1: int, b0: int := b[at], b[at + 1], b[at + 2], b[at + 3];
    16777216 * b3 + 65536 * b2 + 256 * b1 + b0
  }

  lemma Back16(x: U16)
    ensures Get16(Be16(x), 0) == x
  {
  }

  lemma Back32(x: U32)
    ensures Get32(Be32(x), 0) == x
  {
    var a: int := x / 256;
    var b := a / 256;
    assert x / 65536 == b && x / 16777216 == b / 256;
    assert x == 256 * a + x % 256 && a == 256 * b + a % 256 && b == 256 * (b / 256) + b % 256;
  }

  // ---------- headers ----------

  const LOCAL_MAC: seq<Byte> := [0x52, 0x54, 0x00, 0x12, 0x34, 0x56]
  const BROADCAST: seq<Byte> := [0xff, 0xff, 0xff, 0xff, 0xff, 0xff]

  function EthHeader(): (r: seq<Byte>)
    ensures |r| == 14
  {
    BROADCAST + LOCAL_MAC + Be16(ETHTYPE_IP)
  }

  /** The IP header with a given checksum field. */
  function IpWith(length: U16, src: U32, dst: U32, sum: U16): (r: seq<Byte>)
    ensures |r| == 20
  {
    [VHL, 0] + Be16(length) + [0, 0, 0, 0] + [TTL, IPPROTO_UDP] + Le16(sum) + Be32(src) + Be32(dst)
  }

  /** The IP header as sent: the checksum is of the header with that field 0. */
  function IpHeader(length: U16, src: U32, dst: U32): (r: seq<Byte>)
    ensures |r| == 20
  {
    IpWith(length, src, dst, ONES - Ones(Sum(IpWith(length, src, dst, 0))))
  }

  function UdpHeader(sport: U16, dport: U16, length: U16): (r: seq<Byte>)
    ensures |r| == 8
  {
    Be16(sport) + Be16(dport) + Be16(length) + [0, 0]
  }

  /** The frame on the wire. */
  function Frame(src: U32, dst: U32, sport: U16, dport: U16, payload: seq<Byte>): seq<Byte>
    requires |payload| + 28 < 0x1_0000
  {
    EthHeader() + (IpHeader(|payload| + 28, src, dst) + (UdpHeader(sport, dport, |payload| + 8) + payload))
  }

  // ---------- what a receiver makes of a frame ----------

  datatype Received = Dropped | Arp | Udp(payload: seq<Byte>, sip: U32, dport: U16, sport: U16)

  /** net_rx_udp: `len` is what the IP header says is left, in 16 bits */
  function RxUdp(u: seq<Byte>, len: U16, sip: U32): Received {
    if |u| < 8 || Get16(u, 4) != len then Dropped
    else
      var n := (len - 8) % 0x1_0000;
      if n > |u| - 8 then Dropped else Udp(u[8..8 + n], sip, Get16(u, 2), Get16(u, 0))
  }

  /** net_rx_ip */
  function RxIp(p: seq<Byte>, local: U32): Received {
    if |p| < 20 || p[0] != VHL || Ones(Sum(p[..20])) != ONES || Get16(p, 6) != 0 || Get32(p, 16) != local || p[9] != IPPROTO_UDP then Dropped
    else RxUdp(p[20..], (Get16(p, 2) - 20) % 0x1_0000, Get32(p, 12))
  }

  /** net_rx */
  function Rx(frame: seq<Byte>, local: U32): Received {
    if |frame| < 14 then Dropped
    else if Get16(frame, 12) == ETHTYPE_IP then RxIp(frame[14..], local)
    else if Get16(frame, 12) == ETHTYPE_ARP then Arp
    else Dropped
  }

  // ---------- the header checks itself ----------

  lemma Le16Sum(x: U16)
    ensures Sum(Le16(x)) == x
  {
  }

  /** The checksum field adds its value to the sum of the header. */
  lemma IpSum(length: U16, src: U32, dst: U32, sum: U16)
    ensures Sum(IpWith(length, src, dst, sum)) == Sum(IpWith(length, src, dst, 0)) + sum && Sum(IpWith(length, src, dst, 0)) > 0
  {
    hide Sum, Be16, Be32, Le16;
    var front := [VHL, 0] + Be16(length) + [0, 0, 0, 0] + [TTL, IPPROTO_UDP];
    var back := Be32(src) + Be32(dst);
    forall x: U16 ensures Sum(IpWith(length, src, dst, x)) == Sum(front) + x + Sum(back) {
      assert IpWith(length, src, dst, x) == front + (Le16(x) + back);
      SumJoin(front, Le16(x) + back);
      SumJoin(Le16(x), back);
      Le16Sum(x);
    }
    FrontSum(length);
  }

  lemma FrontSum(length: U16)
    ensures Sum([VHL, 0] + Be16(length) + [0, 0, 0, 0] + [TTL, IPPROTO_UDP]) > 0
  {
    var b: seq<Byte> := [VHL, 0] + Be16(length) + [0, 0, 0, 0] + [TTL, IPPROTO_UDP];
    assert b[0] == VHL;
  }

  lemma HeaderChecks(length: U16, src: U32, dst: U32)
    ensures Ones(Sum(IpHeader(length, src, dst))) == ONES
  {
    hide Sum, IpWith;
    var s := Sum(IpWith(length, src, dst, 0));
    IpSum(length, src, dst, ONES - Ones(s));
    Completes(s);
  }

  lemma IpFields(length: U16, src: U32, dst: U32)
    ensures var p := IpHeader(length, src, dst);
            && p[0] == VHL && p[9] == IPPROTO_UDP && Get16(p, 2) == length && Get16(p, 6) == 0 && Get32(p, 12) == src && Get32(p, 16) == dst
            && p[1] == 0 && Get16(p, 4) == 0 && p[8] == TTL
  {
    hide Sum, Ones;
    var sum := ONES - Ones(Sum(IpWith(length, src, dst, 0)));
    Back16(length);
    Back32(src);
    Back32(dst);
    var p := IpWith(length, src, dst, sum);
    assert p[2..4] == Be16(length) && p[12..16] == Be32(src) && p[16..20] == Be32(dst);
    Shift16(p, 2);
    Shift32(p, 12);
    Shift32(p, 16);
  }

  lemma Shift16(b: seq<Byte>, at: nat)
    requires at + 2 <= |b|
    ensures Get16(b, at) == Get16(b[at..at + 2], 0)
  {
  }

  lemma Shift32(b: seq<Byte>, at: nat)
    requires at + 4 <= |b|
    ensures Get32(b, at) == Get32(b[at..at + 4], 0)
  {
  }

  lemma Front16(a: seq<Byte>, b: seq<Byte>, at: nat)
    requires at + 2 <= |a|
    ensures Get16(a + b, at) == Get16(a, at)
  {
  }

  lemma Front32(a: seq<Byte>, b: seq<Byte>, at: nat)
    requires at + 4 <= |a|
    ensures Get32(a + b, at) == Get32(a, at)
  {
  }

  lemma UdpFields(sport: U16, dport: U16, length: U16)
    ensures var u := UdpHeader(sport, dport, length); Get16(u, 0) == sport && Get16(u, 2) == dport && Get16(u, 4) == length && Get16(u, 6) == 0
  {
    Back16(sport);
    Back16(dport);
    Back16(length);
    var u := UdpHeader(sport, dport, length);
    assert u[0..2] == Be16(sport) && u[2..4] == Be16(dport) && u[4..6] == Be16(length);
    Shift16(u, 0);
    Shift16(u, 2);
    Shift16(u, 4);
  }

  lemma UdpBack(sport: U16, dport: U16, payload: seq<Byte>, pad: seq<Byte>, sip: U32)
    requires |payload| + 28 < 0x1_0000
    ensures RxUdp(UdpHeader(sport, dport, |payload| + 8) + (payload + pad), |payload| + 8, sip) == Udp(payload, sip, dport, sport)
  {
    hide UdpHeader;
    var h := UdpHeader(sport, dport, |payload| + 8);
    var u := h + (payload + pad);
    UdpFields(sport, dport, |payload| + 8);
    Front16(h, payload + pad, 0);
    Front16(h, payload + pad, 2);
    Front16(h, payload + pad, 4);
    assert u[8..8 + |payload|] == payload;
  }

  lemma IpBack(src: U32, dst: U32, udp: seq<Byte>, length: U16)
    requires length >= 20
    ensures RxIp(IpHeader(length, src, dst) + udp, dst) == RxUdp(udp, length - 20, src)
  {
    hide IpHeader, Sum, RxUdp;
    var h := IpHeader(length, src, dst);
    var p := h + udp;
    HeaderChecks(length, src, dst);
    IpFields(length, src, dst);
    assert p[..20] == h && p[20..] == udp;
    Front16(h, udp, 2);
    Front16(h, udp, 6);
    Front32(h, udp, 12);
    Front32(h, udp, 16);
  }

  /** What is sent is what is received, whatever padding follows the frame. */
  lemma RoundTrip(src: U32, dst: U32, sport: U16, dport: U16, payload: seq<Byte>, pad: seq<Byte>)
    requires |payload| + 28 < 0x1_0000
    ensures Rx(Frame(src, dst, sport, dport, payload) + pad, dst) == Udp(payload, src, dport, sport)
  {
    hide IpHeader, UdpHeader, RxIp, RxUdp;
    var eth, ip, udp := EthHeader(), IpHeader(|payload| + 28, src, dst), UdpHeader(sport, dport, |payload| + 8);
    var f := Frame(src, dst, sport, dport, payload) + pad;
    var u := udp + (payload + pad);
    assert f == eth + (ip + u);
    EthFields();
    Front16(eth, ip + u, 12);
    assert f[14..] == ip + u;
    IpBack(src, dst, u, |payload| + 28);
    UdpBack(sport, dport, payload, pad, src);
  }

  lemma EthFields()
    ensures var e := EthHeader(); (forall i :: 0 <= i < 6 ==> e[i] == 0xff) && e[6..12] == LOCAL_MAC && Get16(e, 12) == ETHTYPE_IP
  {
  }

  // ---------- exactly which frames are delivered ----------

  /** On the wire: an IP packet with a header of five words whose checksum holds, not a fragment, UDP, for this host, with
      lengths that agree and a payload within the frame. */
  ghost predicate Accepts(frame: seq<Byte>, local: U32) {
    && |frame| >= 42 && Get16(frame, 12) == 0x0800
    && frame[14] == 0x45 && Ones(Sum(frame[14..34])) == 0xffff && Get16(frame, 20) == 0 && frame[23] == 17 && Get32(frame, 30) == local
    && Get16(frame, 38) == (Get16(frame, 16) - 20) % 65536 && (Get16(frame, 38) - 8) % 65536 <= |frame| - 42
  }

  lemma Tail16(b: seq<Byte>, n: nat, at: nat)
    requires n + at + 2 <= |b|
    ensures Get16(b[n..], at) == Get16(b, n + at)
  {
  }

  lemma Tail32(b: seq<Byte>, n: nat, at: nat)
    requires n + at + 4 <= |b|
    ensures Get32(b[n..], at) == Get32(b, n + at)
  {
  }

  /** Exactly these frames are delivered, with the payload and the addresses that are in them. */
  lemma Delivered(frame: seq<Byte>, local: U32)
    ensures Rx(frame, local) == Arp <==> |frame| >= 14 && Get16(frame, 12) == 0x0806
    ensures Rx(frame, local).Udp? <==> Accepts(frame, local)
    ensures Accepts(frame, local) ==>
      Rx(frame, local) == Udp(frame[42..42 + (Get16(frame, 38) - 8) % 65536], Get32(frame, 26), Get16(frame, 36), Get16(frame, 34))
  {
    hide Get16, Get32, Sum, Ones;
    if |frame| >= 34 {
      var p := frame[14..];
      assert p[..20] == frame[14..34] && p[20..] == frame[34..];
      Tail16(frame, 14, 2);
      Tail16(frame, 14, 6);
      Tail32(frame, 14, 12);
      Tail32(frame, 14, 16);
      if |frame| >= 42 {
        var u := frame[34..];
        assert u[8..] == frame[42..];
        Tail16(frame, 34, 0);
        Tail16(frame, 34, 2);
        Tail16(frame, 34, 4);
      }
    }
  }

  /** The frame byte by byte: broadcast, an IP header of five words that checks, the UDP header without a checksum, the
      payload, and anything after it. */
  ghost predicate Layout(f: seq<Byte>, src: U32, dst: U32, sport: U16, dport: U16, payload: seq<Byte>) {
    && |f| >= 42 + |payload| && (forall i :: 0 <= i < 6 ==> f[i] == 0xff) && f[6..12] == LOCAL_MAC && Get16(f, 12) == 0x0800
    && f[14] == 0x45 && f[15] == 0 && Get16(f, 16) == |payload| + 28 && Get16(f, 18) == 0 && Get16(f, 20) == 0 && f[22] == 100 && f[23] == 17
    && Ones(Sum(f[14..34])) == 0xffff && Get32(f, 26) == src && Get32(f, 30) == dst
    && Get16(f, 34) == sport && Get16(f, 36) == dport && Get16(f, 38) == |payload| + 8 && Get16(f, 40) == 0
    && f[42..42 + |payload|] == payload
  }

  lemma FrameLayout(src: U32, dst: U32, sport: U16, dport: U16, payload: seq<Byte>, pad: seq<Byte>)
    requires |payload| + 28 < 0x1_0000
    ensures Layout(Frame(src, dst, sport, dport, payload) + pad, src, dst, sport, dport, payload)
  {
    hide IpHeader, UdpHeader, EthHeader, Sum, Ones;
    var eth, ip, udp := EthHeader(), IpHeader(|payload| + 28, src, dst), UdpHeader(sport, dport, |payload| + 8);
    HeaderChecks(|payload| + 28, src, dst);
    IpFields(|payload| + 28, src, dst);
    UdpFields(sport, dport, |payload| + 8);
    EthFields();
    var f := Frame(src, dst, sport, dport, payload) + pad;
    assert f == eth + (ip + (udp + (payload + pad)));
    assert f[14..34] == ip && f[34..42] == udp && f[..14] == eth;
    assert forall i :: 0 <= i < 14 ==> f[i] == eth[i];
    assert forall i :: 0 <= i < 20 ==> f[14 + i] == ip[i];
    assert forall i :: 0 <= i < 8 ==> f[34 + i] == udp[i];
  }

  /** A frame for another host, or one cut short, is dropped. */
  lemma OthersDropped(src: U32, dst: U32, sport: U16, dport: U16, payload: seq<Byte>, pad: seq<Byte>, local: U32, n: nat)
    requires |payload| + 28 < 0x1_0000 && n < |payload| + 42
    ensures local != dst ==> Rx(Frame(src, dst, sport, dport, payload) + pad, local) == Dropped
    ensures n <= |Frame(src, dst, sport, dport, payload)| && Rx(Frame(src, dst, sport, dport, payload)[..n], local) == Dropped
  {
    hide Rx, Frame, Sum, Ones;
    var f := Frame(src, dst, sport, dport, payload);
    FrameLayout(src, dst, sport, dport, payload, pad);
    FrameLayout(src, dst, sport, dport, payload, []);
    assert f + [] == f;
    Delivered(f + pad, local);
    CutShort(f, src, dst, sport, dport, payload, local, n);
  }

  lemma CutShort(f: seq<Byte>, src: U32, dst: U32, sport: U16, dport: U16, payload: seq<Byte>, local: U32, n: nat)
    requires Layout(f, src, dst, sport, dport, payload) && n < |payload| + 42
    ensures Rx(f[..n], local) == Dropped
  {
    hide Rx, Sum, Ones;
    Delivered(f[..n], local);
  }

  /** The two bytes are swapped between all zeros and all ones, which a one's-complement sum does not tell apart. */
  predicate Swapped(low: Byte, high: Byte, low': Byte, high': Byte) {
    (low == high == 0 && low' == high' == 255) || (low == high == 255 && low' == high' == 0)
  }

  lemma ChecksumSees(h: seq<Byte>, i: nat, low: Byte, high: Byte)
    requires |h| == 20 && i < 10 && h[0] == VHL && Ones(Sum(h)) == ONES && [low, high] != [h[2 * i], h[2 * i + 1]]
    ensures Ones(Sum(h[2 * i := low][2 * i + 1 := high])) == ONES <==> Swapped(h[2 * i], h[2 * i + 1], low, high)
  {
    hide Ones;
    var h' := h[2 * i := low][2 * i + 1 := high];
    var was, now := WordOf(h[2 * i], h[2 * i + 1]), WordOf(low, high);
    SumWord(h, i, low, high);
    assert i > 0 ==> h'[0] == VHL;
    hide Sum;
    OneWordChanged(Sum(h), was, now);
  }

  /** One word of the header of a frame is changed on the way. It is delivered all the same exactly if the word was zeros and
      is ones or the reverse, and is the identification, the checksum or half of the source address; then only the source may
      have changed. */
  lemma OneWordDamaged(src: U32, dst: U32, sport: U16, dport: U16, payload: seq<Byte>, pad: seq<Byte>, i: nat, low: Byte, high: Byte)
    requires |payload| + 28 < 0x1_0000 && i < 10
    ensures var f := Frame(src, dst, sport, dport, payload) + pad;
            |f| >= 42 && ([low, high] != [f[14 + 2 * i], f[15 + 2 * i]] ==>
              var r := Rx(f[14 + 2 * i := low][15 + 2 * i := high], dst);
              if Swapped(f[14 + 2 * i], f[15 + 2 * i], low, high) && i in {2, 5, 6, 7}
              then r.Udp? && r.payload == payload && r.dport == dport && r.sport == sport && (i in {2, 5} ==> r.sip == src)
              else r == Dropped)
  {
    hide Rx, Frame, Sum, Ones;
    var f := Frame(src, dst, sport, dport, payload) + pad;
    FrameLayout(src, dst, sport, dport, payload, pad);
    if [low, high] != [f[14 + 2 * i], f[15 + 2 * i]] {
      if i in {2, 5, 6, 7} {
        Unchecked(f, src, dst, sport, dport, payload, i, low, high);
      } else {
        Checked(f, src, dst, sport, dport, payload, i, low, high);
      }
    }
  }

  lemma Checked(f: seq<Byte>, src: U32, dst: U32, sport: U16, dport: U16, payload: seq<Byte>, i: nat, low: Byte, high: Byte)
    requires Layout(f, src, dst, sport, dport, payload) && i < 10 && i !in {2, 5, 6, 7} && [low, high] != [f[14 + 2 * i], f[15 + 2 * i]]
    ensures Rx(f[14 + 2 * i := low][15 + 2 * i := high], dst) == Dropped
  {
    hide Rx, Sum, Ones;
    var f' := f[14 + 2 * i := low][15 + 2 * i := high];
    ChecksumSees(f[14..34], i, low, high);
    assert f'[14..34] == f[14..34][2 * i := low][2 * i + 1 := high];
    Delivered(f', dst);
  }

  lemma Unchecked(f: seq<Byte>, src: U32, dst: U32, sport: U16, dport: U16, payload: seq<Byte>, i: nat, low: Byte, high: Byte)
    requires Layout(f, src, dst, sport, dport, payload) && i in {2, 5, 6, 7} && [low, high] != [f[14 + 2 * i], f[15 + 2 * i]]
    ensures var r := Rx(f[14 + 2 * i := low][15 + 2 * i := high], dst);
            if Swapped(f[14 + 2 * i], f[15 + 2 * i], low, high)
            then r.Udp? && r.payload == payload && r.dport == dport && r.sport == sport && (i in {2, 5} ==> r.sip == src)
            else r == Dropped
  {
    hide Rx, Sum, Ones, Get16, Get32, Swapped;
    var f' := f[14 + 2 * i := low][15 + 2 * i := high];
    ChecksumSees(f[14..34], i, low, high);
    assert f'[14..34] == f[14..34][2 * i := low][2 * i + 1 := high];
    assert f'[42..42 + |payload|] == payload;
    SameGets(f, f', i);
    Delivered(f', dst);
  }

  lemma SameGets(f: seq<Byte>, f': seq<Byte>, i: nat)
    requires |f'| == |f| >= 42 && i in {2, 5, 6, 7} && forall k :: 0 <= k < |f| && k != 14 + 2 * i && k != 15 + 2 * i ==> f'[k] == f[k]
    ensures Get16(f', 12) == Get16(f, 12) && Get16(f', 16) == Get16(f, 16) && Get16(f', 20) == Get16(f, 20) && Get32(f', 30) == Get32(f, 30)
    ensures Get16(f', 34) == Get16(f, 34) && Get16(f', 36) == Get16(f, 36) && Get16(f', 38) == Get16(f, 38)
    ensures i in {2, 5} ==> Get32(f', 26) == Get32(f, 26)
  {
  }

  // ---------- packet buffers ----------

  /** A packet: the bytes from `head` on, in a buffer with room before and after them. */
  class Mbuf {
    const buf: array<Byte>
    var head: int
    var len: int

    ghost predicate Valid()
      reads this, buf
    {
      buf.Length == MBUF_SIZE && 0 <= head && 0 <= len && head + len <= MBUF_SIZE
    }

    ghost function Contents(): seq<Byte>
      reads this, buf
      requires Valid()
    {
      buf[head..head + len]
    }

    /** A received packet, or one about to get headers */
    constructor (headroom: nat, bytes: seq<Byte>)
      requires headroom + |bytes| <= MBUF_SIZE
      ensures Valid() && head == headroom && Contents() == bytes && fresh(buf)
    {
      buf := new Byte[MBUF_SIZE](i => if headroom <= i < headroom + |bytes| then bytes[i - headroom] else 0);
      head, len := headroom, |bytes|;
    }

    /** mbufpull: the place of the bytes stripped off the front, or -1 */
    method Pull(n: nat) returns (at: int)
      requires Valid()
      modifies this`head, this`len
      ensures Valid() && at == if n <= old(len) then old(head) else -1
      ensures Contents() == if n <= old(len) then old(Contents())[n..] else old(Contents())
      ensures at != -1 ==> buf[at..at + n] == old(Contents())[..n]
    {
      at := head;
      if len < n { return -1; }
      ghost var c := Contents();
      len := len - n;
      head := head + n;
      assert buf[at..at + n] == c[..n];
      assert buf[head..head + len] == c[n..];
    }

    /** mbufpush, which panics without the headroom, and the header written there */
    method Push(header: seq<Byte>)
      requires Valid() && |header| <= head
      modifies this`head, this`len, buf
      ensures Valid() && head == old(head) - |header| && Contents() == header + old(Contents())
    {
      ghost var was := Contents();
      head := head - |header|;
      len := len + |header|;
      forall i | 0 <= i < |header| { buf[head + i] := header[i]; }
      assert buf[head + |header|..head + len] == was;
    }

    /** mbuftrim */
    method Trim(n: int)
      requires Valid() && 0 <= n
      modifies this`len
      ensures Valid() && Contents() == if n <= |old(Contents())| then old(Contents())[..|old(Contents())| - n] else old(Contents())
    {
      if n > len { return; }
      len := len - n;
    }

    /** net_tx_udp, net_tx_ip and net_tx_eth, up to the driver: the buffer is the frame */
    method TxUdp(local: U32, dip: U32, sport: U16, dport: U16)
      requires Valid() && head >= 42
      modifies this`head, this`len, buf
      ensures Valid() && Contents() == Frame(local, dip, sport, dport, old(Contents()))
      ensures Layout(Contents(), local, dip, sport, dport, old(Contents()))
    {
      hide Frame, IpHeader, UdpHeader, EthHeader, Layout;
      ghost var payload := Contents();
      Push(UdpHeader(sport, dport, len + 8));
      TxIp(local, dip);
      FrameIs(local, dip, sport, dport, payload);
      FrameLayout(local, dip, sport, dport, payload, []);
      assert Contents() + [] == Contents();
    }

    static lemma FrameIs(src: U32, dst: U32, sport: U16, dport: U16, payload: seq<Byte>)
      requires |payload| + 28 < 0x1_0000
      ensures Frame(src, dst, sport, dport, payload) == EthHeader() + (IpHeader(|payload| + 28, src, dst) + (UdpHeader(sport, dport, |payload| + 8) + payload))
    {
    }

    method TxIp(local: U32, dip: U32)
      requires Valid() && head >= 34
      modifies this`head, this`len, buf
      ensures Valid() && Contents() == EthHeader() + (IpHeader(|old(Contents())| + 20, local, dip) + old(Contents()))
    {
      var blank := IpWith(len + 20, local, dip, 0);
      var sum := InCksum(blank);
      hide IpWith, Sum, EthHeader;
      Push(IpWith(len + 20, local, dip, sum));
      Push(EthHeader());
    }

    /** net_rx: what is handed to the socket layer */
    method NetRx(local: U32) returns (r: Received)
      requires Valid()
      modifies this`head, this`len
      ensures r == Rx(old(Contents()), local)
      ensures r.Udp? ==> Valid() && Contents() == r.payload
      // By the bytes of the frame:
      ensures r.Udp? <==> Accepts(old(Contents()), local)
      ensures r.Udp? ==> var c := old(Contents());
                         && r.payload == c[42..42 + (Get16(c, 38) - 8) % 65536]
                         && r.sip == Get32(c, 26) && r.dport == Get16(c, 36) && r.sport == Get16(c, 34)
    {
      hide RxIp, Get16, Get32, Accepts;
      Delivered(Contents(), local);
      if Accepts(Contents(), local) { BytesOf(Contents(), local); }
      var at := Pull(14);
      if at == -1 { return Dropped; }
      var header := buf[at..at + 14];
      Part16(old(Contents()), 14, 12);
      if Get16(header, 12) == ETHTYPE_IP {
        r := NetRxIp(local);
      } else if Get16(header, 12) == ETHTYPE_ARP {
        r := Arp;
      } else {
        r := Dropped;
      }
    }

    static lemma BytesOf(c: seq<Byte>, local: U32)
      requires Accepts(c, local)
      ensures |c| >= 42 && 42 + (Get16(c, 38) - 8) % 65536 <= |c|
    {
    }

    static lemma IpIs(p: seq<Byte>, local: U32)
      ensures RxIp(p, local) != Dropped ==>
        |p| >= 28 && p[0] == 0x45 && Ones(Sum(p[..20])) == 0xffff && Get16(p, 6) == 0 && p[9] == 17 && Get32(p, 16) == local
    {
      hide Sum, Ones, Get16, Get32;
    }

    static lemma UdpIs(u: seq<Byte>, length: U16, sip: U32)
      ensures RxUdp(u, length, sip) != Dropped <==> |u| >= 8 && Get16(u, 4) == length && (length - 8) % 65536 <= |u| - 8
      ensures RxUdp(u, length, sip) != Dropped ==> RxUdp(u, length, sip) == Udp(u[8..8 + (length - 8) % 65536], sip, Get16(u, 2), Get16(u, 0))
    {
      hide Get16;
    }

    static lemma Part16(b: seq<Byte>, n: int, at: nat)
      requires 0 <= n <= |b| && at + 2 <= n
      ensures Get16(b[..n], at) == Get16(b, at)
    {
    }

    static lemma Part32(b: seq<Byte>, n: int, at: nat)
      requires 0 <= n <= |b| && at + 4 <= n
      ensures Get32(b[..n], at) == Get32(b, at)
    {
    }

    method NetRxIp(local: U32) returns (r: Received)
      requires Valid()
      modifies this`head, this`len
      ensures r == RxIp(old(Contents()), local)
      ensures r.Udp? ==> Valid() && Contents() == r.payload
      // Everything the header has to be for the packet to go on:
      ensures var c := old(Contents());
              r != Dropped ==> |c| >= 28 && c[0] == 0x45 && Ones(Sum(c[..20])) == 0xffff && Get16(c, 6) == 0 && c[9] == 17 && Get32(c, 16) == local
    {
      hide RxUdp, Get16, Get32, Sum, Ones;
      ghost var p := Contents();
      IpIs(p, local);
      var at := Pull(20);
      if at == -1 { return Dropped; }
      var h := buf[at..at + 20];
      Part16(p, 20, 2);
      Part16(p, 20, 6);
      Part32(p, 20, 12);
      Part32(p, 20, 16);
      if h[0] != VHL { return Dropped; }
      var sum := InCksum(h);
      if sum != 0 { return Dropped; }
      if Get16(h, 6) != 0 { return Dropped; }
      if Get32(h, 16) != local { return Dropped; }
      if h[9] != IPPROTO_UDP { return Dropped; }
      r := NetRxUdp((Get16(h, 2) - 20) % 0x1_0000, Get32(h, 12));
    }

    method NetRxUdp(length: U16, sip: U32) returns (r: Received)
      requires Valid()
      modifies this`head, this`len
      ensures r == RxUdp(old(Contents()), length, sip)
      ensures r.Udp? ==> Valid() && Contents() == r.payload
      ensures var c := old(Contents());
              r != Dropped <==> |c| >= 8 && Get16(c, 4) == length && (length - 8) % 65536 <= |c| - 8
      ensures var c := old(Contents());
              r != Dropped ==> r == Udp(c[8..8 + (length - 8) % 65536], sip, Get16(c, 2), Get16(c, 0))
    {
      hide Get16;
      ghost var u := Contents();
      UdpIs(u, length, sip);
      var at := Pull(8);
      if at == -1 { return Dropped; }
      var h := buf[at..at + 8];
      Part16(u, 8, 0);
      Part16(u, 8, 2);
      Part16(u, 8, 4);
      if Get16(h, 4) != length { return Dropped; }
      var n := (length - 8) % 0x1_0000;
      if n > len { return Dropped; }
      Trim(len - n);
      var payload := buf[head..head + len];
      assert payload == u[8..][..n] == u[8..8 + n];
      r := Udp(payload, sip, Get16(h, 2), Get16(h, 0));
    }
  }

  /** A datagram sent through one buffer and received through another, with padding after it. */
  method Exchange(src: U32, dst: U32, sport: U16, dport: U16, payload: seq<Byte>, pad: seq<Byte>) returns (r: Received)
    requires 42 + |payload| + |pad| <= MBUF_SIZE
    ensures r == Udp(payload, src, dport, sport)
  {
    hide Frame, Rx;
    var out := new Mbuf(42, payload);
    out.TxUdp(src, dst, sport, dport);
    FrameLength(src, dst, sport, dport, payload);
    var frame := out.buf[out.head..out.head + out.len];
    RoundTrip(src, dst, sport, dport, payload, pad);
    var m := new Mbuf(0, frame + pad);
    r := m.NetRx(dst);
  }

  lemma FrameLength(src: U32, dst: U32, sport: U16, dport: U16, payload: seq<Byte>)
    requires |payload| + 28 < 0x1_0000
    ensures |Frame(src, dst, sport, dport, payload)| == |payload| + 42
  {
  }
}
