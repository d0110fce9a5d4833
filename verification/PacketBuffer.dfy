/**
 * Packets as bytes in a buffer: tagging and untagging in place, prepending headers, and
 * framing for the wire. Multi-byte fields lie in memory least significant byte first.
 */
module PacketBuffer {
  import opened Wrappers
  import opened MacTable
  import opened Interface
  import opened Ethernet

  const MAX_PACKET_BUFFER_SIZE := 2048
  const IF_NAME_SIZE := 16
  const ETH_HDR := 14
  const VLAN_HDR := 18
  const IP_PROTO := 0x0800

  // ----- frames as byte sequences

  function Le16(lo: Byte, hi: Byte): int {
    lo + 256 * hi
  }

  /** The ethertype field holds the 802.1Q marker 0x8100. */
  predicate HasTag(b: seq<Byte>) {
    |b| >= ETH_HDR && b[12] == 0x00 && b[13] == 0x81
  }

  /** A tag holds 3 + 1 bits of priority and, above them, 12 bits of VLAN id. */
  function VidOf(lo: Byte, hi: Byte): Vid {
    Le16(lo, hi) / 16
  }

  predicate WellFormed(b: seq<Byte>) {
    |b| >= if HasTag(b) then VLAN_HDR else ETH_HDR
  }

  function Decode(b: seq<Byte>): Frame
    requires WellFormed(b)
  {
    if HasTag(b)
    then Frame(b[..6], b[6..12], Some(VidOf(b[14], b[15])), Le16(b[16], b[17]), b[VLAN_HDR..])
    else Frame(b[..6], b[6..12], None, Le16(b[12], b[13]), b[ETH_HDR..])
  }

  /** The two bytes of a tag whose low four bits are those of `lo` and whose VLAN id is `v`'s. */
  function TagBytes(lo: Byte, v: Vlan): seq<Byte> {
    [lo % 16 + 16 * (v % 16), (v % 4096) / 16]
  }

  /** A frame with its tag's VLAN id replaced, or with a tag inserted behind the two MACs. */
  function TaggedBytes(b: seq<Byte>, v: Vlan): seq<Byte>
    requires WellFormed(b)
  {
    if HasTag(b) then b[..14] + TagBytes(b[14], v) + b[16..]
    else b[..12] + [0x00, 0x81] + TagBytes(b[10], v) + b[12..]
  }

  function UntaggedBytes(b: seq<Byte>): seq<Byte>
    requires WellFormed(b)
  {
    if HasTag(b) then b[..12] + b[16..] else b
  }

  // ----- what the byte functions mean

  lemma VidRoundTrip(lo: Byte, v: Vlan)
    ensures var t := TagBytes(lo, v);
      VidOf(t[0], t[1]) == v % 4096 && t[0] % 16 == lo % 16
  {
    var w := v % 4096;
    assert v % 16 == w % 16;
    assert Le16(lo % 16 + 16 * (w % 16), w / 16) == lo % 16 + 16 * w;
  }

  /** Tagging changes the tag of the frame and nothing else. */
  lemma TaggedBytesDecode(b: seq<Byte>, v: Vlan)
    requires WellFormed(b)
    ensures WellFormed(TaggedBytes(b, v)) && HasTag(TaggedBytes(b, v))
    ensures Decode(TaggedBytes(b, v)) == Tagged(Decode(b), v)
    ensures |TaggedBytes(b, v)| == |b| + if HasTag(b) then 0 else 4
    ensures TaggedBytes(b, v)[14] % 16 == (if HasTag(b) then b[14] else b[10]) % 16
  {
    VidRoundTrip(if HasTag(b) then b[14] else b[10], v);
    var t := TaggedBytes(b, v);
    assert t[..6] == b[..6] && t[6..12] == b[6..12];
    assert t[VLAN_HDR..] == if HasTag(b) then b[VLAN_HDR..] else b[ETH_HDR..];
  }

  /** Untagging removes the tag, unless what follows it is itself a tag. */
  lemma UntaggedBytesDecode(b: seq<Byte>)
    requires WellFormed(b) && HasTag(b) && Decode(b).etype != 0x8100
    ensures WellFormed(UntaggedBytes(b)) && Decode(UntaggedBytes(b)) == Untagged(Decode(b))
  {
    var t := UntaggedBytes(b);
    assert t[..6] == b[..6] && t[6..12] == b[6..12] && t[ETH_HDR..] == b[VLAN_HDR..];
  }

  /** Untagging undoes tagging, byte for byte. */
  lemma UntagAfterTag(b: seq<Byte>, v: Vlan)
    requires WellFormed(b) && !HasTag(b)
    ensures WellFormed(TaggedBytes(b, v)) && UntaggedBytes(TaggedBytes(b, v)) == b
  {
    TaggedBytesDecode(b, v);
    var t := TaggedBytes(b, v);
    assert t[..12] == b[..12] && t[16..] == b[12..];
  }

  /** What is in front of the two tag bytes of a tagged frame, or will be, and what is behind. */
  function Front(b: seq<Byte>): seq<Byte>
    requires WellFormed(b)
  {
    if HasTag(b) then b[..14] else b[..12] + [0x00, 0x81]
  }

  function Back(b: seq<Byte>): seq<Byte>
    requires WellFormed(b)
  {
    if HasTag(b) then b[16..] else b[12..]
  }

  function LowByte(b: seq<Byte>): Byte
    requires WellFormed(b)
  {
    if HasTag(b) then b[14] else b[10]
  }

  lemma TaggedParts(b: seq<Byte>, v: Vlan)
    requires WellFormed(b)
    ensures TaggedBytes(b, v) == Front(b) + TagBytes(LowByte(b), v) + Back(b)
    ensures WellFormed(TaggedBytes(b, v)) && HasTag(TaggedBytes(b, v))
    ensures Front(TaggedBytes(b, v)) == Front(b) && Back(TaggedBytes(b, v)) == Back(b)
    ensures LowByte(TaggedBytes(b, v)) == TagBytes(LowByte(b), v)[0]
  {
  }

  /** Of two taggings the last one counts. */
  lemma RetagOverwrites(b: seq<Byte>, v: Vlan, w: Vlan)
    requires WellFormed(b)
    ensures WellFormed(TaggedBytes(b, v)) && TaggedBytes(TaggedBytes(b, v), w) == TaggedBytes(b, w)
  {
    TaggedParts(b, v);
    TaggedParts(TaggedBytes(b, v), w);
    TaggedParts(b, w);
    VidRoundTrip(LowByte(b), v);
  }

  // ----- in place

  /** `s` with the bytes from `at` on overwritten. */
  function Splice(s: seq<Byte>, at: nat, bytes: seq<Byte>): (r: seq<Byte>)
    requires at + |bytes| <= |s|
    ensures |r| == |s|
    decreases |bytes|
  {
    if bytes == [] then s else Splice(s[at := bytes[0]], at + 1, bytes[1..])
  }

  function Zeros(n: nat): (z: seq<Byte>)
    ensures |z| == n
  {
    if n == 0 then [] else [0] + Zeros(n - 1)
  }

  lemma ZerosAt(n: nat, i: nat)
    requires i < n
    ensures Zeros(n)[i] == 0
  {
    if i == 0 {
    } else {
      ZerosAt(n - 1, i - 1);
    }
  }

  lemma Middle(front: seq<Byte>, mid: seq<Byte>, back: seq<Byte>)
    ensures (front + mid + back)[|front|..|front| + |mid|] == mid
    ensures (front + mid + back)[..|front|] == front && (front + mid + back)[|front| + |mid|..] == back
  {
  }

  lemma SpliceAt(s: seq<Byte>, at: nat, bytes: seq<Byte>, i: nat)
    requires at + |bytes| <= |s| && i < |s|
    ensures Splice(s, at, bytes)[i] == if at <= i < at + |bytes| then bytes[i - at] else s[i]
    decreases |bytes|
  {
    if bytes != [] {
      SpliceAt(s[at := bytes[0]], at + 1, bytes[1..], i);
    }
  }

  lemma SpliceIs(s: seq<Byte>, at: nat, bytes: seq<Byte>)
    requires at + |bytes| <= |s|
    ensures Splice(s, at, bytes) == s[..at] + bytes + s[at + |bytes|..]
  {
    var r, rhs := Splice(s, at, bytes), s[..at] + bytes + s[at + |bytes|..];
    forall i | 0 <= i < |s| ensures r[i] == rhs[i] {
      SpliceAt(s, at, bytes, i);
    }
    assert r == rhs;
  }

  /** `memcpy` from saved bytes, and `memset`. */
  method Store(buf: array<Byte>, at: nat, bytes: seq<Byte>)
    requires at + |bytes| <= buf.Length
    modifies buf
    ensures buf[..] == Splice(old(buf[..]), at, bytes)
  {
    ghost var was := buf[..];
    forall i | at <= i < at + |bytes| {
      buf[i] := bytes[i - at];
    }
    forall i | 0 <= i < |was| ensures buf[..][i] == Splice(was, at, bytes)[i] {
      SpliceAt(was, at, bytes, i);
    }
  }

  ghost predicate InBuffer(buf: array<Byte>, off: nat, n: nat)
    reads buf
  {
    off + n <= buf.Length && WellFormed(buf[..][off..off + n])
  }

  /**
   * Tags the frame of `n` bytes at `off`. An untagged one moves its two MACs four bytes to
   * the front; the tag lands on the old source MAC, which was saved.
   */
  method TagInPlace(buf: array<Byte>, off: nat, n: nat, v: Vlan) returns (off': nat, n': nat)
    requires InBuffer(buf, off, n) && (!HasTag(buf[..][off..off + n]) ==> off >= 4)
    modifies buf
    ensures var was := old(buf[..]);
      var b := was[off..off + n];
      && off' == (if HasTag(b) then off else off - 4) && off' + n' == off + n
      && buf[..] == was[..off'] + TaggedBytes(b, v) + was[off + n..]
  {
    ghost var was := buf[..];
    var b := buf[..][off..off + n];
    if HasTag(b) {
      RetagSpliced(was, off, n, v);
      off', n' := off, n;
      Store(buf, off + 14, TagBytes(buf[off + 14], v));
      assert buf[..] == was[..off'] + TaggedBytes(b, v) + was[off + n..];
    } else {
      InsertSpliced(was, off - 4, b, v);
      off', n' := off - 4, n + 4;
      Store(buf, off' + 12, [0x00, 0x81]);
      Store(buf, off' + 14, TagBytes(buf[off' + 14], v));
      Store(buf, off' + 6, b[6..12]);
      Store(buf, off', b[..6]);
      Store(buf, off' + 16, [b[12], b[13]]);
      assert buf[..] == was[..off'] + TaggedBytes(b, v) + was[off + n..];
    }
  }

  function TaggedHeader(dst: Mac, src: Mac, lo: Byte, v: Vlan, t0: Byte, t1: Byte): seq<Byte> {
    dst + src + [0x00, 0x81] + TagBytes(lo, v) + [t0, t1]
  }

  lemma InsertedHeader(b: seq<Byte>, v: Vlan)
    requires WellFormed(b) && !HasTag(b)
    ensures TaggedBytes(b, v) == TaggedHeader(b[..6], b[6..12], b[10], v, b[12], b[13]) + b[ETH_HDR..]
  {
    assert b[..12] == b[..6] + b[6..12] && b[12..] == [b[12], b[13]] + b[ETH_HDR..];
  }

  lemma RetagSpliced(s: seq<Byte>, off: nat, n: nat, v: Vlan)
    requires off + n <= |s| && WellFormed(s[off..off + n]) && HasTag(s[off..off + n])
    ensures Splice(s, off + 14, TagBytes(s[off + 14], v)) ==
            s[..off] + TaggedBytes(s[off..off + n], v) + s[off + n..]
  {
    var b, tag := s[off..off + n], TagBytes(s[off + 14], v);
    SpliceIs(s, off + 14, tag);
    assert s[..off + 14] == s[..off] + b[..14] && s[off + 16..] == b[16..] + s[off + n..];
    assert TaggedBytes(b, v) == b[..14] + tag + b[16..];
  }

  lemma InsertSpliced(s: seq<Byte>, at: nat, b: seq<Byte>, v: Vlan)
    requires WellFormed(b) && !HasTag(b) && at + 4 + |b| <= |s| && s[at + 4..at + 4 + |b|] == b
    ensures var s1 := Splice(s, at + 12, [0x00, 0x81]);
      var s2 := Splice(s1, at + 14, TagBytes(s1[at + 14], v));
      var s3 := Splice(Splice(s2, at + 6, b[6..12]), at, b[..6]);
      Splice(s3, at + 16, [b[12], b[13]]) == s[..at] + TaggedBytes(b, v) + s[at + 4 + |b|..]
  {
    assert s[at + 14] == b[10];
    InsertedHeader(b, v);
    var tag := TagBytes(b[10], v);
    var s1 := Splice(s, at + 12, [0x00, 0x81]);
    SpliceAt(s, at + 12, [0x00, 0x81], at + 14);
    var s2 := Splice(s1, at + 14, tag);
    var s3 := Splice(s2, at + 6, b[6..12]);
    var s4 := Splice(s3, at, b[..6]);
    var r := Splice(s4, at + 16, [b[12], b[13]]);
    var header := TaggedHeader(b[..6], b[6..12], b[10], v, b[12], b[13]);
    var rhs := s[..at] + TaggedBytes(b, v) + s[at + 4 + |b|..];
    forall i | 0 <= i < |s| ensures r[i] == rhs[i] {
      SpliceAt(s, at + 12, [0x00, 0x81], i);
      SpliceAt(s1, at + 14, tag, i);
      SpliceAt(s2, at + 6, b[6..12], i);
      SpliceAt(s3, at, b[..6], i);
      SpliceAt(s4, at + 16, [b[12], b[13]], i);
      assert at + VLAN_HDR <= i < at + 4 + |b| ==> s[i] == b[i - at - 4];
    }
    assert r == rhs;
  }

  /**
   * Untags the frame at `off`. The reported size is the old one, four more than the frame
   * that is left has.
   */
  method UntagInPlace(buf: array<Byte>, off: nat, n: nat) returns (off': nat, n': nat)
    requires InBuffer(buf, off, n)
    modifies buf
    ensures var was := old(buf[..]);
      var b := was[off..off + n];
      && n' == n && off' == (if HasTag(b) then off + 4 else off)
      && buf[..] == was[..off] + (if HasTag(b) then Zeros(4) else []) + UntaggedBytes(b) + was[off + n..]
  {
    ghost var was := buf[..];
    var b := buf[..][off..off + n];
    n' := n;
    if HasTag(b) {
      RemoveSpliced(was, off, n, b);
      Store(buf, off + 6, Zeros(6));
      Store(buf, off, Zeros(6));
      Store(buf, off + 12, Zeros(4));
      off' := off + 4;
      Store(buf, off' + 6, b[6..12]);
      Store(buf, off', b[..6]);
      assert buf[..] == was[..off] + Zeros(4) + UntaggedBytes(b) + was[off + n..];
    } else {
      off' := off;
      InThree(was, off, n);
    }
  }

  lemma InThree(s: seq<Byte>, off: nat, n: nat)
    requires off + n <= |s|
    ensures s == s[..off] + [] + s[off..off + n] + s[off + n..]
  {
    assert s[..off] + [] == s[..off];
    assert s[..off] + s[off..off + n] == s[..off + n];
  }

  lemma RemoveSpliced(s: seq<Byte>, off: nat, n: nat, b: seq<Byte>)
    requires off + n <= |s| && b == s[off..off + n] && WellFormed(b) && HasTag(b)
    ensures var s1 := Splice(Splice(Splice(s, off + 6, Zeros(6)), off, Zeros(6)), off + 12, Zeros(4));
      Splice(Splice(s1, off + 4 + 6, b[6..12]), off + 4, b[..6]) ==
      s[..off] + Zeros(4) + UntaggedBytes(b) + s[off + n..]
  {
    var s1 := Splice(s, off + 6, Zeros(6));
    var s2 := Splice(s1, off, Zeros(6));
    var s3 := Splice(s2, off + 12, Zeros(4));
    var s4 := Splice(s3, off + 10, b[6..12]);
    var r := Splice(s4, off + 4, b[..6]);
    var rhs := s[..off] + Zeros(4) + UntaggedBytes(b) + s[off + n..];
    forall i | 0 <= i < |s| ensures r[i] == rhs[i] {
      SpliceAt(s, off + 6, Zeros(6), i);
      SpliceAt(s1, off, Zeros(6), i);
      SpliceAt(s2, off + 12, Zeros(4), i);
      SpliceAt(s3, off + 10, b[6..12], i);
      SpliceAt(s4, off + 4, b[..6], i);
      assert off + 16 <= i < off + n ==> s[i] == b[i - off];
      if off <= i < off + 4 {
        ZerosAt(6, i - off);
        ZerosAt(4, i - off);
      }
    }
    assert r == rhs;
  }

  /** With four bytes of headroom, tagging and then untagging leaves the frame where and as it was. */
  method TagThenUntag(buf: array<Byte>, off: nat, n: nat, v: Vlan) returns (back: nat, reported: nat)
    requires InBuffer(buf, off, n) && !HasTag(buf[..][off..off + n]) && off >= 4
    modifies buf
    ensures back == off && reported == n + 4
    ensures var was := old(buf[..]);
      buf[..] == was[..off - 4] + Zeros(4) + was[off..off + n] + was[off + n..]
  {
    ghost var was := buf[..];
    ghost var front, b, back' := was[..off - 4], was[off..off + n], was[off + n..];
    UntagAfterTag(b, v);
    TaggedBytesDecode(b, v);
    ghost var t := TaggedBytes(b, v);
    Middle(front, t, back');
    var o, m := TagInPlace(buf, off, n, v);
    assert o == |front| && m == |t| && buf[..] == front + t + back';
    assert buf[..][o..o + m] == t && buf[..][..o] == front && buf[..][o + m..] == back';
    back, reported := UntagInPlace(buf, o, m);
  }

  // ----- headers and the wire

  /** Moves a packet to the end of its buffer; the halves of the buffer must not overlap. */
  method ShiftRight(buf: array<Byte>, off: nat, size: nat, total: nat) returns (off': nat)
    requires 2 * size <= total && off + total <= buf.Length
    modifies buf
    ensures off' == off + total - size
    ensures var was := old(buf[..]);
      buf[..] == was[..off] + Zeros(total - size) + was[off..off + size] + was[off + total..]
  {
    ShiftSpliced(buf[..], off, size, total);
    var empty := total - size;
    off' := off + empty;
    Store(buf, off', buf[..][off..off + size]);
    Store(buf, off, Zeros(empty));
  }

  lemma ShiftSpliced(s: seq<Byte>, off: nat, size: nat, total: nat)
    requires 2 * size <= total && off + total <= |s|
    ensures Splice(Splice(s, off + (total - size), s[off..off + size]), off, Zeros(total - size)) ==
            s[..off] + Zeros(total - size) + s[off..off + size] + s[off + total..]
  {
    var s1 := Splice(s, off + (total - size), s[off..off + size]);
    var r := Splice(s1, off, Zeros(total - size));
    var rhs := s[..off] + Zeros(total - size) + s[off..off + size] + s[off + total..];
    forall i | 0 <= i < |s| ensures r[i] == rhs[i] {
      SpliceAt(s, off + (total - size), s[off..off + size], i);
      SpliceAt(s1, off, Zeros(total - size), i);
    }
    assert r == rhs;
  }

  /** Clears room for an Ethernet header in front of a payload, and for its FCS behind it. */
  method AllocEthHeader(buf: array<Byte>, off: nat, size: nat) returns (off': nat)
    requires ETH_HDR <= off && off + size + 4 <= buf.Length
    modifies buf
    ensures off' == off - ETH_HDR
    ensures var was := old(buf[..]);
      buf[..] == was[..off'] + Zeros(ETH_HDR) + (was[off..off + size] + Zeros(4) + was[off + size + 4..])
  {
    ghost var was := buf[..];
    off' := off - ETH_HDR;
    Store(buf, off', Zeros(ETH_HDR));
    Store(buf, off + size, Zeros(4));
    AllocSpliced(was, off', off, size);
  }

  lemma AllocSpliced(s: seq<Byte>, at: nat, off: nat, size: nat)
    requires off == at + ETH_HDR && off + size + 4 <= |s|
    ensures Splice(Splice(s, at, Zeros(ETH_HDR)), off + size, Zeros(4)) ==
            s[..at] + Zeros(ETH_HDR) + (s[off..off + size] + Zeros(4) + s[off + size + 4..])
  {
    var s1 := Splice(s, at, Zeros(ETH_HDR));
    var r := Splice(s1, off + size, Zeros(4));
    var rhs := s[..at] + Zeros(ETH_HDR) + (s[off..off + size] + Zeros(4) + s[off + size + 4..]);
    forall i | 0 <= i < |s| ensures r[i] == rhs[i] {
      SpliceAt(s, at, Zeros(ETH_HDR), i);
      SpliceAt(s1, off + size, Zeros(4), i);
    }
    assert r == rhs;
  }

  /** A header with ethertype 0x0800. */
  function EthHeader(dst: Mac, src: Mac): seq<Byte> {
    dst + src + [0x00, 0x08]
  }

  const NO_MAC: Mac := [0, 0, 0, 0, 0, 0]

  /** `demote_pkt_to_layer2`: an Ethernet header in front of the IP packet at `off`, its MACs still zero. */
  method Demote(buf: array<Byte>, off: nat, size: nat) returns (eth: nat)
    requires ETH_HDR <= off && off + size + 4 <= buf.Length
    modifies buf
    ensures eth == off - ETH_HDR
    ensures var was := old(buf[..]);
      buf[..] == was[..eth] + EthHeader(NO_MAC, NO_MAC) + (was[off..off + size] + Zeros(4) + was[off + size + 4..])
  {
    ghost var was := buf[..];
    eth := AllocEthHeader(buf, off, size);
    ghost var rest := was[off..off + size] + Zeros(4) + was[off + size + 4..];
    Middle(was[..eth], Zeros(ETH_HDR), rest);
    Store(buf, eth + 12, [0x00, 0x08]);
    TypeSpliced(was[..eth], rest);
  }

  lemma TypeSpliced(front: seq<Byte>, rest: seq<Byte>)
    ensures Splice(front + Zeros(ETH_HDR) + rest, |front| + 12, [0x00, 0x08]) ==
            front + EthHeader(NO_MAC, NO_MAC) + rest
  {
    var s := front + Zeros(ETH_HDR) + rest;
    var r := Splice(s, |front| + 12, [0x00, 0x08]);
    var rhs := front + EthHeader(NO_MAC, NO_MAC) + rest;
    forall i | 0 <= i < |s| ensures r[i] == rhs[i] {
      SpliceAt(s, |front| + 12, [0x00, 0x08], i);
      if |front| <= i < |front| + 12 {
        ZerosAt(ETH_HDR, i - |front|);
      }
    }
    assert r == rhs;
  }

  /** The end of `l2_forward_ip_packet`, once the next hop has resolved: the MACs are filled in. */
  method FillMacs(buf: array<Byte>, eth: nat, dst: Mac, src: Mac)
    requires eth + ETH_HDR <= buf.Length
    modifies buf
    ensures var was := old(buf[..]);
      buf[..] == was[..eth] + (dst + src) + was[eth + 12..]
  {
    ghost var was := buf[..];
    Store(buf, eth, dst);
    Store(buf, eth + 6, src);
    MacsSpliced(was, eth, dst, src);
  }

  lemma MacsSpliced(s: seq<Byte>, eth: nat, dst: Mac, src: Mac)
    requires eth + ETH_HDR <= |s|
    ensures Splice(Splice(s, eth, dst), eth + 6, src) == s[..eth] + (dst + src) + s[eth + 12..]
  {
    var s1 := Splice(s, eth, dst);
    var r := Splice(s1, eth + 6, src);
    var rhs := s[..eth] + (dst + src) + s[eth + 12..];
    forall i | 0 <= i < |s| ensures r[i] == rhs[i] {
      SpliceAt(s, eth, dst, i);
      SpliceAt(s1, eth + 6, src, i);
    }
    assert r == rhs;
  }

  lemma MacsInHeader(front: seq<Byte>, rest: seq<Byte>, dst: Mac, src: Mac)
    ensures var s := front + EthHeader(NO_MAC, NO_MAC) + rest;
      s[..|front|] + (dst + src) + s[|front| + 12..] == front + EthHeader(dst, src) + rest
  {
    var s := front + EthHeader(NO_MAC, NO_MAC) + rest;
    assert s[..|front|] == front && s[|front| + 12..] == [0x00, 0x08] + rest;
  }

  lemma EthHeaderDecode(dst: Mac, src: Mac, ip: seq<Byte>)
    ensures var b := EthHeader(dst, src) + ip;
      WellFormed(b) && !HasTag(b) && Decode(b) == Frame(dst, src, None, IP_PROTO, ip)
  {
  }

  /** Both steps: the frame is the header and the IP packet, and the buffer around it is as it was. */
  method Encapsulate(buf: array<Byte>, off: nat, size: nat, dst: Mac, src: Mac) returns (pkt: seq<Byte>)
    requires ETH_HDR <= off && off + size + 4 <= buf.Length
    modifies buf
    ensures pkt == EthHeader(dst, src) + old(buf[..][off..off + size])
    ensures buf[..] == old(buf[..][..off - ETH_HDR]) + pkt + Zeros(4) + old(buf[..][off + size + 4..])
  {
    ghost var front, ip := buf[..][..off - ETH_HDR], buf[..][off..off + size];
    ghost var back := buf[..][off + size + 4..];
    MacsInHeader(front, ip + Zeros(4) + back, dst, src);
    FrameInside(front, EthHeader(dst, src), ip, Zeros(4), back);
    var eth := Demote(buf, off, size);
    FillMacs(buf, eth, dst, src);
    pkt := buf[..][eth..off + size];
  }

  lemma FrameInside(front: seq<Byte>, header: seq<Byte>, ip: seq<Byte>, fcs: seq<Byte>, back: seq<Byte>)
    ensures var s := front + header + (ip + fcs + back);
      s == front + (header + ip) + fcs + back && s[|front|..|front| + |header| + |ip|] == header + ip
  {
    var s := front + header + (ip + fcs + back);
    assert s == front + (header + ip) + fcs + back;
    Middle(front, header + ip, fcs + back);
    assert s == front + (header + ip) + (fcs + back);
  }

  /** What goes on the wire: the far end's interface name in 16 bytes, then the packet. */
  method FrameForWire(sendBuffer: array<Byte>, remote: Name, pkt: seq<Byte>) returns (wire: seq<Byte>)
    requires sendBuffer.Length == MAX_PACKET_BUFFER_SIZE
    requires |remote| < IF_NAME_SIZE && IF_NAME_SIZE + |pkt| <= MAX_PACKET_BUFFER_SIZE
    modifies sendBuffer
    ensures |wire| == 16 + |pkt| && CString(wire) == remote && wire[16..] == pkt
  {
    NamedSpliced(sendBuffer[..], remote, pkt);
    Store(sendBuffer, 0, Zeros(MAX_PACKET_BUFFER_SIZE));
    Store(sendBuffer, 0, remote);
    ghost var named := sendBuffer[..];
    SpliceIs(named, IF_NAME_SIZE, pkt);
    Store(sendBuffer, IF_NAME_SIZE, pkt);
    wire := sendBuffer[..][..IF_NAME_SIZE + |pkt|];
    assert wire == named[..IF_NAME_SIZE] + pkt;
  }

  /** A name with a zero behind it reads back as the name. */
  lemma Terminated(remote: Name, back: seq<Byte>)
    requires |back| > 0 && back[0] == 0
    ensures CString(remote + back) == remote
  {
    CStringAppend(remote, back);
    NoZero(remote);
  }

  /** The name area holds the name and a zero behind it, so it reads back as the name. */
  lemma NamedSpliced(s: seq<Byte>, remote: Name, rest: seq<Byte>)
    requires |s| == MAX_PACKET_BUFFER_SIZE && |remote| < IF_NAME_SIZE
    ensures var named := Splice(Splice(s, 0, Zeros(MAX_PACKET_BUFFER_SIZE)), 0, remote);
      CString(named[..IF_NAME_SIZE] + rest) == remote
  {
    var z := Zeros(MAX_PACKET_BUFFER_SIZE);
    var s1 := Splice(s, 0, z);
    var named := Splice(s1, 0, remote);
    SpliceAt(s, 0, z, |remote|);
    SpliceAt(s1, 0, remote, |remote|);
    SpliceIs(s1, 0, remote);
    ZerosAt(MAX_PACKET_BUFFER_SIZE, |remote|);
    var back := named[|remote|..IF_NAME_SIZE] + rest;
    assert back[0] == 0;
    assert named[..IF_NAME_SIZE] == remote + named[|remote|..IF_NAME_SIZE];
    assert named[..IF_NAME_SIZE] + rest == remote + back;
    Terminated(remote, back);
  }

  /**
   * One hop of an IP packet: it is copied into a buffer, shifted to its end, given an
   * Ethernet header, framed, and unframed at the receiver. Layer 3 there gets the same bytes.
   */
  method OneHop(ip: seq<Byte>, dst: Mac, src: Mac, remote: Name) returns (name: Name, payload: seq<Byte>, f: Frame)
    requires 2 * |ip| <= MAX_PACKET_BUFFER_SIZE && |remote| < IF_NAME_SIZE
    ensures name == remote && payload == ip && f == Frame(dst, src, None, IP_PROTO, ip)
  {
    var buf := new Byte[MAX_PACKET_BUFFER_SIZE + 4](_ => 0);
    SpliceIs(buf[..], 0, ip);
    Store(buf, 0, ip);
    assert buf[..][0..0 + |ip|] == ip;
    var off := ShiftRight(buf, 0, |ip|, MAX_PACKET_BUFFER_SIZE);
    Middle(Zeros(MAX_PACKET_BUFFER_SIZE - |ip|), ip, buf[..][MAX_PACKET_BUFFER_SIZE..]);
    assert buf[..][off..off + |ip|] == ip;
    var pkt := Encapsulate(buf, off, |ip|, dst, src);
    EthHeaderDecode(dst, src, ip);
    var sendBuffer := new Byte[MAX_PACKET_BUFFER_SIZE](_ => 0);
    var wire := FrameForWire(sendBuffer, remote, pkt);
    name := CString(wire);
    var received := wire[IF_NAME_SIZE..];
    f := Decode(received);
    payload := received[if HasTag(received) then VLAN_HDR else ETH_HDR..];
  }
}
