/** The Wake-on-LAN "magic packet" as the wake handler assembles it: a
    102-byte array whose first six bytes are 0xFF (the synchronisation stream)
    followed by sixteen copies of the six-byte hardware address, the layout of
    AMD's "Magic Packet Technology" white paper. Bytes are Java signed bytes,
    so 0xFF is written -1. */
module MagicPacket {
  import opened Results

  const PacketLength := 102
  const SyncLength := 6
  const MacLength := 6
  const Copies := 16
  /** 0xFF as a Java `byte`. */
  const SyncByte := -1

  /** `new byte[102]` (all zero) followed by the six stores of -1. */
  function SyncedBuffer(): (buf: seq<int>)
    ensures |buf| == PacketLength
    ensures forall i :: 0 <= i < SyncLength ==> buf[i] == SyncByte
  {
    seq(PacketLength, _ => 0)[0 := -1][1 := -1][2 := -1][3 := -1][4 := -1][5 := -1]
  }

  /** `System.arraycopy(src, srcPos, dest, destPos, length)` on immutable
      sequences: the result is `dest` with `length` elements of `src` written
      from `destPos` on; reading or writing past either end throws. */
  function ArrayCopy(src: seq<int>, srcPos: nat, dest: seq<int>, destPos: nat, length: nat): (r: Result<seq<int>>)
    ensures r.Ok? <==> srcPos + length <= |src| && destPos + length <= |dest|
    ensures r.Err? ==> r.error == IndexOutOfBounds
    ensures r.Ok? ==> |r.value| == |dest|
    ensures r.Ok? ==> forall i :: 0 <= i < |dest| && !(destPos <= i < destPos + length) ==> r.value[i] == dest[i]
    ensures r.Ok? ==> forall i :: destPos <= i < destPos + length ==> r.value[i] == src[srcPos + (i - destPos)]
  {
    if srcPos + length <= |src| && destPos + length <= |dest| then
      Ok(dest[..destPos] + src[srcPos..srcPos + length] + dest[destPos + length..])
    else
      Err(IndexOutOfBounds)
  }

  /** Where copy `k` of the address starts: 6, 12, ..., 96. */
  function CopyOffset(k: nat): nat {
    SyncLength + MacLength * k
  }

  /** The copies `k` to 15 of the address, performed in order. Each copy reads
      the first six bytes of `mac`, so they all fail when it is shorter. */
  function CopyRepetitions(mac: seq<int>, buf: seq<int>, k: nat): (r: Result<seq<int>>)
    requires |buf| == PacketLength && k <= Copies
    ensures r.Ok? <==> k == Copies || |mac| >= MacLength
    ensures r.Err? ==> r.error == IndexOutOfBounds
    ensures r.Ok? ==> |r.value| == PacketLength
    ensures r.Ok? ==> forall i :: 0 <= i < CopyOffset(k) ==> r.value[i] == buf[i]
    ensures r.Ok? && |mac| >= MacLength ==>
      forall i :: CopyOffset(k) <= i < PacketLength ==> r.value[i] == mac[(i - SyncLength) % MacLength]
    decreases Copies - k
  {
    if k == Copies then Ok(buf)
    else
      var next :- ArrayCopy(mac, 0, buf, CopyOffset(k), MacLength);
      CopyRepetitions(mac, next, k + 1)
  }

  /** The packet assembly of the wake handler. An address shorter than six
      bytes makes the first copy throw; longer ones have their extra bytes
      ignored. Every byte after the synchronisation stream is the address
      byte at the same position within its six-byte copy. */
  function BuildPacket(mac: seq<int>): (r: Result<seq<int>>)
    ensures r.Ok? <==> |mac| >= MacLength
    ensures r.Err? ==> r.error == IndexOutOfBounds
    ensures r.Ok? ==> |r.value| == PacketLength
    ensures r.Ok? ==> forall i :: 0 <= i < SyncLength ==> r.value[i] == SyncByte
    ensures r.Ok? ==> forall i :: SyncLength <= i < PacketLength ==> r.value[i] == mac[(i - SyncLength) % MacLength]
  {
    CopyRepetitions(mac, SyncedBuffer(), 0)
  }

  /** The synchronisation stream: six bytes 0xFF. */
  function SyncStream(): seq<int> {
    seq(SyncLength, _ => SyncByte)
  }

  /** `n` back-to-back copies of a six-byte address. */
  function Repetitions(mac: seq<int>, n: nat): (r: seq<int>)
    requires |mac| == MacLength
    ensures |r| == MacLength * n
    ensures forall i :: 0 <= i < |r| ==> r[i] == mac[i % MacLength]
  {
    if n == 0 then [] else mac + Repetitions(mac, n - 1)
  }

  /** The reference layout: the synchronisation stream, then sixteen copies
      of the address. */
  predicate IsMagicPacketFor(packet: seq<int>, mac: seq<int>) {
    |mac| == MacLength && packet == SyncStream() + Repetitions(mac, Copies)
  }

  /** The assembled packet is exactly the reference layout for the first six
      bytes of the address. */
  lemma BuildMatchesLayout(mac: seq<int>)
    requires |mac| >= MacLength
    ensures BuildPacket(mac).Ok? && IsMagicPacketFor(BuildPacket(mac).value, mac[..MacLength])
  {
    var p := BuildPacket(mac).value;
    var q := SyncStream() + Repetitions(mac[..MacLength], Copies);
    assert |p| == |q|;
    forall i | 0 <= i < |p|
      ensures p[i] == q[i]
    {
      if i >= SyncLength {
        assert q[i] == Repetitions(mac[..MacLength], Copies)[i - SyncLength];
      }
    }
    assert p == q;
  }

  /** Copy `k` of the address holds the address byte `j` at offset `6 + 6k + j`. */
  lemma MacCopyAt(mac: seq<int>, k: nat, j: nat)
    requires |mac| >= MacLength && k < Copies && j < MacLength
    ensures BuildPacket(mac).Ok? && BuildPacket(mac).value[CopyOffset(k) + j] == mac[j]
  {
    assert (CopyOffset(k) + j - SyncLength) % MacLength == j;
  }

  /** Only the first six bytes of the address matter, and they can be read
      back from the packet, so two addresses give the same packet exactly when
      their first six bytes agree. */
  lemma SamePacketIffSamePrefix(m1: seq<int>, m2: seq<int>)
    requires |m1| >= MacLength && |m2| >= MacLength
    ensures BuildPacket(m1) == BuildPacket(m2) <==> m1[..MacLength] == m2[..MacLength]
  {
    var p1 := BuildPacket(m1).value;
    var p2 := BuildPacket(m2).value;
    if m1[..MacLength] == m2[..MacLength] {
      forall i | 0 <= i < PacketLength
        ensures p1[i] == p2[i]
      {
        if i >= SyncLength {
          assert m1[(i - SyncLength) % MacLength] == m1[..MacLength][(i - SyncLength) % MacLength];
        }
      }
      assert p1 == p2;
    }
    if p1 == p2 {
      RecoverMac(m1);
      RecoverMac(m2);
    }
  }

  /** The address the packet wakes is its bytes 6 to 11. */
  function MacOf(packet: seq<int>): seq<int>
    requires |packet| >= SyncLength + MacLength
  {
    packet[SyncLength..SyncLength + MacLength]
  }

  /** Reading the first copy back out of a built packet gives the address. */
  lemma RecoverMac(mac: seq<int>)
    requires |mac| >= MacLength
    ensures BuildPacket(mac).Ok? && MacOf(BuildPacket(mac).value) == mac[..MacLength]
  {
    var p := BuildPacket(mac).value;
    forall j | 0 <= j < MacLength
      ensures MacOf(p)[j] == mac[j]
    {
      assert MacOf(p)[j] == p[SyncLength + j];
    }
  }
}
