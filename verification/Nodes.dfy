/**
 What a node is called and where it is reached: everything follows from its index and
 its lab's name, so that nothing is allocated or recorded.
 */
module Nodes {
  import opened Text

  const BASE_SSH_PORT := 25522
  const BASE_GUI_PORT := 28006
  const BAKE_PORT := 25589

  function Hostname(index: nat): string {
    "pve-node" + Decimal(index)
  }

  function ClusterIp(index: nat): string {
    "10.9.9." + Decimal(index)
  }

  function MgmtIp(index: nat): string {
    "10.0." + Decimal(1 + index) + ".10"
  }

  /** The port offset of a lab whose name has this CRC-32. */
  function PortOffset(lab: string, crc: nat): nat {
    if lab == "lab" then 0 else (crc % 40 + 1) * 100
  }

  function SshPort(index: nat, offset: nat): nat
    requires index >= 1
  {
    BASE_SSH_PORT + offset + (index - 1) * 10
  }

  function GuiPort(index: nat, offset: nat): nat
    requires index >= 1
  {
    BASE_GUI_PORT + offset + (index - 1) * 10
  }

  lemma HostnameInjective(i: nat, j: nat)
    requires Hostname(i) == Hostname(j)
    ensures i == j
  {
    assert Decimal(i) == Hostname(i)[8..] && Decimal(j) == Hostname(j)[8..];
    DecimalInjective(i, j);
  }

  /** The host ports one lab of `count` nodes forwards. */
  function HostPorts(count: nat, offset: nat): set<nat> {
    (set i | 1 <= i <= count :: SshPort(i, offset)) + (set i | 1 <= i <= count :: GuiPort(i, offset))
  }

  lemma OffsetIsHundreds(lab: string, crc: nat) returns (m: nat)
    ensures PortOffset(lab, crc) == 100 * m && m <= 40
  {
    m := if lab == "lab" then 0 else crc % 40 + 1;
  }

  /** An ssh port ends in 2 and a gui port in 6. */
  lemma KindsApart(m: nat, i: nat, n: nat, j: nat)
    requires i >= 1 && j >= 1
    ensures SshPort(i, 100 * m) != GuiPort(j, 100 * n)
    ensures SshPort(i, 100 * m) != BAKE_PORT && GuiPort(j, 100 * n) != BAKE_PORT
  {
  }

  /** A lab's ports end before another's begin, ten apart for each node. */
  predicate RoomBetween(x: nat, countA: nat, y: nat, countB: nat) {
    if x < y then 10 * countA <= y - x else if y < x then 10 * countB <= x - y else countA == 0 || countB == 0
  }

  /** With room between them labs share no port of a kind. */
  lemma PortsApart(m: nat, i: nat, countA: nat, n: nat, j: nat, countB: nat)
    requires RoomBetween(100 * m, countA, 100 * n, countB) && 1 <= i <= countA && 1 <= j <= countB
    ensures SshPort(i, 100 * m) != SshPort(j, 100 * n) && GuiPort(i, 100 * m) != GuiPort(j, 100 * n)
  {
  }

  /** Without, the lower lab's node that is as many tens up has the other's first port. */
  lemma PortsMeet(m: nat, countA: nat, n: nat, countB: nat) returns (port: nat)
    requires !RoomBetween(100 * m, countA, 100 * n, countB) && countA >= 1 && countB >= 1
    ensures port in HostPorts(countA, 100 * m) && port in HostPorts(countB, 100 * n)
  {
    var i, j := if m < n then 10 * (n - m) + 1 else 1, if n < m then 10 * (m - n) + 1 else 1;
    port := SshPort(i, 100 * m);
    assert port == SshPort(j, 100 * n) && i <= countA && j <= countB;
  }

  /** The host ports two labs forward are disjoint exactly if there is room between them, however many nodes they have. */
  lemma PortsDisjoint(m: nat, countA: nat, n: nat, countB: nat)
    requires countA >= 1 && countB >= 1
    ensures HostPorts(countA, 100 * m) !! HostPorts(countB, 100 * n) <==> RoomBetween(100 * m, countA, 100 * n, countB)
  {
    var x, y := 100 * m, 100 * n;
    if RoomBetween(x, countA, y, countB) {
      forall p, q | p in HostPorts(countA, x) && q in HostPorts(countB, y) ensures p != q {
        var i :| 1 <= i <= countA && (p == SshPort(i, x) || p == GuiPort(i, x));
        var j :| 1 <= j <= countB && (q == SshPort(j, y) || q == GuiPort(j, y));
        PortsApart(m, i, countA, n, j, countB);
        KindsApart(m, i, n, j);
        KindsApart(n, j, m, i);
      }
    } else {
      var port := PortsMeet(m, countA, n, countB);
    }
  }

  // ----- the cluster's link

  const CLUSTER_MCAST := "230.0.0.1:24000"
  const BUILD_MCAST := "230.0.0.9:24999"

  /** f"{n:02d}". */
  function TwoDigits(n: nat): string {
    if n < 10 then "0" + Decimal(n) else Decimal(n)
  }

  function ClusterMac(index: nat): string {
    "52:54:00:1a:c1:" + TwoDigits(index)
  }

  /** Who is on a lab's cluster link, by group, hardware address and address: a lab of one node has none. */
  function Segment(count: nat): set<(string, string, string)> {
    if count > 1 then set i | 1 <= i <= count :: (CLUSTER_MCAST, ClusterMac(i), ClusterIp(i)) else {}
  }

  /** The link depends on nothing but the number of nodes, so any two clustered labs meet on it. */
  lemma SegmentsDisjoint(countA: nat, countB: nat)
    ensures Segment(countA) !! Segment(countB) <==> countA <= 1 || countB <= 1
  {
    if countA > 1 && countB > 1 {
      var first := (CLUSTER_MCAST, ClusterMac(1), ClusterIp(1));
      assert first in Segment(countA) && first in Segment(countB);
    }
  }

  /** A machine that builds an image is on none of them. */
  lemma BuildsAreApart(count: nat)
    ensures forall member | member in Segment(count) :: member.0 != BUILD_MCAST
  {
    assert CLUSTER_MCAST[8] == '1' && BUILD_MCAST[8] == '9';
  }

  /**
   Two labs can share a host, with no port and no member of a cluster link in common, exactly
   if their names leave room between their ports and at most one of them is a cluster.
   */
  lemma LabsShareAHost(a: string, crcA: nat, countA: nat, b: string, crcB: nat, countB: nat)
    requires countA >= 1 && countB >= 1
    ensures HostPorts(countA, PortOffset(a, crcA)) !! HostPorts(countB, PortOffset(b, crcB)) && Segment(countA) !! Segment(countB) <==>
            RoomBetween(PortOffset(a, crcA), countA, PortOffset(b, crcB), countB) && (countA == 1 || countB == 1)
  {
    var m := OffsetIsHundreds(a, crcA);
    var n := OffsetIsHundreds(b, crcB);
    PortsDisjoint(m, countA, n, countB);
    SegmentsDisjoint(countA, countB);
  }

  /** For labs of up to ten nodes there is room exactly if their offsets differ. */
  lemma RoomForTen(a: string, crcA: nat, countA: nat, b: string, crcB: nat, countB: nat)
    requires 1 <= countA <= 10 && 1 <= countB <= 10
    ensures RoomBetween(PortOffset(a, crcA), countA, PortOffset(b, crcB), countB) <==> PortOffset(a, crcA) != PortOffset(b, crcB)
  {
    var m := OffsetIsHundreds(a, crcA);
    var n := OffsetIsHundreds(b, crcB);
  }

  /** The lab `lab` and any other, two nodes each: their ports are apart, their clusters are one. */
  lemma TwoClustersMeet(lab: string, other: string, crc: nat)
    requires lab == "lab" && other != lab
    ensures HostPorts(2, PortOffset(lab, 0)) !! HostPorts(2, PortOffset(other, crc))
    ensures !(Segment(2) !! Segment(2))
  {
    var m := OffsetIsHundreds(lab, 0);
    var n := OffsetIsHundreds(other, crc);
    PortsDisjoint(m, 2, n, 2);
    SegmentsDisjoint(2, 2);
  }

  /** Within one lab no two forwards meet, none is the bake's, and all are real ports. */
  lemma PortsOfALab(lab: string, crc: nat, i: nat, j: nat)
    requires 1 <= i && 1 <= j
    ensures var o := PortOffset(lab, crc);
            && SshPort(i, o) != GuiPort(j, o)
            && (SshPort(i, o) == SshPort(j, o) ==> i == j)
            && (GuiPort(i, o) == GuiPort(j, o) ==> i == j)
            && SshPort(i, o) != BAKE_PORT && GuiPort(j, o) != BAKE_PORT
            && (i <= 10 ==> SshPort(i, o) < 65536 && GuiPort(i, o) < 65536)
  {
    var m := OffsetIsHundreds(lab, crc);
    KindsApart(m, i, m, j);
  }
}
