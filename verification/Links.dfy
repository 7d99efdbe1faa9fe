/** The numbering of dedicated validator-to-validator links and the addresses dialled on them. */
module Links {
  import opened KeeperStore
  import opened Churn

  /** The link of the unordered pair {i, j} among n validators, in row-major order. */
  function PairwiseLinkIndex(i: int, j: int, n: int): int {
    var (low, high) := if i > j then (j, i) else (i, j);
    low * n - low * (low + 1) / 2 + (high - low - 1)
  }

  /** Links before row `i`: each earlier row `r` holds the n - 1 - r pairs it opens. */
  function RowStart(i: nat, n: nat): int {
    if i == 0 then 0 else RowStart(i - 1, n) + (n - i)
  }

  predicate IsPair(i: int, j: int, n: int) {
    0 <= i < n && 0 <= j < n && i != j
  }

  function LinkCount(n: nat): nat {
    n * (n - 1) / 2
  }

  lemma {:induction false} RowStartClosed(i: nat, n: nat)
    ensures RowStart(i, n) == i * n - i * (i + 1) / 2
  {
    if i > 0 {
      RowStartClosed(i - 1, n);
      assert i * (i + 1) == (i - 1) * i + 2 * i;
      assert i * n == (i - 1) * n + n;
    }
  }

  lemma {:induction false} RowsAscend(i: nat, j: nat, n: nat)
    requires i <= j < n
    ensures RowStart(i, n) <= RowStart(j, n)
    decreases j
  {
    if i < j {
      RowsAscend(i, j - 1, n);
    }
  }

  /** A pair's link lies in the row of its lower member. */
  lemma LinkInRow(i: nat, j: nat, n: nat)
    requires i < j < n
    ensures PairwiseLinkIndex(i, j, n) == RowStart(i, n) + (j - i - 1)
    ensures RowStart(i, n) <= PairwiseLinkIndex(i, j, n) < RowStart(i + 1, n)
  {
    RowStartClosed(i, n);
  }

  lemma LastRow(n: nat)
    requires n >= 1
    ensures RowStart(n - 1, n) == LinkCount(n)
  {
    RowStartClosed(n - 1, n);
    HalfOfProduct(n - 1);
  }

  lemma {:induction false} HalfOfProduct(k: nat)
    ensures k * (k + 1) % 2 == 0
  {
    if k > 0 {
      HalfOfProduct(k - 1);
      assert k * (k + 1) == (k - 1) * k + 2 * k;
    }
  }

  /** The pair a link joins, found row by row. */
  function PairFrom(link: nat, n: nat, row: nat): (nat, nat)
    requires row < n && RowStart(row, n) <= link < LinkCount(n)
    decreases n - row
  {
    if link < RowStart(row + 1, n) then (row, row + 1 + (link - RowStart(row, n)))
    else
      LastRow(n);
      PairFrom(link, n, row + 1)
  }

  function PairOf(link: nat, n: nat): (nat, nat)
    requires link < LinkCount(n)
  {
    PairFrom(link, n, 0)
  }

  lemma {:induction false} PairFromFound(link: nat, n: nat, row: nat)
    requires row < n && RowStart(row, n) <= link < LinkCount(n)
    ensures var (i, j) := PairFrom(link, n, row);
            row <= i < j < n && PairwiseLinkIndex(i, j, n) == link
    decreases n - row
  {
    if link < RowStart(row + 1, n) {
      RowStartClosed(row, n);
    } else {
      LastRow(n);
      PairFromFound(link, n, row + 1);
    }
  }

  /** Every link number below n(n-1)/2 is the link of the pair it names. */
  lemma LinkOfPair(link: nat, n: nat)
    requires link < LinkCount(n)
    ensures var (i, j) := PairOf(link, n);
            i < j < n && PairwiseLinkIndex(i, j, n) == link
  {
    PairFromFound(link, n, 0);
  }

  /** Every pair is the one its link number names, and the number is in range. */
  lemma PairOfLink(i: nat, j: nat, n: nat)
    requires i < j < n
    ensures 0 <= PairwiseLinkIndex(i, j, n) < LinkCount(n)
    ensures PairOf(PairwiseLinkIndex(i, j, n), n) == (i, j)
  {
    LinkInRow(i, j, n);
    LastRow(n);
    RowsAscend(0, i, n);
    RowsAscend(i + 1, n - 1, n);
    var link := PairwiseLinkIndex(i, j, n);
    LinkOfPair(link, n);
    var (a, b) := PairOf(link, n);
    LinkInRow(a, b, n);
    if a < i {
      RowsAscend(a + 1, i, n);
    } else if i < a {
      RowsAscend(i + 1, a, n);
    }
  }

  lemma LinkSymmetric(i: int, j: int, n: int)
    ensures PairwiseLinkIndex(i, j, n) == PairwiseLinkIndex(j, i, n)
  {
  }

  /** Two pairs share a link only if they are the same unordered pair. */
  lemma LinksDistinct(i: nat, j: nat, a: nat, b: nat, n: nat)
    requires IsPair(i, j, n) && IsPair(a, b, n)
    ensures PairwiseLinkIndex(i, j, n) == PairwiseLinkIndex(a, b, n) <==> (i == a && j == b) || (i == b && j == a)
  {
    LinkSymmetric(i, j, n);
    LinkSymmetric(a, b, n);
    var (l, h) := if i < j then (i, j) else (j, i);
    var (l', h') := if a < b then (a, b) else (b, a);
    PairOfLink(l, h, n);
    PairOfLink(l', h', n);
  }

  /** The address 172.40.<link>.<host> at which `self` dials `peer`. */
  function PairwiseLinkPeerIP(self: int, peer: int, n: int): Ip {
    V4(172, 40, PairwiseLinkIndex(self, peer, n), if peer < self then 2 else 3)
  }

  /** All four numbers are octets, so the text is an IPv4 address. */
  predicate IsIPv4(ip: Ip) {
    ip.V4? && 0 <= ip.a <= 255 && 0 <= ip.b <= 255 && 0 <= ip.c <= 255 && 0 <= ip.d <= 255
  }

  /** Distinct ordered (self, peer) pairs dial distinct addresses. */
  lemma AddressesDistinct(self: nat, peer: nat, self': nat, peer': nat, n: nat)
    requires IsPair(self, peer, n) && IsPair(self', peer', n)
    requires PairwiseLinkPeerIP(self, peer, n) == PairwiseLinkPeerIP(self', peer', n)
    ensures self == self' && peer == peer'
  {
    LinksDistinct(self, peer, self', peer', n);
  }

  /** A validator's peers lie in pairwise distinct /24 networks. */
  lemma PeerSubnetsDistinct(self: nat, peer: nat, peer': nat, n: nat)
    requires IsPair(self, peer, n) && IsPair(self, peer', n) && peer != peer'
    ensures SubnetOf(PairwiseLinkPeerIP(self, peer, n)) != SubnetOf(PairwiseLinkPeerIP(self, peer', n))
  {
    LinksDistinct(self, peer, self, peer', n);
  }

  /** `peers[k]` is validator `others[k]`, reached by validator `self` over their dedicated link. */
  predicate LinkedTo(self: nat, others: seq<nat>, peers: seq<Peer>, n: nat) {
    && |peers| == |others|
    && (forall k :: 0 <= k < |others| ==>
          IsPair(self, others[k], n) && peers[k].ip == Some(PairwiseLinkPeerIP(self, others[k], n)))
    && (forall j, k :: 0 <= j < k < |others| ==> others[j] != others[k])
  }

  lemma LastIsElsewhere(self: nat, others: seq<nat>, peers: seq<Peer>, n: nat)
    requires LinkedTo(self, others, peers, n) && peers != []
    ensures var last := |peers| - 1;
            SubnetOf(peers[last].ip.value) !in Subnets(peers[..last])
  {
    var last := |peers| - 1;
    var mine := SubnetOf(peers[last].ip.value);
    forall k | 0 <= k < last ensures peers[k].ip.Some? && SubnetOf(peers[k].ip.value) != mine {
      PeerSubnetsDistinct(self, others[k], others[last], n);
    }
  }

  /** On dedicated links a snapshot's subnet diversity is the number of connected validators. */
  lemma {:induction false} LinkedPeersDiverse(self: nat, others: seq<nat>, peers: seq<Peer>, n: nat)
    requires LinkedTo(self, others, peers, n)
    ensures |Subnets(peers)| == |peers|
    decreases |peers|
  {
    if peers != [] {
      var last := |peers| - 1;
      LinkedPeersDiverse(self, others[..last], peers[..last], n);
      LastIsElsewhere(self, others, peers, n);
      assert peers == peers[..last] + [peers[last]];
      assert Subnets(peers) == Subnets(peers[..last]) + {SubnetOf(peers[last].ip.value)};
    }
  }

  /** Every dialled address is a real IPv4 address exactly for at most 23 validators. */
  lemma AddressesValidWhen(n: nat)
    ensures (forall self, peer :: IsPair(self, peer, n) ==> IsIPv4(PairwiseLinkPeerIP(self, peer, n))) <==> n <= 23
  {
    if n <= 23 {
      forall self, peer | IsPair(self, peer, n) ensures IsIPv4(PairwiseLinkPeerIP(self, peer, n)) {
        LinkSymmetric(self, peer, n);
        var (l, h) := if self < peer then (self, peer) else (peer, self);
        PairOfLink(l, h, n);
        CountMonotone(n, 23);
      }
    } else {
      CountMonotone(24, n);
      LinkOfPair(256, n);
      var (i, j) := PairOf(256, n);
      assert IsPair(i, j, n) && !IsIPv4(PairwiseLinkPeerIP(i, j, n));
    }
  }

  lemma {:induction false} CountMonotone(m: nat, n: nat)
    requires m <= n
    ensures LinkCount(m) <= LinkCount(n)
    decreases n
  {
    if m < n {
      CountMonotone(m, n - 1);
      assert n * (n - 1) == (n - 1) * (n - 2) + 2 * (n - 1);
    }
  }

  /** Links are numbered in the order of their pairs, row by row. */
  lemma RowMajor(i: nat, j: nat, a: nat, b: nat, n: nat)
    requires i < j < n && a < b < n
    ensures PairwiseLinkIndex(i, j, n) < PairwiseLinkIndex(a, b, n) <==> i < a || (i == a && j < b)
  {
    LinkInRow(i, j, n);
    LinkInRow(a, b, n);
    if i < a {
      RowsAscend(i + 1, a, n);
    } else if a < i {
      RowsAscend(a + 1, i, n);
    }
  }

  /** The two ends of a link: the lower-indexed validator is at .2 and the higher at .3 of the link's own
      network, whoever dials. */
  lemma LinkEnds(i: nat, j: nat, n: nat)
    requires i < j < n
    ensures var link := PairwiseLinkIndex(i, j, n);
            PairwiseLinkPeerIP(j, i, n) == V4(172, 40, link, 2) && PairwiseLinkPeerIP(i, j, n) == V4(172, 40, link, 3)
  {
    LinkSymmetric(i, j, n);
  }
}
