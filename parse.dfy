/** The blocklist snapshot: the per-category reference-counted maps, the CIDR
    trie shared by IPv4 and IPv6 subnets, the record map and the registry update
    time. */
module Dump {
  import opened Ints
  import opened RefCount
  import opened Cidr

  /** The retained metadata of one registry record, shared by pointer. Only the
      registry update time is part of this model. */
  class MinContent {
    var registryUpdateTime: int64
  }

  /** The value of a whole snapshot: every map's contents, the trie as the set
      of subnet strings it holds, and the record map. */
  datatype Snapshot = Snapshot(
    utime: int64,
    ip: Refs<uint32>,
    ip6: Refs<string>,
    subnet: Refs<string>,
    subnet6: Refs<string>,
    net: set<string>,
    url: Refs<string>,
    domain: Refs<string>,
    decision: Refs<uint64>,
    content: map<int32, MinContent>)

  /** A freshly made snapshot. */
  function Empty(): Snapshot {
    Snapshot(0, map[], map[], map[], map[], {}, map[], map[], map[], map[])
  }

  /** One call of a wrapper of the snapshot. */
  datatype Change =
    | PutIp(ip: uint32, id: int32)
    | DropIp(ip: uint32, id: int32)
    | PutIp6(value: string, id: int32)
    | DropIp6(value: string, id: int32)
    | PutSubnet(value: string, id: int32)
    | DropSubnet(value: string, id: int32)
    | PutSubnet6(value: string, id: int32)
    | DropSubnet6(value: string, id: int32)
    | PutUrl(value: string, id: int32)
    | DropUrl(value: string, id: int32)
    | PutDomain(value: string, id: int32)
    | DropDomain(value: string, id: int32)
    | PutDecision(digest: uint64, id: int32)
    | DropDecision(digest: uint64, id: int32)

  /** The trie after a subnet claim: it gains the subnet on its first reference. */
  function NetAfterAdd(net: set<string>, m: Refs<string>, s: string): set<string> {
    if s in m then net else net + {s}
  }

  /** The trie after a subnet release: it loses the subnet on its last reference. */
  function NetAfterDelete(net: set<string>, m: Refs<string>, s: string, id: int32): set<string> {
    if LastRef(m, s, id) then net - {s} else net
  }

  /** The snapshot after one wrapper call. */
  function Apply(st: Snapshot, c: Change): Snapshot {
    match c
    case PutIp(a, id) => st.(ip := Inserted(st.ip, a, id))
    case DropIp(a, id) => st.(ip := Removed(st.ip, a, id))
    case PutIp6(s, id) => st.(ip6 := Inserted(st.ip6, s, id))
    case DropIp6(s, id) => st.(ip6 := Removed(st.ip6, s, id))
    case PutSubnet(s, id) =>
      st.(subnet := Inserted(st.subnet, s, id), net := NetAfterAdd(st.net, st.subnet, s))
    case DropSubnet(s, id) =>
      st.(subnet := Removed(st.subnet, s, id), net := NetAfterDelete(st.net, st.subnet, s, id))
    case PutSubnet6(s, id) =>
      st.(subnet6 := Inserted(st.subnet6, s, id), net := NetAfterAdd(st.net, st.subnet6, s))
    case DropSubnet6(s, id) =>
      st.(subnet6 := Removed(st.subnet6, s, id), net := NetAfterDelete(st.net, st.subnet6, s, id))
    case PutUrl(s, id) => st.(url := Inserted(st.url, s, id))
    case DropUrl(s, id) => st.(url := Removed(st.url, s, id))
    case PutDomain(s, id) => st.(domain := Inserted(st.domain, s, id))
    case DropDomain(s, id) => st.(domain := Removed(st.domain, s, id))
    case PutDecision(d, id) => st.(decision := Inserted(st.decision, d, id))
    case DropDecision(d, id) => st.(decision := Removed(st.decision, d, id))
  }

  function ApplyAll(st: Snapshot, cs: seq<Change>): Snapshot
    decreases |cs|
  {
    if cs == [] then st else ApplyAll(Apply(st, cs[0]), cs[1..])
  }

  /** What the invariant needs of a wrapper call: a subnet entering a subnet
      map carries the mark of that map's family. Every well-formed subnet
      string does (`FamiliesDisjoint`). */
  predicate WellFormed(c: Change) {
    match c
    case PutSubnet(s, _) => !V6Family(s)
    case PutSubnet6(s, _) => V6Family(s)
    case _ => true
  }

  predicate IsSubnetChange(c: Change) {
    c.PutSubnet? || c.DropSubnet? || c.PutSubnet6? || c.DropSubnet6?
  }

  /** The snapshot invariant: every key of every map has a claiming id, the
      subnet maps hold subnets of their own family, and the trie holds exactly
      the keys of the two subnet maps. The subnet maps' keys are told apart by
      their family mark, which is what keeps the shared trie in step. Every key
      reachable from the constructor also parses, since `AddSubnet` requires
      `Cidr4` and `AddSubnet6` requires `Cidr6`; the invariant keeps only the
      family mark, which is all the trie's synchrony needs and is cheaper for
      the solver. */
  predicate Inv(st: Snapshot) {
    && AllNonEmpty(st.ip) && AllNonEmpty(st.ip6)
    && AllNonEmpty(st.subnet) && AllNonEmpty(st.subnet6)
    && AllNonEmpty(st.url) && AllNonEmpty(st.domain) && AllNonEmpty(st.decision)
    && (forall s | s in st.subnet :: !V6Family(s))
    && (forall s | s in st.subnet6 :: V6Family(s))
    && st.net == st.subnet.Keys + st.subnet6.Keys
  }

  lemma EmptyInv()
    ensures Inv(Empty())
  {
  }

  /** A claim on a subnet keeps the trie equal to the keys of the two subnet
      maps: the trie gains the subnet exactly when the map does. */
  lemma ClaimKeepsTrie(m: Refs<string>, other: Refs<string>, net: set<string>, s: string, id: int32)
    requires net == m.Keys + other.Keys
    ensures NetAfterAdd(net, m, s) == Inserted(m, s, id).Keys + other.Keys
  {
  }

  /** A release of a subnet keeps the trie equal to the keys of the two subnet
      maps, provided the other map does not hold the same string. */
  lemma ReleaseKeepsTrie(m: Refs<string>, other: Refs<string>, net: set<string>, s: string, id: int32)
    requires net == m.Keys + other.Keys && (s in m ==> s !in other)
    ensures NetAfterDelete(net, m, s, id) == Removed(m, s, id).Keys + other.Keys
  {
    if LastRef(m, s, id) {
      assert Removed(m, s, id).Keys == m.Keys - {s};
    }
  }

  /** A call of one of the four subnet wrappers keeps the invariant. */
  lemma SubnetChangeKeepsInv(st: Snapshot, c: Change)
    requires Inv(st) && WellFormed(c) && IsSubnetChange(c)
    ensures Inv(Apply(st, c))
  {
    assert st.net == st.subnet6.Keys + st.subnet.Keys;
    match c {
      case PutSubnet(s, id) =>
        InsertedKeepsNonEmpty(st.subnet, s, id);
        ClaimKeepsTrie(st.subnet, st.subnet6, st.net, s, id);
      case DropSubnet(s, id) =>
        RemovedKeepsNonEmpty(st.subnet, s, id);
        ReleaseKeepsTrie(st.subnet, st.subnet6, st.net, s, id);
      case PutSubnet6(s, id) =>
        InsertedKeepsNonEmpty(st.subnet6, s, id);
        ClaimKeepsTrie(st.subnet6, st.subnet, st.net, s, id);
      case DropSubnet6(s, id) =>
        RemovedKeepsNonEmpty(st.subnet6, s, id);
        ReleaseKeepsTrie(st.subnet6, st.subnet, st.net, s, id);
    }
  }

  /** Every well-formed wrapper call keeps the invariant, trie synchrony included. */
  lemma ApplyKeepsInv(st: Snapshot, c: Change)
    requires Inv(st) && WellFormed(c)
    ensures Inv(Apply(st, c))
  {
    match c {
      case PutIp(a, id) => InsertedKeepsNonEmpty(st.ip, a, id);
      case DropIp(a, id) => RemovedKeepsNonEmpty(st.ip, a, id);
      case PutIp6(v, id) => InsertedKeepsNonEmpty(st.ip6, v, id);
      case DropIp6(v, id) => RemovedKeepsNonEmpty(st.ip6, v, id);
      case PutUrl(v, id) => InsertedKeepsNonEmpty(st.url, v, id);
      case DropUrl(v, id) => RemovedKeepsNonEmpty(st.url, v, id);
      case PutDomain(v, id) => InsertedKeepsNonEmpty(st.domain, v, id);
      case DropDomain(v, id) => RemovedKeepsNonEmpty(st.domain, v, id);
      case PutDecision(d, id) => InsertedKeepsNonEmpty(st.decision, d, id);
      case DropDecision(d, id) => RemovedKeepsNonEmpty(st.decision, d, id);
      case _ => SubnetChangeKeepsInv(st, c);
    }
  }

  /** Any sequence of well-formed wrapper calls keeps the invariant. */
  lemma {:induction false} ApplyAllKeepsInv(st: Snapshot, cs: seq<Change>)
    requires Inv(st)
    requires forall i | 0 <= i < |cs| :: WellFormed(cs[i])
    ensures Inv(ApplyAll(st, cs))
    decreases |cs|
  {
    if cs != [] {
      ApplyKeepsInv(st, cs[0]);
      ApplyAllKeepsInv(Apply(st, cs[0]), cs[1..]);
    }
  }

  /** A wrapper that is not a subnet wrapper changes neither the trie, the
      subnet maps, the records nor the update time. */
  lemma OnlyOwnCategory(st: Snapshot, c: Change)
    requires !IsSubnetChange(c)
    ensures var r := Apply(st, c);
            && r.net == st.net && r.subnet == st.subnet && r.subnet6 == st.subnet6
            && r.content == st.content && r.utime == st.utime
  {
  }

  /** A subnet claimed by two records stays in the trie while either claims it
      and leaves it once both have released it. */
  lemma SharedSubnet(st: Snapshot, s: string, a: int32, b: int32)
    requires Inv(st) && !V6Family(s) && s !in st.subnet && a != b
    ensures var st3 := Apply(Apply(Apply(st, PutSubnet(s, a)), PutSubnet(s, b)), DropSubnet(s, a));
            && s in st3.net
            && Apply(st3, DropSubnet(s, b)).net == st.net
  {
    TwoClaimers(st.subnet, s, a, b);
    assert s !in st.net;
  }

  /** The snapshot, updated in place by its wrappers. */
  class TDump {
    var utime: int64
    const ip: RefMap<uint32>
    const ip6: RefMap<string>
    const subnet: RefMap<string>
    const subnet6: RefMap<string>
    var net: set<string>
    const url: RefMap<string>
    const domain: RefMap<string>
    const decision: RefMap<uint64>
    var content: map<int32, MinContent>

    ghost function Abs(): Snapshot
      reads this, ip, ip6, subnet, subnet6, url, domain, decision
    {
      Snapshot(utime, ip.refs, ip6.refs, subnet.refs, subnet6.refs, net,
               url.refs, domain.refs, decision.refs, content)
    }

    ghost predicate Valid()
      reads this, ip, ip6, subnet, subnet6, url, domain, decision
    {
      && ip6 != subnet && ip6 != subnet6 && ip6 != url && ip6 != domain
      && subnet != subnet6 && subnet != url && subnet != domain
      && subnet6 != url && subnet6 != domain
      && url != domain
      && Inv(Abs())
    }

    constructor ()
      ensures Valid() && Abs() == Empty()
      ensures subnet.refs == map[] && subnet6.refs == map[] && net == {}
      ensures fresh(ip) && fresh(ip6) && fresh(subnet) && fresh(subnet6)
      ensures fresh(url) && fresh(domain) && fresh(decision)
    {
      utime := 0;
      ip := new RefMap<uint32>();
      ip6 := new RefMap<string>();
      subnet := new RefMap<string>();
      subnet6 := new RefMap<string>();
      url := new RefMap<string>();
      domain := new RefMap<string>();
      decision := new RefMap<uint64>();
      content := map[];
      net := {};
    }

    method AddIp(a: uint32, id: int32)
      requires Valid()
      modifies ip
      ensures Valid()
      ensures ip.refs == Inserted(old(ip.refs), a, id)
      ensures Abs() == Apply(old(Abs()), PutIp(a, id))
    {
      var _ := ip.Add(a, id);
      InsertedKeepsNonEmpty(old(ip.refs), a, id);
    }

    method DeleteIp(a: uint32, id: int32)
      requires Valid()
      modifies ip
      ensures Valid()
      ensures ip.refs == Removed(old(ip.refs), a, id)
      ensures Abs() == Apply(old(Abs()), DropIp(a, id))
    {
      var _ := ip.Delete(a, id);
      RemovedKeepsNonEmpty(old(ip.refs), a, id);
    }

    method AddIp6(s: string, id: int32)
      requires Valid()
      modifies ip6
      ensures Valid()
      ensures ip6.refs == Inserted(old(ip6.refs), s, id)
      ensures Abs() == Apply(old(Abs()), PutIp6(s, id))
    {
      var _ := ip6.Add(s, id);
    }

    method DeleteIp6(s: string, id: int32)
      requires Valid()
      modifies ip6
      ensures Valid()
      ensures ip6.refs == Removed(old(ip6.refs), s, id)
      ensures Abs() == Apply(old(Abs()), DropIp6(s, id))
    {
      var _ := ip6.Delete(s, id);
    }

    /** Claims an IPv4 subnet; the trie gains it on its first reference only. */
    method AddSubnet(s: string, id: int32)
      requires Valid() && Cidr4(s)
      modifies this`net, subnet
      ensures Valid()
      ensures subnet.refs == Inserted(old(subnet.refs), s, id)
      ensures net == if s in old(subnet.refs) then old(net) else old(net) + {s}
      ensures Abs() == Apply(old(Abs()), PutSubnet(s, id))
    {
      var first := subnet.Add(s, id);
      if first {
        net := net + {s};
      }
      FamiliesDisjoint(s);
      InsertedKeepsNonEmpty(old(subnet.refs), s, id);
      ClaimKeepsTrie(old(subnet.refs), old(subnet6.refs), old(net), s, id);
    }

    /** Releases an IPv4 subnet; the trie loses it on its last reference only. */
    method DeleteSubnet(s: string, id: int32)
      requires Valid()
      modifies this`net, subnet
      ensures Valid()
      ensures subnet.refs == Removed(old(subnet.refs), s, id)
      ensures net == if LastRef(old(subnet.refs), s, id) then old(net) - {s} else old(net)
      ensures Abs() == Apply(old(Abs()), DropSubnet(s, id))
    {
      var last := subnet.Delete(s, id);
      if last {
        net := net - {s};
      }
      RemovedKeepsNonEmpty(old(subnet.refs), s, id);
      ReleaseKeepsTrie(old(subnet.refs), old(subnet6.refs), old(net), s, id);
    }

    /** Claims an IPv6 subnet; the trie gains it on its first reference only. */
    method AddSubnet6(s: string, id: int32)
      requires Valid() && Cidr6(s)
      modifies this`net, subnet6
      ensures Valid()
      ensures subnet6.refs == Inserted(old(subnet6.refs), s, id)
      ensures net == if s in old(subnet6.refs) then old(net) else old(net) + {s}
      ensures Abs() == Apply(old(Abs()), PutSubnet6(s, id))
    {
      var first := subnet6.Add(s, id);
      if first {
        net := net + {s};
      }
      FamiliesDisjoint(s);
      InsertedKeepsNonEmpty(old(subnet6.refs), s, id);
      assert old(net) == old(subnet6.refs).Keys + old(subnet.refs).Keys;
      ClaimKeepsTrie(old(subnet6.refs), old(subnet.refs), old(net), s, id);
    }

    /** Releases an IPv6 subnet; the trie loses it on its last reference only. */
    method DeleteSubnet6(s: string, id: int32)
      requires Valid()
      modifies this`net, subnet6
      ensures Valid()
      ensures subnet6.refs == Removed(old(subnet6.refs), s, id)
      ensures net == if LastRef(old(subnet6.refs), s, id) then old(net) - {s} else old(net)
      ensures Abs() == Apply(old(Abs()), DropSubnet6(s, id))
    {
      var last := subnet6.Delete(s, id);
      if last {
        net := net - {s};
      }
      RemovedKeepsNonEmpty(old(subnet6.refs), s, id);
      assert old(net) == old(subnet6.refs).Keys + old(subnet.refs).Keys;
      ReleaseKeepsTrie(old(subnet6.refs), old(subnet.refs), old(net), s, id);
    }

    method AddUrl(s: string, id: int32)
      requires Valid()
      modifies url
      ensures Valid()
      ensures url.refs == Inserted(old(url.refs), s, id)
      ensures Abs() == Apply(old(Abs()), PutUrl(s, id))
    {
      var _ := url.Add(s, id);
    }

    method DeleteUrl(s: string, id: int32)
      requires Valid()
      modifies url
      ensures Valid()
      ensures url.refs == Removed(old(url.refs), s, id)
      ensures Abs() == Apply(old(Abs()), DropUrl(s, id))
    {
      var _ := url.Delete(s, id);
    }

    method AddDomain(s: string, id: int32)
      requires Valid()
      modifies domain
      ensures Valid()
      ensures domain.refs == Inserted(old(domain.refs), s, id)
      ensures Abs() == Apply(old(Abs()), PutDomain(s, id))
    {
      var _ := domain.Add(s, id);
    }

    method DeleteDomain(s: string, id: int32)
      requires Valid()
      modifies domain
      ensures Valid()
      ensures domain.refs == Removed(old(domain.refs), s, id)
      ensures Abs() == Apply(old(Abs()), DropDomain(s, id))
    {
      var _ := domain.Delete(s, id);
    }

    method AddDecision(d: uint64, id: int32)
      requires Valid()
      modifies decision
      ensures Valid()
      ensures decision.refs == Inserted(old(decision.refs), d, id)
      ensures Abs() == Apply(old(Abs()), PutDecision(d, id))
    {
      var _ := decision.Add(d, id);
    }

    method DeleteDecision(d: uint64, id: int32)
      requires Valid()
      modifies decision
      ensures Valid()
      ensures decision.refs == Removed(old(decision.refs), d, id)
      ensures Abs() == Apply(old(Abs()), DropDecision(d, id))
    {
      var _ := decision.Delete(d, id);
    }

    /** Stamps every record, and the snapshot, with the registry update time. */
    method Parse2(updateTime: int64)
      requires Valid()
      modifies this`utime, content.Values
      ensures Valid()
      ensures utime == updateTime && content == old(content)
      ensures forall k | k in content :: content[k].registryUpdateTime == updateTime
      ensures Abs() == old(Abs()).(utime := updateTime)
    {
      var pending := content.Keys;
      while pending != {}
        invariant pending <= content.Keys
        invariant forall k | k in content && k !in pending :: content[k].registryUpdateTime == updateTime
        invariant Abs() == old(Abs())
        decreases pending
      {
        var k :| k in pending;
        content[k].registryUpdateTime := updateTime;
        pending := pending - {k};
      }
      utime := updateTime;
    }
  }

  /** The reference-counting behaviour of the trie through the class: a subnet
      claimed by two records survives the first release and goes with the second. */
  method SharedSubnetInTrie(s: string, a: int32, b: int32)
    returns (afterFirst: bool, afterSecond: bool, afterBoth: bool)
    requires Cidr4(s) && a != b
    ensures afterFirst && afterSecond && !afterBoth
  {
    var d := new TDump();
    TwoClaimers(d.subnet.refs, s, a, b);
    d.AddSubnet(s, a);
    d.AddSubnet(s, b);
    afterFirst := s in d.net;
    d.DeleteSubnet(s, a);
    afterSecond := s in d.net;
    d.DeleteSubnet(s, b);
    afterBoth := s in d.net;
  }
}
