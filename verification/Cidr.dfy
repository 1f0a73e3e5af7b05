/** IPv4 blocks in text form (src/cidr.ts) and the subnets of a network (src/network.ts). */
module Cidr {
  import opened Wrappers
  import opened Segments
  import opened Text

  /** A parsed block; `cidr` is its normal text. */
  datatype Block = Block(cidr: string, network: nat, broadcast: nat, prefix: nat)

  const ADDRESSES := 0x1_0000_0000

  function Pow2(n: nat): (r: nat)
    ensures r > 0
  {
    if n == 0 then 1 else 2 * Pow2(n - 1)
  }

  lemma {:induction false} Pow2Add(a: nat, b: nat)
    ensures Pow2(a + b) == Pow2(a) * Pow2(b)
  {
    if a > 0 {
      Pow2Add(a - 1, b);
      assert Pow2(a + b) == 2 * Pow2(a - 1 + b);
    }
  }

  // ---------------------------------------------------------------- addresses

  predicate IsNumeral(s: string, digits: nat) {
    1 <= |s| <= digits && AllDigits(s)
  }

  predicate IsOctet(s: string) {
    IsNumeral(s, 3) && NumeralValue(s) <= 255
  }

  /** One step of the fold over the octets, kept to 32 bits. */
  function Append(address: nat, octet: nat): nat {
    (address * 256 + octet) % ADDRESSES
  }

  function AddressOf(ip: string): Option<nat> {
    var parts := Split(ip, '.');
    if |parts| != 4 || exists k :: 0 <= k < |parts| && !IsOctet(parts[k]) then None
    else Some(Append(Append(Append(Append(0, NumeralValue(parts[0])), NumeralValue(parts[1])), NumeralValue(parts[2])),
                     NumeralValue(parts[3])))
  }

  function Octet(address: nat, k: nat): (o: nat)
    requires k < 4
    ensures o < 256
  {
    (match k
     case 0 => address / 0x100_0000
     case 1 => address / 0x1_0000
     case 2 => address / 0x100
     case _ => address) % 256
  }

  /** Dotted decimal notation. */
  function IpText(address: nat): string {
    Decimal(Octet(address, 0)) + "."
      + (Decimal(Octet(address, 1)) + "." + (Decimal(Octet(address, 2)) + "." + Decimal(Octet(address, 3))))
  }

  lemma DecimalIsOctet(n: nat)
    requires n < 256
    ensures IsOctet(Decimal(n)) && NumeralValue(Decimal(n)) == n && '.' !in Decimal(n) && '/' !in Decimal(n)
  {
    DecimalRoundTrip(n);
    DecimalLength(n);
    NoSeparator(Decimal(n));
  }

  lemma {:induction false} DecimalLength(n: nat)
    ensures n < 10 ==> |Decimal(n)| == 1
    ensures n < 100 ==> |Decimal(n)| <= 2
    ensures n < 1000 ==> |Decimal(n)| <= 3
  {
    if n >= 10 {
      DecimalLength(n / 10);
    }
  }

  lemma NoSeparator(s: string)
    requires AllDigits(s)
    ensures '.' !in s && '/' !in s
  {
    assert forall k :: 0 <= k < |s| ==> IsDigit(s[k]);
  }

  lemma AppendLast(n: nat)
    requires n < ADDRESSES
    ensures Append(n / 256, n % 256) == n && n / 256 < ADDRESSES
  {
    assert n / 256 * 256 + n % 256 == n;
  }

  lemma Bytes(address: nat)
    ensures address / 0x1_0000 == address / 0x100 / 256 && address / 0x100_0000 == address / 0x100 / 256 / 256
    ensures address < ADDRESSES ==> address / 0x100_0000 < 256
  {}

  lemma FromOctets(address: nat)
    requires address < ADDRESSES
    ensures Append(Append(Append(Append(0, Octet(address, 0)), Octet(address, 1)), Octet(address, 2)),
                   Octet(address, 3)) == address
  {
    hide Append;
    Bytes(address);
    AppendLast(address);
    AppendLast(address / 256);
    AppendLast(address / 256 / 256);
    AppendLast(address / 256 / 256 / 256);
  }

  /** Reading an address that was written gives the address. */
  lemma AddressRoundTrip(address: nat)
    requires address < ADDRESSES
    ensures AddressOf(IpText(address)) == Some(address) && '/' !in IpText(address)
  {
    hide Decimal, NumeralValue, Append, IsOctet;
    var a, b, c, d :=
      Decimal(Octet(address, 0)), Decimal(Octet(address, 1)), Decimal(Octet(address, 2)), Decimal(Octet(address, 3));
    DecimalIsOctet(Octet(address, 0));
    DecimalIsOctet(Octet(address, 1));
    DecimalIsOctet(Octet(address, 2));
    DecimalIsOctet(Octet(address, 3));
    SplitOnePiece(d, '.');
    SplitFirstPiece(c, '.', d);
    SplitFirstPiece(b, '.', c + "." + d);
    SplitFirstPiece(a, '.', b + "." + (c + "." + d));
    assert Split(IpText(address), '.') == [a, b, c, d];
    FromOctets(address);
  }

  lemma AddressIsSmall(ip: string)
    ensures AddressOf(ip).Some? ==> AddressOf(ip).value < ADDRESSES
  {
    hide Split, NumeralValue, IsOctet;
  }

  // ---------------------------------------------------------------- blocks

  function CidrText(network: nat, prefix: nat): string {
    IpText(network) + "/" + Decimal(prefix)
  }

  /** Parsing a block; the address must be the first of its block. */
  function ParseCidr(value: string): (r: Option<Block>)
  {
    var parts := Split(value, '/');
    if |parts| != 2 || !IsNumeral(parts[1], 2) then None else
      var address, prefix := AddressOf(parts[0]), NumeralValue(parts[1]);
      if address.None? || prefix > 32 then None else
        var size := Pow2(32 - prefix);
        var network := address.value / size * size;
        if address.value != network then None
        else Some(Block(CidrText(network, prefix), network, network + size - 1, prefix))
  }

  /** The blocks there are: aligned, inside the address space, with their normal text. */
  predicate IsBlock(b: Block) {
    && b.prefix <= 32 && b.network % Pow2(32 - b.prefix) == 0 && b.network + Pow2(32 - b.prefix) <= ADDRESSES
    && b.broadcast == b.network + Pow2(32 - b.prefix) - 1 && b.cidr == CidrText(b.network, b.prefix)
  }

  lemma AlignedFits(network: nat, prefix: nat)
    requires prefix <= 32 && network < ADDRESSES && network % Pow2(32 - prefix) == 0
    ensures network + Pow2(32 - prefix) <= ADDRESSES
  {
    hide Pow2;
    var size, count := Pow2(32 - prefix), Pow2(prefix);
    Pow2Add(prefix, 32 - prefix);
    Pow2Is32();
    MultipleIsAligned(network, size);
    NextMultiple(network / size, count, size);
  }

  lemma NextMultiple(i: int, n: int, size: int)
    requires size > 0 && i * size < n * size
    ensures i * size + size <= n * size
  {
    MultiplesBelow(i, n, size);
    assert (i + 1) * size == i * size + size;
  }

  lemma Pow2Is32()
    ensures Pow2(32) == ADDRESSES
  {
    assert Pow2(8) == 256;
    Pow2Add(8, 8);
    Pow2Add(16, 16);
  }

  lemma Scale(k: int, size: nat)
    requires k >= 0
    ensures k * size >= 0
  {}

  lemma MultiplesBelow(i: int, n: int, size: int)
    requires size > 0
    ensures i * size < n * size <==> i < n
    ensures i < n ==> (i + 1) * size <= n * size
  {
    if i < n {
      Scale(n - i - 1, size);
      assert n * size == (n - i - 1) * size + (i + 1) * size;
      assert (i + 1) * size == i * size + size;
    } else {
      Scale(i - n, size);
      assert i * size == (i - n) * size + n * size;
    }
  }

  /** A parsed block is a block, and parsing its normal text gives it again. */
  lemma ParseIsIdempotent(value: string)
    requires ParseCidr(value).Some?
    ensures IsBlock(ParseCidr(value).value)
    ensures ParseCidr(ParseCidr(value).value.cidr) == ParseCidr(value)
  {
    hide Split, AddressOf, NumeralValue, CidrText, Pow2;
    var b := ParseCidr(value).value;
    AddressIsSmall(Split(value, '/')[0]);
    MultipleIsAligned(b.network, Pow2(32 - b.prefix));
    AlignedFits(b.network, b.prefix);
    BlockRoundTrip(b);
  }

  lemma MultipleIsAligned(n: nat, size: nat)
    requires size > 0
    ensures n == n / size * size <==> n % size == 0
  {}

  /** Every block is parsed from its normal text. */
  lemma BlockRoundTrip(b: Block)
    requires IsBlock(b)
    ensures ParseCidr(b.cidr) == Some(b)
  {
    hide Decimal, NumeralValue, AddressOf, IpText, Pow2;
    AddressRoundTrip(b.network);
    PrefixText(b.prefix);
    SplitOnePiece(Decimal(b.prefix), '/');
    SplitFirstPiece(IpText(b.network), '/', Decimal(b.prefix));
    assert Split(b.cidr, '/') == [IpText(b.network), Decimal(b.prefix)];
    MultipleIsAligned(b.network, Pow2(32 - b.prefix));
  }

  lemma PrefixText(prefix: nat)
    requires prefix <= 32
    ensures IsNumeral(Decimal(prefix), 2) && NumeralValue(Decimal(prefix)) == prefix && '/' !in Decimal(prefix)
  {
    DecimalRoundTrip(prefix);
    DecimalLength(prefix);
    NoSeparator(Decimal(prefix));
  }

  // ---------------------------------------------------------------- overlap

  predicate Contains(b: Block, address: int) {
    b.network <= address <= b.broadcast
  }

  ghost predicate Covers(outer: Block, inner: Block) {
    forall address :: Contains(inner, address) ==> Contains(outer, address)
  }

  ghost predicate Share(a: Block, b: Block) {
    exists address :: Contains(a, address) && Contains(b, address)
  }

  /** Whether two blocks overlap; fails if one of the texts is not a block. */
  function CidrsOverlap(left: string, right: string): Option<bool> {
    var a, b := ParseCidr(left), ParseCidr(right);
    if a.None? || b.None? then None
    else Some(a.value.network <= b.value.broadcast && b.value.network <= a.value.broadcast)
  }

  /** Blocks are nested or apart, and the comparison of their ends tells which. */
  lemma OverlapIsNesting(left: string, right: string)
    requires CidrsOverlap(left, right).Some?
    ensures var a, b := ParseCidr(left).value, ParseCidr(right).value;
            && (CidrsOverlap(left, right).value <==> Share(a, b))
            && (CidrsOverlap(left, right).value <==> Covers(a, b) || Covers(b, a))
  {
    hide ParseCidr, CidrText;
    var a, b := ParseCidr(left).value, ParseCidr(right).value;
    ParseIsIdempotent(left);
    ParseIsIdempotent(right);
    if a.network <= b.broadcast && b.network <= a.broadcast {
      var address := if a.network <= b.network then b.network else a.network;
      assert Contains(a, address) && Contains(b, address);
      if a.prefix >= b.prefix {
        SmallerIsInside(a, b);
      } else {
        SmallerIsInside(b, a);
      }
    }
    assert Contains(a, a.network) && Contains(b, b.network);
  }

  lemma SmallerIsInside(inner: Block, outer: Block)
    requires IsBlock(inner) && IsBlock(outer) && inner.prefix >= outer.prefix
    requires inner.network <= outer.broadcast && outer.network <= inner.broadcast
    ensures outer.network <= inner.network && inner.broadcast <= outer.broadcast
  {
    hide CidrText, Pow2;
    var s, m := Pow2(32 - inner.prefix), Pow2(inner.prefix - outer.prefix);
    Pow2Add(32 - inner.prefix, inner.prefix - outer.prefix);
    MultipleIsAligned(inner.network, s);
    MultipleIsAligned(outer.network, s * m);
    NestedMultiples(inner.network / s, outer.network / (s * m), s, m);
  }

  lemma NestedMultiples(i: nat, j: nat, s: nat, m: nat)
    requires s > 0 && m > 0
    requires i * s <= j * (s * m) + s * m - 1 && j * (s * m) <= i * s + s - 1
    ensures j * (s * m) <= i * s && i * s + s <= j * (s * m) + s * m
  {
    var first, end := j * m, j * m + m;
    assert j * (s * m) == first * s && j * (s * m) + s * m == end * s;
    MultiplesBelow(i, end, s);
    MultiplesBelow(first, i + 1, s);
    MultiplesBelow(first - 1, i, s);
    assert (i + 1) * s == i * s + s;
    assert first <= i;
    assert (i - first) * s >= 0;
  }

  // ---------------------------------------------------------------- subnets

  function NumberedText(network: nat, size: nat, k: nat, prefix: nat): string {
    Scale(k, size);
    CidrText(network + size * k, prefix)
  }

  /** The text of one of the 2^newBits subnets of a block. */
  function CidrSubnet(base: string, newBits: int, netNum: int): Option<string> {
    var parsed := ParseCidr(base);
    if parsed.None? || newBits < 0 || netNum < 0 then None
    else if parsed.value.prefix + newBits > 32 || netNum >= Pow2(newBits) then None
    else Some(NumberedText(parsed.value.network, Pow2(32 - (parsed.value.prefix + newBits)), netNum,
                           parsed.value.prefix + newBits))
  }

  /** The block that the text of a subnet stands for. */
  function SubnetOf(b: Block, newBits: nat, k: nat): Block
    requires b.prefix + newBits <= 32
  {
    var size := Pow2(32 - (b.prefix + newBits));
    var network := b.network + size * k;
    Block(CidrText(network, b.prefix + newBits), network, network + size - 1, b.prefix + newBits)
  }

  lemma SubnetSizes(b: Block, newBits: nat)
    requires IsBlock(b) && b.prefix + newBits <= 32
    ensures Pow2(32 - b.prefix) == Pow2(newBits) * Pow2(32 - (b.prefix + newBits))
  {
    Pow2Add(newBits, 32 - (b.prefix + newBits));
  }

  lemma SubnetBounds(k: int, count: nat, size: nat)
    requires 0 <= k < count && size > 0
    ensures 0 <= size * k && size * k + size <= count * size
  {
    NextMultiple(k, count, size);
    assert size * k == k * size;
    assert k * size >= 0;
  }

  lemma SumOfMultiples(network: nat, whole: nat, count: nat, size: nat, k: nat)
    requires size > 0 && whole == count * size && whole > 0 && network % whole == 0
    ensures (network + size * k) % size == 0
  {
    MultipleIsAligned(network, whole);
    var j := network / whole;
    assert network == j * (count * size) == (j * count) * size;
    assert network + size * k == (j * count + k) * size;
    MultipleModulus(j * count + k, size);
  }

  lemma MultipleModulus(i: int, size: nat)
    requires size > 0
    ensures (i * size) % size == 0
  {
    var q, r := i * size / size, i * size % size;
    assert i * size == q * size + r;
    assert (i - q) * size == r;
    MultiplesBelow(i - q, 1, size);
    MultiplesBelow(-1, i - q, size);
  }

  /** A subnet is a block again: its text is parsed to an aligned block inside the base block. */
  lemma SubnetIsBlock(base: string, newBits: nat, k: nat)
    requires CidrSubnet(base, newBits, k).Some?
    ensures ParseCidr(base).Some? && ParseCidr(base).value.prefix + newBits <= 32 && k < Pow2(newBits)
    ensures ParseCidr(CidrSubnet(base, newBits, k).value) == Some(SubnetOf(ParseCidr(base).value, newBits, k))
    ensures Covers(ParseCidr(base).value, SubnetOf(ParseCidr(base).value, newBits, k))
  {
    hide ParseCidr, CidrText, Pow2;
    var b := ParseCidr(base).value;
    ParseIsIdempotent(base);
    var size := Pow2(32 - (b.prefix + newBits));
    SubnetSizes(b, newBits);
    SubnetBounds(k, Pow2(newBits), size);
    SumOfMultiples(b.network, Pow2(32 - b.prefix), Pow2(newBits), size, k);
    BlockRoundTrip(SubnetOf(b, newBits, k));
  }

  /** The subnets tile the block: every address of the block is in exactly one of them, and no other address is. */
  lemma SubnetsTile(b: Block, newBits: nat, address: int)
    requires IsBlock(b) && b.prefix + newBits <= 32
    ensures Contains(b, address) <==> exists k :: 0 <= k < Pow2(newBits) && Contains(SubnetOf(b, newBits, k), address)
    ensures forall k: nat, l: nat ::
              Contains(SubnetOf(b, newBits, k), address) && Contains(SubnetOf(b, newBits, l), address) ==> k == l
  {
    hide CidrText, Pow2;
    var size, count := Pow2(32 - (b.prefix + newBits)), Pow2(newBits);
    SubnetSizes(b, newBits);
    if Contains(b, address) {
      var k := (address - b.network) / size;
      QuotientInside(address - b.network, size, count);
      assert Contains(SubnetOf(b, newBits, k), address);
    }
    forall k | 0 <= k < count && Contains(SubnetOf(b, newBits, k), address)
      ensures Contains(b, address)
    {
      SubnetBounds(k, count, size);
    }
    forall k: nat, l: nat | Contains(SubnetOf(b, newBits, k), address) && Contains(SubnetOf(b, newBits, l), address)
      ensures k == l
    {
      SameMultiple(address - b.network, k, l, size);
    }
  }

  lemma QuotientInside(offset: int, size: nat, count: nat)
    requires size > 0 && 0 <= offset < count * size
    ensures 0 <= offset / size < count
    ensures size * (offset / size) <= offset <= size * (offset / size) + size - 1
  {
    assert offset == offset / size * size + offset % size;
    MultiplesBelow(offset / size, count, size);
  }

  lemma SameMultiple(offset: int, k: int, l: int, size: nat)
    requires size > 0
    requires size * k <= offset <= size * k + size - 1 && size * l <= offset <= size * l + size - 1
    ensures k == l
  {
    MultiplesBelow(k, l + 1, size);
    MultiplesBelow(l, k + 1, size);
    assert (l + 1) * size == size * l + size && (k + 1) * size == size * k + size;
  }

  // ---------------------------------------------------------------- the subnets of a network

  datatype Tiers = Tiers(
    includePublic: bool, includeFirewall: bool, includePrivate: bool, includeEndpoints: bool, includeTransit: bool)

  datatype Subnets = Subnets(
    publicBlocks: seq<string>, firewallBlocks: seq<string>, privateBlocks: seq<string>,
    endpointBlocks: seq<string>, transitBlocks: seq<string>)

  /** The number of the subnet of a tier in an availability zone. */
  function NetNum(tier: nat, zone: nat): nat {
    tier * 16 + zone
  }

  predicate TierFits(cidr: string, included: bool, tier: nat, zones: nat) {
    included ==> forall zone :: 0 <= zone < zones ==> CidrSubnet(cidr, 8, NetNum(tier, zone)).Some?
  }

  /** The blocks of a tier, in the order of the zones. */
  ghost predicate IsTier(blocks: seq<string>, cidr: string, included: bool, tier: nat, zones: nat) {
    if included then
      |blocks| == zones && forall zone :: 0 <= zone < zones ==>
        CidrSubnet(cidr, 8, NetNum(tier, zone)) == Some(blocks[zone])
    else
      blocks == []
  }

  /** One subnet is created unless its tier is left out; creation fails with its block. */
  method AddSubnet(blocks: seq<string>, cidr: string, included: bool, tier: nat, zone: nat)
    returns (ok: bool, added: seq<string>)
    requires IsTier(blocks, cidr, included, tier, zone)
    ensures ok <==> (included ==> CidrSubnet(cidr, 8, NetNum(tier, zone)).Some?)
    ensures ok ==> IsTier(added, cidr, included, tier, zone + 1)
  {
    hide CidrSubnet;
    if !included {
      return true, blocks;
    }
    var block := CidrSubnet(cidr, 8, NetNum(tier, zone));
    if block.None? {
      return false, blocks;
    }
    ok, added := true, blocks + [block.value];
  }

  ghost predicate AllFit(cidr: string, tiers: Tiers, zones: nat) {
    && TierFits(cidr, tiers.includePublic, 0, zones) && TierFits(cidr, tiers.includeFirewall, 1, zones)
    && TierFits(cidr, tiers.includePrivate, 2, zones) && TierFits(cidr, tiers.includeEndpoints, 3, zones)
    && TierFits(cidr, tiers.includeTransit, 4, zones)
  }

  ghost predicate AreSubnets(s: Subnets, cidr: string, tiers: Tiers, zones: nat) {
    && IsTier(s.publicBlocks, cidr, tiers.includePublic, 0, zones)
    && IsTier(s.firewallBlocks, cidr, tiers.includeFirewall, 1, zones)
    && IsTier(s.privateBlocks, cidr, tiers.includePrivate, 2, zones)
    && IsTier(s.endpointBlocks, cidr, tiers.includeEndpoints, 3, zones)
    && IsTier(s.transitBlocks, cidr, tiers.includeTransit, 4, zones)
  }

  /** The loop over the availability zones. */
  method CreateSubnets(cidr: string, tiers: Tiers, azCount: int) returns (result: Option<Subnets>)
    ensures result.Some? <==> AllFit(cidr, tiers, if azCount < 0 then 0 else azCount)
    ensures result.Some? ==> AreSubnets(result.value, cidr, tiers, if azCount < 0 then 0 else azCount)
  {
    hide IsTier, CidrSubnet;
    var s := Subnets([], [], [], [], []);
    NoZones(cidr, tiers);
    var index := 0;
    while index < azCount
      invariant 0 <= index && (azCount >= 0 ==> index <= azCount) && (azCount < 0 ==> index == 0)
      invariant AreSubnets(s, cidr, tiers, index) && AllFit(cidr, tiers, index)
    {
      OneMoreZone(cidr, tiers, index);
      var okPublic, publicBlocks := AddSubnet(s.publicBlocks, cidr, tiers.includePublic, 0, index);
      var okFirewall, firewallBlocks := AddSubnet(s.firewallBlocks, cidr, tiers.includeFirewall, 1, index);
      var okPrivate, privateBlocks := AddSubnet(s.privateBlocks, cidr, tiers.includePrivate, 2, index);
      var okEndpoints, endpointBlocks := AddSubnet(s.endpointBlocks, cidr, tiers.includeEndpoints, 3, index);
      var okTransit, transitBlocks := AddSubnet(s.transitBlocks, cidr, tiers.includeTransit, 4, index);
      if !(okPublic && okFirewall && okPrivate && okEndpoints && okTransit) {
        FewerZones(cidr, tiers, index + 1, azCount);
        return None;
      }
      s := Subnets(publicBlocks, firewallBlocks, privateBlocks, endpointBlocks, transitBlocks);
      index := index + 1;
    }
    result := Some(s);
  }

  lemma NoZones(cidr: string, tiers: Tiers)
    ensures AreSubnets(Subnets([], [], [], [], []), cidr, tiers, 0) && AllFit(cidr, tiers, 0)
  {}

  lemma OneMoreZone(cidr: string, tiers: Tiers, zones: nat)
    requires AllFit(cidr, tiers, zones)
    ensures AllFit(cidr, tiers, zones + 1) <==>
            && (tiers.includePublic ==> CidrSubnet(cidr, 8, NetNum(0, zones)).Some?)
            && (tiers.includeFirewall ==> CidrSubnet(cidr, 8, NetNum(1, zones)).Some?)
            && (tiers.includePrivate ==> CidrSubnet(cidr, 8, NetNum(2, zones)).Some?)
            && (tiers.includeEndpoints ==> CidrSubnet(cidr, 8, NetNum(3, zones)).Some?)
            && (tiers.includeTransit ==> CidrSubnet(cidr, 8, NetNum(4, zones)).Some?)
  {
    hide CidrSubnet, NetNum;
  }

  lemma FewerZones(cidr: string, tiers: Tiers, few: nat, many: nat)
    requires few <= many
    ensures AllFit(cidr, tiers, many) ==> AllFit(cidr, tiers, few)
  {
    hide CidrSubnet, NetNum;
  }

  /** Subnets of a block with different numbers are apart. */
  lemma SubnetsAreApart(b: Block, newBits: nat, k: nat, l: nat)
    requires IsBlock(b) && b.prefix + newBits <= 32
    ensures Share(SubnetOf(b, newBits, k), SubnetOf(b, newBits, l)) <==> k == l
  {
    hide CidrText, Pow2;
    if address :| Contains(SubnetOf(b, newBits, k), address) && Contains(SubnetOf(b, newBits, l), address) {
      SubnetsTile(b, newBits, address);
    }
    if k == l {
      assert Contains(SubnetOf(b, newBits, k), SubnetOf(b, newBits, k).network);
    }
  }

  /** A created block is inside the network, and two of them overlap exactly if their numbers are the same. */
  lemma CreatedBlocks(cidr: string, tier: nat, zone: nat, otherTier: nat, otherZone: nat)
    requires CidrSubnet(cidr, 8, NetNum(tier, zone)).Some? && CidrSubnet(cidr, 8, NetNum(otherTier, otherZone)).Some?
    ensures var block, other :=
            CidrSubnet(cidr, 8, NetNum(tier, zone)).value, CidrSubnet(cidr, 8, NetNum(otherTier, otherZone)).value;
            && ParseCidr(cidr).Some? && ParseCidr(block).Some? && CidrsOverlap(block, other).Some?
            && Covers(ParseCidr(cidr).value, ParseCidr(block).value)
            && (CidrsOverlap(block, other).value <==> NetNum(tier, zone) == NetNum(otherTier, otherZone))
  {
    hide ParseCidr, CidrSubnet, SubnetOf, Share, Covers, Pow2;
    var k, l := NetNum(tier, zone), NetNum(otherTier, otherZone);
    SubnetIsBlock(cidr, 8, k);
    SubnetIsBlock(cidr, 8, l);
    ParseIsIdempotent(cidr);
    SubnetsAreApart(ParseCidr(cidr).value, 8, k, l);
    OverlapIsNesting(CidrSubnet(cidr, 8, k).value, CidrSubnet(cidr, 8, l).value);
  }

  /**
   The blocks of two tiers are pairwise apart exactly if there are at most sixteen zones for every step between the
   tiers; so the blocks of all tiers are apart for up to sixteen zones, and neighbouring tiers collide from seventeen
   on.
   */
  lemma TiersAreApart(cidr: string, tier: nat, otherTier: nat, zones: nat)
    requires tier < otherTier && zones > 0
    requires TierFits(cidr, true, tier, zones) && TierFits(cidr, true, otherTier, zones)
    ensures (forall i, j :: 0 <= i < zones && 0 <= j < zones ==>
               CidrsOverlap(CidrSubnet(cidr, 8, NetNum(tier, i)).value,
                            CidrSubnet(cidr, 8, NetNum(otherTier, j)).value) == Some(false))
            <==> zones <= 16 * (otherTier - tier)
  {
    hide CidrSubnet, CidrsOverlap, Covers, ParseCidr;
    forall i, j | 0 <= i < zones && 0 <= j < zones
      ensures CidrsOverlap(CidrSubnet(cidr, 8, NetNum(tier, i)).value, CidrSubnet(cidr, 8, NetNum(otherTier, j)).value)
              == Some(i == j + 16 * (otherTier - tier))
    {
      CreatedBlocks(cidr, tier, i, otherTier, j);
    }
    var step := 16 * (otherTier - tier);
    if zones > step {
      assert CidrsOverlap(CidrSubnet(cidr, 8, NetNum(tier, step)).value,
                          CidrSubnet(cidr, 8, NetNum(otherTier, 0)).value) == Some(true);
    }
  }

  // ---------------------------------------------------------------- all subnets of a network

  /**
   A tier fits exactly if it is empty or the network leaves eight bits and the numbers of the tier stay below 256. So
   every tier fits into a network with a prefix of at most 24 for up to sixteen zones.
   */
  lemma TierFitsExactly(cidr: string, tier: nat, zones: nat)
    ensures TierFits(cidr, true, tier, zones) <==>
            zones == 0 || (ParseCidr(cidr).Some? && ParseCidr(cidr).value.prefix <= 24 && NetNum(tier, zones) <= 256)
  {
    hide ParseCidr, CidrText;
    assert Pow2(8) == 256;
    if zones > 0 && TierFits(cidr, true, tier, zones) {
      assert CidrSubnet(cidr, 8, NetNum(tier, zones - 1)).Some?;
    }
  }

  /**
   Creation succeeds for a network with a prefix of at most 24 and up to sixteen zones, whatever tiers are included.
   */
  lemma CreationSucceeds(cidr: string, tiers: Tiers, zones: nat)
    requires ParseCidr(cidr).Some? && ParseCidr(cidr).value.prefix <= 24 && zones <= 16
    ensures AllFit(cidr, tiers, zones)
  {
    hide ParseCidr, CidrSubnet;
    TierFitsExactly(cidr, 0, zones);
    TierFitsExactly(cidr, 1, zones);
    TierFitsExactly(cidr, 2, zones);
    TierFitsExactly(cidr, 3, zones);
    TierFitsExactly(cidr, 4, zones);
  }

  /** Subnets of a network by number: increasing, and all below a bound. */
  ghost predicate IsNumbered(blocks: seq<string>, numbers: seq<nat>, cidr: string, bound: nat) {
    && |blocks| == |numbers|
    && (forall i :: 0 <= i < |blocks| ==> CidrSubnet(cidr, 8, numbers[i]) == Some(blocks[i]) && numbers[i] < bound)
    && forall i, j :: 0 <= i < j < |blocks| ==> numbers[i] < numbers[j]
  }

  lemma OneMoreTier(blocks: seq<string>, numbers: seq<nat>, cidr: string, more: seq<string>, included: bool,
                    tier: nat, zones: nat)
    returns (all: seq<nat>)
    requires IsNumbered(blocks, numbers, cidr, NetNum(tier, 0)) && IsTier(more, cidr, included, tier, zones)
             && zones <= 16
    ensures IsNumbered(blocks + more, all, cidr, NetNum(tier + 1, 0))
  {
    hide CidrSubnet;
    all := numbers + seq(|more|, zone requires 0 <= zone < |more| => NetNum(tier, zone));
  }

  function AllBlocks(s: Subnets): seq<string> {
    s.publicBlocks + s.firewallBlocks + s.privateBlocks + s.endpointBlocks + s.transitBlocks
  }

  ghost predicate IsInside(block: string, cidr: string) {
    ParseCidr(cidr).Some? && ParseCidr(block).Some? && Covers(ParseCidr(cidr).value, ParseCidr(block).value)
  }

  /** All subnets made for one network and up to sixteen zones are inside the network and pairwise apart. */
  lemma CreatedSubnetsAreApart(s: Subnets, cidr: string, tiers: Tiers, zones: nat)
    requires AreSubnets(s, cidr, tiers, zones) && zones <= 16
    ensures forall i :: 0 <= i < |AllBlocks(s)| ==> IsInside(AllBlocks(s)[i], cidr)
    ensures forall i, j :: 0 <= i < j < |AllBlocks(s)| ==> CidrsOverlap(AllBlocks(s)[i], AllBlocks(s)[j]) == Some(false)
  {
    hide CidrSubnet, CidrsOverlap, Covers, ParseCidr, IsTier;
    var numbers := OneMoreTier([], [], cidr, s.publicBlocks, tiers.includePublic, 0, zones);
    assert [] + s.publicBlocks == s.publicBlocks;
    numbers := OneMoreTier(s.publicBlocks, numbers, cidr, s.firewallBlocks, tiers.includeFirewall, 1, zones);
    var two := s.publicBlocks + s.firewallBlocks;
    numbers := OneMoreTier(two, numbers, cidr, s.privateBlocks, tiers.includePrivate, 2, zones);
    numbers := OneMoreTier(two + s.privateBlocks, numbers, cidr, s.endpointBlocks, tiers.includeEndpoints, 3, zones);
    numbers :=
      OneMoreTier(two + s.privateBlocks + s.endpointBlocks, numbers, cidr, s.transitBlocks, tiers.includeTransit, 4,
                  zones);
    NumberedAreApart(AllBlocks(s), numbers, cidr, NetNum(5, 0));
  }

  lemma NumberedAreApart(blocks: seq<string>, numbers: seq<nat>, cidr: string, bound: nat)
    requires IsNumbered(blocks, numbers, cidr, bound)
    ensures forall i :: 0 <= i < |blocks| ==> IsInside(blocks[i], cidr)
    ensures forall i, j :: 0 <= i < j < |blocks| ==> CidrsOverlap(blocks[i], blocks[j]) == Some(false)
  {
    hide CidrSubnet, CidrsOverlap, Covers, ParseCidr;
    forall i, j | 0 <= i <= j < |blocks|
      ensures IsInside(blocks[i], cidr) && CidrsOverlap(blocks[i], blocks[j]) == Some(i == j)
    {
      assert NetNum(0, numbers[i]) == numbers[i] && NetNum(0, numbers[j]) == numbers[j];
      CreatedBlocks(cidr, 0, numbers[i], 0, numbers[j]);
    }
    forall i | 0 <= i < |blocks|
      ensures IsInside(blocks[i], cidr)
    {
      assert CidrsOverlap(blocks[i], blocks[i]) == Some(i == i);
    }
  }

  // ---------------------------------------------------------------- what the texts mean

  /** The number of an address, most significant octet first. */
  function FromQuad(a: nat, b: nat, c: nat, d: nat): nat {
    16777216 * a + 65536 * b + 256 * c + d
  }

  ghost predicate IsQuad(ip: string, a: string, b: string, c: string, d: string) {
    ip == a + "." + b + "." + c + "." + d && IsOctet(a) && IsOctet(b) && IsOctet(c) && IsOctet(d)
  }

  ghost predicate IsAddressText(ip: string, n: nat, a: string, b: string, c: string, d: string) {
    IsQuad(ip, a, b, c, d) && n == FromQuad(NumeralValue(a), NumeralValue(b), NumeralValue(c), NumeralValue(d))
  }

  /** An address is four octets with dots between them, the most significant first, and nothing else is one. */
  lemma AddressMeans(ip: string, n: nat)
    ensures AddressOf(ip) == Some(n) <==>
              exists a, b, c, d :: IsAddressText(ip, n, a, b, c, d)
  {
    hide Split, NumeralValue, Append;
    if AddressOf(ip) == Some(n) {
      var parts := Split(ip, '.');
      SplitIsExact(ip, '.');
      FourJoined(parts);
      AppendedQuad(NumeralValue(parts[0]), NumeralValue(parts[1]), NumeralValue(parts[2]), NumeralValue(parts[3]));
      assert IsAddressText(ip, n, parts[0], parts[1], parts[2], parts[3]);
    }
    if a, b, c, d :| IsAddressText(ip, n, a, b, c, d) {
      QuadIsRead(ip, a, b, c, d);
    }
  }

  lemma FourJoined(parts: seq<string>)
    requires |parts| == 4
    ensures Joined(parts, '.') == parts[0] + "." + parts[1] + "." + parts[2] + "." + parts[3]
  {
    assert parts[1..][1..] == parts[2..] && parts[2..][1..] == parts[3..];
    assert Joined(parts[3..], '.') == parts[3];
    assert Joined(parts[2..], '.') == parts[2] + "." + parts[3];
    assert Joined(parts[1..], '.') == parts[1] + "." + (parts[2] + "." + parts[3]);
  }

  lemma AppendedQuad(a: nat, b: nat, c: nat, d: nat)
    requires a <= 255 && b <= 255 && c <= 255 && d <= 255
    ensures Append(Append(Append(Append(0, a), b), c), d) == FromQuad(a, b, c, d) < ADDRESSES
  {}

  lemma QuadText(a: string, b: string, c: string, d: string)
    ensures a + "." + b + "." + c + "." + d == a + ['.'] + (b + ['.'] + (c + ['.'] + d))
  {}

  lemma QuadIsRead(ip: string, a: string, b: string, c: string, d: string)
    requires IsQuad(ip, a, b, c, d)
    ensures AddressOf(ip) == Some(FromQuad(NumeralValue(a), NumeralValue(b), NumeralValue(c), NumeralValue(d)))
  {
    hide NumeralValue, Append, IsOctet, Split, AddressOf, FromQuad;
    OctetHasNoDot(a);
    OctetHasNoDot(b);
    OctetHasNoDot(c);
    OctetHasNoDot(d);
    SplitOnePiece(d, '.');
    SplitFirstPiece(c, '.', d);
    SplitFirstPiece(b, '.', c + ['.'] + d);
    SplitFirstPiece(a, '.', b + ['.'] + (c + ['.'] + d));
    QuadText(a, b, c, d);
    assert [a] + ([b] + ([c] + [d])) == [a, b, c, d];
    FourOctets(ip, a, b, c, d);
  }

  lemma FourOctets(ip: string, a: string, b: string, c: string, d: string)
    requires Split(ip, '.') == [a, b, c, d] && IsOctet(a) && IsOctet(b) && IsOctet(c) && IsOctet(d)
    ensures AddressOf(ip) == Some(FromQuad(NumeralValue(a), NumeralValue(b), NumeralValue(c), NumeralValue(d)))
  {
    hide NumeralValue, Append, Split, FromQuad;
    var parts := Split(ip, '.');
    assert parts[0] == a && parts[1] == b && parts[2] == c && parts[3] == d;
    assert forall k :: 0 <= k < |parts| ==> IsOctet(parts[k]);
    var v0, v1, v2, v3 := NumeralValue(a), NumeralValue(b), NumeralValue(c), NumeralValue(d);
    assert AddressOf(ip) == Some(Append(Append(Append(Append(0, v0), v1), v2), v3));
    hide AddressOf;
    AppendedQuad(v0, v1, v2, v3);
  }

  lemma OctetHasNoDot(s: string)
    requires IsOctet(s)
    ensures '.' !in s && NumeralValue(s) <= 255
  {
    hide NumeralValue;
    NoSeparator(s);
  }

  /** The text of a block is an address without host bits, a slash and a prefix length. */
  ghost predicate IsBlockText(value: string, b: Block, ip: string, length: string) {
    && value == ip + "/" + length && IsNumeral(length, 2) && '/' !in ip
    && b.prefix == NumeralValue(length) <= 32 && AddressOf(ip) == Some(b.network)
    && b.network % Pow2(32 - b.prefix) == 0 && b.broadcast == b.network + Pow2(32 - b.prefix) - 1
    && b.cidr == IpText(b.network) + "/" + Decimal(b.prefix)
  }

  lemma BlockMeans(value: string, b: Block)
    ensures ParseCidr(value) == Some(b) <==> exists ip, length :: IsBlockText(value, b, ip, length)
  {
    hide Split, NumeralValue, AddressOf, IpText, Decimal, Pow2, IsBlockText;
    if ParseCidr(value) == Some(b) {
      ParsedText(value, b);
    }
    if ip, length :| IsBlockText(value, b, ip, length) {
      TextIsParsed(value, b, ip, length);
    }
  }

  lemma ParsedText(value: string, b: Block)
    requires ParseCidr(value) == Some(b)
    ensures |Split(value, '/')| == 2 && IsBlockText(value, b, Split(value, '/')[0], Split(value, '/')[1])
  {
    hide Split, NumeralValue, AddressOf, IpText, Decimal, Pow2;
    SplitIsExact(value, '/');
    TwoJoined(Split(value, '/'));
    MultipleIsAligned(b.network, Pow2(32 - b.prefix));
  }

  lemma TextIsParsed(value: string, b: Block, ip: string, length: string)
    requires IsBlockText(value, b, ip, length)
    ensures ParseCidr(value) == Some(b)
  {
    hide Split, NumeralValue, AddressOf, IpText, Decimal, Pow2;
    NoSeparator(length);
    SplitOnePiece(length, '/');
    SplitFirstPiece(ip, '/', length);
    assert value == ip + ['/'] + length;
    MultipleIsAligned(b.network, Pow2(32 - b.prefix));
  }

  lemma TwoJoined(parts: seq<string>)
    requires |parts| == 2
    ensures Joined(parts, '/') == parts[0] + "/" + parts[1]
  {
    assert Joined(parts[1..], '/') == parts[1];
  }

  /** A subnet of a block in text form: the numbered one, in dotted notation. */
  lemma SubnetExample()
    ensures ParseCidr("10.0.0.0/16") == Some(Block("10.0.0.0/16", 167772160, 167837695, 16))
    ensures CidrSubnet("10.0.0.0/16", 8, 18) == Some("10.0.18.0/24")
  {
    hide ParseCidr, CidrSubnet, AddressOf, IpText, Pow2;
    Powers();
    Numerals();
    TenZeros();
    assert "10.0.0.0/16" == "10.0.0.0" + "/" + "16";
    assert '/' !in "10.0.0.0";
    assert IsBlockText("10.0.0.0/16", Block("10.0.0.0/16", 167772160, 167837695, 16), "10.0.0.0", "16");
    BlockMeans("10.0.0.0/16", Block("10.0.0.0/16", 167772160, 167837695, 16));
    NumberedSubnet();
  }

  lemma TenZeros()
    ensures AddressOf("10.0.0.0") == Some(167772160)
    ensures IpText(167772160) == "10.0.0.0" && IpText(167776768) == "10.0.18.0"
  {
    hide AddressOf;
    Numerals();
    assert "10.0.0.0" == "10" + "." + "0" + "." + "0" + "." + "0";
    QuadIsRead("10.0.0.0", "10", "0", "0", "0");
    hide Decimal, NumeralValue;
    assert Octet(167772160, 0) == 10 && Octet(167772160, 1) == 0 && Octet(167772160, 2) == 0
           && Octet(167772160, 3) == 0;
    assert Octet(167776768, 0) == 10 && Octet(167776768, 1) == 0 && Octet(167776768, 2) == 18
           && Octet(167776768, 3) == 0;
  }

  lemma NumberedSubnet()
    requires ParseCidr("10.0.0.0/16") == Some(Block("10.0.0.0/16", 167772160, 167837695, 16))
    requires IpText(167776768) == "10.0.18.0" && Decimal(24) == "24" && Pow2(8) == 256
    ensures CidrSubnet("10.0.0.0/16", 8, 18) == Some("10.0.18.0/24")
  {
    hide ParseCidr, IpText, Decimal, Pow2;
    assert NumberedText(167772160, 256, 18, 24) == IpText(167776768) + "/" + Decimal(24);
    assert "10.0.18.0" + "/" + "24" == "10.0.18.0/24";
  }

  lemma Powers()
    ensures Pow2(8) == 256 && Pow2(16) == 65536
  {
    assert Pow2(4) == 16;
    Pow2Add(4, 4);
    Pow2Add(8, 8);
  }

  lemma Numerals()
    ensures Decimal(0) == "0" && Decimal(10) == "10" && Decimal(16) == "16" && Decimal(18) == "18"
            && Decimal(24) == "24"
    ensures IsOctet("10") && IsOctet("0") && IsNumeral("16", 2)
    ensures NumeralValue("0") == 0 && NumeralValue("10") == 10 && NumeralValue("16") == 16
  {
    DecimalRoundTrip(0);
    DecimalRoundTrip(10);
    DecimalRoundTrip(16);
  }
}
