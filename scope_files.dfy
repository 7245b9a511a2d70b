/** The text of the two kinds of artifact: write_aggregated_scope_file writes
    one collapsed network per line; write_individual_ip_file writes one
    address per line. Both order by integer value and end every line with a
    newline. */
module ScopeFiles {
  import opened Text
  import opened Ipv4
  import opened LineParser
  import opened Collector
  import opened Aggregate

  /** sorted(ip_set, key=int): the members of the set in ascending order. */
  function SortedAddresses(ips: set<Address>): (r: seq<Address>)
    ensures StrictlyAscending(r)
    ensures forall a :: a in r <==> a in ips
    decreases ips
  {
    if ips == {} then []
    else
      LeastIsUnique(ips);
      var m :| m in ips && forall x :: x in ips ==> m <= x;
      var rest := SortedAddresses(ips - {m});
      PrependSmaller(m, rest);
      [m] + rest
  }

  lemma LeastIsUnique(ips: set<Address>)
    requires ips != {}
    ensures Minimum(ips) in ips && forall x :: x in ips ==> Minimum(ips) <= x
    ensures forall m :: m in ips && (forall x :: x in ips ==> m <= x) ==> m == Minimum(ips)
  {
  }

  lemma PrependSmaller(m: Address, rest: seq<Address>)
    requires StrictlyAscending(rest) && forall x :: x in rest ==> m < x
    ensures StrictlyAscending([m] + rest)
  {
    var r := [m] + rest;
    forall i, j | 0 <= i < j < |r| ensures r[i] < r[j] {
      assert r[j] == rest[j - 1];
      if i > 0 {
        assert r[i] == rest[i - 1];
      } else {
        assert rest[j - 1] in rest;
      }
    }
  }

  /** Each member is listed once. */
  lemma {:induction false} SortedLength(ips: set<Address>)
    ensures |SortedAddresses(ips)| == |ips|
    decreases ips
  {
    if ips != {} {
      LeastIsUnique(ips);
      var r := SortedAddresses(ips);
      var m := r[0];
      assert r[1..] == SortedAddresses(ips - {m});
      SortedLength(ips - {m});
    }
  }

  /** The least member of a non-empty set. */
  ghost function Minimum(ips: set<Address>): (m: Address)
    requires ips != {}
    ensures m in ips && forall x :: x in ips ==> m <= x
    decreases ips
  {
    var y :| y in ips;
    var rest := ips - {y};
    assert forall x :: x in ips ==> x == y || x in rest;
    if rest == {} then y
    else
      var m := Minimum(rest);
      if y < m then y else m
  }

  /** A line of an artifact: the text followed by a newline. */
  function Line(text: string): string {
    text + "\n"
  }

  /** One line per network, in order. */
  function NetworkLines(networks: seq<Network>): (r: seq<string>)
  {
    seq(|networks|, i requires 0 <= i < |networks| => Line(FormatNetwork(networks[i])))
  }

  /** One line per address, in order. */
  function AddressLines(addresses: seq<Address>): (r: seq<string>)
  {
    seq(|addresses|, i requires 0 <= i < |addresses| => Line(FormatAddress(addresses[i])))
  }

  /** The lines write_aggregated_scope_file writes for ip_set. */
  function AggregatedLines(ips: set<Address>): seq<string> {
    NetworkLines(Collapse(SortedAddresses(ips)))
  }

  /** The lines write_individual_ip_file writes for ip_set. */
  function IndividualLines(ips: set<Address>): seq<string> {
    AddressLines(SortedAddresses(ips))
  }

  /** write_aggregated_scope_file: collapse the sorted addresses, then write
      one line per network. */
  method WriteAggregatedScope(ips: set<Address>) returns (lines: seq<string>)
    ensures lines == AggregatedLines(ips)
  {
    var networks := Collapse(SortedAddresses(ips));
    lines := WriteNetworkLines(networks);
  }

  /** The loop of write_aggregated_scope_file: `str(network)` and a newline
      for each network, in order. */
  method WriteNetworkLines(networks: seq<Network>) returns (lines: seq<string>)
    ensures lines == NetworkLines(networks)
  {
    lines := [];
    for i := 0 to |networks|
      invariant |lines| == i
      invariant forall j :: 0 <= j < i ==> lines[j] == Line(FormatNetwork(networks[j]))
    {
      lines := lines + [Line(FormatNetwork(networks[i]))];
    }
  }

  /** write_individual_ip_file: write the addresses in ascending order. */
  method WriteIndividualIps(ips: set<Address>) returns (lines: seq<string>)
    ensures lines == IndividualLines(ips)
  {
    var sorted := SortedAddresses(ips);
    lines := WriteAddressLines(sorted);
  }

  /** The loop of write_individual_ip_file: `str(ip)` and a newline for each
      address, in order. */
  method WriteAddressLines(addresses: seq<Address>) returns (lines: seq<string>)
    ensures lines == AddressLines(addresses)
  {
    lines := [];
    for i := 0 to |addresses|
      invariant |lines| == i
      invariant forall j :: 0 <= j < i ==> lines[j] == Line(FormatAddress(addresses[j]))
    {
      lines := lines + [Line(FormatAddress(addresses[i]))];
    }
  }

  /** A written network line reads back as the addresses of the network. */
  lemma NetworkLineReadsBack(n: Network)
    requires Aligned(n)
    ensures ParseIpLine(Line(FormatNetwork(n))) == Addresses(n)
  {
    var t := FormatNetwork(n);
    ParseFormatNetwork(n);
    NetworkText(t);
    StripTrailingSpace(t, '\n');
    NetworkLine(Line(t), n);
  }

  /** A written address line reads back as that address alone. */
  lemma AddressLineReadsBack(a: Address)
    ensures ParseIpLine(Line(FormatAddress(a))) == [a]
  {
    var t := FormatAddress(a);
    ParseFormatAddress(a);
    AddressText(t);
    StripTrailingSpace(t, '\n');
    BareAddressLine(Line(t), a);
  }

  /** An address is in the expansion exactly when one of the blocks holds it. */
  lemma {:induction false} ExpandMembers(blocks: seq<Network>, a: Address)
    requires forall j :: 0 <= j < |blocks| ==> Aligned(blocks[j])
    ensures a in Expand(blocks) <==> exists j :: 0 <= j < |blocks| && a in Addresses(blocks[j])
    decreases |blocks|
  {
    if blocks != [] {
      var rest := blocks[1..];
      ExpandMembers(rest, a);
      assert Expand(blocks) == Addresses(blocks[0]) + Expand(rest);
      if exists j :: 0 <= j < |blocks| && a in Addresses(blocks[j]) {
        var j :| 0 <= j < |blocks| && a in Addresses(blocks[j]);
        if j > 0 {
          assert rest[j - 1] == blocks[j];
        }
      }
      if a in Expand(rest) {
        var j :| 0 <= j < |rest| && a in Addresses(rest[j]);
        assert blocks[j + 1] == rest[j];
      }
    }
  }

  /** Reading the aggregated scope file back collects exactly ip_set. */
  lemma AggregatedReadsBack(ips: set<Address>)
    ensures Collected(AggregatedLines(ips)) == ips
  {
    var sorted := SortedAddresses(ips);
    NetworkLinesReadBack(Collapse(sorted));
  }

  /** Reading an individual-address file back collects exactly ip_set. */
  lemma IndividualReadsBack(ips: set<Address>)
    ensures Collected(IndividualLines(ips)) == ips
  {
    AddressLinesReadBack(SortedAddresses(ips));
  }

  /** Lines written for a list of networks read back as the addresses of
      those networks. */
  lemma NetworkLinesReadBack(networks: seq<Network>)
    requires forall j :: 0 <= j < |networks| ==> Aligned(networks[j])
    ensures forall a :: a in Collected(NetworkLines(networks)) <==> a in Expand(networks)
  {
    var lines := NetworkLines(networks);
    forall i | 0 <= i < |lines| ensures ParseIpLine(lines[i]) == Addresses(networks[i]) {
      NetworkLineReadsBack(networks[i]);
    }
    forall a: Address ensures a in Collected(lines) <==> a in Expand(networks) {
      CollectedMembers(lines, a);
      ExpandMembers(networks, a);
    }
  }

  /** Lines written for a list of addresses read back as those addresses. */
  lemma AddressLinesReadBack(addresses: seq<Address>)
    ensures forall a :: a in Collected(AddressLines(addresses)) <==> a in addresses
  {
    var lines := AddressLines(addresses);
    var singletons := seq(|addresses|, i requires 0 <= i < |addresses| => [addresses[i]]);
    forall i | 0 <= i < |lines| ensures ParsedLines(lines)[i] == singletons[i] {
      AddressLineReadsBack(addresses[i]);
    }
    assert ParsedLines(lines) == singletons;
    assert Collected(lines) == Union(singletons);
    forall a: Address ensures a in Union(singletons) <==> a in addresses {
      UnionOfSingletons(addresses, singletons, a);
    }
  }

  lemma UnionOfSingletons(addresses: seq<Address>, singletons: seq<seq<Address>>, a: Address)
    requires |singletons| == |addresses|
    requires forall i :: 0 <= i < |addresses| ==> singletons[i] == [addresses[i]]
    ensures a in Union(singletons) <==> a in addresses
  {
    UnionMembers(singletons, a);
    if a in addresses {
      var i :| 0 <= i < |addresses| && addresses[i] == a;
      assert a in singletons[i];
    }
  }

  /** The aggregated file lists its networks in ascending order of base
      address, without overlap. */
  lemma AggregatedOrdered(ips: set<Address>, i: nat, j: nat)
    requires i < j < |Collapse(SortedAddresses(ips))|
    ensures var networks := Collapse(SortedAddresses(ips));
      networks[i].base + Size(networks[i]) <= networks[j].base
  {
    CollapseOrdered(SortedAddresses(ips), i, j);
  }

  /** The listed networks hold exactly the addresses of ip_set: every
      address lies in one of them and they hold no other address. */
  lemma AggregatedCovers(ips: set<Address>, a: Address)
    ensures var networks := Collapse(SortedAddresses(ips));
      a in ips <==> exists j :: 0 <= j < |networks| && a in Addresses(networks[j])
  {
    var sorted := SortedAddresses(ips);
    var networks := Collapse(sorted);
    assert a in ips <==> a in Expand(networks);
    ExpandMembers(networks, a);
  }

  /** A one-address scope is written as the single line `a.b.c.d/32`. */
  lemma AggregatedSingleton(a: Address)
    ensures AggregatedLines({a}) == [Line(FormatNetwork(Network(a, 32)))]
  {
    assert SortedAddresses({a}) == [a] by {
      assert {a} - {a} == {};
    }
    CollapseSingleton(a);
  }

  /** Each listed network is maximal: it does not lie inside a larger
      network that the addresses fill. */
  lemma AggregatedMaximal(ips: set<Address>)
    ensures var networks := Collapse(SortedAddresses(ips));
      forall j :: 0 <= j < |networks| ==> Maximal(networks[j], ips)
  {
    CollapseMaximal(SortedAddresses(ips), ips);
  }
}
