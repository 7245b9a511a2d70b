/** parse_ip_line: one line of a scope file to the list of IPv4 addresses it
    names. Blank and comment lines name nothing; `first-last` names the
    inclusive interval; `a.b.c.d/n` and a bare `a.b.c.d` name every address of
    the (non-strictly parsed) network; anything else names nothing. */
module LineParser {
  import opened Wrappers
  import opened Text
  import opened Ipv4

  /** The addresses of a range: every address from first to last inclusive,
      ascending, and none when last is below first. */
  function AddressRange(first: Address, last: Address): (r: seq<Address>)
    ensures StrictlyAscending(r)
  {
    if first <= last then seq(last - first + 1, i requires 0 <= i < last - first + 1 => (first + i) as Address)
    else []
  }

  /** After stripping: empty, or starting with '#' or '//'. */
  predicate IsCommentOrBlank(t: string) {
    t == [] || StartsWith(t, "#") || StartsWith(t, "//")
  }

  /** The `try` block for a line holding a dash: `start, end = t.split('-')`
      fails unless there is exactly one dash, and both sides, stripped, must
      be addresses. Every failure gives the empty list. */
  function ParseRangeText(t: string): (r: seq<Address>)
    ensures StrictlyAscending(r)
  {
    var parts := Split(t, '-');
    if |parts| != 2 then []
    else
      match (ParseAddress(Strip(parts[0])), ParseAddress(Strip(parts[1])))
      case (Some(first), Some(last)) => AddressRange(first, last)
      case _ => []
  }

  /** The `try` blocks for any other line: ip_network(t, strict=False), and
      on failure IPv4Address(t). */
  function ParseNetworkText(t: string): (r: seq<Address>)
    ensures StrictlyAscending(r)
  {
    match ParseNetwork(Strip(t))
    case Some(n) => AddressesAscending(n); Addresses(n)
    case None =>
      match ParseAddress(Strip(t))
      case Some(a) => [a]
      case None => []
  }

  lemma AddressesAscending(n: Network)
    requires Aligned(n)
    ensures StrictlyAscending(Addresses(n))
  {
  }

  function ParseIpLine(line: string): (r: seq<Address>)
    ensures StrictlyAscending(r)
    ensures IsCommentOrBlank(Strip(line)) ==> r == []
  {
    var t := Strip(line);
    if IsCommentOrBlank(t) then []
    else if '-' in t then ParseRangeText(t)
    else ParseNetworkText(t)
  }

  /** The text of a network starts with a digit and has no '-'. */
  lemma NetworkText(t: string)
    requires ParseNetwork(t).Some?
    ensures t != [] && IsDigit(t[0]) && '-' !in t && !IsCommentOrBlank(t) && Trimmed(t)
  {
    var parts := Split(t, '/');
    JoinSplit(t, '/');
    AddressText(parts[0]);
    if |parts| == 2 {
      assert Join(parts[1..], '/') == parts[1];
      assert t == parts[0] + "/" + parts[1];
      NetworkTextChars(parts[0], parts[1]);
      NetworkCharsAreInert(t);
    } else {
      assert t == parts[0];
    }
  }

  /** A well-formed range line names the interval between its endpoints
      (RangeMembers: exactly the addresses from first to last, none when the
      range is reversed). */
  lemma RangeLine(line: string, k: nat, first: Address, last: Address)
    requires k < |Strip(line)| && Strip(line)[k] == '-'
    requires '-' !in Strip(line)[..k] && '-' !in Strip(line)[k + 1..]
    requires ParseAddress(Strip(Strip(line)[..k])) == Some(first)
    requires ParseAddress(Strip(Strip(line)[k + 1..])) == Some(last)
    ensures ParseIpLine(line) == AddressRange(first, last)
  {
    var t := Strip(line);
    NotCommentBeforeAddress(t, k);
    assert '-' in t;
    RangeText(t, k, first, last);
  }

  lemma RangeText(t: string, k: nat, first: Address, last: Address)
    requires k < |t| && t[k] == '-' && '-' !in t[..k] && '-' !in t[k + 1..]
    requires ParseAddress(Strip(t[..k])) == Some(first)
    requires ParseAddress(Strip(t[k + 1..])) == Some(last)
    ensures ParseRangeText(t) == AddressRange(first, last)
  {
    SplitAtOnlySeparator(t, '-', k);
  }

  lemma RangeMembers(first: Address, last: Address)
    ensures forall a: Address :: a in AddressRange(first, last) <==> first <= a <= last
    ensures |AddressRange(first, last)| == if first <= last then last - first + 1 else 0
  {
    var r := AddressRange(first, last);
    forall a: Address | first <= a <= last ensures a in r {
      assert r[a - first] == a;
    }
  }

  /** If the text before a dash is an address, the stripped line starts
      with a digit, so it is not a comment. */
  lemma NotCommentBeforeAddress(t: string, k: nat)
    requires Trimmed(t) && k <= |t|
    requires ParseAddress(Strip(t[..k])).Some?
    ensures !IsCommentOrBlank(t)
  {
    assert DottedDigits(Strip(t[..k])) by {
      AddressText(Strip(t[..k]));
    }
    StripStartsAtFront(t, k);
    DigitFirstIsNoComment(t);
  }

  /** A line that starts with a digit is neither blank nor a comment. */
  lemma DigitFirstIsNoComment(t: string)
    requires t != [] && IsDigit(t[0])
    ensures !IsCommentOrBlank(t)
  {
    assert t[0] != '#' && t[0] != '/';
  }

  /** When the text before position k of a trimmed line strips to something
      that starts with a digit, the line itself starts with that digit. */
  lemma StripStartsAtFront(t: string, k: nat)
    requires Trimmed(t) && k <= |t|
    requires DottedDigits(Strip(t[..k]))
    ensures t != [] && IsDigit(t[0])
  {
    var left := t[..k];
    var s := Strip(left);
    assert left != [] && left[0] == t[0];
    DigitIsNotSpace(s[0]);
    assert LeadingSpace(left) == 0;
    StripRemovesOuterSpace(left);
    assert s[0] == left[0];
  }

  /** A line with two or more dashes names nothing. */
  lemma MultipleDashLine(line: string, i: nat, j: nat)
    requires i < j < |Strip(line)| && Strip(line)[i] == '-' && Strip(line)[j] == '-'
    ensures ParseIpLine(line) == []
  {
    var t := Strip(line);
    var parts := Split(t, '-');
    JoinSplit(t, '-');
    if |parts| == 2 && !IsCommentOrBlank(t) {
      assert Join(parts[1..], '-') == parts[1];
      assert t == parts[0] + ['-'] + parts[1];
      DashPosition(parts[0], parts[1], i);
      DashPosition(parts[0], parts[1], j);
      assert false;
    }
  }

  lemma DashPosition(p: string, q: string, i: nat)
    requires '-' !in p && '-' !in q && i < |p + ['-'] + q| && (p + ['-'] + q)[i] == '-'
    ensures i == |p|
  {
  }

  /** A one-dash line with an endpoint that is not an address names nothing. */
  lemma BadEndpointLine(line: string, k: nat)
    requires k < |Strip(line)| && Strip(line)[k] == '-'
    requires '-' !in Strip(line)[..k] && '-' !in Strip(line)[k + 1..]
    requires ParseAddress(Strip(Strip(line)[..k])).None? || ParseAddress(Strip(Strip(line)[k + 1..])).None?
    ensures ParseIpLine(line) == []
  {
    SplitAtOnlySeparator(Strip(line), '-', k);
  }

  /** A network line names every address of the network: the network
      address, the broadcast address and everything between, ascending
      (Ipv4.AddressesMembers). */
  lemma NetworkLine(line: string, n: Network)
    requires ParseNetwork(Strip(line)) == Some(n)
    ensures ParseIpLine(line) == Addresses(n)
  {
    NetworkText(Strip(line));
  }

  /** `a.b.c.d/n` names the 2^(32-n) addresses of the block that contains
      a.b.c.d: host bits in the written address are ignored. */
  lemma CidrLine(line: string, x: string, y: string, a: Address, p: PrefixLength)
    requires Strip(line) == x + "/" + y
    requires ParseAddress(x) == Some(a) && ParsePrefixLength(y) == Some(p)
    ensures ParseIpLine(line) == Addresses(Block(a, p))
  {
    var n := Block(a, p);
    assert ParseNetwork(Strip(line)) == Some(n) by {
      ParseNetworkMasksHostBits(x, y, a, p);
    }
    NetworkText(Strip(line));
  }

  /** A bare address names itself alone (it is the /32 network). */
  lemma BareAddressLine(line: string, a: Address)
    requires ParseAddress(Strip(line)) == Some(a)
    ensures ParseIpLine(line) == [a]
  {
    ParseNetworkOfAddress(Strip(line), a);
    NetworkLine(line, Network(a, 32));
    AddressesMembers(Network(a, 32));
  }

  /** A dash-free line that is not a network names nothing; the fallback to
      a single address never succeeds where the network parse failed. */
  lemma UnparsableLine(line: string)
    requires '-' !in Strip(line) && ParseNetwork(Strip(line)).None?
    ensures ParseIpLine(line) == []
  {
    var t := Strip(line);
    if ParseAddress(t).Some? {
      ParseNetworkOfAddress(t, ParseAddress(t).value);
      assert false;
    }
  }
}
