/** ipaddress.collapse_addresses on a sorted list of distinct addresses: the
    list is cut into maximal runs of consecutive addresses and each run is
    summarised (summarize_address_range) into the fewest aligned CIDR blocks,
    in ascending order. Equivalently: repeatedly take, at the front of the
    remaining addresses, the largest aligned block that they fill. */
module Aggregate {
  import opened Ipv4

  /** The first 2^k addresses of s are exactly the aligned block of size 2^k
      that starts at s[0]. */
  predicate Fits(s: seq<Address>, k: nat) {
    && k <= 32
    && Pow2(k) <= |s|
    && s[0] % Pow2(k) == 0
    && s[Pow2(k) - 1] == s[0] + Pow2(k) - 1
  }

  /** The largest block exponent, at most bound, that fits at the front of s
      (the min of the trailing zero bits of the first address and the bit
      length of the run, as summarize_address_range computes it). */
  function LargestFit(s: seq<Address>, bound: nat): (k: nat)
    requires s != [] && bound <= 32
    ensures k <= bound && Fits(s, k)
  {
    if bound == 0 || Fits(s, bound) then bound else LargestFit(s, bound - 1)
  }

  /** No exponent above the chosen one (and within the bound) fits. */
  lemma {:induction false} LargestFitIsLargest(s: seq<Address>, bound: nat, j: nat)
    requires s != [] && bound <= 32 && LargestFit(s, bound) < j <= bound
    ensures !Fits(s, j)
    decreases bound
  {
    if j < bound {
      LargestFitIsLargest(s, bound - 1, j);
    }
  }

  /** All addresses of the blocks, block after block. */
  function Expand(blocks: seq<Network>): seq<Address>
    requires forall j :: 0 <= j < |blocks| ==> Aligned(blocks[j])
  {
    if blocks == [] then [] else Addresses(blocks[0]) + Expand(blocks[1..])
  }

  lemma ExpandCons(b: Network, blocks: seq<Network>)
    requires Aligned(b) && forall j :: 0 <= j < |blocks| ==> Aligned(blocks[j])
    ensures forall j :: 0 <= j < |[b] + blocks| ==> Aligned(([b] + blocks)[j])
    ensures Expand([b] + blocks) == Addresses(b) + Expand(blocks)
  {
    assert ([b] + blocks)[1..] == blocks;
  }

  /** collapse_addresses on the ascending list s. */
  function Collapse(s: seq<Address>): (r: seq<Network>)
    requires StrictlyAscending(s)
    ensures forall j :: 0 <= j < |r| ==> Aligned(r[j])
    ensures Expand(r) == s
    decreases |s|
  {
    if s == [] then []
    else
      var k := LargestFit(s, 32);
      var block := Network(s[0], 32 - k);
      var rest := s[Pow2(k)..];
      var tail := Collapse(rest);
      FrontBlock(s, k);
      ExpandCons(block, tail);
      [block] + tail
  }

  lemma {:induction false} AscendingGap(s: seq<Address>, i: nat, j: nat)
    requires StrictlyAscending(s) && i <= j < |s|
    ensures s[j] - s[i] >= j - i
    decreases j - i
  {
    if i < j {
      AscendingGap(s, i, j - 1);
    }
  }

  /** A fitting front block is contiguous: s[i] is s[0] + i. */
  lemma FitsContiguous(s: seq<Address>, k: nat)
    requires StrictlyAscending(s) && Fits(s, k)
    ensures forall i :: 0 <= i < Pow2(k) ==> s[i] == s[0] + i
  {
    forall i | 0 <= i < Pow2(k) ensures s[i] == s[0] + i {
      AscendingGap(s, 0, i);
      AscendingGap(s, i, Pow2(k) - 1);
    }
  }

  /** The front block is a network whose addresses are the first 2^k of s. */
  lemma FrontBlock(s: seq<Address>, k: nat)
    requires StrictlyAscending(s) && Fits(s, k)
    ensures Aligned(Network(s[0], 32 - k))
    ensures Addresses(Network(s[0], 32 - k)) + s[Pow2(k)..] == s
  {
    FitsContiguous(s, k);
    ContiguousPrefixIsBlock(s, k);
  }

  /** A front run of 2^k consecutive addresses from an aligned start is the
      network of that size at the start. */
  lemma ContiguousPrefixIsBlock(s: seq<Address>, k: nat)
    requires Fits(s, k)
    requires forall i :: 0 <= i < Pow2(k) ==> s[i] == s[0] + i
    ensures Aligned(Network(s[0], 32 - k))
    ensures Addresses(Network(s[0], 32 - k)) + s[Pow2(k)..] == s
  {
    var n := Network(s[0], 32 - k);
    var c := Pow2(k);
    assert Size(n) == c;
    var xs := Addresses(n);
    forall i | 0 <= i < c ensures xs[i] == s[i] {
      assert xs[i] == s[0] + i;
    }
    PrefixThenRest(s, xs, c);
  }

  /** A sequence equal to the first c elements of s, followed by the rest of
      s, is s. */
  lemma PrefixThenRest(s: seq<Address>, xs: seq<Address>, c: nat)
    requires c <= |s| && |xs| == c
    requires forall i :: 0 <= i < c ==> xs[i] == s[i]
    ensures xs + s[c..] == s
  {
    assert xs == s[..c];
  }

  /** Every address of block n is in the set all. */
  predicate Covered(n: Network, all: set<Address>) {
    forall a: Address :: n.base <= a < n.base + Size(n) ==> a in all
  }

  /** The block with one prefix bit fewer that contains n (n.supernet()). */
  function Parent(n: Network): (m: Network)
    requires n.prefixLength > 0
    ensures Aligned(m) && m.prefixLength == n.prefixLength - 1
    ensures m.base <= n.base < m.base + Size(m)
  {
    Network(NetworkBase(n.base, n.prefixLength - 1), n.prefixLength - 1)
  }

  /** A block is maximal for all when its parent is not filled by all, so it
      could not be replaced by a larger network. */
  predicate Maximal(n: Network, all: set<Address>) {
    n.prefixLength == 0 || !Covered(Parent(n), all)
  }

  /** Every aligned block inside all that contains x starts at x. */
  ghost predicate StartsBlocks(all: set<Address>, x: Address) {
    forall b: Network {:trigger Covered(b, all)} :: Aligned(b) && b.base <= x < b.base + Size(b) && Covered(b, all) ==> b.base == x
  }

  /** If all addresses of [s[0], s[0] + 2^m) with s[0] aligned to 2^m are in
      s, the aligned block of size 2^m fits at the front of s. */
  lemma CoveredFits(s: seq<Address>, n: Network, all: set<Address>)
    requires StrictlyAscending(s) && s != [] && Aligned(n) && n.base == s[0]
    requires forall a :: a in all && a >= s[0] ==> a in s
    requires Covered(n, all)
    ensures Fits(s, 32 - n.prefixLength)
  {
    var x := s[0];
    var m := 32 - n.prefixLength;
    assert Size(n) == Pow2(m);
    AlignedBlockFits(x, m);
    var i := 0;
    while i < Pow2(m) - 1
      invariant 0 <= i < Pow2(m) && i < |s| && s[i] == x + i
    {
      var y: Address := x + i + 1;
      assert y in all;
      var j :| 0 <= j < |s| && s[j] == y;
      if j <= i {
        assert false;
      }
      AscendingGap(s, i + 1, j);
      i := i + 1;
    }
  }

  /** The block chosen at the front of s is maximal. */
  lemma FrontMaximal(s: seq<Address>, all: set<Address>)
    requires StrictlyAscending(s) && s != []
    requires forall a :: a in all && a >= s[0] ==> a in s
    requires StartsBlocks(all, s[0])
    ensures Maximal(Network(s[0], 32 - LargestFit(s, 32)), all)
  {
    var k := LargestFit(s, 32);
    var n := Network(s[0], 32 - k);
    if k < 32 && Covered(Parent(n), all) {
      var p := Parent(n);
      assert Size(p) == Pow2(k + 1);
      assert p.base == s[0];
      CoveredFits(s, p, all);
      LargestFitIsLargest(s, 32, k + 1);
      assert false;
    }
  }

  /** After the front block of size 2^k, the next address again starts
      every aligned block inside all that contains it. */
  lemma NextStartsBlocks(s: seq<Address>, k: nat, all: set<Address>)
    requires StrictlyAscending(s) && s != [] && k == LargestFit(s, 32) && Pow2(k) < |s|
    requires forall a :: a in s ==> a in all
    requires forall a :: a in all && a >= s[0] ==> a in s
    requires StartsBlocks(all, s[0])
    ensures StartsBlocks(all, s[Pow2(k)])
  {
    forall b: Network | Aligned(b) && b.base <= s[Pow2(k)] < b.base + Size(b) && Covered(b, all)
      ensures b.base == s[Pow2(k)]
    {
      NextBlockStartsAt(s, k, all, b);
    }
  }

  lemma NextBlockStartsAt(s: seq<Address>, k: nat, all: set<Address>, b: Network)
    requires StrictlyAscending(s) && s != [] && k == LargestFit(s, 32) && Pow2(k) < |s|
    requires forall a :: a in all && a >= s[0] ==> a in s
    requires StartsBlocks(all, s[0])
    requires Aligned(b) && b.base <= s[Pow2(k)] < b.base + Size(b) && Covered(b, all)
    ensures b.base == s[Pow2(k)]
  {
    if b.base < s[Pow2(k)] {
      var j: nat := 32 - b.prefixLength;
      BlockOverNextFits(s, k, all, b);
      LargestFitIsLargest(s, 32, j);
      assert false;
    }
  }

  /** A block inside all that reaches from below the next address over it
      would be a larger block fitting at the front of s. */
  lemma BlockOverNextFits(s: seq<Address>, k: nat, all: set<Address>, b: Network)
    requires StrictlyAscending(s) && s != [] && Fits(s, k) && Pow2(k) < |s|
    requires forall a :: a in all && a >= s[0] ==> a in s
    requires StartsBlocks(all, s[0])
    requires Aligned(b) && b.base < s[Pow2(k)] < b.base + Size(b) && Covered(b, all)
    ensures k < 32 - b.prefixLength && Fits(s, 32 - b.prefixLength)
  {
    // The address just below the next one lies in b, so the front block
    // ends right below it, and b, which reaches past the front block, is a
    // larger aligned block holding all of it.
    var c := Pow2(k);
    var x := s[0];
    assert x % c == 0 && s[c - 1] == x + c - 1;
    assert b.base <= x + c - 1 && x + c < b.base + Size(b) by {
      BelowNextIsFrontEnd(s, c, all, b);
    }
    var j: nat := 32 - b.prefixLength;
    assert k < j && b.base <= x by {
      assert b.base % Pow2(j) == 0;
      LargerBlockContains(b.base, j, x, k);
    }
    assert b.base == x by {
      StartsAtFront(all, x, b);
    }
    CoveredFits(s, b, all);
  }

  /** A block inside all that holds x, where x starts every such block. */
  lemma StartsAtFront(all: set<Address>, x: Address, b: Network)
    requires StartsBlocks(all, x)
    requires Aligned(b) && b.base <= x < b.base + Size(b) && Covered(b, all)
    ensures b.base == x
  {
  }

  /** A block inside all that holds s[c] and starts below it also holds
      s[c] - 1, so s[c] follows the c consecutive front addresses directly. */
  lemma BelowNextIsFrontEnd(s: seq<Address>, c: nat, all: set<Address>, b: Network)
    requires StrictlyAscending(s) && 0 < c < |s| && s[c - 1] == s[0] + c - 1
    requires forall a :: a in all && a >= s[0] ==> a in s
    requires b.base < s[c] < b.base + Size(b) && Covered(b, all)
    ensures s[c] == s[0] + c
    ensures b.base <= s[0] + c - 1 && s[0] + c < b.base + Size(b)
  {
    var z: Address := s[c] - 1;
    assert z in all;
    AscendingGap(s, 0, c);
    NextIsAdjacent(s, c, z);
  }

  /** If the address below s[c] is present and the first c addresses are
      consecutive, s[c] follows them directly. */
  lemma NextIsAdjacent(s: seq<Address>, c: nat, z: Address)
    requires StrictlyAscending(s) && 0 < c < |s| && s[c - 1] == s[0] + c - 1
    requires z in s && z == s[c] - 1 && z >= s[0]
    ensures s[c] == s[0] + c
  {
    var i :| 0 <= i < |s| && s[i] == z;
    IndexBelow(s, i, c);
    AscendingGap(s, i, c - 1);
  }

  /** In an ascending sequence a smaller value sits at a smaller index. */
  lemma IndexBelow(s: seq<Address>, i: nat, c: nat)
    requires StrictlyAscending(s) && i < |s| && c < |s| && s[i] < s[c]
    ensures i < c
  {
  }

  /** Two aligned blocks, b of size 2^j and [x, x + 2^k), where b holds the
      last address of the second and the address after it: then b is larger
      and starts at x or below, so it holds the whole second block. */
  lemma LargerBlockContains(bBase: nat, j: nat, x: nat, k: nat)
    requires j <= 32 && k <= 32
    requires bBase % Pow2(j) == 0 && x % Pow2(k) == 0
    requires bBase <= x + Pow2(k) - 1 && x + Pow2(k) < bBase + Pow2(j)
    ensures k < j && bBase <= x
  {
    var y := x + Pow2(k);
    NextMultiple(x, Pow2(k));
    if j <= k {
      AlignedToSmaller(y, j, k);
      AlignedBoundary(bBase, y, Pow2(j));
      assert false;
    }
    AlignedToSmaller(bBase, k, j);
    MultiplesBelow(bBase, x, Pow2(k));
  }

  /** Adding m to a multiple of m gives a multiple of m. */
  lemma NextMultiple(x: nat, m: nat)
    requires m > 0 && x % m == 0
    ensures (x + m) % m == 0
  {
    var q := x / m;
    assert x == q * m;
    assert x + m == (q + 1) * m;
    DivModUnique(x + m, m, q + 1, 0);
  }

  /** The next multiple of m after an aligned base is at least base + m. */
  lemma AlignedBoundary(base: int, y: int, m: nat)
    requires m > 0 && base >= 0 && base % m == 0 && y % m == 0 && base < y
    ensures base + m <= y
  {
    var q := base / m;
    var q' := y / m;
    assert base == q * m && y == q' * m;
    if q' <= q {
      MulMonotone(q', q, m);
      assert false;
    }
    MulMonotone(q + 1, q', m);
  }

  /** A multiple of c that is below the next multiple after x is at most x. */
  lemma MultiplesBelow(b: int, x: int, c: nat)
    requires c > 0 && b >= 0 && x >= 0 && b % c == 0 && x % c == 0 && b <= x + c - 1
    ensures b <= x
  {
    var q, q' := b / c, x / c;
    assert b == q * c && x == q' * c;
    if q > q' {
      MulMonotone(q' + 1, q, c);
    }
  }

  /** One step of the collapse: the front block, then the rest. */
  lemma CollapseStep(s: seq<Address>)
    requires StrictlyAscending(s) && s != []
    ensures Collapse(s) == [Network(s[0], 32 - LargestFit(s, 32))] + Collapse(s[Pow2(LargestFit(s, 32))..])
  {
  }

  /** Past the front block, what all holds above the next address is in the
      rest of s. */
  lemma RestHoldsAbove(s: seq<Address>, c: nat, all: set<Address>)
    requires StrictlyAscending(s) && 0 < c < |s|
    requires forall a :: a in all && a >= s[0] ==> a in s
    ensures forall a :: a in all && a >= s[c] ==> a in s[c..]
  {
    forall a | a in all && a >= s[c] ensures a in s[c..] {
      var i :| 0 <= i < |s| && s[i] == a;
      if i < c {
        assert false;
      }
      assert s[c..][i - c] == a;
    }
  }

  /** Every block of the collapse of s is maximal for all, given that the
      addresses before s are not in s's blocks. */
  lemma {:induction false} CollapseMaximalFrom(s: seq<Address>, all: set<Address>)
    requires StrictlyAscending(s)
    requires forall a :: a in s ==> a in all
    requires s != [] ==> (forall a :: a in all && a >= s[0] ==> a in s) && StartsBlocks(all, s[0])
    ensures forall j :: 0 <= j < |Collapse(s)| ==> Maximal(Collapse(s)[j], all)
    decreases |s|
  {
    if s != [] {
      var rest := s[Pow2(LargestFit(s, 32))..];
      FrontMaximal(s, all);
      RestStep(s, all);
      CollapseMaximalFrom(rest, all);
      CollapseStep(s);
      MaximalCons(Network(s[0], 32 - LargestFit(s, 32)), Collapse(rest), all);
    }
  }

  lemma MaximalCons(b: Network, blocks: seq<Network>, all: set<Address>)
    requires Maximal(b, all) && forall j :: 0 <= j < |blocks| ==> Maximal(blocks[j], all)
    ensures forall j :: 0 <= j < |[b] + blocks| ==> Maximal(([b] + blocks)[j], all)
  {
  }

  /** The rest of s after the front block meets the same conditions as s. */
  lemma RestStep(s: seq<Address>, all: set<Address>)
    requires StrictlyAscending(s) && s != []
    requires forall a :: a in s ==> a in all
    requires forall a :: a in all && a >= s[0] ==> a in s
    requires StartsBlocks(all, s[0])
    ensures var rest := s[Pow2(LargestFit(s, 32))..];
      && StrictlyAscending(rest)
      && (forall a :: a in rest ==> a in all)
      && (rest != [] ==> (forall a :: a in all && a >= rest[0] ==> a in rest) && StartsBlocks(all, rest[0]))
  {
    var k := LargestFit(s, 32);
    if Pow2(k) < |s| {
      NextStartsBlocks(s, k, all);
      RestHoldsAbove(s, Pow2(k), all);
    }
  }

  /** The networks collapse_addresses returns cannot be merged further: no
      block's parent network is filled by the addresses. */
  lemma CollapseMaximal(s: seq<Address>, all: set<Address>)
    requires StrictlyAscending(s)
    requires forall a :: a in all <==> a in s
    ensures forall j :: 0 <= j < |Collapse(s)| ==> Maximal(Collapse(s)[j], all)
  {
    if s != [] {
      forall b: Network | Aligned(b) && b.base <= s[0] < b.base + Size(b) && Covered(b, all)
        ensures b.base == s[0]
      {
        assert b.base in all;
        if b.base < s[0] {
          assert false;
        }
      }
      forall a | a in all && a >= s[0] ensures a in s {
      }
    }
    CollapseMaximalFrom(s, all);
  }

  /** The blocks come out in address order, without overlap. */
  lemma CollapseOrdered(s: seq<Address>, i: nat, j: nat)
    requires StrictlyAscending(s)
    requires i < j < |Collapse(s)|
    ensures Collapse(s)[i].base + Size(Collapse(s)[i]) <= Collapse(s)[j].base
  {
    ExpandOrdered(Collapse(s), i, j);
  }

  /** Blocks whose expansion is strictly ascending are ordered and disjoint. */
  lemma {:induction false} ExpandOrdered(blocks: seq<Network>, i: nat, j: nat)
    requires forall t :: 0 <= t < |blocks| ==> Aligned(blocks[t])
    requires StrictlyAscending(Expand(blocks))
    requires i < j < |blocks|
    ensures blocks[i].base + Size(blocks[i]) <= blocks[j].base
    decreases i
  {
    var head, rest := Addresses(blocks[0]), Expand(blocks[1..]);
    assert Expand(blocks) == head + rest;
    if i > 0 {
      assert StrictlyAscending(rest) by {
        forall p, q | 0 <= p < q < |rest| ensures rest[p] < rest[q] {
          assert rest[p] == Expand(blocks)[|head| + p];
          assert rest[q] == Expand(blocks)[|head| + q];
        }
      }
      ExpandOrdered(blocks[1..], i - 1, j - 1);
    } else {
      AddressesMembers(blocks[0]);
      AddressesMembers(blocks[j]);
      BlockAddressesInTail(blocks[1..], j - 1);
      assert blocks[1..][j - 1] == blocks[j];
      assert blocks[j].base in Addresses(blocks[j]);
      var t :| 0 <= t < |rest| && rest[t] == blocks[j].base;
      assert Expand(blocks)[|head| - 1] == head[|head| - 1];
      assert Expand(blocks)[|head| + t] == rest[t];
    }
  }

  /** Each block's addresses occur in the expansion. */
  lemma {:induction false} BlockAddressesInTail(blocks: seq<Network>, j: nat)
    requires forall i :: 0 <= i < |blocks| ==> Aligned(blocks[i])
    requires j < |blocks|
    ensures forall a :: a in Addresses(blocks[j]) ==> a in Expand(blocks)
    decreases j
  {
    assert Expand(blocks) == Addresses(blocks[0]) + Expand(blocks[1..]);
    if j > 0 {
      BlockAddressesInTail(blocks[1..], j - 1);
    }
  }

  /** A whole network collapses to itself. */
  lemma CollapseBlock(n: Network)
    requires Aligned(n)
    ensures StrictlyAscending(Addresses(n))
    ensures Collapse(Addresses(n)) == [n]
  {
    var s := Addresses(n);
    AddressesMembers(n);
    BlockFitsExactly(n);
    CollapseStep(s);
    assert s[Size(n)..] == [];
  }

  /** A single address collapses to the one /32 network holding it. */
  lemma CollapseSingleton(a: Address)
    ensures Collapse([a]) == [Network(a, 32)]
  {
    var n := Network(a, 32);
    assert Aligned(n) && Size(n) == 1;
    AddressesMembers(n);
    assert Addresses(n) == [a];
    CollapseBlock(n);
  }

  /** The largest block fitting at the front of a network's addresses is the
      network itself. */
  lemma BlockFitsExactly(n: Network)
    requires Aligned(n)
    ensures Addresses(n) != [] && LargestFit(Addresses(n), 32) == 32 - n.prefixLength
  {
    var s := Addresses(n);
    var k := 32 - n.prefixLength;
    AddressesMembers(n);
    assert Size(n) == Pow2(k);
    assert Fits(s, k);
    var f := LargestFit(s, 32);
    Pow2Below(f, k);
    if f < k {
      LargestFitIsLargest(s, 32, k);
      assert false;
    }
  }

  /** Powers of two are ordered as their exponents. */
  lemma Pow2Below(f: nat, k: nat)
    requires Pow2(f) <= Pow2(k)
    ensures f <= k
  {
    if f > k {
      Pow2Monotone(k + 1, f);
      assert false;
    }
  }
}
