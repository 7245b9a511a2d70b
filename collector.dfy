/** collect_ip_set_from_file: the union of what parse_ip_line names on every
    line of a scope file. The file is given as the sequence of its lines (as
    Python's line iteration yields them, newline included). */
module Collector {
  import opened Ipv4
  import opened LineParser

  /** The addresses of a list, as a set. */
  function Elements(xs: seq<Address>): set<Address>
  {
    set a | a in xs
  }

  /** The union of the address lists, built up list by list (set.update). */
  function Union(lists: seq<seq<Address>>): set<Address>
  {
    if lists == [] then {}
    else Union(lists[..|lists| - 1]) + Elements(lists[|lists| - 1])
  }

  /** An address is in the union exactly when one of the lists holds it. */
  lemma {:induction false} UnionMembers(lists: seq<seq<Address>>, a: Address)
    ensures a in Union(lists) <==> exists i :: 0 <= i < |lists| && a in lists[i]
    decreases |lists|
  {
    if lists != [] {
      var n := |lists| - 1;
      var init := lists[..n];
      UnionMembers(init, a);
      assert a in Elements(lists[n]) <==> a in lists[n];
      if a in Union(lists) && a in Union(init) {
        var i :| 0 <= i < |init| && a in init[i];
        assert lists[i] == init[i];
      }
      if exists i :: 0 <= i < |lists| && a in lists[i] {
        var i :| 0 <= i < |lists| && a in lists[i];
        if i < n {
          assert init[i] == lists[i];
        }
      }
    }
  }

  lemma {:induction false} UnionAppend(p: seq<seq<Address>>, q: seq<seq<Address>>)
    ensures Union(p + q) == Union(p) + Union(q)
    decreases |q|
  {
    if q == [] {
      assert p + q == p;
    } else {
      var init := q[..|q| - 1];
      assert (p + q)[..|p + q| - 1] == p + init;
      UnionAppend(p, init);
    }
  }

  /** What parse_ip_line gives for each line of the file. */
  function ParsedLines(lines: seq<string>): (r: seq<seq<Address>>)
    ensures |r| == |lines| && forall i :: 0 <= i < |lines| ==> r[i] == ParseIpLine(lines[i])
  {
    seq(|lines|, i requires 0 <= i < |lines| => ParseIpLine(lines[i]))
  }

  /** Every address named by some line of the file. */
  function Collected(lines: seq<string>): set<Address>
  {
    Union(ParsedLines(lines))
  }

  /** An address is collected exactly when some line of the file names it. */
  lemma CollectedMembers(lines: seq<string>, a: Address)
    ensures a in Collected(lines) <==> exists i :: 0 <= i < |lines| && a in ParseIpLine(lines[i])
  {
    var p := ParsedLines(lines);
    UnionMembers(p, a);
    if exists i :: 0 <= i < |lines| && a in ParseIpLine(lines[i]) {
      var i :| 0 <= i < |lines| && a in ParseIpLine(lines[i]);
      assert a in p[i];
    }
  }

  /** The loop of collect_ip_set_from_file over the lines of the file. */
  method CollectIpSet(lines: seq<string>) returns (ips: set<Address>)
    ensures ips == Collected(lines)
  {
    ghost var p := ParsedLines(lines);
    ips := {};
    for i := 0 to |lines|
      invariant ips == Union(p[..i])
    {
      var named := ParseIpLine(lines[i]);
      assert p[i] == named;
      UnionStep(p, i);
      ips := ips + Elements(named);
    }
    assert p[..|lines|] == p;
  }

  lemma UnionStep(lists: seq<seq<Address>>, i: nat)
    requires i < |lists|
    ensures Union(lists[..i + 1]) == Union(lists[..i]) + Elements(lists[i])
  {
    assert lists[..i + 1][..i] == lists[..i];
  }

  /** Reading two files one after the other collects the union. */
  lemma CollectedAppend(a: seq<string>, b: seq<string>)
    ensures Collected(a + b) == Collected(a) + Collected(b)
  {
    var pa, pb, pab := ParsedLines(a), ParsedLines(b), ParsedLines(a + b);
    forall i | 0 <= i < |pab| ensures pab[i] == (pa + pb)[i] {
      if i < |a| {
        assert (a + b)[i] == a[i];
      } else {
        assert (a + b)[i] == b[i - |a|];
      }
    }
    assert pab == pa + pb;
    UnionAppend(ParsedLines(a), ParsedLines(b));
  }

  /** Line order and repeated lines do not matter: only which lines occur. */
  lemma CollectedDependsOnLineSet(a: seq<string>, b: seq<string>)
    requires forall l :: l in a <==> l in b
    ensures Collected(a) == Collected(b)
  {
    forall x | x in Collected(a) ensures x in Collected(b) {
      CollectedFromSubset(a, b, x);
    }
    forall x | x in Collected(b) ensures x in Collected(a) {
      CollectedFromSubset(b, a, x);
    }
  }

  lemma CollectedFromSubset(a: seq<string>, b: seq<string>, x: Address)
    requires forall l :: l in a ==> l in b
    requires x in Collected(a)
    ensures x in Collected(b)
  {
    CollectedMembers(a, x);
    var i :| 0 <= i < |a| && x in ParseIpLine(a[i]);
    var line := a[i];
    assert line in a;
    assert line in b;
    var j :| 0 <= j < |b| && b[j] == line;
    CollectedMembers(b, x);
  }

  /** Comment and blank lines contribute nothing. */
  lemma CommentLinesIgnored(lines: seq<string>, comment: string)
    requires IsCommentOrBlank(Text.Strip(comment))
    ensures Collected(lines + [comment]) == Collected(lines)
  {
    CollectedAppend(lines, [comment]);
    var p := ParsedLines([comment]);
    assert p[..0] == [];
    assert Union(p) == {};
  }
}
