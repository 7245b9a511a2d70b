/** main: read the in-scope and out-of-scope files, subtract, report the
    three counts, and either stop (exit status 2 on an empty final scope when
    --fail-on-empty-scope is given), write nothing (--summary-only), or write
    the artifacts in this order: scope_cleaned, scope_cleaned_every_ip_listed
    (only with --all-addresses), out_of_scope_addresses. */
module ScopeForge {
  import opened Ipv4
  import opened Collector
  import opened ScopeFiles

  /** The three switches of the command line. */
  datatype Flags = Flags(allAddresses: bool, summaryOnly: bool, failOnEmptyScope: bool)

  /** Which writer main calls: write_aggregated_scope_file or
      write_individual_ip_file. */
  datatype Listing = Aggregated | Individual

  /** One call of a writer: the file name, the writer, the address set. */
  datatype WriteCall = WriteCall(name: string, listing: Listing, addresses: set<Address>)

  /** The counts main logs: parsed in scope, parsed out of scope, remaining. */
  datatype Summary = Summary(inScope: nat, outOfScope: nat, remaining: nat)

  /** What main decides: the summary, the exit status, the writer calls. */
  datatype Plan = Plan(summary: Summary, exitStatus: nat, writes: seq<WriteCall>)

  /** A file written into the output directory: its name and its lines. */
  datatype File = File(name: string, lines: seq<string>)

  /** What one run produces: the summary, the exit status, the files. */
  datatype Outcome = Outcome(summary: Summary, exitStatus: nat, files: seq<File>)

  const CleanedScopeName: string := "scope_cleaned"
  const EveryIpName: string := "scope_cleaned_every_ip_listed"
  const ExclusionsName: string := "out_of_scope_addresses"

  /** The file a writer call produces. */
  function Render(w: WriteCall): File {
    match w.listing
    case Aggregated => File(w.name, AggregatedLines(w.addresses))
    case Individual => File(w.name, IndividualLines(w.addresses))
  }

  /** main after parsing, as a function of the two address sets and the
      flags. */
  function Decide(inScope: set<Address>, excluded: set<Address>, flags: Flags): (p: Plan)
    ensures p.summary == Summary(|inScope|, |excluded|, |inScope - excluded|)
    ensures p.exitStatus == 0 || p.exitStatus == 2
    ensures p.exitStatus == 2 <==> flags.failOnEmptyScope && inScope - excluded == {}
    ensures p.writes == [] <==> p.exitStatus == 2 || flags.summaryOnly
  {
    var finalScope := inScope - excluded;
    var summary := Summary(|inScope|, |excluded|, |finalScope|);
    if flags.failOnEmptyScope && finalScope == {} then
      Plan(summary, 2, [])
    else if flags.summaryOnly then
      Plan(summary, 0, [])
    else
      Plan(summary, 0, Writes(finalScope, excluded, flags.allAddresses))
  }

  /** The writer calls main makes, in order. */
  function Writes(finalScope: set<Address>, excluded: set<Address>, allAddresses: bool): (w: seq<WriteCall>)
    ensures |w| == if allAddresses then 3 else 2
    ensures w[0] == WriteCall(CleanedScopeName, Aggregated, finalScope)
    ensures allAddresses ==> w[1] == WriteCall(EveryIpName, Individual, finalScope)
    ensures w[|w| - 1] == WriteCall(ExclusionsName, Individual, excluded)
  {
    var cleaned := WriteCall(CleanedScopeName, Aggregated, finalScope);
    var every := if allAddresses then [WriteCall(EveryIpName, Individual, finalScope)] else [];
    var exclusions := WriteCall(ExclusionsName, Individual, excluded);
    [cleaned] + every + [exclusions]
  }

  /** When main goes on to write, it makes the writer calls of Writes. */
  lemma DecideWrites(inScope: set<Address>, excluded: set<Address>, flags: Flags)
    requires !(flags.failOnEmptyScope && inScope - excluded == {}) && !flags.summaryOnly
    ensures Decide(inScope, excluded, flags).exitStatus == 0
    ensures Decide(inScope, excluded, flags).writes ==
      [WriteCall(CleanedScopeName, Aggregated, inScope - excluded)]
      + (if flags.allAddresses then [WriteCall(EveryIpName, Individual, inScope - excluded)] else [])
      + [WriteCall(ExclusionsName, Individual, excluded)]
  {
  }

  /** The files a list of writer calls produces, one per call, in order. */
  function RenderAll(writes: seq<WriteCall>): (files: seq<File>)
    ensures |files| == |writes|
  {
    if writes == [] then [] else RenderAll(writes[..|writes| - 1]) + [Render(writes[|writes| - 1])]
  }

  /** Performing one more writer call appends its file. */
  lemma RenderAllAppend(writes: seq<WriteCall>, w: WriteCall)
    ensures RenderAll(writes + [w]) == RenderAll(writes) + [Render(w)]
  {
    assert (writes + [w])[..|writes|] == writes;
  }

  /** The i-th file is the one the i-th writer call produces. */
  lemma {:induction false} RenderAllAt(writes: seq<WriteCall>, i: nat)
    requires i < |writes|
    ensures RenderAll(writes)[i] == Render(writes[i])
    decreases |writes|
  {
    if i < |writes| - 1 {
      RenderAllAt(writes[..|writes| - 1], i);
    }
  }

  /** The run a plan describes: its summary and exit status, and the files of
      its writer calls. */
  predicate Performs(o: Outcome, p: Plan) {
    o == Outcome(p.summary, p.exitStatus, RenderAll(p.writes))
  }

  /** main: both files are read line by line, then the decision is acted on
      step by step; the run is exactly the one Decide plans. */
  method RunScopeForge(inScopeLines: seq<string>, outOfScopeLines: seq<string>, flags: Flags)
    returns (o: Outcome)
    ensures Performs(o, Decide(Collected(inScopeLines), Collected(outOfScopeLines), flags))
  {
    var allInScope := CollectIpSet(inScopeLines);
    var excludedIps := CollectIpSet(outOfScopeLines);
    var finalScope := allInScope - excludedIps;
    var summary := Summary(|allInScope|, |excludedIps|, |finalScope|);
    if flags.failOnEmptyScope && finalScope == {} {
      return Outcome(summary, 2, []);
    }
    if flags.summaryOnly {
      return Outcome(summary, 0, []);
    }
    var cleaned := WriteAggregatedScope(finalScope);
    var everyIp: seq<File> := [];
    if flags.allAddresses {
      var every := WriteIndividualIps(finalScope);
      everyIp := [File(EveryIpName, every)];
    }
    var exclusions := WriteIndividualIps(excludedIps);
    var files := [File(CleanedScopeName, cleaned)] + everyIp + [File(ExclusionsName, exclusions)];
    ghost var plan := Decide(allInScope, excludedIps, flags);
    DecideWrites(allInScope, excludedIps, flags);
    RenderWrites(finalScope, excludedIps, flags.allAddresses);
    assert files == RenderAll(plan.writes);
    o := Outcome(summary, 0, files);
  }

  /** The files of main's writer calls, in order. */
  lemma RenderWrites(finalScope: set<Address>, excluded: set<Address>, allAddresses: bool)
    ensures RenderAll([WriteCall(CleanedScopeName, Aggregated, finalScope)]
      + (if allAddresses then [WriteCall(EveryIpName, Individual, finalScope)] else [])
      + [WriteCall(ExclusionsName, Individual, excluded)])
      == [File(CleanedScopeName, AggregatedLines(finalScope))]
      + (if allAddresses then [File(EveryIpName, IndividualLines(finalScope))] else [])
      + [File(ExclusionsName, IndividualLines(excluded))]
  {
    var cleaned := WriteCall(CleanedScopeName, Aggregated, finalScope);
    var every := WriteCall(EveryIpName, Individual, finalScope);
    var exclusions := WriteCall(ExclusionsName, Individual, excluded);
    RenderAllAppend([], cleaned);
    if allAddresses {
      RenderAllAppend([cleaned], every);
      RenderAllAppend([cleaned, every], exclusions);
      assert [cleaned] + [every] + [exclusions] == [cleaned, every] + [exclusions];
    } else {
      RenderAllAppend([cleaned], exclusions);
    }
  }

  /** The names of the files, in the order they are written. */
  function Names(writes: seq<WriteCall>): (r: seq<string>)
    ensures |r| == |writes|
  {
    if writes == [] then [] else [writes[0].name] + Names(writes[1..])
  }

  /** When files are written, they are the cleaned scope, then (with
      --all-addresses) every remaining address, then the exclusions. */
  lemma ArtifactOrder(inScope: set<Address>, excluded: set<Address>, flags: Flags)
    requires Decide(inScope, excluded, flags).writes != []
    ensures Names(Decide(inScope, excluded, flags).writes) ==
      if flags.allAddresses then [CleanedScopeName, EveryIpName, ExclusionsName]
      else [CleanedScopeName, ExclusionsName]
  {
    var finalScope := inScope - excluded;
    var w := Decide(inScope, excluded, flags).writes;
    var exclusions := WriteCall(ExclusionsName, Individual, excluded);
    assert Names([exclusions]) == [ExclusionsName] by {
      assert [exclusions][1..] == [];
    }
    if flags.allAddresses {
      assert w[1..][1..] == [exclusions];
    } else {
      assert w[1..] == [exclusions];
    }
  }

  /** The writers used: scope_cleaned aggregates, the other two list single
      addresses; scope_cleaned and scope_cleaned_every_ip_listed hold the
      final scope (in scope and not excluded), out_of_scope_addresses the
      excluded set. */
  lemma WriterCalls(inScope: set<Address>, excluded: set<Address>, flags: Flags, i: nat)
    requires i < |Decide(inScope, excluded, flags).writes|
    ensures var w := Decide(inScope, excluded, flags).writes[i];
      && (w.listing == Aggregated <==> w.name == CleanedScopeName)
      && w.addresses == if w.name == ExclusionsName then excluded else inScope - excluded
  {
    var w := Decide(inScope, excluded, flags).writes;
    if i == 0 {
      assert w[i].name == CleanedScopeName;
    } else if i == 1 && flags.allAddresses {
      assert w[i].name == EveryIpName;
    } else {
      assert w[i].name == ExclusionsName;
    }
  }

  /** Every written file reads back (through collect_ip_set_from_file) as
      exactly the address set its writer was given. */
  lemma RenderReadsBack(w: WriteCall)
    ensures Collected(Render(w).lines) == w.addresses
  {
    match w.listing
    case Aggregated => AggregatedReadsBack(w.addresses);
    case Individual => IndividualReadsBack(w.addresses);
  }

  /** Reading scope_cleaned back gives every in-scope address that is not
      excluded, and nothing else. */
  lemma CleanedScopeIsDifference(inScope: set<Address>, excluded: set<Address>, flags: Flags, o: Outcome)
    requires Performs(o, Decide(inScope, excluded, flags)) && o.files != []
    ensures o.files[0].name == CleanedScopeName
    ensures Collected(o.files[0].lines) == inScope - excluded
  {
    var p := Decide(inScope, excluded, flags);
    var w := p.writes[0];
    RenderAllAt(p.writes, 0);
    WriterCalls(inScope, excluded, flags, 0);
    RenderReadsBack(w);
  }
}
