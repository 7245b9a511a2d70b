# ScopeForge address-set engine in Dafny

ScopeForge reads two scope files and writes the refined scope. The first file
lists what is in scope and the second what is out of scope. Each line of a
file is an IPv4 address, a CIDR network (`a.b.c.d/n`) or a range
(`first-last`). Blank lines and comments (`#`, `//`) are ignored. The program
collects the addresses of each file into a set and subtracts the excluded
set from the in-scope set. It then either:

- stops with exit status 2, when the result is empty and
  `--fail-on-empty-scope` is given;
- writes nothing, under `--summary-only`;
- or writes these files, in this order:
  - `scope_cleaned`: the remaining scope as the fewest aligned CIDR blocks,
    ascending;
  - `scope_cleaned_every_ip_listed`: every remaining address, ascending, one
    per line. It is written only with `--all-addresses`;
  - `out_of_scope_addresses`: every excluded address, ascending, one per
    line.

The model is split into these modules:

- `Text` (`text.dfy`) models the parts of Python string handling the parser
  uses: `str.strip()` with `str.isspace()`, `str.startswith`, `str.split`
  on one character, and decimal numerals.
- `Ipv4` (`ipv4.dfy`) models addresses as integers in [0, 2^32) and networks
  as an aligned base with a prefix length. It covers their text forms as
  the `ipaddress` module reads (`IPv4Address`, `ip_network(..., strict=False)`)
  and writes them (`str`).
- `LineParser` (`line_parser.dfy`) models `parse_ip_line`.
- `Collector` (`collector.dfy`) models `collect_ip_set_from_file`. The file
  is a sequence of lines, and a method with a loop unions each line's
  addresses into a set.
- `Aggregate` (`aggregate.dfy`) models `collapse_addresses` on sorted
  addresses. At each step it takes the largest aligned power-of-two block
  that the run at the front fills exactly.
- `ScopeFiles` (`scope_files.dfy`) models `sorted(..., key=int)` and the
  line-writing loops of `write_aggregated_scope_file` and
  `write_individual_ip_file`.
- `ScopeForge` (`scope_forge.dfy`) models `main` from line 102 on. The
  function `Decide` plans the outcome. The method `RunScopeForge` performs
  it step by step and is proved to match that plan.

## Model

| member | source | states |
|---|---|---|
| Text.LeadingSpace | ScopeForge.py:16 | the count is the length of the maximal whitespace prefix: every character before it is whitespace and the one at it is not |
| Text.TrailingSpace | ScopeForge.py:16 | the count is the length of the maximal whitespace suffix |
| Text.TrimLeft | ScopeForge.py:16 | the result is a suffix of the text, everything before it is whitespace, and it does not begin with whitespace |
| Text.TrimRight | ScopeForge.py:16 | the result is a prefix of the text, everything after it is whitespace, and it does not end with whitespace |
| Text.Strip | ScopeForge.py:16 | the stripped text has no whitespace at either end, and a text without outer whitespace is left unchanged |
| Text.StripRemovesOuterSpace | ScopeForge.py:16 | strip() returns a contiguous slice of the line and removes only whitespace, only at the two ends |
| Text.StripTrailingSpace | ScopeForge.py:46-47 | a line read with its newline strips back to its trimmed text |
| Text.Split | ScopeForge.py:22 | split() returns at least one piece, and no piece contains the separator |
| Text.JoinSplit | ScopeForge.py:22 | the pieces of split(), rejoined with the separator, give back the original text |
| Text.SplitJoin | ScopeForge.py:22 | splitting separator-free pieces joined by the separator recovers exactly those pieces |
| Text.SplitWithoutSeparator | ScopeForge.py:20-22 | a text without the separator splits into itself alone |
| Text.SplitAtOnlySeparator | ScopeForge.py:22 | a text with one dash splits into exactly the part before it and the part after it |
| Text.DecimalString | ScopeForge.py:62 | str(n) is a digit string without leading zero whose value is n, and is 1, ≤2 or ≤3 digits long for n below 10, 100 or 1000 |
| Text.DecimalStringOfValue | ScopeForge.py:62 | every canonical numeral is str() of its own value, so decimal printing is one-to-one on canonical numerals |
| Ipv4.FromOctets | ScopeForge.py:23-24 | an address built from four octets has exactly those octets, big-endian |
| Ipv4.FormatAddress | ScopeForge.py:73 | str(ip) is the four octets in decimal joined by dots: only digits and dots, starting and ending with a digit; ParseFormatAddress and FormatParseAddress tie it to the parser |
| Ipv4.ParseOctet | ScopeForge.py:23-24 | an octet is accepted exactly when it is a decimal numeral without leading zero whose value is below 256; its value is that number, and the text is str() of it |
| Ipv4.ParseAddress | ScopeForge.py:23-24 | IPv4Address(s) accepts only the text FormatAddress(a) of the address a it returns; with ParseFormatAddress it accepts exactly those texts |
| Ipv4.ParseFormatAddress | ScopeForge.py:73 | the dotted-quad text str(ip) parses back to the same address |
| Ipv4.FormatParseAddress | ScopeForge.py:23-24 | any text IPv4Address accepts is the canonical str() of the address it gives, so each address has exactly one accepted spelling |
| Ipv4.AddressText | ScopeForge.py:17-20 | an accepted address text is trimmed and holds only digits and dots, so it has no '/', no '-' and no comment prefix |
| Ipv4.NetworkBase | ScopeForge.py:31 | non-strict parsing clears the host bits: the base is aligned to 2^(32-p) and is the start of the block that holds the written address |
| Ipv4.Block | ScopeForge.py:31 | the network ip_network gives for an address and prefix length p: prefix length p, aligned, and holding the address |
| Ipv4.AddressesMembers | ScopeForge.py:32-33 | list(network) holds 2^(32-p) addresses, exactly those from the network address to the broadcast address, starting at the network address and ending at the broadcast address |
| Ipv4.Addresses | ScopeForge.py:33 | list(network) is strictly ascending and holds 2^(32-p) addresses; AddressesMembers says which |
| Ipv4.ParseNetwork | ScopeForge.py:31 | every network ip_network accepts is aligned |
| Ipv4.ParsePrefixLength | ScopeForge.py:31 | an accepted prefix length p is written as some zeros followed by str(p) |
| Ipv4.ParsePrefixOfDecimal | ScopeForge.py:31 | str(p) is accepted as the prefix length p for every p up to 32 |
| Ipv4.ParseNetworkShape | ScopeForge.py:31 | ip_network accepts only a bare address, read as /32, or `x/y` with x an address and y a prefix length p, read as the /p block holding x |
| Ipv4.ParseNetworkMasksHostBits | ScopeForge.py:31 | `x/y`, with x an address and y a prefix length p, is the /p block containing x, whatever its host bits |
| Ipv4.ParseNetworkOfAddress | ScopeForge.py:31 | a bare address is read as the /32 network holding only that address |
| Ipv4.ParseFormatNetwork | ScopeForge.py:62 | str(network) parses back to the same network: a line of scope_cleaned reads back as the block it was written for |
| Ipv4.FormatNetwork | ScopeForge.py:62 | str(network) holds only digits, dots and slashes and starts and ends with a digit; ParseFormatNetwork reads it back as the same network |
| LineParser.AddressRange | ScopeForge.py:25 | the addresses of a range come out strictly ascending |
| LineParser.RangeMembers | ScopeForge.py:25 | the range holds exactly the addresses a with first ≤ a ≤ last, last − first + 1 of them, and none when the range is reversed |
| LineParser.ParseRangeText | ScopeForge.py:20-28 | a line with a dash yields a strictly ascending list |
| LineParser.ParseNetworkText | ScopeForge.py:30-39 | a line without a dash yields a strictly ascending list |
| LineParser.ParseIpLine | ScopeForge.py:15-39 | every line yields a strictly ascending list of addresses, and a blank line or one starting with '#' or '//' after stripping yields none, even if it contains a dash |
| LineParser.NetworkText | ScopeForge.py:17-31 | text that ip_network accepts is trimmed, starts with a digit and has no dash, so the parser reaches the network branch for it |
| LineParser.RangeLine | ScopeForge.py:20-25 | a line with exactly one dash and two address endpoints yields exactly the range from the first to the last endpoint |
| LineParser.RangeText | ScopeForge.py:22-25 | split('-') at the only dash, with both sides parsing as addresses, gives the range between them |
| LineParser.NotCommentBeforeAddress | ScopeForge.py:17 | a stripped line that begins with an address is not blank and not a comment |
| LineParser.IsCommentOrBlank | ScopeForge.py:17 | the blank-or-comment test on the stripped line: empty, or starting with '#' or '//'; its effect is stated by ParseIpLine and CommentLinesIgnored |
| LineParser.MultipleDashLine | ScopeForge.py:20-28 | a line with two or more dashes yields nothing |
| LineParser.BadEndpointLine | ScopeForge.py:20-28 | a one-dash line with an endpoint that is not an address yields nothing |
| LineParser.NetworkLine | ScopeForge.py:30-33 | a line ip_network accepts yields every address of the network, including the network and broadcast addresses |
| LineParser.CidrLine | ScopeForge.py:31-33 | `a.b.c.d/n` yields all 2^(32-n) addresses of the block containing a.b.c.d, with host bits ignored |
| LineParser.BareAddressLine | ScopeForge.py:31-36 | a bare address yields just itself |
| LineParser.UnparsableLine | ScopeForge.py:34-39 | a dash-free line that is not a network yields nothing: falling back to IPv4Address never succeeds where ip_network failed |
| Collector.UnionMembers | ScopeForge.py:47 | an address is in the union of the lists exactly when it is in one of them |
| Collector.UnionAppend | ScopeForge.py:46-47 | the union over two stretches of lines is the union of the two unions |
| Collector.Collected | ScopeForge.py:43-47 | the set collect_ip_set_from_file returns: the union of parse_ip_line over every line; CollectIpSet proves the loop computes it and CollectedMembers says what it holds |
| Collector.CollectedMembers | ScopeForge.py:43-47 | an address is collected exactly when some line of the file yields it |
| Collector.CollectIpSet | ScopeForge.py:42-54 | the set the loop builds equals the union of parse_ip_line over every line |
| Collector.CollectedAppend | ScopeForge.py:46-47 | the set collected from two concatenated files is the union of the two sets |
| Collector.CollectedDependsOnLineSet | ScopeForge.py:43-47 | the collected set depends only on which lines occur, not on their order or repetition |
| Collector.CollectedFromSubset | ScopeForge.py:43-47 | adding lines never removes an address from the collected set |
| Collector.CommentLinesIgnored | ScopeForge.py:16-18 | a blank or comment line adds nothing to the collected set |
| Aggregate.LargestFit | ScopeForge.py:59 | the chosen block exponent fits the front of the sorted run: its first address is aligned to 2^k and the first 2^k addresses are consecutive |
| Aggregate.LargestFitIsLargest | ScopeForge.py:59 | no larger block fits at the front |
| Aggregate.Collapse | ScopeForge.py:59 | every block of collapse_addresses is aligned, and the blocks' addresses, in order, are exactly the sorted input |
| Aggregate.FitsContiguous | ScopeForge.py:59 | a fitting front block is a run of consecutive addresses |
| Aggregate.FrontBlock | ScopeForge.py:59 | the front block is an aligned network whose addresses are exactly the first 2^k sorted addresses |
| Aggregate.Parent | ScopeForge.py:59 | the block one prefix bit shorter is aligned, twice as large and contains the block |
| Aggregate.CoveredFits | ScopeForge.py:59 | an aligned block at the front whose addresses are all in the set fits the front of the run |
| Aggregate.FrontMaximal | ScopeForge.py:59 | the first block produced is maximal: its parent block is not wholly in the set |
| Aggregate.NextStartsBlocks | ScopeForge.py:59 | no block wholly inside the set straddles the start of the next block |
| Aggregate.NextBlockStartsAt | ScopeForge.py:59 | a block inside the set that reaches the next address starts exactly there |
| Aggregate.BlockOverNextFits | ScopeForge.py:59 | a block reaching from below the next address over it would be a larger fitting block |
| Aggregate.RestHoldsAbove | ScopeForge.py:59 | the rest after the front block still holds every set member above its first address |
| Aggregate.CollapseMaximalFrom | ScopeForge.py:59 | every block of the output is maximal for the set |
| Aggregate.CollapseMaximal | ScopeForge.py:59 | no output block can be merged into a larger aligned block inside the set, so no two outputs are the halves of one block |
| Aggregate.CollapseOrdered | ScopeForge.py:59 | output blocks are ascending and pairwise disjoint: each ends before the next begins |
| Aggregate.ExpandOrdered | ScopeForge.py:59 | blocks whose addresses are strictly ascending are ordered and disjoint |
| Aggregate.BlockAddressesInTail | ScopeForge.py:59 | every address of any block is among the blocks' addresses |
| Aggregate.CollapseBlock | ScopeForge.py:59 | a whole network collapses to itself, so collapsing is idempotent on its own output blocks |
| Aggregate.CollapseSingleton | ScopeForge.py:59 | a single address collapses to one /32 |
| Aggregate.BlockFitsExactly | ScopeForge.py:59 | the largest block fitting a network's addresses is the network itself |
| ScopeFiles.SortedAddresses | ScopeForge.py:72 | sorted(ip_set, key=int) is strictly ascending and holds exactly the members of the set |
| ScopeFiles.SortedLength | ScopeForge.py:72 | the sorted list has one entry per member of the set: no duplicates and no losses |
| ScopeFiles.WriteAggregatedScope | ScopeForge.py:57-62 | write_aggregated_scope_file writes the collapsed networks of the sorted set, one `str(network)` line each |
| ScopeFiles.AggregatedLines | ScopeForge.py:59-62 | the lines write_aggregated_scope_file writes: str() of each collapsed network of the sorted set; AggregatedReadsBack, AggregatedCovers, AggregatedOrdered and AggregatedMaximal state what they hold |
| ScopeFiles.WriteNetworkLines | ScopeForge.py:61-62 | the loop writes one line per network, in order, each the network's text followed by a newline |
| ScopeFiles.WriteIndividualIps | ScopeForge.py:69-73 | write_individual_ip_file writes the sorted addresses, one `str(ip)` line each |
| ScopeFiles.IndividualLines | ScopeForge.py:72-73 | the lines write_individual_ip_file writes: str() of each address of the sorted set; IndividualReadsBack states that they read back as the set |
| ScopeFiles.WriteAddressLines | ScopeForge.py:72-73 | the loop writes one line per address, in order, each the dotted quad followed by a newline |
| ScopeFiles.NetworkLineReadsBack | ScopeForge.py:62 | a written network line, parsed again, yields exactly that network's addresses |
| ScopeFiles.AddressLineReadsBack | ScopeForge.py:73 | a written address line, parsed again, yields exactly that address |
| ScopeFiles.ExpandMembers | ScopeForge.py:59 | an address is among the blocks' addresses exactly when one block holds it |
| ScopeFiles.AggregatedReadsBack | ScopeForge.py:57-62 | reading scope_cleaned back with the collector gives exactly the set that was written |
| ScopeFiles.IndividualReadsBack | ScopeForge.py:69-73 | reading an individual-address file back gives exactly the set that was written |
| ScopeFiles.NetworkLinesReadBack | ScopeForge.py:61-62 | network lines read back as the union of their networks |
| ScopeFiles.AddressLinesReadBack | ScopeForge.py:72-73 | address lines read back as exactly the listed addresses |
| ScopeFiles.AggregatedOrdered | ScopeForge.py:59 | the networks of scope_cleaned are ascending by base and pairwise disjoint |
| ScopeFiles.AggregatedCovers | ScopeForge.py:59 | the networks of scope_cleaned cover the set exactly: an address is in the set iff some listed network holds it |
| ScopeFiles.AggregatedSingleton | ScopeForge.py:59-62 | a one-address scope is written as the single line `a.b.c.d/32` |
| ScopeFiles.AggregatedMaximal | ScopeForge.py:59 | each network of scope_cleaned is maximal: its parent block is not wholly in the set |
| ScopeForge.Decide | ScopeForge.py:102-125 | the counts are the sizes of the in, out and in − out sets. Exit status 2 happens iff fail-on-empty is set and in − out is empty, whatever summary-only says. No files are written iff the status is 2 or summary-only is set |
| ScopeForge.Writes | ScopeForge.py:117-125 | scope_cleaned (aggregated final scope) comes first, scope_cleaned_every_ip_listed (individual final scope) second only with --all-addresses, and out_of_scope_addresses (individual excluded set) last |
| ScopeForge.RenderAll | ScopeForge.py:117-125 | one file per writer call |
| ScopeForge.RenderWrites | ScopeForge.py:117-125 | main's writer calls produce the aggregated final scope, then optionally the individual final scope, then the individual exclusions |
| ScopeForge.RunScopeForge | ScopeForge.py:102-125 | reading both files, subtracting and acting on the flags produces exactly the summary, exit status and files that Decide plans |
| ScopeForge.ArtifactOrder | ScopeForge.py:117-125 | the files written are named scope_cleaned, scope_cleaned_every_ip_listed (with --all-addresses), out_of_scope_addresses, in that order |
| ScopeForge.WriterCalls | ScopeForge.py:117-125 | only scope_cleaned is aggregated. scope_cleaned and the every-ip file receive in − out, and out_of_scope_addresses receives the excluded set |
| ScopeForge.RenderReadsBack | ScopeForge.py:57-73 | every written file, read back through the collector, gives exactly the set its writer received |
| ScopeForge.CleanedScopeIsDifference | ScopeForge.py:104-118 | scope_cleaned reads back as in − out: no excluded address is in it, and every in-scope address that is not excluded is |

Two behaviours of the code are worth stating on their own:

- A CIDR line always yields every address of its block, including the
  network and broadcast addresses (ScopeForge.py:31-33). No option changes
  this.
- The exclusions file lists the excluded addresses one by one, through the
  individual-address writer, and is not aggregated (ScopeForge.py:124-125).

## Left out

- Opening, reading and writing files, `os.path`, `os.makedirs` and the output
  directory are not modelled. A file is its sequence of lines, and an
  artifact is its name and its lines.
- `sys.exit(1)` on read or write failures is not modelled, because the model
  has no I/O that could fail.
- Logging (`setup_logging`, info, warning and error messages) and argparse
  (`build_argument_parser`) are not modelled. The three logged counts are
  kept as `ScopeForge.Summary`, and the flags are a record.
- IPv6 text is not modelled. `ip_network` would accept it, and a mixed set
  would make `collapse_addresses` fail. The model reads such a line as
  yielding nothing.
- Netmask and hostmask suffixes (`a.b.c.d/255.255.255.0`) are not modelled.
  `ipaddress` also accepts them; the model reads them as no network.
- Ipv4.ParsePrefixLength: only decimal prefix lengths are modelled; a
  non-digit suffix is rejected as a whole.
- Older Python versions of `ipaddress` are not modelled. The octet parser
  follows the leading-zero rule of current versions, which reject octets
  such as `010`. Older versions accepted them; there an address has more
  than one accepted spelling, and FormatParseAddress does not hold.
- Memory and time spent expanding large blocks and ranges are not modelled.
- The subprocess-driven test driver (tests/test_scopeforge.py:8-13) is not
  modelled.
- `collapse_addresses` is modelled as greedy splitting of the sorted run into
  the largest aligned blocks. This is what `summarize_address_range` yields
  for each run of consecutive addresses. The library's internal merging
  steps are not modelled.
