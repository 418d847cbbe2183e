/** Port Inspector: the parsing of `netstat -an` output (`parse_ports`) and
    the per-port line filter of `get_port_info`. The captured stdout is a
    parameter; running netstat is not part of this model. */
module PortInspector {
  import opened TextOps
  import opened Seqs

  const PortHeaders: seq<string> := ["Proto", "Local Address", "Foreign Address", "State"]

  /** A line `parse_ports` keeps: it has at least four tokens. */
  predicate IsPortLine(line: string) {
    |Words(line)| >= 4
  }

  /** The rows `parse_ports` builds from `lines`: for each line with at least
      four tokens, in input order, its first four tokens. */
  function PortRows(lines: seq<string>): (rows: seq<seq<string>>)
  {
    var kept := Filter(lines, IsPortLine);
    seq(|kept|, k requires 0 <= k < |kept| => Words(kept[k])[..4])
  }

  /** Each row is four whitespace-free, non-empty cells, the first four tokens
      of the k-th line that has at least four; there are as many rows as such
      lines, and lines with fewer tokens contribute nothing. */
  lemma PortRowsShape(lines: seq<string>)
    ensures var rows, kept := PortRows(lines), Filter(lines, IsPortLine);
      && |rows| == |kept|
      && forall k | 0 <= k < |rows| ::
           |rows[k]| == 4 && rows[k] <= Words(kept[k]) && forall c | c in rows[k] :: IsToken(c)
  {
    var rows, kept := PortRows(lines), Filter(lines, IsPortLine);
    forall k, c | 0 <= k < |rows| && c in rows[k]
      ensures IsToken(c)
    {
      assert c in Words(kept[k]);
      WordsAreTokens(kept[k]);
    }
  }

  /** Appending one line to the input appends at most its row. */
  lemma PortRowsSnoc(lines: seq<string>, line: string)
    ensures PortRows(lines + [line])
         == PortRows(lines) + (if IsPortLine(line) then [Words(line)[..4]] else [])
  {
    FilterAppend(lines, [line], IsPortLine);
    assert Filter([line], IsPortLine) == if IsPortLine(line) then [line] else [] by {
      assert [line][1..] == [];
    }
  }

  /** `parse_ports(output)`: split the text into lines and, line by line,
      keep the first four tokens of each line that has at least four. */
  method ParsePorts(output: string) returns (headers: seq<string>, data: seq<seq<string>>)
    ensures headers == PortHeaders
    ensures data == PortRows(SplitLines(output))
  {
    var lines := SplitLines(output);
    headers := PortHeaders;
    data := [];
    for i := 0 to |lines|
      invariant data == PortRows(lines[..i])
    {
      var parts := Words(lines[i]);
      if |parts| >= 4 {
        data := data + [parts[..4]];
      }
      assert lines[..i + 1] == lines[..i] + [lines[i]];
      PortRowsSnoc(lines[..i], lines[i]);
    }
    assert lines[..|lines|] == lines;
  }

  /** The text a line must contain to be about `port`: `":" + port + " "`. */
  function PortNeedle(port: string): string {
    ":" + port + " "
  }

  /** `[line for line in lines if f":{port} " in line]`. */
  function PortFilter(lines: seq<string>, port: string): (kept: seq<string>)
    ensures forall k | 0 <= k < |kept| :: Contains(kept[k], PortNeedle(port))
    ensures IsSubsequence(kept, lines)
    ensures forall l :: multiset(kept)[l] == if Contains(l, PortNeedle(port)) then multiset(lines)[l] else 0
  {
    var p := (l: string) => Contains(l, PortNeedle(port));
    FilterIsSubsequence(lines, p);
    forall l
      ensures multiset(Filter(lines, p))[l] == if p(l) then multiset(lines)[l] else 0
    {
      FilterMultiset(lines, p, l);
    }
    Filter(lines, p)
  }

  /** Filtering a second time for the same port changes nothing. */
  lemma PortFilterIdempotent(lines: seq<string>, port: string)
    ensures PortFilter(PortFilter(lines, port), port) == PortFilter(lines, port)
  {
    FilterIdempotent(lines, (l: string) => Contains(l, PortNeedle(port)));
  }

  /** `get_port_info` after netstat has run: keep the lines about `port`,
      join them with '\n' and hand the text to `parse_ports`. The rows are
      exactly those of the kept lines: the join and the re-split inside
      `parse_ports` lose nothing. */
  method PortInfo(output: string, port: string) returns (headers: seq<string>, data: seq<seq<string>>)
    ensures headers == PortHeaders
    ensures data == PortRows(PortFilter(SplitLines(output), port))
  {
    var lines := SplitLines(output);
    var kept := PortFilter(lines, port);
    headers, data := ParsePorts(JoinLines(kept));
    SplitLinesHaveNoBreak(output);
    forall l | l in kept
      ensures '\n' !in l
    {
      assert multiset(kept)[l] > 0;
      assert l in lines;
    }
    if kept != [] {
      var last := kept[|kept| - 1];
      assert Contains(last, PortNeedle(port));
      assert last != "";
    }
    SplitJoinLines(kept);
  }
}
